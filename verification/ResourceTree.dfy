// The resource index of a bundle: lookups of resources.cpp and api/res/res.cpp, and the two
// listings of api/res/res.cpp.
module ResourceTree {
  import opened Common
  import opened Strings

  // A node of the header: {"files": {...}} is a directory, anything else a file. Entries are in
  // the key order in which the JSON object iterates.
  datatype Node = File(size: nat, offset: string) | Dir(entries: seq<Entry>)
  datatype Entry = Entry(name: string, node: Node)

  predicate ValidName(name: string) {
    name != "" && '/' !in name
  }

  predicate DistinctNames(entries: seq<Entry>) {
    forall i, j :: 0 <= i < j < |entries| ==> entries[i].name != entries[j].name
  }

  predicate WellNamed(node: Node) {
    match node
    case File(_, _) => true
    case Dir(entries) =>
      DistinctNames(entries) && forall i :: 0 <= i < |entries| ==>
        ValidName(entries[i].name) && WellNamed(entries[i].node)
  }

  // json["files"][name]; None is null.
  function Child(entries: seq<Entry>, name: string): Option<Node> {
    if entries == [] then None
    else if entries[0].name == name then Some(entries[0].node)
    else Child(entries[1..], name)
  }

  lemma {:induction false} ChildOfEntry(entries: seq<Entry>, i: nat)
    requires DistinctNames(entries) && i < |entries|
    ensures Child(entries, entries[i].name) == Some(entries[i].node)
  {
    if i > 0 {
      assert entries[0].name != entries[i].name;
      ChildOfEntry(entries[1..], i - 1);
    }
  }

  // ---------- Lookups ----------

  datatype Position = Found(size: nat, offset: string) | NotFound | TypeError

  // The cursor of __seekFilePos: a file stays where it is, whatever follows.
  function SeekFrom(node: Option<Node>, segments: seq<string>): Option<Node>
    decreases |segments|
  {
    if segments == [] then node
    else match node
      case Some(Dir(entries)) => SeekFrom(Child(entries, segments[0]), segments[1..])
      case _ => SeekFrom(node, segments[1..])
  }

  // A directory has no "size", so reading it throws.
  function PositionOf(node: Option<Node>): Position {
    match node
    case None => NotFound
    case Some(File(size, offset)) => Found(size, offset)
    case Some(Dir(_)) => TypeError
  }

  function Seek(tree: Option<Node>, path: string): Position {
    PositionOf(SeekFrom(tree, Segments(path)))
  }

  // The cursor of __getStats: below a file there is nothing.
  function WalkFrom(node: Option<Node>, segments: seq<string>): Option<Node>
    decreases |segments|
  {
    if segments == [] then node
    else match node
      case Some(Dir(entries)) => WalkFrom(Child(entries, segments[0]), segments[1..])
      case _ => None
  }

  // Size and isFile; None is the pair (-1, false).
  function StatsOf(node: Option<Node>): Option<(nat, bool)> {
    match node
    case None => None
    case Some(File(size, _)) => Some((size, true))
    case Some(Dir(_)) => Some((4096, false))
  }

  function Stats(tree: Option<Node>, path: string): Option<(nat, bool)> {
    StatsOf(WalkFrom(tree, Segments(path)))
  }

  method SeekFilePos(path: string, tree: Option<Node>) returns (position: Position)
    ensures position == Seek(tree, path)
  {
    var pathSegments := Split(path, '/', None);
    var cursor := tree;
    assert pathSegments[0..] == pathSegments;
    for i := 0 to |pathSegments|
      invariant SeekFrom(cursor, NonEmpty(pathSegments[i..])) == SeekFrom(tree, Segments(path))
    {
      var segment := pathSegments[i];
      assert pathSegments[i..][0] == segment && pathSegments[i..][1..] == pathSegments[i + 1..];
      ghost var rest := NonEmpty(pathSegments[i + 1..]);
      assert segment != "" ==> ([segment] + rest)[1..] == rest;
      assert segment == "" ==> [] + rest == rest;
      if segment == "" || cursor == None || cursor.value.File? {
        continue;
      }
      cursor := Child(cursor.value.entries, segment);
    }
    position := match cursor
      case None => NotFound
      case Some(File(size, offset)) => Found(size, offset)
      case Some(Dir(_)) => TypeError;
  }

  method GetStats(tree: Option<Node>, path: string) returns (stats: Option<(nat, bool)>)
    ensures stats == Stats(tree, path)
  {
    var pathSegments := Split(path, '/', None);
    var cursor := tree;
    assert pathSegments[0..] == pathSegments;
    for i := 0 to |pathSegments|
      invariant WalkFrom(cursor, NonEmpty(pathSegments[i..])) == WalkFrom(tree, Segments(path))
    {
      var segment := pathSegments[i];
      assert pathSegments[i..][0] == segment && pathSegments[i..][1..] == pathSegments[i + 1..];
      ghost var rest := NonEmpty(pathSegments[i + 1..]);
      assert segment != "" ==> ([segment] + rest)[1..] == rest;
      assert segment == "" ==> [] + rest == rest;
      if segment == "" {
        continue;
      }
      if cursor == None {
        WalkFromNothing(NonEmpty(pathSegments[i..]));
        break;
      }
      cursor := match cursor.value
        case File(_, _) => None
        case Dir(entries) => Child(entries, segment);
    }
    if cursor != None {
      var isFile := cursor.value.File?;
      stats := Some((if isFile then cursor.value.size else 4096, isFile));
    } else {
      stats := None;
    }
  }

  lemma WalkFromNothing(segments: seq<string>)
    ensures WalkFrom(None, segments) == None
  {
  }

  lemma {:induction false} SeekFromNothing(segments: seq<string>)
    ensures SeekFrom(None, segments) == None
  {
    if segments != [] {
      SeekFromNothing(segments[1..]);
    }
  }

  lemma {:induction false} WalkAppend(node: Option<Node>, a: seq<string>, b: seq<string>)
    ensures WalkFrom(node, a + b) == WalkFrom(WalkFrom(node, a), b)
    decreases |a|
  {
    if a == [] {
      assert a + b == b;
    } else {
      assert (a + b)[1..] == a[1..] + b;
      WalkFromNothing(b);
      if node.Some? && node.value.Dir? {
        WalkAppend(Child(node.value.entries, a[0]), a[1..], b);
      }
    }
  }

  lemma {:induction false} SeekAppend(node: Option<Node>, a: seq<string>, b: seq<string>)
    ensures SeekFrom(node, a + b) == SeekFrom(SeekFrom(node, a), b)
    decreases |a|
  {
    if a == [] {
      assert a + b == b;
    } else {
      assert (a + b)[1..] == a[1..] + b;
      match node
      case Some(Dir(entries)) => SeekAppend(Child(entries, a[0]), a[1..], b);
      case _ => SeekAppend(node, a[1..], b);
    }
  }

  // Where the strict walk arrives, the lenient one arrives too.
  lemma {:induction false} SeekFollowsWalk(node: Option<Node>, segments: seq<string>)
    requires WalkFrom(node, segments) != None
    ensures SeekFrom(node, segments) == WalkFrom(node, segments)
    decreases |segments|
  {
    if segments != [] {
      SeekFollowsWalk(Child(node.value.entries, segments[0]), segments[1..]);
    }
  }

  // Repeated, leading and trailing slashes do not change a lookup.
  lemma SlashesDoNotMatter(tree: Option<Node>, a: string, b: string)
    ensures Seek(tree, a + ("/" + ("/" + b))) == Seek(tree, a + ("/" + b))
    ensures Stats(tree, a + ("/" + ("/" + b))) == Stats(tree, a + ("/" + b))
    ensures Seek(tree, a + "/") == Seek(tree, a) && Stats(tree, a + "/") == Stats(tree, a)
  {
    SegmentsAppend(a, "/" + b);
    SegmentsAppend(a, b);
    SegmentsAppend("", b);
    SegmentsAppend(a, "");
    assert "" + ("/" + b) == "/" + b && "/" + "" == "/";
    assert Segments("") == [] && [] + Segments(b) == Segments(b) && Segments(a) + [] == Segments(a);
  }

  // A name that an existing directory does not have is not found, whatever follows it.
  lemma MissingNameIsNotFound(tree: Option<Node>, dir: string, name: string, rest: string)
    requires ValidName(name)
    requires WalkFrom(tree, Segments(dir)).Some? && WalkFrom(tree, Segments(dir)).value.Dir?
    requires Child(WalkFrom(tree, Segments(dir)).value.entries, name) == None
    ensures Seek(tree, dir + ("/" + (name + ("/" + rest)))) == NotFound
    ensures Stats(tree, dir + ("/" + (name + ("/" + rest)))) == None
  {
    SegmentsAppend(dir, name + ("/" + rest));
    SegmentsAppend(name, rest);
    SegmentsBare(name);
    var tail := [name] + Segments(rest);
    assert tail[1..] == Segments(rest);
    SeekFollowsWalk(tree, Segments(dir));
    SeekAppend(tree, Segments(dir), tail);
    WalkAppend(tree, Segments(dir), tail);
    SeekFromNothing(Segments(rest));
    WalkFromNothing(Segments(rest));
  }

  // Below a file the two lookups differ: one still finds the file, the other finds nothing.
  lemma BelowAFile(tree: Option<Node>, file: string, rest: string)
    requires WalkFrom(tree, Segments(file)).Some? && WalkFrom(tree, Segments(file)).value.File?
    requires Segments(rest) != []
    ensures Seek(tree, file + ("/" + rest)) == Seek(tree, file) && Seek(tree, file).Found?
    ensures Stats(tree, file + ("/" + rest)) == None
  {
    SegmentsAppend(file, rest);
    SeekFollowsWalk(tree, Segments(file));
    SeekAppend(tree, Segments(file), Segments(rest));
    WalkAppend(tree, Segments(file), Segments(rest));
    SeekFromFile(WalkFrom(tree, Segments(file)), Segments(rest));
  }

  lemma {:induction false} SeekFromFile(node: Option<Node>, segments: seq<string>)
    requires node.Some? && node.value.File?
    ensures SeekFrom(node, segments) == node
    decreases |segments|
  {
    if segments != [] {
      SeekFromFile(node, segments[1..]);
    }
  }

  // ---------- Listings ----------

  // __getAllFiles below `base`: every entry, directories included, in iteration order.
  function AllPaths(base: string, node: Node): seq<string>
    decreases node, 1
  {
    match node
    case File(_, _) => []
    case Dir(entries) => EntriesPaths(base, entries)
  }

  function EntriesPaths(base: string, entries: seq<Entry>): seq<string>
    decreases entries, 0
  {
    if entries == [] then []
    else
      var path := base + ("/" + entries[0].name);
      [path] + AllPaths(path, entries[0].node) + EntriesPaths(base, entries[1..])
  }

  // __getFiles below `path`: files whose path starts with `root`; a directory is skipped when
  // neither path starts with the other.
  function PrunedPaths(path: string, node: Node, root: string): seq<string>
    decreases node, 1
  {
    match node
    case File(_, _) => if root <= path then [path] else []
    case Dir(entries) =>
      if !(path <= root) && !(root <= path) then [] else PrunedEntries(path, entries, root)
  }

  function PrunedEntries(path: string, entries: seq<Entry>, root: string): seq<string>
    decreases entries, 0
  {
    if entries == [] then []
    else
      PrunedPaths(path + ("/" + entries[0].name), entries[0].node, root)
      + PrunedEntries(path, entries[1..], root)
  }

  // The vector that the recursive lambdas push into.
  class Listing {
    var files: seq<string>

    constructor ()
      ensures files == []
    {
      files := [];
    }

    method ListAll(basePath: string, node: Node)
      modifies this
      ensures files == old(files) + AllPaths(basePath, node)
      decreases node
    {
      if node.File? {
        assert files + [] == files;
        return;
      }
      var entries := node.entries;
      assert entries[0..] == entries;
      for i := 0 to |entries|
        invariant files + EntriesPaths(basePath, entries[i..]) == old(files) + EntriesPaths(basePath, entries)
      {
        assert entries[i..][0] == entries[i] && entries[i..][1..] == entries[i + 1..];
        var path := basePath + ("/" + entries[i].name);
        ghost var before, later := files, EntriesPaths(basePath, entries[i + 1..]);
        files := files + [path];
        ListAll(path, entries[i].node);
        ghost var below := AllPaths(path, entries[i].node);
        assert before + ([path] + below + later) == before + [path] + below + later;
      }
      assert files + [] == files;
    }

    method ListPruned(path: string, node: Node, rootPath: string)
      modifies this
      ensures files == old(files) + PrunedPaths(path, node, rootPath)
      decreases node
    {
      assert files + [] == files;
      if node.File? {
        if rootPath <= path {
          files := files + [path];
        }
        return;
      } else if !(path <= rootPath) && !(rootPath <= path) {
        return;
      }
      var entries := node.entries;
      assert entries[0..] == entries;
      for i := 0 to |entries|
        invariant files + PrunedEntries(path, entries[i..], rootPath)
               == old(files) + PrunedEntries(path, entries, rootPath)
      {
        assert entries[i..][0] == entries[i] && entries[i..][1..] == entries[i + 1..];
        var childPath := path + ("/" + entries[i].name);
        Assoc(files, PrunedPaths(childPath, entries[i].node, rootPath), PrunedEntries(path, entries[i + 1..], rootPath));
        ListPruned(childPath, entries[i].node, rootPath);
      }
      assert files + [] == files;
    }
  }

  method GetAllFiles(tree: Option<Node>) returns (files: seq<string>)
    ensures files == if tree == None then [] else AllPaths("", tree.value)
  {
    if tree == None {
      return [];
    }
    var listing := new Listing();
    listing.ListAll("", tree.value);
    assert [] + AllPaths("", tree.value) == AllPaths("", tree.value);
    files := listing.files;
  }

  method GetFiles(tree: Node, rootPath: string) returns (files: seq<string>)
    ensures files == PrunedPaths("", tree, rootPath)
  {
    var listing := new Listing();
    listing.ListPruned("", tree, rootPath);
    assert [] + PrunedPaths("", tree, rootPath) == PrunedPaths("", tree, rootPath);
    files := listing.files;
  }

  // ---------- Lookup agrees with listing ----------

  // The files below `base`, with their paths, in listing order.
  function Leaves(base: string, node: Node): seq<(string, Node)>
    decreases node, 1
  {
    match node
    case File(_, _) => [(base, node)]
    case Dir(entries) => EntriesLeaves(base, entries)
  }

  function EntriesLeaves(base: string, entries: seq<Entry>): seq<(string, Node)>
    decreases entries, 0
  {
    if entries == [] then []
    else Leaves(base + ("/" + entries[0].name), entries[0].node) + EntriesLeaves(base, entries[1..])
  }

  function PathsOf(leaves: seq<(string, Node)>): seq<string> {
    if leaves == [] then [] else [leaves[0].0] + PathsOf(leaves[1..])
  }

  lemma {:induction false} PathsOfAppend(a: seq<(string, Node)>, b: seq<(string, Node)>)
    ensures PathsOf(a + b) == PathsOf(a) + PathsOf(b)
  {
    if a == [] {
      assert a + b == b;
    } else {
      assert (a + b)[1..] == a[1..] + b;
      PathsOfAppend(a[1..], b);
    }
  }

  // The paths of a list that __getStats calls files.
  function FilesAmong(tree: Node, paths: seq<string>): seq<string> {
    if paths == [] then []
    else
      var s := Stats(Some(tree), paths[0]);
      (if s.Some? && s.value.1 then [paths[0]] else []) + FilesAmong(tree, paths[1..])
  }

  lemma {:induction false} FilesAmongAppend(tree: Node, a: seq<string>, b: seq<string>)
    ensures FilesAmong(tree, a + b) == FilesAmong(tree, a) + FilesAmong(tree, b)
  {
    if a == [] {
      assert a + b == b;
    } else {
      assert (a + b)[1..] == a[1..] + b;
      FilesAmongAppend(tree, a[1..], b);
    }
  }

  // The walk from the top of the tree to `path` arrives at `node`.
  ghost predicate Arrives(tree: Node, path: string, node: Node) {
    WalkFrom(Some(tree), Segments(path)) == Some(node)
  }

  lemma ArrivesAtEntry(tree: Node, base: string, entries: seq<Entry>, i: nat)
    requires Arrives(tree, base, Dir(entries)) && WellNamed(Dir(entries)) && i < |entries|
    ensures Arrives(tree, base + ("/" + entries[i].name), entries[i].node)
  {
    var name := entries[i].name;
    SegmentsAppend(base, name);
    SegmentsBare(name);
    WalkAppend(Some(tree), Segments(base), [name]);
    ChildOfEntry(entries, i);
    assert [name][1..] == [];
  }

  // Both lookups of every listed file give that file.
  ghost predicate Resolved(tree: Node, leaves: seq<(string, Node)>) {
    forall k :: 0 <= k < |leaves| ==>
      && leaves[k].1.File?
      && Seek(Some(tree), leaves[k].0) == Found(leaves[k].1.size, leaves[k].1.offset)
      && Stats(Some(tree), leaves[k].0) == Some((leaves[k].1.size, true))
  }

  lemma {:induction false} LeavesResolve(tree: Node, base: string, node: Node)
    requires Arrives(tree, base, node) && WellNamed(node)
    ensures Resolved(tree, Leaves(base, node))
    decreases node, 1
  {
    match node
    case File(_, _) => SeekFollowsWalk(Some(tree), Segments(base));
    case Dir(entries) => EntriesResolve(tree, base, entries, 0);
  }

  lemma {:induction false} EntriesResolve(tree: Node, base: string, entries: seq<Entry>, i: nat)
    requires Arrives(tree, base, Dir(entries)) && WellNamed(Dir(entries)) && i <= |entries|
    ensures Resolved(tree, EntriesLeaves(base, entries[i..]))
    decreases Dir(entries), 0, |entries| - i
  {
    if i < |entries| {
      ArrivesAtEntry(tree, base, entries, i);
      LeavesResolve(tree, base + ("/" + entries[i].name), entries[i].node);
      EntriesResolve(tree, base, entries, i + 1);
      assert entries[i..][0] == entries[i] && entries[i..][1..] == entries[i + 1..];
    }
  }

  // Every file that the full listing contains is found by both lookups with its own size and
  // offset, and the files of the full listing are exactly these, in the same order.
  lemma LookupAgreesWithListing(tree: Node)
    requires WellNamed(tree) && tree.Dir?
    ensures Resolved(tree, Leaves("", tree))
    ensures FilesAmong(tree, AllPaths("", tree)) == PathsOf(Leaves("", tree))
  {
    assert Segments("") == [];
    LeavesResolve(tree, "", tree);
    FilesAreLeaves(tree, "", tree);
  }

  lemma {:induction false} FilesAreLeaves(tree: Node, base: string, node: Node)
    requires Arrives(tree, base, node) && WellNamed(node) && node.Dir?
    ensures FilesAmong(tree, AllPaths(base, node)) == PathsOf(Leaves(base, node))
    decreases node, 1
  {
    EntriesAreLeaves(tree, base, node.entries, 0);
    assert node.entries[0..] == node.entries;
  }

  lemma {:induction false} EntriesAreLeaves(tree: Node, base: string, entries: seq<Entry>, i: nat)
    requires Arrives(tree, base, Dir(entries)) && WellNamed(Dir(entries)) && i <= |entries|
    ensures FilesAmong(tree, EntriesPaths(base, entries[i..])) == PathsOf(EntriesLeaves(base, entries[i..]))
    decreases Dir(entries), 0, |entries| - i
  {
    if i < |entries| {
      var e := entries[i];
      var path := base + ("/" + e.name);
      ArrivesAtEntry(tree, base, entries, i);
      EntriesAreLeaves(tree, base, entries, i + 1);
      assert entries[i..][0] == e && entries[i..][1..] == entries[i + 1..];
      OneEntry(tree, path, e.node);
      var own := [path] + AllPaths(path, e.node);
      if e.node.Dir? {
        FilesAreLeaves(tree, path, e.node);
      }
      FilesAmongAppend(tree, own, EntriesPaths(base, entries[i + 1..]));
      PathsOfAppend(Leaves(path, e.node), EntriesLeaves(base, entries[i + 1..]));
    }
  }

  lemma OneEntry(tree: Node, path: string, node: Node)
    requires Arrives(tree, path, node)
    ensures FilesAmong(tree, [path] + AllPaths(path, node))
         == if node.Dir? then FilesAmong(tree, AllPaths(path, node)) else [path]
    ensures node.File? ==> PathsOf(Leaves(path, node)) == [path]
  {
    FilesAmongAppend(tree, [path], AllPaths(path, node));
    assert [path][1..] == [] && [path] + [] == [path];
    assert node.File? ==> Leaves(path, node)[1..] == [];
  }

  // ---------- Pruning loses nothing ----------

  function StartingWith(paths: seq<string>, root: string): seq<string> {
    if paths == [] then []
    else (if root <= paths[0] then [paths[0]] else []) + StartingWith(paths[1..], root)
  }

  lemma {:induction false} StartingWithAppend(a: seq<string>, b: seq<string>, root: string)
    ensures StartingWith(a + b, root) == StartingWith(a, root) + StartingWith(b, root)
  {
    if a == [] {
      assert a + b == b;
    } else {
      assert (a + b)[1..] == a[1..] + b;
      StartingWithAppend(a[1..], b, root);
    }
  }

  ghost predicate AllBelow(paths: seq<string>, base: string) {
    forall k :: 0 <= k < |paths| ==> base <= paths[k]
  }

  lemma {:induction false} LeavesAreBelow(base: string, node: Node)
    ensures AllBelow(PathsOf(Leaves(base, node)), base)
    decreases node, 1
  {
    match node
    case File(_, _) => assert Leaves(base, node)[1..] == [];
    case Dir(entries) => EntriesAreBelow(base, entries);
  }

  lemma {:induction false} EntriesAreBelow(base: string, entries: seq<Entry>)
    ensures AllBelow(PathsOf(EntriesLeaves(base, entries)), base)
    decreases entries, 0
  {
    if entries != [] {
      var path := base + ("/" + entries[0].name);
      LeavesAreBelow(path, entries[0].node);
      EntriesAreBelow(base, entries[1..]);
      PathsOfAppend(Leaves(path, entries[0].node), EntriesLeaves(base, entries[1..]));
      assert base <= path;
    }
  }

  lemma PrefixesComparable(a: string, b: string, whole: string)
    ensures a <= whole && b <= whole ==> a <= b || b <= a
  {
  }

  // A skipped directory holds no wanted file: two prefixes of one path are comparable.
  lemma {:induction false} NothingSkipped(paths: seq<string>, base: string, root: string)
    requires AllBelow(paths, base) && !(base <= root) && !(root <= base)
    ensures StartingWith(paths, root) == []
  {
    if paths != [] {
      PrefixesComparable(base, root, paths[0]);
      NothingSkipped(paths[1..], base, root);
    }
  }

  lemma {:induction false} PrunedIsFiltered(path: string, node: Node, root: string)
    ensures PrunedPaths(path, node, root) == StartingWith(PathsOf(Leaves(path, node)), root)
    decreases node, 1
  {
    match node
    case File(_, _) =>
      assert Leaves(path, node)[1..] == [] && PathsOf(Leaves(path, node)) == [path];
      assert [path][1..] == [];
    case Dir(entries) =>
      PrunedEntriesFiltered(path, entries, root);
      if !(path <= root) && !(root <= path) {
        LeavesAreBelow(path, node);
        NothingSkipped(PathsOf(Leaves(path, node)), path, root);
      }
  }

  lemma {:induction false} PrunedEntriesFiltered(path: string, entries: seq<Entry>, root: string)
    ensures PrunedEntries(path, entries, root) == StartingWith(PathsOf(EntriesLeaves(path, entries)), root)
    decreases entries, 0
  {
    if entries != [] {
      var child := path + ("/" + entries[0].name);
      PrunedIsFiltered(child, entries[0].node, root);
      PrunedEntriesFiltered(path, entries[1..], root);
      PathsOfAppend(Leaves(child, entries[0].node), EntriesLeaves(path, entries[1..]));
      StartingWithAppend(PathsOf(Leaves(child, entries[0].node)), PathsOf(EntriesLeaves(path, entries[1..])), root);
    }
  }

  // The pruned listing is the files of the full listing that start with the root, in order. It
  // differs only for a tree that is no directory and an empty root: then it lists "".
  lemma PrunedListingIff(tree: Node, root: string)
    requires WellNamed(tree)
    ensures PrunedPaths("", tree, root) == StartingWith(FilesAmong(tree, AllPaths("", tree)), root)
       <==> tree.Dir? || root != ""
  {
    PrunedIsFiltered("", tree, root);
    if tree.Dir? {
      LookupAgreesWithListing(tree);
    }
  }

  // Such a tree: an index that is a single file.
  lemma FileTreeDiffers(size: nat, offset: string)
    ensures PrunedPaths("", File(size, offset), "")
         != StartingWith(FilesAmong(File(size, offset), AllPaths("", File(size, offset))), "")
  {
    PrunedListingIff(File(size, offset), "");
  }

  // ---------- Directories, and that nothing is missing ----------

  // What the two lookups say of a node: a file's own size and offset; a directory counts 4096 bytes
  // and is no file, and has no position; an absent node is neither.
  lemma LookupsAre(tree: Option<Node>, path: string)
    ensures var node := WalkFrom(tree, Segments(path));
      && (node == None ==> Stats(tree, path) == None)
      && (node.Some? && node.value.Dir? ==> Stats(tree, path) == Some((4096, false)) && Seek(tree, path) == TypeError)
      && (node.Some? && node.value.File? ==>
            && Stats(tree, path) == Some((node.value.size, true))
            && Seek(tree, path) == Found(node.value.size, node.value.offset))
  {
    if WalkFrom(tree, Segments(path)) != None {
      SeekFollowsWalk(tree, Segments(path));
    }
    hide Segments;
  }

  // A path below the root of the index, from its names.
  function PathText(names: seq<string>): string {
    if names == [] then "" else "/" + (names[0] + PathText(names[1..]))
  }

  // Whatever can be reached is listed, directories too.
  lemma {:induction false} ReachableIsListed(base: string, node: Node, names: seq<string>)
    requires names != [] && WalkFrom(Some(node), names).Some?
    ensures base + PathText(names) in AllPaths(base, node)
    decreases |names|
  {
    assert node.Dir? by {
      assert WalkFrom(Some(node), names) == if node.File? then None else WalkFrom(Child(node.entries, names[0]), names[1..]);
    }
    assert Child(node.entries, names[0]).Some? by {
      WalkFromNothing(names[1..]);
    }
    var child := Child(node.entries, names[0]).value;
    var path := base + ("/" + names[0]);
    Assoc(base, "/" + names[0], PathText(names[1..]));
    Assoc("/", names[0], PathText(names[1..]));
    assert base + PathText(names) == path + PathText(names[1..]);
    if |names| == 1 {
      assert path + "" == path;
    } else {
      ReachableIsListed(path, child, names[1..]);
    }
    EntryIsListed(base, node.entries, names[0], base + PathText(names));
  }

  lemma {:induction false} EntryIsListed(base: string, entries: seq<Entry>, name: string, path: string)
    requires Child(entries, name).Some?
    requires var own := base + ("/" + name); path == own || path in AllPaths(own, Child(entries, name).value)
    ensures path in EntriesPaths(base, entries)
    decreases |entries|
  {
    if entries[0].name != name {
      EntryIsListed(base, entries[1..], name, path);
    }
  }

  lemma EveryPathIsListed(tree: Node, names: seq<string>)
    requires names != [] && WalkFrom(Some(tree), names).Some?
    ensures PathText(names) in AllPaths("", tree)
  {
    ReachableIsListed("", tree, names);
    assert "" + PathText(names) == PathText(names);
  }
}
