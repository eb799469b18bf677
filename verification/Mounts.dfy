// The mount table of server/router.cpp and the choice of a mount for a path.
module Mounts {
  import opened Common

  datatype Status = Mounted | NoSuchPath | NotADirectory | InUse

  // ---------- Key order of std::map<string, ...> ----------

  predicate Less(a: string, b: string) {
    b != "" && (a == "" || a[0] < b[0] || (a[0] == b[0] && Less(a[1..], b[1..])))
  }

  predicate AtMost(a: string, b: string) {
    a == b || Less(a, b)
  }

  lemma {:induction false} Trichotomy(a: string, b: string)
    ensures AtMost(a, b) || Less(b, a)
    decreases |a|
  {
    if a != "" && b != "" && a[0] == b[0] {
      Trichotomy(a[1..], b[1..]);
      assert a == [a[0]] + a[1..] && b == [b[0]] + b[1..];
    }
  }

  lemma {:induction false} Transitive(a: string, b: string, c: string)
    requires AtMost(a, b) && AtMost(b, c)
    ensures AtMost(a, c)
    decreases |a|
  {
    if a != b && b != c && a != "" && a[0] == b[0] == c[0] {
      Transitive(a[1..], b[1..], c[1..]);
      assert a == [a[0]] + a[1..] && c == [c[0]] + c[1..];
    }
  }

  predicate IsLeast(least: string, keys: set<string>) {
    least in keys && forall k :: k in keys ==> AtMost(least, k)
  }

  lemma {:induction false} LeastKey(keys: set<string>) returns (least: string)
    requires keys != {}
    ensures IsLeast(least, keys)
    decreases |keys|
  {
    var x := Pick(keys);
    var rest := keys - {x};
    if rest == {} {
      assert keys == {x};
      least := x;
    } else {
      var y := LeastKey(rest);
      Trichotomy(x, y);
      least := if AtMost(x, y) then x else y;
      forall k | k in keys ensures AtMost(least, k) {
        if k != x && AtMost(x, y) {
          Transitive(x, y, k);
        }
      }
    }
  }

  // Iteration of a std::map visits the least key next.
  method FirstKey(keys: set<string>) returns (key: string)
    requires keys != {}
    ensures key in keys && forall k :: k in keys ==> AtMost(key, k)
  {
    ghost var least := LeastKey(keys);
    key :| key in keys && forall k :: k in keys ==> AtMost(key, k);
  }

  // Of two prefixes of one string the smaller key is the shorter one.
  lemma {:induction false} PrefixOrder(a: string, b: string, whole: string)
    requires a <= whole && b <= whole && AtMost(a, b)
    ensures |a| <= |b|
    decreases |a|
  {
    if a != b && a != "" {
      assert whole[0] == a[0] == b[0];
      PrefixOrder(a[1..], b[1..], whole[1..]);
    }
  }

  // ---------- Choosing a mount ----------

  // The first mounted key, in order, that the path behind the document root starts with. `ok` is
  // false where cutting off the document root throws, which it does on a shorter path.
  method SelectMount(mounts: map<string, string>, path: string, documentRoot: string)
    returns (ok: bool, found: Option<string>, adjusted: string)
    ensures ok <==> mounts == map[] || |documentRoot| <= |path|
    ensures ok && mounts != map[] ==>
      var pathname := path[|documentRoot|..];
      && (found == None <==> forall k :: k in mounts ==> !(k <= pathname))
      && (found.Some? ==>
            && found.value in mounts && found.value <= pathname
            && (forall k :: k in mounts && k <= pathname ==> |found.value| <= |k|)
            && found.value + pathname[|found.value|..] == pathname
            && adjusted == mounts[found.value] + "/" + pathname[|found.value|..])
    ensures mounts == map[] ==> found == None
  {
    if |mounts| == 0 {
      return true, None, "";
    }
    var pathname := path;
    if documentRoot != "" {
      if |documentRoot| > |path| {
        return false, None, "";
      }
      pathname := path[|documentRoot|..];
    }
    var rest := mounts.Keys;
    while rest != {}
      invariant rest <= mounts.Keys
      invariant forall k :: k in mounts && k !in rest ==> !(k <= pathname)
      decreases rest
    {
      var key := FirstKey(rest);
      if key <= pathname {
        forall k | k in mounts && k <= pathname ensures |key| <= |k| {
          PrefixOrder(key, k, pathname);
        }
        return true, Some(key), mounts[key] + "/" + pathname[|key|..];
      }
      rest := rest - {key};
    }
    return true, None, "";
  }

  // ---------- Mounting and unmounting ----------

  // helpers::normalizePath, outside Windows
  function Normalize(path: string): string {
    if |path| > 1 && path[|path| - 1] == '/' then path[..|path| - 1] else path
  }

  // The key that a mount or unmount argument stands for.
  function Key(path: string): string {
    if Normalize(path) == "" then "/" else Normalize(path)
  }

  datatype Request =
    | Mount(path: string, target: string, exists_: bool, isDirectory: bool)
    | Unmount(path: string)

  function MountStatus(mounts: map<string, string>, r: Request): Status
    requires r.Mount?
  {
    if !r.exists_ then NoSuchPath
    else if !r.isDirectory then NotADirectory
    else if Key(r.path) in mounts then InUse
    else Mounted
  }

  function Apply(mounts: map<string, string>, r: Request): map<string, string> {
    match r
    case Mount(path, target, _, _) =>
      if MountStatus(mounts, r) == Mounted then mounts[Key(path) := Normalize(target)] else mounts
    case Unmount(path) => mounts - {Key(path)}
  }

  class Router {
    var mountedPaths: map<string, string>

    constructor ()
      ensures mountedPaths == map[]
    {
      mountedPaths := map[];
    }

    predicate IsMounted(path: string)
      reads this
    {
      path in mountedPaths
    }

    // `exists_` and `isDirectory` are what the file system says of the normalized target.
    method MountPath(path: string, target: string, exists_: bool, isDirectory: bool) returns (status: Status)
      modifies this
      ensures status == MountStatus(old(mountedPaths), Mount(path, target, exists_, isDirectory))
      ensures mountedPaths == Apply(old(mountedPaths), Mount(path, target, exists_, isDirectory))
    {
      var normPath := Normalize(path);
      var normTarget := Normalize(target);
      if normPath == "" {
        normPath := "/";
      }
      if !exists_ {
        return NoSuchPath;
      }
      if !isDirectory {
        return NotADirectory;
      }
      if IsMounted(normPath) {
        return InUse;
      }
      mountedPaths := mountedPaths[normPath := normTarget];
      return Mounted;
    }

    method UnmountPath(path: string) returns (ok: bool)
      modifies this
      ensures ok <==> Key(path) in old(mountedPaths)
      ensures mountedPaths == Apply(old(mountedPaths), Unmount(path))
    {
      var normPath := Normalize(path);
      if normPath == "" {
        normPath := "/";
      }
      if !IsMounted(normPath) {
        assert mountedPaths - {normPath} == mountedPaths;
        return false;
      }
      mountedPaths := mountedPaths - {normPath};
      return true;
    }
  }

  // ---------- Runs ----------

  function Run(mounts: map<string, string>, rs: seq<Request>): map<string, string>
    decreases |rs|
  {
    if rs == [] then mounts else Run(Apply(mounts, rs[0]), rs[1..])
  }

  function Outcomes(mounts: map<string, string>, rs: seq<Request>): seq<bool>
    decreases |rs|
  {
    if rs == [] then []
    else
      [if rs[0].Mount? then MountStatus(mounts, rs[0]) == Mounted else Key(rs[0].path) in mounts]
      + Outcomes(Apply(mounts, rs[0]), rs[1..])
  }

  // Two tables that agree except that the first also has `key`.
  predicate OneMore(a: map<string, string>, b: map<string, string>, key: string) {
    key in a && key !in b && a - {key} == b
  }

  lemma ApplyElsewhere(a: map<string, string>, b: map<string, string>, key: string, r: Request)
    requires OneMore(a, b, key) && Key(r.path) != key
    ensures OneMore(Apply(a, r), Apply(b, r), key) && Apply(a, r)[key] == a[key]
    ensures r.Mount? ==> MountStatus(a, r) == MountStatus(b, r)
    ensures Key(r.path) in a <==> Key(r.path) in b
  {
    hide Key, Normalize;
    var k := Key(r.path);
    assert k in a <==> k in a - {key};
    assert Apply(a, r) - {key} == Apply(b, r);
  }

  lemma {:induction false} RunElsewhere(a: map<string, string>, b: map<string, string>, key: string, rs: seq<Request>)
    requires OneMore(a, b, key)
    requires forall i :: 0 <= i < |rs| ==> Key(rs[i].path) != key
    ensures OneMore(Run(a, rs), Run(b, rs), key) && Run(a, rs)[key] == a[key]
    ensures Outcomes(a, rs) == Outcomes(b, rs)
    decreases |rs|
  {
    hide Key, Apply, MountStatus;
    if rs != [] {
      ApplyElsewhere(a, b, key, rs[0]);
      RunElsewhere(Apply(a, rs[0]), Apply(b, rs[0]), key, rs[1..]);
    }
  }

  // A successful mount keeps every entry there is and adds exactly its own.
  lemma MountNeverOverwrites(mounts: map<string, string>, r: Request)
    requires r.Mount? && MountStatus(mounts, r) == Mounted
    ensures Key(r.path) !in mounts
    ensures Apply(mounts, r).Keys == mounts.Keys + {Key(r.path)}
    ensures forall k :: k in mounts ==> Apply(mounts, r)[k] == mounts[k]
    ensures Apply(mounts, r)[Key(r.path)] == Normalize(r.target)
  {
  }

  // Unmounting with the argument of a successful mount restores the table, whatever happened to
  // other keys in between: the other requests do what they would have done without the mount, and
  // until then the mount stays as it was made.
  lemma UnmountRestores(mounts: map<string, string>, r: Request, others: seq<Request>)
    requires r.Mount? && MountStatus(mounts, r) == Mounted
    requires forall i :: 0 <= i < |others| ==> Key(others[i].path) != Key(r.path)
    ensures var between := Run(Apply(mounts, r), others);
      && Key(r.path) in between && between[Key(r.path)] == Normalize(r.target)
      && Apply(between, Unmount(r.path)) == Run(mounts, others)
      && Outcomes(Apply(mounts, r), others) == Outcomes(mounts, others)
  {
    assert OneMore(Apply(mounts, r), mounts, Key(r.path));
    RunElsewhere(Apply(mounts, r), mounts, Key(r.path), others);
  }

  // ---------- The keys, written out ----------

  // One slash at the end does not matter, and the empty path is the root.
  lemma KeysAre(path: string)
    ensures Key("") == "/" && Key("/") == "/" && Normalize("/") == "/"
    ensures path != "" && path[|path| - 1] != '/' ==> Key(path) == path && Key(path + "/") == path
    ensures path != "" ==> Normalize(path + "/") == path
    ensures path != "" && path[|path| - 1] != '/' ==> Normalize(path) == path
  {
    assert path != "" ==> (path + "/")[..|path|] == path;
  }

  // Mounting the target t at the path p, either of them written with or without a slash at the end.
  lemma MountIs(mounts: map<string, string>, p: string, t: string, path: string, target: string,
                exists_: bool, isDirectory: bool)
    requires p != "" && p[|p| - 1] != '/' && (path == p || path == p + "/")
    requires t != "" && t[|t| - 1] != '/' && (target == t || target == t + "/")
    ensures var r := Mount(path, target, exists_, isDirectory); var status := MountStatus(mounts, r);
      && (status == Mounted <==> exists_ && isDirectory && p !in mounts)
      && (status == NoSuchPath <==> !exists_)
      && (status == NotADirectory <==> exists_ && !isDirectory)
      && (status == InUse <==> exists_ && isDirectory && p in mounts)
      && Apply(mounts, r) == (if status == Mounted then mounts[p := t] else mounts)
    ensures Apply(mounts, Unmount(path)) == mounts - {p}
  {
    KeysAre(p);
    KeysAre(t);
    hide Key, Normalize;
  }
}
