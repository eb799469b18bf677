// The three file readers: fs::readFile on a directory, and the bundle and embedded readers of
// resources.cpp on an archive.
module Readers {
  import opened Common
  import opened Strings
  import opened ResourceTree
  import FileStream

  // fs::FileReaderOptions; -1 stands for "not given".
  datatype Options = Options(pos: int, size: int)

  datatype Status = Ok | NoSuchPath | NoArchive | Threw
  datatype FileResult = FileResult(status: Status, data: seq<byte>, size: int)

  // ---------- The meaning of the options ----------

  function Drop(s: seq<byte>, n: int): seq<byte> {
    if n < 0 then s else s[Min(n, |s|)..]
  }

  function Take(s: seq<byte>, n: int): seq<byte> {
    if n < 0 then s else s[..Min(n, |s|)]
  }

  // The part of a file that is asked for.
  function Slice(content: seq<byte>, o: Options): seq<byte> {
    Take(Drop(content, o.pos), o.size)
  }

  // Where the slice starts, and its length, in a file of the given size.
  function Start(origSize: nat, o: Options): (pos: nat)
    ensures pos <= origSize
  {
    if o.pos < 0 then 0 else Min(o.pos, origSize)
  }

  function Length(origSize: nat, o: Options): (size: nat)
    ensures Start(origSize, o) + size <= origSize
  {
    var left := origSize - Start(origSize, o);
    if o.size < 0 then left else Min(o.size, left)
  }

  method ApplyFileReaderOptions(origSize: nat, o: Options) returns (pos: nat, size: nat)
    ensures pos == Start(origSize, o) && size == Length(origSize, o)
    ensures forall content: seq<byte> :: |content| == origSize ==> content[pos..pos + size] == Slice(content, o)
  {
    pos, size := 0, origSize;
    if o.pos > -1 {
      pos := Min(o.pos, origSize);
      size := origSize - pos;
    }
    if o.size > -1 {
      size := Min(o.size, size);
    }
    forall content: seq<byte> | |content| == origSize ensures content[pos..pos + size] == Slice(content, o) {
      assert content[pos..][..size] == content[pos..pos + size];
    }
  }

  // `size` bytes from `at`; what the stream lacks reads as 0.
  function Stored(stream: seq<byte>, at: nat, size: nat): (r: seq<byte>)
    ensures |r| == size
    ensures forall i :: 0 <= i < size ==> r[i] == if at + i < |stream| then stream[at + i] else 0
  {
    seq(size, i requires i >= 0 => if at + i < |stream| then stream[at + i] else 0)
  }

  // `vector<char> buffer(size)` filled by ifstream::read at `at`: what is not read stays 0.
  function ReadInto(stream: seq<byte>, at: nat, size: nat): (r: seq<byte>)
    ensures r == Stored(stream, at, size)
  {
    var (_, block) := FileStream.Read(stream, FileStream.State(at, false, false), size);
    block + seq(size - |block|, _ => 0)
  }

  lemma StoredInBounds(stream: seq<byte>, at: nat, size: nat)
    requires at + size <= |stream|
    ensures Stored(stream, at, size) == stream[at..at + size]
  {
  }

  lemma StoredPart(stream: seq<byte>, at: nat, total: nat, pos: nat, size: nat)
    requires pos + size <= total
    ensures Stored(stream, at + pos, size) == Stored(stream, at, total)[pos..pos + size]
  {
  }

  // fs::readFile on a file that can be opened
  method ReadFile(content: seq<byte>, o: Options) returns (r: FileResult)
    ensures r == FileResult(Ok, Slice(content, o), |content|)
  {
    var pos, size := ApplyFileReaderOptions(|content|, o);
    StoredInBounds(content, pos, size);
    r := FileResult(Ok, ReadInto(content, pos, size), |content|);
  }

  // What a buffer holds after seekg(at) and read(size). A position below 0, which wraps around to
  // one that no file has, fails the seek, and the buffer keeps its zeros.
  function SeekAndRead(stream: seq<byte>, at: int, size: nat): (r: seq<byte>)
    ensures |r| == size
  {
    if at < 0 then seq(size, _ => 0) else Stored(stream, at, size)
  }

  // What both archive readers return: bytes of the entry, whose offset text may even be negative.
  function ArchiveFile(p: Position, archive: seq<byte>, asarHeaderSize: nat, o: Options): FileResult {
    match p
    case NotFound => FileResult(NoSuchPath, [], -1)
    case TypeError => FileResult(Threw, [], -1)
    case Found(size, text) =>
      var offset := Stoi(text);
      if offset == None then FileResult(Threw, [], -1)
      else FileResult(Ok, SeekAndRead(archive, asarHeaderSize + offset.value + Start(size, o), Length(size, o)), size)
  }

  // What is not found is never given out as a file: a path that is missing, and a directory, whose
  // lookup throws.
  lemma OnlyFilesAreRead(p: Position, archive: seq<byte>, header: nat, o: Options)
    ensures ArchiveFile(p, archive, header, o).status == Ok <==> p.Found? && Stoi(p.offset).Some?
    ensures p == NotFound ==> ArchiveFile(p, archive, header, o).status == NoSuchPath
    ensures p == TypeError ==> ArchiveFile(p, archive, header, o).status == Threw
    ensures ArchiveFile(p, archive, header, o).status != Ok ==> ArchiveFile(p, archive, header, o).data == []
    ensures ArchiveFile(p, archive, header, o).status == Ok ==> ArchiveFile(p, archive, header, o).size == p.size
  {
    hide Stoi, SeekAndRead;
  }

  // The slice, written out: from the position if there is one, as long as the size if there is one,
  // and never beyond the end.
  lemma SliceIs(content: seq<byte>, o: Options)
    ensures var first := if o.pos < 0 then 0 else Min(o.pos, |content|);
      var last := if o.size < 0 then |content| else Min(first + o.size, |content|);
      Slice(content, o) == content[first..last]
  {
    SliceIsPart(content, o);
  }

  // Bytes that the archive does not have read as 0, and so does everything from a position below 0.
  lemma MissingBytesAreZero(stream: seq<byte>, at: int, size: nat, i: nat)
    requires i < size
    ensures SeekAndRead(stream, at, size)[i] == if 0 <= at && at + i < |stream| then stream[at + i] else 0
  {
  }

  // An entry that starts inside the archive is read as the requested slice of its stored bytes.
  lemma EntryIsSliced(archive: seq<byte>, at: nat, size: nat, o: Options)
    ensures SeekAndRead(archive, at + Start(size, o), Length(size, o)) == Slice(Stored(archive, at, size), o)
  {
    var stored := Stored(archive, at, size);
    StoredPart(archive, at, size, Start(size, o), Length(size, o));
    SliceIsPart(stored, o);
  }

  lemma SliceIsPart(content: seq<byte>, o: Options)
    ensures var pos := Start(|content|, o); Slice(content, o) == content[pos..pos + Length(|content|, o)]
  {
  }

  // __getFileFromBundle, once the archive is open.
  method GetFileFromBundle(tree: Option<Node>, filename: string, archive: seq<byte>, asarHeaderSize: nat, o: Options)
    returns (r: FileResult)
    ensures r == ArchiveFile(Seek(tree, filename), archive, asarHeaderSize, o)
  {
    hide Seek, Slice, Stoi, Start, Length, Stored, ReadInto;
    var p := SeekFilePos(filename, tree);
    if p == TypeError {
      return FileResult(Threw, [], -1);
    }
    if p == NotFound {
      return FileResult(NoSuchPath, [], -1);
    }
    var uOffset := Stoi(p.offset);
    if uOffset == None {
      return FileResult(Threw, [], -1);
    }
    var pos, size := ApplyFileReaderOptions(p.size, o);
    var at := asarHeaderSize + uOffset.value + pos;
    // seekg and read; a failed seek makes the read give nothing
    var fileBuf := if at < 0 then seq(size, _ => 0) else ReadInto(archive, at, size);
    r := FileResult(Ok, fileBuf, p.size);
  }

  // A buffer filled byte by byte out of memory.
  method CopyBytes(bytes: seq<byte>, first: int, size: nat) returns (copied: seq<byte>)
    requires size == 0 || 0 <= first <= first + size <= |bytes|
    ensures copied == if size == 0 then [] else bytes[first..first + size]
  {
    var buf := new byte[size](_ => 0);
    for i := first to first + size
      invariant buf[..i - first] == if i == first then [] else bytes[first..i]
    {
      buf[i - first] := bytes[i];
    }
    assert buf[..] == buf[..size];
    copied := buf[..];
  }

  // The bytes asked for lie inside the resource, as they must for a raw memory read.
  predicate ReadInBounds(p: Position, bytes: seq<byte>, asarHeaderSize: nat, o: Options) {
    p.Found? && Stoi(p.offset).Some? ==>
      var first := asarHeaderSize + Stoi(p.offset).value + Start(p.size, o);
      Length(p.size, o) == 0 || 0 <= first <= first + Length(p.size, o) <= |bytes|
  }

  // __getFileFromEmbedded, once the resource is found: the same bytes, copied out of memory.
  method GetFileFromEmbedded(tree: Option<Node>, filename: string, bytes: seq<byte>, asarHeaderSize: nat, o: Options)
    returns (r: FileResult)
    requires ReadInBounds(Seek(tree, filename), bytes, asarHeaderSize, o)
    ensures r == ArchiveFile(Seek(tree, filename), bytes, asarHeaderSize, o)
  {
    hide Seek, Slice, Stoi, Start, Length;
    var p := SeekFilePos(filename, tree);
    if p == TypeError {
      return FileResult(Threw, [], -1);
    }
    if p == NotFound {
      return FileResult(NoSuchPath, [], -1);
    }
    var uOffset := Stoi(p.offset);
    if uOffset == None {
      return FileResult(Threw, [], -1);
    }
    var pos, size := ApplyFileReaderOptions(p.size, o);
    var first := asarHeaderSize + uOffset.value + pos;
    var fileContent := CopyBytes(bytes, first, size);
    if size > 0 {
      StoredInBounds(bytes, first, size);
    }
    r := FileResult(Ok, fileContent, p.size);
  }

  // ---------- All readers agree ----------

  // Where an entry's bytes lie in an archive whose body starts at `header`.
  ghost predicate Holds(archive: seq<byte>, header: nat, offset: nat, content: seq<byte>) {
    header + offset + |content| <= |archive| && archive[header + offset..header + offset + |content|] == content
  }

  // On an archive that holds a file's content where the index says, the archive readers return
  // what the directory reader returns on the file itself. An offset beyond INT_MAX throws.
  lemma ReadersAgree(tree: Option<Node>, filename: string, archive: seq<byte>, header: nat,
                     content: seq<byte>, offset: nat, o: Options)
    requires Seek(tree, filename) == Found(|content|, Decimal(offset)) && Holds(archive, header, offset, content)
    ensures ArchiveFile(Seek(tree, filename), archive, header, o)
         == if offset <= INT_MAX then FileResult(Ok, Slice(content, o), |content|) else FileResult(Threw, [], -1)
    ensures ReadInBounds(Seek(tree, filename), archive, header, o)
  {
    StoiOfSigned(offset);
    hide Seek, Slice, Stoi, Decimal, Start, Length, SeekAndRead;
    StoredInBounds(archive, header + offset, |content|);
    EntryIsSliced(archive, header + offset, |content|, o);
  }

  // ---------- The archive header ----------

  // *(unsigned int *)p on a little-endian machine
  function LittleEndian32(b: seq<byte>): nat
    requires |b| == 4
  {
    b[0] as nat + 0x100 * b[1] as nat + 0x1_0000 * b[2] as nat + 0x100_0000 * b[3] as nat
  }

  // Unsigned 32-bit arithmetic.
  function Wrap32(x: int): nat {
    x % TWO_TO_32
  }

  // __makeEmbeddedFileTree up to parsing: the header text, and where file contents start.
  method ReadHeader(bytes: seq<byte>) returns (asarHeaderSize: nat, headerContent: seq<byte>)
    requires |bytes| >= 8 && 16 + Wrap32(LittleEndian32(bytes[4..8]) - 8) <= |bytes|
    ensures asarHeaderSize == Wrap32(LittleEndian32(bytes[4..8]) + 8)
    ensures headerContent == bytes[16..16 + Wrap32(LittleEndian32(bytes[4..8]) - 8)]
  {
    var sizeBuf := CopyBytes(bytes, 0, 8);
    assert sizeBuf[4..8] == bytes[4..8];
    var word: int := LittleEndian32(sizeBuf[4..8]);
    hide LittleEndian32;
    var size := Wrap32(word - 8);
    asarHeaderSize := Wrap32(size + 16);
    headerContent := CopyBytes(bytes, 16, size);
  }

  // In an archive whose second word counts its header text and eight bytes more, the header read
  // is that text, and every body byte lies where an entry's offset points.
  lemma ArchiveLayout(prefix: seq<byte>, text: seq<byte>, body: seq<byte>, offset: nat, size: nat)
    requires |prefix| == 16 && |text| + 16 < 0x1_0000_0000
    requires prefix[4] as int + 256 * prefix[5] as int + 65536 * prefix[6] as int + 16777216 * prefix[7] as int
          == |text| + 8
    requires offset + size <= |body|
    ensures var archive := prefix + text + body; var n := LittleEndian32(archive[4..8]);
      && Wrap32(n - 8) == |text| && archive[16..16 + |text|] == text
      && Wrap32(n + 8) == 16 + |text|
      && Holds(archive, 16 + |text|, offset, body[offset..offset + size])
  {
    var archive := prefix + text + body;
    assert archive[4] == prefix[4] && archive[5] == prefix[5] && archive[6] == prefix[6] && archive[7] == prefix[7];
    assert LittleEndian32(archive[4..8]) == |text| + 8;
    hide LittleEndian32;
    assert Wrap32(|text|) == |text| && Wrap32(|text| + 16) == |text| + 16;
    hide Wrap32;
    BodyInArchive(prefix, text, body, offset, size);
  }

  lemma BodyInArchive(prefix: seq<byte>, text: seq<byte>, body: seq<byte>, offset: nat, size: nat)
    requires |prefix| == 16 && offset + size <= |body|
    ensures var archive := prefix + text + body;
      && archive[16..16 + |text|] == text
      && Holds(archive, 16 + |text|, offset, body[offset..offset + size])
  {
    var archive := prefix + text + body;
    var h := 16 + |text|;
    assert archive[h..] == body;
    assert archive[h + offset..h + offset + size] == archive[h..][offset..offset + size];
  }
}
