// The byte stream that identifies a snapshot: for each file the decimal length of its path, a colon, the path,
// the decimal length of its content, a colon, the content. The digest is taken of this stream.
module SnapshotIdentity {
  import opened Wrappers
  import opened Text

  type Bytes = seq<Byte>

  // `content` is the text decoded from `bytes` when the file was read.
  datatype File = File(path: Text, content: Text, bytes: Bytes)

  datatype Snapshot = Snapshot(files: seq<File>, totalBytes: nat)

  datatype Identity = Identity(preimage: Bytes, byteSize: nat)

  datatype Refusal = ContentChanged

  const COLON: Byte := 58

  function Decimal(n: nat): (b: Bytes)
    ensures b != [] && COLON !in b
  {
    if n < 10 then [48 + n] else Decimal(n / 10) + [48 + n % 10]
  }

  function Chunk(data: Bytes): Bytes { Decimal(|data|) + [COLON] + data }

  predicate Faithful(file: File) { 0 !in file.content && Utf8(file.content) == file.bytes }

  function Entry(file: File): Bytes { Chunk(Utf8(file.path)) + Chunk(Utf8(file.content)) }

  function Preimage(files: seq<File>): Bytes {
    if files == [] then [] else Entry(files[0]) + Preimage(files[1..])
  }

  lemma {:induction false} PreimageGrows(files: seq<File>, file: File)
    ensures Preimage(files + [file]) == Preimage(files) + Entry(file)
  {
    if files == [] {
      assert files + [file] == [file] && [file][1..] == [];
    } else {
      PreimageGrows(files[1..], file);
      assert (files + [file])[1..] == files[1..] + [file];
    }
  }

  lemma EntryPieces(before: Bytes, path: Bytes, content: Bytes)
    ensures before + Decimal(|path|) + [COLON] + path + Decimal(|content|) + [COLON] + content
         == before + (Chunk(path) + Chunk(content))
  {
    hide Decimal;
  }

  method SnapshotArtifactIdentity(snapshot: Snapshot) returns (r: Result<Identity, Refusal>)
    ensures r.Ok? <==> forall file :: file in snapshot.files ==> Faithful(file)
    ensures r.Ok? ==> r.value == Identity(Preimage(snapshot.files), snapshot.totalBytes)
  {
    hide Preimage, Entry, Utf8, Decimal;
    var files := snapshot.files;
    var hash: Bytes := [];
    assert Preimage(files[..0]) == [] by { EmptyPreimage(); }
    for i := 0 to |files|
      invariant forall file :: file in files[..i] ==> Faithful(file)
      invariant hash == Preimage(files[..i])
    {
      var file := files[i];
      var pathBytes, contentBytes := Utf8(file.path), Utf8(file.content);
      if 0 in file.content || contentBytes != file.bytes {
        assert file in files && !Faithful(file);
        return Err(ContentChanged);
      }
      ghost var before := hash;
      hash := hash + Decimal(|pathBytes|) + [COLON];
      hash := hash + pathBytes;
      hash := hash + Decimal(|contentBytes|) + [COLON];
      hash := hash + contentBytes;
      EntryPieces(before, pathBytes, contentBytes);
      EntryOf(file);
      PreimageGrows(files[..i], file);
      assert files[..i + 1] == files[..i] + [file];
    }
    assert files[..|files|] == files;
    r := Ok(Identity(hash, snapshot.totalBytes));
  }

  lemma EmptyPreimage()
    ensures Preimage([]) == []
  {
  }

  lemma EntryOf(file: File)
    ensures Entry(file) == Chunk(Utf8(file.path)) + Chunk(Utf8(file.content))
  {
  }

  // --- Reading the stream back ---

  function Colon(b: Bytes): (i: nat)
    ensures i <= |b|
  {
    if b == [] || b[0] == COLON then 0 else 1 + Colon(b[1..])
  }

  function Number(b: Bytes): int {
    if b == [] then 0 else Number(b[..|b| - 1]) * 10 + b[|b| - 1] as int - 48
  }

  // The first chunk of a stream, and what follows it.
  function ReadChunk(b: Bytes): (r: Option<(Bytes, Bytes)>)
    ensures r.Some? ==> |r.value.1| < |b|
  {
    var i := Colon(b);
    if i == |b| then None
    else
      var n := Number(b[..i]);
      if 0 <= n <= |b| - i - 1 then Some((b[i + 1..i + 1 + n], b[i + 1 + n..])) else None
  }

  // The (path bytes, content bytes) pairs of a stream.
  function ReadStream(b: Bytes): Option<seq<(Bytes, Bytes)>>
    decreases |b|
  {
    if b == [] then Some([])
    else match ReadChunk(b)
      case None => None
      case Some((path, rest)) =>
        match ReadChunk(rest)
        case None => None
        case Some((content, others)) =>
          match ReadStream(others)
          case None => None
          case Some(pairs) => Some([(path, content)] + pairs)
  }

  lemma {:induction false} NumberOfDecimal(n: nat)
    ensures Number(Decimal(n)) == n
  {
    if n >= 10 {
      NumberOfDecimal(n / 10);
      assert Decimal(n)[..|Decimal(n)| - 1] == Decimal(n / 10);
    }
  }

  lemma {:induction false} ColonAfter(b: Bytes, rest: Bytes)
    requires COLON !in b
    ensures Colon(b + [COLON] + rest) == |b|
  {
    if b == [] {
      assert b + [COLON] + rest == [COLON] + rest;
    } else {
      ColonAfter(b[1..], rest);
      assert (b + [COLON] + rest)[1..] == b[1..] + [COLON] + rest;
    }
  }

  lemma ChunkReadsBack(data: Bytes, rest: Bytes)
    ensures ReadChunk(Chunk(data) + rest) == Some((data, rest))
  {
    var d, b := Decimal(|data|), Chunk(data) + rest;
    assert b == d + [COLON] + (data + rest);
    ColonAfter(d, data + rest);
    NumberOfDecimal(|data|);
    assert b[..|d|] == d;
    assert b[|d| + 1..] == data + rest;
    assert b[|d| + 1..|d| + 1 + |data|] == data && b[|d| + 1 + |data|..] == rest;
  }

  function Pairs(files: seq<File>): (pairs: seq<(Bytes, Bytes)>)
    ensures |pairs| == |files| && forall i :: 0 <= i < |files| ==> pairs[i] == (Utf8(files[i].path), Utf8(files[i].content))
  {
    seq(|files|, i requires 0 <= i < |files| => (Utf8(files[i].path), Utf8(files[i].content)))
  }

  // The stream determines the paths and contents, in order.
  lemma {:induction false} StreamReadsBack(files: seq<File>)
    ensures ReadStream(Preimage(files)) == Some(Pairs(files))
  {
    hide Chunk, ReadChunk, Utf8;
    if files != [] {
      var path, content, others := Utf8(files[0].path), Utf8(files[0].content), Preimage(files[1..]);
      StreamReadsBack(files[1..]);
      ChunkReadsBack(path, Chunk(content) + others);
      ChunkReadsBack(content, others);
      assert Preimage(files) == Chunk(path) + (Chunk(content) + others);
      assert Pairs(files) == [(path, content)] + Pairs(files[1..]);
      hide Preimage, Pairs, ReadStream;
      StreamStep(Chunk(path) + (Chunk(content) + others), path, Chunk(content) + others, content, others, Pairs(files[1..]));
    }
  }

  lemma StreamStep(b: Bytes, path: Bytes, rest: Bytes, content: Bytes, others: Bytes, pairs: seq<(Bytes, Bytes)>)
    requires ReadChunk(b) == Some((path, rest)) && ReadChunk(rest) == Some((content, others)) && ReadStream(others) == Some(pairs)
    ensures ReadStream(b) == Some([(path, content)] + pairs)
  {
    hide ReadChunk;
  }

  function Lengths(files: seq<File>): nat {
    if files == [] then 0 else |files[0].bytes| + Lengths(files[1..])
  }

  // The files of a snapshot as read: the total is that of the bytes, and paths are well-formed text.
  predicate AsRead(s: Snapshot) {
    && s.totalBytes == Lengths(s.files)
    && forall file :: file in s.files ==> Faithful(file) && WellFormed(file.path) && WellFormed(file.content)
  }

  // Two snapshots have the same identity exactly when they hold the same files in the same order; the comparison
  // of sizes beside the digests then adds nothing.
  lemma IdentityDecides(s: Snapshot, t: Snapshot)
    requires AsRead(s) && AsRead(t)
    ensures Preimage(s.files) == Preimage(t.files) <==> s.files == t.files
    ensures Preimage(s.files) == Preimage(t.files) ==> s.totalBytes == t.totalBytes
  {
    if Preimage(s.files) == Preimage(t.files) {
      StreamReadsBack(s.files);
      StreamReadsBack(t.files);
      var p, q := Pairs(s.files), Pairs(t.files);
      assert |p| == |q|;
      forall i | 0 <= i < |s.files| ensures s.files[i] == t.files[i] {
        assert s.files[i] in s.files && t.files[i] in t.files && p[i] == q[i];
        Utf8IsInjective(s.files[i].path, t.files[i].path);
        Utf8IsInjective(s.files[i].content, t.files[i].content);
      }
    }
  }

  // The stream of one file of one letter each: 1:a1:b.
  lemma OneFileStream()
    ensures Preimage([File([97], [98], [98])]) == [49, 58, 97, 49, 58, 98]
  {
    var files := [File([97], [98], [98])];
    assert files[1..] == [];
    assert [97][1..] == [] && [98][1..] == [];
  }
}
