// The writer of stored ZIP archives: headers are filled in place, field after field, while the offset of the next
// local record is kept.
module ZipWriter {
  import opened Wrappers
  import opened Text
  import opened ZipLayout
  import Crc

  datatype Content = Chars(text: Text) | Raw(bytes: Bytes)

  datatype Entry = Entry(
    path: Text, content: Option<Content>, mode: Option<int>, directory: bool, compressionMethod: Option<int>, encrypted: bool)

  datatype ZipError = OutOfRange

  function ContentOf(e: Entry): Bytes {
    if e.directory || e.content.None? then []
    else match e.content.value
      case Chars(text) => Utf8(text)
      case Raw(bytes) => bytes
  }

  function StoredOf(e: Entry): Bytes {
    if e.encrypted then seq(12, _ => 0) + ContentOf(e) else ContentOf(e)
  }

  function MethodOf(e: Entry): int { if e.compressionMethod.Some? then e.compressionMethod.value else 0 }

  function ModeOf(e: Entry): int {
    if e.mode.Some? then e.mode.value else if e.directory then 0x41FD else 0x81B4
  }

  function FlagsOf(e: Entry): nat { if e.encrypted then 0x0801 else 0x0800 }

  function Octets(b: Bytes): seq<Crc.Octet> { seq(|b|, i requires 0 <= i < |b| => b[i] as bv8) }

  function CrcOf(b: Bytes): (crc: nat)
    ensures crc < 0x1_0000_0000
  {
    Crc.Crc32(Octets(b)) as int
  }

  // The member an entry is written as: its mode keeps its low sixteen bits.
  function MemberOf(e: Entry): Member
    requires MethodOf(e) >= 0
  {
    Member(Utf8(e.path), StoredOf(e), |ContentOf(e)|, CrcOf(ContentOf(e)), MethodOf(e), FlagsOf(e), ModeOf(e) % 0x10000)
  }

  predicate Natural(entries: seq<Entry>) { forall i :: 0 <= i < |entries| ==> MethodOf(entries[i]) >= 0 }

  function Members(entries: seq<Entry>): (ms: seq<Member>)
    requires Natural(entries)
    ensures |ms| == |entries| && forall i :: 0 <= i < |entries| ==> ms[i] == MemberOf(entries[i])
  {
    seq(|entries|, i requires 0 <= i < |entries| => MemberOf(entries[i]))
  }

  // Every number fits the field it is written to.
  predicate Encodable(entries: seq<Entry>) { Natural(entries) && ArchiveFits(Members(entries)) }

  // A buffer; `fields` is what was written from its start without gaps. A value out of its field's range, or a place
  // outside the buffer, raises an exception that ends the writer: `ok` becomes false and nothing more is written.
  class HeaderBuffer {
    const data: array<Byte>
    var ok: bool
    ghost var fields: seq<Field>

    ghost predicate Valid()
      reads this, data
    {
      Size(fields) <= data.Length && data[..Size(fields)] == Encode(fields)
    }

    constructor (length: nat)
      ensures Valid() && fresh(data) && data.Length == length && ok && fields == [] && Size(fields) == 0
    {
      data := new Byte[length](_ => 0);
      ok := true;
      fields := [];
    }

    // Writes two bytes anywhere in the buffer.
    method WriteUInt16LE(value: int, at: int)
      modifies this`ok, data
      ensures ok == (old(ok) && 0 <= value < 0x10000 && 0 <= at <= data.Length - 2)
      ensures data[..] == if ok then Replaced(old(data[..]), at, Little(value, 2)) else old(data[..])
    {
      ok := ok && 0 <= value < 0x10000 && 0 <= at <= data.Length - 2;
      if ok {
        LittleTwo(value);
        data[at] := value % 256;
        data[at + 1] := value / 256;
      }
    }

    // Writes four bytes anywhere in the buffer.
    method WriteUInt32LE(value: int, at: int)
      modifies this`ok, data
      ensures ok == (old(ok) && 0 <= value < 0x1_0000_0000 && 0 <= at <= data.Length - 4)
      ensures data[..] == if ok then Replaced(old(data[..]), at, Little(value, 4)) else old(data[..])
    {
      ok := ok && 0 <= value < 0x1_0000_0000 && 0 <= at <= data.Length - 4;
      if ok {
        LittleFour(value);
        data[at] := value % 256;
        data[at + 1] := value / 256 % 256;
        data[at + 2] := value / 256 / 256 % 256;
        data[at + 3] := value / 256 / 256 / 256;
      }
    }

    // Every header is written in order: each write starts where the one before ended.
    method NextUInt16LE(value: int, at: nat)
      requires Valid() && (ok ==> at == Size(fields)) && at + 2 <= data.Length
      modifies this, data
      ensures Valid() && ok == (old(ok) && 0 <= value < 0x10000)
      ensures ok ==> fields == old(fields) + [Field(value, 2)] && Size(fields) == at + 2
    {
      WriteUInt16LE(value, at);
      if ok {
        EncodeGrows(fields, Field(value, 2));
        ReplacedPrefix(old(data[..]), at, Little(value, 2));
        fields := fields + [Field(value, 2)];
      }
    }

    method NextUInt32LE(value: int, at: nat)
      requires Valid() && (ok ==> at == Size(fields)) && at + 4 <= data.Length
      modifies this, data
      ensures Valid() && ok == (old(ok) && 0 <= value < 0x1_0000_0000)
      ensures ok ==> fields == old(fields) + [Field(value, 4)] && Size(fields) == at + 4
    {
      WriteUInt32LE(value, at);
      if ok {
        EncodeGrows(fields, Field(value, 4));
        ReplacedPrefix(old(data[..]), at, Little(value, 4));
        fields := fields + [Field(value, 4)];
      }
    }

    // The run of fields that both headers hold, in two halves.
    method WriteVersionToDate(flags: nat, compressionMethod: int, at: nat)
      requires Valid() && ok && at == Size(fields) && at + 10 <= data.Length && flags < 0x10000
      modifies this, data
      ensures Valid() && ok == (0 <= compressionMethod < 0x10000)
      ensures ok ==> Size(fields) == at + 10
      ensures ok ==> fields == old(fields) + VersionToDate(flags, compressionMethod)
    {
      hide Size, Encode;
      NextUInt16LE(20, at);
      NextUInt16LE(flags, at + 2);
      NextUInt16LE(compressionMethod, at + 4);
      NextUInt16LE(0, at + 6);
      NextUInt16LE(0, at + 8);
    }

    method WriteCrcToExtra(crc: nat, stored: nat, size: nat, name: nat, at: nat)
      requires Valid() && (ok ==> at == Size(fields)) && at + 16 <= data.Length && crc < 0x1_0000_0000
      modifies this, data
      ensures Valid() && ok == (old(ok) && stored < 0x1_0000_0000 && size < 0x1_0000_0000 && name < 0x10000)
      ensures ok ==> Size(fields) == at + 16
      ensures ok ==> fields == old(fields) + CrcToExtra(crc, stored, size, name)
    {
      hide Size, Encode;
      NextUInt32LE(crc, at);
      NextUInt32LE(stored, at + 4);
      NextUInt32LE(size, at + 8);
      NextUInt16LE(name, at + 12);
      NextUInt16LE(0, at + 14);
    }

    method WriteCommentToOffset(attributes: nat, offset: nat, at: nat)
      requires Valid() && (ok ==> at == Size(fields)) && at + 14 <= data.Length && attributes < 0x1_0000_0000
      modifies this, data
      ensures Valid() && ok == (old(ok) && offset < 0x1_0000_0000)
      ensures ok ==> Size(fields) == at + 14
      ensures ok ==> fields == old(fields) + CommentToOffset(attributes, offset)
    {
      hide Size, Encode;
      NextUInt16LE(0, at);
      NextUInt16LE(0, at + 2);
      NextUInt16LE(0, at + 4);
      NextUInt32LE(attributes, at + 6);
      NextUInt32LE(offset, at + 10);
    }

    // The bytes of a buffer that is full.
    method Bytes() returns (r: Result<Bytes, ZipError>)
      requires Valid() && (ok ==> Size(fields) == data.Length)
      ensures r == if ok then Ok(Encode(fields)) else Err(OutOfRange)
    {
      if !ok { return Err(OutOfRange); }
      assert data[..] == data[..Size(fields)];
      r := Ok(data[..]);
    }
  }

  // A buffer's bytes with some of them overwritten.
  function Replaced(b: Bytes, at: int, part: Bytes): Bytes
    requires 0 <= at <= |b| - |part|
  {
    b[..at] + part + b[at + |part|..]
  }

  lemma ReplacedPrefix(b: Bytes, at: nat, part: Bytes)
    requires at <= |b| - |part|
    ensures Replaced(b, at, part)[..at + |part|] == b[..at] + part
  {
  }

  lemma {:induction false} EncodeGrows(fields: seq<Field>, f: Field)
    ensures Encode(fields + [f]) == Encode(fields) + Little(f.value, f.width)
  {
    hide Little;
    if fields == [] {
      assert [] + [f] == [f] && [f][1..] == [];
    } else {
      EncodeGrows(fields[1..], f);
      assert (fields + [f])[1..] == fields[1..] + [f];
    }
  }

  lemma LittleTwo(value: nat)
    requires value < 0x10000
    ensures Little(value, 2) == [value % 256, value / 256]
  {
  }

  lemma LittleFour(value: nat)
    requires value < 0x1_0000_0000
    ensures Little(value, 4) == [value % 256, value / 256 % 256, value / 256 / 256 % 256, value / 256 / 256 / 256]
  {
    LittleTwo(value / 256 / 256);
  }

  method LocalHeader(flags: nat, compressionMethod: int, crc: nat, stored: nat, size: nat, name: nat)
      returns (r: Result<Bytes, ZipError>)
    requires flags < 0x10000 && crc < 0x1_0000_0000
    ensures r.Ok? <==> 0 <= compressionMethod < 0x10000 && stored < 0x1_0000_0000 && size < 0x1_0000_0000 && name < 0x10000
    ensures r.Ok? ==> r.value == Encode(LocalHeaderFields(flags, compressionMethod, crc, stored, size, name))
  {
    hide Size, Encode, VersionToDate, CrcToExtra;
    var localHeader := new HeaderBuffer(30);
    localHeader.NextUInt32LE(0x04034b50, 0);
    assert localHeader.fields == [Field(LocalSignature, 4)];
    localHeader.WriteVersionToDate(flags, compressionMethod, 4);
    localHeader.WriteCrcToExtra(crc, stored, size, name, 14);
    r := localHeader.Bytes();
  }

  method CentralHeader(flags: nat, compressionMethod: int, crc: nat, stored: nat, size: nat, name: nat, attributes: nat, offset: nat)
      returns (r: Result<Bytes, ZipError>)
    requires flags < 0x10000 && crc < 0x1_0000_0000 && attributes < 0x1_0000_0000
    ensures r.Ok? <==> 0 <= compressionMethod < 0x10000 && stored < 0x1_0000_0000 && size < 0x1_0000_0000 && name < 0x10000
                       && offset < 0x1_0000_0000
    ensures r.Ok? ==>
              r.value == Encode(CentralHeaderFields(flags, compressionMethod, crc, stored, size, name, attributes, offset))
  {
    hide Size, Encode, VersionToDate, CrcToExtra, CommentToOffset;
    var centralHeader := new HeaderBuffer(46);
    centralHeader.NextUInt32LE(0x02014b50, 0);
    centralHeader.NextUInt16LE(3 * 256 + 20, 4);
    assert centralHeader.fields == [Field(CentralSignature, 4), Field(3 * 256 + 20, 2)];
    centralHeader.WriteVersionToDate(flags, compressionMethod, 6);
    centralHeader.WriteCrcToExtra(crc, stored, size, name, 16);
    centralHeader.WriteCommentToOffset(attributes, offset, 32);
    r := centralHeader.Bytes();
  }

  method EndRecord(count: nat, size: nat, offset: nat) returns (r: Result<Bytes, ZipError>)
    ensures r.Ok? <==> count < 0x10000 && size < 0x1_0000_0000 && offset < 0x1_0000_0000
    ensures r.Ok? ==> r.value == Encode(EndFields(count, size, offset))
  {
    hide Size, Encode;
    var end := new HeaderBuffer(22);
    end.NextUInt32LE(0x06054b50, 0);
    end.NextUInt16LE(0, 4);
    end.NextUInt16LE(0, 6);
    end.NextUInt16LE(count, 8);
    end.NextUInt16LE(count, 10);
    end.NextUInt32LE(size, 12);
    end.NextUInt32LE(offset, 16);
    end.NextUInt16LE(0, 20);
    assert end.ok ==> end.fields == EndFields(count, size, offset);
    r := end.Bytes();
  }

  // --- The archive ---

  function Concat(parts: seq<Bytes>): Bytes
    decreases |parts|
  {
    if |parts| == 0 then [] else parts[0] + Concat(parts[1..])
  }

  lemma {:induction false} ConcatAppends(one: seq<Bytes>, two: seq<Bytes>)
    ensures Concat(one + two) == Concat(one) + Concat(two)
    decreases |one|
  {
    if |one| == 0 {
      assert one + two == two;
    } else {
      assert (one + two)[1..] == one[1..] + two;
      ConcatAppends(one[1..], two);
    }
  }

  lemma {:induction false} LocalsGrow(ms: seq<Member>, m: Member)
    ensures Locals(ms + [m]) == Locals(ms) + Local(m)
  {
    hide Local;
    if ms == [] {
      assert ms + [m] == [m] && [m][1..] == [];
    } else {
      LocalsGrow(ms[1..], m);
      assert (ms + [m])[1..] == ms[1..] + [m];
    }
  }

  lemma {:induction false} CentralsGrow(ms: seq<Member>, m: Member, offset: nat)
    ensures Centrals(ms + [m], offset) == Centrals(ms, offset) + Central(m, offset + |Locals(ms)|)
  {
    hide Local, Central;
    if ms == [] {
      assert ms + [m] == [m] && [m][1..] == [];
    } else {
      CentralsGrow(ms[1..], m, offset + |Local(ms[0])|);
      assert (ms + [m])[1..] == ms[1..] + [m];
    }
  }

  // A prefix of an archive's local records is no longer than all of them.
  lemma {:induction false} LocalsPrefix(ms: seq<Member>, i: nat)
    requires i <= |ms|
    ensures |Locals(ms[..i])| <= |Locals(ms)|
  {
    hide Local;
    if i > 0 {
      LocalsPrefix(ms[1..], i - 1);
      assert ms[..i][1..] == ms[1..][..i - 1];
    }
  }

  // The entry's two records, or an exception when a number does not fit.
  method WriteEntry(entry: Entry, offset: nat, checksum: Crc.Checksum)
      returns (r: Result<(seq<Bytes>, seq<Bytes>, nat), ZipError>)
    requires checksum.Valid()
    modifies checksum
    ensures checksum.Valid()
    ensures r.Ok? <==> MethodOf(entry) >= 0 && MemberFits(MemberOf(entry)) && offset < 0x1_0000_0000
    ensures r.Ok? ==> Concat(r.value.0) == Local(MemberOf(entry))
    ensures r.Ok? ==> Concat(r.value.1) == Central(MemberOf(entry), offset)
    ensures r.Ok? ==> r.value.2 == offset + |Local(MemberOf(entry))|
  {
    hide *;
    var name, content := Utf8(entry.path), ContentOf(entry);
    var storedContent := StoredOf(entry);
    var crcWord := checksum.Compute(Octets(content));
    var crc := WordValue(crcWord, content);
    var compressionMethod, flags := MethodOf(entry), FlagsOf(entry);
    var externalAttributes := ModeOf(entry) * 0x10000 % 0x1_0000_0000;
    ModeBits(ModeOf(entry));
    EntryIsMember(entry);
    var localHeader := LocalHeader(flags, compressionMethod, crc, |storedContent|, |content|, |name|);
    if localHeader.Err? { return Err(OutOfRange); }
    var centralHeader :=
      CentralHeader(flags, compressionMethod, crc, |storedContent|, |content|, |name|, externalAttributes, offset);
    if centralHeader.Err? { return Err(OutOfRange); }
    EntryParts(entry, localHeader.value, centralHeader.value, offset);
    r := Ok(([localHeader.value, name, storedContent], [centralHeader.value, name],
             offset + |localHeader.value| + |name| + |storedContent|));
  }

  // The numbers of an entry are those of its member.
  lemma EntryIsMember(e: Entry)
    ensures FlagsOf(e) < 0x10000 && CrcOf(ContentOf(e)) < 0x1_0000_0000
    ensures MethodOf(e) >= 0 ==>
              (MemberFits(MemberOf(e)) <==>
                 MethodOf(e) < 0x10000 && |StoredOf(e)| < 0x1_0000_0000 && |ContentOf(e)| < 0x1_0000_0000 && |Utf8(e.path)| < 0x10000)
  {
    hide CrcOf, Utf8, ContentOf, StoredOf;
  }

  // The records of an entry's member are its headers followed by its name and stored bytes.
  lemma EntryParts(e: Entry, header: Bytes, central: Bytes, offset: nat)
    requires MethodOf(e) >= 0
    requires header == Encode(LocalHeaderFields(FlagsOf(e), MethodOf(e), CrcOf(ContentOf(e)), |StoredOf(e)|, |ContentOf(e)|, |Utf8(e.path)|))
    requires central == Encode(CentralHeaderFields(FlagsOf(e), MethodOf(e), CrcOf(ContentOf(e)), |StoredOf(e)|, |ContentOf(e)|, |Utf8(e.path)|,
                                 ModeOf(e) % 0x10000 * 0x10000, offset))
    ensures Concat([header, Utf8(e.path), StoredOf(e)]) == Local(MemberOf(e))
    ensures Concat([central, Utf8(e.path)]) == Central(MemberOf(e), offset)
    ensures |Local(MemberOf(e))| == |header| + |Utf8(e.path)| + |StoredOf(e)|
  {
    hide CrcOf, Utf8, ContentOf, StoredOf, FlagsOf, LocalHeaderFields, CentralHeaderFields, Encode, Concat;
    ThreeParts(header, Utf8(e.path), StoredOf(e));
    TwoParts(central, Utf8(e.path));
  }

  function WordValue(w: Crc.Word, content: Bytes): (crc: nat)
    requires w == Crc.Crc32(Octets(content))
    ensures crc == CrcOf(content)
  {
    w as int
  }

  lemma ModeBits(mode: int)
    ensures mode * 0x10000 % 0x1_0000_0000 == mode % 0x10000 * 0x10000
  {
  }

  lemma ThreeParts(a: Bytes, b: Bytes, c: Bytes)
    ensures Concat([a, b, c]) == a + b + c
  {
    assert [a, b, c][1..] == [b, c];
    TwoParts(b, c);
  }

  lemma TwoParts(a: Bytes, b: Bytes)
    ensures Concat([a, b]) == a + b
  {
    assert [a, b][1..] == [b] && [b][1..] == [];
    assert Concat([]) == [] && Concat([b]) == b;
  }

  // The writer produces the archive of its entries, or fails exactly when some number does not fit its field.
  method WriteStoredZip(entries: seq<Entry>, checksum: Crc.Checksum) returns (r: Result<Bytes, ZipError>)
    requires checksum.Valid()
    modifies checksum
    ensures checksum.Valid()
    ensures r.Ok? <==> Encodable(entries)
    ensures r.Ok? ==> r.value == Archive(Members(entries))
  {
    hide Locals, Centrals, Local, Central, Concat, MemberOf, MethodOf, MemberFits, Encode;
    var localParts: seq<Bytes>, centralParts: seq<Bytes>, offset := [], [], 0;
    ghost var ms: seq<Member> := [];
    NothingWritten();
    for i := 0 to |entries|
      invariant checksum.Valid()
      invariant Natural(entries[..i]) && ms == Members(entries[..i])
      invariant forall m :: m in ms ==> MemberFits(m)
      invariant Concat(localParts) == Locals(ms) && Concat(centralParts) == Centrals(ms, 0) && offset == |Locals(ms)|
    {
      var entry := entries[i];
      var written := WriteEntry(entry, offset, checksum);
      if written.Err? {
        EntryRefused(entries, i, offset);
        return Err(OutOfRange);
      }
      ConcatAppends(localParts, written.value.0);
      ConcatAppends(centralParts, written.value.1);
      localParts := localParts + written.value.0;
      centralParts := centralParts + written.value.1;
      offset := written.value.2;
      LocalsGrow(ms, MemberOf(entry));
      CentralsGrow(ms, MemberOf(entry), 0);
      ms := ms + [MemberOf(entry)];
      assert entries[..i + 1] == entries[..i] + [entry];
    }
    assert entries[..|entries|] == entries;
    var centralDirectory := Concat(centralParts);
    var end := EndRecord(|entries|, |centralDirectory|, offset);
    if end.Err? { return Err(OutOfRange); }
    r := Ok(Concat(localParts) + centralDirectory + end.value);
  }

  lemma NothingWritten()
    ensures Concat([]) == Locals([]) == Centrals([], 0) == []
  {
  }

  lemma EncodableEntry(entries: seq<Entry>, i: nat)
    requires Encodable(entries) && i < |entries|
    ensures MethodOf(entries[i]) >= 0 && MemberFits(MemberOf(entries[i]))
    ensures |Locals(Members(entries[..i]))| < 0x1_0000_0000
  {
    hide Locals, Centrals, MemberOf, MethodOf, MemberFits;
    LocalsPrefix(Members(entries), i);
    assert Members(entries[..i]) == Members(entries)[..i];
    assert Members(entries)[i] in Members(entries);
  }

  lemma EntryRefused(entries: seq<Entry>, i: nat, offset: nat)
    requires i < |entries| && Natural(entries[..i]) && offset == |Locals(Members(entries[..i]))|
    requires !(MethodOf(entries[i]) >= 0 && MemberFits(MemberOf(entries[i])) && offset < 0x1_0000_0000)
    ensures !Encodable(entries)
  {
    if Encodable(entries) { EncodableEntry(entries, i); }
  }

  // --- What an archive says of its entries ---

  predicate SameEntry(d: Entry, e: Entry) {
    && d.path == e.path && d.encrypted == e.encrypted && ContentOf(d) == ContentOf(e)
    && MethodOf(d) == MethodOf(e) && ModeOf(d) % 0x10000 == ModeOf(e) % 0x10000
  }

  lemma SameMemberIsSameEntry(d: Entry, e: Entry)
    requires MethodOf(d) >= 0 && MethodOf(e) >= 0 && WellFormed(d.path) && WellFormed(e.path)
    ensures MemberOf(d) == MemberOf(e) <==> SameEntry(d, e)
  {
    hide CrcOf, Utf8;
    if MemberOf(d) == MemberOf(e) {
      Utf8IsInjective(d.path, e.path);
      assert d.encrypted == e.encrypted;
      if d.encrypted {
        assert ContentOf(d) == StoredOf(d)[12..] == StoredOf(e)[12..] == ContentOf(e);
      }
    }
  }

  // What an archive's reader learns of an entry.
  predicate Says(m: Member, e: Entry) {
    var content := if e.directory || e.content.None? then [] else match e.content.value case Chars(t) => Utf8(t) case Raw(b) => b;
    && m.name == Utf8(e.path)
    && m.stored == (if e.encrypted then [0, 0, 0, 0, 0, 0, 0, 0, 0, 0, 0, 0] + content else content)
    && m.size == |content| && m.crc == Crc.Crc32(Octets(content)) as int
    && m.method_ == (if e.compressionMethod.Some? then e.compressionMethod.value else 0)
    && m.flags == 2048 + (if e.encrypted then 1 else 0)
    && m.mode == (if e.mode.Some? then e.mode.value % 65536 else if e.directory then 4 * 4096 + 7 * 64 + 7 * 8 + 5 else 8 * 4096 + 6 * 64 + 6 * 8 + 4)
  }

  // Whoever reads the archive learns just that of each entry, in order.
  lemma ArchiveSays(entries: seq<Entry>)
    requires Encodable(entries)
    ensures var ms := ReadArchive(Archive(Members(entries)));
            ms.Some? && |ms.value| == |entries| && forall i :: 0 <= i < |entries| ==> Says(ms.value[i], entries[i])
  {
    hide Archive, ReadArchive, ArchiveFits;
    ArchiveReadsBack(Members(entries));
    forall i | 0 <= i < |entries| ensures Says(MemberOf(entries[i]), entries[i]) {
      assert seq(12, _ => 0) == [0, 0, 0, 0, 0, 0, 0, 0, 0, 0, 0, 0];
    }
  }

  // Two lists of entries are written as the same bytes exactly when they agree, entry by entry, on path, content,
  // encryption, method and the low sixteen bits of the mode.
  lemma ArchiveDecides(ds: seq<Entry>, es: seq<Entry>)
    requires Encodable(ds) && Encodable(es)
    requires forall e :: e in ds + es ==> WellFormed(e.path)
    ensures Archive(Members(ds)) == Archive(Members(es))
       <==> |ds| == |es| && forall i :: 0 <= i < |ds| ==> SameEntry(ds[i], es[i])
  {
    hide Archive, ArchiveFits, ReadArchive, MemberOf, SameEntry;
    ArchiveReadsBack(Members(ds));
    ArchiveReadsBack(Members(es));
    forall i | 0 <= i < |ds| && i < |es| ensures Members(ds)[i] == Members(es)[i] <==> SameEntry(ds[i], es[i]) {
      assert ds[i] in ds + es && es[i] in ds + es;
      SameMemberIsSameEntry(ds[i], es[i]);
    }
    if |ds| == |es| && forall i :: 0 <= i < |ds| ==> SameEntry(ds[i], es[i]) {
      assert Members(ds) == Members(es);
    }
  }
}
