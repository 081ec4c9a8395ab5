// The layout of a stored ZIP archive (sections 4.3.7, 4.3.12 and 4.3.16 of PKWARE's APPNOTE), and a reader that
// starts at the end record and follows the central directory.
module ZipLayout {
  import opened Wrappers
  import opened Text

  type Bytes = seq<Byte>

  // A little-endian unsigned field.
  datatype Field = Field(value: nat, width: nat)

  // What an archive records of an entry.
  datatype Member = Member(name: Bytes, stored: Bytes, size: nat, crc: nat, method_: nat, flags: nat, mode: nat)

  const LocalSignature := 0x04034b50
  const CentralSignature := 0x02014b50
  const EndSignature := 0x06054b50

  function Power(width: nat): nat { if width == 0 then 1 else 256 * Power(width - 1) }

  predicate FieldFits(f: Field) { f.value < Power(f.width) }

  function Little(value: nat, width: nat): (b: Bytes)
    ensures |b| == width
    decreases width
  {
    if width == 0 then [] else [value % 256] + Little(value / 256, width - 1)
  }

  function Encode(fields: seq<Field>): Bytes {
    if fields == [] then [] else Little(fields[0].value, fields[0].width) + Encode(fields[1..])
  }

  function Size(fields: seq<Field>): (n: nat)
    ensures n == |Encode(fields)|
  {
    if fields == [] then 0 else fields[0].width + Size(fields[1..])
  }

  // --- The records ---

  // The fields that both headers hold: version needed, flags, method, time, date, then the checksum, the stored and
  // the real size, the length of the name and of the extra field.
  function VersionToDate(flags: nat, method_: nat): seq<Field> {
    [Field(20, 2), Field(flags, 2), Field(method_, 2), Field(0, 2), Field(0, 2)]
  }

  function CrcToExtra(crc: nat, stored: nat, size: nat, name: nat): seq<Field> {
    [Field(crc, 4), Field(stored, 4), Field(size, 4), Field(name, 2), Field(0, 2)]
  }

  // The comment's length, the disk, the internal and external attributes, the offset of the local header.
  function CommentToOffset(attributes: nat, offset: nat): seq<Field> {
    [Field(0, 2), Field(0, 2), Field(0, 2), Field(attributes, 4), Field(offset, 4)]
  }

  function LocalHeaderFields(flags: nat, method_: nat, crc: nat, stored: nat, size: nat, name: nat): seq<Field> {
    [Field(LocalSignature, 4)] + VersionToDate(flags, method_) + CrcToExtra(crc, stored, size, name)
  }

  function CentralHeaderFields(flags: nat, method_: nat, crc: nat, stored: nat, size: nat, name: nat, attributes: nat, offset: nat)
      : seq<Field>
  {
    [Field(CentralSignature, 4), Field(3 * 256 + 20, 2)] + VersionToDate(flags, method_) + CrcToExtra(crc, stored, size, name)
    + CommentToOffset(attributes, offset)
  }

  function LocalFields(m: Member): seq<Field> {
    LocalHeaderFields(m.flags, m.method_, m.crc, |m.stored|, m.size, |m.name|)
  }

  function CentralFields(m: Member, offset: nat): seq<Field> {
    CentralHeaderFields(m.flags, m.method_, m.crc, |m.stored|, m.size, |m.name|, m.mode * 0x10000, offset)
  }

  function EndFields(count: nat, size: nat, offset: nat): seq<Field> {
    [ Field(EndSignature, 4), Field(0, 2), Field(0, 2), Field(count, 2), Field(count, 2), Field(size, 4), Field(offset, 4),
      Field(0, 2) ]
  }

  function Local(m: Member): Bytes { Encode(LocalFields(m)) + m.name + m.stored }

  function Central(m: Member, offset: nat): Bytes { Encode(CentralFields(m, offset)) + m.name }

  function Locals(ms: seq<Member>): Bytes {
    if ms == [] then [] else Local(ms[0]) + Locals(ms[1..])
  }

  // The central directory of members whose local records start at `offset`.
  function Centrals(ms: seq<Member>, offset: nat): Bytes {
    if ms == [] then [] else Central(ms[0], offset) + Centrals(ms[1..], offset + |Local(ms[0])|)
  }

  function Archive(ms: seq<Member>): Bytes {
    Locals(ms) + Centrals(ms, 0) + Encode(EndFields(|ms|, |Centrals(ms, 0)|, |Locals(ms)|))
  }

  // Every value lies within its field.
  predicate MemberFits(m: Member) {
    |m.name| < 0x10000 && |m.stored| < 0x1_0000_0000 && m.size < 0x1_0000_0000 && m.crc < 0x1_0000_0000
    && m.method_ < 0x10000 && m.flags < 0x10000 && m.mode < 0x10000
  }

  predicate ArchiveFits(ms: seq<Member>) {
    && (forall m :: m in ms ==> MemberFits(m))
    && |ms| < 0x10000 && |Locals(ms)| < 0x1_0000_0000 && |Centrals(ms, 0)| < 0x1_0000_0000
  }

  // --- The reader ---

  function Value(b: Bytes): nat {
    if b == [] then 0 else b[0] + 256 * Value(b[1..])
  }

  function ReadFields(b: Bytes, at: nat, widths: seq<nat>): (r: Option<seq<nat>>)
    ensures r.Some? ==> |r.value| == |widths|
    decreases |widths|
  {
    if |widths| == 0 then Some([])
    else if at + widths[0] > |b| then None
    else
      var rest := ReadFields(b, at + widths[0], widths[1..]);
      if rest.None? then None else Some([Value(b[at..at + widths[0]])] + rest.value)
  }

  function Slice(b: Bytes, at: nat, n: nat): Option<Bytes> {
    if at + n <= |b| then Some(b[at..at + n]) else None
  }

  function LocalWidths(): (w: seq<nat>)
    ensures |w| == 11
  {
    [4, 2, 2, 2] + [2, 2, 4, 4] + [4, 2, 2]
  }

  function CentralWidths(): (w: seq<nat>)
    ensures |w| == 17
  {
    [4, 2, 2, 2] + [2, 2, 2, 4] + [4, 4, 2, 2] + [2, 2, 2, 4] + [4]
  }

  function EndWidths(): (w: seq<nat>)
    ensures |w| == 8
  {
    [4, 2, 2, 2] + [2, 4, 4, 2]
  }

  // A local header of version 2.0 without a date or an extra field.
  predicate LocalReadable(l: seq<nat>)
    requires |l| == 11
  {
    l[0] == 0x04034b50 && l[1] == 20 && l[4] == 0 && l[5] == 0 && l[10] == 0
  }

  // A central header made on Unix, so that its external attributes hold a mode, for a file on the one disk, with no date,
  // extra field or comment.
  predicate CentralReadable(c: seq<nat>)
    requires |c| == 17
  {
    && c[0] == 0x02014b50 && c[1] / 256 == 3 && c[1] % 256 == 20 && c[2] == 20 && c[5] == 0 && c[6] == 0 && c[11] == 0
    && c[12] == 0 && c[13] == 0 && c[14] == 0 && c[15] % 0x10000 == 0
  }

  // The end record of a whole archive on one disk, without a comment.
  predicate EndReadable(e: seq<nat>)
    requires |e| == 8
  {
    e[0] == 0x06054b50 && e[1] == 0 && e[2] == 0 && e[3] == e[4] && e[7] == 0
  }

  // The stored bytes behind the local header that a central header points to, if the two headers agree.
  function ReadStored(b: Bytes, c: seq<nat>, name: Bytes): Option<Bytes>
    requires |c| == 17
  {
    var offset := c[16];
    match ReadFields(b, offset, LocalWidths())
    case None => None
    case Some(l) =>
      if !LocalReadable(l) || l[2] != c[3] || l[3] != c[4] || l[6] != c[7] || l[7] != c[8] || l[8] != c[9]
         || Slice(b, offset + 30, l[9]) != Some(name)
      then None
      else Slice(b, offset + 30 + l[9] + l[10], c[8])
  }

  // The member whose central header starts at `at`, and where the next one starts.
  function ReadMember(b: Bytes, at: nat): Option<(Member, nat)> {
    match ReadFields(b, at, CentralWidths())
    case None => None
    case Some(c) =>
      match Slice(b, at + 46, c[10])
      case None => None
      case Some(name) =>
        match ReadStored(b, c, name)
        case None => None
        case Some(stored) =>
          if !CentralReadable(c) then None
          else Some((Member(name, stored, c[9], c[7], c[4], c[3], c[15] / 0x10000), at + 46 + c[10] + c[11] + c[12]))
  }

  function ReadMembers(b: Bytes, at: nat, count: nat): Option<seq<Member>>
    decreases count
  {
    if count == 0 then Some([])
    else match ReadMember(b, at)
      case None => None
      case Some((m, next)) =>
        match ReadMembers(b, next, count - 1)
        case None => None
        case Some(rest) => Some([m] + rest)
  }

  function ReadArchive(b: Bytes): Option<seq<Member>> {
    if |b| < 22 then None
    else match ReadFields(b, |b| - 22, EndWidths())
      case None => None
      case Some(e) =>
        if !EndReadable(e) || e[6] + e[5] != |b| - 22 then None
        else ReadMembers(b, e[6], e[4])
  }

  // --- Reading back ---

  // The bytes `s` lie at a place.
  predicate At(b: Bytes, i: nat, s: Bytes) { i + |s| <= |b| && b[i..i + |s|] == s }

  lemma AtParts(b: Bytes, i: nat, s: Bytes, t: Bytes)
    requires At(b, i, s + t)
    ensures At(b, i, s) && At(b, i + |s|, t)
  {
    var st := b[i..i + |s + t|];
    assert b[i..i + |s|] == st[..|s|] == s;
    assert b[i + |s|..i + |s| + |t|] == st[|s|..] == t;
  }

  lemma {:induction false} LittleReadsBack(value: nat, width: nat)
    requires value < Power(width)
    ensures Value(Little(value, width)) == value
    decreases width
  {
    if width > 0 {
      LittleReadsBack(value / 256, width - 1);
      assert Little(value, width)[1..] == Little(value / 256, width - 1);
    }
  }

  function Widths(fields: seq<Field>): seq<nat> { seq(|fields|, i requires 0 <= i < |fields| => fields[i].width) }

  function Values(fields: seq<Field>): seq<nat> { seq(|fields|, i requires 0 <= i < |fields| => fields[i].value) }

  lemma {:induction false} FieldsReadBack(b: Bytes, at: nat, fields: seq<Field>)
    requires At(b, at, Encode(fields)) && FieldsFit(fields)
    ensures ReadFields(b, at, Widths(fields)) == Some(Values(fields))
    decreases |fields|
  {
    if fields != [] {
      var f := fields[0];
      AtParts(b, at, Little(f.value, f.width), Encode(fields[1..]));
      LittleReadsBack(f.value, f.width);
      FieldsReadBack(b, at + f.width, fields[1..]);
      assert Widths(fields)[1..] == Widths(fields[1..]);
      assert Values(fields) == [f.value] + Values(fields[1..]);
    } else {
      assert Values(fields) == [];
    }
  }

  function Total(widths: seq<nat>): nat { if widths == [] then 0 else widths[0] + Total(widths[1..]) }

  lemma {:induction false} SizeIsTotal(fields: seq<Field>)
    ensures Size(fields) == Total(Widths(fields))
  {
    if fields != [] {
      SizeIsTotal(fields[1..]);
      assert Widths(fields)[1..] == Widths(fields[1..]);
    }
  }

  lemma {:induction false} TotalAdds(a: seq<nat>, b: seq<nat>)
    ensures Total(a + b) == Total(a) + Total(b)
  {
    if a == [] {
      assert a + b == b;
    } else {
      TotalAdds(a[1..], b);
      assert (a + b)[1..] == a[1..] + b;
    }
  }

  lemma TotalOfFour(a: nat, b: nat, c: nat, d: nat)
    ensures Total([a, b, c, d]) == a + b + c + d
  {
    TotalAdds([a, b], [c, d]);
    assert [a, b] + [c, d] == [a, b, c, d];
    TotalOfTwo(a, b);
    TotalOfTwo(c, d);
  }

  lemma TotalOfTwo(a: nat, b: nat)
    ensures Total([a, b]) == a + b && Total([a]) == a
  {
    assert [a, b][1..] == [b] && Total([b][1..]) == 0;
  }

  // The lengths of the local header, the central header and the end record.
  lemma LocalSize()
    ensures Total(LocalWidths()) == 30
  {
    hide Total;
    TotalOfFour(4, 2, 2, 2);
    TotalOfFour(2, 2, 4, 4);
    TotalOfTwo(4, 2);
    TotalOfTwo(2, 0);
    TotalAdds([4, 2], [2]);
    assert [4, 2] + [2] == [4, 2, 2];
    TotalAdds([4, 2, 2, 2], [2, 2, 4, 4]);
    TotalAdds([4, 2, 2, 2] + [2, 2, 4, 4], [4, 2, 2]);
  }

  lemma CentralSize()
    ensures Total(CentralWidths()) == 46
  {
    hide Total;
    TotalOfFour(4, 2, 2, 2);
    TotalOfFour(2, 2, 2, 4);
    TotalOfFour(4, 4, 2, 2);
    TotalOfTwo(4, 0);
    TotalAdds([4, 2, 2, 2], [2, 2, 2, 4]);
    TotalAdds([4, 2, 2, 2] + [2, 2, 2, 4], [4, 4, 2, 2]);
    TotalAdds([4, 2, 2, 2] + [2, 2, 2, 4] + [4, 4, 2, 2], [2, 2, 2, 4]);
    TotalAdds([4, 2, 2, 2] + [2, 2, 2, 4] + [4, 4, 2, 2] + [2, 2, 2, 4], [4]);
  }

  lemma EndSize()
    ensures Total(EndWidths()) == 22
  {
    hide Total;
    TotalOfFour(4, 2, 2, 2);
    TotalOfFour(2, 4, 4, 2);
    TotalAdds([4, 2, 2, 2], [2, 4, 4, 2]);
  }

  lemma Powers()
    ensures Power(2) == 0x10000 && Power(4) == 0x1_0000_0000
  {
    assert Power(3) == 256 * Power(2);
  }

  ghost predicate FieldsFit(fields: seq<Field>) { forall i :: 0 <= i < |fields| ==> FieldFits(fields[i]) }

  lemma LocalShape(m: Member)
    requires MemberFits(m)
    ensures FieldsFit(LocalFields(m)) && Widths(LocalFields(m)) == LocalWidths()
  {
    Powers();
    hide Power;
  }

  lemma LocalValues(m: Member)
    ensures var v := Values(LocalFields(m));
            |v| == 11 && LocalReadable(v) && v[2] == m.flags && v[3] == m.method_ && v[6] == m.crc
            && v[7] == |m.stored| && v[8] == m.size && v[9] == |m.name| && v[10] == 0
  {
  }

  lemma CentralShape(m: Member, offset: nat)
    requires MemberFits(m) && offset < 0x1_0000_0000
    ensures FieldsFit(CentralFields(m, offset)) && Widths(CentralFields(m, offset)) == CentralWidths()
  {
    Powers();
    hide Power;
  }

  lemma CentralValues(m: Member, offset: nat)
    ensures var v := Values(CentralFields(m, offset));
            |v| == 17 && CentralReadable(v) && v[3] == m.flags && v[4] == m.method_ && v[7] == m.crc
            && v[8] == |m.stored| && v[9] == m.size && v[10] == |m.name| && v[11] == 0 && v[12] == 0
            && v[15] == m.mode * 0x10000 && v[16] == offset
  {
  }

  lemma EndShape(count: nat, size: nat, offset: nat)
    requires count < 0x10000 && size < 0x1_0000_0000 && offset < 0x1_0000_0000
    ensures FieldsFit(EndFields(count, size, offset)) && Widths(EndFields(count, size, offset)) == EndWidths()
    ensures var v := Values(EndFields(count, size, offset));
            |v| == 8 && EndReadable(v) && v[4] == count && v[5] == size && v[6] == offset
  {
    Powers();
    hide Power;
  }

  lemma LocalHeaderReads(b: Bytes, at: nat, m: Member)
    requires At(b, at, Local(m)) && MemberFits(m)
    ensures ReadFields(b, at, LocalWidths()) == Some(Values(LocalFields(m)))
    ensures At(b, at + 30, m.name) && At(b, at + 30 + |m.name|, m.stored)
    ensures |Local(m)| == 30 + |m.name| + |m.stored|
  {
    hide Encode, Values, Widths, FieldFits, LocalFields, LocalWidths, MemberFits, At, ReadFields, Total, Size;
    var fields := LocalFields(m);
    LocalShape(m);
    SizeIsTotal(fields);
    LocalSize();
    AtParts(b, at, Encode(fields) + m.name, m.stored);
    AtParts(b, at, Encode(fields), m.name);
    FieldsReadBack(b, at, fields);
  }

  lemma CentralHeaderReads(b: Bytes, at: nat, m: Member, offset: nat)
    requires At(b, at, Central(m, offset)) && MemberFits(m) && offset < 0x1_0000_0000
    ensures ReadFields(b, at, CentralWidths()) == Some(Values(CentralFields(m, offset)))
    ensures At(b, at + 46, m.name)
    ensures |Central(m, offset)| == 46 + |m.name|
  {
    hide Encode, Values, Widths, FieldFits, CentralFields, CentralWidths, MemberFits, At, ReadFields, Total, Size;
    var fields := CentralFields(m, offset);
    CentralShape(m, offset);
    SizeIsTotal(fields);
    CentralSize();
    AtParts(b, at, Encode(fields), m.name);
    FieldsReadBack(b, at, fields);
  }

  lemma SliceIs(b: Bytes, at: nat, s: Bytes)
    requires At(b, at, s)
    ensures Slice(b, at, |s|) == Some(s)
  {
  }

  lemma StoredReadsBack(b: Bytes, offset: nat, m: Member, c: seq<nat>)
    requires At(b, offset, Local(m)) && MemberFits(m) && c == Values(CentralFields(m, offset))
    ensures |c| == 17 && ReadStored(b, c, m.name) == Some(m.stored)
  {
    hide Values, CentralFields, LocalFields, LocalWidths, ReadFields, MemberFits, Local, At, Slice;
    LocalHeaderReads(b, offset, m);
    LocalValues(m);
    CentralValues(m, offset);
    SliceIs(b, offset + 30, m.name);
    SliceIs(b, offset + 30 + |m.name|, m.stored);
  }

  lemma MemberReadsBack(b: Bytes, at: nat, offset: nat, m: Member)
    requires At(b, at, Central(m, offset)) && At(b, offset, Local(m)) && MemberFits(m) && offset < 0x1_0000_0000
    ensures ReadMember(b, at) == Some((m, at + |Central(m, offset)|))
  {
    hide Values, CentralFields, CentralWidths, ReadFields, MemberFits, Local, Central, At, Slice, ReadStored;
    CentralHeaderReads(b, at, m, offset);
    CentralValues(m, offset);
    SliceIs(b, at + 46, m.name);
    StoredReadsBack(b, offset, m, Values(CentralFields(m, offset)));
  }

  lemma {:induction false} MembersReadBack(b: Bytes, at: nat, offset: nat, ms: seq<Member>)
    requires At(b, at, Centrals(ms, offset)) && At(b, offset, Locals(ms))
    requires (forall m :: m in ms ==> MemberFits(m)) && offset + |Locals(ms)| < 0x1_0000_0000
    ensures ReadMembers(b, at, |ms|) == Some(ms)
    decreases |ms|
  {
    hide At, MemberFits, Central, Local, ReadMember;
    if ms != [] {
      var m, next := ms[0], offset + |Local(ms[0])|;
      AtParts(b, at, Central(m, offset), Centrals(ms[1..], next));
      AtParts(b, offset, Local(m), Locals(ms[1..]));
      MemberReadsBack(b, at, offset, m);
      MembersReadBack(b, at + |Central(m, offset)|, next, ms[1..]);
      assert ms == [m] + ms[1..];
    }
  }

  // Whoever follows the end record and the central directory finds exactly the members, in order.
  lemma ArchiveReadsBack(ms: seq<Member>)
    requires ArchiveFits(ms)
    ensures ReadArchive(Archive(ms)) == Some(ms)
  {
    hide Encode, Values, Widths, EndFields, EndWidths, ReadMembers, Locals, Centrals, MemberFits, ReadFields, Total, Size, FieldsFit;
    var locals, centrals := Locals(ms), Centrals(ms, 0);
    var fields := EndFields(|ms|, |centrals|, |locals|);
    var b := Archive(ms);
    EndShape(|ms|, |centrals|, |locals|);
    SizeIsTotal(fields);
    EndSize();
    assert At(b, 0, locals + centrals + Encode(fields));
    hide At;
    AtParts(b, 0, locals + centrals, Encode(fields));
    AtParts(b, 0, locals, centrals);
    assert FieldsFit(fields);
    FieldsReadBack(b, |locals| + |centrals|, fields);
    MembersReadBack(b, |locals|, 0, ms);
  }
}
