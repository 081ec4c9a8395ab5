// JavaScript strings: sequences of UTF-16 code units.
module Text {
  import opened Wrappers

  type Unit = u: int | 0 <= u < 0x10000
  type Byte = b: int | 0 <= b < 256
  type Text = seq<Unit>

  function Ascii(s: string): (t: Text)
    ensures |t| == |s| && forall i :: 0 <= i < |s| ==> t[i] == AsciiUnit(s[i])
  {
    seq(|s|, i requires 0 <= i < |s| => AsciiUnit(s[i]))
  }

  function AsciiUnit(c: char): Unit { if c < 128 as char then c as int else 0xFFFD }

  const LF: Unit := 10
  const CR: Unit := 13
  const TAB: Unit := 9
  const SPACE: Unit := 32
  const QUOTE: Unit := 34
  const HASH: Unit := 35
  const APOSTROPHE: Unit := 39
  const BACKSLASH: Unit := 92

  predicate Lead(u: Unit) { 0xD800 <= u < 0xDC00 }
  predicate Trail(u: Unit) { 0xDC00 <= u < 0xE000 }
  predicate Pair(t: Text) { |t| >= 2 && Lead(t[0]) && Trail(t[1]) }

  // What `.` does not match.
  predicate LineTerminator(u: Unit) { u == LF || u == CR || u == 0x2028 || u == 0x2029 }

  predicate OneLine(t: Text) { forall i :: 0 <= i < |t| ==> !LineTerminator(t[i]) }

  // What `trim` removes.
  predicate White(u: Unit) {
    9 <= u <= 13 || u == 32 || u == 0xA0 || u == 0x1680 || 0x2000 <= u <= 0x200A || u == 0x2028 || u == 0x2029
    || u == 0x202F || u == 0x205F || u == 0x3000 || u == 0xFEFF
  }

  predicate Blank(u: Unit) { u == SPACE || u == TAB }

  function TrimStart(t: Text): (r: Text)
    ensures |r| <= |t| && (r == [] || !White(r[0]))
  {
    if t != [] && White(t[0]) then TrimStart(t[1..]) else t
  }

  function TrimEnd(t: Text): (r: Text)
    ensures |r| <= |t| && (r == [] || !White(r[|r| - 1]))
  {
    if t != [] && White(t[|t| - 1]) then TrimEnd(t[..|t| - 1]) else t
  }

  function Trim(t: Text): Text { TrimEnd(TrimStart(t)) }

  predicate IsBlank(t: Text) { Trim(t) == [] }

  predicate StartsWith(t: Text, u: Unit) { t != [] && t[0] == u }

  // Joined by line feeds, and split at them.
  function Join(lines: seq<Text>): Text {
    if |lines| == 0 then [] else if |lines| == 1 then lines[0] else lines[0] + [LF] + Join(lines[1..])
  }

  function Split(t: Text): (lines: seq<Text>)
    ensures |lines| > 0
    decreases |t|
  {
    var i := IndexOf(t, LF);
    if i == |t| then [t] else [t[..i]] + Split(t[i + 1..])
  }

  // The first place of a unit, or the length.
  function IndexOf(t: Text, u: Unit): (i: nat)
    ensures i <= |t| && (i < |t| ==> t[i] == u) && forall j :: 0 <= j < i ==> t[j] != u
  {
    if t == [] || t[0] == u then 0
    else
      assert forall j :: 0 < j < |t| ==> t[j] == t[1..][j - 1];
      1 + IndexOf(t[1..], u)
  }

  lemma IndexOfFirst(s: Text, u: Unit, rest: Text)
    requires u !in s
    ensures IndexOf(s + [u] + rest, u) == |s|
  {
    var t := s + [u] + rest;
    assert t[|s|] == u;
    assert forall j :: 0 <= j < |s| ==> t[j] == s[j];
  }

  lemma {:induction false} SplitUndoesJoin(lines: seq<Text>)
    requires |lines| > 0 && forall i :: 0 <= i < |lines| ==> LF !in lines[i]
    ensures Split(Join(lines)) == lines
  {
    var t := Join(lines);
    if |lines| > 1 {
      IndexOfFirst(lines[0], LF, Join(lines[1..]));
      assert t[..|lines[0]|] == lines[0] && t[|lines[0]| + 1..] == Join(lines[1..]);
      SplitUndoesJoin(lines[1..]);
    } else {
      assert t == lines[0];
      assert IndexOf(t, LF) == |t|;
    }
  }

  // `Buffer.from(t, "utf8")`; a lone surrogate becomes U+FFFD.
  function Utf8(t: Text): seq<Byte>
    decreases |t|
  {
    if t == [] then []
    else if Pair(t) then Utf8Scalar(Scalar(t[0], t[1])) + Utf8(t[2..])
    else Utf8Scalar(if Lead(t[0]) || Trail(t[0]) then 0xFFFD else t[0]) + Utf8(t[1..])
  }

  function Scalar(lead: Unit, trail: Unit): (c: int)
    requires Lead(lead) && Trail(trail)
    ensures 0x10000 <= c < 0x110000
  {
    0x10000 + (lead - 0xD800) * 0x400 + (trail - 0xDC00)
  }

  function Utf8Scalar(c: int): (bytes: seq<Byte>)
    requires 0 <= c < 0x110000
    ensures 1 <= |bytes| <= 4
  {
    if c < 0x80 then [c]
    else if c < 0x800 then [0xC0 + c / 0x40, Low(c)]
    else if c < 0x10000 then [0xE0 + c / 0x40 / 0x40, Low(c / 0x40), Low(c)]
    else [0xF0 + c / 0x40 / 0x40 / 0x40, Low(c / 0x40 / 0x40), Low(c / 0x40), Low(c)]
  }

  // A continuation byte.
  function Low(c: nat): Byte { 0x80 + c % 0x40 }

  // The scalar that bytes of a given first byte and number stand for.
  function ScalarOf(b: seq<Byte>): int
    requires 1 <= |b| <= 4
  {
    if |b| == 1 then b[0] as int else Tail(b[0] as int - (if |b| == 2 then 0xC0 else if |b| == 3 then 0xE0 else 0xF0), b[1..])
  }

  function Tail(high: int, b: seq<Byte>): int
    decreases |b|
  {
    if b == [] then high else Tail(high * 0x40 + (b[0] as int - 0x80), b[1..])
  }

  predicate WellFormed(t: Text)
    decreases |t|
  {
    t == [] || (if Pair(t) then WellFormed(t[2..]) else !Lead(t[0]) && !Trail(t[0]) && WellFormed(t[1..]))
  }

  lemma {:induction false} PlainIsWellFormed(t: Text)
    requires forall i :: 0 <= i < |t| ==> !Lead(t[i]) && !Trail(t[i])
    ensures WellFormed(t)
  {
    if t != [] { PlainIsWellFormed(t[1..]); }
  }

  lemma {:induction false} WellFormedConcat(s: Text, t: Text)
    requires WellFormed(s) && WellFormed(t)
    ensures WellFormed(s + t)
    decreases |s|
  {
    if s == [] {
      assert s + t == t;
    } else {
      var n := if Pair(s) then 2 else 1;
      WellFormedConcat(s[n..], t);
      assert (s + t)[n..] == s[n..] + t;
    }
  }

  // A scalar can be read off its bytes, and their number off the first of them.
  lemma ScalarOfBytes(c: int)
    requires 0 <= c < 0x110000
    ensures var b := Utf8Scalar(c);
            && |b| == (if b[0] < 0x80 then 1 else if b[0] < 0xE0 then 2 else if b[0] < 0xF0 then 3 else 4)
            && ScalarOf(b) == c
  {
    var b := Utf8Scalar(c);
    if |b| > 1 {
      var high := b[0] as int - (if |b| == 2 then 0xC0 else if |b| == 3 then 0xE0 else 0xF0);
      assert Tail(c, []) == c;
      assert b[|b| - 1..] == [Low(c)] && Tail(c / 0x40, [Low(c)]) == c;
      if |b| > 2 {
        assert b[|b| - 2..] == [Low(c / 0x40), Low(c)] && Tail(c / 0x40 / 0x40, b[|b| - 2..]) == c by {
          assert b[|b| - 2..][1..] == [Low(c)];
        }
      }
      if |b| > 3 {
        assert b[1..][1..] == b[|b| - 2..];
        assert Tail(high, b[1..]) == c;
      }
    }
  }

  lemma Utf8ScalarPrefix(c: int, d: int, x: seq<Byte>, y: seq<Byte>)
    requires 0 <= c < 0x110000 && 0 <= d < 0x110000 && Utf8Scalar(c) + x == Utf8Scalar(d) + y
    ensures c == d && x == y
  {
    hide Utf8Scalar;
    var p, q := Utf8Scalar(c), Utf8Scalar(d);
    ScalarOfBytes(c);
    ScalarOfBytes(d);
    assert (p + x)[0] == p[0] && (q + y)[0] == q[0];
    assert p == (p + x)[..|p|] == (q + y)[..|q|] == q;
    assert x == (p + x)[|p|..] && y == (q + y)[|q|..];
  }

  // Well-formed strings with the same bytes are the same string.
  lemma {:induction false} Utf8IsInjective(s: Text, t: Text)
    requires WellFormed(s) && WellFormed(t) && Utf8(s) == Utf8(t)
    ensures s == t
    decreases |s|
  {
    hide Utf8Scalar;
    if s != [] && t != [] {
      var c := if Pair(s) then Scalar(s[0], s[1]) else s[0];
      var d := if Pair(t) then Scalar(t[0], t[1]) else t[0];
      var i, j := if Pair(s) then 2 else 1, if Pair(t) then 2 else 1;
      Utf8ScalarPrefix(c, d, Utf8(s[i..]), Utf8(t[j..]));
      Utf8IsInjective(s[i..], t[j..]);
      assert s == s[..i] + s[i..] && t == t[..j] + t[j..];
    }
  }

  // --- The encoding of RFC 3629 ---

  predicate Continues(b: Byte) { 0x80 <= b <= 0xBF }

  function Bits(b: Byte, mark: int): int { b as int - mark }

  // The shortest form, by the table in section 3 of RFC 3629.
  lemma ShortestForm(c: int)
    requires 0 <= c <= 0x10FFFF
    ensures var b := Utf8Scalar(c);
            if c <= 0x7F then b == [c]
            else if c <= 0x7FF then
              |b| == 2 && 0xC2 <= b[0] <= 0xDF && Continues(b[1]) && c == Bits(b[0], 0xC0) * 64 + Bits(b[1], 0x80)
            else if c <= 0xFFFF then
              && |b| == 3 && 0xE0 <= b[0] <= 0xEF && Continues(b[1]) && Continues(b[2])
              && c == (Bits(b[0], 0xE0) * 64 + Bits(b[1], 0x80)) * 64 + Bits(b[2], 0x80)
            else
              && |b| == 4 && 0xF0 <= b[0] <= 0xF4 && Continues(b[1]) && Continues(b[2]) && Continues(b[3])
              && c == ((Bits(b[0], 0xF0) * 64 + Bits(b[1], 0x80)) * 64 + Bits(b[2], 0x80)) * 64 + Bits(b[3], 0x80)
  {
  }

  // A surrogate pair is the scalar of section 3 of RFC 2781, and a lone surrogate the replacement character.
  lemma SurrogatesEncoded(lead: Unit, trail: Unit)
    requires 0xD800 <= lead <= 0xDBFF && 0xDC00 <= trail <= 0xDFFF
    ensures Utf8([lead, trail]) == Utf8Scalar((lead - 0xD800) * 1024 + (trail - 0xDC00) + 0x10000)
    ensures Utf8([lead]) == [0xEF, 0xBF, 0xBD] && Utf8([trail]) == [0xEF, 0xBF, 0xBD]
  {
    assert [lead, trail][2..] == [] && [lead][1..] == [] && [trail][1..] == [];
  }
}
