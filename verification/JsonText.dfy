// JSON string literals: what JSON.stringify writes for a string, and what JSON.parse reads back from a text
// that is one literal (section 7 of RFC 8259).
module JsonText {
  import opened Wrappers
  import opened Text

  function HexDigit(n: nat): Unit
    requires n < 16
  {
    if n < 10 then 48 + n else 87 + n
  }

  function HexValue(u: Unit): (r: Option<nat>)
    ensures r.Some? ==> r.value < 16
  {
    if 48 <= u <= 57 then Some(u - 48)
    else if 97 <= u <= 102 then Some(u - 87)
    else if 65 <= u <= 70 then Some(u - 55)
    else None
  }

  function UnicodeEscape(u: Unit): Text {
    [BACKSLASH, 117, HexDigit(u / 16 / 16 / 16), HexDigit(u / 16 / 16 % 16), HexDigit(u / 16 % 16), HexDigit(u % 16)]
  }

  // The letter of a two-unit escape.
  function ShortEscape(u: Unit): Option<Unit> {
    match u
    case 8 => Some(98)
    case 9 => Some(116)
    case 10 => Some(110)
    case 12 => Some(102)
    case 13 => Some(114)
    case 34 => Some(34)
    case 92 => Some(92)
    case _ => None
  }

  function Escape(u: Unit): Text {
    if ShortEscape(u).Some? then [BACKSLASH, ShortEscape(u).value]
    else if u < 32 || Lead(u) || Trail(u) then UnicodeEscape(u)
    else [u]
  }

  // Surrogate pairs are written as they are; a lone surrogate is escaped.
  function Escaped(s: Text): Text
    decreases |s|
  {
    if s == [] then [] else if Pair(s) then s[..2] + Escaped(s[2..]) else Escape(s[0]) + Escaped(s[1..])
  }

  function Quoted(s: Text): Text { [QUOTE] + Escaped(s) + [QUOTE] }

  function LetterValue(u: Unit): Option<Unit> {
    match u
    case 98 => Some(8)
    case 116 => Some(9)
    case 110 => Some(10)
    case 102 => Some(12)
    case 114 => Some(13)
    case 34 => Some(34)
    case 92 => Some(92)
    case 47 => Some(47)
    case _ => None
  }

  function HexUnit(t: Text): Option<Unit>
    requires |t| >= 4
  {
    var a, b, c, d := HexValue(t[0]), HexValue(t[1]), HexValue(t[2]), HexValue(t[3]);
    if a.Some? && b.Some? && c.Some? && d.Some?
    then Some(((a.value * 16 + b.value) * 16 + c.value) * 16 + d.value)
    else None
  }

  // One unit of a literal's body, and how many units it took.
  function ReadUnit(t: Text): (r: Option<(Unit, nat)>)
    requires t != []
    ensures r.Some? ==> 1 <= r.value.1 <= |t|
  {
    if t[0] != BACKSLASH then if t[0] < 32 || t[0] == QUOTE then None else Some((t[0], 1))
    else if |t| >= 2 && LetterValue(t[1]).Some? then Some((LetterValue(t[1]).value, 2))
    else if |t| >= 6 && t[1] == 117 && HexUnit(t[2..]).Some? then Some((HexUnit(t[2..]).value, 6))
    else None
  }

  // The rest of a literal, whose closing quote must be the last unit.
  function ReadRest(t: Text): Option<Text>
    decreases |t|
  {
    if t == [QUOTE] then Some([])
    else if t == [] || ReadUnit(t).None? then None
    else
      var (u, n) := ReadUnit(t).value;
      var rest := ReadRest(t[n..]);
      if rest.None? then None else Some([u] + rest.value)
  }

  // JSON.parse on a text that starts with a quote.
  function ParseString(t: Text): Option<Text> {
    if t == [] || t[0] != QUOTE then None else ReadRest(t[1..])
  }

  lemma EscapeReadsBack(u: Unit, rest: Text)
    ensures ReadUnit(Escape(u) + rest) == Some((u, |Escape(u)|))
  {
    var t := Escape(u) + rest;
    if ShortEscape(u).None? && |Escape(u)| == 6 {
      assert t[2..][0] == t[2] && t[2..][1] == t[3] && t[2..][2] == t[4] && t[2..][3] == t[5];
    }
  }

  lemma ReadOne(t: Text, u: Unit, n: nat, s: Text)
    requires t != [] && t != [QUOTE] && ReadUnit(t) == Some((u, n)) && ReadRest(t[n..]) == Some(s)
    ensures ReadRest(t) == Some([u] + s)
  {
  }

  lemma EscapeIsNoQuote(u: Unit)
    ensures Escape(u) != [] && Escape(u)[0] != QUOTE
  {
  }

  lemma {:induction false} EscapedReadsBack(s: Text)
    ensures ReadRest(Escaped(s) + [QUOTE]) == Some(s)
    decreases |s|
  {
    hide Escape, ReadRest;
    if Pair(s) {
      var rest := Escaped(s[2..]) + [QUOTE];
      EscapedReadsBack(s[2..]);
      assert Escaped(s) + [QUOTE] == [s[0]] + ([s[1]] + rest);
      ReadOne([s[1]] + rest, s[1], 1, s[2..]);
      ReadOne([s[0]] + ([s[1]] + rest), s[0], 1, [s[1]] + s[2..]);
      assert s == [s[0]] + ([s[1]] + s[2..]);
    } else if s != [] {
      var e, rest := Escape(s[0]), Escaped(s[1..]) + [QUOTE];
      EscapedReadsBack(s[1..]);
      assert Escaped(s) + [QUOTE] == e + rest;
      EscapeReadsBack(s[0], rest);
      EscapeIsNoQuote(s[0]);
      assert (e + rest)[0] == e[0] && (e + rest)[|e|..] == rest;
      ReadOne(e + rest, s[0], |e|, s[1..]);
      assert s == [s[0]] + s[1..];
    } else {
      QuoteEnds();
      assert Escaped(s) + [QUOTE] == [QUOTE];
    }
  }

  lemma QuoteEnds()
    ensures ReadRest([QUOTE]) == Some([])
  {
  }

  // JSON.parse(JSON.stringify(s)) is s, for every string.
  lemma QuotedReadsBack(s: Text)
    ensures ParseString(Quoted(s)) == Some(s)
  {
    EscapedReadsBack(s);
    assert Quoted(s)[1..] == Escaped(s) + [QUOTE];
  }

  // No control unit is left in a literal, and a Unicode line separator is there exactly when it was in the string.
  lemma {:induction false} EscapedUnits(s: Text, u: Unit)
    requires u < 32 || u == 0x2028 || u == 0x2029
    ensures u in Escaped(s) <==> u >= 32 && u in s
    decreases |s|
  {
    if Pair(s) {
      EscapedUnits(s[2..], u);
      assert s == s[..2] + s[2..];
    } else if s != [] {
      EscapedUnits(s[1..], u);
      assert s == [s[0]] + s[1..];
      assert u in Escape(s[0]) <==> u >= 32 && u == s[0];
    }
  }

  // A literal is well-formed UTF-16.
  lemma {:induction false} EscapedIsWellFormed(s: Text)
    ensures WellFormed(Escaped(s))
    decreases |s|
  {
    hide Escape;
    if Pair(s) {
      EscapedIsWellFormed(s[2..]);
      WellFormedConcat(s[..2], Escaped(s[2..]));
    } else if s != [] {
      EscapedIsWellFormed(s[1..]);
      EscapeIsWellFormed(s[0]);
      WellFormedConcat(Escape(s[0]), Escaped(s[1..]));
    }
  }

  lemma EscapeIsWellFormed(u: Unit)
    ensures WellFormed(Escape(u))
  {
    var e := Escape(u);
    assert forall i :: 0 <= i < |e| ==> !Lead(e[i]) && !Trail(e[i]);
    PlainIsWellFormed(e);
  }

  // The place of the first quote that no backslash escapes, or the length.
  function ClosingQuote(t: Text): (i: nat)
    ensures i <= |t| && (i < |t| ==> t[i] == QUOTE)
    decreases |t|
  {
    if t == [] || t[0] == QUOTE then 0
    else if t[0] != BACKSLASH then 1 + ClosingQuote(t[1..])
    else if |t| == 1 then 1
    else 2 + ClosingQuote(t[2..])
  }

  // The first unescaped quote of a literal's body is the one that closes it.
  lemma {:induction false} EscapedHidesQuotes(s: Text, rest: Text)
    ensures ClosingQuote(Escaped(s) + [QUOTE] + rest) == |Escaped(s)|
    decreases |s|
  {
    hide Escape;
    if Pair(s) {
      var tail := Escaped(s[2..]) + [QUOTE] + rest;
      EscapedHidesQuotes(s[2..], rest);
      Regroup(s[..2], Escaped(s[2..]), rest);
      assert s[..2] + tail == [s[0]] + ([s[1]] + tail);
      PassUnit(s[1], tail);
      PassUnit(s[0], [s[1]] + tail);
    } else if s != [] {
      var tail := Escaped(s[1..]) + [QUOTE] + rest;
      EscapedHidesQuotes(s[1..], rest);
      PassEscape(s[0], tail);
      Regroup(Escape(s[0]), Escaped(s[1..]), rest);
    } else {
      assert Escaped(s) + [QUOTE] + rest == [QUOTE] + rest;
    }
  }

  lemma Regroup(a: Text, b: Text, rest: Text)
    ensures a + b + [QUOTE] + rest == a + (b + [QUOTE] + rest)
  {
  }

  lemma PassUnit(u: Unit, rest: Text)
    requires u != QUOTE && u != BACKSLASH
    ensures ClosingQuote([u] + rest) == 1 + ClosingQuote(rest)
  {
    assert ([u] + rest)[1..] == rest;
  }

  lemma {:induction false} PassPlain(p: Text, rest: Text)
    requires QUOTE !in p && BACKSLASH !in p
    ensures ClosingQuote(p + rest) == |p| + ClosingQuote(rest)
  {
    if p == [] {
      assert p + rest == rest;
    } else {
      PassPlain(p[1..], rest);
      PassUnit(p[0], p[1..] + rest);
      assert p + rest == [p[0]] + (p[1..] + rest);
    }
  }

  lemma EscapeShape(u: Unit)
    ensures var e := Escape(u);
            && (e == [u] || (|e| >= 2 && e[0] == BACKSLASH))
            && (e == [u] ==> u != QUOTE && u != BACKSLASH)
            && (e != [u] ==> QUOTE !in e[2..] && BACKSLASH !in e[2..])
  {
  }

  lemma PassEscape(u: Unit, rest: Text)
    ensures ClosingQuote(Escape(u) + rest) == |Escape(u)| + ClosingQuote(rest)
  {
    hide Escape;
    var e := Escape(u);
    EscapeShape(u);
    if e == [u] {
      PassUnit(u, rest);
    } else {
      PassPlain(e[2..], rest);
      assert (e + rest)[2..] == e[2..] + rest;
    }
  }

  // --- The grammar of a literal ---

  // What stands for one unit: itself, a letter after a backslash, or four hexadecimal digits after a backslash and a "u".
  datatype Piece = Itself(unit: Unit) | Letter(letter: Unit) | Digits(digits: Text)

  // The letters and the units they stand for.
  const Letters: set<(Unit, Unit)> := {(34, 34), (92, 92), (47, 47), (98, 8), (102, 12), (110, 10), (114, 13), (116, 9)}

  predicate Digit(u: Unit, n: nat) {
    n < 16 && (u == "0123456789abcdef"[n] as int || u == "0123456789ABCDEF"[n] as int)
  }

  ghost predicate Means(piece: Piece, u: Unit) {
    match piece
    case Itself(v) => v == u && u >= 32 && u != QUOTE && u != BACKSLASH
    case Letter(letter) => (letter, u) in Letters
    case Digits(digits) =>
      |digits| == 4 && Digit(digits[0], u / 4096) && Digit(digits[1], u / 256 % 16) && Digit(digits[2], u / 16 % 16) && Digit(digits[3], u % 16)
  }

  function Spelled(piece: Piece): (t: Text)
    ensures t != []
  {
    match piece
    case Itself(unit) => [unit]
    case Letter(letter) => [BACKSLASH, letter]
    case Digits(digits) => [BACKSLASH, 117] + digits
  }

  function Spelling(pieces: seq<Piece>): Text {
    if pieces == [] then [] else Spelled(pieces[0]) + Spelling(pieces[1..])
  }

  ghost predicate AllMean(pieces: seq<Piece>, s: Text) {
    |pieces| == |s| && forall i :: 0 <= i < |s| ==> Means(pieces[i], s[i])
  }

  lemma DigitHasValue(u: Unit, n: nat)
    requires Digit(u, n)
    ensures HexValue(u) == Some(n)
  {
  }

  lemma ValueHasDigit(u: Unit)
    requires HexValue(u).Some?
    ensures Digit(u, HexValue(u).value)
  {
  }

  lemma LetterHasValue(letter: Unit, u: Unit)
    ensures (letter, u) in Letters <==> LetterValue(letter) == Some(u)
  {
  }

  lemma DigitsAreRead(digits: Text, rest: Text, u: Unit)
    requires Means(Digits(digits), u)
    ensures HexUnit(digits + rest) == Some(u)
  {
    hide Digit, HexValue;
    var t := digits + rest;
    DigitHasValue(t[0], u / 4096);
    DigitHasValue(t[1], u / 256 % 16);
    DigitHasValue(t[2], u / 16 % 16);
    DigitHasValue(t[3], u % 16);
    Recomposed(u);
  }

  lemma Recomposed(u: Unit)
    ensures ((u / 4096 * 16 + u / 256 % 16) * 16 + u / 16 % 16) * 16 + u % 16 == u
  {
    var v, w := u / 16, u / 256;
    assert u == v * 16 + u % 16;
    assert v == w * 16 + v % 16;
    assert w == u / 4096 * 16 + w % 16;
  }

  lemma PieceIsRead(piece: Piece, u: Unit, rest: Text)
    requires Means(piece, u)
    ensures ReadUnit(Spelled(piece) + rest) == Some((u, |Spelled(piece)|)) && Spelled(piece)[0] != QUOTE
  {
    hide HexUnit, Digit, HexValue;
    var t := Spelled(piece) + rest;
    match piece {
      case Itself(_) =>
      case Letter(letter) => LetterHasValue(letter, u);
      case Digits(digits) =>
        DigitsAreRead(digits, rest, u);
        assert t[2..] == digits + rest;
    }
  }

  // Every literal of the grammar is read as what its pieces mean.
  lemma {:induction false} LiteralIsRead(pieces: seq<Piece>, s: Text)
    requires AllMean(pieces, s)
    ensures ParseString([QUOTE] + Spelling(pieces) + [QUOTE]) == Some(s)
  {
    BodyIsRead(pieces, s);
    assert ([QUOTE] + Spelling(pieces) + [QUOTE])[1..] == Spelling(pieces) + [QUOTE];
  }

  lemma {:induction false} BodyIsRead(pieces: seq<Piece>, s: Text)
    requires AllMean(pieces, s)
    ensures ReadRest(Spelling(pieces) + [QUOTE]) == Some(s)
  {
    hide ReadRest, Means, Spelled;
    if s != [] {
      var e, rest := Spelled(pieces[0]), Spelling(pieces[1..]) + [QUOTE];
      BodyIsRead(pieces[1..], s[1..]);
      PieceIsRead(pieces[0], s[0], rest);
      assert Spelling(pieces) + [QUOTE] == e + rest && (e + rest)[0] == e[0] && (e + rest)[|e|..] == rest;
      ReadOne(e + rest, s[0], |e|, s[1..]);
      assert s == [s[0]] + s[1..];
    } else {
      QuoteEnds();
      assert Spelling(pieces) + [QUOTE] == [QUOTE];
    }
  }

  // And nothing else is read.
  lemma {:induction false} OnlyLiteralsAreRead(t: Text, s: Text) returns (pieces: seq<Piece>)
    requires ParseString(t) == Some(s)
    ensures t == [QUOTE] + Spelling(pieces) + [QUOTE] && AllMean(pieces, s)
  {
    pieces := OnlyPiecesAreRead(t[1..], s);
    assert t == [QUOTE] + t[1..];
  }

  lemma {:induction false} OnlyPiecesAreRead(t: Text, s: Text) returns (pieces: seq<Piece>)
    requires ReadRest(t) == Some(s)
    ensures t == Spelling(pieces) + [QUOTE] && AllMean(pieces, s)
    decreases |t|
  {
    hide ReadUnit, Means, Spelled, Spelling;
    if t == [QUOTE] {
      pieces := [];
      assert Spelling([]) + [QUOTE] == [QUOTE] by { NothingSpelled(); }
    } else {
      var (u, n) := ReadUnit(t).value;
      var rest := ReadRest(t[n..]).value;
      assert s == [u] + rest;
      hide ReadRest;
      var piece := OnePieceIsRead(t);
      var more := OnlyPiecesAreRead(t[n..], rest);
      pieces := [piece] + more;
      OneMoreSpelled(t, n, piece, more);
    }
  }

  lemma NothingSpelled()
    ensures Spelling([]) == []
  {
  }

  lemma OneMoreSpelled(t: Text, n: nat, piece: Piece, more: seq<Piece>)
    requires n <= |t| && t[..n] == Spelled(piece) && t[n..] == Spelling(more) + [QUOTE]
    ensures t == Spelling([piece] + more) + [QUOTE]
  {
    hide Spelled;
    assert ([piece] + more)[1..] == more;
    assert t == t[..n] + t[n..];
  }

  lemma OnePieceIsRead(t: Text) returns (piece: Piece)
    requires t != [] && ReadUnit(t).Some?
    ensures var (u, n) := ReadUnit(t).value; Means(piece, u) && Spelled(piece) == t[..n]
  {
    if t[0] != BACKSLASH {
      piece := Itself(t[0]);
    } else if |t| >= 2 && LetterValue(t[1]).Some? {
      piece := Letter(t[1]);
      LetterHasValue(t[1], LetterValue(t[1]).value);
    } else {
      piece := Digits(t[2..6]);
      DigitsMean(t[2..]);
    }
  }

  lemma DigitsMean(t: Text)
    requires |t| >= 4 && HexUnit(t).Some?
    ensures Means(Digits(t[..4]), HexUnit(t).value)
  {
    hide Digit, HexValue;
    var a, b, c, d := HexValue(t[0]), HexValue(t[1]), HexValue(t[2]), HexValue(t[3]);
    ValueHasDigit(t[0]);
    ValueHasDigit(t[1]);
    ValueHasDigit(t[2]);
    ValueHasDigit(t[3]);
    Nibbles(a.value, b.value, c.value, d.value);
  }

  lemma Nibbles(a: nat, b: nat, c: nat, d: nat)
    requires a < 16 && b < 16 && c < 16 && d < 16
    ensures var u := ((a * 16 + b) * 16 + c) * 16 + d; u / 4096 == a && u / 256 % 16 == b && u / 16 % 16 == c && u % 16 == d
  {
  }
}
