// What each form of entry stands for: how a line divides, and what plain, quoted, block and nested values read as, with
// the comments that may follow them.
module FrontmatterValues {
  import opened Wrappers
  import opened Text
  import opened JsonText
  import opened Frontmatter

  predicate AllBlank(t: Text) { forall i :: 0 <= i < |t| ==> Blank(t[i]) }

  predicate AllWhite(t: Text) { forall i :: 0 <= i < |t| ==> White(t[i]) }

  // Blanks, a number sign and the rest of the line.
  ghost predicate Comment(t: Text) { exists n :: 0 < n < |t| && AllBlank(t[..n]) && t[n] == HASH && OneLine(t) }

  // What may follow a value on its line.
  ghost predicate Trailer(t: Text) { AllBlank(t) || Comment(t) }

  // Neither end is white.
  predicate Tight(t: Text) { t != [] && !White(t[0]) && !White(t[|t| - 1]) }

  // --- Trimming ---

  lemma {:induction false} TrimEndIs(t: Text) returns (k: nat)
    ensures k <= |t| && TrimEnd(t) == t[..k] && (k > 0 ==> !White(t[k - 1]))
    ensures forall i :: k <= i < |t| ==> White(t[i])
  {
    if t != [] && White(t[|t| - 1]) {
      var front := t[..|t| - 1];
      k := TrimEndIs(front);
      assert front[..k] == t[..k];
      assert forall i :: 0 <= i < |front| ==> front[i] == t[i];
    } else {
      k := |t|;
      assert t[..k] == t;
    }
  }

  lemma {:induction false} TrimStartSkips(w: Text, t: Text)
    requires AllWhite(w)
    ensures TrimStart(w + t) == TrimStart(t)
  {
    if w == [] {
      assert w + t == t;
    } else {
      TrimStartSkips(w[1..], t);
      assert (w + t)[1..] == w[1..] + t;
    }
  }

  // White units before a visible one do not matter, and it stays first.
  lemma VisibleStays(w: Text, u: Unit, more: Text)
    requires AllWhite(w) && !White(u)
    ensures var t := w + [u] + more;
            TrimStart(t) == [u] + more && Trim(t) != [] && Trim(t)[0] == u
  {
    TrimStartSkips(w, [u] + more);
    assert w + [u] + more == w + ([u] + more);
    var k := TrimEndIs([u] + more);
    assert ([u] + more)[0] == u;
  }

  lemma WhiteIsBlank(w: Text)
    requires AllWhite(w)
    ensures IsBlank(w)
  {
    TrimStartSkips(w, []);
    assert w + [] == w;
  }

  // Trimming a value with its trailer leaves the value, and the comment if there is one.
  lemma TrailerTrimmed(v: Text, trailer: Text) returns (c: Text)
    requires Tight(v) && Trailer(trailer)
    ensures Trim(v + trailer) == v + c && (c == [] || Comment(c))
  {
    var t := v + trailer;
    assert t[0] == v[0];
    var k := TrimEndIs(t);
    assert t[|v| - 1] == v[|v| - 1] && forall i :: 0 <= i < |trailer| ==> t[|v| + i] == trailer[i];
    c := t[|v|..k];
    assert t[..k] == v + c && c == trailer[..k - |v|];
    if !AllBlank(trailer) {
      var n :| 0 < n < |trailer| && AllBlank(trailer[..n]) && trailer[n] == HASH && OneLine(trailer);
      assert t[|v| + n] == HASH;
      assert c[..n] == trailer[..n] && c[n] == HASH;
    }
  }

  lemma {:induction false} BlanksDrop(b: Text, rest: Text)
    requires AllBlank(b) && !StartsBlank(rest)
    ensures DropBlanks(b + rest) == rest
  {
    if b == [] {
      assert b + rest == rest;
    } else {
      BlanksDrop(b[1..], rest);
      assert (b + rest)[1..] == b[1..] + rest;
    }
  }

  lemma CommentStarts(c: Text)
    requires Comment(c)
    ensures StartsComment(c) && SuffixOk(c)
  {
    var n :| 0 < n < |c| && AllBlank(c[..n]) && c[n] == HASH && OneLine(c);
    var b, rest := c[..n], c[n + 1..];
    assert c == b + c[n..] == b + [HASH] + rest && c[0] == b[0];
    BlanksDrop(b, c[n..]);
    hide DropBlanks, AllBlank, OneLine;
    CommentSuffix(b, rest);
    DroppedIsOneLine(c, n);
  }

  lemma CommentSuffix(b: Text, rest: Text)
    requires AllBlank(b)
    ensures SuffixOk(b + [HASH] + rest)
  {
    VisibleStays(b, HASH, rest);
  }

  lemma DroppedIsOneLine(c: Text, n: nat)
    requires n <= |c| && OneLine(c)
    ensures OneLine(c[n..])
  {
  }

  // --- How a line divides ---

  lemma EntryLineIsMapping(key: Text, gap: Text, raw: Text)
    requires ValidKey(key) && AllBlank(gap) && !StartsBlank(raw) && OneLine(raw)
    ensures var line := key + [COLON] + gap + raw;
            Mapping(line) == Some((key, raw)) && !StartsBlank(line) && !Ignored(line)
  {
    hide KeyLength, OneLine;
    var line := key + [COLON] + gap + raw;
    var rest := [COLON] + gap + raw;
    assert line == key + rest && line[0] == key[0];
    KeyEndsAt(key, rest);
    BlanksDrop(gap, raw);
    assert line[..|key|] == key && line[|key| + 1..] == gap + raw;
    assert line == [] + [key[0]] + line[1..];
    VisibleStays([], key[0], line[1..]);
  }

  // A line is an entry exactly when it is a key, a colon, blanks and the rest of one line.
  ghost predicate IsEntry(line: Text, key: Text, raw: Text) {
    && ValidKey(key) && !StartsBlank(raw) && OneLine(raw)
    && exists gap :: AllBlank(gap) && line == key + [COLON] + gap + raw
  }

  lemma {:induction false} DroppedBlanks(t: Text) returns (gap: Text)
    ensures AllBlank(gap) && t == gap + DropBlanks(t) && !StartsBlank(DropBlanks(t))
  {
    if StartsBlank(t) {
      gap := DroppedBlanks(t[1..]);
      gap := [t[0]] + gap;
    } else {
      gap := [];
    }
  }

  lemma MappingExactly(line: Text, key: Text, raw: Text)
    ensures Mapping(line) == Some((key, raw)) <==> IsEntry(line, key, raw)
  {
    if Mapping(line) == Some((key, raw)) { MappedIsEntry(line, key, raw); }
    hide Mapping, ValidKey, OneLine, AllBlank, StartsBlank;
    if IsEntry(line, key, raw) {
      var gap :| AllBlank(gap) && line == key + [COLON] + gap + raw;
      EntryLineIsMapping(key, gap, raw);
    }
  }

  lemma MappedIsEntry(line: Text, key: Text, raw: Text)
    requires Mapping(line) == Some((key, raw))
    ensures IsEntry(line, key, raw)
  {
    hide OneLine, DropBlanks, AllBlank, StartsBlank;
    var n := KeyLength(line);
    var gap := DroppedBlanks(line[n + 1..]);
    assert ValidKey(key);
    hide KeyLength, ValidKey;
    assert line == line[..n] + [line[n]] + line[n + 1..];
    assert line == key + [COLON] + gap + raw;
  }

  // Blank lines and comments are skipped.
  lemma IgnoredIsSkipped(line: Text, w: Text, more: Text, rest: seq<Text>, values: Values)
    requires AllWhite(w) && (line == w || line == w + [HASH] + more)
    ensures Entries([line] + rest, values) == Entries(rest, values)
  {
    if line == w { WhiteIsBlank(w); } else { VisibleStays(w, HASH, more); }
    assert ([line] + rest)[1..] == rest;
  }

  // Any other line may not be indented.
  lemma IndentedIsRefused(w: Text, u: Unit, more: Text, rest: seq<Text>, values: Values)
    requires AllWhite(w) && w != [] && Blank(w[0]) && !White(u) && u != HASH
    ensures Entries([w + [u] + more] + rest, values) == Err(Indented)
  {
    VisibleStays(w, u, more);
  }

  // Nor may it be anything but an entry.
  lemma UnmappedIsRefused(line: Text, rest: seq<Text>, values: Values)
    requires line != [] && !White(line[0]) && line[0] != HASH && forall key, raw :: !IsEntry(line, key, raw)
    ensures Entries([line] + rest, values) == Err(NotAMapping)
  {
    VisibleStays([], line[0], line[1..]);
    assert line == [] + [line[0]] + line[1..];
    if Mapping(line).Some? { MappingExactly(line, Mapping(line).value.0, Mapping(line).value.1); }
  }

  // A key may not come twice, whatever its second value.
  lemma DuplicateIsRefused(key: Text, gap: Text, raw: Text, rest: seq<Text>, values: Values)
    requires ValidKey(key) && AllBlank(gap) && !StartsBlank(raw) && OneLine(raw) && key in values
    ensures Entries([key + [COLON] + gap + raw] + rest, values) == Err(DuplicateKey)
  {
    hide Mapping, Ignored, StartsBlank, OneLine;
    EntryLineIsMapping(key, gap, raw);
  }

  // --- Plain values ---

  predicate NoHashAfterBlank(t: Text) { forall i :: 0 <= i < |t| - 1 && Blank(t[i]) ==> t[i + 1] != HASH }

  predicate PlainValue(t: Text) {
    Tight(t) && OneLine(t) && NoHashAfterBlank(t) && t[0] != QUOTE && t[0] != APOSTROPHE && t[0] != 62 && t[0] != 124
  }

  lemma {:induction false} NoCommentHere(v: Text, c: Text)
    requires v != [] && NoHashAfterBlank(v) && !Blank(v[|v| - 1])
    ensures !StartsComment(v + c)
  {
    if Blank(v[0]) {
      var t := v[1..] + c;
      assert (v + c)[1..] == t && t[0] == v[1] && DropBlanks(v + c) == DropBlanks(t);
      NoCommentHere(v[1..], c);
      if !Blank(v[1]) { assert DropBlanks(t) == t && v[1] != HASH; }
    }
  }

  lemma {:induction false} CommentIsCut(v: Text, c: Text)
    requires NoHashAfterBlank(v) && (v != [] ==> !Blank(v[|v| - 1])) && (c == [] || Comment(c))
    ensures WithoutComment(v + c) == v
  {
    if v == [] {
      if c != [] { CommentStarts(c); }
      assert v + c == c;
    } else {
      NoCommentHere(v, c);
      CommentIsCut(v[1..], c);
      assert (v + c)[1..] == v[1..] + c && v == [v[0]] + v[1..];
    }
  }

  lemma PlainScalar(v: Text, trailer: Text)
    requires PlainValue(v) && Trailer(trailer)
    ensures ScalarValue(v + trailer) == Ok(Some(v)) && BlockHeader(v + trailer).None? && !IsBlank(v + trailer)
  {
    var c := TrailerTrimmed(v, trailer);
    CommentIsCut(v, c);
    Untrimmed(v);
    assert (v + c)[0] == v[0];
  }

  lemma EntryIsOneLine(v: Text, trailer: Text)
    requires OneLine(v) && Trailer(trailer)
    ensures OneLine(v + trailer)
  {
  }

  // One line of the form `key: scalar`, for a scalar whose value is known.
  lemma ScalarIsRead(key: Text, gap: Text, raw: Text, value: Text, rest: seq<Text>, values: Values)
    requires ValidKey(key) && key !in values && AllBlank(gap) && !StartsBlank(raw) && OneLine(raw)
    requires ScalarValue(raw) == Ok(Some(value)) && BlockHeader(raw).None? && !IsBlank(raw)
    ensures Entries([key + [COLON] + gap + raw] + rest, values) == Entries(rest, values[key := Some(value)])
  {
    hide Ignored, Mapping, ScalarValue, BlockHeader, IsBlank, OneLine, StartsBlank;
    var lines := [key + [COLON] + gap + raw] + rest;
    EntryLineIsMapping(key, gap, raw);
    assert lines[0] == key + [COLON] + gap + raw && lines[1..] == rest;
    assert EntryValue(lines, raw) == (Ok(Some(value)), 1);
  }

  // A plain value stands for itself, without the blanks and the comment after it.
  lemma PlainIsRead(key: Text, gap: Text, v: Text, trailer: Text, rest: seq<Text>, values: Values)
    requires ValidKey(key) && key !in values && AllBlank(gap) && PlainValue(v) && Trailer(trailer)
    ensures Entries([key + [COLON] + gap + (v + trailer)] + rest, values) == Entries(rest, values[key := Some(v)])
  {
    PlainScalar(v, trailer);
    EntryIsOneLine(v, trailer);
    assert (v + trailer)[0] == v[0];
    ScalarIsRead(key, gap, v + trailer, v, rest, values);
  }

  // --- Quoted values ---

  lemma {:induction false} SpellingHidesQuotes(pieces: seq<Piece>, s: Text, rest: Text)
    requires AllMean(pieces, s)
    ensures ClosingQuote(Spelling(pieces) + [QUOTE] + rest) == |Spelling(pieces)|
  {
    hide Spelled, Means;
    if pieces == [] {
      assert Spelling(pieces) + [QUOTE] + rest == [QUOTE] + rest;
    } else {
      SpellingHidesQuotes(pieces[1..], s[1..], rest);
      PassPiece(pieces[0], s[0], Spelling(pieces[1..]) + [QUOTE] + rest);
      Regroup(Spelled(pieces[0]), Spelling(pieces[1..]), rest);
    }
  }

  lemma PassPiece(piece: Piece, u: Unit, rest: Text)
    requires Means(piece, u)
    ensures ClosingQuote(Spelled(piece) + rest) == |Spelled(piece)| + ClosingQuote(rest)
  {
    var t := Spelled(piece) + rest;
    match piece {
      case Itself(_) => PassUnit(u, rest);
      case Letter(_) => assert t[2..] == rest;
      case Digits(digits) =>
        DigitsHideNothing(digits, u);
        hide Means, Digit;
        assert t[2..] == digits + rest;
        PassPlain(digits, rest);
    }
  }

  lemma DigitsHideNothing(digits: Text, u: Unit)
    requires Means(Digits(digits), u)
    ensures QUOTE !in digits && BACKSLASH !in digits
  {
    DigitIsPlain(digits[0], u / 4096);
    DigitIsPlain(digits[1], u / 256 % 16);
    DigitIsPlain(digits[2], u / 16 % 16);
    DigitIsPlain(digits[3], u % 16);
    hide Digit;
  }

  lemma DigitIsPlain(u: Unit, n: nat)
    requires Digit(u, n)
    ensures u != QUOTE && u != BACKSLASH
  {
  }

  // A double-quoted value stands for what the JSON literal means.
  lemma DoubleQuotedIsRead(key: Text, gap: Text, pieces: seq<Piece>, s: Text, trailer: Text, rest: seq<Text>, values: Values)
    requires ValidKey(key) && key !in values && AllBlank(gap) && Trailer(trailer)
    requires AllMean(pieces, s) && OneLine(Spelling(pieces))
    ensures var raw := [QUOTE] + Spelling(pieces) + [QUOTE] + trailer;
            Entries([key + [COLON] + gap + raw] + rest, values) == Entries(rest, values[key := Some(s)])
  {
    hide Spelling, AllMean, Entries;
    var v := [QUOTE] + Spelling(pieces) + [QUOTE];
    DoubleQuotedScalar(pieces, s, trailer);
    EntryIsOneLine(v, trailer);
    assert (v + trailer)[0] == QUOTE;
    ScalarIsRead(key, gap, v + trailer, s, rest, values);
  }

  // The parts of a quoted text and what follows it.
  lemma QuotedParts(quote: Unit, body: Text, c: Text)
    ensures var t := [quote] + body + [quote] + c;
            && t[0] == quote && t[1..] == body + ([quote] + c) && body + ([quote] + c) == body + [quote] + c
            && t[1..|body| + 1] == body && t[..|body| + 2] == [quote] + body + [quote] && t[|body| + 2..] == c
  {
    var t := [quote] + body + [quote] + c;
    assert t == [quote] + (body + ([quote] + c));
  }

  lemma DoubleQuotedScalar(pieces: seq<Piece>, s: Text, trailer: Text)
    requires AllMean(pieces, s) && Trailer(trailer)
    ensures var raw := [QUOTE] + Spelling(pieces) + [QUOTE] + trailer;
            ScalarValue(raw) == Ok(Some(s)) && BlockHeader(raw).None? && !IsBlank(raw)
  {
    hide Spelling, AllMean, ClosingQuote, ParseString, Comment;
    var body := Spelling(pieces);
    var v := [QUOTE] + body + [QUOTE];
    var c := TrailerTrimmed(v, trailer);
    var t := v + c;
    QuotedParts(QUOTE, body, c);
    SpellingHidesQuotes(pieces, s, c);
    LiteralIsRead(pieces, s);
    if c != [] { CommentStarts(c); }
    assert DoubleQuoted(t) == Ok(s);
  }

  // A single-quoted value stands for the text between the quotes, doubled apostrophes standing for one.
  lemma SingleQuotedIsRead(key: Text, gap: Text, s: Text, trailer: Text, rest: seq<Text>, values: Values)
    requires ValidKey(key) && key !in values && AllBlank(gap) && Trailer(trailer) && OneLine(s)
    ensures var raw := [APOSTROPHE] + Doubled(s) + [APOSTROPHE] + trailer;
            Entries([key + [COLON] + gap + raw] + rest, values) == Entries(rest, values[key := Some(s)])
  {
    DoubledIsOneLine(s);
    hide Doubled, Entries;
    var v := [APOSTROPHE] + Doubled(s) + [APOSTROPHE];
    SingleQuotedScalar(s, trailer);
    EntryIsOneLine(v, trailer);
    assert (v + trailer)[0] == APOSTROPHE;
    ScalarIsRead(key, gap, v + trailer, s, rest, values);
  }

  lemma SingleQuotedScalar(s: Text, trailer: Text)
    requires Trailer(trailer)
    ensures var raw := [APOSTROPHE] + Doubled(s) + [APOSTROPHE] + trailer;
            ScalarValue(raw) == Ok(Some(s)) && BlockHeader(raw).None? && !IsBlank(raw)
  {
    hide Doubled, ClosingApostrophe, Unpaired, Comment;
    var body := Doubled(s);
    var v := [APOSTROPHE] + body + [APOSTROPHE];
    var c := TrailerTrimmed(v, trailer);
    var t := v + c;
    QuotedParts(APOSTROPHE, body, c);
    if c != [] { CommentStarts(c); }
    DoubledCloses(s, c);
    DoubledReadsBack(s);
    assert SingleQuoted(t) == Ok(s);
  }

  lemma {:induction false} DoubledCloses(s: Text, rest: Text)
    requires rest == [] || rest[0] != APOSTROPHE
    ensures ClosingApostrophe(Doubled(s) + ([APOSTROPHE] + rest)) == |Doubled(s)|
  {
    hide ClosingApostrophe;
    var end := [APOSTROPHE] + rest;
    if s == [] {
      assert Doubled(s) + end == end;
      ApostropheCloses(rest);
    } else {
      DoubledCloses(s[1..], rest);
      var first := if s[0] == APOSTROPHE then [APOSTROPHE, APOSTROPHE] else [s[0]];
      var more := Doubled(s[1..]) + end;
      assert Doubled(s) == first + Doubled(s[1..]);
      hide Doubled;
      RegroupThree(first, Doubled(s[1..]), end);
      if s[0] == APOSTROPHE { PairReads(more); } else { UnitReads(s[0], more); }
    }
  }

  lemma ApostropheCloses(rest: Text)
    requires rest == [] || rest[0] != APOSTROPHE
    ensures ClosingApostrophe([APOSTROPHE] + rest) == 0
  {
    assert rest != [] ==> ([APOSTROPHE] + rest)[1] == rest[0];
  }

  lemma {:induction false} DoubledIsOneLine(s: Text)
    requires OneLine(s)
    ensures OneLine(Doubled(s))
  {
    if s != [] { DoubledIsOneLine(s[1..]); }
  }

  // --- Quoted values that are refused ---

  // Anything but a comment after the closing quote, trimmed at its end.
  lemma JunkTrimmed(v: Text, w: Text, u: Unit, more: Text) returns (rest: Text)
    requires Tight(v) && AllWhite(w) && !White(u) && u != HASH
    ensures Trim(v + (w + [u] + more)) == v + rest && rest != [] && (Blank(rest[0]) || rest[0] == (w + [u])[0]) && !SuffixOk(rest)
  {
    var junk := w + [u] + more;
    var t := v + junk;
    assert t[0] == v[0];
    var k := TrimEndIs(t);
    var n := |v| + |w|;
    assert t[n] == u;
    rest := t[|v|..k];
    assert t[..k] == v + rest && rest == w + [u] + t[n + 1..k];
    assert rest[0] == (w + [u])[0];
    VisibleStays(w, u, t[n + 1..k]);
  }

  lemma JunkAfterDoubleQuote(pieces: seq<Piece>, s: Text, w: Text, u: Unit, more: Text)
    requires AllMean(pieces, s) && AllWhite(w) && !White(u) && u != HASH
    ensures ScalarValue([QUOTE] + Spelling(pieces) + [QUOTE] + (w + [u] + more)) == Err(BadQuoting)
  {
    hide Spelling, AllMean, ClosingQuote, ParseString, SuffixOk;
    var body := Spelling(pieces);
    var v := [QUOTE] + body + [QUOTE];
    var c := JunkTrimmed(v, w, u, more);
    var t := v + c;
    QuotedParts(QUOTE, body, c);
    SpellingHidesQuotes(pieces, s, c);
    assert DoubleQuoted(t) == Err(BadQuoting);
  }

  // The apostrophe case needs the text right after the closing one to be no apostrophe, which would continue the value.
  lemma JunkAfterSingleQuote(s: Text, w: Text, u: Unit, more: Text)
    requires AllWhite(w) && !White(u) && u != HASH && (w == [] ==> u != APOSTROPHE)
    ensures ScalarValue([APOSTROPHE] + Doubled(s) + [APOSTROPHE] + (w + [u] + more)) == Err(BadQuoting)
  {
    hide Doubled, ClosingApostrophe, Unpaired, SuffixOk;
    var body := Doubled(s);
    var v := [APOSTROPHE] + body + [APOSTROPHE];
    var c := JunkTrimmed(v, w, u, more);
    var t := v + c;
    QuotedParts(APOSTROPHE, body, c);
    DoubledCloses(s, c);
    assert SingleQuoted(t) == Err(BadQuoting);
  }

  // A value whose quote is not closed.
  lemma UnclosedIsRefused(quote: Unit, body: Text)
    requires (quote == QUOTE || quote == APOSTROPHE) && quote !in body && (body != [] ==> !White(body[|body| - 1]))
    ensures ScalarValue([quote] + body) == Err(BadQuoting)
  {
    var t := [quote] + body;
    Untrimmed(t);
    assert t[1..] == body;
  }

  // A closed double-quoted value that is no JSON literal.
  lemma BadLiteralIsRefused(body: Text)
    requires QUOTE !in body && ClosingQuote(body + [QUOTE]) == |body| && ParseString([QUOTE] + body + [QUOTE]).None?
    ensures ScalarValue([QUOTE] + body + [QUOTE]) == Err(BadLiteral)
  {
    hide ClosingQuote, ParseString;
    var t := [QUOTE] + body + [QUOTE];
    Untrimmed(t);
    assert t[1..] == body + [QUOTE] && t[..|body| + 2] == t && t[|body| + 2..] == [];
  }
}
