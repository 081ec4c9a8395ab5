// The frontmatter that `skillDocument` prints and `parseSkillFrontmatter` reads.
module Frontmatter {
  import opened Wrappers
  import opened Text
  import opened JsonText

  datatype Fault =
    | NoOpening | TooManyLines | NoClosing | TooManyBytes
    | Indented | NotAMapping | DuplicateKey | TabInBlock | BadQuoting | BadLiteral

  datatype Fields = Fields(name: Option<Text>, description: Option<Text>)

  type Values = map<Text, Option<Text>>

  const MaxLines := 4096
  const MaxBytes := 65536
  const COLON: Unit := 58
  const DASHES: Text := [45, 45, 45]
  const NAME: Text := Ascii("name")
  const DESCRIPTION: Text := Ascii("description")

  // --- The printer ---

  function FieldLine(key: Text, value: Text): Text { key + [COLON, SPACE] + Quoted(value) }

  function HeaderLines(name: Text, summary: Text): seq<Text> {
    [DASHES, FieldLine(NAME, name), FieldLine(DESCRIPTION, summary), DASHES]
  }

  function BodyLines(): seq<Text> {
    [[], Ascii("# Skill instructions"), [], Ascii("Add the instructions for this skill here."), []]
  }

  function SkillDocument(name: Text, summary: Text): Text { Join(HeaderLines(name, summary) + BodyLines()) }

  // --- What the parser computes ---

  // CRLF, then CR, become LF.
  function Normalized(t: Text): Text
    decreases |t|
  {
    if t == [] then []
    else if t[0] == CR then [LF] + Normalized(if |t| > 1 && t[1] == LF then t[2..] else t[1..])
    else [t[0]] + Normalized(t[1..])
  }

  predicate Opens(t: Text) {
    var i := IndexOf(t, LF);
    i < |t| && (t[..i] == DASHES || t[..i] == DASHES + [CR])
  }

  // The first delimiter line from `i` on, or the number of lines.
  function ClosingLine(lines: seq<Text>, i: nat): (c: nat)
    requires i <= |lines|
    ensures i <= c <= |lines| && (c < |lines| ==> lines[c] == DASHES) && forall j :: i <= j < c ==> lines[j] != DASHES
    decreases |lines| - i
  {
    if i == |lines| || lines[i] == DASHES then i else ClosingLine(lines, i + 1)
  }

  predicate StartsBlank(line: Text) { line != [] && Blank(line[0]) }

  predicate Ignored(line: Text) { IsBlank(line) || StartsWith(TrimStart(line), HASH) }

  predicate Letter(u: Unit) { 65 <= u <= 90 || 97 <= u <= 122 || u == 95 }

  predicate KeyUnit(u: Unit) { Letter(u) || 48 <= u <= 57 || u == 45 }

  function KeyLength(line: Text): (n: nat)
    ensures n <= |line| && (forall i :: 0 <= i < n ==> KeyUnit(line[i])) && (n < |line| ==> !KeyUnit(line[n]))
  {
    if line == [] || !KeyUnit(line[0]) then 0
    else
      assert forall i :: 0 < i < |line| ==> line[i] == line[1..][i - 1];
      1 + KeyLength(line[1..])
  }

  function DropBlanks(t: Text): Text { if StartsBlank(t) then DropBlanks(t[1..]) else t }

  // A key, a colon and the rest of a one-line value.
  function Mapping(line: Text): Option<(Text, Text)> {
    var n := KeyLength(line);
    if n == 0 || !Letter(line[0]) || n == |line| || line[n] != COLON then None
    else
      var rest := DropBlanks(line[n + 1..]);
      if OneLine(rest) then Some((line[..n], rest)) else None
  }

  // Blanks, then a number sign, then the rest of the line.
  predicate StartsComment(t: Text) { StartsBlank(t) && StartsWith(DropBlanks(t), HASH) && OneLine(DropBlanks(t)) }

  function BlockHeader(raw: Text): (header: Option<Text>)
    ensures header.Some? ==> header.value != []
  {
    var t := Trim(raw);
    if t == [] || (t[0] != 62 && t[0] != 124) then None
    else
      var n := if |t| > 1 && (t[1] == 43 || t[1] == 45) then 2 else 1;
      if t[n..] == [] || StartsComment(t[n..]) then Some(t[..n]) else None
  }

  // How many lines belong to a block scalar: blank ones and indented ones.
  function BlockLength(lines: seq<Text>): (n: nat)
    ensures n <= |lines|
  {
    if lines == [] || (!IsBlank(lines[0]) && !StartsBlank(lines[0])) then 0 else 1 + BlockLength(lines[1..])
  }

  function BlankLength(lines: seq<Text>): (n: nat)
    ensures n <= |lines|
  {
    if lines == [] || !IsBlank(lines[0]) then 0 else 1 + BlankLength(lines[1..])
  }

  function IndentedLength(lines: seq<Text>): (n: nat)
    ensures n <= |lines|
  {
    if lines == [] || !StartsBlank(lines[0]) then 0 else 1 + IndentedLength(lines[1..])
  }

  // How many lines a nested value takes: blank ones, then indented ones.
  function NestedLength(lines: seq<Text>): (n: nat)
    ensures n <= |lines|
  {
    var blank := BlankLength(lines);
    blank + IndentedLength(lines[blank..])
  }

  function Spaces(line: Text): (n: nat)
    ensures n <= |line|
  {
    if line == [] || line[0] != SPACE then 0 else 1 + Spaces(line[1..])
  }

  // The least number of leading spaces of a line that is not blank.
  function Indentation(lines: seq<Text>): Option<nat> {
    if lines == [] then None
    else
      var rest := Indentation(lines[1..]);
      if IsBlank(lines[0]) then rest
      else if rest.None? || Spaces(lines[0]) < rest.value then Some(Spaces(lines[0]))
      else rest
  }

  function Outdented(lines: seq<Text>, indent: nat): seq<Text> {
    seq(|lines|, i requires 0 <= i < |lines| => lines[i][(if indent < |lines[i]| then indent else |lines[i]|)..])
  }

  // A single break between two full lines becomes a space.
  function Folded(lines: seq<Text>): Text {
    if |lines| == 0 then []
    else if |lines| == 1 then lines[0]
    else lines[0] + [if lines[0] != [] && lines[1] != [] then SPACE else LF] + Folded(lines[1..])
  }

  function DropBreaks(t: Text): Text {
    if t != [] && t[|t| - 1] == LF then DropBreaks(t[..|t| - 1]) else t
  }

  function Chomped(t: Text, header: Text): Text
    requires header != []
  {
    if header[1..] == [45] then DropBreaks(t)
    else if header[1..] == [43] then t
    else DropBreaks(t) + if t == [] then [] else [LF]
  }

  function BlockValue(lines: seq<Text>, header: Text): Result<Text, Fault>
    requires header != []
  {
    if exists line :: line in lines && TAB in line then Err(TabInBlock)
    else
      var indent := match Indentation(lines) case Some(n) => n case None => 0;
      var content := Outdented(lines, indent);
      var text := if header[0] == 62 then Folded(content) else Join(content);
      Ok(Chomped(if lines == [] then [] else text + [LF], header))
  }

  // The place of the first apostrophe that is not one of a pair, or the length.
  function ClosingApostrophe(t: Text): (i: nat)
    ensures i <= |t| && (i < |t| ==> t[i] == APOSTROPHE)
    decreases |t|
  {
    if t == [] then 0
    else if t[0] != APOSTROPHE then 1 + ClosingApostrophe(t[1..])
    else if |t| > 1 && t[1] == APOSTROPHE then 2 + ClosingApostrophe(t[2..])
    else 0
  }

  function Unpaired(t: Text): Text
    decreases |t|
  {
    if t == [] then []
    else if |t| > 1 && t[0] == APOSTROPHE && t[1] == APOSTROPHE then [APOSTROPHE] + Unpaired(t[2..])
    else [t[0]] + Unpaired(t[1..])
  }

  // What may follow a closing quote.
  predicate SuffixOk(t: Text) { Trim(t) == [] || StartsWith(Trim(t), HASH) }

  function WithoutComment(t: Text): Text {
    if t == [] || StartsComment(t) then [] else [t[0]] + WithoutComment(t[1..])
  }

  function DoubleQuoted(t: Text): Result<Text, Fault>
    requires t != []
  {
    var i := ClosingQuote(t[1..]);
    if i == |t| - 1 || !SuffixOk(t[i + 2..]) then Err(BadQuoting)
    else match ParseString(t[..i + 2])
      case Some(s) => Ok(s)
      case None => Err(BadLiteral)
  }

  function SingleQuoted(t: Text): Result<Text, Fault>
    requires t != []
  {
    var i := ClosingApostrophe(t[1..]);
    if i == |t| - 1 || !SuffixOk(t[i + 2..]) then Err(BadQuoting) else Ok(Unpaired(t[1..i + 1]))
  }

  function Present(r: Result<Text, Fault>): Result<Option<Text>, Fault> {
    match r case Ok(s) => Ok(Some(s)) case Err(fault) => Err(fault)
  }

  function ScalarValue(raw: Text): Result<Option<Text>, Fault> {
    var t := Trim(raw);
    if t == [] then Ok(None)
    else if t[0] == QUOTE then Present(DoubleQuoted(t))
    else if t[0] == APOSTROPHE then Present(SingleQuoted(t))
    else
      var plain := Trim(WithoutComment(t));
      Ok(if plain == [] then None else Some(plain))
  }

  // The value of the first line's key, and how many lines it takes.
  function EntryValue(lines: seq<Text>, raw: Text): (r: (Result<Option<Text>, Fault>, nat))
    requires lines != []
    ensures 1 <= r.1 <= |lines|
  {
    if BlockHeader(raw).Some? then
      var n := BlockLength(lines[1..]) + 1;
      (Present(BlockValue(lines[1..n], BlockHeader(raw).value)), n)
    else if IsBlank(raw) then (Ok(None), NestedLength(lines[1..]) + 1)
    else (ScalarValue(raw), 1)
  }

  // The values that the lines between the delimiters add to those already read.
  function Entries(lines: seq<Text>, values: Values): Result<Values, Fault>
    decreases |lines|
  {
    if lines == [] then Ok(values)
    else if Ignored(lines[0]) then Entries(lines[1..], values)
    else if StartsBlank(lines[0]) then Err(Indented)
    else match Mapping(lines[0])
      case None => Err(NotAMapping)
      case Some((key, raw)) =>
        var (value, n) := EntryValue(lines, raw);
        if key in values then Err(DuplicateKey)
        else match value
          case Err(fault) => Err(fault)
          case Ok(v) => Entries(lines[n..], values[key := v])
  }

  function Lookup(values: Values, key: Text): Option<Text> { if key in values then values[key] else None }

  function Parsed(text: Text): Result<Fields, Fault> {
    var lines := Split(Normalized(text));
    var closing := ClosingLine(lines, 1);
    if !Opens(text) then Err(NoOpening)
    else if |lines| > MaxLines then Err(TooManyLines)
    else if closing == |lines| then Err(NoClosing)
    else if |Utf8(Join(lines[..closing + 1]))| > MaxBytes then Err(TooManyBytes)
    else match Entries(lines[1..closing], map[])
      case Err(fault) => Err(fault)
      case Ok(values) => Ok(Fields(Lookup(values, NAME), Lookup(values, DESCRIPTION)))
  }

  // --- The parser ---

  method ParseSkillFrontmatter(text: Text) returns (r: Result<Fields, Fault>)
    ensures r == Parsed(text)
  {
    var first := IndexOf(text, LF);
    if first == |text| || (text[..first] != DASHES && text[..first] != DASHES + [CR]) { return Err(NoOpening); }
    var lines := Split(Normalized(text));
    if |lines| > MaxLines { return Err(TooManyLines); }
    var closing := 1;
    while closing < |lines| && lines[closing] != DASHES
      invariant 1 <= closing <= |lines| && ClosingLine(lines, 1) == ClosingLine(lines, closing)
    {
      closing := closing + 1;
    }
    if closing == |lines| { return Err(NoClosing); }
    if |Utf8(Join(lines[..closing + 1]))| > MaxBytes { return Err(TooManyBytes); }
    var values := ReadEntries(lines, closing);
    if values.Err? { return Err(values.error); }
    r := Ok(Fields(Lookup(values.value, NAME), Lookup(values.value, DESCRIPTION)));
  }

  method ReadEntries(lines: seq<Text>, closing: nat) returns (r: Result<Values, Fault>)
    requires 1 <= closing <= |lines|
    ensures r == Entries(lines[1..closing], map[])
  {
    hide Ignored, Mapping, EntryValue;
    var values: Values := map[];
    var index := 1;
    while index < closing
      invariant 1 <= index <= closing
      invariant Entries(lines[1..closing], map[]) == Entries(lines[index..closing], values)
    {
      var line := lines[index];
      ghost var rest := lines[index..closing];
      assert rest[0] == line && rest[1..] == lines[index + 1..closing];
      if Ignored(line) {
        index := index + 1;
        continue;
      }
      if StartsBlank(line) { return Err(Indented); }
      if Mapping(line).None? { return Err(NotAMapping); }
      var (key, raw) := Mapping(line).value;
      if key in values { return Err(DuplicateKey); }
      var value, next := ReadValue(lines, index, closing, raw);
      if value.Err? { return Err(value.error); }
      SliceOfSlice(lines, index, closing, next - index, |rest|);
      values, index := values[key := value.value], next;
    }
    assert lines[index..closing] == [];
    r := Ok(values);
  }

  lemma SliceOfSlice<T>(s: seq<T>, a: nat, b: nat, i: nat, j: nat)
    requires a <= b <= |s| && i <= j <= b - a
    ensures s[a..b][i..j] == s[a + i..a + j]
  {
    var one, two := s[a..b][i..j], s[a + i..a + j];
    assert |one| == |two|;
    forall k | 0 <= k < |one| ensures one[k] == two[k] {
      assert one[k] == s[a..b][i + k] == s[a + i + k];
    }
  }

  method ReadValue(lines: seq<Text>, index: nat, closing: nat, raw: Text) returns (r: Result<Option<Text>, Fault>, next: nat)
    requires index < closing <= |lines|
    ensures index < next <= closing && (r, next - index) == EntryValue(lines[index..closing], raw)
  {
    hide BlockHeader, BlockLength, BlockValue, NestedLength, ScalarValue, IsBlank;
    ghost var rest := lines[index..closing];
    assert rest[1..] == lines[index + 1..closing];
    var header := BlockHeader(raw);
    if header.Some? {
      var block;
      block, next := ParseFrontmatterBlock(lines, index + 1, closing, header.value);
      SliceOfSlice(lines, index, closing, 1, next - index);
      assert rest[1..next - index] == lines[index + 1..next];
      r := if block.Err? then Err(block.error) else Ok(Some(block.value));
    } else if IsBlank(raw) {
      next := SkipNested(lines, index + 1, closing);
      r := Ok(None);
    } else {
      r := ParseYamlScalar(raw);
      next := index + 1;
    }
  }

  method SkipNested(lines: seq<Text>, start: nat, closing: nat) returns (index: nat)
    requires start <= closing <= |lines|
    ensures index == start + NestedLength(lines[start..closing])
  {
    hide IsBlank, BlankLength, IndentedLength;
    var indented := SkipBlank(lines, start, closing);
    SliceOfSlice(lines, start, closing, indented - start, closing - start);
    assert |lines[start..closing]| == closing - start;
    index := SkipIndented(lines, indented, closing);
  }

  method SkipBlank(lines: seq<Text>, start: nat, closing: nat) returns (index: nat)
    requires start <= closing <= |lines|
    ensures index == start + BlankLength(lines[start..closing])
  {
    hide IsBlank;
    index := start;
    while index < closing && IsBlank(lines[index])
      invariant start <= index <= closing
      invariant BlankLength(lines[start..closing]) == index - start + BlankLength(lines[index..closing])
    {
      NextLine(lines, index, closing);
      index := index + 1;
    }
  }

  method SkipIndented(lines: seq<Text>, start: nat, closing: nat) returns (index: nat)
    requires start <= closing <= |lines|
    ensures index == start + IndentedLength(lines[start..closing])
  {
    hide StartsBlank;
    index := start;
    while index < closing && StartsBlank(lines[index])
      invariant start <= index <= closing
      invariant IndentedLength(lines[start..closing]) == index - start + IndentedLength(lines[index..closing])
    {
      NextLine(lines, index, closing);
      index := index + 1;
    }
  }

  lemma NextLine<T>(s: seq<T>, i: nat, j: nat)
    requires i < j <= |s|
    ensures s[i..j][0] == s[i] && s[i..j][1..] == s[i + 1..j]
  {
  }

  method ParseFrontmatterBlock(lines: seq<Text>, start: nat, closing: nat, header: Text)
      returns (value: Result<Text, Fault>, next: nat)
    requires start <= closing <= |lines| && header != []
    ensures next <= closing && next == start + BlockLength(lines[start..closing])
    ensures value == BlockValue(lines[start..next], header)
  {
    var blockLines: seq<Text> := [];
    next := start;
    while next < closing && (IsBlank(lines[next]) || StartsBlank(lines[next]))
      invariant start <= next <= closing && blockLines == lines[start..next]
      invariant BlockLength(lines[start..closing]) == next - start + BlockLength(lines[next..closing])
    {
      assert lines[next..closing][1..] == lines[next + 1..closing];
      blockLines := blockLines + [lines[next]];
      next := next + 1;
    }
    if exists line :: line in blockLines && TAB in line { return Err(TabInBlock), next; }
    var indent := match Indentation(blockLines) case Some(n) => n case None => 0;
    var content := Outdented(blockLines, indent);
    var text;
    if header[0] == 62 { text := FoldYamlLines(content); } else { text := Join(content); }
    value := Ok(Chomped(if blockLines == [] then [] else text + [LF], header));
  }

  method FoldYamlLines(lines: seq<Text>) returns (value: Text)
    ensures value == Folded(lines)
  {
    hide Folded;
    value := [];
    NothingFolded(lines);
    assert [] + Folded(lines) == Folded(lines);
    for index := 0 to |lines|
      invariant value + Folded(lines[index..]) == Folded(lines)
    {
      ghost var before := value;
      FoldedFrom(lines, index);
      value := value + lines[index];
      if index < |lines| - 1 {
        value := value + [if lines[index] != [] && lines[index + 1] != [] then SPACE else LF];
      }
      assert value == before + FoldedLine(lines, index);
      RegroupThree(before, FoldedLine(lines, index), Folded(lines[index + 1..]));
    }
    assert value + [] == value;
  }

  // A line with the space or break that folding puts after it.
  function FoldedLine(lines: seq<Text>, i: nat): Text
    requires i < |lines|
  {
    lines[i] + if i < |lines| - 1 then [if lines[i] != [] && lines[i + 1] != [] then SPACE else LF] else []
  }

  lemma FoldedFrom(lines: seq<Text>, i: nat)
    requires i < |lines|
    ensures Folded(lines[i..]) == FoldedLine(lines, i) + Folded(lines[i + 1..])
  {
    var rest := lines[i..];
    assert rest[1..] == lines[i + 1..] && rest[0] == lines[i];
    if i < |lines| - 1 {
      assert rest[1] == lines[i + 1];
    } else {
      assert Folded(rest) == lines[i] && Folded(rest[1..]) == [];
      assert FoldedLine(lines, i) + [] == lines[i];
    }
  }

  lemma RegroupThree(a: Text, b: Text, c: Text)
    ensures a + b + c == a + (b + c)
  {
  }

  lemma NothingFolded(lines: seq<Text>)
    ensures lines[0..] == lines && Folded(lines[|lines|..]) == []
  {
  }

  method ParseYamlScalar(raw: Text) returns (r: Result<Option<Text>, Fault>)
    ensures r == ScalarValue(raw)
  {
    var value := Trim(raw);
    if value == [] { return Ok(None); }
    if value[0] == QUOTE {
      var s := ParseDoubleQuoted(value);
      return if s.Err? then Err(s.error) else Ok(Some(s.value));
    }
    if value[0] == APOSTROPHE {
      var s := ParseSingleQuoted(value);
      return if s.Err? then Err(s.error) else Ok(Some(s.value));
    }
    var plain := Trim(WithoutComment(value));
    r := Ok(if plain == [] then None else Some(plain));
  }

  method ParseDoubleQuoted(value: Text) returns (r: Result<Text, Fault>)
    requires value != []
    ensures r == DoubleQuoted(value)
  {
    hide SuffixOk, ParseString;
    var escaped := false;
    for index := 1 to |value|
      invariant escaped ==> index > 1 && value[index - 1] == BACKSLASH
      invariant var start := if escaped then index - 1 else index;
                ClosingQuote(value[1..]) == start - 1 + ClosingQuote(value[start..])
    {
      if escaped {
        escaped := false;
        assert value[index - 1..][2..] == value[index + 1..];
      } else if value[index] == BACKSLASH {
        escaped := true;
      } else if value[index] == QUOTE {
        if !SuffixOk(value[index + 1..]) { return Err(BadQuoting); }
        var parsed := ParseString(value[..index + 1]);
        return if parsed.None? then Err(BadLiteral) else Ok(parsed.value);
      } else {
        assert value[index..][1..] == value[index + 1..];
      }
    }
    r := Err(BadQuoting);
  }

  method ParseSingleQuoted(value: Text) returns (r: Result<Text, Fault>)
    requires value != []
    ensures r == SingleQuoted(value)
  {
    hide SuffixOk, Unpaired;
    var index := 1;
    while index < |value|
      invariant 1 <= index <= |value|
      invariant ClosingApostrophe(value[1..]) == index - 1 + ClosingApostrophe(value[index..])
    {
      if value[index] != APOSTROPHE {
        assert value[index..][1..] == value[index + 1..];
        index := index + 1;
      } else if index + 1 < |value| && value[index + 1] == APOSTROPHE {
        assert value[index..][2..] == value[index + 2..];
        index := index + 2;
      } else {
        if !SuffixOk(value[index + 1..]) { return Err(BadQuoting); }
        return Ok(Unpaired(value[1..index]));
      }
    }
    r := Err(BadQuoting);
  }

  // --- Reading back what was printed ---

  predicate ValidKey(key: Text) { key != [] && Letter(key[0]) && forall i :: 0 <= i < |key| ==> KeyUnit(key[i]) }

  lemma {:induction false} KeyEndsAt(key: Text, rest: Text)
    requires forall i :: 0 <= i < |key| ==> KeyUnit(key[i])
    requires rest != [] && !KeyUnit(rest[0])
    ensures KeyLength(key + rest) == |key|
  {
    if key == [] {
      assert key + rest == rest;
    } else {
      KeyEndsAt(key[1..], rest);
      assert (key + rest)[1..] == key[1..] + rest;
    }
  }

  // A line that begins and ends with a visible unit is not trimmed.
  lemma Untrimmed(t: Text)
    requires t != [] && !White(t[0]) && !White(t[|t| - 1])
    ensures TrimStart(t) == t && Trim(t) == t
  {
  }

  lemma FieldLineIsMapping(key: Text, value: Text)
    requires ValidKey(key)
    ensures var line := FieldLine(key, value);
            !Ignored(line) && !StartsBlank(line)
            && Mapping(line) == if OneLine(Quoted(value)) then Some((key, Quoted(value))) else None
  {
    hide KeyLength, DropBlanks, OneLine, Escaped;
    var line := FieldLine(key, value);
    assert line[0] == key[0] && line[|line| - 1] == QUOTE;
    Untrimmed(line);
    KeyEndsAt(key, [COLON, SPACE] + Quoted(value));
    hide Quoted, Trim, TrimStart;
    assert line == key + ([COLON, SPACE] + Quoted(value));
    assert line[|key|] == COLON;
    assert line[..|key|] == key;
    assert line[|key| + 1..] == [SPACE] + Quoted(value);
    SpaceIsDropped(value);
  }

  lemma SpaceIsDropped(value: Text)
    ensures DropBlanks([SPACE] + Quoted(value)) == Quoted(value)
  {
    assert ([SPACE] + Quoted(value))[1..] == Quoted(value);
  }

  lemma QuotedScalar(value: Text)
    ensures ScalarValue(Quoted(value)) == Ok(Some(value))
    ensures BlockHeader(Quoted(value)).None? && !IsBlank(Quoted(value))
  {
    hide Escaped, ClosingQuote, ReadRest;
    var t := Quoted(value);
    Untrimmed(t);
    assert t[1..] == Escaped(value) + [QUOTE];
    EscapedHidesQuotes(value, []);
    assert t[1..] + [] == t[1..];
    assert t[..|Escaped(value)| + 2] == t && t[|Escaped(value)| + 2..] == [];
    QuotedReadsBack(value);
    assert DoubleQuoted(t) == Ok(value);
  }

  // A Unicode line or paragraph separator.
  predicate HasSeparator(t: Text) { 0x2028 in t || 0x2029 in t }

  lemma QuotedIsOneLine(value: Text)
    ensures OneLine(Quoted(value)) <==> !HasSeparator(value)
    ensures LF !in Quoted(value) && CR !in Quoted(value)
  {
    var e := Escaped(value);
    EscapedUnits(value, LF);
    EscapedUnits(value, CR);
    EscapedUnits(value, 0x2028);
    EscapedUnits(value, 0x2029);
    var t := Quoted(value);
    assert forall u :: u in t <==> u == QUOTE || u in e;
    assert OneLine(t) <==> forall u :: u in t ==> !LineTerminator(u);
  }

  lemma NamesDiffer()
    ensures ValidKey(NAME) && ValidKey(DESCRIPTION) && NAME != DESCRIPTION && LF !in NAME && LF !in DESCRIPTION
    ensures CR !in NAME && CR !in DESCRIPTION && NAME[0] != DASHES[0] && DESCRIPTION[0] != DASHES[0]
  {
    assert NAME[0] == 110 && DESCRIPTION[0] == 100;
  }

  // One printed line adds its field to what was read, unless the value holds a line separator.
  lemma FieldIsRead(key: Text, value: Text, rest: seq<Text>, values: Values)
    requires ValidKey(key) && key !in values
    ensures Entries([FieldLine(key, value)] + rest, values)
         == if OneLine(Quoted(value)) then Entries(rest, values[key := Some(value)]) else Err(NotAMapping)
  {
    hide Ignored, Mapping, ScalarValue, BlockHeader, Quoted;
    var lines := [FieldLine(key, value)] + rest;
    FieldLineIsMapping(key, value);
    QuotedScalar(value);
    assert lines[0] == FieldLine(key, value) && lines[1..] == rest;
    assert EntryValue(lines, Quoted(value)) == (Ok(Some(value)), 1);
  }

  lemma FieldsAreRead(name: Text, summary: Text)
    ensures var r := Entries([FieldLine(NAME, name), FieldLine(DESCRIPTION, summary)], map[]);
            if OneLine(Quoted(name)) && OneLine(Quoted(summary)) then
              r == Ok(map[NAME := Some(name), DESCRIPTION := Some(summary)])
            else r == Err(NotAMapping)
  {
    hide Entries, FieldLine;
    NamesDiffer();
    FieldIsRead(NAME, name, [FieldLine(DESCRIPTION, summary)], map[]);
    FieldIsRead(DESCRIPTION, summary, [], map[NAME := Some(name)]);
    assert [FieldLine(DESCRIPTION, summary)] + [] == [FieldLine(DESCRIPTION, summary)];
    assert [FieldLine(NAME, name)] + [FieldLine(DESCRIPTION, summary)] == [FieldLine(NAME, name), FieldLine(DESCRIPTION, summary)];
    NothingLeft(map[NAME := Some(name)][DESCRIPTION := Some(summary)]);
  }

  lemma NothingLeft(values: Values)
    ensures Entries([], values) == Ok(values)
  {
  }

  lemma {:induction false} WithoutReturns(t: Text)
    requires CR !in t
    ensures Normalized(t) == t
  {
    if t != [] { WithoutReturns(t[1..]); }
  }

  lemma {:induction false} JoinHasNoReturn(lines: seq<Text>)
    requires forall line :: line in lines ==> CR !in line
    ensures CR !in Join(lines)
  {
    if |lines| > 1 { JoinHasNoReturn(lines[1..]); }
  }

  lemma PrintedLines(name: Text, summary: Text)
    ensures var lines := HeaderLines(name, summary) + BodyLines();
            forall i :: 0 <= i < |lines| ==> LF !in lines[i] && CR !in lines[i]
  {
    hide Quoted;
    NamesDiffer();
    QuotedIsOneLine(name);
    QuotedIsOneLine(summary);
    BodyLinesArePlain();
    assert forall u :: u in FieldLine(NAME, name) ==> u in NAME || u == COLON || u == SPACE || u in Quoted(name);
    assert forall u :: u in FieldLine(DESCRIPTION, summary) ==> u in DESCRIPTION || u == COLON || u == SPACE || u in Quoted(summary);
  }

  lemma BodyLinesArePlain()
    ensures forall i :: 0 <= i < |BodyLines()| ==> LF !in BodyLines()[i] && CR !in BodyLines()[i]
  {
  }

  lemma PrintedShape(name: Text, summary: Text)
    ensures var doc := SkillDocument(name, summary);
            && Opens(doc)
            && Split(Normalized(doc)) == HeaderLines(name, summary) + BodyLines()
            && ClosingLine(Split(Normalized(doc)), 1) == 3
  {
    hide FieldLine, BodyLines, Normalized, Split;
    var lines := HeaderLines(name, summary) + BodyLines();
    var doc := SkillDocument(name, summary);
    PrintedLines(name, summary);
    JoinHasNoReturn(lines);
    WithoutReturns(doc);
    SplitUndoesJoin(lines);
    IndexOfFirst(DASHES, LF, Join(lines[1..]));
    assert lines[0] == DASHES && doc[..3] == DASHES;
    FieldIsNoDelimiter(NAME, name);
    FieldIsNoDelimiter(DESCRIPTION, summary);
    assert lines[1] == FieldLine(NAME, name) && lines[2] == FieldLine(DESCRIPTION, summary) && lines[3] == DASHES;
    assert ClosingLine(lines, 3) == 3 && ClosingLine(lines, 2) == 3;
  }

  lemma FieldIsNoDelimiter(key: Text, value: Text)
    requires key != [] && key[0] != DASHES[0]
    ensures FieldLine(key, value) != DASHES
  {
    assert FieldLine(key, value)[0] == key[0];
  }

  // The printed document reads back as exactly its name and summary, if and only if neither holds a Unicode line
  // or paragraph separator and the header fits; otherwise the parser reports an error.
  lemma DocumentReadsBack(name: Text, summary: Text)
    ensures var fits := |Utf8(Join(HeaderLines(name, summary)))| <= MaxBytes;
            var plain := !HasSeparator(name) && !HasSeparator(summary);
            && (Parsed(SkillDocument(name, summary)) == Ok(Fields(Some(name), Some(summary))) <==> fits && plain)
            && (Parsed(SkillDocument(name, summary)).Err? <==> !fits || !plain)
  {
    hide FieldLine, BodyLines, Normalized, Split, SkillDocument, Entries, Utf8, Opens, Join, Quoted;
    var lines := HeaderLines(name, summary) + BodyLines();
    PrintedShape(name, summary);
    FieldsAreRead(name, summary);
    QuotedIsOneLine(name);
    QuotedIsOneLine(summary);
    NamesDiffer();
    BodyIsShort();
    assert lines[..4] == HeaderLines(name, summary);
    assert lines[1..3] == [FieldLine(NAME, name), FieldLine(DESCRIPTION, summary)];
  }

  lemma BodyIsShort()
    ensures |BodyLines()| == 5
  {
  }

  // --- Single-quoted values ---

  // Every apostrophe written twice.
  function Doubled(t: Text): Text {
    if t == [] then [] else (if t[0] == APOSTROPHE then [APOSTROPHE, APOSTROPHE] else [t[0]]) + Doubled(t[1..])
  }

  lemma {:induction false} DoubledReadsBack(t: Text)
    ensures Unpaired(Doubled(t)) == t && ClosingApostrophe(Doubled(t) + [APOSTROPHE]) == |Doubled(t)|
  {
    if t != [] {
      var rest := Doubled(t[1..]);
      DoubledReadsBack(t[1..]);
      if t[0] == APOSTROPHE {
        PairReads(rest);
        assert Doubled(t) + [APOSTROPHE] == [APOSTROPHE, APOSTROPHE] + (rest + [APOSTROPHE]);
        PairReads(rest + [APOSTROPHE]);
      } else {
        UnitReads(t[0], rest);
        assert Doubled(t) + [APOSTROPHE] == [t[0]] + (rest + [APOSTROPHE]);
        UnitReads(t[0], rest + [APOSTROPHE]);
      }
      assert t == [t[0]] + t[1..];
    } else {
      assert Doubled(t) + [APOSTROPHE] == [APOSTROPHE];
    }
  }

  lemma PairReads(rest: Text)
    ensures Unpaired([APOSTROPHE, APOSTROPHE] + rest) == [APOSTROPHE] + Unpaired(rest)
    ensures ClosingApostrophe([APOSTROPHE, APOSTROPHE] + rest) == 2 + ClosingApostrophe(rest)
  {
    assert ([APOSTROPHE, APOSTROPHE] + rest)[2..] == rest;
  }

  lemma UnitReads(u: Unit, rest: Text)
    requires u != APOSTROPHE
    ensures Unpaired([u] + rest) == [u] + Unpaired(rest) && ClosingApostrophe([u] + rest) == 1 + ClosingApostrophe(rest)
  {
    assert ([u] + rest)[1..] == rest;
  }

  // A single-quoted value stands for the text between the quotes, apostrophes doubled.
  lemma SingleQuotedReadsBack(t: Text)
    ensures ScalarValue([APOSTROPHE] + Doubled(t) + [APOSTROPHE]) == Ok(Some(t))
  {
    hide Doubled, ClosingApostrophe, Unpaired;
    var d := Doubled(t);
    var v := [APOSTROPHE] + d + [APOSTROPHE];
    DoubledReadsBack(t);
    Untrimmed(v);
    assert v[1..] == d + [APOSTROPHE] && v[1..|d| + 1] == d && v[|d| + 2..] == [];
    assert SingleQuoted(v) == Ok(t);
  }

  // --- Literal blocks ---

  function Margin(n: nat): Text { seq(n, _ => SPACE) }

  function Indent(lines: seq<Text>, n: nat): (r: seq<Text>)
    ensures |r| == |lines| && forall i :: 0 <= i < |r| ==> r[i] == Margin(n) + lines[i]
  {
    seq(|lines|, i requires 0 <= i < |lines| => Margin(n) + lines[i])
  }

  // The lines without the leading spaces that all but the blank ones share; blank lines keep what is left of them.
  function Flush(lines: seq<Text>, n: nat): seq<Text> {
    match Indentation(lines)
    case Some(m) => Outdented(lines, m)
    case None => Indent(lines, n)
  }

  lemma {:induction false} MarginIsBlank(n: nat, line: Text)
    ensures TrimStart(Margin(n) + line) == TrimStart(line) && Spaces(Margin(n) + line) == n + Spaces(line)
  {
    if n > 0 {
      MarginIsBlank(n - 1, line);
      assert (Margin(n) + line)[1..] == Margin(n - 1) + line;
    } else {
      assert Margin(0) + line == line;
    }
  }

  lemma {:induction false} IndentationOfIndented(lines: seq<Text>, n: nat)
    ensures Indentation(Indent(lines, n)) == match Indentation(lines) case Some(m) => Some(n + m) case None => None
  {
    hide TrimStart, TrimEnd, Spaces;
    if lines != [] {
      IndentationOfIndented(lines[1..], n);
      MarginIsBlank(n, lines[0]);
      assert Indent(lines, n)[1..] == Indent(lines[1..], n);
    }
  }

  lemma OutdentedIndent(lines: seq<Text>, n: nat, m: nat)
    ensures Outdented(Indent(lines, n), n + m) == Outdented(lines, m)
  {
    var block := Indent(lines, n);
    forall i | 0 <= i < |lines| ensures Outdented(block, n + m)[i] == Outdented(lines, m)[i] {
      assert block[i] == Margin(n) + lines[i] && |Margin(n)| == n;
      assert forall k :: 0 <= k <= |lines[i]| ==> (Margin(n) + lines[i])[n + k..] == lines[i][k..];
    }
  }

  // Lines of which one is neither blank nor indented have no margin of their own.
  lemma {:induction false} FlushLines(lines: seq<Text>, n: nat, k: nat)
    requires k < |lines| && !IsBlank(lines[k]) && !StartsWith(lines[k], SPACE)
    ensures Indentation(lines) == Some(0) && Flush(lines, n) == lines
  {
    LeastIndentation(lines, k);
    assert Outdented(lines, 0) == lines;
  }

  lemma {:induction false} LeastIndentation(lines: seq<Text>, k: nat)
    requires k < |lines| && !IsBlank(lines[k]) && !StartsWith(lines[k], SPACE)
    ensures Indentation(lines) == Some(0)
  {
    hide IsBlank;
    if k > 0 { LeastIndentation(lines[1..], k - 1); }
  }

  lemma {:induction false} BlockEnds(lines: seq<Text>, n: nat, rest: seq<Text>)
    requires n > 0 && (rest != [] ==> !IsBlank(rest[0]) && !StartsBlank(rest[0]))
    ensures BlockLength(Indent(lines, n) + rest) == |lines|
  {
    hide IsBlank;
    if lines != [] {
      BlockEnds(lines[1..], n, rest);
      var all := Indent(lines, n) + rest;
      assert all[0] == Margin(n) + lines[0] && all[0][0] == SPACE;
      assert all[1..] == Indent(lines[1..], n) + rest;
    } else {
      assert Indent(lines, n) + rest == rest;
    }
  }

  lemma IndentedBlockValue(lines: seq<Text>, n: nat)
    requires forall line :: line in lines ==> TAB !in line
    ensures BlockValue(Indent(lines, n), [124, 43]) == Ok(if lines == [] then [] else Join(Flush(lines, n)) + [LF])
  {
    hide Indentation, Join, Outdented;
    var block := Indent(lines, n);
    IndentationOfIndented(lines, n);
    forall line | line in block ensures TAB !in line {
      var i :| 0 <= i < |block| && block[i] == line;
      assert lines[i] in lines;
    }
    if Indentation(lines).Some? { OutdentedIndent(lines, n, Indentation(lines).value); } else { WholeLines(block); }
  }

  lemma WholeLines(lines: seq<Text>)
    ensures Outdented(lines, 0) == lines
  {
  }

  // A kept literal block stands for its lines without their common margin, and ends at the next entry.
  lemma LiteralBlockReadsBack(key: Text, lines: seq<Text>, n: nat, rest: seq<Text>, values: Values)
    requires ValidKey(key) && key !in values && n > 0
    requires forall line :: line in lines ==> TAB !in line
    requires rest != [] ==> !IsBlank(rest[0]) && !StartsBlank(rest[0])
    ensures Entries([key + [COLON, SPACE, 124, 43]] + (Indent(lines, n) + rest), values)
         == Entries(rest, values[key := Some(if lines == [] then [] else Join(Flush(lines, n)) + [LF])])
  {
    hide Ignored, Mapping, Flush, Join, Indent, BlockLength, IsBlank, StartsBlank, BlockValue, BlockHeader;
    var block := Indent(lines, n);
    var text: Text := if lines == [] then [] else Join(Flush(lines, n)) + [LF];
    var all := [key + [COLON, SPACE, 124, 43]] + (block + rest);
    BlockLineIsMapping(key);
    BlockHeaderIsKept();
    BlockEnds(lines, n, rest);
    IndentedBlockValue(lines, n);
    assert all[1..] == block + rest;
    assert all[1..|lines| + 1] == block && all[|lines| + 1..] == rest;
    assert EntryValue(all, [124, 43]) == (Ok(Some(text)), |lines| + 1);
  }

  lemma BlockHeaderIsKept()
    ensures BlockHeader([124, 43]) == Some([124, 43])
  {
    Untrimmed([124, 43]);
    assert [124, 43][2..] == [] && [124, 43][..2] == [124, 43];
  }

  lemma BlockLineIsMapping(key: Text)
    requires ValidKey(key)
    ensures var line := key + [COLON, SPACE, 124, 43];
            !Ignored(line) && !StartsBlank(line) && Mapping(line) == Some((key, [124, 43]))
  {
    hide KeyLength, DropBlanks;
    var line := key + [COLON, SPACE, 124, 43];
    assert line[0] == key[0] && line[|line| - 1] == 43;
    Untrimmed(line);
    KeyEndsAt(key, [COLON, SPACE, 124, 43]);
    hide Trim, TrimStart;
    assert line[|key|] == COLON && line[..|key|] == key;
    assert line[|key| + 1..] == [SPACE, 124, 43];
    assert DropBlanks([SPACE, 124, 43]) == [124, 43] by { DropsOneBlank(); }
  }

  lemma DropsOneBlank()
    ensures DropBlanks([SPACE, 124, 43]) == [124, 43]
  {
    assert [SPACE, 124, 43][1..] == [124, 43];
  }

  // --- Line endings ---

  // Every LF written as CRLF.
  function WithReturns(t: Text): Text {
    if t == [] then [] else (if t[0] == LF then [CR, LF] else [t[0]]) + WithReturns(t[1..])
  }

  lemma {:induction false} ReturnsAreNormalized(t: Text)
    requires CR !in t
    ensures Normalized(WithReturns(t)) == t
  {
    if t != [] {
      var rest := WithReturns(t[1..]);
      ReturnsAreNormalized(t[1..]);
      if t[0] == LF {
        assert ([CR, LF] + rest)[2..] == rest;
      } else {
        assert ([t[0]] + rest)[1..] == rest;
      }
    }
  }

  lemma {:induction false} FirstLineWithReturns(line: Text, rest: Text)
    requires LF !in line
    ensures WithReturns(line + [LF] + rest) == line + [CR] + [LF] + WithReturns(rest)
  {
    var t := line + [LF] + rest;
    if line == [] {
      assert t[1..] == rest;
      assert [CR, LF] + WithReturns(rest) == line + [CR] + [LF] + WithReturns(rest);
    } else {
      FirstLineWithReturns(line[1..], rest);
      assert t[0] == line[0] && t[1..] == line[1..] + [LF] + rest;
      assert line == [line[0]] + line[1..];
    }
  }

  lemma {:induction false} OneLineWithReturns(line: Text)
    requires LF !in line
    ensures WithReturns(line) == line
  {
    if line != [] {
      OneLineWithReturns(line[1..]);
      assert line == [line[0]] + line[1..];
    }
  }

  lemma OpeningWithReturns(text: Text)
    requires CR !in text
    ensures Opens(WithReturns(text)) <==> Opens(text)
  {
    hide WithReturns;
    var i, w := IndexOf(text, LF), WithReturns(text);
    var line := text[..i];
    if i < |text| {
      var rest := text[i + 1..];
      assert text == line + [LF] + rest;
      FirstLineWithReturns(line, rest);
      IndexOfFirst(line + [CR], LF, WithReturns(rest));
      assert w[..i + 1] == line + [CR] && (line + [CR])[i] == CR;
      assert (line + [CR])[..i] == line && (DASHES + [CR])[..3] == DASHES;
      assert line + [CR] == DASHES + [CR] ==> line == DASHES;
    } else {
      assert line == text;
      OneLineWithReturns(text);
    }
  }

  // A document means the same with Windows line endings.
  lemma LineEndingsDoNotMatter(text: Text)
    requires CR !in text
    ensures Parsed(WithReturns(text)) == Parsed(text)
  {
    hide Opens, WithReturns, Normalized, Split, ClosingLine, Entries, Utf8, Join;
    ReturnsAreNormalized(text);
    WithoutReturns(text);
    OpeningWithReturns(text);
  }
}
