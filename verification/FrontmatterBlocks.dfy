// Block scalars, nested mappings and whole documents: what each reads as, and where each ends.
module FrontmatterBlocks {
  import opened Wrappers
  import opened Text
  import opened Frontmatter
  import opened FrontmatterValues

  // --- Folding ---

  // A break that touches neither another break nor an end of the text.
  predicate LoneBreak(t: Text, i: nat) {
    0 < i < |t| - 1 && t[i] == LF && t[i - 1] != LF && t[i + 1] != LF
  }

  // The same text with its lone breaks turned into spaces.
  ghost predicate LoneBreaksFolded(t: Text, f: Text) {
    |f| == |t| && forall i :: 0 <= i < |t| ==> f[i] == if LoneBreak(t, i) then SPACE else t[i]
  }

  ghost predicate NoBreaks(lines: seq<Text>) { forall i :: 0 <= i < |lines| ==> LF !in lines[i] }

  // Folding lines is joining them, with lone breaks as spaces.
  lemma {:induction false} FoldingIs(lines: seq<Text>)
    requires NoBreaks(lines)
    ensures LoneBreaksFolded(Join(lines), Folded(lines))
  {
    if |lines| > 1 {
      FoldingIs(lines[1..]);
      JoinStart(lines[1..]);
      FoldOne(lines[0], Join(lines[1..]), Folded(lines[1..]), lines[1] != []);
    }
  }

  lemma JoinStart(lines: seq<Text>)
    requires lines != [] && NoBreaks(lines)
    ensures lines[0] != [] <==> Join(lines) != [] && Join(lines)[0] != LF
  {
  }

  lemma FoldOne(line: Text, t: Text, f: Text, full: bool)
    requires LF !in line && LoneBreaksFolded(t, f) && (full <==> t != [] && t[0] != LF)
    ensures LoneBreaksFolded(line + [LF] + t, line + [if line != [] && full then SPACE else LF] + f)
  {
    var n := |line|;
    var t', f' := line + [LF] + t, line + [if line != [] && full then SPACE else LF] + f;
    forall i | 0 <= i < |t'| ensures f'[i] == if LoneBreak(t', i) then SPACE else t'[i] {
      if i < n {
        assert t'[i] == line[i];
      } else if i == n {
        if n > 0 { assert t'[n - 1] == line[n - 1]; }
        if t != [] { assert t'[n + 1] == t[0]; }
      } else {
        var j := i - n - 1;
        assert t'[i] == t[j] && f'[i] == f[j];
        if j > 0 { assert t'[i - 1] == t[j - 1]; } else { assert t'[i - 1] == LF; }
        if j < |t| - 1 { assert t'[i + 1] == t[j + 1]; }
      }
    }
  }

  // --- Chomping ---

  // `v` is `t` without the breaks at its end.
  ghost predicate Stripped(t: Text, v: Text) {
    v <= t && (v != [] ==> v[|v| - 1] != LF) && forall i :: |v| <= i < |t| ==> t[i] == LF
  }

  lemma {:induction false} DropBreaksStrips(t: Text)
    ensures Stripped(t, DropBreaks(t))
  {
    if t != [] && t[|t| - 1] == LF {
      DropBreaksStrips(t[..|t| - 1]);
      assert forall i :: 0 <= i < |t| - 1 ==> t[..|t| - 1][i] == t[i];
    }
  }

  datatype Chomp = Keep | Strip | Clip

  function HeaderOf(folded: bool, chomp: Chomp): Text {
    [if folded then 62 else 124] + match chomp case Keep => [43] case Strip => [45] case Clip => []
  }

  // What a block of lines stands for: its lines joined, or folded, without the margin they share; then all the breaks
  // at the end are kept, or none, or one.
  ghost predicate BlockStandsFor(lines: seq<Text>, n: nat, folded: bool, chomp: Chomp, v: Text) {
    if lines == [] then v == []
    else
      exists body, bare ::
        && (if folded then LoneBreaksFolded(Join(Flush(lines, n)), body) else body == Join(Flush(lines, n)))
        && Stripped(body, bare)
        && v == match chomp case Keep => body + [LF] case Strip => bare case Clip => bare + [LF]
  }

  lemma BlockValueIs(lines: seq<Text>, n: nat, folded: bool, chomp: Chomp) returns (v: Text)
    requires NoBreaks(lines) && forall line :: line in lines ==> TAB !in line
    ensures BlockValue(Indent(lines, n), HeaderOf(folded, chomp)) == Ok(v) && BlockStandsFor(lines, n, folded, chomp, v)
  {
    var header := HeaderOf(folded, chomp);
    BlockContent(lines, n, header);
    var flush := Flush(lines, n);
    var body := if folded then Folded(flush) else Join(flush);
    FlushHasNoBreaks(lines, n);
    FoldingIs(flush);
    HeaderParts(folded, chomp);
    v := Chomped(if lines == [] then [] else body + [LF], header);
    var bare := DropBreaks(body);
    DropBreaksStrips(body);
    BreakDropped(body);
    hide Indentation, Join, Outdented, Folded, Flush, DropBreaks, Indent, LoneBreaksFolded, Stripped, BlockValue, HeaderOf;
    if lines != [] {
      assert (if folded then LoneBreaksFolded(Join(flush), body) else body == Join(flush)) && Stripped(body, bare);
    }
  }

  lemma HeaderParts(folded: bool, chomp: Chomp)
    ensures var h := HeaderOf(folded, chomp);
            && h != [] && (h[0] == 62 <==> folded)
            && (h[1..] == [45] <==> chomp.Strip?) && (h[1..] == [43] <==> chomp.Keep?)
  {
  }

  lemma BreakDropped(t: Text)
    ensures DropBreaks(t + [LF]) == DropBreaks(t)
  {
    assert (t + [LF])[..|t|] == t;
  }

  lemma FlushHasNoBreaks(lines: seq<Text>, n: nat)
    requires NoBreaks(lines)
    ensures NoBreaks(Flush(lines, n))
  {
    forall i | 0 <= i < |Flush(lines, n)| ensures LF !in Flush(lines, n)[i] {
      if Indentation(lines).None? {
        assert Flush(lines, n)[i] == Margin(n) + lines[i];
        assert LF !in Margin(n);
      }
    }
  }

  lemma BlockContent(lines: seq<Text>, n: nat, header: Text)
    requires header != [] && forall line :: line in lines ==> TAB !in line
    ensures var content := Flush(lines, n);
            var text := if header[0] == 62 then Folded(content) else Join(content);
            BlockValue(Indent(lines, n), header) == Ok(Chomped(if lines == [] then [] else text + [LF], header))
  {
    hide Indentation, Join, Outdented, Folded, Chomped;
    var block := Indent(lines, n);
    IndentationOfIndented(lines, n);
    forall line | line in block ensures TAB !in line {
      var i :| 0 <= i < |block| && block[i] == line;
      assert lines[i] in lines;
    }
    if Indentation(lines).Some? { OutdentedIndent(lines, n, Indentation(lines).value); } else { WholeLines(block); }
  }

  // A tab anywhere in a block is refused.
  lemma TabIsRefused(lines: seq<Text>, n: nat, folded: bool, chomp: Chomp, k: nat)
    requires k < |lines| && TAB in lines[k]
    ensures BlockValue(Indent(lines, n), HeaderOf(folded, chomp)) == Err(TabInBlock)
  {
    var block := Indent(lines, n);
    assert block[k] == Margin(n) + lines[k] && TAB in block[k] && block[k] in block;
  }

  lemma HeaderIsRead(folded: bool, chomp: Chomp, trailer: Text)
    requires Trailer(trailer)
    ensures BlockHeader(HeaderOf(folded, chomp) + trailer) == Some(HeaderOf(folded, chomp))
  {
    var h := HeaderOf(folded, chomp);
    var c := TrailerTrimmed(h, trailer);
    var t := h + c;
    if c != [] { CommentStarts(c); }
    assert t[..|h|] == h && t[|h|..] == c && t[0] == h[0];
  }

  // A block reads as what its lines stand for, and ends at the next entry.
  lemma BlockIsRead(key: Text, gap: Text, folded: bool, chomp: Chomp, trailer: Text, lines: seq<Text>, n: nat, rest: seq<Text>, values: Values)
      returns (v: Text)
    requires ValidKey(key) && key !in values && AllBlank(gap) && Trailer(trailer) && n > 0
    requires NoBreaks(lines) && forall line :: line in lines ==> TAB !in line
    requires rest != [] ==> !IsBlank(rest[0]) && !StartsBlank(rest[0])
    ensures Entries([key + [COLON] + gap + (HeaderOf(folded, chomp) + trailer)] + (Indent(lines, n) + rest), values)
         == Entries(rest, values[key := Some(v)])
    ensures BlockStandsFor(lines, n, folded, chomp, v)
  {
    v := BlockValueIs(lines, n, folded, chomp);
    var header := HeaderOf(folded, chomp);
    var raw := header + trailer;
    EntryIsOneLine(header, trailer);
    assert raw[0] == header[0];
    hide Indent, IsBlank, StartsBlank, HeaderOf, Entries, OneLine, EntryValue, BlockValue, BlockStandsFor;
    var below := Indent(lines, n) + rest;
    var line := key + [COLON] + gap + raw;
    ReadBlock(line, folded, chomp, trailer, lines, n, rest, v);
    EntryIsRead(key, gap, raw, below, values);
    assert ([line] + below)[|lines| + 1..] == rest;
  }

  lemma ReadBlock(line: Text, folded: bool, chomp: Chomp, trailer: Text, lines: seq<Text>, n: nat, rest: seq<Text>, v: Text)
    requires Trailer(trailer) && n > 0 && (rest != [] ==> !IsBlank(rest[0]) && !StartsBlank(rest[0]))
    requires BlockValue(Indent(lines, n), HeaderOf(folded, chomp)) == Ok(v)
    ensures EntryValue([line] + (Indent(lines, n) + rest), HeaderOf(folded, chomp) + trailer) == (Ok(Some(v)), |lines| + 1)
  {
    HeaderIsRead(folded, chomp, trailer);
    BlockEnds(lines, n, rest);
    hide Indent, BlockLength, IsBlank, StartsBlank, BlockValue, BlockHeader, HeaderOf;
    var block := Indent(lines, n);
    var all := [line] + (block + rest);
    assert all[1..] == block + rest;
    assert all[1..|lines| + 1] == block;
  }

  lemma BlockWithTabIsRefused(key: Text, gap: Text, folded: bool, chomp: Chomp, lines: seq<Text>, n: nat, k: nat, rest: seq<Text>, values: Values)
    requires ValidKey(key) && key !in values && AllBlank(gap) && n > 0 && k < |lines| && TAB in lines[k]
    requires rest != [] ==> !IsBlank(rest[0]) && !StartsBlank(rest[0])
    ensures Entries([key + [COLON] + gap + HeaderOf(folded, chomp)] + (Indent(lines, n) + rest), values) == Err(TabInBlock)
  {
    var header := HeaderOf(folded, chomp);
    TabbedValue(key + [COLON] + gap + header, folded, chomp, lines, n, k, rest);
    assert OneLine(header) && !StartsBlank(header);
    hide Indent, IsBlank, StartsBlank, HeaderOf, Entries, OneLine, EntryValue;
    EntryIsRead(key, gap, header, Indent(lines, n) + rest, values);
  }

  lemma TabbedValue(line: Text, folded: bool, chomp: Chomp, lines: seq<Text>, n: nat, k: nat, rest: seq<Text>)
    requires n > 0 && k < |lines| && TAB in lines[k] && (rest != [] ==> !IsBlank(rest[0]) && !StartsBlank(rest[0]))
    ensures EntryValue([line] + (Indent(lines, n) + rest), HeaderOf(folded, chomp)).0 == Err(TabInBlock)
  {
    var header, block := HeaderOf(folded, chomp), Indent(lines, n);
    TabIsRefused(lines, n, folded, chomp, k);
    HeaderIsRead(folded, chomp, []);
    assert header + [] == header;
    BlockEnds(lines, n, rest);
    hide Indent, BlockLength, IsBlank, StartsBlank, BlockValue, BlockHeader, HeaderOf;
    var all := [line] + (block + rest);
    assert all[1..] == block + rest;
    assert all[1..|lines| + 1] == block;
  }

  // Reading an entry is reading its value, and then the lines after it.
  lemma EntryIsRead(key: Text, gap: Text, raw: Text, below: seq<Text>, values: Values)
    requires ValidKey(key) && key !in values && AllBlank(gap) && !StartsBlank(raw) && OneLine(raw)
    ensures var all := [key + [COLON] + gap + raw] + below;
            var (value, n) := EntryValue(all, raw);
            Entries(all, values) == if value.Err? then Err(value.error) else Entries(all[n..], values[key := value.value])
  {
    hide Ignored, Mapping, StartsBlank, OneLine, EntryValue;
    EntryLineIsMapping(key, gap, raw);
  }

  // --- Nested mappings ---

  lemma {:induction false} BlanksAreCounted(blanks: seq<Text>, rest: seq<Text>)
    requires (forall i :: 0 <= i < |blanks| ==> IsBlank(blanks[i])) && (rest != [] ==> !IsBlank(rest[0]))
    ensures BlankLength(blanks + rest) == |blanks|
  {
    hide IsBlank;
    if blanks == [] {
      assert blanks + rest == rest;
    } else {
      BlanksAreCounted(blanks[1..], rest);
      assert (blanks + rest)[1..] == blanks[1..] + rest;
    }
  }

  lemma {:induction false} IndentedAreCounted(nested: seq<Text>, rest: seq<Text>)
    requires (forall i :: 0 <= i < |nested| ==> StartsBlank(nested[i])) && (rest != [] ==> !StartsBlank(rest[0]))
    ensures IndentedLength(nested + rest) == |nested|
  {
    hide StartsBlank;
    if nested == [] {
      assert nested + rest == rest;
    } else {
      IndentedAreCounted(nested[1..], rest);
      assert (nested + rest)[1..] == nested[1..] + rest;
    }
  }

  // Blank lines, indented lines, and whatever follows them.
  ghost predicate Below(blanks: seq<Text>, nested: seq<Text>, rest: seq<Text>) {
    && (forall i :: 0 <= i < |blanks| ==> IsBlank(blanks[i]))
    && (forall i :: 0 <= i < |nested| ==> StartsBlank(nested[i]))
    && (nested + rest != [] ==> !IsBlank((nested + rest)[0]))
    && (rest != [] ==> !StartsBlank(rest[0]))
  }

  // A key with nothing after its colon has no value, and the blank lines and then the indented lines below it are skipped.
  lemma NestedIsSkipped(key: Text, gap: Text, blanks: seq<Text>, nested: seq<Text>, rest: seq<Text>, values: Values)
    requires ValidKey(key) && key !in values && AllBlank(gap)
    requires Below(blanks, nested, rest)
    ensures Entries([key + [COLON] + gap] + (blanks + (nested + rest)), values) == Entries(rest, values[key := None])
  {
    hide Below, IsBlank, Entries, EntryValue, ValidKey, AllBlank;
    NothingIsBlank();
    hide StartsBlank;
    var line, below := key + [COLON] + gap, blanks + (nested + rest);
    assert line + [] == line;
    NestedValue(line, blanks, nested, rest);
    EntryIsRead(key, gap, [], below, values);
    RestAfter(line, blanks, nested, rest);
  }

  lemma RestAfter(line: Text, blanks: seq<Text>, nested: seq<Text>, rest: seq<Text>)
    ensures ([line] + (blanks + (nested + rest)))[|blanks| + |nested| + 1..] == rest
  {
  }

  lemma NestedValue(line: Text, blanks: seq<Text>, nested: seq<Text>, rest: seq<Text>)
    requires Below(blanks, nested, rest)
    ensures EntryValue([line] + (blanks + (nested + rest)), []) == (Ok(None), |blanks| + |nested| + 1)
  {
    NothingIsBlank();
    hide IsBlank, StartsBlank, BlockHeader, BlankLength, IndentedLength;
    BlanksAreCounted(blanks, nested + rest);
    IndentedAreCounted(nested, rest);
    var below := blanks + (nested + rest);
    assert below[|blanks|..] == nested + rest && ([line] + below)[1..] == below;
  }

  lemma NothingIsBlank()
    ensures IsBlank([]) && BlockHeader([]).None? && !StartsBlank([])
  {
  }

  // --- Whole documents ---

  lemma OpensExactly(text: Text)
    ensures Opens(text) <==> [45, 45, 45, 10] <= text || [45, 45, 45, 13, 10] <= text
  {
    var i := IndexOf(text, LF);
    if Opens(text) {
      assert text[..i + 1] == text[..i] + [LF];
    }
    if [45, 45, 45, 10] <= text {
      assert text[3] == LF && text[0] == 45 && text[1] == 45 && text[2] == 45;
      assert i == 3 && text[..3] == DASHES;
    }
    if [45, 45, 45, 13, 10] <= text {
      assert text[4] == LF && text[0] == 45 && text[1] == 45 && text[2] == 45 && text[3] == 13;
      assert i == 4 && text[..4] == DASHES + [CR];
    }
  }

  // What is checked before the entries are read, in order; `closing` is the first line below the top that is just dashes.
  lemma DocumentIsRead(text: Text, closing: nat)
    requires [45, 45, 45, 10] <= text || [45, 45, 45, 13, 10] <= text
    requires var lines := Split(Normalized(text));
             && 1 <= closing <= |lines| && (closing < |lines| ==> lines[closing] == [45, 45, 45])
             && forall j :: 1 <= j < closing ==> lines[j] != [45, 45, 45]
    ensures var lines := Split(Normalized(text));
            && (|lines| > 4096 ==> Parsed(text) == Err(TooManyLines))
            && (|lines| <= 4096 && closing == |lines| ==> Parsed(text) == Err(NoClosing))
            && (|lines| <= 4096 && closing < |lines| ==>
                  if |Utf8(Join(lines[..closing + 1]))| > 65536 then Parsed(text) == Err(TooManyBytes)
                  else match Entries(lines[1..closing], map[])
                    case Err(fault) => Parsed(text) == Err(fault)
                    case Ok(values) =>
                      var name, description := Ascii("name"), Ascii("description");
                      && Parsed(text).Ok?
                      && Parsed(text).value.name == (if name in values then values[name] else None)
                      && Parsed(text).value.description == if description in values then values[description] else None)
  {
    hide Normalized, Split, Entries, Utf8, Join, Opens;
    OpensExactly(text);
    var c := ClosingLine(Split(Normalized(text)), 1);
    assert c == closing;
  }

  lemma UnopenedIsRefused(text: Text)
    requires !([45, 45, 45, 10] <= text) && !([45, 45, 45, 13, 10] <= text)
    ensures Parsed(text) == Err(NoOpening)
  {
    hide Opens;
    OpensExactly(text);
  }

  // A carriage return alone is a line end too.
  lemma {:induction false} ReturnsAreBreaks(t: Text)
    requires CR !in t
    ensures Normalized(seq(|t|, i requires 0 <= i < |t| => if t[i] == LF then CR else t[i])) == t
  {
    var r := seq(|t|, i requires 0 <= i < |t| => if t[i] == LF then CR else t[i]);
    if t != [] {
      ReturnsAreBreaks(t[1..]);
      assert r[1..] == seq(|t[1..]|, i requires 0 <= i < |t[1..]| => if t[1..][i] == LF then CR else t[1..][i]);
    }
  }
}
