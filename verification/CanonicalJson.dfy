// The canonical text of a JSON value: no spaces, object keys in code-unit order.
module CanonicalJson {
  import opened Text
  import opened JsonText

  // A number stands for the text JSON.stringify gives it.
  datatype Json =
    | Null
    | Bool(value: bool)
    | Number(digits: Text)
    | Str(text: Text)
    | Arr(items: seq<Json>)
    | Obj(members: seq<Member>)   // in the order of the object's own keys

  datatype Member = Member(key: Text, value: Json)

  const COMMA: Unit := 44
  const COLON: Unit := 58
  const OPEN_BRACKET: Unit := 91
  const CLOSE_BRACKET: Unit := 93
  const OPEN_BRACE: Unit := 123
  const CLOSE_BRACE: Unit := 125

  predicate NumberUnit(u: Unit) { 48 <= u <= 57 || u == 43 || u == 45 || u == 46 || u == 69 || u == 101 }

  // An object has each key once; a number's text is made of digits, signs, a point and an exponent mark.
  ghost predicate Valid(v: Json) {
    match v
    case Null | Bool(_) | Str(_) => true
    case Number(digits) =>
      digits != [] && (digits[0] == 45 || 48 <= digits[0] <= 57) && forall i :: 0 <= i < |digits| ==> NumberUnit(digits[i])
    case Arr(items) => forall i :: 0 <= i < |items| ==> Valid(items[i])
    case Obj(members) =>
      && (forall i :: 0 <= i < |members| ==> Valid(members[i].value))
      && (forall i, j :: 0 <= i < j < |members| ==> members[i].key != members[j].key)
  }

  // Equal up to the order of object keys.
  ghost predicate Equivalent(a: Json, b: Json) {
    match a
    case Null => b.Null?
    case Bool(_) => a == b
    case Number(_) => a == b
    case Str(_) => a == b
    case Arr(items) => b.Arr? && |b.items| == |items| && forall i :: 0 <= i < |items| ==> Equivalent(items[i], b.items[i])
    case Obj(members) =>
      && b.Obj? && Keys(members) == Keys(b.members)
      && forall i, j :: 0 <= i < |members| && 0 <= j < |b.members| && members[i].key == b.members[j].key ==>
           Equivalent(members[i].value, b.members[j].value)
  }

  ghost function Keys(members: seq<Member>): set<Text> { set m | m in members :: m.key }

  // JavaScript's `<` on strings.
  predicate Before(s: Text, t: Text) {
    t != [] && (s == [] || s[0] < t[0] || (s[0] == t[0] && Before(s[1..], t[1..])))
  }

  // A key with the canonical text of its value.
  datatype Part = Part(key: Text, text: Text)

  function Insert(part: Part, parts: seq<Part>): seq<Part> {
    if parts == [] || Before(part.key, parts[0].key) then [part] + parts else [parts[0]] + Insert(part, parts[1..])
  }

  function Sorted(parts: seq<Part>): seq<Part> {
    if parts == [] then [] else Insert(parts[0], Sorted(parts[1..]))
  }

  function Commas(texts: seq<Text>): Text {
    if |texts| == 0 then [] else if |texts| == 1 then texts[0] else texts[0] + [COMMA] + Commas(texts[1..])
  }

  function PartText(part: Part): Text { Quoted(part.key) + [COLON] + part.text }

  function PartTexts(parts: seq<Part>): seq<Text> { seq(|parts|, i requires 0 <= i < |parts| => PartText(parts[i])) }

  function Texts(items: seq<Json>): (texts: seq<Text>)
    ensures |texts| == |items| && forall i :: 0 <= i < |items| ==> texts[i] == Canonical(items[i])
  {
    seq(|items|, i requires 0 <= i < |items| => Canonical(items[i]))
  }

  function Parts(members: seq<Member>): (parts: seq<Part>)
    ensures |parts| == |members|
    ensures forall i :: 0 <= i < |members| ==> parts[i] == Part(members[i].key, Canonical(members[i].value))
  {
    seq(|members|, i requires 0 <= i < |members| => Part(members[i].key, Canonical(members[i].value)))
  }

  function Canonical(v: Json): Text {
    match v
    case Null => Ascii("null")
    case Bool(b) => Ascii(if b then "true" else "false")
    case Number(digits) => digits
    case Str(text) => Quoted(text)
    case Arr(items) => [OPEN_BRACKET] + Commas(Texts(items)) + [CLOSE_BRACKET]
    case Obj(members) => [OPEN_BRACE] + Commas(PartTexts(Sorted(Parts(members)))) + [CLOSE_BRACE]
  }

  // --- Sorting by key ---

  ghost predicate Ordered(parts: seq<Part>) {
    forall i, j :: 0 <= i < j < |parts| ==> Before(parts[i].key, parts[j].key)
  }

  ghost predicate DistinctKeys(parts: seq<Part>) {
    forall i, j :: 0 <= i < j < |parts| ==> parts[i].key != parts[j].key
  }

  lemma {:induction false} BeforeIsTransitive(s: Text, t: Text, u: Text)
    requires Before(s, t) && Before(t, u)
    ensures Before(s, u)
  {
    if s != [] && s[0] == t[0] == u[0] { BeforeIsTransitive(s[1..], t[1..], u[1..]); }
  }

  lemma {:induction false} BeforeIsTotal(s: Text, t: Text)
    ensures !(Before(s, t) && Before(t, s))
    ensures Before(s, t) || Before(t, s) || s == t
    ensures s == t ==> !Before(s, t)
  {
    if s != [] && t != [] && s[0] == t[0] {
      BeforeIsTotal(s[1..], t[1..]);
      assert s[1..] == t[1..] ==> s == t by { assert s == [s[0]] + s[1..] && t == [t[0]] + t[1..]; }
    }
  }

  lemma OrderedFrom(part: Part, rest: seq<Part>)
    requires Ordered(rest) && forall p :: p in rest ==> Before(part.key, p.key)
    ensures Ordered([part] + rest)
  {
  }

  lemma {:induction false} InsertKeepsOrder(part: Part, parts: seq<Part>)
    requires Ordered(parts) && forall p :: p in parts ==> p.key != part.key
    ensures Ordered(Insert(part, parts)) && |Insert(part, parts)| == |parts| + 1
    ensures forall p :: p in Insert(part, parts) <==> p == part || p in parts
  {
    if parts != [] && !Before(part.key, parts[0].key) {
      BeforeIsTotal(part.key, parts[0].key);
      assert parts == [parts[0]] + parts[1..];
      InsertKeepsOrder(part, parts[1..]);
      var rest := Insert(part, parts[1..]);
      assert forall i :: 0 <= i < |rest| ==> rest[i] in rest;
      OrderedFrom(parts[0], rest);
    } else if parts != [] {
      forall i | 0 < i < |parts| ensures Before(part.key, parts[i].key) {
        BeforeIsTransitive(part.key, parts[0].key, parts[i].key);
      }
      OrderedFrom(part, parts);
    }
  }

  lemma {:induction false} SortedIsOrdered(parts: seq<Part>)
    requires DistinctKeys(parts)
    ensures Ordered(Sorted(parts)) && |Sorted(parts)| == |parts|
    ensures forall p :: p in Sorted(parts) <==> p in parts
  {
    if parts != [] {
      SortedIsOrdered(parts[1..]);
      InsertKeepsOrder(parts[0], Sorted(parts[1..]));
      assert parts == [parts[0]] + parts[1..];
    }
  }

  // An ordered list is determined by its elements.
  lemma {:induction false} OrderedListsAgree(p: seq<Part>, q: seq<Part>)
    requires Ordered(p) && Ordered(q) && forall x :: x in p <==> x in q
    ensures p == q
  {
    assert (p != [] ==> p[0] in p) && (q != [] ==> q[0] in q);
    if p != [] && q != [] {
      HeadsAgree(p, q);
      forall x ensures x in p[1..] <==> x in q[1..] {
        TailElements(p, x);
        TailElements(q, x);
      }
      OrderedListsAgree(p[1..], q[1..]);
      assert p == [p[0]] + p[1..] && q == [q[0]] + q[1..];
    }
  }

  lemma TailElements(p: seq<Part>, x: Part)
    requires Ordered(p) && p != []
    ensures x in p[1..] <==> x in p && x != p[0]
  {
    BeforeIsTotal(x.key, x.key);
    assert p == [p[0]] + p[1..];
  }

  lemma HeadsAgree(p: seq<Part>, q: seq<Part>)
    requires p != [] && q != [] && Ordered(p) && Ordered(q) && forall x :: x in p <==> x in q
    ensures p[0] == q[0]
  {
    BeforeIsTotal(p[0].key, q[0].key);
    assert p[0] in q && q[0] in p;
  }

  lemma SortedAgree(p: seq<Part>, q: seq<Part>)
    requires DistinctKeys(p) && DistinctKeys(q)
    ensures Sorted(p) == Sorted(q) <==> forall x :: x in p <==> x in q
  {
    SortedIsOrdered(p);
    SortedIsOrdered(q);
    if forall x :: x in p <==> x in q { OrderedListsAgree(Sorted(p), Sorted(q)); }
  }

  // --- Telling where a value's text ends ---

  // What may follow a value: nothing, a comma or a closing bracket.
  predicate Ends(t: Text) { t == [] || t[0] == COMMA || t[0] == CLOSE_BRACKET || t[0] == CLOSE_BRACE }

  ghost predicate Separable(s: Text, t: Text) {
    forall x, y :: Ends(x) && Ends(y) && s + x == t + y ==> s == t
  }

  // A text that can be an item of a list.
  predicate ItemText(t: Text) { t != [] && !Ends(t) }

  // The text of a list after its first item.
  function AfterHead(p: seq<Text>, close: Unit, x: Text): Text
    requires p != []
  {
    if |p| == 1 then [close] + x else [COMMA] + (Commas(p[1..]) + [close] + x)
  }

  lemma Regroup(a: Text, b: Text, c: Text, d: Text, e: Text)
    ensures a + b + c + d + e == a + (b + (c + d + e))
  {
  }

  lemma SplitHead(p: seq<Text>, close: Unit, x: Text)
    requires p != []
    ensures Commas(p) + [close] + x == p[0] + AfterHead(p, close, x)
  {
    if |p| == 1 {
      assert p[0] + [close] + x == p[0] + ([close] + x);
    } else {
      var rest := Commas(p[1..]);
      assert Commas(p) == p[0] + [COMMA] + rest;
      hide Commas;
      Regroup(p[0], [COMMA], rest, [close], x);
    }
  }

  lemma FirstUnit(p: seq<Text>, close: Unit, x: Text)
    requires p != [] && ItemText(p[0])
    ensures !Ends(Commas(p) + [close] + x)
  {
    hide Commas;
    SplitHead(p, close, x);
    assert (p[0] + AfterHead(p, close, x))[0] == p[0][0];
  }

  lemma EmptySeparates(p: seq<Text>, q: seq<Text>, close: Unit, x: Text, y: Text)
    requires close == CLOSE_BRACKET || close == CLOSE_BRACE
    requires p == [] && (q != [] ==> ItemText(q[0]))
    requires Commas(p) + [close] + x == Commas(q) + [close] + y
    ensures q == [] && x == y
  {
    var s := [close] + x;
    assert Commas(p) + [close] + x == s;
    if q != [] { FirstUnit(q, close, y); }
    assert Commas(q) + [close] + y == [close] + y;
    assert s[1..] == x && ([close] + y)[1..] == y;
  }

  lemma HeadsSeparate(p: seq<Text>, q: seq<Text>, close: Unit, x: Text, y: Text)
    requires close == CLOSE_BRACKET || close == CLOSE_BRACE
    requires p != [] && q != [] && Separable(p[0], q[0])
    requires Commas(p) + [close] + x == Commas(q) + [close] + y
    ensures p[0] == q[0] && AfterHead(p, close, x) == AfterHead(q, close, y)
  {
    hide Commas;
    SplitHead(p, close, x);
    SplitHead(q, close, y);
    var s, t := AfterHead(p, close, x), AfterHead(q, close, y);
    assert Ends(s) && Ends(t) && p[0] + s == q[0] + t;
    assert s == (p[0] + s)[|p[0]|..] && t == (q[0] + t)[|q[0]|..];
  }

  lemma {:induction false} CommasSeparate(p: seq<Text>, q: seq<Text>, close: Unit, x: Text, y: Text)
    requires close == CLOSE_BRACKET || close == CLOSE_BRACE
    requires forall i :: 0 <= i < |p| ==> ItemText(p[i])
    requires forall j :: 0 <= j < |q| ==> ItemText(q[j])
    requires forall i, j :: 0 <= i < |p| && 0 <= j < |q| ==> Separable(p[i], q[j])
    requires Commas(p) + [close] + x == Commas(q) + [close] + y
    ensures p == q && x == y
  {
    hide Commas, Separable, ItemText;
    if p == [] {
      EmptySeparates(p, q, close, x, y);
    } else if q == [] {
      EmptySeparates(q, p, close, y, x);
    } else {
      HeadsSeparate(p, q, close, x, y);
      var s, t := AfterHead(p, close, x), AfterHead(q, close, y);
      assert s[0] == t[0] && s[1..] == t[1..];
      if |p| == 1 {
        assert s[1..] == x && t[1..] == y;
        assert p == [p[0]] && q == [q[0]];
      } else {
        assert s[1..] == Commas(p[1..]) + [close] + x && t[1..] == Commas(q[1..]) + [close] + y;
        CommasSeparate(p[1..], q[1..], close, x, y);
        assert p == [p[0]] + p[1..] && q == [q[0]] + q[1..];
      }
    }
  }

  function NumberLength(t: Text): nat {
    if t == [] || !NumberUnit(t[0]) then 0 else 1 + NumberLength(t[1..])
  }

  lemma {:induction false} NumberEnds(s: Text, x: Text)
    requires Ends(x) && forall i :: 0 <= i < |s| ==> NumberUnit(s[i])
    ensures NumberLength(s + x) == |s|
  {
    if s == [] {
      assert s + x == x;
    } else {
      NumberEnds(s[1..], x);
      assert (s + x)[1..] == s[1..] + x;
    }
  }

  lemma NumbersSeparate(s: Text, t: Text)
    requires forall i :: 0 <= i < |s| ==> NumberUnit(s[i])
    requires forall i :: 0 <= i < |t| ==> NumberUnit(t[i])
    ensures Separable(s, t)
  {
    forall x, y | Ends(x) && Ends(y) && s + x == t + y ensures s == t {
      NumberEnds(s, x);
      NumberEnds(t, y);
      assert s == (s + x)[..|s|] && t == (t + y)[..|t|];
    }
  }

  // A literal ends at its closing quote, whatever follows.
  lemma QuotedSeparate(s: Text, t: Text, x: Text, y: Text)
    requires Quoted(s) + x == Quoted(t) + y
    ensures s == t && x == y
  {
    var one, two := Escaped(s) + [QUOTE] + x, Escaped(t) + [QUOTE] + y;
    assert one == (Quoted(s) + x)[1..] == (Quoted(t) + y)[1..] == two;
    EscapedHidesQuotes(s, x);
    EscapedHidesQuotes(t, y);
    assert Quoted(s) == (Quoted(s) + x)[..|Quoted(s)|] == (Quoted(t) + y)[..|Quoted(t)|] == Quoted(t);
    assert x == (Quoted(s) + x)[|Quoted(s)|..] == (Quoted(t) + y)[|Quoted(t)|..] == y;
    QuotedReadsBack(s);
    QuotedReadsBack(t);
  }

  lemma PartsSeparate(p: Part, q: Part)
    requires Separable(p.text, q.text)
    ensures Separable(PartText(p), PartText(q)) && (PartText(p) == PartText(q) ==> p == q)
  {
    hide Quoted;
    forall x, y | Ends(x) && Ends(y) && PartText(p) + x == PartText(q) + y
      ensures p == q
    {
      assert PartText(p) + x == Quoted(p.key) + ([COLON] + p.text + x);
      assert PartText(q) + y == Quoted(q.key) + ([COLON] + q.text + y);
      QuotedSeparate(p.key, q.key, [COLON] + p.text + x, [COLON] + q.text + y);
      assert p.text + x == ([COLON] + p.text + x)[1..] == ([COLON] + q.text + y)[1..] == q.text + y;
    }
    assert Ends([]) && PartText(p) + [] == PartText(p) && PartText(q) + [] == PartText(q);
  }

  // --- The text of a value ---

  // The first unit of a value's text tells its kind.
  predicate FirstOfKind(v: Json, u: Unit) {
    match v
    case Null => u == 110
    case Bool(b) => u == if b then 116 else 102
    case Number(_) => u == 45 || 48 <= u <= 57
    case Str(_) => u == QUOTE
    case Arr(_) => u == OPEN_BRACKET
    case Obj(_) => u == OPEN_BRACE
  }

  lemma CanonicalStarts(v: Json)
    requires Valid(v)
    ensures Canonical(v) != [] && FirstOfKind(v, Canonical(v)[0]) && ItemText(Canonical(v))
  {
  }

  lemma PartStarts(p: Part)
    ensures ItemText(PartText(p))
  {
    assert PartText(p)[0] == QUOTE;
  }

  lemma ObjectParts(members: seq<Member>)
    requires Valid(Obj(members))
    ensures DistinctKeys(Parts(members))
    ensures forall p :: p in Sorted(Parts(members)) <==> p in Parts(members)
  {
    hide Valid;
    assert DistinctKeys(Parts(members)) by {
      assert forall i, j :: 0 <= i < j < |members| ==> members[i].key != members[j].key by { MembersDiffer(members); }
    }
    SortedIsOrdered(Parts(members));
  }

  lemma MembersDiffer(members: seq<Member>)
    requires Valid(Obj(members))
    ensures forall i, j :: 0 <= i < j < |members| ==> members[i].key != members[j].key
  {
  }

  // Two values' texts can be told apart by what they are, whatever value-ending text follows each.
  lemma {:induction false} CanonicalSeparates(a: Json, b: Json)
    requires Valid(a) && Valid(b)
    ensures Separable(Canonical(a), Canonical(b))
    decreases a
  {
    CanonicalStarts(a);
    CanonicalStarts(b);
    if a.Number? && b.Number? {
      NumbersSeparate(a.digits, b.digits);
    } else {
      forall x, y | Ends(x) && Ends(y) && Canonical(a) + x == Canonical(b) + y
        ensures Canonical(a) == Canonical(b)
      {
        assert (Canonical(a) + x)[0] == Canonical(a)[0] && (Canonical(b) + y)[0] == Canonical(b)[0];
        match a
        case Null =>
        case Bool(_) =>
        case Str(s) => QuotedSeparate(s, b.text, x, y);
        case Arr(items) => ArraysSeparate(items, b.items, x, y);
        case Obj(members) => ObjectsSeparate(members, b.members, x, y);
      }
    }
  }

  lemma {:induction false} ArraysSeparate(p: seq<Json>, q: seq<Json>, x: Text, y: Text)
    requires Valid(Arr(p)) && Valid(Arr(q))
    requires Canonical(Arr(p)) + x == Canonical(Arr(q)) + y
    ensures Texts(p) == Texts(q)
    decreases p, 0
  {
    forall i, j | 0 <= i < |p| && 0 <= j < |q|
      ensures Separable(Texts(p)[i], Texts(q)[j]) && ItemText(Texts(p)[i]) && ItemText(Texts(q)[j])
    {
      CanonicalSeparates(p[i], q[j]);
      CanonicalStarts(p[i]);
      CanonicalStarts(q[j]);
    }
    BracketsSeparate(OPEN_BRACKET, Texts(p), Texts(q), CLOSE_BRACKET, x, y);
  }

  // Every member of one object has its part told apart from every part of the other.
  lemma MembersSeparate(p: seq<Member>, q: seq<Member>, one: Part, two: Part)
    requires Valid(Obj(p)) && Valid(Obj(q)) && one in Parts(p) && two in Parts(q)
    ensures Separable(PartText(one), PartText(two)) && (PartText(one) == PartText(two) ==> one == two)
    decreases p, 0
  {
    var i :| 0 <= i < |p| && Parts(p)[i] == one;
    var j :| 0 <= j < |q| && Parts(q)[j] == two;
    CanonicalSeparates(p[i].value, q[j].value);
    PartsSeparate(one, two);
  }

  lemma {:induction false} ObjectsSeparate(p: seq<Member>, q: seq<Member>, x: Text, y: Text)
    requires Valid(Obj(p)) && Valid(Obj(q))
    requires Canonical(Obj(p)) + x == Canonical(Obj(q)) + y
    ensures Sorted(Parts(p)) == Sorted(Parts(q))
    decreases p, 1
  {
    hide Sorted, PartText, Separable, ItemText, Commas, Valid;
    var sp, sq := Sorted(Parts(p)), Sorted(Parts(q));
    ObjectParts(p);
    ObjectParts(q);
    forall i, j | 0 <= i < |sp| && 0 <= j < |sq|
      ensures Separable(PartTexts(sp)[i], PartTexts(sq)[j]) && (PartTexts(sp)[i] == PartTexts(sq)[j] ==> sp[i] == sq[j])
    {
      assert sp[i] in sp && sq[j] in sq;
      MembersSeparate(p, q, sp[i], sq[j]);
    }
    forall i | 0 <= i < |sp| ensures ItemText(PartTexts(sp)[i]) { PartStarts(sp[i]); }
    forall j | 0 <= j < |sq| ensures ItemText(PartTexts(sq)[j]) { PartStarts(sq[j]); }
    BracketsSeparate(OPEN_BRACE, PartTexts(sp), PartTexts(sq), CLOSE_BRACE, x, y);
    assert |PartTexts(sp)| == |sp| && |PartTexts(sq)| == |sq|;
    forall i | 0 <= i < |sp| ensures sp[i] == sq[i] {
      assert PartTexts(sp)[i] == PartTexts(sq)[i];
    }
  }

  lemma BracketsSeparate(start: Unit, p: seq<Text>, q: seq<Text>, close: Unit, x: Text, y: Text)
    requires close == CLOSE_BRACKET || close == CLOSE_BRACE
    requires forall i :: 0 <= i < |p| ==> ItemText(p[i])
    requires forall j :: 0 <= j < |q| ==> ItemText(q[j])
    requires forall i, j :: 0 <= i < |p| && 0 <= j < |q| ==> Separable(p[i], q[j])
    requires [start] + Commas(p) + [close] + x == [start] + Commas(q) + [close] + y
    ensures p == q
  {
    hide Commas, Separable, ItemText;
    WithoutFirst(start, Commas(p), close, x);
    WithoutFirst(start, Commas(q), close, y);
    CommasSeparate(p, q, close, x, y);
  }

  lemma WithoutFirst(start: Unit, t: Text, close: Unit, x: Text)
    ensures ([start] + t + [close] + x)[1..] == t + [close] + x
  {
  }

  lemma SameFirstUnit(a: Json, b: Json)
    requires Valid(a) && Valid(b) && Canonical(a) == Canonical(b)
    ensures FirstOfKind(a, Canonical(b)[0]) && FirstOfKind(b, Canonical(b)[0])
  {
    CanonicalStarts(a);
    CanonicalStarts(b);
  }

  lemma {:induction false} SameTextIsEquivalent(a: Json, b: Json)
    requires Valid(a) && Valid(b) && Canonical(a) == Canonical(b)
    ensures Equivalent(a, b)
    decreases a
  {
    SameFirstUnit(a, b);
    assert Canonical(a) + [] == Canonical(b) + [];
    match a
    case Null =>
    case Bool(_) =>
    case Number(_) =>
    case Str(s) => QuotedSeparate(s, b.text, [], []);
    case Arr(items) =>
      ArraysSeparate(items, b.items, [], []);
      assert |Texts(items)| == |Texts(b.items)|;
      forall i | 0 <= i < |items| ensures Equivalent(items[i], b.items[i]) {
        assert Texts(items)[i] == Texts(b.items)[i];
        SameTextIsEquivalent(items[i], b.items[i]);
      }
    case Obj(members) =>
      SameMembers(members, b.members);
  }

  // An object's parts are those of its members, so a part names its member.
  lemma PartOf(members: seq<Member>, x: Part) returns (i: nat)
    requires x in Parts(members)
    ensures i < |members| && x == Part(members[i].key, Canonical(members[i].value)) && members[i].key in Keys(members)
  {
    i :| 0 <= i < |members| && Parts(members)[i] == x;
    assert members[i] in members;
  }

  lemma MemberOf(members: seq<Member>, key: Text) returns (i: nat)
    requires key in Keys(members)
    ensures i < |members| && members[i].key == key && Part(key, Canonical(members[i].value)) in Parts(members)
  {
    i :| 0 <= i < |members| && members[i].key == key;
    assert Parts(members)[i] in Parts(members);
  }

  lemma SameKeys(p: seq<Member>, q: seq<Member>)
    requires forall x :: x in Parts(p) ==> x in Parts(q)
    ensures Keys(p) <= Keys(q)
  {
    forall key | key in Keys(p) ensures key in Keys(q) {
      var i := MemberOf(p, key);
      var j := PartOf(q, Part(key, Canonical(p[i].value)));
    }
  }

  lemma {:induction false} SameMembers(p: seq<Member>, q: seq<Member>)
    requires Valid(Obj(p)) && Valid(Obj(q)) && Canonical(Obj(p)) == Canonical(Obj(q))
    ensures Equivalent(Obj(p), Obj(q))
    decreases p, 0
  {
    assert Canonical(Obj(p)) + [] == Canonical(Obj(q)) + [];
    ObjectsSeparate(p, q, [], []);
    ObjectParts(p);
    ObjectParts(q);
    hide Sorted, Canonical;
    SameKeys(p, q);
    SameKeys(q, p);
    forall i, j | 0 <= i < |p| && 0 <= j < |q| && p[i].key == q[j].key
      ensures Equivalent(p[i].value, q[j].value)
    {
      assert Parts(p)[i] in Sorted(Parts(q));
      var k := PartOf(q, Parts(p)[i]);
      assert k == j;
      SameTextIsEquivalent(p[i].value, q[j].value);
    }
  }

  lemma {:induction false} EquivalentHasSameText(a: Json, b: Json)
    requires Valid(a) && Valid(b) && Equivalent(a, b)
    ensures Canonical(a) == Canonical(b)
    decreases a
  {
    match a
    case Arr(items) =>
      forall i | 0 <= i < |items| ensures Texts(items)[i] == Texts(b.items)[i] {
        EquivalentHasSameText(items[i], b.items[i]);
      }
      assert Texts(items) == Texts(b.items);
    case Obj(members) => EquivalentMembers(members, b.members);
    case _ =>
  }

  lemma {:induction false} EquivalentMembers(p: seq<Member>, q: seq<Member>)
    requires Valid(Obj(p)) && Valid(Obj(q)) && Equivalent(Obj(p), Obj(q))
    ensures Canonical(Obj(p)) == Canonical(Obj(q))
    decreases p, 0
  {
    ObjectParts(p);
    ObjectParts(q);
    forall x ensures x in Parts(p) <==> x in Parts(q) {
      if x in Parts(p) {
        var i := PartOf(p, x);
        var j := MemberOf(q, x.key);
        EquivalentHasSameText(p[i].value, q[j].value);
      }
      if x in Parts(q) {
        var j := PartOf(q, x);
        var i := MemberOf(p, x.key);
        EquivalentHasSameText(p[i].value, q[j].value);
      }
    }
    SortedAgree(Parts(p), Parts(q));
  }

  // Canonical texts agree exactly for values that are equal up to the order of object keys.
  lemma CanonicalDecides(a: Json, b: Json)
    requires Valid(a) && Valid(b)
    ensures Canonical(a) == Canonical(b) <==> Equivalent(a, b)
  {
    if Canonical(a) == Canonical(b) { SameTextIsEquivalent(a, b); }
    if Equivalent(a, b) { EquivalentHasSameText(a, b); }
  }

  lemma {:induction false} CommasAreWellFormed(texts: seq<Text>)
    requires forall i :: 0 <= i < |texts| ==> WellFormed(texts[i])
    ensures WellFormed(Commas(texts))
  {
    if |texts| > 1 {
      CommasAreWellFormed(texts[1..]);
      PlainIsWellFormed([COMMA]);
      WellFormedConcat(texts[0], [COMMA]);
      WellFormedConcat(texts[0] + [COMMA], Commas(texts[1..]));
    }
  }

  lemma Enclosed(start: Unit, t: Text, end: Unit)
    requires WellFormed(t) && !Lead(start) && !Trail(start) && !Lead(end) && !Trail(end)
    ensures WellFormed([start] + t + [end])
  {
    PlainIsWellFormed([start]);
    PlainIsWellFormed([end]);
    WellFormedConcat([start], t);
    WellFormedConcat([start] + t, [end]);
  }

  lemma QuotedIsWellFormed(s: Text)
    ensures WellFormed(Quoted(s))
  {
    EscapedIsWellFormed(s);
    Enclosed(QUOTE, Escaped(s), QUOTE);
  }

  lemma PartIsWellFormed(p: Part)
    requires WellFormed(p.text)
    ensures WellFormed(PartText(p))
  {
    QuotedIsWellFormed(p.key);
    PlainIsWellFormed([COLON]);
    WellFormedConcat(Quoted(p.key), [COLON]);
    WellFormedConcat(Quoted(p.key) + [COLON], p.text);
  }

  lemma {:induction false} CanonicalIsWellFormed(v: Json)
    requires Valid(v)
    ensures WellFormed(Canonical(v))
  {
    match v
    case Null => PlainIsWellFormed(Canonical(v));
    case Bool(_) => PlainIsWellFormed(Canonical(v));
    case Number(digits) => PlainIsWellFormed(digits);
    case Str(text) => QuotedIsWellFormed(text);
    case Arr(items) =>
      forall i | 0 <= i < |items| ensures WellFormed(Texts(items)[i]) { CanonicalIsWellFormed(items[i]); }
      CommasAreWellFormed(Texts(items));
      Enclosed(OPEN_BRACKET, Commas(Texts(items)), CLOSE_BRACKET);
    case Obj(members) =>
      var parts := Sorted(Parts(members));
      ObjectParts(members);
      forall i | 0 <= i < |parts| ensures WellFormed(PartTexts(parts)[i]) {
        assert parts[i] in parts;
        var k := PartOf(members, parts[i]);
        CanonicalIsWellFormed(members[k].value);
        PartIsWellFormed(parts[i]);
      }
      CommasAreWellFormed(PartTexts(parts));
      Enclosed(OPEN_BRACE, Commas(PartTexts(parts)), CLOSE_BRACE);
  }

  // So do the UTF-8 bytes that are hashed.
  lemma HashedBytesDecide(a: Json, b: Json)
    requires Valid(a) && Valid(b)
    ensures Utf8(Canonical(a)) == Utf8(Canonical(b)) <==> Equivalent(a, b)
  {
    CanonicalDecides(a, b);
    CanonicalIsWellFormed(a);
    CanonicalIsWellFormed(b);
    if Utf8(Canonical(a)) == Utf8(Canonical(b)) { Utf8IsInjective(Canonical(a), Canonical(b)); }
  }

  // --- Some values in full ---

  lemma KeywordTexts()
    ensures Canonical(Null) == [110, 117, 108, 108]
    ensures Canonical(Bool(true)) == [116, 114, 117, 101] && Canonical(Bool(false)) == [102, 97, 108, 115, 101]
  {
  }

  // An array of two values.
  lemma ArrayText(a: Json, b: Json)
    ensures Canonical(Arr([a, b])) == [91] + (Canonical(a) + [44] + Canonical(b)) + [93]
  {
    var items := [a, b];
    var texts := Texts(items);
    assert texts == [Canonical(a), Canonical(b)];
    TwoCommas(Canonical(a), Canonical(b));
    hide Texts, Commas;
    assert Canonical(Arr(items)) == [91] + Commas(texts) + [93];
  }

  lemma TwoCommas(a: Text, b: Text)
    ensures Commas([a, b]) == a + [44] + b
  {
    assert [a, b][1..] == [b];
    assert Commas([b]) == b;
  }

  // An object of two members, whichever comes first.
  lemma ObjectText(k: Text, a: Json, l: Text, b: Json)
    requires Before(k, l)
    ensures var text := [123] + ((Quoted(k) + [58] + Canonical(a)) + [44] + (Quoted(l) + [58] + Canonical(b))) + [125];
            Canonical(Obj([Member(k, a), Member(l, b)])) == text && Canonical(Obj([Member(l, b), Member(k, a)])) == text
  {
    var p, q := Part(k, Canonical(a)), Part(l, Canonical(b));
    BeforeIsTotal(k, l);
    TwoSorted(p, q);
    TwoSorted(q, p);
    TwoParts(p, q);
    hide Quoted;
    ObjectOf([Member(k, a), Member(l, b)], [p, q], [p, q]);
    ObjectOf([Member(l, b), Member(k, a)], [q, p], [p, q]);
  }

  lemma ObjectOf(members: seq<Member>, parts: seq<Part>, sorted: seq<Part>)
    requires Parts(members) == parts && Sorted(parts) == sorted
    ensures Canonical(Obj(members)) == [123] + Commas(PartTexts(sorted)) + [125]
  {
  }

  lemma TwoParts(p: Part, q: Part)
    ensures Commas(PartTexts([p, q])) == (Quoted(p.key) + [58] + p.text) + [44] + (Quoted(q.key) + [58] + q.text)
  {
    hide Quoted;
    assert PartTexts([p, q]) == [PartText(p), PartText(q)];
    TwoCommas(PartText(p), PartText(q));
  }

  lemma TwoSorted(p: Part, q: Part)
    requires Before(p.key, q.key) || Before(q.key, p.key)
    ensures Sorted([p, q]) == if Before(p.key, q.key) then [p, q] else [q, p]
  {
    BeforeIsTotal(p.key, q.key);
    assert [p, q][1..] == [q] && [q][1..] == [];
    assert Sorted([q]) == [q];
    assert Insert(p, [q]) == if Before(p.key, q.key) then [p] + [q] else [q] + Insert(p, []);
  }
}
