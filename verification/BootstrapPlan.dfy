// The dry-run planner: candidate selectors are resolved to sources, each source is planned, and the report gives a
// status and one terminal result for each selector.
module BootstrapPlan {
  import opened Wrappers

  datatype SourceType = Work | Shared

  datatype Selector = Selector(slug: string, kind: Option<SourceType>)

  datatype Root = Root(kind: SourceType, realRoot: string)

  datatype Source = Source(slug: string, kind: SourceType, root: string)

  // `sourceType` is left out of an exclusion whose selector named none.
  datatype Exclusion = Exclusion(slug: string, kind: Option<SourceType>, reason: Reason)

  datatype Candidate = Candidate(slug: string, kind: SourceType, ready: bool)

  datatype Reason = NotFound | Ambiguous | NotReady | NotPlanned | NotResolved | Unplannable(cause: string)

  datatype Terminal = Ready | Blocked | Excluded

  datatype SelectorResult = SelectorResult(selector: Selector, terminal: Terminal, reason: Option<Reason>)

  datatype Blocker = StaleContract(name: string) | CandidateNotResolved | CandidateNotScanClean | NoReadyCandidates

  datatype Report = Report(
    results: seq<SelectorResult>, exclusions: seq<Exclusion>, candidates: seq<Candidate>, blockers: set<Blocker>, ready: bool)

  datatype Refusal = AllowlistRequired | AllowlistLimit | DuplicateSelectors | PlanningFailed

  // What planning one source comes to: an exclusion, a scan with a number of findings, or an exception.
  datatype Outcome = Unplanned(cause: string) | Scanned(findings: nat) | Threw

  // The reads of the planner: which root holds a usable directory for a slug, and how planning a source goes.
  datatype Reads = Reads(holds: (Root, string) -> bool, plan: Source -> Outcome)

  const MaxCandidates := 8

  predicate Names(selector: Selector, slug: string, kind: SourceType) {
    selector.slug == slug && (selector.kind.None? || selector.kind.value == kind)
  }

  // Two selectors that some source could satisfy together.
  predicate Overlap(a: Selector, b: Selector) {
    a.slug == b.slug && (a.kind.None? || b.kind.None? || a.kind == b.kind)
  }

  ghost predicate NoOverlap(selectors: seq<Selector>) {
    forall i, j :: 0 <= i < j < |selectors| ==> !Overlap(selectors[i], selectors[j])
  }

  function RootsOf(roots: seq<Root>, selector: Selector): seq<Root> {
    if roots == [] then []
    else (if selector.kind.None? || roots[0].kind == selector.kind.value then [roots[0]] else []) + RootsOf(roots[1..], selector)
  }

  // --- Rejecting selectors that resolve to one source ---

  method RejectResolvedSelectorDuplicates(selectors: seq<Selector>, roots: seq<Root>) returns (r: Result<seq<Selector>, Refusal>)
    ensures r == if NoOverlap(selectors) then Ok(selectors) else Err(DuplicateSelectors)
  {
    var seen: set<(SourceType, string, string)> := {};
    var seenBySlug: map<string, set<Option<SourceType>>> := map[];
    for i := 0 to |selectors|
      invariant NoOverlap(selectors[..i])
      invariant forall slug, kind :: slug in seenBySlug && kind in seenBySlug[slug] <==> Selector(slug, kind) in selectors[..i]
      invariant forall key :: key in seen ==> Selector(key.2, Some(key.0)) in selectors[..i] || Selector(key.2, None) in selectors[..i]
    {
      var selector := selectors[i];
      var kinds := if selector.slug in seenBySlug then seenBySlug[selector.slug] else {};
      assert forall kind :: kind in kinds <==> Selector(selector.slug, kind) in selectors[..i];
      if selector.kind in kinds || (selector.kind.None? && kinds != {}) || (selector.kind.Some? && None in kinds) {
        OverlapFound(selectors, i, kinds);
        return Err(DuplicateSelectors);
      }
      NoOverlapSoFar(selectors, i, kinds);
      seenBySlug := seenBySlug[selector.slug := kinds + {selector.kind}];
      assert selectors[..i + 1] == selectors[..i] + [selector];
      var matching := RootsOf(roots, selector);
      if |matching| != 1 { continue; }
      RootsMatch(roots, selector);
      var key := (matching[0].kind, matching[0].realRoot, selector.slug);
      // After the first check no earlier selector can have this slug and kind.
      assert key !in seen;
      seen := seen + {key};
    }
    assert selectors[..|selectors|] == selectors;
    r := Ok(selectors);
  }

  lemma OverlapFound(selectors: seq<Selector>, i: nat, kinds: set<Option<SourceType>>)
    requires i < |selectors|
    requires forall kind :: kind in kinds <==> Selector(selectors[i].slug, kind) in selectors[..i]
    requires var kind := selectors[i].kind; kind in kinds || (kind.None? && kinds != {}) || (kind.Some? && None in kinds)
    ensures !NoOverlap(selectors)
  {
    var kind := selectors[i].kind;
    var other :| other in kinds && (kind.None? || other == kind || other.None?);
    var j :| 0 <= j < i && selectors[j] == Selector(selectors[i].slug, other);
    assert Overlap(selectors[j], selectors[i]);
  }

  lemma NoOverlapSoFar(selectors: seq<Selector>, i: nat, kinds: set<Option<SourceType>>)
    requires i < |selectors| && NoOverlap(selectors[..i])
    requires forall kind :: kind in kinds <==> Selector(selectors[i].slug, kind) in selectors[..i]
    requires var kind := selectors[i].kind; !(kind in kinds || (kind.None? && kinds != {}) || (kind.Some? && None in kinds))
    ensures NoOverlap(selectors[..i + 1])
    ensures forall s :: s in selectors[..i] ==> !Overlap(s, selectors[i])
  {
    forall s | s in selectors[..i] ensures !Overlap(s, selectors[i]) {
      if s.slug == selectors[i].slug {
        assert s == Selector(selectors[i].slug, s.kind);
        assert s.kind in kinds;
      }
    }
    forall j, k | 0 <= j < k < i + 1 ensures !Overlap(selectors[j], selectors[k]) {
      if k == i { assert selectors[j] in selectors[..i]; }
    }
  }

  lemma {:induction false} RootsMatch(roots: seq<Root>, selector: Selector)
    ensures forall root :: root in RootsOf(roots, selector) <==> root in roots && Names(selector, selector.slug, root.kind)
  {
    if roots != [] {
      RootsMatch(roots[1..], selector);
      assert roots == [roots[0]] + roots[1..];
    }
  }

  // --- Selecting sources ---

  // The directories a selector could mean.
  function Matches(selector: Selector, roots: seq<Root>, io: Reads): (m: seq<Source>)
    ensures forall source :: source in m ==> Names(selector, source.slug, source.kind)
  {
    if roots == [] then []
    else
      var root, before := roots[|roots| - 1], Matches(selector, roots[..|roots| - 1], io);
      if Names(selector, selector.slug, root.kind) && io.holds(root, selector.slug)
      then before + [Source(selector.slug, root.kind, root.realRoot)] else before
  }

  function Resolved(selectors: seq<Selector>, roots: seq<Root>, io: Reads): seq<Source> {
    if selectors == [] then []
    else
      var m := Matches(selectors[|selectors| - 1], roots, io);
      Resolved(selectors[..|selectors| - 1], roots, io) + if |m| == 1 then m else []
  }

  function Unresolved(selectors: seq<Selector>, roots: seq<Root>, io: Reads): seq<Exclusion> {
    if selectors == [] then []
    else
      var s := selectors[|selectors| - 1];
      var n := |Matches(s, roots, io)|;
      Unresolved(selectors[..|selectors| - 1], roots, io)
      + if n == 1 then [] else [Exclusion(s.slug, s.kind, if n == 0 then NotFound else Ambiguous)]
  }

  method SelectSources(selectors: seq<Selector>, roots: seq<Root>, io: Reads)
      returns (selected: seq<Source>, exclusions: seq<Exclusion>)
    ensures selected == Resolved(selectors, roots, io) && exclusions == Unresolved(selectors, roots, io)
  {
    selected, exclusions := [], [];
    for i := 0 to |selectors|
      invariant selected == Resolved(selectors[..i], roots, io) && exclusions == Unresolved(selectors[..i], roots, io)
    {
      var selector := selectors[i];
      var matches := MatchRoots(selector, roots, io);
      assert selectors[..i + 1][..i] == selectors[..i];
      if |matches| != 1 {
        exclusions := exclusions + [Exclusion(selector.slug, selector.kind, if |matches| == 0 then NotFound else Ambiguous)];
        continue;
      }
      assert matches == [matches[0]];
      selected := selected + [matches[0]];
    }
    assert selectors[..|selectors|] == selectors;
  }

  method MatchRoots(selector: Selector, roots: seq<Root>, io: Reads) returns (matches: seq<Source>)
    ensures matches == Matches(selector, roots, io)
  {
    matches := [];
    for j := 0 to |roots|
      invariant matches == Matches(selector, roots[..j], io)
    {
      assert roots[..j + 1][..j] == roots[..j];
      if Names(selector, selector.slug, roots[j].kind) && io.holds(roots[j], selector.slug) {
        matches := matches + [Source(selector.slug, roots[j].kind, roots[j].realRoot)];
      }
    }
    assert roots[..|roots|] == roots;
  }

  // --- Planning the selected sources ---

  function CandidateOf(source: Source, stale: set<string>, io: Reads): seq<Candidate> {
    match io.plan(source)
    case Scanned(findings) => [Candidate(source.slug, source.kind, findings == 0 && stale == {})]
    case _ => []
  }

  function ExclusionOf(source: Source, io: Reads): seq<Exclusion> {
    match io.plan(source)
    case Unplanned(cause) => [Exclusion(source.slug, Some(source.kind), Unplannable(cause))]
    case _ => []
  }

  function Planned(sources: seq<Source>, stale: set<string>, io: Reads): seq<Candidate> {
    if sources == [] then []
    else Planned(sources[..|sources| - 1], stale, io) + CandidateOf(sources[|sources| - 1], stale, io)
  }

  function Unplanned(sources: seq<Source>, io: Reads): seq<Exclusion> {
    if sources == [] then [] else Unplanned(sources[..|sources| - 1], io) + ExclusionOf(sources[|sources| - 1], io)
  }

  predicate SomeThrew(sources: seq<Source>, io: Reads) {
    exists source :: source in sources && io.plan(source).Threw?
  }

  method PlanCandidates(sources: seq<Source>, stale: set<string>, io: Reads)
      returns (r: Result<(seq<Candidate>, seq<Exclusion>), Refusal>)
    ensures r == if SomeThrew(sources, io) then Err(PlanningFailed)
                 else Ok((Planned(sources, stale, io), Unplanned(sources, io)))
  {
    var candidates: seq<Candidate>, exclusions: seq<Exclusion> := [], [];
    for i := 0 to |sources|
      invariant candidates == Planned(sources[..i], stale, io) && exclusions == Unplanned(sources[..i], io)
      invariant !SomeThrew(sources[..i], io)
    {
      var source := sources[i];
      assert sources[..i + 1][..i] == sources[..i];
      match io.plan(source) {
        case Threw =>
          assert source in sources;
          return Err(PlanningFailed);
        case Unplanned(cause) => exclusions := exclusions + [Exclusion(source.slug, Some(source.kind), Unplannable(cause))];
        case Scanned(findings) => candidates := candidates + [Candidate(source.slug, source.kind, findings == 0 && stale == {})];
      }
    }
    assert sources[..|sources|] == sources;
    r := Ok((candidates, exclusions));
  }

  // --- The report ---

  function FindExclusion(exclusions: seq<Exclusion>, s: Selector): (r: Option<Exclusion>)
    ensures r.Some? <==> exists e :: e in exclusions && e.slug == s.slug && (s.kind.None? || e.kind == s.kind)
    ensures r.Some? ==> r.value in exclusions && r.value.slug == s.slug && (s.kind.None? || r.value.kind == s.kind)
  {
    if exclusions == [] then None
    else if exclusions[0].slug == s.slug && (s.kind.None? || exclusions[0].kind == s.kind) then Some(exclusions[0])
    else
      assert exclusions == [exclusions[0]] + exclusions[1..];
      FindExclusion(exclusions[1..], s)
  }

  function FindCandidate(candidates: seq<Candidate>, s: Selector): (r: Option<Candidate>)
    ensures r.Some? <==> exists c :: c in candidates && Names(s, c.slug, c.kind)
    ensures r.Some? ==> r.value in candidates && Names(s, r.value.slug, r.value.kind)
  {
    if candidates == [] then None
    else if Names(s, candidates[0].slug, candidates[0].kind) then Some(candidates[0])
    else
      assert candidates == [candidates[0]] + candidates[1..];
      FindCandidate(candidates[1..], s)
  }

  function ResultOf(s: Selector, selected: seq<Source>, candidates: seq<Candidate>, exclusions: seq<Exclusion>): SelectorResult {
    var exclusion, candidate := FindExclusion(exclusions, s), FindCandidate(candidates, s);
    if exclusion.Some? then SelectorResult(s, Excluded, Some(exclusion.value.reason))
    else if candidate.Some? then
      SelectorResult(s, if candidate.value.ready then Ready else Blocked, if candidate.value.ready then None else Some(NotReady))
    else if exists source :: source in selected && Names(s, source.slug, source.kind) then SelectorResult(s, Blocked, Some(NotPlanned))
    else SelectorResult(s, Excluded, Some(NotResolved))
  }

  // Sorting the results again changes nothing: the selectors come sorted by the same order, and the sort is stable.
  function SelectorResults(selectors: seq<Selector>, selected: seq<Source>, candidates: seq<Candidate>, exclusions: seq<Exclusion>)
      : (results: seq<SelectorResult>)
    ensures |results| == |selectors| && forall i :: 0 <= i < |results| ==> results[i] == ResultOf(selectors[i], selected, candidates, exclusions)
  {
    seq(|selectors|, i requires 0 <= i < |selectors| => ResultOf(selectors[i], selected, candidates, exclusions))
  }

  function BlockersOf(stale: set<string>, candidates: seq<Candidate>, exclusions: seq<Exclusion>): set<Blocker> {
    (set name | name in stale :: StaleContract(name))
    + (if |exclusions| > 0 then {CandidateNotResolved} else {})
    + (if exists c :: c in candidates && !c.ready then {CandidateNotScanClean} else {})
    + (if exists c :: c in candidates && c.ready then {} else {NoReadyCandidates})
  }

  function PlanReport(selectors: seq<Selector>, roots: seq<Root>, stale: set<string>, io: Reads): Report {
    var selected := Resolved(selectors, roots, io);
    var candidates := Planned(selected, stale, io);
    var exclusions := Unresolved(selectors, roots, io) + Unplanned(selected, io);
    var blockers := BlockersOf(stale, candidates, exclusions);
    Report(SelectorResults(selectors, selected, candidates, exclusions), exclusions, candidates, blockers, blockers == {})
  }

  ghost predicate StatusAgrees(report: Report) {
    report.ready <==> forall i :: 0 <= i < |report.results| ==> report.results[i].terminal.Ready?
  }

  // --- What the directories and scans decide ---

  ghost predicate Found(s: Selector, roots: seq<Root>, io: Reads, j: int) {
    0 <= j < |roots| && Names(s, s.slug, roots[j].kind) && io.holds(roots[j], s.slug)
  }

  ghost predicate OnlyAt(s: Selector, roots: seq<Root>, io: Reads, j: int) {
    Found(s, roots, io, j) && forall i :: Found(s, roots, io, i) ==> i == j
  }

  function SourceAt(s: Selector, root: Root): Source { Source(s.slug, root.kind, root.realRoot) }

  // The directory at `j` is the only one for the selector, it can be planned, and its scan found nothing.
  ghost predicate CleanAt(s: Selector, roots: seq<Root>, io: Reads, j: int) {
    OnlyAt(s, roots, io, j) && io.plan(SourceAt(s, roots[j])) == Scanned(0)
  }

  ghost predicate HasCleanSource(s: Selector, roots: seq<Root>, io: Reads) { exists j :: CleanAt(s, roots, io, j) }

  // One selector's result, as its directories and their scans decide it.
  ghost predicate Settles(result: SelectorResult, s: Selector, roots: seq<Root>, stale: set<string>, io: Reads) {
    && result.selector == s
    && ((forall j :: !Found(s, roots, io, j)) ==> result.terminal == Excluded && result.reason == Some(NotFound))
    && (forall i, j :: Found(s, roots, io, i) && Found(s, roots, io, j) && i != j ==>
          result.terminal == Excluded && result.reason == Some(Ambiguous))
    && forall j :: OnlyAt(s, roots, io, j) ==>
         match io.plan(SourceAt(s, roots[j]))
         case Unplanned(cause) => result.terminal == Excluded && result.reason == Some(Unplannable(cause))
         case Scanned(findings) =>
           if findings == 0 && stale == {} then result.terminal == Ready && result.reason == None
           else result.terminal == Blocked && result.reason == Some(NotReady)
         case Threw => false
  }

  // The blockers, as the results decide them.
  ghost predicate BlockersAgree(report: Report, stale: set<string>) {
    && (forall name :: StaleContract(name) in report.blockers <==> name in stale)
    && (CandidateNotResolved in report.blockers <==> exists k :: 0 <= k < |report.results| && report.results[k].terminal.Excluded?)
    && (CandidateNotScanClean in report.blockers <==> exists k :: 0 <= k < |report.results| && report.results[k].terminal.Blocked?)
    && (NoReadyCandidates in report.blockers <==> forall k :: 0 <= k < |report.results| ==> !report.results[k].terminal.Ready?)
  }

  // The report is ready exactly when every selector's terminal result is, and then the candidates are one ready
  // candidate for each selector, in the selectors' order.
  method CreateDryRun(selectors: seq<Selector>, roots: seq<Root>, stale: set<string>, io: Reads) returns (r: Result<Report, Refusal>)
    ensures r == if |selectors| == 0 then Err(AllowlistRequired)
                 else if |selectors| > MaxCandidates then Err(AllowlistLimit)
                 else if !NoOverlap(selectors) then Err(DuplicateSelectors)
                 else if SomeThrew(Resolved(selectors, roots, io), io) then Err(PlanningFailed)
                 else Ok(PlanReport(selectors, roots, stale, io))
    ensures r.Ok? ==> StatusAgrees(r.value) && |r.value.results| == |selectors|
    ensures r.Ok? && r.value.ready ==> |r.value.candidates| == |selectors|
    ensures r.Ok? && r.value.ready ==>
              forall i :: 0 <= i < |selectors| ==> Names(selectors[i], r.value.candidates[i].slug, r.value.candidates[i].kind)
    ensures r.Ok? ==> (r.value.ready <==> stale == {} && forall k :: 0 <= k < |selectors| ==> HasCleanSource(selectors[k], roots, io))
    ensures r.Ok? ==> forall k :: 0 <= k < |selectors| ==> Settles(r.value.results[k], selectors[k], roots, stale, io)
    ensures r.Ok? ==> BlockersAgree(r.value, stale)
    ensures r == Err(PlanningFailed) ==>
              exists k, j :: 0 <= k < |selectors| && OnlyAt(selectors[k], roots, io, j) && io.plan(SourceAt(selectors[k], roots[j])).Threw?
  {
    hide Matches, Resolved, Unresolved, Planned, Unplanned, BlockersOf, OnlyAt, CleanAt, HasCleanSource, Settles, BlockersAgree;
    if |selectors| == 0 { return Err(AllowlistRequired); }
    if |selectors| > MaxCandidates { return Err(AllowlistLimit); }
    var canonical := RejectResolvedSelectorDuplicates(selectors, roots);
    if canonical.Err? { return Err(canonical.error); }
    var selected, exclusions := SelectSources(selectors, roots, io);
    var planned := PlanCandidates(selected, stale, io);
    if planned.Err? {
      ThrewAt(selectors, roots, io);
      return Err(planned.error);
    }
    var candidates := planned.value.0;
    exclusions := exclusions + planned.value.1;
    var blockers := BlockersOf(stale, candidates, exclusions);
    var results := SelectorResults(selectors, selected, candidates, exclusions);
    r := Ok(Report(results, exclusions, candidates, blockers, blockers == {}));
    StatusAgreesWithResults(selectors, roots, stale, io);
    if r.value.ready { ReadyReport(selectors, roots, stale, io); }
    ResultsSettle(selectors, roots, stale, io);
    BlockersFollow(selectors, roots, stale, io);
    ReadyExactly(selectors, roots, stale, io);
  }

  // --- Why they agree ---

  lemma {:induction false} ResolvedFrom(selectors: seq<Selector>, roots: seq<Root>, io: Reads, source: Source)
    requires source in Resolved(selectors, roots, io)
    ensures exists k :: 0 <= k < |selectors| && Matches(selectors[k], roots, io) == [source]
  {
    var n := |selectors| - 1;
    var m := Matches(selectors[n], roots, io);
    if source in Resolved(selectors[..n], roots, io) {
      ResolvedFrom(selectors[..n], roots, io, source);
      var k :| 0 <= k < n && Matches(selectors[..n][k], roots, io) == [source];
      assert Matches(selectors[k], roots, io) == [source];
    } else {
      assert m == [source];
    }
  }

  lemma {:induction false} ResolvedOrNot(selectors: seq<Selector>, roots: seq<Root>, io: Reads, k: nat)
    requires k < |selectors|
    ensures var s, m := selectors[k], Matches(selectors[k], roots, io);
            if |m| == 1 then m[0] in Resolved(selectors, roots, io)
            else exists e :: e in Unresolved(selectors, roots, io) && e.slug == s.slug && e.kind == s.kind
  {
    hide Matches;
    var n := |selectors| - 1;
    if k < n {
      ResolvedOrNot(selectors[..n], roots, io, k);
      assert selectors[..n][k] == selectors[k];
    } else {
      var s, m := selectors[n], Matches(selectors[n], roots, io);
      if |m| != 1 {
        var e := Exclusion(s.slug, s.kind, if |m| == 0 then NotFound else Ambiguous);
        assert e in Unresolved(selectors, roots, io);
      } else {
        assert m == [m[0]];
      }
    }
  }

  lemma {:induction false} UnresolvedFrom(selectors: seq<Selector>, roots: seq<Root>, io: Reads, e: Exclusion)
    requires e in Unresolved(selectors, roots, io)
    ensures Selector(e.slug, e.kind) in selectors
  {
    var n := |selectors| - 1;
    assert selectors == selectors[..n] + [selectors[n]];
    if e in Unresolved(selectors[..n], roots, io) { UnresolvedFrom(selectors[..n], roots, io, e); }
  }

  lemma {:induction false} PlannedFrom(sources: seq<Source>, stale: set<string>, io: Reads)
    ensures forall c :: c in Planned(sources, stale, io) ==> exists source :: source in sources && CandidateOf(source, stale, io) == [c]
    ensures forall source :: source in sources && |CandidateOf(source, stale, io)| > 0 ==> CandidateOf(source, stale, io)[0] in Planned(sources, stale, io)
  {
    if sources != [] {
      var n := |sources| - 1;
      PlannedFrom(sources[..n], stale, io);
      assert sources == sources[..n] + [sources[n]];
    }
  }

  lemma {:induction false} UnplannedFrom(sources: seq<Source>, io: Reads)
    ensures forall e :: e in Unplanned(sources, io) ==> exists source :: source in sources && ExclusionOf(source, io) == [e]
    ensures forall source :: source in sources && |ExclusionOf(source, io)| > 0 ==> ExclusionOf(source, io)[0] in Unplanned(sources, io)
  {
    if sources != [] {
      var n := |sources| - 1;
      UnplannedFrom(sources[..n], io);
      assert sources == sources[..n] + [sources[n]];
    }
  }

  // Every exclusion is found by some selector.
  lemma ExclusionIsFound(selectors: seq<Selector>, roots: seq<Root>, io: Reads, e: Exclusion) returns (k: nat)
    requires e in Unresolved(selectors, roots, io) + Unplanned(Resolved(selectors, roots, io), io)
    ensures k < |selectors| && e.slug == selectors[k].slug && (selectors[k].kind.None? || e.kind == selectors[k].kind)
  {
    var selected := Resolved(selectors, roots, io);
    if e in Unresolved(selectors, roots, io) {
      UnresolvedFrom(selectors, roots, io, e);
      k :| 0 <= k < |selectors| && selectors[k] == Selector(e.slug, e.kind);
    } else {
      UnplannedFrom(selected, io);
      var source :| source in selected && ExclusionOf(source, io) == [e];
      ResolvedFrom(selectors, roots, io, source);
      k :| 0 <= k < |selectors| && Matches(selectors[k], roots, io) == [source];
      assert source in Matches(selectors[k], roots, io);
    }
  }

  // Every candidate comes from some selector's one directory.
  lemma CandidateIsNamed(selectors: seq<Selector>, roots: seq<Root>, stale: set<string>, io: Reads, c: Candidate)
      returns (k: nat, source: Source)
    requires c in Planned(Resolved(selectors, roots, io), stale, io)
    ensures k < |selectors| && Matches(selectors[k], roots, io) == [source] && CandidateOf(source, stale, io) == [c]
    ensures Names(selectors[k], c.slug, c.kind)
  {
    var selected := Resolved(selectors, roots, io);
    PlannedFrom(selected, stale, io);
    source :| source in selected && CandidateOf(source, stale, io) == [c];
    ResolvedFrom(selectors, roots, io, source);
    k :| 0 <= k < |selectors| && Matches(selectors[k], roots, io) == [source];
    assert source in Matches(selectors[k], roots, io);
  }

  // Without overlapping selectors, the candidate a selector finds is its own.
  lemma FoundCandidateIsOwn(selectors: seq<Selector>, roots: seq<Root>, stale: set<string>, io: Reads, k: nat, source: Source, c: Candidate)
    requires NoOverlap(selectors) && k < |selectors| && Matches(selectors[k], roots, io) == [source]
    requires CandidateOf(source, stale, io) == [c] && c in Planned(Resolved(selectors, roots, io), stale, io)
    ensures FindCandidate(Planned(Resolved(selectors, roots, io), stale, io), selectors[k]) == Some(c)
  {
    var candidates := Planned(Resolved(selectors, roots, io), stale, io);
    assert source in Matches(selectors[k], roots, io);
    assert Names(selectors[k], c.slug, c.kind);
    var found := FindCandidate(candidates, selectors[k]).value;
    var j, other := CandidateIsNamed(selectors, roots, stale, io, found);
    assert Overlap(selectors[j], selectors[k]) && Overlap(selectors[k], selectors[j]);
    assert j == k;
  }

  lemma ReadyMeansAllReady(selectors: seq<Selector>, roots: seq<Root>, stale: set<string>, io: Reads, k: nat)
    requires !SomeThrew(Resolved(selectors, roots, io), io) && k < |selectors|
    requires PlanReport(selectors, roots, stale, io).ready
    ensures PlanReport(selectors, roots, stale, io).results[k].terminal.Ready?
  {
    hide Resolved, Planned, Unplanned, Unresolved, BlockersOf, Names;
    var selected := Resolved(selectors, roots, io);
    var candidates := Planned(selected, stale, io);
    var exclusions := Unresolved(selectors, roots, io) + Unplanned(selected, io);
    ReadyHasNoBlocker(stale, candidates, exclusions);
    SelectorHasCandidate(selectors, roots, stale, io, k);
  }

  // With nothing excluded, a selector's one directory was planned and scanned.
  lemma SelectorHasCandidate(selectors: seq<Selector>, roots: seq<Root>, stale: set<string>, io: Reads, k: nat)
    requires !SomeThrew(Resolved(selectors, roots, io), io) && k < |selectors|
    requires Unresolved(selectors, roots, io) == [] && Unplanned(Resolved(selectors, roots, io), io) == []
    ensures FindCandidate(Planned(Resolved(selectors, roots, io), stale, io), selectors[k]).Some?
  {
    hide Resolved, Planned, Unplanned, Unresolved;
    var selected := Resolved(selectors, roots, io);
    ResolvedOrNot(selectors, roots, io, k);
    var m := Matches(selectors[k], roots, io);
    var source := m[0];
    assert source in m && source in selected;
    UnplannedFrom(selected, io);
    ScannedHasCandidate(source, stale, io);
    PlannedFrom(selected, stale, io);
    CandidateOfNames(source, stale, io);
  }

  lemma CandidateOfNames(source: Source, stale: set<string>, io: Reads)
    ensures forall c :: c in CandidateOf(source, stale, io) ==> c.slug == source.slug && c.kind == source.kind
  {
  }

  lemma ReadyHasNoBlocker(stale: set<string>, candidates: seq<Candidate>, exclusions: seq<Exclusion>)
    ensures BlockersOf(stale, candidates, exclusions) == {}
       <==> stale == {} && exclusions == [] && (forall c :: c in candidates ==> c.ready) && candidates != []
  {
    var blockers := BlockersOf(stale, candidates, exclusions);
    if stale != {} {
      var name :| name in stale;
      assert StaleContract(name) in blockers;
    }
    if exclusions != [] { assert CandidateNotResolved in blockers; }
    if exists c :: c in candidates && !c.ready { assert CandidateNotScanClean in blockers; }
    if candidates == [] { assert NoReadyCandidates in blockers; }
    if candidates != [] { assert candidates[0] in candidates; }
  }

  lemma FoundIsExcluded(s: Selector, selected: seq<Source>, candidates: seq<Candidate>, exclusions: seq<Exclusion>, e: Exclusion)
    requires e in exclusions && e.slug == s.slug && (s.kind.None? || e.kind == s.kind)
    ensures ResultOf(s, selected, candidates, exclusions).terminal.Excluded?
  {
    assert FindExclusion(exclusions, s).Some?;
  }

  lemma AllReadyMeansReady(selectors: seq<Selector>, roots: seq<Root>, stale: set<string>, io: Reads)
    requires NoOverlap(selectors) && selectors != []
    requires forall k :: 0 <= k < |selectors| ==> PlanReport(selectors, roots, stale, io).results[k].terminal.Ready?
    ensures PlanReport(selectors, roots, stale, io).ready
  {
    hide Resolved, Planned, Unplanned, Unresolved, BlockersOf, Matches, FindExclusion, NoOverlap;
    var selected := Resolved(selectors, roots, io);
    var candidates := Planned(selected, stale, io);
    var exclusions := Unresolved(selectors, roots, io) + Unplanned(selected, io);
    var results := PlanReport(selectors, roots, stale, io).results;
    if exclusions != [] {
      var k := ExclusionIsFound(selectors, roots, io, exclusions[0]);
      FoundIsExcluded(selectors[k], selected, candidates, exclusions, exclusions[0]);
    }
    forall c | c in candidates ensures c.ready {
      var k, source := CandidateIsNamed(selectors, roots, stale, io, c);
      FoundCandidateIsOwn(selectors, roots, stale, io, k, source, c);
      assert results[k].terminal.Ready?;
    }
    assert results[0].terminal.Ready?;
    var c := FindCandidate(candidates, selectors[0]).value;
    var k, source := CandidateIsNamed(selectors, roots, stale, io, c);
    ReadyHasNoBlocker(stale, candidates, exclusions);
  }

  lemma StatusAgreesWithResults(selectors: seq<Selector>, roots: seq<Root>, stale: set<string>, io: Reads)
    requires NoOverlap(selectors) && selectors != [] && !SomeThrew(Resolved(selectors, roots, io), io)
    ensures StatusAgrees(PlanReport(selectors, roots, stale, io))
  {
    var report := PlanReport(selectors, roots, stale, io);
    if report.ready {
      forall k | 0 <= k < |selectors| ensures report.results[k].terminal.Ready? {
        ReadyMeansAllReady(selectors, roots, stale, io, k);
      }
    } else if forall k :: 0 <= k < |selectors| ==> report.results[k].terminal.Ready? {
      AllReadyMeansReady(selectors, roots, stale, io);
    }
  }

  lemma {:induction false} OneSourceEach(selectors: seq<Selector>, roots: seq<Root>, io: Reads)
    requires Unresolved(selectors, roots, io) == []
    ensures |Resolved(selectors, roots, io)| == |selectors|
    ensures forall k :: 0 <= k < |selectors| ==>
              var source := Resolved(selectors, roots, io)[k]; Names(selectors[k], source.slug, source.kind)
  {
    hide Names, Matches;
    if selectors != [] {
      var n := |selectors| - 1;
      var m, before := Matches(selectors[n], roots, io), Resolved(selectors[..n], roots, io);
      assert |m| == 1 && m[0] in m && Unresolved(selectors[..n], roots, io) == [];
      OneSourceEach(selectors[..n], roots, io);
      assert Resolved(selectors, roots, io) == before + m;
      hide Resolved;
      forall k | 0 <= k < |selectors|
        ensures var source: Source := (before + m)[k]; Names(selectors[k], source.slug, source.kind)
      {
        if k < n { assert (before + m)[k] == before[k] && selectors[..n][k] == selectors[k]; }
      }
    }
  }

  lemma {:induction false} OneCandidateEach(sources: seq<Source>, stale: set<string>, io: Reads)
    requires forall source :: source in sources ==> |CandidateOf(source, stale, io)| == 1
    ensures |Planned(sources, stale, io)| == |sources|
    ensures forall k :: 0 <= k < |sources| ==> CandidateOf(sources[k], stale, io) == [Planned(sources, stale, io)[k]]
  {
    hide CandidateOf;
    if sources != [] {
      var n := |sources| - 1;
      assert sources[n] in sources;
      OneCandidateEach(sources[..n], stale, io);
    }
  }

  lemma ScannedHasCandidate(source: Source, stale: set<string>, io: Reads)
    requires ExclusionOf(source, io) == [] && !io.plan(source).Threw?
    ensures |CandidateOf(source, stale, io)| == 1
  {
  }

  lemma ReadyReport(selectors: seq<Selector>, roots: seq<Root>, stale: set<string>, io: Reads)
    requires !SomeThrew(Resolved(selectors, roots, io), io)
    requires PlanReport(selectors, roots, stale, io).ready
    ensures var candidates := PlanReport(selectors, roots, stale, io).candidates;
            && |candidates| == |selectors|
            && forall k :: 0 <= k < |selectors| ==> Names(selectors[k], candidates[k].slug, candidates[k].kind)
  {
    hide Resolved, Planned, Unplanned, Unresolved, Matches, BlockersOf, SelectorResults;
    var selected := Resolved(selectors, roots, io);
    ReadyHasNoBlocker(stale, Planned(selected, stale, io), Unresolved(selectors, roots, io) + Unplanned(selected, io));
    OneSourceEach(selectors, roots, io);
    UnplannedFrom(selected, io);
    forall source | source in selected ensures |CandidateOf(source, stale, io)| == 1 {
      ScannedHasCandidate(source, stale, io);
    }
    OneCandidateEach(selected, stale, io);
  }

  // --- Why each result is what the directories and scans decide ---

  // Two selectors overlap exactly when one source could satisfy both.
  lemma OverlapExactly(a: Selector, b: Selector)
    ensures Overlap(a, b) <==> exists slug, kind :: Names(a, slug, kind) && Names(b, slug, kind)
  {
    if Overlap(a, b) {
      var kind := if a.kind.Some? then a.kind.value else if b.kind.Some? then b.kind.value else Work;
      assert Names(a, a.slug, kind) && Names(b, a.slug, kind);
    }
  }

  lemma {:induction false} MatchesAreFound(s: Selector, roots: seq<Root>, io: Reads)
    ensures var m := Matches(s, roots, io);
            && (|m| == 0 <==> forall j :: !Found(s, roots, io, j))
            && (|m| == 1 ==> exists j :: OnlyAt(s, roots, io, j) && m == [SourceAt(s, roots[j])])
            && (|m| > 1 ==> exists i, j :: Found(s, roots, io, i) && Found(s, roots, io, j) && i != j)
  {
    if roots != [] {
      var n := |roots| - 1;
      var before, m := Matches(s, roots[..n], io), Matches(s, roots, io);
      MatchesAreFound(s, roots[..n], io);
      assert forall j :: 0 <= j < n ==> (Found(s, roots[..n], io, j) <==> Found(s, roots, io, j));
      assert forall j :: Found(s, roots[..n], io, j) || Found(s, roots, io, j) ==> j <= n;
      if |before| == 1 {
        var j :| OnlyAt(s, roots[..n], io, j) && before == [SourceAt(s, roots[..n][j])];
        assert Found(s, roots, io, j);
        if !Found(s, roots, io, n) { assert OnlyAt(s, roots, io, j); }
      } else if |before| > 1 {
        var i, j :| Found(s, roots[..n], io, i) && Found(s, roots[..n], io, j) && i != j;
        assert Found(s, roots, io, i) && Found(s, roots, io, j);
      } else if Found(s, roots, io, n) {
        assert OnlyAt(s, roots, io, n);
      }
    }
  }

  lemma ThrewAt(selectors: seq<Selector>, roots: seq<Root>, io: Reads)
    requires SomeThrew(Resolved(selectors, roots, io), io)
    ensures exists k, j :: 0 <= k < |selectors| && OnlyAt(selectors[k], roots, io, j) && io.plan(SourceAt(selectors[k], roots[j])).Threw?
  {
    var source :| source in Resolved(selectors, roots, io) && io.plan(source).Threw?;
    ResolvedFrom(selectors, roots, io, source);
    var k :| 0 <= k < |selectors| && Matches(selectors[k], roots, io) == [source];
    MatchesAreFound(selectors[k], roots, io);
  }

  // An exclusion that a selector finds is its own, with its own reason.
  lemma FoundExclusionIsOwn(selectors: seq<Selector>, roots: seq<Root>, io: Reads, k: nat, e: Exclusion)
    requires NoOverlap(selectors) && k < |selectors|
    requires e in Unresolved(selectors, roots, io) + Unplanned(Resolved(selectors, roots, io), io)
    requires e.slug == selectors[k].slug && (selectors[k].kind.None? || e.kind == selectors[k].kind)
    ensures var m := Matches(selectors[k], roots, io);
            if |m| == 1 then ExclusionOf(m[0], io) == [e]
            else e.reason == if |m| == 0 then NotFound else Ambiguous
  {
    var selected := Resolved(selectors, roots, io);
    var j: nat;
    if e in Unresolved(selectors, roots, io) {
      j := UnresolvedIs(selectors, roots, io, e);
    } else {
      UnplannedFrom(selected, io);
      var source :| source in selected && ExclusionOf(source, io) == [e];
      ResolvedFrom(selectors, roots, io, source);
      j :| 0 <= j < |selectors| && Matches(selectors[j], roots, io) == [source];
      assert source in Matches(selectors[j], roots, io);
    }
    assert Overlap(selectors[j], selectors[k]) && Overlap(selectors[k], selectors[j]);
    assert j == k;
  }

  lemma {:induction false} UnresolvedIs(selectors: seq<Selector>, roots: seq<Root>, io: Reads, e: Exclusion) returns (k: nat)
    requires e in Unresolved(selectors, roots, io)
    ensures k < |selectors| && |Matches(selectors[k], roots, io)| != 1
    ensures e == Exclusion(selectors[k].slug, selectors[k].kind, if |Matches(selectors[k], roots, io)| == 0 then NotFound else Ambiguous)
  {
    k := |selectors| - 1;
    if e in Unresolved(selectors[..k], roots, io) { k := UnresolvedIs(selectors[..k], roots, io, e); }
  }

  // The selector's result, by the number of its directories and the outcome of planning the one it has.
  lemma ResultIs(selectors: seq<Selector>, roots: seq<Root>, stale: set<string>, io: Reads, k: nat)
    requires NoOverlap(selectors) && k < |selectors| && !SomeThrew(Resolved(selectors, roots, io), io)
    ensures var s, m := selectors[k], Matches(selectors[k], roots, io);
            var result := PlanReport(selectors, roots, stale, io).results[k];
            && result.selector == s
            && if |m| != 1 then
                 result.terminal == Excluded && result.reason == Some(if |m| == 0 then NotFound else Ambiguous)
               else
                 match io.plan(m[0])
                 case Unplanned(cause) => result.terminal == Excluded && result.reason == Some(Unplannable(cause))
                 case Scanned(findings) =>
                   if findings == 0 && stale == {} then result.terminal == Ready && result.reason == None
                   else result.terminal == Blocked && result.reason == Some(NotReady)
                 case Threw => false
  {
    hide Resolved, Unresolved, Planned, Unplanned, BlockersOf, NoOverlap;
    var s, m, selected := selectors[k], Matches(selectors[k], roots, io), Resolved(selectors, roots, io);
    var exclusions := Unresolved(selectors, roots, io) + Unplanned(selected, io);
    ResolvedOrNot(selectors, roots, io, k);
    UnplannedFrom(selected, io);
    var found := FindExclusion(exclusions, s);
    if found.Some? { FoundExclusionIsOwn(selectors, roots, io, k, found.value); }
    if |m| == 1 {
      assert m == [m[0]] && m[0] in m && m[0] in selected;
      PlannedFrom(selected, stale, io);
      match io.plan(m[0]) {
        case Unplanned(cause) =>
          var e := ExclusionOf(m[0], io)[0];
          assert e in exclusions && e.slug == s.slug && (s.kind.None? || e.kind == s.kind);
        case Scanned(findings) =>
          var c := CandidateOf(m[0], stale, io)[0];
          FoundCandidateIsOwn(selectors, roots, stale, io, k, m[0], c);
        case Threw =>
      }
    } else {
      var e :| e in Unresolved(selectors, roots, io) && e.slug == s.slug && e.kind == s.kind;
      assert e in exclusions;
    }
  }

  lemma ResultsSettle(selectors: seq<Selector>, roots: seq<Root>, stale: set<string>, io: Reads)
    requires NoOverlap(selectors) && !SomeThrew(Resolved(selectors, roots, io), io)
    ensures forall k :: 0 <= k < |selectors| ==> Settles(PlanReport(selectors, roots, stale, io).results[k], selectors[k], roots, stale, io)
  {
    hide PlanReport, NoOverlap, SomeThrew, Matches;
    forall k | 0 <= k < |selectors|
      ensures |PlanReport(selectors, roots, stale, io).results| == |selectors|
      ensures Settles(PlanReport(selectors, roots, stale, io).results[k], selectors[k], roots, stale, io)
    {
      ResultCount(selectors, roots, stale, io);
      ResultIs(selectors, roots, stale, io, k);
      MatchesAreFound(selectors[k], roots, io);
    }
  }

  lemma ResultCount(selectors: seq<Selector>, roots: seq<Root>, stale: set<string>, io: Reads)
    ensures |PlanReport(selectors, roots, stale, io).results| == |selectors|
  {
  }

  lemma ReadyExactly(selectors: seq<Selector>, roots: seq<Root>, stale: set<string>, io: Reads)
    requires NoOverlap(selectors) && selectors != [] && !SomeThrew(Resolved(selectors, roots, io), io)
    ensures PlanReport(selectors, roots, stale, io).ready <==>
              stale == {} && forall k :: 0 <= k < |selectors| ==> HasCleanSource(selectors[k], roots, io)
  {
    hide PlanReport, NoOverlap, SomeThrew, Matches;
    var report := PlanReport(selectors, roots, stale, io);
    ResultCount(selectors, roots, stale, io);
    ResultsSettle(selectors, roots, stale, io);
    StatusAgreesWithResults(selectors, roots, stale, io);
    hide Settles;
    forall k | 0 <= k < |selectors|
      ensures report.results[k].terminal.Ready? <==> stale == {} && HasCleanSource(selectors[k], roots, io)
    {
      ReadyIsClean(report.results[k], selectors[k], roots, stale, io);
    }
    hide HasCleanSource;
    assert report.results[0].terminal.Ready? <==> stale == {} && HasCleanSource(selectors[0], roots, io);
  }

  lemma ReadyIsClean(result: SelectorResult, s: Selector, roots: seq<Root>, stale: set<string>, io: Reads)
    requires Settles(result, s, roots, stale, io)
    ensures result.terminal.Ready? <==> stale == {} && HasCleanSource(s, roots, io)
  {
    MatchesAreFound(s, roots, io);
    if result.terminal.Ready? {
      var j :| OnlyAt(s, roots, io, j);
      assert CleanAt(s, roots, io, j);
    }
  }

  lemma BlockersFollow(selectors: seq<Selector>, roots: seq<Root>, stale: set<string>, io: Reads)
    requires NoOverlap(selectors) && !SomeThrew(Resolved(selectors, roots, io), io)
    ensures BlockersAgree(PlanReport(selectors, roots, stale, io), stale)
  {
    ExcludedAgree(selectors, roots, stale, io);
    CandidatesAgree(selectors, roots, stale, io, true);
    CandidatesAgree(selectors, roots, stale, io, false);
    hide Resolved, Planned, Unplanned, Unresolved, NoOverlap, Matches, SelectorResults, BlockersOf;
    var report := PlanReport(selectors, roots, stale, io);
    BlockersAre(stale, report.candidates, report.exclusions);
  }

  lemma BlockersAre(stale: set<string>, candidates: seq<Candidate>, exclusions: seq<Exclusion>)
    ensures var blockers := BlockersOf(stale, candidates, exclusions);
            && (forall name :: StaleContract(name) in blockers <==> name in stale)
            && (CandidateNotResolved in blockers <==> exclusions != [])
            && (CandidateNotScanClean in blockers <==> exists c :: c in candidates && c.ready == false)
            && (NoReadyCandidates in blockers <==> !exists c :: c in candidates && c.ready == true)
  {
  }

  lemma ExcludedAgree(selectors: seq<Selector>, roots: seq<Root>, stale: set<string>, io: Reads)
    requires NoOverlap(selectors) && !SomeThrew(Resolved(selectors, roots, io), io)
    ensures var report := PlanReport(selectors, roots, stale, io);
            report.exclusions != [] <==> exists k :: 0 <= k < |report.results| && report.results[k].terminal.Excluded?
  {
    hide Resolved, Planned, Unplanned, Unresolved, NoOverlap, Matches, BlockersOf, FindExclusion, FindCandidate;
    var report := PlanReport(selectors, roots, stale, io);
    if report.exclusions != [] {
      var e := report.exclusions[0];
      var k := ExclusionIsFound(selectors, roots, io, e);
      FoundIsExcluded(selectors[k], Resolved(selectors, roots, io), report.candidates, report.exclusions, e);
      assert report.results[k].terminal.Excluded?;
    }
    hide ResultOf;
    forall k | 0 <= k < |report.results| && report.results[k].terminal.Excluded? ensures report.exclusions != [] {
      ResultIs(selectors, roots, stale, io, k);
      ExcludedIsListed(selectors, roots, stale, io, k);
    }
  }

  lemma CandidatesAgree(selectors: seq<Selector>, roots: seq<Root>, stale: set<string>, io: Reads, ready: bool)
    requires NoOverlap(selectors) && !SomeThrew(Resolved(selectors, roots, io), io)
    ensures var report := PlanReport(selectors, roots, stale, io);
            (exists c :: c in report.candidates && c.ready == ready) <==>
            exists k :: 0 <= k < |report.results| && report.results[k].terminal == if ready then Ready else Blocked
  {
    hide Resolved, Planned, Unplanned, Unresolved, NoOverlap, Matches, BlockersOf, FindExclusion, FindCandidate, ResultOf;
    var report := PlanReport(selectors, roots, stale, io);
    if c :| c in report.candidates && c.ready == ready {
      var k, source := CandidateIsNamed(selectors, roots, stale, io, c);
      ResultIs(selectors, roots, stale, io, k);
      assert report.results[k].terminal == if ready then Ready else Blocked;
    }
    if k :| 0 <= k < |report.results| && report.results[k].terminal == if ready then Ready else Blocked {
      ResultIs(selectors, roots, stale, io, k);
      IncludedIsPlanned(selectors, roots, stale, io, k);
    }
  }

  lemma ExcludedIsListed(selectors: seq<Selector>, roots: seq<Root>, stale: set<string>, io: Reads, k: nat)
    requires k < |selectors|
    requires var m := Matches(selectors[k], roots, io); |m| != 1 || io.plan(m[0]).Unplanned?
    ensures Unresolved(selectors, roots, io) + Unplanned(Resolved(selectors, roots, io), io) != []
  {
    hide Resolved, Unplanned, Unresolved;
    ResolvedOrNot(selectors, roots, io, k);
    UnplannedFrom(Resolved(selectors, roots, io), io);
  }

  lemma IncludedIsPlanned(selectors: seq<Selector>, roots: seq<Root>, stale: set<string>, io: Reads, k: nat)
    requires k < |selectors|
    requires var m := Matches(selectors[k], roots, io); |m| == 1 && io.plan(m[0]).Scanned?
    ensures var source := Matches(selectors[k], roots, io)[0];
            exists c :: c in Planned(Resolved(selectors, roots, io), stale, io) && (c.ready <==> io.plan(source).findings == 0 && stale == {})
  {
    hide Resolved, Planned;
    ResolvedOrNot(selectors, roots, io, k);
    PlannedFrom(Resolved(selectors, roots, io), stale, io);
    var source := Matches(selectors[k], roots, io)[0];
    assert CandidateOf(source, stale, io)[0] in Planned(Resolved(selectors, roots, io), stale, io);
  }
}
