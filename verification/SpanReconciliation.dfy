/**
 Change log validation, the part that reconciles line spans: the spans proposed by the change
 log against the spans of the branch diff, file by file and with multiplicities.
 */
module SpanReconciliation {
  import opened Wrappers

  type Path = string

  datatype Span = Span(first: int, last: int)

  /** A proposed span; either line may be absent. */
  datatype Proposal = Proposal(first: Option<int>, last: Option<int>)

  datatype Issue =
    | InvalidSpan(path: Path, index: nat, proposal: Proposal)
    | MissingChange(path: Path, span: Span)
    | UnexpectedChange(path: Path, span: Span)
    | UnexpectedFile(path: Path)

  // ---------------------------------------------------------------------------
  // Grouping by path: a dictionary of lists with its keys in order of first insertion.

  datatype Item<E> = Item(path: Path, entry: E)

  datatype Group<E> = Group(path: Path, entries: seq<E>)

  function AppendTo<E>(groups: seq<Group<E>>, path: Path, entry: E): seq<Group<E>> {
    if groups == [] then [Group(path, [entry])]
    else if groups[0].path == path then [Group(path, groups[0].entries + [entry])] + groups[1..]
    else [groups[0]] + AppendTo(groups[1..], path, entry)
  }

  function GroupByPath<E>(items: seq<Item<E>>): seq<Group<E>> {
    if items == [] then []
    else AppendTo(GroupByPath(items[..|items| - 1]), items[|items| - 1].path, items[|items| - 1].entry)
  }

  /** The list under a path, empty when the path is no key. */
  function Lookup<E>(groups: seq<Group<E>>, path: Path): seq<E> {
    if groups == [] then [] else if groups[0].path == path then groups[0].entries else Lookup(groups[1..], path)
  }

  predicate HasPath<E>(groups: seq<Group<E>>, path: Path) {
    exists i :: 0 <= i < |groups| && groups[i].path == path
  }

  ghost predicate DistinctPaths<E>(groups: seq<Group<E>>) {
    forall i, j :: 0 <= i < j < |groups| ==> groups[i].path != groups[j].path
  }

  function EntriesAt<E>(items: seq<Item<E>>, path: Path): seq<E> {
    if items == [] then []
    else
      EntriesAt(items[..|items| - 1], path) +
      if items[|items| - 1].path == path then [items[|items| - 1].entry] else []
  }

  lemma {:induction false} AppendToLooksUp<E>(groups: seq<Group<E>>, path: Path, entry: E, p: Path)
    ensures Lookup(AppendTo(groups, path, entry), p) == Lookup(groups, p) + if p == path then [entry] else []
    ensures HasPath(AppendTo(groups, path, entry), p) <==> HasPath(groups, p) || p == path
  {
    var after := AppendTo(groups, path, entry);
    if groups == [] {
      assert after[0].path == path;
    } else {
      assert HasPath(groups, p) <==> groups[0].path == p || HasPath(groups[1..], p) by {
        HasPathSplits(groups, p);
      }
      HasPathSplits(after, p);
      if groups[0].path != path {
        AppendToLooksUp(groups[1..], path, entry, p);
      }
    }
  }

  lemma {:induction false} HasPathSplits<E>(groups: seq<Group<E>>, p: Path)
    requires groups != []
    ensures HasPath(groups, p) <==> groups[0].path == p || HasPath(groups[1..], p)
  {
    if i :| 0 <= i < |groups[1..]| && groups[1..][i].path == p {
      assert groups[i + 1].path == p;
    }
    if i :| 0 <= i < |groups| && groups[i].path == p && i > 0 {
      assert groups[1..][i - 1].path == p;
    }
  }

  lemma {:induction false} AppendToKeepsDistinct<E>(groups: seq<Group<E>>, path: Path, entry: E)
    requires DistinctPaths(groups)
    ensures DistinctPaths(AppendTo(groups, path, entry))
  {
    if groups != [] && groups[0].path != path {
      AppendToKeepsDistinct(groups[1..], path, entry);
      var rest := AppendTo(groups[1..], path, entry);
      forall j | 0 <= j < |rest| ensures rest[j].path != groups[0].path {
        AppendToLooksUp(groups[1..], path, entry, rest[j].path);
        assert HasPath(rest, rest[j].path);
      }
    }
  }

  /** Grouping collects under each path its entries in order, each path once. */
  lemma {:induction false} GroupsAreEntries<E>(items: seq<Item<E>>, p: Path)
    ensures Lookup(GroupByPath(items), p) == EntriesAt(items, p)
    ensures HasPath(GroupByPath(items), p) <==> EntriesAt(items, p) != []
    ensures DistinctPaths(GroupByPath(items))
  {
    if items != [] {
      var front, last := items[..|items| - 1], items[|items| - 1];
      GroupsAreEntries(front, p);
      AppendToLooksUp(GroupByPath(front), last.path, last.entry, p);
      AppendToKeepsDistinct(GroupByPath(front), last.path, last.entry);
    }
  }

  lemma {:induction false} LookupOwn<E>(groups: seq<Group<E>>, i: nat)
    requires DistinctPaths(groups) && i < |groups|
    ensures Lookup(groups, groups[i].path) == groups[i].entries
  {
    if i > 0 {
      LookupOwn(groups[1..], i - 1);
    }
  }

  // ---------------------------------------------------------------------------
  // One file.

  predicate IsValid(p: Proposal) {
    p.first.Some? && p.last.Some? && p.first.value <= p.last.value
  }

  /** Only a span without a first or last line, or one that ends before it starts, is invalid. */
  lemma {:induction false} InvalidMeans(p: Proposal)
    ensures !IsValid(p) <==>
            match (p.first, p.last)
            case (Some(first), Some(last)) => last < first
            case (_, _) => true
  {
  }

  /** The valid proposals, as spans in order. */
  function ValidSpans(ps: seq<Proposal>): seq<Span> {
    if ps == [] then []
    else
      var last := ps[|ps| - 1];
      ValidSpans(ps[..|ps| - 1]) + if IsValid(last) then [Span(last.first.value, last.last.value)] else []
  }

  function InvalidCount(ps: seq<Proposal>): nat {
    if ps == [] then 0 else InvalidCount(ps[..|ps| - 1]) + if IsValid(ps[|ps| - 1]) then 0 else 1
  }

  ghost function Times(issues: seq<Issue>, i: Issue): nat {
    multiset(issues)[i]
  }

  /** What the reports about one file must be: the two multiset differences, and each invalid proposal once. */
  ghost predicate Reported(issues: seq<Issue>, path: Path, expected: seq<Span>, ps: seq<Proposal>) {
    && (forall s :: Times(issues, MissingChange(path, s)) == (multiset(expected) - multiset(ValidSpans(ps)))[s])
    && (forall s :: Times(issues, UnexpectedChange(path, s)) == (multiset(ValidSpans(ps)) - multiset(expected))[s])
    && (forall k: nat, p :: Times(issues, InvalidSpan(path, k, p)) ==
                       if 1 <= k <= |ps| && p == ps[k - 1] && !IsValid(p) then 1 else 0)
  }

  ghost predicate About(issues: seq<Issue>, path: Path) {
    forall i :: i in issues ==> i.path == path && !i.UnexpectedFile?
  }

  lemma {:induction false} TimesOfConcat(a: seq<Issue>, b: seq<Issue>, i: Issue)
    ensures Times(a + b, i) == Times(a, i) + Times(b, i)
  {
  }

  lemma {:induction false} TimesOfLast(a: seq<Issue>, b: Issue, i: Issue)
    ensures Times(a + [b], i) == Times(a, i) + if i == b then 1 else 0
  {
    assert multiset([b])[i] == if i == b then 1 else 0;
  }

  lemma {:induction false} NotIn(issues: seq<Issue>, i: Issue)
    ensures Times(issues, i) == 0 <==> i !in issues
  {
    assert i in issues <==> i in multiset(issues);
  }

  /** The keys of a counter in order of first insertion. */
  function Distinct(spans: seq<Span>): (r: seq<Span>)
    ensures forall s :: s in r <==> s in spans
    ensures forall i, j :: 0 <= i < j < |r| ==> r[i] != r[j]
  {
    if spans == [] then []
    else
      var front := Distinct(spans[..|spans| - 1]);
      if spans[|spans| - 1] in front then front else front + [spans[|spans| - 1]]
  }

  function Report(missing: bool, path: Path, s: Span): Issue {
    if missing then MissingChange(path, s) else UnexpectedChange(path, s)
  }

  method AppendTimes(issues: seq<Issue>, i: Issue, times: nat) returns (r: seq<Issue>)
    ensures forall j :: Times(r, j) == Times(issues, j) + if j == i then times else 0
  {
    r := issues;
    for n := 0 to times
      invariant forall j :: Times(r, j) == Times(issues, j) + if j == i then n else 0
    {
      forall j ensures Times(r + [i], j) == Times(r, j) + if j == i then 1 else 0 {
        TimesOfLast(r, i, j);
      }
      r := r + [i];
    }
  }

  function Excess(a: multiset<Span>, b: multiset<Span>, s: Span): nat {
    if a[s] > b[s] then a[s] - b[s] else 0
  }

  /** For every key of one counter, reports it as often as it exceeds the other counter. */
  method ReportExcess(missing: bool, path: Path, count: multiset<Span>, other: multiset<Span>, keys: seq<Span>)
    returns (issues: seq<Issue>)
    requires forall i, j :: 0 <= i < j < |keys| ==> keys[i] != keys[j]
    requires forall s :: s in count ==> s in keys
    ensures forall s :: Times(issues, Report(missing, path, s)) == (count - other)[s]
    ensures forall i :: i in issues ==> exists s :: i == Report(missing, path, s)
  {
    issues := [];
    for k := 0 to |keys|
      invariant forall s :: Times(issues, Report(missing, path, s)) == if s in keys[..k] then Excess(count, other, s) else 0
      invariant forall i :: Times(issues, i) > 0 ==> exists s :: i == Report(missing, path, s)
    {
      var before := issues;
      issues := AppendTimes(issues, Report(missing, path, keys[k]), Excess(count, other, keys[k]));
      forall s ensures Times(issues, Report(missing, path, s)) == if s in keys[..k + 1] then Excess(count, other, s) else 0 {
        assert s in keys[..k + 1] <==> s in keys[..k] || s == keys[k];
      }
    }
    forall s ensures Times(issues, Report(missing, path, s)) == (count - other)[s] {
      assert s in keys[..|keys|] <==> s in keys;
    }
    forall i | i in issues ensures exists s :: i == Report(missing, path, s) {
      NotIn(issues, i);
    }
  }

  /** First loop of a file: report invalid proposals, count the others. */
  method CountProposals(path: Path, ps: seq<Proposal>) returns (issues: seq<Issue>, spans: seq<Span>)
    ensures spans == ValidSpans(ps)
    ensures forall k: nat, p :: Times(issues, InvalidSpan(path, k, p)) ==
                           if 1 <= k <= |ps| && p == ps[k - 1] && !IsValid(p) then 1 else 0
    ensures forall i :: i in issues ==> i.InvalidSpan? && i.path == path
  {
    issues, spans := [], [];
    for n := 0 to |ps|
      invariant spans == ValidSpans(ps[..n])
      invariant forall k: nat, p :: Times(issues, InvalidSpan(path, k, p)) ==
                               if 1 <= k <= n && p == ps[k - 1] && !IsValid(p) then 1 else 0
      invariant forall i :: i in issues ==> i.InvalidSpan? && i.path == path
    {
      assert ps[..n + 1][..n] == ps[..n];
      var p := ps[n];
      if p.first.None? || p.last.None? || p.first.value > p.last.value {
        var issue := InvalidSpan(path, n + 1, p);
        forall k: nat, q ensures Times(issues + [issue], InvalidSpan(path, k, q)) ==
                            Times(issues, InvalidSpan(path, k, q)) + if k == n + 1 && q == p then 1 else 0 {
          TimesOfLast(issues, issue, InvalidSpan(path, k, q));
        }
        issues := issues + [issue];
        continue;
      }
      spans := spans + [Span(p.first.value, p.last.value)];
    }
    assert ps[..|ps|] == ps;
  }

  method ReconcileFile(path: Path, expected: seq<Span>, ps: seq<Proposal>) returns (issues: seq<Issue>)
    ensures Reported(issues, path, expected, ps) && About(issues, path)
  {
    var invalid, spans := CountProposals(path, ps);
    var missing := ReportExcess(true, path, multiset(expected), multiset(spans), Distinct(expected));
    var unexpected := ReportExcess(false, path, multiset(spans), multiset(expected), Distinct(spans));
    issues := invalid + missing + unexpected;
    ThreeParts(invalid, missing, unexpected, path, expected, ps);
  }

  lemma {:induction false} ThreeParts(invalid: seq<Issue>, missing: seq<Issue>, unexpected: seq<Issue>, path: Path, expected: seq<Span>, ps: seq<Proposal>)
    requires forall i :: i in invalid ==> i.InvalidSpan? && i.path == path
    requires forall i :: i in missing ==> exists s :: i == Report(true, path, s)
    requires forall i :: i in unexpected ==> exists s :: i == Report(false, path, s)
    requires forall k: nat, p :: Times(invalid, InvalidSpan(path, k, p)) ==
                            if 1 <= k <= |ps| && p == ps[k - 1] && !IsValid(p) then 1 else 0
    requires forall s :: Times(missing, Report(true, path, s)) == (multiset(expected) - multiset(ValidSpans(ps)))[s]
    requires forall s :: Times(unexpected, Report(false, path, s)) == (multiset(ValidSpans(ps)) - multiset(expected))[s]
    ensures Reported(invalid + missing + unexpected, path, expected, ps) && About(invalid + missing + unexpected, path)
  {
    var all := invalid + missing + unexpected;
    forall i ensures Times(all, i) == Times(invalid, i) + Times(missing, i) + Times(unexpected, i) {
      TimesOfConcat(invalid + missing, unexpected, i);
      TimesOfConcat(invalid, missing, i);
    }
    forall s
      ensures Times(all, MissingChange(path, s)) == (multiset(expected) - multiset(ValidSpans(ps)))[s]
      ensures Times(all, UnexpectedChange(path, s)) == (multiset(ValidSpans(ps)) - multiset(expected))[s]
    {
      assert Report(true, path, s) == MissingChange(path, s) && Report(false, path, s) == UnexpectedChange(path, s);
      NotIn(invalid, MissingChange(path, s));
      NotIn(unexpected, MissingChange(path, s));
      NotIn(invalid, UnexpectedChange(path, s));
      NotIn(missing, UnexpectedChange(path, s));
    }
    forall k: nat, p ensures Times(all, InvalidSpan(path, k, p)) == Times(invalid, InvalidSpan(path, k, p)) {
      NotIn(missing, InvalidSpan(path, k, p));
      NotIn(unexpected, InvalidSpan(path, k, p));
    }
  }

  // ---------------------------------------------------------------------------
  // What the reports of one file mean.

  /** No difference for one file: every proposal valid, and the same spans equally often. */
  ghost predicate Agrees(expected: seq<Span>, ps: seq<Proposal>) {
    (forall i :: 0 <= i < |ps| ==> IsValid(ps[i])) && multiset(ValidSpans(ps)) == multiset(expected)
  }

  lemma {:induction false} ReportedNothingIffAgrees(issues: seq<Issue>, path: Path, expected: seq<Span>, ps: seq<Proposal>)
    requires Reported(issues, path, expected, ps) && About(issues, path)
    ensures issues == [] <==> Agrees(expected, ps)
  {
    var e, p := multiset(expected), multiset(ValidSpans(ps));
    if issues == [] {
      forall s ensures e[s] == p[s] {
        assert Times(issues, MissingChange(path, s)) == 0 && Times(issues, UnexpectedChange(path, s)) == 0;
        assert (e - p)[s] == 0 && (p - e)[s] == 0;
      }
      forall i | 0 <= i < |ps| ensures IsValid(ps[i]) {
        assert Times(issues, InvalidSpan(path, i + 1, ps[i])) == 0;
      }
    }
    if Agrees(expected, ps) {
      forall i: Issue | i.path == path && !i.UnexpectedFile? ensures Times(issues, i) == 0 {
        match i
        case MissingChange(_, s) => assert (e - p)[s] == 0;
        case UnexpectedChange(_, s) => assert (p - e)[s] == 0;
        case InvalidSpan(_, k, q) =>
      }
      if issues != [] {
        NotIn(issues, issues[0]);
      }
    }
  }

  /** The spans reported missing, or unexpected, for a file. */
  ghost function SpansReported(missing: bool, issues: seq<Issue>, path: Path): seq<Span> {
    if issues == [] then []
    else
      var last := issues[|issues| - 1];
      SpansReported(missing, issues[..|issues| - 1], path) +
      if (if missing then last.MissingChange? else last.UnexpectedChange?) && last.path == path then [last.span] else []
  }

  lemma {:induction false} SpansReportedCount(missing: bool, issues: seq<Issue>, path: Path, s: Span)
    ensures multiset(SpansReported(missing, issues, path))[s] == Times(issues, Report(missing, path, s))
  {
    hide Times;
    if issues == [] {
      NotIn(issues, Report(missing, path, s));
    } else {
      var front, last := issues[..|issues| - 1], issues[|issues| - 1];
      SpansReportedCount(missing, front, path, s);
      assert issues == front + [last];
      TimesOfLast(front, last, Report(missing, path, s));
    }
  }

  lemma {:induction false} ValidAndInvalid(ps: seq<Proposal>)
    ensures |ValidSpans(ps)| + InvalidCount(ps) == |ps|
  {
    if ps != [] {
      ValidAndInvalid(ps[..|ps| - 1]);
    }
  }

  lemma {:induction false} ReportedSpans(issues: seq<Issue>, path: Path, expected: seq<Span>, ps: seq<Proposal>)
    requires Reported(issues, path, expected, ps)
    ensures multiset(SpansReported(true, issues, path)) == multiset(expected) - multiset(ValidSpans(ps))
    ensures multiset(SpansReported(false, issues, path)) == multiset(ValidSpans(ps)) - multiset(expected)
  {
    var e, p := multiset(expected), multiset(ValidSpans(ps));
    forall s
      ensures multiset(SpansReported(true, issues, path))[s] == (e - p)[s]
      ensures multiset(SpansReported(false, issues, path))[s] == (p - e)[s]
    {
      SpansReportedCount(true, issues, path, s);
      SpansReportedCount(false, issues, path, s);
      assert Report(true, path, s) == MissingChange(path, s) && Report(false, path, s) == UnexpectedChange(path, s);
    }
  }

  lemma {:induction false} DifferencesBalance<T>(e: multiset<T>, p: multiset<T>)
    ensures |e - p| - |p - e| == |e| - |p|
  {
    assert e == e * p + (e - p);
    assert p == e * p + (p - e);
  }

  /** Per file, the number of missing minus the number of unexpected changes is expected minus validly proposed. */
  lemma {:induction false} ReportsBalance(issues: seq<Issue>, path: Path, expected: seq<Span>, ps: seq<Proposal>)
    requires Reported(issues, path, expected, ps)
    ensures |SpansReported(true, issues, path)| - |SpansReported(false, issues, path)| ==
            |expected| - (|ps| - InvalidCount(ps))
  {
    var m, u := SpansReported(true, issues, path), SpansReported(false, issues, path);
    ReportedSpans(issues, path, expected, ps);
    DifferencesBalance(multiset(expected), multiset(ValidSpans(ps)));
    ValidAndInvalid(ps);
    assert |m| == |multiset(m)| && |u| == |multiset(u)|;
    assert |expected| == |multiset(expected)| && |ValidSpans(ps)| == |multiset(ValidSpans(ps))|;
  }

  // ---------------------------------------------------------------------------
  // All files.

  /** Regular files are those that are not structured documents. */
  function Regular(proposed: seq<Group<Proposal>>, structured: Path -> bool): seq<Group<Proposal>> {
    if proposed == [] then []
    else (if structured(proposed[0].path) then [] else [proposed[0]]) + Regular(proposed[1..], structured)
  }

  lemma {:induction false} RegularGroups(proposed: seq<Group<Proposal>>, structured: Path -> bool, p: Path)
    ensures Lookup(Regular(proposed, structured), p) == if structured(p) then [] else Lookup(proposed, p)
    ensures HasPath(Regular(proposed, structured), p) <==> !structured(p) && HasPath(proposed, p)
  {
    if proposed != [] {
      RegularGroups(proposed[1..], structured, p);
      HasPathSplits(proposed, p);
      if !structured(proposed[0].path) {
        var r := Regular(proposed, structured);
        assert r[0] == proposed[0] && r[1..] == Regular(proposed[1..], structured);
        HasPathSplits(r, p);
      } else {
        assert Regular(proposed, structured) == Regular(proposed[1..], structured);
      }
    }
  }

  lemma {:induction false} FirstIsNew<E>(groups: seq<Group<E>>)
    requires groups != [] && DistinctPaths(groups)
    ensures DistinctPaths(groups[1..]) && !HasPath(groups[1..], groups[0].path)
  {
    forall j | 0 <= j < |groups[1..]| ensures groups[1..][j].path != groups[0].path {
      assert groups[1..][j] == groups[j + 1];
    }
  }

  lemma {:induction false} NewFirst<E>(first: Group<E>, rest: seq<Group<E>>)
    requires DistinctPaths(rest) && !HasPath(rest, first.path)
    ensures DistinctPaths([first] + rest)
  {
  }

  lemma {:induction false} RegularKeepsDistinct(proposed: seq<Group<Proposal>>, structured: Path -> bool)
    requires DistinctPaths(proposed)
    ensures DistinctPaths(Regular(proposed, structured))
  {
    if proposed != [] {
      FirstIsNew(proposed);
      hide DistinctPaths, HasPath;
      RegularKeepsDistinct(proposed[1..], structured);
      RegularGroups(proposed[1..], structured, proposed[0].path);
      if !structured(proposed[0].path) {
        NewFirst(proposed[0], Regular(proposed[1..], structured));
      } else {
        assert Regular(proposed, structured) == Regular(proposed[1..], structured);
      }
    }
  }

  /** The whole reconciliation is clean: every expected file agrees, and no other file is proposed. */
  ghost predicate Clean(expected: seq<Group<Span>>, regular: seq<Group<Proposal>>) {
    (forall i :: 0 <= i < |expected| ==> Agrees(expected[i].entries, Lookup(regular, expected[i].path))) &&
    (forall i :: 0 <= i < |regular| ==> HasPath(expected, regular[i].path))
  }

  /** The reports about the first `k` expected files are right, and there are no others. */
  ghost predicate ReportedSoFar(issues: seq<Issue>, expected: seq<Group<Span>>, k: nat, regular: seq<Group<Proposal>>)
    requires k <= |expected|
  {
    && (forall i :: 0 <= i < k ==> Reported(issues, expected[i].path, expected[i].entries, Lookup(regular, expected[i].path)))
    && (forall i :: i in issues ==> !i.UnexpectedFile? && HasPath(expected[..k], i.path))
  }

  lemma {:induction false} OtherPathUnchanged(issues: seq<Issue>, more: seq<Issue>, path: Path, expected: seq<Span>, ps: seq<Proposal>)
    requires Reported(issues, path, expected, ps)
    requires forall i :: i in more ==> i.path != path || i.UnexpectedFile?
    ensures Reported(issues + more, path, expected, ps)
  {
    forall i: Issue | i.path == path && !i.UnexpectedFile? ensures Times(issues + more, i) == Times(issues, i) {
      TimesOfConcat(issues, more, i);
      NotIn(more, i);
    }
  }

  lemma {:induction false} NewPathReported(issues: seq<Issue>, more: seq<Issue>, path: Path, expected: seq<Span>, ps: seq<Proposal>)
    requires Reported(more, path, expected, ps)
    requires forall i :: i in issues ==> i.path != path
    ensures Reported(issues + more, path, expected, ps)
  {
    forall i: Issue | i.path == path ensures Times(issues + more, i) == Times(more, i) {
      TimesOfConcat(issues, more, i);
      NotIn(issues, i);
    }
  }

  lemma {:induction false} NextFile(issues: seq<Issue>, more: seq<Issue>, expected: seq<Group<Span>>, k: nat, regular: seq<Group<Proposal>>)
    requires DistinctPaths(expected) && k < |expected| && ReportedSoFar(issues, expected, k, regular)
    requires Reported(more, expected[k].path, expected[k].entries, Lookup(regular, expected[k].path))
    requires About(more, expected[k].path)
    ensures ReportedSoFar(issues + more, expected, k + 1, regular)
  {
    forall i | i in issues ensures i.path != expected[k].path && HasPath(expected[..k + 1], i.path) {
      var j :| 0 <= j < |expected[..k]| && expected[..k][j].path == i.path;
      assert expected[..k + 1][j].path == i.path && expected[j].path == i.path;
    }
    assert expected[..k + 1][k] == expected[k];
    assert HasPath(expected[..k + 1], expected[k].path);
    NewPathReported(issues, more, expected[k].path, expected[k].entries, Lookup(regular, expected[k].path));
    forall i | 0 <= i < k
      ensures Reported(issues + more, expected[i].path, expected[i].entries, Lookup(regular, expected[i].path))
    {
      OtherPathUnchanged(issues, more, expected[i].path, expected[i].entries, Lookup(regular, expected[i].path));
    }
  }

  /** The loop over the expected files. */
  method ReconcileExpected(expected: seq<Group<Span>>, regular: seq<Group<Proposal>>) returns (issues: seq<Issue>)
    requires DistinctPaths(expected)
    ensures ReportedSoFar(issues, expected, |expected|, regular)
    ensures issues == [] <==> forall i :: 0 <= i < |expected| ==> Agrees(expected[i].entries, Lookup(regular, expected[i].path))
  {
    issues := [];
    for k := 0 to |expected|
      invariant ReportedSoFar(issues, expected, k, regular)
      invariant issues == [] <==> forall i :: 0 <= i < k ==> Agrees(expected[i].entries, Lookup(regular, expected[i].path))
    {
      hide Lookup, ReportedSoFar, Agrees, Reported, About, DistinctPaths;
      var path, proposals := expected[k].path, Lookup(regular, expected[k].path);
      var more := ReconcileFile(path, expected[k].entries, proposals);
      ReportedNothingIffAgrees(more, path, expected[k].entries, proposals);
      NextFile(issues, more, expected, k, regular);
      assert issues + more == [] <==> issues == [] && more == [];
      issues := issues + more;
    }
  }

  /** The loop over the proposed regular files. */
  method UnexpectedFiles(expected: seq<Group<Span>>, regular: seq<Group<Proposal>>) returns (issues: seq<Issue>)
    ensures forall i :: i in issues ==> i.UnexpectedFile?
    ensures forall p :: UnexpectedFile(p) in issues <==> HasPath(regular, p) && !HasPath(expected, p)
    ensures DistinctPaths(regular) ==>
              forall p :: Times(issues, UnexpectedFile(p)) == if HasPath(regular, p) && !HasPath(expected, p) then 1 else 0
    ensures issues == [] <==> forall i :: 0 <= i < |regular| ==> HasPath(expected, regular[i].path)
  {
    issues := [];
    ghost var distinct := DistinctPaths(regular);
    forall p ensures Times(issues, UnexpectedFile(p)) == 0 && !HasPath(regular[..0], p) {
      NotIn(issues, UnexpectedFile(p));
    }
    hide Times, HasPath, DistinctPaths;
    for i := 0 to |regular|
      invariant forall i :: i in issues ==> i.UnexpectedFile?
      invariant forall p :: UnexpectedFile(p) in issues <==> HasPath(regular[..i], p) && !HasPath(expected, p)
      invariant distinct ==>
                  forall p :: Times(issues, UnexpectedFile(p)) == if HasPath(regular[..i], p) && !HasPath(expected, p) then 1 else 0
      invariant issues == [] <==> forall j :: 0 <= j < i ==> HasPath(expected, regular[j].path)
    {
      forall p ensures HasPath(regular[..i + 1], p) <==> HasPath(regular[..i], p) || regular[i].path == p {
        HasPathOfLast(regular, i, p);
      }
      forall p ensures Times(issues + [UnexpectedFile(regular[i].path)], UnexpectedFile(p)) ==
                       Times(issues, UnexpectedFile(p)) + if p == regular[i].path then 1 else 0 {
        TimesOfLast(issues, UnexpectedFile(regular[i].path), UnexpectedFile(p));
      }
      if distinct {
        NewPath(regular, i);
      }
      if HasPath(expected, regular[i].path) {
        continue;
      }
      issues := issues + [UnexpectedFile(regular[i].path)];
    }
    assert regular[..|regular|] == regular;
  }

  lemma {:induction false} NewPath<E>(groups: seq<Group<E>>, i: nat)
    requires DistinctPaths(groups) && i < |groups|
    ensures !HasPath(groups[..i], groups[i].path)
  {
    forall j | 0 <= j < |groups[..i]| ensures groups[..i][j].path != groups[i].path {
      assert groups[..i][j] == groups[j];
    }
  }

  lemma {:induction false} HasPathOfLast<E>(groups: seq<Group<E>>, i: nat, p: Path)
    requires i < |groups|
    ensures HasPath(groups[..i + 1], p) <==> HasPath(groups[..i], p) || groups[i].path == p
  {
    if j :| 0 <= j < |groups[..i]| && groups[..i][j].path == p {
      assert groups[..i + 1][j].path == p;
    }
    if HasPath(groups[..i + 1], p) {
      var j :| 0 <= j < |groups[..i + 1]| && groups[..i + 1][j].path == p;
      if j < i {
        assert groups[..i][j].path == p;
      }
    }
    assert groups[..i + 1][i] == groups[i];
  }

  /** The reports about expected files and those about other files do not get in each other's way. */
  lemma {:induction false} BothParts(perFile: seq<Issue>, others: seq<Issue>, expected: seq<Group<Span>>, regular: seq<Group<Proposal>>)
    requires ReportedSoFar(perFile, expected, |expected|, regular) && forall i :: i in others ==> i.UnexpectedFile?
    ensures forall i :: 0 <= i < |expected| ==>
              Reported(perFile + others, expected[i].path, expected[i].entries, Lookup(regular, expected[i].path))
    ensures forall p :: UnexpectedFile(p) in perFile + others <==> UnexpectedFile(p) in others
    ensures forall p :: Times(perFile + others, UnexpectedFile(p)) == Times(others, UnexpectedFile(p))
    ensures forall i :: i in perFile + others && !i.UnexpectedFile? ==> HasPath(expected, i.path)
  {
    assert expected[..|expected|] == expected;
    hide Times, Reported, Lookup, HasPath;
    forall i | 0 <= i < |expected|
      ensures Reported(perFile + others, expected[i].path, expected[i].entries, Lookup(regular, expected[i].path))
    {
      OtherPathUnchanged(perFile, others, expected[i].path, expected[i].entries, Lookup(regular, expected[i].path));
    }
    forall p ensures Times(perFile + others, UnexpectedFile(p)) == Times(others, UnexpectedFile(p)) {
      TimesOfConcat(perFile, others, UnexpectedFile(p));
      NotIn(perFile, UnexpectedFile(p));
    }
  }

  /**
   The reconciliation. For every expected file exactly the differences of the two multisets of
   spans are reported, exactly the other proposed files are reported as unexpected, and there
   are no issues at all iff the change log is clean.
   */
  method Reconcile(expected: seq<Group<Span>>, proposed: seq<Group<Proposal>>, structured: Path -> bool)
    returns (issues: seq<Issue>)
    requires DistinctPaths(expected)
    ensures issues == [] <==> Clean(expected, Regular(proposed, structured))
    ensures forall i :: 0 <= i < |expected| ==>
              Reported(issues, expected[i].path, expected[i].entries, Lookup(Regular(proposed, structured), expected[i].path))
    ensures forall p :: UnexpectedFile(p) in issues <==>
              HasPath(Regular(proposed, structured), p) && !HasPath(expected, p)
    ensures DistinctPaths(proposed) ==>
              forall p :: Times(issues, UnexpectedFile(p)) ==
                          if HasPath(Regular(proposed, structured), p) && !HasPath(expected, p) then 1 else 0
    ensures forall i :: i in issues && !i.UnexpectedFile? ==> HasPath(expected, i.path)
  {
    var regular := Regular(proposed, structured);
    var perFile := ReconcileExpected(expected, regular);
    var others := UnexpectedFiles(expected, regular);
    BothParts(perFile, others, expected, regular);
    issues := perFile + others;
    if DistinctPaths(proposed) {
      RegularKeepsDistinct(proposed, structured);
    }
    hide Times, Reported, ReportedSoFar, Agrees, Lookup, DistinctPaths, Regular, HasPath;
  }
}
