/**
 Collecting the changed line spans of a branch diff, and why a change log that copies them
 passes the reconciliation.
 */
module SpanCollection {
  import opened Wrappers
  import opened SpanReconciliation

  /** The numbers of a hunk header; an absent count means one line. */
  datatype Hunk = Hunk(oldStart: nat, oldCount: Option<nat>, newStart: nat, newCount: Option<nat>)

  /** A line of the name-status listing: status letter, similarity and path(s); renames and copies name two. */
  datatype DiffLine = DiffLine(kind: char, similarity: string, path: Path, newPath: Option<Path>)

  function CountOf(count: Option<nat>): nat {
    if count.Some? then count.value else 1
  }

  /** New lines if the hunk has any, else the old lines it removed, else nothing. */
  function HunkSpan(h: Hunk): Option<Span> {
    if CountOf(h.newCount) > 0 then Some(Span(h.newStart, h.newStart + CountOf(h.newCount) - 1))
    else if CountOf(h.oldCount) > 0 then Some(Span(h.oldStart, h.oldStart + CountOf(h.oldCount) - 1))
    else None
  }

  function FileSpans(hunks: seq<Hunk>): (r: seq<Span>)
    ensures forall i :: 0 <= i < |r| ==> r[i].first <= r[i].last
    ensures |r| <= |hunks|
  {
    if hunks == [] then []
    else
      var span := HunkSpan(hunks[|hunks| - 1]);
      FileSpans(hunks[..|hunks| - 1]) + if span.Some? then [span.value] else []
  }

  function PathOf(line: DiffLine): Path {
    if line.newPath.Some? then line.newPath.value else line.path
  }

  /** Pure renames and copies and the change log's own artifacts are passed over. */
  predicate Skipped(line: DiffLine, artifact: Path -> bool) {
    (line.kind in {'R', 'C'} && line.similarity == "100") || artifact(PathOf(line))
  }

  function ItemsAt(path: Path, spans: seq<Span>): (r: seq<Item<Span>>)
    ensures |r| == |spans| && forall i :: 0 <= i < |r| ==> r[i] == Item(path, spans[i])
  {
    if spans == [] then [] else ItemsAt(path, spans[..|spans| - 1]) + [Item(path, spans[|spans| - 1])]
  }

  function Collected(lines: seq<DiffLine>, hunks: Path -> seq<Hunk>, artifact: Path -> bool): seq<Item<Span>> {
    if lines == [] then []
    else
      var line := lines[|lines| - 1];
      Collected(lines[..|lines| - 1], hunks, artifact) +
      if Skipped(line, artifact) then [] else ItemsAt(PathOf(line), FileSpans(hunks(PathOf(line))))
  }

  method CollectFileSpans(hunks: seq<Hunk>) returns (spans: seq<Span>)
    ensures spans == FileSpans(hunks)
  {
    spans := [];
    for i := 0 to |hunks|
      invariant spans == FileSpans(hunks[..i])
    {
      assert hunks[..i + 1][..i] == hunks[..i];
      var h := hunks[i];
      var oldCount := if h.oldCount.Some? then h.oldCount.value else 1;
      var newCount := if h.newCount.Some? then h.newCount.value else 1;
      if newCount > 0 {
        spans := spans + [Span(h.newStart, h.newStart + newCount - 1)];
      } else if oldCount > 0 {
        spans := spans + [Span(h.oldStart, h.oldStart + oldCount - 1)];
      }
    }
    assert hunks[..|hunks|] == hunks;
  }

  method CollectBranchDiffEntries(lines: seq<DiffLine>, hunks: Path -> seq<Hunk>, artifact: Path -> bool)
    returns (entries: seq<Item<Span>>)
    ensures entries == Collected(lines, hunks, artifact)
    ensures forall i :: 0 <= i < |entries| ==> entries[i].entry.first <= entries[i].entry.last && !artifact(entries[i].path)
  {
    entries := [];
    for i := 0 to |lines|
      invariant entries == Collected(lines[..i], hunks, artifact)
      invariant forall k :: 0 <= k < |entries| ==> entries[k].entry.first <= entries[k].entry.last && !artifact(entries[k].path)
    {
      assert lines[..i + 1][..i] == lines[..i];
      var path := PathOf(lines[i]);
      if lines[i].kind in {'R', 'C'} && lines[i].similarity == "100" {
        continue;
      }
      if artifact(path) {
        continue;
      }
      var spans := CollectFileSpans(hunks(path));
      entries := entries + ItemsAt(path, spans);
    }
    assert lines[..|lines|] == lines;
  }

  lemma {:induction false} SpansOfHunks(hunks: seq<Hunk>, span: Span)
    ensures span in FileSpans(hunks) <==> exists j :: 0 <= j < |hunks| && HunkSpan(hunks[j]) == Some(span)
  {
    if hunks != [] {
      SpansOfHunks(hunks[..|hunks| - 1], span);
      if j :| 0 <= j < |hunks| - 1 && HunkSpan(hunks[j]) == Some(span) {
        assert hunks[..|hunks| - 1][j] == hunks[j];
      }
    }
  }

  /**
   The lines of a hunk: with the count of new lines absent, exactly the line `newStart`; with a
   positive count, that many from there; with a count of zero the old lines, counted the same
   way. Only a hunk that writes both counts as zero yields nothing.
   */
  lemma {:induction false} HunkLines(h: Hunk)
    ensures h.newCount == None ==> HunkSpan(h) == Some(Span(h.newStart, h.newStart))
    ensures forall n: nat :: h.newCount == Some(n) && n > 0 ==> HunkSpan(h) == Some(Span(h.newStart, h.newStart + n - 1))
    ensures h.newCount == Some(0) && h.oldCount == None ==> HunkSpan(h) == Some(Span(h.oldStart, h.oldStart))
    ensures forall n: nat :: h.newCount == Some(0) && h.oldCount == Some(n) && n > 0 ==>
              HunkSpan(h) == Some(Span(h.oldStart, h.oldStart + n - 1))
    ensures HunkSpan(h) == None <==> h.newCount == Some(0) && h.oldCount == Some(0)
  {
  }

  /** The spans of a file come hunk by hunk, in order. */
  lemma {:induction false} SpansInOrder(a: seq<Hunk>, b: seq<Hunk>)
    ensures FileSpans(a + b) == FileSpans(a) + FileSpans(b)
  {
    hide HunkSpan;
    if b == [] {
      assert a + b == a;
    } else {
      var front, last := b[..|b| - 1], b[|b| - 1];
      assert (a + b)[..|a + b| - 1] == a + front && (a + b)[|a + b| - 1] == last;
      SpansInOrder(a, front);
      Associates(FileSpans(a), FileSpans(front), if HunkSpan(last).Some? then [HunkSpan(last).value] else []);
    }
  }

  lemma {:induction false} SpansOfHunk(h: Hunk)
    ensures FileSpans([h]) == match HunkSpan(h) case Some(span) => [span] case None => []
  {
    assert [h][..0] == [];
  }

  lemma {:induction false} ItemsAtOf(path: Path, spans: seq<Span>, item: Item<Span>)
    ensures item in ItemsAt(path, spans) <==> item.path == path && item.entry in spans
  {
    if item.path == path && item.entry in spans {
      var i :| 0 <= i < |spans| && spans[i] == item.entry;
      assert ItemsAt(path, spans)[i] == item;
    }
  }

  /** Some listed change names the path and is not passed over. */
  ghost predicate Names(lines: seq<DiffLine>, artifact: Path -> bool, path: Path) {
    exists i :: 0 <= i < |lines| && IsFor(lines[i], path) && !IsPure(lines[i]) && !artifact(path)
  }

  /** The last path of the line: the new one where it names two. */
  ghost predicate IsFor(line: DiffLine, path: Path) {
    match line.newPath
    case None => line.path == path
    case Some(newPath) => newPath == path
  }

  /** A rename or copy that changes no line: `R100` or `C100`. */
  ghost predicate IsPure(line: DiffLine) {
    (line.kind == 'R' || line.kind == 'C') && line.similarity == "100"
  }

  lemma {:induction false} PassedOver(line: DiffLine, artifact: Path -> bool, path: Path)
    ensures IsFor(line, path) <==> PathOf(line) == path
    ensures PathOf(line) == path ==> (Skipped(line, artifact) <==> IsPure(line) || artifact(path))
  {
  }

  lemma {:induction false} NamesLast(lines: seq<DiffLine>, artifact: Path -> bool, path: Path)
    requires lines != []
    ensures Names(lines, artifact, path) <==>
            Names(lines[..|lines| - 1], artifact, path) ||
            (!Skipped(lines[|lines| - 1], artifact) && PathOf(lines[|lines| - 1]) == path)
  {
    hide Skipped, PathOf, IsFor, IsPure;
    var front, last := lines[..|lines| - 1], lines[|lines| - 1];
    PassedOver(last, artifact, path);
    if i :| 0 <= i < |front| && IsFor(lines[i], path) && !IsPure(lines[i]) && !artifact(path) {
      assert front[i] == lines[i];
    }
  }

  /** An entry is collected iff some change that is not passed over names its path and a hunk of that file has its lines. */
  lemma {:induction false} CollectedIff(lines: seq<DiffLine>, hunks: Path -> seq<Hunk>, artifact: Path -> bool, item: Item<Span>)
    ensures item in Collected(lines, hunks, artifact) <==>
            Names(lines, artifact, item.path) && item.entry in FileSpans(hunks(item.path))
  {
    hide FileSpans, Names, Skipped, PathOf, ItemsAt;
    if lines == [] {
      assert !Names(lines, artifact, item.path) by {
        NoNames(artifact, item.path);
      }
    } else {
      var last := lines[|lines| - 1];
      CollectedIff(lines[..|lines| - 1], hunks, artifact, item);
      NamesLast(lines, artifact, item.path);
      ItemsAtOf(PathOf(last), FileSpans(hunks(PathOf(last))), item);
    }
  }

  /** The entries come change by change, in order, and those of one change are the spans of its file. */
  lemma {:induction false} CollectedInOrder(a: seq<DiffLine>, b: seq<DiffLine>, hunks: Path -> seq<Hunk>, artifact: Path -> bool)
    ensures Collected(a + b, hunks, artifact) == Collected(a, hunks, artifact) + Collected(b, hunks, artifact)
  {
    hide Skipped, PathOf, FileSpans, ItemsAt;
    if b == [] {
      assert a + b == a;
    } else {
      var front, last := b[..|b| - 1], b[|b| - 1];
      assert (a + b)[..|a + b| - 1] == a + front && (a + b)[|a + b| - 1] == last;
      CollectedInOrder(a, front, hunks, artifact);
      Associates(Collected(a, hunks, artifact), Collected(front, hunks, artifact),
                 if Skipped(last, artifact) then [] else ItemsAt(PathOf(last), FileSpans(hunks(PathOf(last)))));
    }
  }

  lemma {:induction false} CollectedOfChange(line: DiffLine, hunks: Path -> seq<Hunk>, artifact: Path -> bool, path: Path)
    requires IsFor(line, path)
    ensures Collected([line], hunks, artifact) ==
            if IsPure(line) || artifact(path) then [] else ItemsAt(path, FileSpans(hunks(path)))
  {
    assert [line][..0] == [];
  }

  lemma {:induction false} NoNames(artifact: Path -> bool, path: Path)
    ensures !Names([], artifact, path)
  {
  }

  // ---------------------------------------------------------------------------
  // The validator's view of diff entries and of a change log that copies them.

  /** Expected entries: those of regular files. */
  function Expected(entries: seq<Item<Span>>, structured: Path -> bool): seq<Item<Span>> {
    if entries == [] then []
    else
      var last := entries[|entries| - 1];
      Expected(entries[..|entries| - 1], structured) + if structured(last.path) then [] else [last]
  }

  /** A change log entry per diff entry, with the same path and lines; entries without a path are ignored. */
  function Copied(entries: seq<Item<Span>>): seq<Item<Proposal>> {
    if entries == [] then []
    else
      var last := entries[|entries| - 1];
      Copied(entries[..|entries| - 1]) +
      if last.path == "" then [] else [Item(last.path, Proposal(Some(last.entry.first), Some(last.entry.last)))]
  }

  lemma {:induction false} EntriesAtLast<E>(items: seq<Item<E>>, last: Item<E>, p: Path)
    ensures EntriesAt(items + [last], p) == if last.path == p then EntriesAt(items, p) + [last.entry] else EntriesAt(items, p)
  {
    assert (items + [last])[..|items|] == items;
  }

  lemma {:induction false} ExpectedAt(entries: seq<Item<Span>>, structured: Path -> bool, p: Path)
    ensures EntriesAt(Expected(entries, structured), p) == if structured(p) then [] else EntriesAt(entries, p)
  {
    hide EntriesAt;
    if entries == [] {
      NoEntries<Span>(p);
    } else {
      var front, last := entries[..|entries| - 1], entries[|entries| - 1];
      ExpectedAt(front, structured, p);
      assert entries == front + [last];
      EntriesAtLast(front, last, p);
      EntriesAtLast(Expected(front, structured), last, p);
      if structured(last.path) {
        assert Expected(entries, structured) == Expected(front, structured);
      }
    }
  }

  lemma {:induction false} NoEntries<E>(p: Path)
    ensures EntriesAt<E>([], p) == []
  {
  }

  /** The proposals copied from spans are valid, and give the same spans back. */
  lemma {:induction false} CopiedAt(entries: seq<Item<Span>>, p: Path)
    requires p != ""
    requires forall i :: 0 <= i < |entries| ==> entries[i].entry.first <= entries[i].entry.last
    ensures ValidSpans(EntriesAt(Copied(entries), p)) == EntriesAt(entries, p)
    ensures forall i :: 0 <= i < |EntriesAt(Copied(entries), p)| ==> IsValid(EntriesAt(Copied(entries), p)[i])
    ensures |EntriesAt(Copied(entries), p)| == |EntriesAt(entries, p)|
  {
    if entries != [] {
      var front, last := entries[..|entries| - 1], entries[|entries| - 1];
      CopiedAt(front, p);
      if last.path == "" {
        assert Copied(entries) == Copied(front);
        assert EntriesAt(entries, p) == EntriesAt(front, p);
      } else {
        var copy := Item(last.path, Proposal(Some(last.entry.first), Some(last.entry.last)));
        assert Copied(entries)[..|Copied(front)|] == Copied(front) && Copied(entries)[|Copied(front)|] == copy;
        var before := EntriesAt(Copied(front), p);
        if last.path == p {
          assert EntriesAt(Copied(entries), p) == before + [copy.entry];
          assert (before + [copy.entry])[..|before|] == before;
        } else {
          assert EntriesAt(Copied(entries), p) == before;
          assert EntriesAt(entries, p) == EntriesAt(front, p);
        }
      }
    }
  }

  lemma {:induction false} CopiedNowhere(entries: seq<Item<Span>>)
    ensures EntriesAt(Copied(entries), "") == []
  {
    if entries != [] {
      var front, last := entries[..|entries| - 1], entries[|entries| - 1];
      CopiedNowhere(front);
      if last.path == "" {
        assert Copied(entries) == Copied(front);
      } else {
        assert Copied(entries)[..|Copied(front)|] == Copied(front);
      }
    }
  }

  lemma {:induction false} EntriesAtCount<E>(items: seq<Item<E>>, p: Path, e: E)
    ensures multiset(EntriesAt(items, p))[e] == multiset(items)[Item(p, e)]
  {
    if items != [] {
      EntriesAtCount(items[..|items| - 1], p, e);
      assert items == items[..|items| - 1] + [items[|items| - 1]];
    }
  }

  lemma {:induction false} SameEntries(a: seq<Item<Span>>, b: seq<Item<Span>>, p: Path)
    requires multiset(a) == multiset(b)
    ensures multiset(EntriesAt(a, p)) == multiset(EntriesAt(b, p))
    ensures EntriesAt(a, p) == [] <==> EntriesAt(b, p) == []
  {
    var x, y := multiset(EntriesAt(a, p)), multiset(EntriesAt(b, p));
    forall e ensures x[e] == y[e] {
      EntriesAtCount(a, p, e);
      EntriesAtCount(b, p, e);
    }
    assert x == y;
    assert |multiset(EntriesAt(a, p))| == |EntriesAt(a, p)| && |multiset(EntriesAt(b, p))| == |EntriesAt(b, p)|;
  }

  lemma {:induction false} PermutedSpansOrdered(a: seq<Item<Span>>, b: seq<Item<Span>>)
    requires multiset(a) == multiset(b)
    requires forall i :: 0 <= i < |a| ==> a[i].entry.first <= a[i].entry.last
    ensures forall i :: 0 <= i < |b| ==> b[i].entry.first <= b[i].entry.last
  {
    forall i | 0 <= i < |b| ensures b[i].entry.first <= b[i].entry.last {
      assert b[i] in multiset(b);
      assert b[i] in a;
    }
  }

  /** One file of a copied change log. */
  lemma {:induction false} CopyAgreesAt(entries: seq<Item<Span>>, copied: seq<Item<Span>>, p: Path)
    requires multiset(copied) == multiset(entries) && p != ""
    requires forall i :: 0 <= i < |entries| ==> entries[i].entry.first <= entries[i].entry.last
    ensures Agrees(EntriesAt(entries, p), EntriesAt(Copied(copied), p))
    ensures EntriesAt(Copied(copied), p) == [] <==> EntriesAt(entries, p) == []
  {
    PermutedSpansOrdered(entries, copied);
    CopiedAt(copied, p);
    SameEntries(entries, copied, p);
  }

  /**
   The validator accepts the generator: a change log that copies the collected entries in any
   order reconciles cleanly. The guard is only there because entries are arbitrary here: an
   entry with an empty path could not be named in a change log, and Git prints none.
   */
  lemma {:induction false} CopiedChangeLogIsClean(entries: seq<Item<Span>>, copied: seq<Item<Span>>, structured: Path -> bool)
    requires forall i :: 0 <= i < |entries| ==> entries[i].entry.first <= entries[i].entry.last
    requires multiset(copied) == multiset(entries)
    ensures DistinctPaths(GroupByPath(Expected(entries, structured)))
    ensures Clean(GroupByPath(Expected(entries, structured)), Regular(GroupByPath(Copied(copied)), structured)) <==>
            EntriesAt(Expected(entries, structured), "") == []
  {
    GroupsAreEntries(Expected(entries, structured), "");
    if EntriesAt(Expected(entries, structured), "") == [] {
      NamedEntriesAreClean(entries, copied, structured);
    } else {
      NamelessEntryIsMissed(entries, copied, structured);
    }
  }

  lemma {:induction false} NamedEntriesAreClean(entries: seq<Item<Span>>, copied: seq<Item<Span>>, structured: Path -> bool)
    requires forall i :: 0 <= i < |entries| ==> entries[i].entry.first <= entries[i].entry.last
    requires multiset(copied) == multiset(entries)
    requires EntriesAt(Expected(entries, structured), "") == []
    ensures Clean(GroupByPath(Expected(entries, structured)), Regular(GroupByPath(Copied(copied)), structured))
  {
    var expected := GroupByPath(Expected(entries, structured));
    var regular := Regular(GroupByPath(Copied(copied)), structured);
    forall i | 0 <= i < |expected| ensures Agrees(expected[i].entries, Lookup(regular, expected[i].path)) {
      ExpectedGroupAgrees(entries, copied, structured, i);
    }
    forall i | 0 <= i < |regular| ensures HasPath(expected, regular[i].path) {
      ProposedFileIsExpected(entries, copied, structured, regular[i].path);
    }
  }

  lemma {:induction false} ProposedFileIsExpected(entries: seq<Item<Span>>, copied: seq<Item<Span>>, structured: Path -> bool, p: Path)
    requires forall i :: 0 <= i < |entries| ==> entries[i].entry.first <= entries[i].entry.last
    requires multiset(copied) == multiset(entries)
    requires HasPath(Regular(GroupByPath(Copied(copied)), structured), p)
    ensures HasPath(GroupByPath(Expected(entries, structured)), p)
  {
    RegularGroups(GroupByPath(Copied(copied)), structured, p);
    GroupsAreEntries(Copied(copied), p);
    CopiedNowhere(copied);
    CopyAgreesAt(entries, copied, p);
    ExpectedAt(entries, structured, p);
    GroupsAreEntries(Expected(entries, structured), p);
  }

  lemma {:induction false} NamelessEntryIsMissed(entries: seq<Item<Span>>, copied: seq<Item<Span>>, structured: Path -> bool)
    requires EntriesAt(Expected(entries, structured), "") != []
    ensures !Clean(GroupByPath(Expected(entries, structured)), Regular(GroupByPath(Copied(copied)), structured))
  {
    var expected := GroupByPath(Expected(entries, structured));
    GroupsAreEntries(Expected(entries, structured), "");
    CopiedNowhere(copied);
    RegularGroups(GroupByPath(Copied(copied)), structured, "");
    GroupsAreEntries(Copied(copied), "");
    var i :| 0 <= i < |expected| && expected[i].path == "";
    LookupOwn(expected, i);
    assert |multiset(expected[i].entries)| == |expected[i].entries| > 0;
    assert ValidSpans([]) == [];
    assert !Agrees(expected[i].entries, []);
  }

  lemma {:induction false} ExpectedGroupAgrees(entries: seq<Item<Span>>, copied: seq<Item<Span>>, structured: Path -> bool, i: nat)
    requires forall i :: 0 <= i < |entries| ==> entries[i].entry.first <= entries[i].entry.last
    requires multiset(copied) == multiset(entries)
    requires EntriesAt(Expected(entries, structured), "") == []
    requires i < |GroupByPath(Expected(entries, structured))|
    ensures var g := GroupByPath(Expected(entries, structured))[i];
            Agrees(g.entries, Lookup(Regular(GroupByPath(Copied(copied)), structured), g.path))
  {
    var expected := GroupByPath(Expected(entries, structured));
    var p := expected[i].path;
    assert HasPath(expected, p);
    GroupsAreEntries(Expected(entries, structured), p);
    LookupOwn(expected, i);
    ExpectedAt(entries, structured, p);
    CopyAgreesAt(entries, copied, p);
    RegularGroups(GroupByPath(Copied(copied)), structured, p);
    GroupsAreEntries(Copied(copied), p);
  }

  /** Collecting, copying and validating in one go. */
  method GenerateAndValidate(lines: seq<DiffLine>, hunks: Path -> seq<Hunk>, artifact: Path -> bool, structured: Path -> bool)
    returns (issues: seq<Issue>)
    ensures issues == [] <==> EntriesAt(Expected(Collected(lines, hunks, artifact), structured), "") == []
  {
    var entries := CollectBranchDiffEntries(lines, hunks, artifact);
    CopiedChangeLogIsClean(entries, entries, structured);
    issues := Reconcile(GroupByPath(Expected(entries, structured)), GroupByPath(Copied(entries)), structured);
  }
}
