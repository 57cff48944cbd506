/**
 Edit lists as a caller writes them: in any order, to be sorted before they are applied.
 States for whole lists what the line surgery of `LinePatches` guarantees.
 */
module EditLists {
  import opened LinePatches
  import opened Wrappers

  /** Sort by descending first line (ties in list order), then apply to one mutable list. */
  function ApplyDescending<T>(lines: seq<T>, ps: seq<Patch<T>>): seq<T> {
    ApplyInOrder(lines, SortDescending(ps))
  }

  // ---------------------------------------------------------------------------
  // Sorting changes neither side conditions nor the forward pass.

  lemma {:induction false} TextAtFromStarting<T>(ps: seq<Patch<T>>, k: nat)
    ensures TextAt(ps, k) == TextAt(StartingAt(ps, k), k)
  {
    if ps != [] {
      var front, last := ps[..|ps| - 1], ps[|ps| - 1];
      TextAtFromStarting(front, k);
      if last.lo == k {
        Unsnoc(StartingAt(front, k), last);
      } else {
        assert StartingAt(ps, k) == StartingAt(front, k);
      }
    }
  }

  lemma {:induction false} CoveredByMembers<T>(ps: seq<Patch<T>>, qs: seq<Patch<T>>, k: nat)
    requires multiset(ps) == multiset(qs)
    ensures Covered(ps, k) == Covered(qs, k)
  {
    CoveredMeans(ps, k);
    CoveredMeans(qs, k);
    SameMembers(ps, qs);
    SameMembers(qs, ps);
    if Covered(ps, k) {
      var i :| 0 <= i < |ps| && ps[i].lo <= k < ps[i].hi;
      assert ps[i] in qs;
    }
    if Covered(qs, k) {
      var i :| 0 <= i < |qs| && qs[i].lo <= k < qs[i].hi;
      assert qs[i] in ps;
    }
  }

  lemma {:induction false} SameMembers<A>(ps: seq<A>, qs: seq<A>)
    requires multiset(ps) == multiset(qs)
    ensures forall p :: p in ps ==> p in qs
  {
    forall p | p in ps ensures p in qs {
      assert p in multiset(ps);
    }
  }

  lemma {:induction false} SameForwardPass<T>(lines: seq<T>, ps: seq<Patch<T>>, qs: seq<Patch<T>>, k: nat)
    requires multiset(ps) == multiset(qs)
    requires forall j :: TextAt(ps, j) == TextAt(qs, j)
    ensures ForwardPass(lines, ps, k) == ForwardPass(lines, qs, k)
    decreases |lines| - k
  {
    CoveredByMembers(ps, qs, k);
    if k < |lines| {
      SameForwardPass(lines, ps, qs, k + 1);
    }
  }

  lemma {:induction false} SortKeepsMeaning<T>(lines: seq<T>, ps: seq<Patch<T>>)
    ensures SimultaneousEdit(lines, SortDescending(ps)) == SimultaneousEdit(lines, ps)
  {
    SortIsStable(ps);
    forall j ensures TextAt(SortDescending(ps), j) == TextAt(ps, j) {
      TextAtFromStarting(SortDescending(ps), j);
      TextAtFromStarting(ps, j);
    }
    SameForwardPass(lines, SortDescending(ps), ps, 0);
  }

  lemma {:induction false} SortKeepsFit<T>(n: nat, ps: seq<Patch<T>>)
    requires AllFit(n, ps)
    ensures AllFit(n, SortDescending(ps))
  {
    SortIsStable(ps);
    FitsForMembers(n, ps, SortDescending(ps));
  }

  lemma {:induction false} FitsForMembers<T>(n: nat, ps: seq<Patch<T>>, qs: seq<Patch<T>>)
    requires AllFit(n, ps) && multiset(ps) == multiset(qs)
    ensures AllFit(n, qs)
  {
    SameMembers(qs, ps);
    forall i | 0 <= i < |qs| ensures Fits(n, qs[i]) {
      assert qs[i] in ps;
    }
  }

  lemma {:induction false} SortKeepsFresh<T>(ps: seq<Patch<T>>, x: T)
    requires IsFresh(x, ps)
    ensures IsFresh(x, SortDescending(ps))
  {
    SortIsStable(ps);
    var qs := SortDescending(ps);
    SameMembers(qs, ps);
    forall i | 0 <= i < |qs| ensures x !in qs[i].text {
      assert qs[i] in ps;
    }
  }

  /**
   For a list in any order: applying it in place is the simultaneous edit of the original
   lines, for every file of `n` lines, exactly when the sorted list is compatible (for the
   converse some line must occur in no text).
   */
  lemma {:induction false} InPlaceIsSimultaneous<T>(n: nat, ps: seq<Patch<T>>)
    requires AllFit(n, ps)
    ensures Compatible(n, SortDescending(ps)) ==>
              forall lines: seq<T> :: |lines| == n ==> ApplyDescending(lines, ps) == SimultaneousEdit(lines, ps)
    ensures (exists x :: IsFresh(x, ps)) ==>
              (Compatible(n, SortDescending(ps)) <==>
               forall lines: seq<T> :: |lines| == n ==> ApplyDescending(lines, ps) == SimultaneousEdit(lines, ps))
    ensures Compatible(n, SortDescending(ps)) <==>
              var marked := Marked(SortDescending(ps));
              ApplyInOrder(Blank(n), marked) == SimultaneousEdit(Blank(n), marked)
  {
    hide Compatible, IsFresh, ApplyInOrder, SimultaneousEdit;
    SortIsStable(ps);
    SortKeepsFit(n, ps);
    AgreementIffCompatible(n, SortDescending(ps));
    forall lines: seq<T> | |lines| == n ensures SimultaneousEdit(lines, SortDescending(ps)) == SimultaneousEdit(lines, ps) {
      SortKeepsMeaning(lines, ps);
    }
    if x :| IsFresh(x, ps) {
      SortKeepsFresh(ps, x);
      if forall lines: seq<T> :: |lines| == n ==> ApplyDescending(lines, ps) == SimultaneousEdit(lines, ps) {
        forall lines: seq<T> | |lines| == n
          ensures ApplyInOrder(lines, SortDescending(ps)) == SimultaneousEdit(lines, SortDescending(ps))
        {
          assert ApplyDescending(lines, ps) == SimultaneousEdit(lines, ps);
        }
      }
    }
  }

  // ---------------------------------------------------------------------------
  // Edits that keep out of each other's way.

  /** Neither patch starts inside the other's range. */
  ghost predicate Apart<T>(p: Patch<T>, q: Patch<T>) {
    !(p.lo <= q.lo < p.hi) && !(q.lo <= p.lo < q.hi)
  }

  ghost predicate Separate<T>(ps: seq<Patch<T>>) {
    forall i, j :: 0 <= i < j < |ps| ==> Apart(ps[i], ps[j])
  }

  ghost predicate DistinctStarts<T>(ps: seq<Patch<T>>) {
    forall i, j :: 0 <= i < j < |ps| ==> ps[i].lo != ps[j].lo
  }

  lemma {:induction false} TwiceMeansTwoPlaces<A>(s: seq<A>, x: A) returns (i: nat, j: nat)
    requires multiset(s)[x] >= 2
    ensures i < j < |s| && s[i] == s[j] == x
  {
    assert x in multiset(s);
    i :| 0 <= i < |s| && s[i] == x;
    assert s == s[..i] + [x] + s[i + 1..];
    assert multiset(s[..i])[x] + multiset(s[i + 1..])[x] >= 1;
    if x in s[..i] {
      var k :| 0 <= k < i && s[k] == x;
      i, j := k, i;
    } else {
      assert x in multiset(s[i + 1..]);
      var k :| 0 <= k < |s[i + 1..]| && s[i + 1..][k] == x;
      j := i + 1 + k;
    }
  }

  /** Two places of a list can be found again in any permutation of it, in one order or the other. */
  lemma {:induction false} FindPair<A>(ps: seq<A>, qs: seq<A>, i: nat, j: nat) returns (k: nat, l: nat)
    requires multiset(ps) == multiset(qs) && i < j < |qs|
    ensures k < l < |ps|
    ensures (ps[k] == qs[i] && ps[l] == qs[j]) || (ps[k] == qs[j] && ps[l] == qs[i])
  {
    if qs[i] == qs[j] {
      assert qs == qs[..i] + [qs[i]] + qs[i + 1..];
      assert qs[i + 1..][j - i - 1] == qs[i];
      k, l := TwiceMeansTwoPlaces(ps, qs[i]);
    } else {
      SameMembers(qs, ps);
      assert qs[i] in ps && qs[j] in ps;
      k :| 0 <= k < |ps| && ps[k] == qs[i];
      l :| 0 <= l < |ps| && ps[l] == qs[j];
      if l < k {
        k, l := l, k;
      }
    }
  }

  lemma {:induction false} SeparateUnderPermutation<T>(ps: seq<Patch<T>>, qs: seq<Patch<T>>)
    requires multiset(ps) == multiset(qs)
    ensures Separate(ps) ==> Separate(qs)
    ensures DistinctStarts(ps) ==> DistinctStarts(qs)
  {
    forall i, j | 0 <= i < j < |qs|
      ensures Separate(ps) ==> Apart(qs[i], qs[j])
      ensures DistinctStarts(ps) ==> qs[i].lo != qs[j].lo
    {
      var k, l := FindPair(ps, qs, i, j);
    }
  }

  lemma {:induction false} SeparateSortedIsCompatible<T>(n: nat, ps: seq<Patch<T>>)
    requires Separate(ps) && Descending(ps) && AllFit(n, ps)
    ensures Compatible(n, ps)
    ensures ps != [] ==> QuietBelow(ps[..|ps| - 1], ps[|ps| - 1].hi)
  {
    if ps != [] {
      var earlier, p := ps[..|ps| - 1], ps[|ps| - 1];
      SeparateSortedIsCompatible(n, earlier);
      forall i | 0 <= i < |earlier| ensures p.hi <= earlier[i].lo {
        assert Apart(ps[i], ps[|ps| - 1]);
        assert ps[i].lo >= p.lo;
      }
    }
  }

  /** The everyday case: when no edit starts inside another's range, in place is simultaneous. */
  lemma {:induction false} SeparateEditsAreSimultaneous<T>(lines: seq<T>, ps: seq<Patch<T>>)
    requires AllFit(|lines|, ps) && Separate(ps)
    ensures ApplyDescending(lines, ps) == SimultaneousEdit(lines, ps)
  {
    SortIsStable(ps);
    SortKeepsFit(|lines|, ps);
    SeparateUnderPermutation(ps, SortDescending(ps));
    SeparateSortedIsCompatible(|lines|, SortDescending(ps));
    CompatibleAgrees(lines, SortDescending(ps));
    SortKeepsMeaning(lines, ps);
  }

  // ---------------------------------------------------------------------------
  // Conservation of lines and slices in bounds.

  ghost function Gain<T>(ps: seq<Patch<T>>): int {
    if ps == [] then 0
    else Gain(ps[..|ps| - 1]) + |ps[|ps| - 1].text| - (ps[|ps| - 1].hi - ps[|ps| - 1].lo)
  }

  lemma {:induction false} InsertGain<T>(ps: seq<Patch<T>>, p: Patch<T>)
    ensures Gain(Insert(ps, p)) == Gain(ps) + |p.text| - (p.hi - p.lo)
  {
    if ps == [] {
    } else if ps[|ps| - 1].lo >= p.lo {
      Unsnoc(ps, p);
    } else {
      InsertGain(ps[..|ps| - 1], p);
      Unsnoc(Insert(ps[..|ps| - 1], p), ps[|ps| - 1]);
    }
  }

  lemma {:induction false} SortGain<T>(ps: seq<Patch<T>>)
    ensures Gain(SortDescending(ps)) == Gain(ps)
  {
    if ps != [] {
      SortGain(ps[..|ps| - 1]);
      InsertGain(SortDescending(ps[..|ps| - 1]), ps[|ps| - 1]);
    }
  }

  lemma {:induction false} SplicedLength<T>(lines: seq<T>, p: Patch<T>)
    requires p.lo <= p.hi <= |lines|
    ensures |ApplyPatch(lines, p)| == |lines| + |p.text| - (p.hi - p.lo)
  {
  }

  lemma {:induction false} LastSliceInBounds<T>(lines: seq<T>, ps: seq<Patch<T>>)
    requires ps != [] && Separate(ps) && Descending(ps) && AllFit(|lines|, ps)
    ensures ps[|ps| - 1].lo <= ps[|ps| - 1].hi <= |ApplyInOrder(lines, ps[..|ps| - 1])|
  {
    hide ApplyInOrder, QuietBelow, Separate, Descending;
    SeparateSortedIsCompatible(|lines|, ps);
    PrefixUntouched(lines, ps[..|ps| - 1], ps[|ps| - 1].hi);
  }

  lemma {:induction false} SeparateFront<T>(n: nat, ps: seq<Patch<T>>)
    requires ps != [] && Separate(ps) && Descending(ps) && AllFit(n, ps)
    ensures Separate(ps[..|ps| - 1]) && Descending(ps[..|ps| - 1]) && AllFit(n, ps[..|ps| - 1])
  {
  }

  lemma {:induction false} SortedConservation<T>(lines: seq<T>, ps: seq<Patch<T>>)
    requires Separate(ps) && Descending(ps) && AllFit(|lines|, ps)
    ensures |ApplyInOrder(lines, ps)| == |lines| + Gain(ps)
    ensures forall i :: 0 <= i < |ps| ==> ps[i].hi <= |ApplyInOrder(lines, ps[..i])|
  {
    hide Separate, Descending, AllFit, ApplyPatch;
    if ps != [] {
      var earlier, p := ps[..|ps| - 1], ps[|ps| - 1];
      SeparateFront(|lines|, ps);
      SortedConservation(lines, earlier);
      LastSliceInBounds(lines, ps);
      SplicedLength(ApplyInOrder(lines, earlier), p);
      forall i | 0 <= i < |ps| ensures ps[i].hi <= |ApplyInOrder(lines, ps[..i])| {
        if i < |earlier| {
          assert earlier[..i] == ps[..i] && earlier[i] == ps[i];
        }
      }
    }
  }

  /** Separate edits never need Python's clamping, and the line count changes by what they bring and take. */
  lemma {:induction false} LinesAreConserved<T>(lines: seq<T>, ps: seq<Patch<T>>)
    requires AllFit(|lines|, ps) && Separate(ps)
    ensures |ApplyDescending(lines, ps)| == |lines| + Gain(ps)
    ensures var sorted := SortDescending(ps);
            forall i :: 0 <= i < |sorted| ==> sorted[i].hi <= |ApplyInOrder(lines, sorted[..i])|
  {
    SortIsStable(ps);
    SortKeepsFit(|lines|, ps);
    SeparateUnderPermutation(ps, SortDescending(ps));
    SortedConservation(lines, SortDescending(ps));
    SortGain(ps);
  }

  // ---------------------------------------------------------------------------
  // Order independence.

  /** Texts that go in front of the same line may be swapped. */
  ghost predicate TextsCommute<T>(ps: seq<Patch<T>>) {
    forall i, j :: 0 <= i < j < |ps| && ps[i].lo == ps[j].lo ==> ps[i].text + ps[j].text == ps[j].text + ps[i].text
  }

  lemma {:induction false} MembersCommute<T>(ps: seq<Patch<T>>, p: Patch<T>, q: Patch<T>)
    requires TextsCommute(ps) && p in ps && q in ps && p.lo == q.lo
    ensures p.text + q.text == q.text + p.text
  {
    var i :| 0 <= i < |ps| && ps[i] == p;
    var j :| 0 <= j < |ps| && ps[j] == q;
    assert i < j || j < i || p == q;
  }

  lemma {:induction false} TextAtConcat<T>(a: seq<Patch<T>>, b: seq<Patch<T>>, k: nat)
    ensures TextAt(a + b, k) == TextAt(b, k) + TextAt(a, k)
  {
    if b == [] {
      assert a + b == a && TextAt(b, k) == [];
    } else {
      var front, last := b[..|b| - 1], b[|b| - 1];
      assert (a + b)[..|a + b| - 1] == a + front && (a + b)[|a + b| - 1] == last;
      TextAtConcat(a, front, k);
      Associates(if last.lo == k then last.text else [], TextAt(front, k), TextAt(a, k));
    }
  }

  lemma {:induction false} TextAtOne<T>(p: Patch<T>, k: nat)
    ensures TextAt([p], k) == if p.lo == k then p.text else []
  {
    assert [p][..0] == [];
  }

  /** A text that commutes with all others at its line passes all of them. */
  lemma {:induction false} PassesTexts<T>(p: Patch<T>, b: seq<Patch<T>>)
    requires forall q :: q in b && q.lo == p.lo ==> p.text + q.text == q.text + p.text
    ensures p.text + TextAt(b, p.lo) == TextAt(b, p.lo) + p.text
  {
    if b == [] {
      assert p.text + [] == [] + p.text;
    } else {
      var front, last := b[..|b| - 1], b[|b| - 1];
      assert last in b && forall q :: q in front ==> q in b;
      PassesTexts(p, front);
      hide TextAt;
      var rest := TextAt(front, p.lo);
      LastText(b, p.lo);
      if last.lo == p.lo {
        Associates(p.text, last.text, rest);
        Associates(last.text, p.text, rest);
        Associates(last.text, rest, p.text);
      }
    }
  }

  lemma {:induction false} LastText<T>(ps: seq<Patch<T>>, k: nat)
    requires ps != []
    ensures var last := ps[|ps| - 1];
            TextAt(ps, k) == if last.lo == k then last.text + TextAt(ps[..|ps| - 1], k) else TextAt(ps[..|ps| - 1], k)
  {
  }

  /** Taking one patch out of the middle of a list, and putting it at the end. */
  lemma {:induction false} MovedToEnd<T>(a: seq<Patch<T>>, p: Patch<T>, b: seq<Patch<T>>, k: nat)
    requires forall q :: q in b && q.lo == p.lo ==> p.text + q.text == q.text + p.text
    ensures TextAt(a + [p] + b, k) == TextAt(a + b + [p], k)
  {
    TextAtConcat(a + [p], b, k);
    TextAtConcat(a, [p], k);
    TextAtConcat(a + b, [p], k);
    TextAtConcat(a, b, k);
    TextAtOne(p, k);
    hide TextAt;
    if p.lo == k {
      PassesTexts(p, b);
      Associates(TextAt(b, k), p.text, TextAt(a, k));
      Associates(p.text, TextAt(b, k), TextAt(a, k));
    }
  }

  lemma {:induction false} WithoutOne<A>(s: seq<A>, x: A) returns (a: seq<A>, b: seq<A>)
    requires x in s
    ensures s == a + [x] + b && multiset(a + b) == multiset(s) - multiset{x}
  {
    var i :| 0 <= i < |s| && s[i] == x;
    a, b := s[..i], s[i + 1..];
    assert s == a + [x] + b;
    assert multiset(s) == multiset(a) + multiset{x} + multiset(b);
  }

  lemma {:induction false} FrontCommutes<T>(ps: seq<Patch<T>>)
    requires ps != [] && TextsCommute(ps)
    ensures TextsCommute(ps[..|ps| - 1])
  {
  }

  lemma {:induction false} FrontMultiset<A>(s: seq<A>)
    requires s != []
    ensures multiset(s[..|s| - 1]) == multiset(s) - multiset{s[|s| - 1]} && s[|s| - 1] in s
  {
    assert s == s[..|s| - 1] + [s[|s| - 1]];
  }

  /** With commuting texts the order of the list is of no account for what goes in front of a line. */
  lemma {:induction false} CommutingTexts<T>(ps: seq<Patch<T>>, qs: seq<Patch<T>>, k: nat)
    requires TextsCommute(ps) && multiset(ps) == multiset(qs)
    ensures TextAt(qs, k) == TextAt(ps, k)
    decreases |ps|
  {
    if ps == [] {
      assert qs == [] by {
        assert |multiset(qs)| == |qs|;
      }
    } else {
      var front, last := ps[..|ps| - 1], ps[|ps| - 1];
      SameMembers(ps, qs);
      SameMembers(qs, ps);
      FrontMultiset(ps);
      var a, b := WithoutOne(qs, last);
      forall q | q in b && q.lo == last.lo ensures last.text + q.text == q.text + last.text {
        assert q in qs;
        MembersCommute(ps, last, q);
      }
      MovedToEnd(a, last, b, k);
      FrontCommutes(ps);
      CommutingTexts(front, a + b, k);
      hide TextAt, TextsCommute;
      LastText(ps, k);
      LastText(a + b + [last], k);
      assert (a + b + [last])[..|a + b|] == a + b;
    }
  }

  /** Where two lists place texts of different content but equal length at one line only, the forward passes differ. */
  lemma {:induction false} PassDecides<T>(lines: seq<T>, ps: seq<Patch<T>>, qs: seq<Patch<T>>, k: nat, at: nat)
    requires k <= at <= |lines| && forall j :: Covered(ps, j) == Covered(qs, j)
    requires forall j :: j != at ==> TextAt(ps, j) == TextAt(qs, j)
    requires |TextAt(ps, at)| == |TextAt(qs, at)|
    requires ForwardPass(lines, ps, k) == ForwardPass(lines, qs, k)
    ensures TextAt(ps, at) == TextAt(qs, at)
    decreases at - k
  {
    hide TextAt, Covered;
    var here, there := Emitted(lines, ps, k), Emitted(lines, qs, k);
    assert KeptAt(lines, ps, k) == KeptAt(lines, qs, k);
    if k < at {
      SuffixesAgree(here, ForwardPass(lines, ps, k + 1), ForwardPass(lines, qs, k + 1));
      PassDecides(lines, ps, qs, k + 1, at);
    } else {
      assert TextAt(ps, k) == ForwardPass(lines, ps, k)[..|TextAt(ps, k)|];
      assert TextAt(qs, k) == ForwardPass(lines, qs, k)[..|TextAt(qs, k)|];
    }
  }

  lemma {:induction false} Removed<A>(s: seq<A>, k: nat) returns (r: seq<A>)
    requires k < |s|
    ensures r == s[..k] + s[k + 1..] && multiset(s) == multiset(r) + multiset{s[k]}
  {
    r := s[..k] + s[k + 1..];
    assert s == s[..k] + [s[k]] + s[k + 1..];
  }

  lemma {:induction false} TwoMore<A>(rest: seq<A>, x: A, y: A)
    ensures multiset(rest + [x, y]) == multiset(rest) + multiset{x} + multiset{y}
  {
    assert rest + [x, y] == rest + [x] + [y];
  }

  /** The elements at two places, put at the end in one order or the other. */
  lemma {:induction false} TwoToEnd<A>(s: seq<A>, i: nat, j: nat) returns (rest: seq<A>)
    requires i < j < |s|
    ensures multiset(rest + [s[i], s[j]]) == multiset(s) == multiset(rest + [s[j], s[i]])
  {
    var r := Removed(s, j);
    assert r[i] == s[i];
    rest := Removed(r, i);
    TwoMore(rest, s[i], s[j]);
    TwoMore(rest, s[j], s[i]);
  }

  lemma {:induction false} TextAtTwo<T>(rest: seq<Patch<T>>, p: Patch<T>, q: Patch<T>, k: nat)
    ensures TextAt(rest + [p, q], k) == (if q.lo == k then q.text else []) + (if p.lo == k then p.text else []) + TextAt(rest, k)
  {
    assert (rest + [p, q])[..|rest| + 1] == rest + [p] && (rest + [p])[..|rest|] == rest;
    Associates(if q.lo == k then q.text else [], if p.lo == k then p.text else [], TextAt(rest, k));
  }

  /** Swapping two patches of one line changes the forward pass unless their texts commute. */
  lemma {:induction false} SwapDecides<T>(lines: seq<T>, rest: seq<Patch<T>>, p: Patch<T>, q: Patch<T>)
    requires p.lo == q.lo <= |lines|
    requires SimultaneousEdit(lines, rest + [p, q]) == SimultaneousEdit(lines, rest + [q, p])
    ensures p.text + q.text == q.text + p.text
  {
    var pq, qp, at := rest + [p, q], rest + [q, p], p.lo;
    assert multiset(pq) == multiset(rest) + multiset{p, q} == multiset(qp);
    forall j: nat ensures Covered(pq, j) == Covered(qp, j) && (j != at ==> TextAt(pq, j) == TextAt(qp, j)) {
      CoveredByMembers(pq, qp, j);
      TextAtTwo(rest, p, q, j);
      TextAtTwo(rest, q, p, j);
    }
    TextAtTwo(rest, p, q, at);
    TextAtTwo(rest, q, p, at);
    hide TextAt, Covered, ForwardPass;
    PassDecides(lines, pq, qp, 0, at);
    assert q.text + p.text == (q.text + p.text + TextAt(rest, at))[..|p.text| + |q.text|];
    assert p.text + q.text == (p.text + q.text + TextAt(rest, at))[..|p.text| + |q.text|];
  }

  lemma {:induction false} SeparatePermutation<T>(lines: seq<T>, ps: seq<Patch<T>>, qs: seq<Patch<T>>)
    requires AllFit(|lines|, ps) && Separate(ps) && multiset(ps) == multiset(qs)
    ensures AllFit(|lines|, qs) && ApplyDescending(lines, qs) == SimultaneousEdit(lines, qs)
  {
    SeparateUnderPermutation(ps, qs);
    FitsForMembers(|lines|, ps, qs);
    SeparateEditsAreSimultaneous(lines, qs);
  }

  /**
   Exactly when the order of the list does not matter: every permutation of separate edits gives
   the same lines iff the texts of any two edits that start at the same line may be swapped.
   */
  lemma {:induction false} OrderMattersIff<T>(lines: seq<T>, ps: seq<Patch<T>>)
    requires AllFit(|lines|, ps) && Separate(ps)
    ensures (forall qs :: multiset(qs) == multiset(ps) ==> ApplyDescending(lines, qs) == ApplyDescending(lines, ps)) <==>
            TextsCommute(ps)
  {
    hide ApplyDescending, SimultaneousEdit, Separate;
    SeparatePermutation(lines, ps, ps);
    if TextsCommute(ps) {
      forall qs | multiset(qs) == multiset(ps) ensures ApplyDescending(lines, qs) == ApplyDescending(lines, ps) {
        SeparatePermutation(lines, ps, qs);
        SamePass(lines, ps, qs);
      }
    }
    if forall qs :: multiset(qs) == multiset(ps) ==> ApplyDescending(lines, qs) == ApplyDescending(lines, ps) {
      forall i, j | 0 <= i < j < |ps| && ps[i].lo == ps[j].lo ensures ps[i].text + ps[j].text == ps[j].text + ps[i].text {
        var rest := TwoToEnd(ps, i, j);
        SeparatePermutation(lines, ps, rest + [ps[i], ps[j]]);
        SeparatePermutation(lines, ps, rest + [ps[j], ps[i]]);
        assert Fits(|lines|, ps[i]);
        SwapDecides(lines, rest, ps[i], ps[j]);
      }
    }
  }

  lemma {:induction false} SamePass<T>(lines: seq<T>, ps: seq<Patch<T>>, qs: seq<Patch<T>>)
    requires TextsCommute(ps) && multiset(ps) == multiset(qs)
    ensures SimultaneousEdit(lines, qs) == SimultaneousEdit(lines, ps)
  {
    forall k: nat ensures TextAt(qs, k) == TextAt(ps, k) {
      CommutingTexts(ps, qs, k);
    }
    SameForwardPass(lines, qs, ps, 0);
  }

  /** Any permutation of separate edits with distinct first lines gives the same file. */
  lemma {:induction false} OrderDoesNotMatter<T>(lines: seq<T>, ps: seq<Patch<T>>, qs: seq<Patch<T>>)
    requires AllFit(|lines|, ps) && Separate(ps) && DistinctStarts(ps)
    requires multiset(ps) == multiset(qs)
    ensures ApplyDescending(lines, ps) == ApplyDescending(lines, qs)
  {
    hide ApplyDescending, Separate, AllFit;
    assert TextsCommute(ps);
    OrderMattersIff(lines, ps);
  }

  lemma {:induction false} MiddleDecides<T>(front: seq<T>, x: seq<T>, y: seq<T>, back: seq<T>)
    requires |x| == |y|
    ensures front + x + back == front + y + back <==> x == y
  {
    assert x == (front + x + back)[|front|..|front| + |x|];
    assert y == (front + y + back)[|front|..|front| + |y|];
  }

  /** Two insertions in front of the same line: the later one comes out first, and they may be swapped iff their texts commute. */
  lemma {:induction false} SameLineInsertions<T>(lines: seq<T>, at: nat, a: seq<T>, b: seq<T>)
    requires at <= |lines|
    ensures var p, q := Patch(at, at, a), Patch(at, at, b);
            ApplyDescending(lines, [p, q]) == lines[..at] + b + a + lines[at..] &&
            (ApplyDescending(lines, [p, q]) == ApplyDescending(lines, [q, p]) <==> a + b == b + a)
  {
    hide ApplyDescending;
    InsertTwice(lines, at, a, b);
    InsertTwice(lines, at, b, a);
    Associates(lines[..at], b, a);
    Associates(lines[..at], a, b);
    MiddleDecides(lines[..at], b + a, a + b, lines[at..]);
  }

  lemma {:induction false} InsertTwice<T>(lines: seq<T>, at: nat, a: seq<T>, b: seq<T>)
    requires at <= |lines|
    ensures ApplyDescending(lines, [Patch(at, at, a), Patch(at, at, b)]) == lines[..at] + b + a + lines[at..]
  {
    var p, q := Patch(at, at, a), Patch(at, at, b);
    TwoPatches(p, q);
    InOrderTwo(lines, p, q);
    hide SortDescending, ApplyInOrder;
    assert ApplyPatch(lines, p) == lines[..at] + (a + lines[at..]);
  }

  // ---------------------------------------------------------------------------
  // Two edits, spelled out.

  lemma {:induction false} TwoPatches<T>(p: Patch<T>, q: Patch<T>)
    ensures SortDescending([p, q]) == if p.lo >= q.lo then [p, q] else [q, p]
    ensures forall k: nat :: Covered([p, q], k) <==> p.lo <= k < p.hi || q.lo <= k < q.hi
    ensures forall k: nat :: TextAt([p, q], k) == (if q.lo == k then q.text else []) + (if p.lo == k then p.text else [])
  {
    var one := [p];
    assert [p, q][..1] == one && one[..0] == [];
    assert Insert([], p) == one && SortDescending(one[..0]) == [];
    assert SortDescending(one) == one;
    assert Insert(one[..0], q) == [q];
    forall k: nat
      ensures Covered([p, q], k) <==> p.lo <= k < p.hi || q.lo <= k < q.hi
      ensures TextAt([p, q], k) == (if q.lo == k then q.text else []) + (if p.lo == k then p.text else [])
    {
      assert !Covered(one[..0], k) && TextAt(one[..0], k) == [];
      assert Covered(one, k) <==> p.lo <= k < p.hi;
      assert TextAt(one, k) == if p.lo == k then p.text else [];
    }
  }

  lemma {:induction false} InOrderTwo<T>(lines: seq<T>, p: Patch<T>, q: Patch<T>)
    ensures ApplyInOrder(lines, [p, q]) == ApplyPatch(ApplyPatch(lines, p), q)
  {
    var one := [p];
    assert [p, q][..1] == one && one[..0] == [];
    assert ApplyInOrder(lines, one[..0]) == lines;
    assert ApplyInOrder(lines, one) == ApplyPatch(lines, p);
  }

  /** The forward pass over three lines. */
  lemma {:induction false} ForwardAll<T>(lines: seq<T>, ps: seq<Patch<T>>)
    requires |lines| == 3
    ensures SimultaneousEdit(lines, ps) ==
            Emitted(lines, ps, 0) + (Emitted(lines, ps, 1) + (Emitted(lines, ps, 2) + Emitted(lines, ps, 3)))
  {
    assert ForwardPass(lines, ps, 3) == Emitted(lines, ps, 3);
    assert ForwardPass(lines, ps, 2) == Emitted(lines, ps, 2) + ForwardPass(lines, ps, 3);
    assert ForwardPass(lines, ps, 1) == Emitted(lines, ps, 1) + ForwardPass(lines, ps, 2);
  }

  /** A replacement of all three lines and an insertion in front of the second, which lies inside its range. */
  lemma {:induction false} InsertionInRange<T>(a: T, b: T, c: T, x: T, y: T)
    ensures ApplyDescending([a, b, c], [Patch(0, 3, [x]), Patch(1, 1, [y])]) == [x, c]
    ensures SimultaneousEdit([a, b, c], [Patch(0, 3, [x]), Patch(1, 1, [y])]) == [x, y]
  {
    var lines, p, q := [a, b, c], Patch(0, 3, [x]), Patch(1, 1, [y]);
    TwoPatches(p, q);
    InsertionInRangeInPlace(a, b, c, x, y);
    hide TextAt, Covered, SortDescending, ForwardPass, ApplyInOrder;
    ForwardAll(lines, [p, q]);
    assert Emitted(lines, [p, q], 0) == [x];
    assert Emitted(lines, [p, q], 1) == [y];
    assert Emitted(lines, [p, q], 2) == [];
    assert Emitted(lines, [p, q], 3) == [];
  }

  lemma {:induction false} InsertionInRangeInPlace<T>(a: T, b: T, c: T, x: T, y: T)
    ensures ApplyInOrder([a, b, c], [Patch(1, 1, [y]), Patch(0, 3, [x])]) == [x, c]
  {
    hide ApplyInOrder;
    InOrderTwo([a, b, c], Patch(1, 1, [y]), Patch(0, 3, [x]));
    assert ApplyPatch([a, b, c], Patch(1, 1, [y])) == [a, y, b, c];
    assert ApplyPatch([a, y, b, c], Patch(0, 3, [x])) == [x, c];
  }
}
