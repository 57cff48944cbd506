/**
 Line patches: the list surgery at the heart of applying deferred edits.

 A patch stands for one edit in zero-based, half-open form. Applying patches one after
 the other to a single mutable list is compared with one forward pass over the original
 lines, and the inputs on which the two agree are characterised exactly.
 */
module LinePatches {
  import opened Wrappers

  /** Replace lines `lo..hi` by `text`; an insertion has `lo == hi`, a removal has no text. */
  datatype Patch<T> = Patch(lo: nat, hi: nat, text: seq<T>)

  ghost predicate Fits<T>(n: nat, p: Patch<T>) {
    p.lo <= p.hi <= n
  }

  ghost predicate AllFit<T>(n: nat, ps: seq<Patch<T>>) {
    forall i :: 0 <= i < |ps| ==> Fits(n, ps[i])
  }

  /** Python's `lines[start:end] = text` for non-negative bounds: both bounds are clamped to the list. */
  function Splice<T>(lines: seq<T>, start: nat, end: nat, text: seq<T>): seq<T> {
    var lo := Min(start, |lines|);
    var hi := if Min(end, |lines|) < lo then lo else Min(end, |lines|);
    lines[..lo] + text + lines[hi..]
  }

  /** Within the list the lines are replaced; a slice that ends before it starts only inserts, and one behind the end appends. */
  lemma {:induction false} SpliceMeans<T>(lines: seq<T>, start: nat, end: nat, text: seq<T>)
    ensures start <= end <= |lines| ==> Splice(lines, start, end, text) == lines[..start] + text + lines[end..]
    ensures start <= |lines| < end ==> Splice(lines, start, end, text) == lines[..start] + text
    ensures end <= start <= |lines| ==> Splice(lines, start, end, text) == lines[..start] + text + lines[start..]
    ensures start >= |lines| ==> Splice(lines, start, end, text) == lines + text
  {
    assert lines[..|lines|] == lines && lines[|lines|..] == [];
    assert lines + text + [] == lines + text;
    if start <= |lines| {
      assert lines[..start] + text + [] == lines[..start] + text;
    }
  }

  function ApplyPatch<T>(lines: seq<T>, p: Patch<T>): seq<T> {
    Splice(lines, p.lo, p.hi, p.text)
  }

  /** The list after applying `ps` from first to last, each to the result of the one before. */
  function ApplyInOrder<T>(lines: seq<T>, ps: seq<Patch<T>>): seq<T> {
    if ps == [] then lines
    else ApplyPatch(ApplyInOrder(lines, ps[..|ps| - 1]), ps[|ps| - 1])
  }

  // ---------------------------------------------------------------------------
  // The processing order: descending by first line, stable.

  ghost predicate Descending<T>(ps: seq<Patch<T>>) {
    forall i, j :: 0 <= i < j < |ps| ==> ps[i].lo >= ps[j].lo
  }

  /** Places `p` after every patch that does not start before it. */
  function Insert<T>(ps: seq<Patch<T>>, p: Patch<T>): seq<Patch<T>> {
    if ps == [] then [p]
    else if ps[|ps| - 1].lo >= p.lo then ps + [p]
    else Insert(ps[..|ps| - 1], p) + [ps[|ps| - 1]]
  }

  /** The stable sort by descending first line. */
  function SortDescending<T>(ps: seq<Patch<T>>): seq<Patch<T>> {
    if ps == [] then []
    else Insert(SortDescending(ps[..|ps| - 1]), ps[|ps| - 1])
  }

  /** The patches of `ps` that start at line `k`, in their order in `ps`. */
  ghost function StartingAt<T>(ps: seq<Patch<T>>, k: nat): seq<Patch<T>> {
    if ps == [] then []
    else StartingAt(ps[..|ps| - 1], k) + (if ps[|ps| - 1].lo == k then [ps[|ps| - 1]] else [])
  }

  lemma {:induction false} InsertKeeps<T>(ps: seq<Patch<T>>, p: Patch<T>)
    ensures multiset(Insert(ps, p)) == multiset(ps) + multiset{p}
    ensures |Insert(ps, p)| == |ps| + 1
  {
    if ps == [] || ps[|ps| - 1].lo >= p.lo {
    } else {
      InsertKeeps(ps[..|ps| - 1], p);
      assert ps == ps[..|ps| - 1] + [ps[|ps| - 1]];
    }
  }

  lemma {:induction false} InsertDescending<T>(ps: seq<Patch<T>>, p: Patch<T>)
    requires Descending(ps)
    ensures Descending(Insert(ps, p))
  {
    if ps == [] || ps[|ps| - 1].lo >= p.lo {
    } else {
      var front, last := ps[..|ps| - 1], ps[|ps| - 1];
      InsertDescending(front, p);
      InsertKeeps(front, p);
      var r := Insert(front, p);
      forall i | 0 <= i < |r| ensures r[i].lo >= last.lo {
        assert r[i] in multiset(r);
        assert r[i] in front || r[i] == p;
      }
    }
  }

  lemma {:induction false} StartingAtLast<T>(ps: seq<Patch<T>>, p: Patch<T>, k: nat)
    ensures StartingAt(ps + [p], k) == if p.lo == k then StartingAt(ps, k) + [p] else StartingAt(ps, k)
  {
    assert (ps + [p])[..|ps|] == ps;
  }

  lemma {:induction false} InsertStable<T>(ps: seq<Patch<T>>, p: Patch<T>, k: nat)
    requires Descending(ps)
    ensures StartingAt(Insert(ps, p), k) == if p.lo == k then StartingAt(ps, k) + [p] else StartingAt(ps, k)
  {
    hide StartingAt;
    if ps == [] || ps[|ps| - 1].lo >= p.lo {
      assert Insert(ps, p) == ps + [p];
      StartingAtLast(ps, p, k);
    } else {
      var front, last := ps[..|ps| - 1], ps[|ps| - 1];
      InsertStable(front, p, k);
      StartingAtLast(Insert(front, p), last, k);
      assert ps == front + [last];
      StartingAtLast(front, last, k);
    }
  }

  lemma {:induction false} SortDescends<T>(ps: seq<Patch<T>>)
    ensures Descending(SortDescending(ps))
  {
    hide Insert;
    if ps != [] {
      SortDescends(ps[..|ps| - 1]);
      InsertDescending(SortDescending(ps[..|ps| - 1]), ps[|ps| - 1]);
    }
  }

  lemma {:induction false} SortKeeps<T>(ps: seq<Patch<T>>)
    ensures multiset(SortDescending(ps)) == multiset(ps)
  {
    hide Insert;
    if ps != [] {
      var front, last := ps[..|ps| - 1], ps[|ps| - 1];
      SortKeeps(front);
      InsertKeeps(SortDescending(front), last);
      assert ps == front + [last];
    }
  }

  lemma {:induction false} SortStableAt<T>(ps: seq<Patch<T>>, k: nat)
    ensures StartingAt(SortDescending(ps), k) == StartingAt(ps, k)
  {
    hide Insert, StartingAt;
    if ps != [] {
      var front, last := ps[..|ps| - 1], ps[|ps| - 1];
      SortStableAt(front, k);
      SortDescends(front);
      InsertStable(SortDescending(front), last, k);
      assert ps == front + [last];
      StartingAtLast(front, last, k);
    }
  }

  /** Sorting loses nothing, orders by descending first line and keeps ties in list order. */
  lemma {:induction false} SortIsStable<T>(ps: seq<Patch<T>>)
    ensures Descending(SortDescending(ps))
    ensures multiset(SortDescending(ps)) == multiset(ps)
    ensures forall k :: StartingAt(SortDescending(ps), k) == StartingAt(ps, k)
  {
    hide SortDescending, Descending, StartingAt;
    SortDescends(ps);
    SortKeeps(ps);
    forall k ensures StartingAt(SortDescending(ps), k) == StartingAt(ps, k) {
      SortStableAt(ps, k);
    }
  }

  // ---------------------------------------------------------------------------
  // The reference meaning: one forward pass over the original lines.

  /** Text placed in front of line `k`: among patches starting there, later ones come first. */
  function TextAt<T>(ps: seq<Patch<T>>, k: nat): seq<T> {
    if ps == [] then []
    else (if ps[|ps| - 1].lo == k then ps[|ps| - 1].text else []) + TextAt(ps[..|ps| - 1], k)
  }

  /** Line `k` lies in the range of some patch. */
  predicate Covered<T>(ps: seq<Patch<T>>, k: nat) {
    ps != [] && (ps[|ps| - 1].lo <= k < ps[|ps| - 1].hi || Covered(ps[..|ps| - 1], k))
  }

  function KeptAt<T>(lines: seq<T>, ps: seq<Patch<T>>, k: nat): seq<T> {
    if k < |lines| && !Covered(ps, k) then [lines[k]] else []
  }

  /** The text placed at gap `k`, then line `k` unless some patch takes it away. */
  function Emitted<T>(lines: seq<T>, ps: seq<Patch<T>>, k: nat): seq<T> {
    TextAt(ps, k) + KeptAt(lines, ps, k)
  }

  function ForwardPass<T>(lines: seq<T>, ps: seq<Patch<T>>, k: nat): seq<T>
    decreases |lines| - k
  {
    if k < |lines| then Emitted(lines, ps, k) + ForwardPass(lines, ps, k + 1)
    else Emitted(lines, ps, k)
  }

  function SimultaneousEdit<T>(lines: seq<T>, ps: seq<Patch<T>>): seq<T> {
    ForwardPass(lines, ps, 0)
  }

  // ---------------------------------------------------------------------------
  // Exactly when in-place application and the forward pass agree.

  ghost predicate Idle<T>(p: Patch<T>) {
    p.text == [] && p.lo >= p.hi
  }

  /** Every patch that does anything starts at line `k` or later. */
  ghost predicate QuietBelow<T>(ps: seq<Patch<T>>, k: nat) {
    forall i :: 0 <= i < |ps| && !Idle(ps[i]) ==> k <= ps[i].lo
  }

  /** The earlier patches add no text, and together with `p` they drop everything from `p` to the end. */
  ghost predicate DropsTheRest<T>(n: nat, earlier: seq<Patch<T>>, p: Patch<T>) {
    (forall i :: 0 <= i < |earlier| ==> earlier[i].text == []) &&
    (forall k :: p.lo <= k < n ==> Covered(earlier, k) || k < p.hi)
  }

  /**
   A test on ranges and on which texts are empty, in processing order: each patch either finds its own lines
   untouched by the patches before it, or wipes out the whole rest of the file.
   */
  ghost predicate Compatible<T>(n: nat, ps: seq<Patch<T>>) {
    ps == [] ||
    var earlier, p := ps[..|ps| - 1], ps[|ps| - 1];
    (Compatible(n, earlier) && QuietBelow(earlier, p.hi)) || DropsTheRest(n, earlier, p)
  }

  lemma {:induction false} IdleDoesNothing<T>(lines: seq<T>, p: Patch<T>)
    requires Idle(p)
    ensures ApplyPatch(lines, p) == lines
  {
  }

  lemma {:induction false} FrontStays<T>(lines: seq<T>, p: Patch<T>, k: nat)
    requires k <= p.lo && k <= |lines|
    ensures k <= |ApplyPatch(lines, p)| && ApplyPatch(lines, p)[..k] == lines[..k]
  {
  }

  lemma {:induction false} PrefixUntouched<T>(lines: seq<T>, ps: seq<Patch<T>>, k: nat)
    requires AllFit(|lines|, ps) && QuietBelow(ps, k) && k <= |lines|
    ensures k <= |ApplyInOrder(lines, ps)|
    ensures ApplyInOrder(lines, ps)[..k] == lines[..k]
  {
    if ps != [] {
      var earlier, p := ps[..|ps| - 1], ps[|ps| - 1];
      assert Idle(p) || k <= p.lo;
      PrefixUntouched(lines, earlier, k);
      hide ApplyPatch, Idle, QuietBelow, AllFit;
      if Idle(p) {
        IdleDoesNothing(ApplyInOrder(lines, earlier), p);
      } else {
        FrontStays(ApplyInOrder(lines, earlier), p, k);
      }
    }
  }

  lemma {:induction false} NoTextBelow<T>(ps: seq<Patch<T>>, k: nat, j: nat)
    requires QuietBelow(ps, k) && j < k
    ensures TextAt(ps, j) == [] && !Covered(ps, j)
  {
    if ps != [] {
      NoTextBelow(ps[..|ps| - 1], k, j);
    }
  }

  lemma {:induction false} CopiesLine<T>(lines: seq<T>, ps: seq<Patch<T>>, k: nat, j: nat)
    requires QuietBelow(ps, k) && j < k <= |lines|
    ensures Emitted(lines, ps, j) == [lines[j]]
  {
    NoTextBelow(ps, k, j);
  }

  lemma {:induction false} LineInFront<T>(lines: seq<T>, j: nat, k: nat, rest: seq<T>)
    requires j < k <= |lines|
    ensures [lines[j]] + (lines[j + 1..k] + rest) == lines[j..k] + rest
  {
  }

  lemma {:induction false} ForwardCopies<T>(lines: seq<T>, ps: seq<Patch<T>>, j: nat, k: nat)
    requires QuietBelow(ps, k) && j <= k <= |lines|
    ensures ForwardPass(lines, ps, j) == lines[j..k] + ForwardPass(lines, ps, k)
    decreases k - j
  {
    hide QuietBelow, Emitted;
    if j < k {
      CopiesLine(lines, ps, k, j);
      ForwardCopies(lines, ps, j + 1, k);
      LineInFront(lines, j, k, ForwardPass(lines, ps, k));
    }
  }

  function Textless<T>(p: Patch<T>): Patch<T> {
    p.(text := [])
  }

  lemma {:induction false} Unsnoc<T>(earlier: seq<Patch<T>>, p: Patch<T>)
    ensures (earlier + [p])[..|earlier|] == earlier
  {
  }

  lemma {:induction false} EmittedWithLast<T>(lines: seq<T>, earlier: seq<Patch<T>>, p: Patch<T>, k: nat)
    ensures Emitted(lines, earlier + [p], k) ==
            (if p.lo == k then p.text else []) + TextAt(earlier, k) + (if p.lo <= k < p.hi then [] else KeptAt(lines, earlier, k))
  {
    Unsnoc(earlier, p);
  }

  /** The last patch, without text, shows at a gap only if the gap lies in its range, where it drops the kept line. */
  lemma {:induction false} EmittedTextless<T>(lines: seq<T>, earlier: seq<Patch<T>>, p: Patch<T>, k: nat)
    ensures p.lo != k ==> Emitted(lines, earlier + [p], k) == Emitted(lines, earlier + [Textless(p)], k)
    ensures p.lo == k ==> Emitted(lines, earlier + [p], k) == p.text + Emitted(lines, earlier + [Textless(p)], k)
    ensures p.hi <= k ==> Emitted(lines, earlier + [Textless(p)], k) == Emitted(lines, earlier, k)
    ensures p.lo <= k < p.hi ==> Emitted(lines, earlier + [Textless(p)], k) == TextAt(earlier, k)
  {
    EmittedWithLast(lines, earlier, p, k);
    EmittedWithLast(lines, earlier, Textless(p), k);
  }

  /** Inside the range of the last patch one line at most is lost, and only where no other patch covers it. */
  lemma {:induction false} EmittedCost<T>(lines: seq<T>, earlier: seq<Patch<T>>, p: Patch<T>, k: nat)
    requires p.lo <= k < p.hi <= |lines|
    ensures |Emitted(lines, earlier + [Textless(p)], k)| + (if Covered(earlier, k) then 0 else 1) == |Emitted(lines, earlier, k)|
  {
    EmittedTextless(lines, earlier, p, k);
  }

  /** Lines from `k` on see the last patch only through the lines it removes. */
  lemma {:induction false} ForwardAfterText<T>(lines: seq<T>, earlier: seq<Patch<T>>, p: Patch<T>, k: nat)
    requires p.lo < k
    ensures ForwardPass(lines, earlier + [p], k) == ForwardPass(lines, earlier + [Textless(p)], k)
    decreases |lines| - k
  {
    hide Emitted;
    EmittedTextless(lines, earlier, p, k);
    if k < |lines| {
      ForwardAfterText(lines, earlier, p, k + 1);
    }
  }

  lemma {:induction false} ForwardAtPatch<T>(lines: seq<T>, earlier: seq<Patch<T>>, p: Patch<T>)
    ensures ForwardPass(lines, earlier + [p], p.lo) == p.text + ForwardPass(lines, earlier + [Textless(p)], p.lo)
  {
    var k := p.lo;
    hide Emitted;
    EmittedTextless(lines, earlier, p, k);
    var here := Emitted(lines, earlier + [Textless(p)], k);
    if k < |lines| {
      ForwardAfterText(lines, earlier, p, k + 1);
      Associates(p.text, here, ForwardPass(lines, earlier + [p], k + 1));
    }
  }

  ghost predicate LastIsLowest<T>(earlier: seq<Patch<T>>, p: Patch<T>) {
    forall i :: 0 <= i < |earlier| ==> p.lo <= earlier[i].lo
  }

  /** What in-place application leaves behind patch `p`. */
  ghost function LeftBehind<T>(lines: seq<T>, earlier: seq<Patch<T>>, p: Patch<T>): seq<T> {
    var now := ApplyInOrder(lines, earlier);
    now[Min(p.hi, |now|)..]
  }

  /** What the forward pass puts behind the text of `p`. */
  ghost function Behind<T>(lines: seq<T>, earlier: seq<Patch<T>>, p: Patch<T>): seq<T> {
    ForwardPass(lines, earlier + [Textless(p)], p.lo)
  }

  lemma {:induction false} StepInPlace<T>(lines: seq<T>, earlier: seq<Patch<T>>, p: Patch<T>)
    requires AllFit(|lines|, earlier) && Fits(|lines|, p) && LastIsLowest(earlier, p)
    ensures p.lo <= |ApplyInOrder(lines, earlier)|
    ensures ApplyInOrder(lines, earlier + [p]) == lines[..p.lo] + p.text + LeftBehind(lines, earlier, p)
  {
    Unsnoc(earlier, p);
    PrefixUntouched(lines, earlier, p.lo);
  }

  lemma {:induction false} StepForward<T>(lines: seq<T>, earlier: seq<Patch<T>>, p: Patch<T>)
    requires AllFit(|lines|, earlier) && Fits(|lines|, p) && LastIsLowest(earlier, p)
    ensures SimultaneousEdit(lines, earlier + [p]) == lines[..p.lo] + p.text + Behind(lines, earlier, p)
  {
    assert QuietBelow(earlier + [p], p.lo);
    ForwardCopies(lines, earlier + [p], 0, p.lo);
    ForwardAtPatch(lines, earlier, p);
  }

  /** A removal costs at most one line per line of its range, and exactly that many only over uncovered lines. */
  lemma {:induction false} RemovalCost<T>(lines: seq<T>, earlier: seq<Patch<T>>, p: Patch<T>, k: nat)
    requires p.lo <= k <= p.hi <= |lines|
    ensures |ForwardPass(lines, earlier, k)| <= |ForwardPass(lines, earlier + [Textless(p)], k)| + p.hi - k
    ensures |ForwardPass(lines, earlier, k)| == |ForwardPass(lines, earlier + [Textless(p)], k)| + p.hi - k
            ==> forall j :: k <= j < p.hi ==> !Covered(earlier, j)
    decreases p.hi - k
  {
    hide Emitted, Covered;
    if k == p.hi {
      PastRange(lines, earlier, p, k);
    } else {
      EmittedCost(lines, earlier, p, k);
      RemovalCost(lines, earlier, p, k + 1);
    }
  }

  lemma {:induction false} PastRange<T>(lines: seq<T>, earlier: seq<Patch<T>>, p: Patch<T>, k: nat)
    requires p.hi <= k
    ensures ForwardPass(lines, earlier + [Textless(p)], k) == ForwardPass(lines, earlier, k)
    decreases |lines| - k
  {
    hide Emitted;
    EmittedTextless(lines, earlier, p, k);
    if k < |lines| {
      PastRange(lines, earlier, p, k + 1);
    }
  }

  /** Clamped in-place slicing never yields more lines than the forward pass, overlaps or not. */
  lemma {:induction false} NeverLonger<T>(lines: seq<T>, ps: seq<Patch<T>>)
    requires AllFit(|lines|, ps) && Descending(ps)
    ensures |ApplyInOrder(lines, ps)| <= |SimultaneousEdit(lines, ps)|
  {
    if ps == [] {
      ForwardCopies(lines, ps, 0, |lines|);
    } else {
      var earlier, p := ps[..|ps| - 1], ps[|ps| - 1];
      assert ps == earlier + [p];
      NeverLonger(lines, earlier);
      StepInPlace(lines, earlier, p);
      StepForward(lines, earlier, p);
      RemovalCost(lines, earlier, p, p.lo);
      ForwardCopies(lines, earlier, 0, p.lo);
    }
  }

  lemma {:induction false} NothingForward<T>(lines: seq<T>, ps: seq<Patch<T>>, k: nat)
    requires k <= |lines|
    ensures |ForwardPass(lines, ps, k)| == 0 <==> forall j :: k <= j <= |lines| ==> |Emitted(lines, ps, j)| == 0
    decreases |lines| - k
  {
    hide Emitted;
    if k < |lines| {
      NothingForward(lines, ps, k + 1);
    }
  }

  lemma {:induction false} TextAtNothing<T>(ps: seq<Patch<T>>, k: nat)
    ensures |TextAt(ps, k)| == 0 <==> forall i :: 0 <= i < |ps| && ps[i].lo == k ==> |ps[i].text| == 0
  {
    if ps != [] {
      var front := ps[..|ps| - 1];
      TextAtNothing(front, k);
      assert forall i :: 0 <= i < |front| ==> ps[i] == front[i];
    }
  }

  /** How many lines the last patch, without text, lets through at a gap. */
  lemma {:induction false} EmittedLength<T>(lines: seq<T>, earlier: seq<Patch<T>>, p: Patch<T>, k: nat)
    ensures |Emitted(lines, earlier + [Textless(p)], k)| ==
            |TextAt(earlier, k)| + if p.lo <= k < p.hi || k >= |lines| || Covered(earlier, k) then 0 else 1
  {
    EmittedWithLast(lines, earlier, Textless(p), k);
  }

  lemma {:induction false} DropsTheRestMeansNothing<T>(lines: seq<T>, earlier: seq<Patch<T>>, p: Patch<T>)
    requires AllFit(|lines|, earlier) && Fits(|lines|, p) && LastIsLowest(earlier, p)
    ensures DropsTheRest(|lines|, earlier, p) <==> |Behind(lines, earlier, p)| == 0
  {
    hide Emitted, ForwardPass, TextAt, Covered;
    var ps := earlier + [Textless(p)];
    NothingForward(lines, ps, p.lo);
    forall j: nat ensures |Emitted(lines, ps, j)| == |TextAt(earlier, j)| + if p.lo <= j < p.hi || j >= |lines| || Covered(earlier, j) then 0 else 1 {
      EmittedLength(lines, earlier, p, j);
    }
    forall j: nat ensures |TextAt(earlier, j)| == 0 <==> forall i :: 0 <= i < |earlier| && earlier[i].lo == j ==> |earlier[i].text| == 0 {
      TextAtNothing(earlier, j);
    }
    if |Behind(lines, earlier, p)| == 0 {
      forall i | 0 <= i < |earlier| ensures earlier[i].text == [] {
        assert |Emitted(lines, ps, earlier[i].lo)| == 0;
      }
      forall k | p.lo <= k < |lines| ensures Covered(earlier, k) || k < p.hi {
        assert |Emitted(lines, ps, k)| == 0;
      }
    }
  }

  lemma {:induction false} RangeVanishes<T>(lines: seq<T>, earlier: seq<Patch<T>>, p: Patch<T>, k: nat)
    requires p.lo <= k <= p.hi <= |lines| && QuietBelow(earlier, p.hi)
    ensures ForwardPass(lines, earlier + [Textless(p)], k) == ForwardPass(lines, earlier, p.hi)
    decreases p.hi - k
  {
    hide Emitted, QuietBelow;
    if k == p.hi {
      PastRange(lines, earlier, p, k);
    } else {
      NoTextBelow(earlier, p.hi, k);
      EmittedTextless(lines, earlier, p, k);
      RangeVanishes(lines, earlier, p, k + 1);
    }
  }

  lemma {:induction false} ClearStep<T>(lines: seq<T>, earlier: seq<Patch<T>>, p: Patch<T>)
    requires AllFit(|lines|, earlier) && Fits(|lines|, p) && QuietBelow(earlier, p.hi)
    requires ApplyInOrder(lines, earlier) == SimultaneousEdit(lines, earlier)
    ensures LeftBehind(lines, earlier, p) == Behind(lines, earlier, p)
  {
    ForwardCopies(lines, earlier, 0, p.hi);
    RangeVanishes(lines, earlier, p, p.lo);
  }

  lemma {:induction false} NoPatches<T>(lines: seq<T>)
    ensures SimultaneousEdit(lines, []) == lines
  {
    ForwardCopies(lines, [], 0, |lines|);
  }

  lemma {:induction false} DropStep<T>(lines: seq<T>, earlier: seq<Patch<T>>, p: Patch<T>)
    requires AllFit(|lines|, earlier) && Fits(|lines|, p) && LastIsLowest(earlier, p) && Descending(earlier)
    requires DropsTheRest(|lines|, earlier, p)
    ensures |LeftBehind(lines, earlier, p)| == 0 && |Behind(lines, earlier, p)| == 0
  {
    hide DropsTheRest, ApplyInOrder, ForwardPass;
    DropsTheRestMeansNothing(lines, earlier, p);
    NeverLonger(lines, earlier);
    ForwardCopies(lines, earlier, 0, p.lo);
    RemovalCost(lines, earlier, p, p.lo);
  }

  /** Sufficiency: compatible patches do in place what one forward pass over the original does. */
  lemma {:induction false} CompatibleAgrees<T>(lines: seq<T>, ps: seq<Patch<T>>)
    requires AllFit(|lines|, ps) && Descending(ps) && Compatible(|lines|, ps)
    ensures ApplyInOrder(lines, ps) == SimultaneousEdit(lines, ps)
  {
    if ps == [] {
      NoPatches(lines);
    } else {
      hide ApplyInOrder, SimultaneousEdit, LeftBehind, Behind, QuietBelow, DropsTheRest;
      var earlier, p := ps[..|ps| - 1], ps[|ps| - 1];
      assert ps == earlier + [p];
      StepInPlace(lines, earlier, p);
      StepForward(lines, earlier, p);
      if DropsTheRest(|lines|, earlier, p) {
        DropStep(lines, earlier, p);
      } else {
        CompatibleAgrees(lines, earlier);
        ClearStep(lines, earlier, p);
      }
    }
  }

  // ---------------------------------------------------------------------------
  // Necessity: on an all-false file with all-true texts, agreement forces compatibility.

  ghost predicate AllAre<T>(s: seq<T>, x: T) {
    forall i :: 0 <= i < |s| ==> s[i] == x
  }

  ghost predicate TextsAreMarked(ps: seq<Patch<bool>>) {
    forall i :: 0 <= i < |ps| ==> AllAre(ps[i].text, true)
  }

  ghost function Marks(s: seq<bool>): nat {
    if s == [] then 0 else Marks(s[..|s| - 1]) + if s[|s| - 1] then 1 else 0
  }

  lemma {:induction false} MarksOfConcat(a: seq<bool>, b: seq<bool>)
    ensures Marks(a + b) == Marks(a) + Marks(b)
  {
    if b == [] {
      assert a + b == a;
    } else {
      assert (a + b)[..|a + b| - 1] == a + b[..|b| - 1];
      MarksOfConcat(a, b[..|b| - 1]);
    }
  }

  lemma {:induction false} MarksOfUniform(s: seq<bool>, x: bool)
    requires AllAre(s, x)
    ensures Marks(s) == if x then |s| else 0
  {
    if s != [] {
      MarksOfUniform(s[..|s| - 1], x);
    }
  }

  lemma {:induction false} MarksOfParts(s: seq<bool>, i: nat, j: nat)
    requires i <= j <= |s|
    ensures Marks(s[..i]) + Marks(s[j..]) <= Marks(s)
  {
    hide Marks;
    MarksOfConcat(s[..j], s[j..]);
    MarksOfConcat(s[..i], s[i..j]);
    assert s[..j] + s[j..] == s && s[..i] + s[i..j] == s[..j];
  }

  lemma {:induction false} SpliceMarks(lines: seq<bool>, start: nat, end: nat, text: seq<bool>)
    ensures Marks(Splice(lines, start, end, text)) <= Marks(lines) + Marks(text)
  {
    hide Marks;
    var lo := Min(start, |lines|);
    var hi := if Min(end, |lines|) < lo then lo else Min(end, |lines|);
    MarksOfParts(lines, lo, hi);
    MarksOfConcat(lines[..lo], text);
    MarksOfConcat(lines[..lo] + text, lines[hi..]);
  }

  /** Lines of text brought by the patches that start at `k` or later. */
  ghost function TextSize<T>(ps: seq<Patch<T>>, k: nat): nat {
    if ps == [] then 0
    else TextSize(ps[..|ps| - 1], k) + if k <= ps[|ps| - 1].lo then |ps[|ps| - 1].text| else 0
  }

  lemma {:induction false} TextSizeSteps<T>(ps: seq<Patch<T>>, k: nat)
    ensures TextSize(ps, k) == |TextAt(ps, k)| + TextSize(ps, k + 1)
  {
    if ps != [] {
      TextSizeSteps(ps[..|ps| - 1], k);
    }
  }

  lemma {:induction false} NoTextBeyond<T>(ps: seq<Patch<T>>, n: nat)
    requires AllFit(n, ps)
    ensures TextSize(ps, n + 1) == 0
  {
    if ps != [] {
      NoTextBeyond(ps[..|ps| - 1], n);
    }
  }

  lemma {:induction false} TextAtMarked(ps: seq<Patch<bool>>, k: nat)
    requires TextsAreMarked(ps)
    ensures AllAre(TextAt(ps, k), true)
  {
    if ps != [] {
      TextAtMarked(ps[..|ps| - 1], k);
    }
  }

  lemma {:induction false} EmittedMarks(lines: seq<bool>, ps: seq<Patch<bool>>, k: nat)
    requires AllAre(lines, false) && TextsAreMarked(ps)
    ensures Marks(Emitted(lines, ps, k)) == |TextAt(ps, k)|
  {
    TextAtMarked(ps, k);
    MarksOfUniform(TextAt(ps, k), true);
    MarksOfUniform(KeptAt(lines, ps, k), false);
    MarksOfConcat(TextAt(ps, k), KeptAt(lines, ps, k));
  }

  lemma {:induction false} ForwardMarks(lines: seq<bool>, ps: seq<Patch<bool>>, k: nat)
    requires AllFit(|lines|, ps) && k <= |lines|
    requires AllAre(lines, false) && TextsAreMarked(ps)
    ensures Marks(ForwardPass(lines, ps, k)) == TextSize(ps, k)
    decreases |lines| - k
  {
    TextSizeSteps(ps, k);
    EmittedMarks(lines, ps, k);
    if k < |lines| {
      ForwardMarks(lines, ps, k + 1);
      MarksOfConcat(Emitted(lines, ps, k), ForwardPass(lines, ps, k + 1));
    } else {
      NoTextBeyond(ps, |lines|);
    }
  }

  lemma {:induction false} InPlaceMarks(lines: seq<bool>, ps: seq<Patch<bool>>)
    requires AllAre(lines, false) && TextsAreMarked(ps)
    ensures Marks(ApplyInOrder(lines, ps)) <= TextSize(ps, 0)
  {
    hide Marks, Splice;
    if ps == [] {
      MarksOfUniform(lines, false);
    } else {
      var earlier, p := ps[..|ps| - 1], ps[|ps| - 1];
      InPlaceMarks(lines, earlier);
      MarksOfUniform(p.text, true);
      SpliceMarks(ApplyInOrder(lines, earlier), p.lo, p.hi, p.text);
    }
  }

  /** If all patches below `h` are insertions and one of them brings text, that text shows above line `h`. */
  lemma {:induction false} InsertionShows(lines: seq<bool>, ps: seq<Patch<bool>>, h: nat) returns (j: nat)
    requires AllFit(|lines|, ps) && Descending(ps) && TextsAreMarked(ps)
    requires forall i :: 0 <= i < |ps| && ps[i].lo < h ==> ps[i].lo == ps[i].hi
    requires exists i :: 0 <= i < |ps| && ps[i].lo < h && ps[i].text != []
    ensures j < h && j < |ApplyInOrder(lines, ps)| && ApplyInOrder(lines, ps)[j]
  {
    var earlier, p := ps[..|ps| - 1], ps[|ps| - 1];
    assert ps == earlier + [p];
    if p.text != [] {
      hide ApplyInOrder, LeftBehind;
      StepInPlace(lines, earlier, p);
      j := p.lo;
    } else {
      var i :| 0 <= i < |ps| && ps[i].lo < h && ps[i].text != [];
      assert earlier[i] == ps[i];
      j := InsertionShows(lines, earlier, h);
      IdleDoesNothing(ApplyInOrder(lines, earlier), p);
    }
  }

  lemma {:induction false} TextSizeFromLowest<T>(ps: seq<Patch<T>>, k: nat)
    requires forall i :: 0 <= i < |ps| ==> k <= ps[i].lo
    ensures TextSize(ps, k) == TextSize(ps, 0)
  {
    if ps != [] {
      TextSizeFromLowest(ps[..|ps| - 1], k);
    }
  }

  /** When the last patch leaves something behind, agreement means no earlier removal started in its range. */
  lemma {:induction false} AgreementSparesRange<T>(lines: seq<T>, earlier: seq<Patch<T>>, p: Patch<T>)
    requires AllFit(|lines|, earlier) && Fits(|lines|, p) && LastIsLowest(earlier, p) && Descending(earlier)
    requires LeftBehind(lines, earlier, p) == Behind(lines, earlier, p) && |Behind(lines, earlier, p)| > 0
    ensures forall i :: 0 <= i < |earlier| && earlier[i].lo < p.hi ==> earlier[i].lo == earlier[i].hi
  {
    NeverLonger(lines, earlier);
    ForwardCopies(lines, earlier, 0, p.lo);
    RemovalCost(lines, earlier, p, p.lo);
    forall i | 0 <= i < |earlier| && earlier[i].lo < p.hi ensures earlier[i].lo == earlier[i].hi {
      CoveredMeans(earlier, earlier[i].lo);
      assert Fits(|lines|, earlier[i]);
    }
  }

  lemma {:induction false} MarkCounts(s: seq<bool>, j: nat)
    requires j < |s| && s[j]
    ensures Marks(s) > 0
  {
    if j < |s| - 1 {
      MarkCounts(s[..|s| - 1], j);
    }
  }

  lemma {:induction false} MarkInFront(now: seq<bool>, j: nat, h: nat)
    requires j < h <= |now| && now[j]
    ensures Marks(now) > Marks(now[h..])
  {
    hide Marks;
    assert now == now[..h] + now[h..];
    MarksOfConcat(now[..h], now[h..]);
    MarkCounts(now[..h], j);
  }

  /** ... and no earlier insertion brought text into it. */
  lemma {:induction false} AgreementIsClear(lines: seq<bool>, earlier: seq<Patch<bool>>, p: Patch<bool>)
    requires AllFit(|lines|, earlier) && Fits(|lines|, p) && LastIsLowest(earlier, p) && Descending(earlier)
    requires AllAre(lines, false) && TextsAreMarked(earlier)
    requires LeftBehind(lines, earlier, p) == Behind(lines, earlier, p) && |Behind(lines, earlier, p)| > 0
    ensures QuietBelow(earlier, p.hi)
  {
    AgreementSparesRange(lines, earlier, p);
    if i :| 0 <= i < |earlier| && earlier[i].lo < p.hi && earlier[i].text != [] {
      var j := InsertionShows(lines, earlier, p.hi);
      MarkInFront(ApplyInOrder(lines, earlier), j, p.hi);
      InPlaceMarks(lines, earlier);
      BehindMarks(lines, earlier, p);
    }
  }

  lemma {:induction false} BehindMarks(lines: seq<bool>, earlier: seq<Patch<bool>>, p: Patch<bool>)
    requires AllFit(|lines|, earlier) && Fits(|lines|, p) && LastIsLowest(earlier, p)
    requires AllAre(lines, false) && TextsAreMarked(earlier)
    ensures Marks(Behind(lines, earlier, p)) == TextSize(earlier, 0)
  {
    var ps := earlier + [Textless(p)];
    ForwardMarks(lines, ps, p.lo);
    TextSizeFromLowest(ps, p.lo);
    Unsnoc(earlier, Textless(p));
  }

  lemma {:induction false} CoveredMeans<T>(ps: seq<Patch<T>>, k: nat)
    ensures Covered(ps, k) <==> exists i :: 0 <= i < |ps| && ps[i].lo <= k < ps[i].hi
  {
    if ps != [] {
      var front := ps[..|ps| - 1];
      CoveredMeans(front, k);
      if i :| 0 <= i < |front| && front[i].lo <= k < front[i].hi {
        assert ps[i] == front[i];
      }
    }
  }

  lemma {:induction false} SuffixesAgree<T>(a: seq<T>, b: seq<T>, c: seq<T>)
    requires a + b == a + c
    ensures b == c
  {
    assert b == (a + b)[|a|..];
  }

  /** Agreement of the whole lists means agreement behind the text of the last patch. */
  lemma {:induction false} AgreementBehind<T>(lines: seq<T>, earlier: seq<Patch<T>>, p: Patch<T>)
    requires AllFit(|lines|, earlier) && Fits(|lines|, p) && LastIsLowest(earlier, p)
    requires ApplyInOrder(lines, earlier + [p]) == SimultaneousEdit(lines, earlier + [p])
    ensures LeftBehind(lines, earlier, p) == Behind(lines, earlier, p)
  {
    hide ApplyInOrder, SimultaneousEdit, LeftBehind, Behind, AllFit, LastIsLowest;
    StepInPlace(lines, earlier, p);
    StepForward(lines, earlier, p);
    SuffixesAgree(lines[..p.lo] + p.text, LeftBehind(lines, earlier, p), Behind(lines, earlier, p));
  }

  lemma {:induction false} FrontOf<T>(n: nat, ps: seq<Patch<T>>)
    requires ps != [] && AllFit(n, ps) && Descending(ps)
    ensures var earlier, p := ps[..|ps| - 1], ps[|ps| - 1];
            ps == earlier + [p] && AllFit(n, earlier) && Fits(n, p) && LastIsLowest(earlier, p) && Descending(earlier)
  {
  }

  lemma {:induction false} AgreementIsCompatible(lines: seq<bool>, ps: seq<Patch<bool>>)
    requires AllFit(|lines|, ps) && Descending(ps)
    requires AllAre(lines, false) && TextsAreMarked(ps)
    requires ApplyInOrder(lines, ps) == SimultaneousEdit(lines, ps)
    ensures Compatible(|lines|, ps)
  {
    if ps != [] {
      var earlier, p := ps[..|ps| - 1], ps[|ps| - 1];
      assert TextsAreMarked(earlier);
      FrontOf(|lines|, ps);
      hide ApplyInOrder, SimultaneousEdit, LeftBehind, Behind, QuietBelow, DropsTheRest, AllFit, Descending, LastIsLowest, TextsAreMarked, AllAre;
      AgreementBehind(lines, earlier, p);
      DropsTheRestMeansNothing(lines, earlier, p);
      if |Behind(lines, earlier, p)| > 0 {
        AgreementIsClear(lines, earlier, p);
        ClearStepBack(lines, earlier, p);
        AgreementIsCompatible(lines, earlier);
      }
    }
  }

  lemma {:induction false} ClearStepBack<T>(lines: seq<T>, earlier: seq<Patch<T>>, p: Patch<T>)
    requires AllFit(|lines|, earlier) && Fits(|lines|, p) && QuietBelow(earlier, p.hi)
    requires LeftBehind(lines, earlier, p) == Behind(lines, earlier, p)
    ensures ApplyInOrder(lines, earlier) == SimultaneousEdit(lines, earlier)
  {
    hide ApplyInOrder, QuietBelow, ForwardPass;
    var now := ApplyInOrder(lines, earlier);
    PrefixUntouched(lines, earlier, p.hi);
    ForwardCopies(lines, earlier, 0, p.hi);
    RangeVanishes(lines, earlier, p, p.lo);
    assert now == now[..p.hi] + now[p.hi..];
  }

  /** The shape of patches: where they act and how much text they bring, with the text itself replaced by marks. */
  ghost function Marked<T>(ps: seq<Patch<T>>): seq<Patch<bool>> {
    seq(|ps|, i requires 0 <= i < |ps| => Patch(ps[i].lo, ps[i].hi, seq(|ps[i].text|, _ => true)))
  }

  lemma {:induction false} CompatibleIsAboutShape<T>(n: nat, ps: seq<Patch<T>>)
    ensures Compatible(n, Marked(ps)) <==> Compatible(n, ps)
    ensures forall k :: Covered(Marked(ps), k) <==> Covered(ps, k)
  {
    if ps != [] {
      var earlier, p := ps[..|ps| - 1], ps[|ps| - 1];
      CompatibleIsAboutShape(n, earlier);
      assert Marked(ps)[..|ps| - 1] == Marked(earlier);
      var p' := Marked(ps)[|ps| - 1];
      assert QuietBelow(Marked(earlier), p'.hi) <==> QuietBelow(earlier, p.hi) by {
        assert forall i :: 0 <= i < |earlier| ==> (Idle(Marked(earlier)[i]) <==> Idle(earlier[i]));
      }
      assert DropsTheRest(n, Marked(earlier), p') <==> DropsTheRest(n, earlier, p) by {
        assert forall i :: 0 <= i < |earlier| ==> (Marked(earlier)[i].text == [] <==> earlier[i].text == []);
      }
    }
  }

  ghost function Blank(n: nat): seq<bool> {
    seq(n, _ => false)
  }

  // ---------------------------------------------------------------------------
  // Both ways of editing commute with any map of the lines.

  ghost function Mapped<A, B>(f: A -> B, s: seq<A>): (r: seq<B>)
    ensures |r| == |s|
  {
    seq(|s|, i requires 0 <= i < |s| => f(s[i]))
  }

  ghost function MappedPatches<A, B>(f: A -> B, ps: seq<Patch<A>>): (r: seq<Patch<B>>)
    ensures |r| == |ps|
  {
    seq(|ps|, i requires 0 <= i < |ps| => Patch(ps[i].lo, ps[i].hi, Mapped(f, ps[i].text)))
  }

  lemma {:induction false} MappedConcat<A, B>(f: A -> B, s: seq<A>, t: seq<A>)
    ensures Mapped(f, s + t) == Mapped(f, s) + Mapped(f, t)
  {
  }

  lemma {:induction false} MappedSlice<A, B>(f: A -> B, s: seq<A>, i: nat, j: nat)
    requires i <= j <= |s|
    ensures Mapped(f, s[i..j]) == Mapped(f, s)[i..j]
  {
  }

  lemma {:induction false} MappedFront<A, B>(f: A -> B, ps: seq<Patch<A>>)
    requires ps != []
    ensures MappedPatches(f, ps)[..|ps| - 1] == MappedPatches(f, ps[..|ps| - 1])
    ensures MappedPatches(f, ps)[|ps| - 1] ==
            Patch(ps[|ps| - 1].lo, ps[|ps| - 1].hi, Mapped(f, ps[|ps| - 1].text))
  {
  }

  lemma {:induction false} MappedSplice<A, B>(f: A -> B, lines: seq<A>, start: nat, end: nat, text: seq<A>)
    ensures Mapped(f, Splice(lines, start, end, text)) == Splice(Mapped(f, lines), start, end, Mapped(f, text))
  {
    hide Mapped;
    var lo := Min(start, |lines|);
    var hi := if Min(end, |lines|) < lo then lo else Min(end, |lines|);
    MappedSlice(f, lines, 0, lo);
    MappedSlice(f, lines, hi, |lines|);
    MappedConcat(f, lines[..lo], text);
    MappedConcat(f, lines[..lo] + text, lines[hi..]);
    assert lines[0..lo] == lines[..lo] && lines[hi..|lines|] == lines[hi..];
    var mapped := Mapped(f, lines);
    assert mapped[0..lo] == mapped[..lo] && mapped[hi..|lines|] == mapped[hi..];
  }

  lemma {:induction false} MappedInPlace<A, B>(f: A -> B, lines: seq<A>, ps: seq<Patch<A>>)
    ensures Mapped(f, ApplyInOrder(lines, ps)) == ApplyInOrder(Mapped(f, lines), MappedPatches(f, ps))
  {
    hide Mapped, MappedPatches, Splice;
    if ps != [] {
      MappedInPlace(f, lines, ps[..|ps| - 1]);
      MappedFront(f, ps);
      var p := ps[|ps| - 1];
      MappedSplice(f, ApplyInOrder(lines, ps[..|ps| - 1]), p.lo, p.hi, p.text);
    }
  }

  lemma {:induction false} MappedTextAt<A, B>(f: A -> B, ps: seq<Patch<A>>, k: nat)
    ensures Mapped(f, TextAt(ps, k)) == TextAt(MappedPatches(f, ps), k)
    ensures Covered(MappedPatches(f, ps), k) <==> Covered(ps, k)
  {
    hide MappedPatches;
    if ps != [] {
      MappedTextAt(f, ps[..|ps| - 1], k);
      MappedFront(f, ps);
      MappedConcat(f, if ps[|ps| - 1].lo == k then ps[|ps| - 1].text else [], TextAt(ps[..|ps| - 1], k));
    }
  }

  lemma {:induction false} MappedEmitted<A, B>(f: A -> B, lines: seq<A>, ps: seq<Patch<A>>, k: nat)
    ensures Mapped(f, Emitted(lines, ps, k)) == Emitted(Mapped(f, lines), MappedPatches(f, ps), k)
  {
    hide MappedPatches, TextAt, Covered;
    MappedTextAt(f, ps, k);
    MappedConcat(f, TextAt(ps, k), KeptAt(lines, ps, k));
  }

  lemma {:induction false} MappedForward<A, B>(f: A -> B, lines: seq<A>, ps: seq<Patch<A>>, k: nat)
    ensures Mapped(f, ForwardPass(lines, ps, k)) == ForwardPass(Mapped(f, lines), MappedPatches(f, ps), k)
    decreases |lines| - k
  {
    hide Mapped, MappedPatches, Emitted;
    MappedEmitted(f, lines, ps, k);
    if k < |lines| {
      MappedForward(f, lines, ps, k + 1);
      MappedConcat(f, Emitted(lines, ps, k), ForwardPass(lines, ps, k + 1));
    }
  }

  /** The line occurs in none of the texts. */
  ghost predicate IsFresh<T>(x: T, ps: seq<Patch<T>>) {
    forall i :: 0 <= i < |ps| ==> x !in ps[i].text
  }

  ghost function Copies<T>(n: nat, x: T): seq<T> {
    seq(n, _ => x)
  }

  /** Asking of each line whether it is another than `x` turns copies of `x` into a blank file and fresh texts into marks. */
  lemma {:induction false} FreshMeansMarked<T>(n: nat, ps: seq<Patch<T>>, x: T)
    requires IsFresh(x, ps)
    ensures Mapped((z: T) => z != x, Copies(n, x)) == Blank(n) && MappedPatches((z: T) => z != x, ps) == Marked(ps)
  {
    var f := (z: T) => z != x;
    forall i | 0 <= i < |ps| ensures MappedPatches(f, ps)[i] == Marked(ps)[i] {
      forall j | 0 <= j < |ps[i].text| ensures ps[i].text[j] != x {
        assert ps[i].text[j] in ps[i].text;
      }
      assert Mapped(f, ps[i].text) == Marked(ps)[i].text;
    }
  }

  /** Agreement on one file of `n` copies of a fresh line already forces compatibility. */
  lemma {:induction false} CopiesDecide<T>(n: nat, ps: seq<Patch<T>>, x: T)
    requires AllFit(n, ps) && Descending(ps) && IsFresh(x, ps)
    requires ApplyInOrder(Copies(n, x), ps) == SimultaneousEdit(Copies(n, x), ps)
    ensures Compatible(n, ps)
  {
    hide Compatible, IsFresh, ApplyInOrder, ForwardPass, Mapped, MappedPatches;
    var f := (z: T) => z != x;
    FreshMeansMarked(n, ps, x);
    MappedInPlace(f, Copies(n, x), ps);
    MappedForward(f, Copies(n, x), ps, 0);
    MarkedDecide(n, ps);
  }

  lemma {:induction false} MarkedDecide<T>(n: nat, ps: seq<Patch<T>>)
    requires AllFit(n, ps) && Descending(ps)
    ensures Compatible(n, ps) <==> ApplyInOrder(Blank(n), Marked(ps)) == SimultaneousEdit(Blank(n), Marked(ps))
  {
    hide Compatible, ApplyInOrder, SimultaneousEdit;
    CompatibleIsAboutShape(n, ps);
    if Compatible(n, ps) {
      CompatibleAgrees(Blank(n), Marked(ps));
    }
    if ApplyInOrder(Blank(n), Marked(ps)) == SimultaneousEdit(Blank(n), Marked(ps)) {
      AgreementIsCompatible(Blank(n), Marked(ps));
    }
  }

  /**
   The exact condition: descending in-place application equals the forward pass for every
   file of `n` lines precisely when the patches are compatible. The converse needs a line that
   occurs in no text, and a file of `n` copies of it then decides; where no such line exists,
   the blank file with marked texts of the same shape does.
   */
  lemma {:induction false} AgreementIffCompatible<T>(n: nat, ps: seq<Patch<T>>)
    requires AllFit(n, ps) && Descending(ps)
    ensures Compatible(n, ps) ==> forall lines: seq<T> :: |lines| == n ==> ApplyInOrder(lines, ps) == SimultaneousEdit(lines, ps)
    ensures (exists x :: IsFresh(x, ps)) ==>
              (Compatible(n, ps) <==>
               forall lines: seq<T> :: |lines| == n ==> ApplyInOrder(lines, ps) == SimultaneousEdit(lines, ps))
    ensures Compatible(n, ps) <==> ApplyInOrder(Blank(n), Marked(ps)) == SimultaneousEdit(Blank(n), Marked(ps))
  {
    hide Compatible, IsFresh, ApplyInOrder, SimultaneousEdit;
    MarkedDecide(n, ps);
    if Compatible(n, ps) {
      forall lines: seq<T> | |lines| == n ensures ApplyInOrder(lines, ps) == SimultaneousEdit(lines, ps) {
        CompatibleAgrees(lines, ps);
      }
    }
    if x :| IsFresh(x, ps) {
      if forall lines: seq<T> :: |lines| == n ==> ApplyInOrder(lines, ps) == SimultaneousEdit(lines, ps) {
        assert |Copies(n, x)| == n;
        CopiesDecide(n, ps, x);
      }
    }
  }

  // ---------------------------------------------------------------------------
  // Files of which nothing is left.

  /** How many lines in-place application leaves of a file of `n` lines. */
  function LinesLeft<T>(n: nat, ps: seq<Patch<T>>): nat {
    if ps == [] then n
    else
      var m, p := LinesLeft(n, ps[..|ps| - 1]), ps[|ps| - 1];
      var lo := Min(p.lo, m);
      var hi := if Min(p.hi, m) < lo then lo else Min(p.hi, m);
      lo + |p.text| + (m - hi)
  }

  lemma {:induction false} LinesLeftCounts<T>(lines: seq<T>, ps: seq<Patch<T>>)
    ensures |ApplyInOrder(lines, ps)| == LinesLeft(|lines|, ps)
  {
    if ps != [] {
      LinesLeftCounts(lines, ps[..|ps| - 1]);
    }
  }

  /** All text placed at gap `k` and later, in a file of `n` lines. */
  function TextFrom<T>(ps: seq<Patch<T>>, k: nat, n: nat): seq<T>
    decreases n - k
  {
    if k < n then TextAt(ps, k) + TextFrom(ps, k + 1, n) else TextAt(ps, k)
  }

  ghost predicate AllCovered<T>(ps: seq<Patch<T>>, k: nat, n: nat) {
    forall j :: k <= j < n ==> Covered(ps, j)
  }

  /** Where every line is taken away, the forward pass yields the texts and nothing else. */
  lemma {:induction false} CoveredLeavesText<T>(lines: seq<T>, ps: seq<Patch<T>>, k: nat)
    requires AllCovered(ps, k, |lines|)
    ensures ForwardPass(lines, ps, k) == TextFrom(ps, k, |lines|)
    decreases |lines| - k
  {
    hide Covered, TextAt;
    assert Emitted(lines, ps, k) == TextAt(ps, k);
    if k < |lines| {
      CoveredLeavesText(lines, ps, k + 1);
    }
  }

  lemma {:induction false} UncoveredLineShows<T>(lines: seq<T>, ps: seq<Patch<T>>, k: nat, j: nat)
    requires k <= j < |lines| && !Covered(ps, j)
    ensures lines[j] in ForwardPass(lines, ps, k)
    decreases j - k
  {
    hide Covered, TextAt;
    if k < j {
      UncoveredLineShows(lines, ps, k + 1, j);
    } else {
      assert KeptAt(lines, ps, k) == [lines[k]];
      assert lines[k] in Emitted(lines, ps, k);
    }
  }
}
