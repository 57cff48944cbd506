/**
 Ratcliff/Obershelp similarity of two character sequences, with the automatic junk
 heuristic that is active when no junk test is given: in a second sequence of 200 or more
 elements, an element making up more than about one percent is "popular" and starts no match.
 */
module SequenceSimilarity {
  import opened Wrappers

  datatype Block = Block(i: nat, j: nat, size: nat)

  function Popular(b: string): set<char> {
    if |b| < 200 then {} else set c | c in b && multiset(b)[c] > |b| / 100 + 1
  }

  /** Length of the common run of unpopular characters that starts at `a[i]` and `b[j]`. */
  function Run(a: string, i: nat, b: string, j: nat, popular: set<char>): (r: nat)
    ensures r > 0 ==> i + r <= |a| && j + r <= |b|
    decreases |a| - i
  {
    if i < |a| && j < |b| && a[i] == b[j] && b[j] !in popular then 1 + Run(a, i + 1, b, j + 1, popular) else 0
  }

  /** Scans the starts `(i, j..)` and keeps the first run longer than everything before it. */
  function ScanRow(a: string, i: nat, b: string, j: nat, popular: set<char>, best: Block): (r: Block)
    ensures r.size >= best.size
    ensures forall l :: j <= l < |b| ==> Run(a, i, b, l, popular) <= r.size
    ensures r == best ||
            (r.i == i && j <= r.j < |b| && r.size > best.size && r.size == Run(a, i, b, r.j, popular) &&
             forall l :: j <= l < r.j ==> Run(a, i, b, l, popular) < r.size)
    decreases |b| - j
  {
    if j >= |b| then best
    else
      var run := Run(a, i, b, j, popular);
      ScanRow(a, i, b, j + 1, popular, if run > best.size then Block(i, j, run) else best)
  }

  function ScanFrom(a: string, i: nat, b: string, popular: set<char>, best: Block): (r: Block)
    ensures r.size >= best.size
    ensures forall k, l :: i <= k < |a| && 0 <= l < |b| ==> Run(a, k, b, l, popular) <= r.size
    ensures r == best ||
            (i <= r.i < |a| && r.j < |b| && r.size > best.size && r.size == Run(a, r.i, b, r.j, popular) &&
             (forall k, l :: i <= k < r.i && 0 <= l < |b| ==> Run(a, k, b, l, popular) < r.size) &&
             (forall l :: 0 <= l < r.j ==> Run(a, r.i, b, l, popular) < r.size))
    decreases |a| - i
  {
    if i >= |a| then best else ScanFrom(a, i + 1, b, popular, ScanRow(a, i, b, 0, popular, best))
  }

  /** The two sequences agree over the block, which lies within both. */
  ghost predicate Matching(a: string, b: string, blk: Block) {
    blk.i + blk.size <= |a| && blk.j + blk.size <= |b| &&
    a[blk.i..blk.i + blk.size] == b[blk.j..blk.j + blk.size]
  }

  /** Grows a block to the left over equal characters, popular or not. */
  function GrowLeft(a: string, b: string, blk: Block): (r: Block)
    requires Matching(a, b, blk)
    ensures Matching(a, b, r) && r.size >= blk.size
    ensures r.i + r.size == blk.i + blk.size && r.j + r.size == blk.j + blk.size
    ensures r.i == 0 || r.j == 0 || a[r.i - 1] != b[r.j - 1]
    decreases blk.i
  {
    if blk.i > 0 && blk.j > 0 && a[blk.i - 1] == b[blk.j - 1] then
      assert a[blk.i - 1..blk.i + blk.size] == [a[blk.i - 1]] + a[blk.i..blk.i + blk.size];
      assert b[blk.j - 1..blk.j + blk.size] == [b[blk.j - 1]] + b[blk.j..blk.j + blk.size];
      GrowLeft(a, b, Block(blk.i - 1, blk.j - 1, blk.size + 1))
    else blk
  }

  function GrowRight(a: string, b: string, blk: Block): (r: Block)
    requires Matching(a, b, blk)
    ensures Matching(a, b, r) && r.size >= blk.size && r.i == blk.i && r.j == blk.j
    ensures r.i + r.size == |a| || r.j + r.size == |b| || a[r.i + r.size] != b[r.j + r.size]
    decreases |a| - (blk.i + blk.size)
  {
    var m, n := blk.i + blk.size, blk.j + blk.size;
    if m < |a| && n < |b| && a[m] == b[n] then
      assert a[blk.i..m + 1] == a[blk.i..m] + [a[m]];
      assert b[blk.j..n + 1] == b[blk.j..n] + [b[n]];
      GrowRight(a, b, blk.(size := blk.size + 1))
    else blk
  }

  lemma {:induction false} RunMatches(a: string, i: nat, b: string, j: nat, popular: set<char>)
    requires i <= |a| && j <= |b|
    ensures Matching(a, b, Block(i, j, Run(a, i, b, j, popular)))
    decreases |a| - i
  {
    var r := Run(a, i, b, j, popular);
    if r > 0 {
      RunMatches(a, i + 1, b, j + 1, popular);
      assert a[i..i + r] == [a[i]] + a[i + 1..i + r];
      assert b[j..j + r] == [b[j]] + b[j + 1..j + r];
    }
  }

  /** The longest unpopular run, earliest in `a` and then in `b`, grown on both sides. */
  function LongestBlock(a: string, b: string, popular: set<char>): (r: Block)
    ensures Matching(a, b, r)
  {
    var seed := ScanFrom(a, 0, b, popular, Block(0, 0, 0));
    RunMatches(a, seed.i, b, seed.j, popular);
    GrowRight(a, b, GrowLeft(a, b, seed))
  }

  /** A way to pick a common block of any two sequences; the empty block when there is none to use. */
  type Chooser = (string, string) -> Block

  ghost predicate PicksMatching(choose: Chooser) {
    forall a, b :: Matching(a, b, choose(a, b))
  }

  /** Total size of the matching blocks: the chosen one, then recursively left and right of it. */
  function BlockTotal(a: string, b: string, choose: Chooser): nat
    requires PicksMatching(choose)
    decreases |a|
  {
    var blk := choose(a, b);
    assert Matching(a, b, blk);
    if blk.size == 0 then 0
    else
      BlockTotal(a[..blk.i], b[..blk.j], choose) + blk.size +
      BlockTotal(a[blk.i + blk.size..], b[blk.j + blk.size..], choose)
  }

  function Longest(popular: set<char>): (choose: Chooser)
    ensures PicksMatching(choose)
  {
    (a, b) => LongestBlock(a, b, popular)
  }

  function Matches(a: string, b: string): nat {
    BlockTotal(a, b, Longest(Popular(b)))
  }

  function Share(matches: nat, total: nat): real {
    if total == 0 then 1.0 else 2.0 * matches as real / total as real
  }

  function Ratio(a: string, b: string): real {
    Share(Matches(a, b), |a| + |b|)
  }

  /** The cheap upper estimate: characters in common, counted with multiplicity but not with order. */
  function QuickRatio(a: string, b: string): real {
    Share(|multiset(a) * multiset(b)|, |a| + |b|)
  }

  // ---------------------------------------------------------------------------

  lemma {:induction false} RunCoversBlock(a: string, b: string, blk: Block, popular: set<char>)
    requires Matching(a, b, blk)
    requires forall k :: blk.j <= k < blk.j + blk.size ==> b[k] !in popular
    ensures Run(a, blk.i, b, blk.j, popular) >= blk.size
    decreases blk.size
  {
    if blk.size > 0 {
      assert a[blk.i] == a[blk.i..blk.i + blk.size][0] == b[blk.j];
      var next := Block(blk.i + 1, blk.j + 1, blk.size - 1);
      assert a[next.i..next.i + next.size] == a[blk.i..blk.i + blk.size][1..];
      assert b[next.j..next.j + next.size] == b[blk.j..blk.j + blk.size][1..];
      RunCoversBlock(a, b, next, popular);
    }
  }

  /** No common block without popular characters is longer than the chosen one. */
  lemma {:induction false} LongestBlockIsLongest(a: string, b: string, blk: Block, popular: set<char>)
    requires Matching(a, b, blk)
    requires forall k :: blk.j <= k < blk.j + blk.size ==> b[k] !in popular
    ensures blk.size <= LongestBlock(a, b, popular).size
  {
    RunCoversBlock(a, b, blk, popular);
  }

  lemma {:induction false} CommonPartsAddUp(a1: string, x: string, a2: string, b1: string, b2: string)
    ensures |multiset(a1) * multiset(b1)| + |x| + |multiset(a2) * multiset(b2)|
            <= |multiset(a1 + x + a2) * multiset(b1 + x + b2)|
  {
    var small := multiset(a1) * multiset(b1) + multiset(x) + multiset(a2) * multiset(b2);
    var large := multiset(a1 + x + a2) * multiset(b1 + x + b2);
    assert small <= large;
    assert large == small + (large - small);
  }

  lemma {:induction false} SplitAtBlock(a: string, b: string, blk: Block)
    requires Matching(a, b, blk)
    ensures var x := a[blk.i..blk.i + blk.size];
            |x| == blk.size &&
            a == a[..blk.i] + x + a[blk.i + blk.size..] && b == b[..blk.j] + x + b[blk.j + blk.size..]
  {
    assert b == b[..blk.j] + b[blk.j..blk.j + blk.size] + b[blk.j + blk.size..];
  }

  /** Whatever blocks are chosen, they never exceed what the two sequences have in common as multisets. */
  lemma {:induction false} BlocksWithinCommon(a: string, b: string, choose: Chooser)
    requires PicksMatching(choose)
    ensures BlockTotal(a, b, choose) <= |multiset(a) * multiset(b)|
    decreases |a|
  {
    var blk := choose(a, b);
    assert Matching(a, b, blk);
    if blk.size > 0 {
      var a1, a2, b1, b2 := a[..blk.i], a[blk.i + blk.size..], b[..blk.j], b[blk.j + blk.size..];
      BlocksWithinCommon(a1, b1, choose);
      BlocksWithinCommon(a2, b2, choose);
      SplitAtBlock(a, b, blk);
      CommonPartsAddUp(a1, a[blk.i..blk.i + blk.size], a2, b1, b2);
    }
  }

  lemma {:induction false} CommonWithinBoth(a: string, b: string)
    ensures |multiset(a) * multiset(b)| <= |a| && |multiset(a) * multiset(b)| <= |b|
  {
    var common := multiset(a) * multiset(b);
    assert multiset(a) == common + (multiset(a) - common);
    assert multiset(b) == common + (multiset(b) - common);
    assert |multiset(a)| == |a| && |multiset(b)| == |b|;
  }

  lemma {:induction false} ShareGrows(m: nat, n: nat, total: nat)
    requires m <= n && 2 * n <= total
    ensures 0.0 <= Share(m, total) <= Share(n, total) <= 1.0
    ensures Share(m, total) == 1.0 <==> 2 * m == total || total == 0
  {
    if total > 0 {
      var t, x, y := total as real, 2.0 * m as real, 2.0 * n as real;
      QuotientWithin(x, t);
      QuotientWithin(y, t);
      DivideOrder(x, y, t);
    }
  }

  lemma {:induction false} QuotientWithin(x: real, t: real)
    requires 0.0 <= x <= t && t > 0.0
    ensures 0.0 <= x / t <= 1.0 && (x / t == 1.0 <==> x == t)
  {
    var q := x / t;
    assert q * t == x;
  }

  lemma {:induction false} DivideOrder(x: real, y: real, t: real)
    requires t > 0.0 && x <= y
    ensures x / t <= y / t
  {
    var d := (y - x) / t;
    assert y / t == x / t + d;
    assert d >= 0.0;
  }

  /** The exact ratio lies between zero and the quick estimate, and the estimate at most one. */
  lemma {:induction false} RatioWithinQuickRatio(a: string, b: string)
    ensures 0.0 <= Ratio(a, b) <= QuickRatio(a, b) <= 1.0
  {
    hide Share, BlockTotal, Popular, Longest;
    BlocksWithinCommon(a, b, Longest(Popular(b)));
    CommonWithinBoth(a, b);
    ShareGrows(Matches(a, b), |multiset(a) * multiset(b)|, |a| + |b|);
  }

  lemma {:induction false} BlocksWithinBoth(a: string, b: string, choose: Chooser)
    requires PicksMatching(choose)
    ensures BlockTotal(a, b, choose) <= |a| && BlockTotal(a, b, choose) <= |b|
  {
    BlocksWithinCommon(a, b, choose);
    CommonWithinBoth(a, b);
  }

  /** Only equal sequences can be matched completely. */
  lemma {:induction false} FullMatchIsEqual(a: string, b: string, choose: Chooser)
    requires PicksMatching(choose)
    requires BlockTotal(a, b, choose) == |a| == |b|
    ensures a == b
    decreases |a|
  {
    var blk := choose(a, b);
    assert Matching(a, b, blk);
    if blk.size > 0 {
      var a1, a2, b1, b2 := a[..blk.i], a[blk.i + blk.size..], b[..blk.j], b[blk.j + blk.size..];
      BlocksWithinBoth(a1, b1, choose);
      BlocksWithinBoth(a2, b2, choose);
      FullMatchIsEqual(a1, b1, choose);
      FullMatchIsEqual(a2, b2, choose);
      SplitAtBlock(a, b, blk);
    }
  }

  // ---------------------------------------------------------------------------
  // What the matches are: blocks in order that leave no unpopular character unmatched in a gap.

  /** How often the character occurs. */
  function Occurrences(s: string, c: char): nat {
    if s == "" then 0 else Occurrences(s[1..], c) + if s[0] == c then 1 else 0
  }

  lemma {:induction false} OccurrencesCount(s: string, c: char)
    ensures Occurrences(s, c) == multiset(s)[c]
  {
    if s != "" {
      OccurrencesCount(s[1..], c);
      assert s == [s[0]] + s[1..];
    }
  }

  /** Popular characters only exist in sequences of 200 or more, and occur more often there than once and one percent. */
  lemma {:induction false} PopularMeans(b: string, c: char)
    ensures c in Popular(b) <==> |b| >= 200 && Occurrences(b, c) > 1 + |b| / 100
  {
    OccurrencesCount(b, c);
    assert c in b <==> c in multiset(b);
  }

  ghost predicate AllMatching(a: string, b: string, blocks: seq<Block>) {
    forall n :: 0 <= n < |blocks| ==> blocks[n].size > 0 && Matching(a, b, blocks[n])
  }

  ghost predicate Increasing(blocks: seq<Block>) {
    forall m, n :: 0 <= m < n < |blocks| ==>
      blocks[m].i + blocks[m].size <= blocks[n].i && blocks[m].j + blocks[m].size <= blocks[n].j
  }

  /** Every block is a common one, and they follow each other in both sequences. */
  ghost predicate InSequence(a: string, b: string, blocks: seq<Block>) {
    AllMatching(a, b, blocks) && Increasing(blocks)
  }

  /** Where gap `n` begins, behind block `n - 1`, in both sequences. */
  function GapStart(blocks: seq<Block>, n: nat): (nat, nat)
    requires n <= |blocks|
  {
    if n == 0 then (0, 0) else (blocks[n - 1].i + blocks[n - 1].size, blocks[n - 1].j + blocks[n - 1].size)
  }

  /** Where gap `n` ends, in front of block `n`, in sequences of lengths `la` and `lb`. */
  function GapEnd(la: nat, lb: nat, blocks: seq<Block>, n: nat): (nat, nat)
    requires n <= |blocks|
  {
    if n == |blocks| then (la, lb) else (blocks[n].i, blocks[n].j)
  }

  /** The two stretches have no unpopular character in common. */
  ghost predicate NothingCommon(a: string, b: string, from: (nat, nat), to: (nat, nat), popular: set<char>) {
    forall k, l :: from.0 <= k < to.0 && k < |a| && from.1 <= l < to.1 && l < |b| && a[k] == b[l] ==> b[l] in popular
  }

  ghost predicate GapsAreBare(a: string, b: string, blocks: seq<Block>, popular: set<char>) {
    forall n: nat :: n <= |blocks| ==> NothingCommon(a, b, GapStart(blocks, n), GapEnd(|a|, |b|, blocks, n), popular)
  }

  function TotalSize(blocks: seq<Block>): nat {
    if blocks == [] then 0 else TotalSize(blocks[..|blocks| - 1]) + blocks[|blocks| - 1].size
  }

  lemma {:induction false} TotalOfConcat(x: seq<Block>, y: seq<Block>)
    ensures TotalSize(x + y) == TotalSize(x) + TotalSize(y)
  {
    if y == [] {
      assert x + y == x;
    } else {
      assert (x + y)[..|x + y| - 1] == x + y[..|y| - 1];
      TotalOfConcat(x, y[..|y| - 1]);
    }
  }

  /** The same blocks in longer sequences, `di` and `dj` further to the right. */
  function Shifted(blocks: seq<Block>, di: nat, dj: nat): (r: seq<Block>)
    ensures |r| == |blocks|
    ensures TotalSize(r) == TotalSize(blocks)
  {
    if blocks == [] then []
    else
      var front, last := Shifted(blocks[..|blocks| - 1], di, dj), blocks[|blocks| - 1];
      var r := front + [Block(last.i + di, last.j + dj, last.size)];
      assert r[..|r| - 1] == front;
      r
  }

  lemma {:induction false} ShiftedAt(blocks: seq<Block>, di: nat, dj: nat, n: nat)
    requires n < |blocks|
    ensures Shifted(blocks, di, dj)[n] == Block(blocks[n].i + di, blocks[n].j + dj, blocks[n].size)
  {
    if n < |blocks| - 1 {
      assert blocks[..|blocks| - 1][n] == blocks[n];
      ShiftedAt(blocks[..|blocks| - 1], di, dj, n);
    }
  }

  /** Where the longest block is empty the sequences have no unpopular character in common. */
  lemma {:induction false} EmptyMeansBare(a: string, b: string, popular: set<char>)
    requires LongestBlock(a, b, popular).size == 0
    ensures NothingCommon(a, b, (0, 0), (|a|, |b|), popular)
  {
    hide LongestBlock;
    forall k, l | 0 <= k < |a| && 0 <= l < |b| && a[k] == b[l] ensures b[l] in popular {
      if b[l] !in popular {
        assert a[k..k + 1] == [a[k]] == b[l..l + 1];
        LongestBlockIsLongest(a, b, Block(k, l, 1), popular);
      }
    }
  }

  lemma {:induction false} MatchingInFront(a: string, b: string, i: nat, j: nat, blk: Block)
    requires i <= |a| && j <= |b| && Matching(a[..i], b[..j], blk)
    ensures Matching(a, b, blk)
  {
    assert a[..i][blk.i..blk.i + blk.size] == a[blk.i..blk.i + blk.size];
    assert b[..j][blk.j..blk.j + blk.size] == b[blk.j..blk.j + blk.size];
  }

  lemma {:induction false} MatchingBehind(a: string, b: string, i: nat, j: nat, blk: Block)
    requires i <= |a| && j <= |b| && Matching(a[i..], b[j..], blk)
    ensures Matching(a, b, Block(blk.i + i, blk.j + j, blk.size))
  {
    assert a[i..][blk.i..blk.i + blk.size] == a[blk.i + i..blk.i + i + blk.size];
    assert b[j..][blk.j..blk.j + blk.size] == b[blk.j + j..blk.j + j + blk.size];
  }

  function Joined(left: seq<Block>, blk: Block, right: seq<Block>): seq<Block> {
    left + [blk] + right
  }

  /** Block `n` of a block list with `blk` in the middle. */
  lemma {:induction false} BlockAt(left: seq<Block>, blk: Block, right: seq<Block>, n: nat)
    requires n < |left| + 1 + |right|
    ensures |Joined(left, blk, right)| == |left| + 1 + |right|
    ensures Joined(left, blk, right)[n] == if n < |left| then left[n] else if n == |left| then blk else right[n - |left| - 1]
  {
  }

  ghost predicate EndBefore(blocks: seq<Block>, i: nat, j: nat) {
    forall n :: 0 <= n < |blocks| ==> blocks[n].i + blocks[n].size <= i && blocks[n].j + blocks[n].size <= j
  }

  ghost predicate StartBehind(blocks: seq<Block>, i: nat, j: nat) {
    forall n :: 0 <= n < |blocks| ==> i <= blocks[n].i && j <= blocks[n].j
  }

  lemma {:induction false} LeftMatches(a: string, b: string, i: nat, j: nat, left: seq<Block>)
    requires i <= |a| && j <= |b| && AllMatching(a[..i], b[..j], left)
    ensures AllMatching(a, b, left)
    ensures EndBefore(left, i, j)
  {
    WithinEnds(a[..i], b[..j], left);
    hide Matching;
    forall n | 0 <= n < |left| ensures Matching(a, b, left[n]) {
      MatchingInFront(a, b, i, j, left[n]);
    }
  }

  lemma {:induction false} RightMatches(a: string, b: string, i: nat, j: nat, right: seq<Block>)
    requires i <= |a| && j <= |b| && AllMatching(a[i..], b[j..], right)
    ensures AllMatching(a, b, Shifted(right, i, j))
  {
    hide Matching, Shifted;
    forall n | 0 <= n < |right| ensures var blk := Shifted(right, i, j)[n]; blk.size > 0 && Matching(a, b, blk) {
      ShiftedAt(right, i, j, n);
      MatchingBehind(a, b, i, j, right[n]);
    }
  }

  lemma {:induction false} AllJoinedMatch(a: string, b: string, left: seq<Block>, blk: Block, right: seq<Block>)
    requires AllMatching(a, b, left) && Matching(a, b, blk) && blk.size > 0 && AllMatching(a, b, right)
    ensures AllMatching(a, b, Joined(left, blk, right))
  {
    BlockAt(left, blk, right, 0);
    hide Matching, Joined;
    forall n | 0 <= n < |Joined(left, blk, right)|
      ensures var x := Joined(left, blk, right)[n]; x.size > 0 && Matching(a, b, x)
    {
      BlockAt(left, blk, right, n);
    }
  }

  lemma {:induction false} JoinedIncreasing(left: seq<Block>, blk: Block, right: seq<Block>)
    requires Increasing(left) && Increasing(right)
    requires EndBefore(left, blk.i, blk.j) && StartBehind(right, blk.i + blk.size, blk.j + blk.size)
    ensures Increasing(Joined(left, blk, right))
  {
    var all := Joined(left, blk, right);
    BlockAt(left, blk, right, 0);
    hide Joined;
    forall m, n | 0 <= m < n < |all| ensures all[m].i + all[m].size <= all[n].i && all[m].j + all[m].size <= all[n].j {
      BlockAt(left, blk, right, m);
      BlockAt(left, blk, right, n);
    }
  }

  lemma {:induction false} WithinEnds(a: string, b: string, blocks: seq<Block>)
    requires AllMatching(a, b, blocks)
    ensures forall n :: 0 <= n < |blocks| ==> blocks[n].i + blocks[n].size <= |a| && blocks[n].j + blocks[n].size <= |b|
  {
  }

  lemma {:induction false} LeftPart(a: string, b: string, i: nat, j: nat, left: seq<Block>)
    requires i <= |a| && j <= |b| && InSequence(a[..i], b[..j], left)
    ensures InSequence(a, b, left) && EndBefore(left, i, j)
  {
    hide AllMatching, Increasing, EndBefore;
    LeftMatches(a, b, i, j, left);
  }

  lemma {:induction false} RightPart(a: string, b: string, i: nat, j: nat, right: seq<Block>)
    requires i <= |a| && j <= |b| && InSequence(a[i..], b[j..], right)
    ensures InSequence(a, b, Shifted(right, i, j)) && StartBehind(Shifted(right, i, j), i, j)
  {
    hide AllMatching, Increasing, StartBehind, Shifted;
    RightMatches(a, b, i, j, right);
    ShiftedIncreasing(right, i, j);
  }

  lemma {:induction false} PartsJoin(a: string, b: string, left: seq<Block>, blk: Block, right: seq<Block>)
    requires Matching(a, b, blk) && blk.size > 0 && InSequence(a, b, left) && InSequence(a, b, right)
    requires EndBefore(left, blk.i, blk.j) && StartBehind(right, blk.i + blk.size, blk.j + blk.size)
    ensures InSequence(a, b, Joined(left, blk, right))
  {
    hide Matching, AllMatching, Increasing, EndBefore, StartBehind, Joined;
    AllJoinedMatch(a, b, left, blk, right);
    JoinedIncreasing(left, blk, right);
  }

  /** Blocks left of a block, the block, and blocks right of it. */
  lemma {:induction false} JoinedInSequence(a: string, b: string, left: seq<Block>, blk: Block, right: seq<Block>)
    requires Matching(a, b, blk) && blk.size > 0
    requires InSequence(a[..blk.i], b[..blk.j], left)
    requires InSequence(a[blk.i + blk.size..], b[blk.j + blk.size..], right)
    ensures InSequence(a, b, Joined(left, blk, Shifted(right, blk.i + blk.size, blk.j + blk.size)))
  {
    assert blk.i + blk.size <= |a| && blk.j + blk.size <= |b|;
    hide *;
    LeftPart(a, b, blk.i, blk.j, left);
    RightPart(a, b, blk.i + blk.size, blk.j + blk.size, right);
    PartsJoin(a, b, left, blk, Shifted(right, blk.i + blk.size, blk.j + blk.size));
  }

  lemma {:induction false} ShiftedIncreasing(blocks: seq<Block>, di: nat, dj: nat)
    requires Increasing(blocks)
    ensures Increasing(Shifted(blocks, di, dj))
    ensures StartBehind(Shifted(blocks, di, dj), di, dj)
  {
    hide Shifted;
    forall n | 0 <= n < |blocks|
      ensures Shifted(blocks, di, dj)[n] == Block(blocks[n].i + di, blocks[n].j + dj, blocks[n].size)
    {
      ShiftedAt(blocks, di, dj, n);
    }
  }

  lemma {:induction false} JoinedGaps(a: string, b: string, left: seq<Block>, blk: Block, right: seq<Block>, popular: set<char>)
    requires Matching(a, b, blk) && AllMatching(a[..blk.i], b[..blk.j], left)
    requires GapsAreBare(a[..blk.i], b[..blk.j], left, popular)
    requires GapsAreBare(a[blk.i + blk.size..], b[blk.j + blk.size..], right, popular)
    ensures GapsAreBare(a, b, Joined(left, blk, Shifted(right, blk.i + blk.size, blk.j + blk.size)), popular)
  {
    var di, dj := blk.i + blk.size, blk.j + blk.size;
    var moved := Shifted(right, di, dj);
    var all := Joined(left, blk, moved);
    WithinEnds(a[..blk.i], b[..blk.j], left);
    BlockAt(left, blk, moved, 0);
    hide NothingCommon, AllMatching, Joined, Shifted;
    forall n: nat | n <= |all| ensures NothingCommon(a, b, GapStart(all, n), GapEnd(|a|, |b|, all, n), popular) {
      if n <= |left| {
        var from, to := GapStart(left, n), GapEnd(blk.i, blk.j, left, n);
        assert NothingCommon(a[..blk.i], b[..blk.j], from, to, popular);
        GapInFront(|a|, |b|, left, blk, moved, n);
        NothingInFront(a, b, blk.i, blk.j, from, to, popular);
      } else {
        var m := n - |left| - 1;
        var from, to := GapStart(right, m), GapEnd(|a| - di, |b| - dj, right, m);
        assert NothingCommon(a[di..], b[dj..], from, to, popular);
        GapBehind(|a|, |b|, left, blk, right, m);
        NothingBehind(a, b, di, dj, from, to, popular);
      }
    }
  }

  lemma {:induction false} GapInFront(la: nat, lb: nat, left: seq<Block>, blk: Block, right: seq<Block>, n: nat)
    requires n <= |left|
    ensures var all := Joined(left, blk, right);
            |all| > n && GapStart(all, n) == GapStart(left, n) && GapEnd(la, lb, all, n) == GapEnd(blk.i, blk.j, left, n)
  {
    hide Joined;
    BlockAt(left, blk, right, n);
    if n > 0 {
      BlockAt(left, blk, right, n - 1);
    }
  }

  lemma {:induction false} GapBehind(la: nat, lb: nat, left: seq<Block>, blk: Block, right: seq<Block>, m: nat)
    requires blk.i + blk.size <= la && blk.j + blk.size <= lb && m <= |right|
    ensures var di, dj := blk.i + blk.size, blk.j + blk.size;
            var all, n := Joined(left, blk, Shifted(right, di, dj)), m + |left| + 1;
            var from, to := GapStart(right, m), GapEnd(la - di, lb - dj, right, m);
            n <= |all| && GapStart(all, n) == (from.0 + di, from.1 + dj) && GapEnd(la, lb, all, n) == (to.0 + di, to.1 + dj)
  {
    hide Joined, Shifted;
    var di, dj := blk.i + blk.size, blk.j + blk.size;
    BlockAt(left, blk, Shifted(right, di, dj), m + |left|);
    if m > 0 {
      ShiftedAt(right, di, dj, m - 1);
    }
    if m < |right| {
      BlockAt(left, blk, Shifted(right, di, dj), m + |left| + 1);
      ShiftedAt(right, di, dj, m);
    }
  }

  lemma {:induction false} NothingInFront(a: string, b: string, i: nat, j: nat, from: (nat, nat), to: (nat, nat), popular: set<char>)
    requires i <= |a| && j <= |b| && to.0 <= i && to.1 <= j
    requires NothingCommon(a[..i], b[..j], from, to, popular)
    ensures NothingCommon(a, b, from, to, popular)
  {
    forall k, l | from.0 <= k < to.0 && k < |a| && from.1 <= l < to.1 && l < |b| && a[k] == b[l] ensures b[l] in popular {
      assert a[..i][k] == b[..j][l];
    }
  }

  lemma {:induction false} NothingBehind(a: string, b: string, i: nat, j: nat, from: (nat, nat), to: (nat, nat), popular: set<char>)
    requires i <= |a| && j <= |b| && NothingCommon(a[i..], b[j..], from, to, popular)
    ensures NothingCommon(a, b, (from.0 + i, from.1 + j), (to.0 + i, to.1 + j), popular)
  {
    forall k, l | from.0 + i <= k < to.0 + i && k < |a| && from.1 + j <= l < to.1 + j && l < |b| && a[k] == b[l] ensures b[l] in popular {
      assert a[i..][k - i] == b[j..][l - j];
    }
  }

  lemma {:induction false} JoinedTotal(left: seq<Block>, blk: Block, right: seq<Block>)
    ensures TotalSize(Joined(left, blk, right)) == TotalSize(left) + blk.size + TotalSize(right)
  {
    TotalOfConcat(left + [blk], right);
    TotalOfConcat(left, [blk]);
    assert [blk][..0] == [];
  }

  lemma {:induction false} TotalAround(a: string, b: string, popular: set<char>)
    ensures var blk := LongestBlock(a, b, popular);
            BlockTotal(a, b, Longest(popular)) ==
            if blk.size == 0 then 0
            else BlockTotal(a[..blk.i], b[..blk.j], Longest(popular)) + blk.size +
                 BlockTotal(a[blk.i + blk.size..], b[blk.j + blk.size..], Longest(popular))
  {
    hide LongestBlock;
  }

  /** The blocks behind a total, with the longest one among them. */
  lemma {:induction false} BlocksBehind(a: string, b: string, popular: set<char>) returns (blocks: seq<Block>)
    ensures InSequence(a, b, blocks) && TotalSize(blocks) == BlockTotal(a, b, Longest(popular))
    ensures GapsAreBare(a, b, blocks, popular)
    ensures LongestBlock(a, b, popular).size > 0 ==> LongestBlock(a, b, popular) in blocks
    decreases |a|
  {
    hide LongestBlock, AllMatching, Increasing, GapsAreBare, BlockTotal, TotalSize, Shifted, Longest, Joined;
    var blk := LongestBlock(a, b, popular);
    TotalAround(a, b, popular);
    if blk.size == 0 {
      blocks := [];
      EmptyMeansBare(a, b, popular);
      NoBlocks(a, b, popular);
    } else {
      var left := BlocksBehind(a[..blk.i], b[..blk.j], popular);
      var right := BlocksBehind(a[blk.i + blk.size..], b[blk.j + blk.size..], popular);
      var moved := Shifted(right, blk.i + blk.size, blk.j + blk.size);
      blocks := Joined(left, blk, moved);
      JoinedInSequence(a, b, left, blk, right);
      JoinedGaps(a, b, left, blk, right, popular);
      JoinedTotal(left, blk, moved);
      BlockAt(left, blk, moved, |left|);
    }
  }

  lemma {:induction false} NoBlocks(a: string, b: string, popular: set<char>)
    requires NothingCommon(a, b, (0, 0), (|a|, |b|), popular)
    ensures InSequence(a, b, []) && GapsAreBare(a, b, [], popular) && TotalSize([]) == 0
  {
  }

  /** A common block without popular characters. */
  ghost predicate IsCommon(a: string, b: string, blk: Block, popular: set<char>) {
    Matching(a, b, blk) && forall k :: blk.j <= k < blk.j + blk.size ==> b[k] !in popular
  }

  /**
   What is matched: common blocks, one after the other in both sequences, of which one is the
   longest of all, whose sizes add up to the matches. Between them, in front and behind no
   unpopular character is left that both sequences have.
   */
  lemma {:induction false} MatchesAreBlocks(a: string, b: string) returns (blocks: seq<Block>)
    ensures InSequence(a, b, blocks) && TotalSize(blocks) == Matches(a, b)
    ensures GapsAreBare(a, b, blocks, Popular(b))
    ensures blocks != [] ==>
              exists n :: 0 <= n < |blocks| && forall blk :: IsCommon(a, b, blk, Popular(b)) ==> blk.size <= blocks[n].size
  {
    hide InSequence, GapsAreBare, IsCommon, Popular, LongestBlock;
    blocks := BlocksBehind(a, b, Popular(b));
    forall blk | IsCommon(a, b, blk, Popular(b)) ensures blk.size <= LongestBlock(a, b, Popular(b)).size {
      CommonIsShorter(a, b, blk, Popular(b));
    }
    if LongestBlock(a, b, Popular(b)).size > 0 {
      var n :| 0 <= n < |blocks| && blocks[n] == LongestBlock(a, b, Popular(b));
      assert forall blk :: IsCommon(a, b, blk, Popular(b)) ==> blk.size <= blocks[n].size;
    } else if blocks != [] {
      assert forall blk :: IsCommon(a, b, blk, Popular(b)) ==> blk.size <= blocks[0].size;
    }
  }

  /** Earlier in the first sequence, or at the same place there and earlier in the second. */
  ghost predicate Before(i: nat, j: nat, k: nat, l: nat) {
    i < k || (i == k && j < l)
  }

  /** The block cannot be extended on either side. */
  ghost predicate CannotGrow(a: string, b: string, blk: Block)
    requires Matching(a, b, blk)
  {
    && (blk.i == 0 || blk.j == 0 || a[blk.i - 1] != b[blk.j - 1])
    && (blk.i + blk.size == |a| || blk.j + blk.size == |b| || a[blk.i + blk.size] != b[blk.j + blk.size])
  }

  /**
   Which block is chosen: the first of the longest common blocks without popular characters
   (at the very front when there is none), extended on both sides as far as the sequences agree.
   */
  lemma {:induction false} ChosenBlock(a: string, b: string, popular: set<char>) returns (seed: Block)
    ensures IsCommon(a, b, seed, popular) && (seed.size == 0 ==> seed.i == 0 && seed.j == 0)
    ensures forall blk :: IsCommon(a, b, blk, popular) ==> blk.size <= seed.size
    ensures forall blk :: IsCommon(a, b, blk, popular) && blk.size == seed.size > 0 ==> !Before(blk.i, blk.j, seed.i, seed.j)
    ensures var r := LongestBlock(a, b, popular);
            && Matching(a, b, r) && CannotGrow(a, b, r) && r.i <= seed.i && r.j <= seed.j && seed.i - r.i == seed.j - r.j
            && seed.i + seed.size <= r.i + r.size
  {
    seed := ScanFrom(a, 0, b, popular, Block(0, 0, 0));
    RunMatches(a, seed.i, b, seed.j, popular);
    RunIsUnpopular(a, seed.i, b, seed.j, popular);
    forall blk | IsCommon(a, b, blk, popular)
      ensures blk.size <= seed.size && (blk.size == seed.size > 0 ==> !Before(blk.i, blk.j, seed.i, seed.j))
    {
      RunCoversBlock(a, b, blk, popular);
      if blk.size > 0 {
        assert blk.i < |a| && blk.j < |b|;
        assert Run(a, blk.i, b, blk.j, popular) <= seed.size;
      }
    }
    SeedGrows(a, b, popular);
  }

  lemma {:induction false} RunIsUnpopular(a: string, i: nat, b: string, j: nat, popular: set<char>)
    requires i <= |a| && j <= |b|
    ensures forall k :: j <= k < j + Run(a, i, b, j, popular) ==> b[k] !in popular
    decreases |a| - i
  {
    if Run(a, i, b, j, popular) > 0 {
      RunIsUnpopular(a, i + 1, b, j + 1, popular);
    }
  }

  lemma {:induction false} GrownFrom(a: string, b: string, seed: Block)
    requires Matching(a, b, seed)
    ensures var r := GrowRight(a, b, GrowLeft(a, b, seed));
            && Matching(a, b, r) && CannotGrow(a, b, r) && r.i <= seed.i && r.j <= seed.j && seed.i - r.i == seed.j - r.j
            && seed.i + seed.size <= r.i + r.size
  {
    hide GrowLeft, GrowRight, Matching;
    var left := GrowLeft(a, b, seed);
    var r := GrowRight(a, b, left);
    assert r.i == left.i && r.j == left.j;
  }

  lemma {:induction false} SeedGrows(a: string, b: string, popular: set<char>)
    ensures var seed, r := ScanFrom(a, 0, b, popular, Block(0, 0, 0)), LongestBlock(a, b, popular);
            && Matching(a, b, r) && CannotGrow(a, b, r) && r.i <= seed.i && r.j <= seed.j && seed.i - r.i == seed.j - r.j
            && seed.i + seed.size <= r.i + r.size
  {
    hide ScanFrom, Run, GrowLeft, GrowRight, Matching, CannotGrow;
    var seed := ScanFrom(a, 0, b, popular, Block(0, 0, 0));
    RunMatches(a, seed.i, b, seed.j, popular);
    GrownFrom(a, b, seed);
  }

  lemma {:induction false} CommonIsShorter(a: string, b: string, blk: Block, popular: set<char>)
    requires IsCommon(a, b, blk, popular)
    ensures blk.size <= LongestBlock(a, b, popular).size
  {
    LongestBlockIsLongest(a, b, blk, popular);
  }

  lemma {:induction false} ShareTimes(m: nat, total: nat)
    ensures total > 0 || m == 0 ==> Share(m, total) * total as real == 2.0 * m as real
    ensures total == 0 ==> Share(m, total) == 1.0
  {
    if total > 0 {
      var t, x := total as real, 2.0 * m as real;
      assert x / t * t == x;
    }
  }

  lemma {:induction false} MatchesWithin(a: string, b: string)
    ensures Matches(a, b) <= |a| && Matches(a, b) <= |b|
  {
    BlocksWithinBoth(a, b, Longest(Popular(b)));
  }

  /** The ratio is twice the matched characters over all characters, and one where there are none. */
  lemma {:induction false} RatioCounts(a: string, b: string)
    ensures Ratio(a, b) * (|a| + |b|) as real == 2.0 * Matches(a, b) as real
    ensures |a| + |b| == 0 ==> Ratio(a, b) == 1.0
  {
    MatchesWithin(a, b);
    hide Matches, Share;
    ShareTimes(Matches(a, b), |a| + |b|);
  }

  /** The estimate is the same of the characters in common. */
  lemma {:induction false} QuickRatioCounts(a: string, b: string)
    ensures QuickRatio(a, b) * (|a| + |b|) as real == 2.0 * |multiset(a) * multiset(b)| as real
    ensures |a| + |b| == 0 ==> QuickRatio(a, b) == 1.0
  {
    CommonWithinBoth(a, b);
    hide Share;
    ShareTimes(|multiset(a) * multiset(b)|, |a| + |b|);
  }

  lemma {:induction false} RunOnDiagonal(a: string, i: nat, j: nat, popular: set<char>)
    requires i <= |a| && j <= |a|
    ensures Run(a, i, a, j, popular) <= Run(a, i, a, i, popular)
    ensures Run(a, i, a, j, popular) <= Run(a, j, a, j, popular)
    decreases |a| - i
  {
    if Run(a, i, a, j, popular) > 0 {
      RunOnDiagonal(a, i + 1, j + 1, popular);
    }
  }

  lemma {:induction false} GrownOnDiagonal(a: string, seed: Block)
    requires Matching(a, a, seed) && seed.i == seed.j
    ensures GrowRight(a, a, GrowLeft(a, a, seed)) == Block(0, 0, |a|)
  {
    hide GrowLeft, GrowRight;
    var left := GrowLeft(a, a, seed);
    assert left.i == left.j == 0;
    var grown := GrowRight(a, a, left);
    assert grown.size == |a|;
  }

  lemma {:induction false} SeedOfSelf(a: string, popular: set<char>)
    ensures var seed := ScanFrom(a, 0, a, popular, Block(0, 0, 0));
            seed.i == seed.j
  {
    hide Run, ScanFrom;
    var seed := ScanFrom(a, 0, a, popular, Block(0, 0, 0));
    if seed.size > 0 {
      RunOnDiagonal(a, seed.i, seed.j, popular);
    }
  }

  lemma {:induction false} LongestBlockOfSelf(a: string, popular: set<char>)
    ensures LongestBlock(a, a, popular) == Block(0, 0, |a|)
  {
    hide Run, ScanFrom, GrowLeft, GrowRight, Matching;
    var seed := ScanFrom(a, 0, a, popular, Block(0, 0, 0));
    SeedOfSelf(a, popular);
    RunMatches(a, seed.i, a, seed.j, popular);
    GrownOnDiagonal(a, seed);
  }

  lemma {:induction false} SelfMatchesFully(a: string)
    ensures Matches(a, a) == |a|
  {
    var choose := Longest(Popular(a));
    LongestBlockOfSelf(a, Popular(a));
    LongestBlockOfSelf([], Popular(a));
    assert a[|a|..] == [] == a[..0];
    assert BlockTotal([], [], choose) == 0;
  }

  /** Only identical sequences reach a ratio of one, and identical ones always do, popular characters or not. */
  lemma {:induction false} PerfectRatioIffEqual(a: string, b: string)
    ensures Ratio(a, b) == 1.0 <==> a == b
  {
    hide Share, BlockTotal, Popular, Longest;
    var choose := Longest(Popular(b));
    BlocksWithinBoth(a, b, choose);
    ShareGrows(Matches(a, b), Min(|a|, |b|), |a| + |b|);
    if a == b {
      SelfMatchesFully(a);
    } else if Ratio(a, b) == 1.0 {
      FullMatchIsEqual(a, b, choose);
    }
  }
}
