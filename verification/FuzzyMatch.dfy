/**
 Fuzzy path search: candidates are scored by similarity and shared words, with a cheap
 estimate and an early exit in front of the exact similarity.
 */
module FuzzyMatch {
  import opened Wrappers
  import opened SequenceSimilarity
  import opened Sorting

  /** Case folding is left to the caller; words are looked for in the folded text. */
  type Fold = string -> string

  predicate IsWordChar(c: char) {
    'a' <= c <= 'z' || '0' <= c <= '9'
  }

  /** Length of the run of word characters at the front. */
  function WordLength(s: string): (n: nat)
    ensures n <= |s|
    ensures forall i :: 0 <= i < n ==> IsWordChar(s[i])
    ensures n < |s| ==> !IsWordChar(s[n])
  {
    if s == "" || !IsWordChar(s[0]) then 0 else 1 + WordLength(s[1..])
  }

  /** The maximal runs of word characters, left to right. */
  function Words(s: string): seq<string>
    decreases |s|
  {
    if s == "" then []
    else if !IsWordChar(s[0]) then Words(s[1..])
    else [s[..WordLength(s)]] + Words(s[WordLength(s)..])
  }

  function Join(words: seq<string>): string {
    if words == [] then "" else words[0] + Join(words[1..])
  }

  function Normalized(s: string, fold: Fold): string {
    Join(Words(fold(s)))
  }

  function OnlyWordChars(s: string): string {
    if s == "" then "" else (if IsWordChar(s[0]) then [s[0]] else []) + OnlyWordChars(s[1..])
  }

  lemma {:induction false} OnlyWordCharsOfConcat(s: string, t: string)
    ensures OnlyWordChars(s + t) == OnlyWordChars(s) + OnlyWordChars(t)
  {
    hide IsWordChar;
    if s == "" {
      assert s + t == t;
    } else {
      assert (s + t)[1..] == s[1..] + t && (s + t)[0] == s[0];
      OnlyWordCharsOfConcat(s[1..], t);
      Associates(if IsWordChar(s[0]) then [s[0]] else [], OnlyWordChars(s[1..]), OnlyWordChars(t));
    }
  }

  lemma {:induction false} OnlyWordCharsOfWord(s: string)
    requires forall i :: 0 <= i < |s| ==> IsWordChar(s[i])
    ensures OnlyWordChars(s) == s
  {
    if s != "" {
      OnlyWordCharsOfWord(s[1..]);
    }
  }

  /** Splitting into words and joining them again just drops the other characters. */
  lemma {:induction false} JoinedWords(s: string)
    ensures Join(Words(s)) == OnlyWordChars(s)
    ensures forall i :: 0 <= i < |Words(s)| ==> Words(s)[i] != "" && OnlyWordChars(Words(s)[i]) == Words(s)[i]
    decreases |s|
  {
    if s == "" {
    } else if !IsWordChar(s[0]) {
      JoinedWords(s[1..]);
    } else {
      var n := WordLength(s);
      JoinedWords(s[n..]);
      OnlyWordCharsOfWord(s[..n]);
      OnlyWordCharsOfConcat(s[..n], s[n..]);
      assert s == s[..n] + s[n..];
    }
  }

  /** By code: the digits 48-57 and the small letters 97-122, and nothing else. */
  lemma {:induction false} WordChars(c: char)
    ensures IsWordChar(c) <==> 48 <= c as int <= 57 || 97 <= c as int <= 122
  {
  }

  /** The word stands at `i`, made of word characters, and cannot be extended on either side. */
  ghost predicate IsRun(s: string, i: nat, w: string) {
    && w != "" && i + |w| <= |s| && s[i..i + |w|] == w
    && (forall k :: i <= k < i + |w| ==> IsWordChar(s[k]))
    && (i == 0 || !IsWordChar(s[i - 1]))
    && (i + |w| == |s| || !IsWordChar(s[i + |w|]))
  }

  lemma {:induction false} RunAt(s: string, p: nat)
    requires p < |s| && IsWordChar(s[p]) && (p == 0 || !IsWordChar(s[p - 1]))
    ensures var n := WordLength(s[p..]);
            n > 0 && p + n <= |s| && IsRun(s, p, s[p..][..n]) && s[p..][n..] == s[p + n..]
            && (p + n == |s| || !IsWordChar(s[p + n]))
  {
    var rest := s[p..];
    var n := WordLength(rest);
    assert rest[0] == s[p];
    assert rest[n..] == s[p + n..] && rest[..n] == s[p..p + n];
    assert forall k :: p <= k < p + n ==> s[k] == rest[k - p];
    assert p + n < |s| ==> s[p + n] == rest[n];
  }

  /** The words stand at these places, which lie at `p` and behind, one after the other. */
  ghost predicate StandAt(s: string, p: nat, words: seq<string>, starts: seq<nat>) {
    && |starts| == |words|
    && (forall k :: 0 <= k < |words| ==> p <= starts[k] && IsRun(s, starts[k], words[k]))
    && (forall k, l :: 0 <= k < l < |words| ==> starts[k] + |words[k]| <= starts[l])
  }

  lemma {:induction false} OneMore(s: string, p: nat, w: string, words: seq<string>, starts: seq<nat>)
    requires IsRun(s, p, w) && StandAt(s, p + |w|, words, starts)
    ensures StandAt(s, p, [w] + words, [p] + starts)
  {
    hide IsRun;
  }

  /** The words of the rest of a text from a place that is not inside a word. */
  lemma {:induction false} RunsFrom(s: string, p: nat) returns (starts: seq<nat>)
    requires p <= |s| && (p == 0 || p == |s| || !IsWordChar(s[p - 1]) || !IsWordChar(s[p]))
    ensures StandAt(s, p, Words(s[p..]), starts)
    decreases |s| - p
  {
    hide IsRun, IsWordChar, WordLength;
    if p == |s| {
      starts := [];
    } else if !IsWordChar(s[p]) {
      assert s[p..][1..] == s[p + 1..];
      starts := RunsFrom(s, p + 1);
    } else {
      RunAt(s, p);
      var n := WordLength(s[p..]);
      var others := RunsFrom(s, p + n);
      OneMore(s, p, s[p..][..n], Words(s[p + n..]), others);
      starts := [p] + others;
    }
  }

  /** The words are maximal runs of word characters, in the order in which they stand in the text. */
  lemma {:induction false} WordsAreRuns(s: string) returns (starts: seq<nat>)
    ensures |starts| == |Words(s)|
    ensures forall k :: 0 <= k < |starts| ==> IsRun(s, starts[k], Words(s)[k])
    ensures forall k, l :: 0 <= k < l < |starts| ==> starts[k] + |Words(s)[k]| <= starts[l]
  {
    assert s[0..] == s;
    starts := RunsFrom(s, 0);
  }

  // ---------------------------------------------------------------------------
  // Scores.

  /** Zero when already the quick estimate misses the minimum, the exact ratio otherwise. */
  function SequenceScore(query: string, candidate: string, minimum: real, fold: Fold): real {
    if QuickRatio(query, Normalized(candidate, fold)) < minimum then 0.0
    else Ratio(query, Normalized(candidate, fold))
  }

  function ToSet<T>(s: seq<T>): set<T> {
    set x | x in s
  }

  /** The share of the query's distinct words found in the name; none when either side has no words. */
  function WordScore(queryWords: seq<string>, name: string, fold: Fold): (r: Option<real>)
    ensures r.Some? ==> 0.0 <= r.value <= 1.0
  {
    var words, asked := ToSet(Words(fold(name))), ToSet(queryWords);
    if queryWords == [] || words == {} then None
    else
      assert queryWords[0] in asked;
      CommonIsPart(asked, words);
      Some(|asked * words| as real / |asked| as real)
  }

  lemma {:induction false} CommonIsPart<T>(asked: set<T>, words: set<T>)
    requires asked != {}
    ensures |asked| > 0 && 0.0 <= |asked * words| as real / |asked| as real <= 1.0
  {
    assert asked == (asked * words) + (asked - words);
    assert 0 <= |asked * words| <= |asked|;
    QuotientWithin(|asked * words| as real, |asked| as real);
  }

  /** The share, as a fraction: common words over distinct words asked for; there is none without words on either side. */
  lemma {:induction false} WordScoreCounts(queryWords: seq<string>, name: string, fold: Fold)
    ensures var asked, words := (set w | w in queryWords), (set w | w in Words(fold(name)));
            && (WordScore(queryWords, name, fold).None? <==> queryWords == [] || Words(fold(name)) == [])
            && (WordScore(queryWords, name, fold).Some? ==>
                WordScore(queryWords, name, fold).value * |asked| as real == |asked * words| as real)
  {
    hide Words;
    var asked, words := ToSet(queryWords), ToSet(Words(fold(name)));
    assert queryWords != [] ==> queryWords[0] in asked;
    assert Words(fold(name)) != [] ==> Words(fold(name))[0] in words;
    assert asked == set w | w in queryWords;
    assert words == set w | w in Words(fold(name));
    if asked != {} && words != {} {
      CommonIsPart(asked, words);
      TimesShare(|asked * words| as real, |asked| as real);
    }
  }

  lemma {:induction false} TimesShare(x: real, t: real)
    requires t > 0.0
    ensures x / t * t == x
  {
  }

  function Max(x: real, y: real): real {
    if x >= y then x else y
  }

  function MaxWith(x: real, y: Option<real>): real {
    if y.Some? then Max(x, y.value) else x
  }

  datatype Candidate = Candidate(relativePath: string, name: string, stem: string, isFile: bool)

  /** The name decides first; stem and path are looked at only when the name misses the minimum. */
  function FirstGlance(name: real, stem: real, path: real, overlap: Option<real>, minimum: real): real {
    MaxWith(if name < minimum then Max(name, Max(stem, path)) else name, overlap)
  }

  function FuzzyScore(query: string, c: Candidate, minimum: real, queryWords: seq<string>, fold: Fold): real {
    FirstGlance(SequenceScore(query, c.name, minimum, fold),
                SequenceScore(query, c.stem, minimum, fold),
                SequenceScore(query, c.relativePath, minimum, fold),
                WordScore(queryWords, c.name, fold), minimum)
  }

  function ExactRatio(query: string, candidate: string, fold: Fold): real {
    Ratio(query, Normalized(candidate, fold))
  }

  /** The reference: every exact ratio and the word overlap, nothing skipped. */
  function FullScore(query: string, c: Candidate, queryWords: seq<string>, fold: Fold): real {
    MaxWith(Max(ExactRatio(query, c.name, fold), Max(ExactRatio(query, c.stem, fold), ExactRatio(query, c.relativePath, fold))),
            WordScore(queryWords, c.name, fold))
  }

  /** Pruning one candidate text never moves it across the minimum, and leaves what reaches it exact. */
  ghost predicate Harmless(pruned: real, exact: real, minimum: real) {
    (pruned >= minimum <==> exact >= minimum) && pruned <= exact && (exact >= minimum ==> pruned == exact)
  }

  lemma {:induction false} PrunedScore(query: string, candidate: string, minimum: real, fold: Fold)
    ensures Harmless(SequenceScore(query, candidate, minimum, fold), ExactRatio(query, candidate, fold), minimum)
  {
    RatioWithinQuickRatio(query, Normalized(candidate, fold));
  }

  /**
   Pruning is sound: the shortcut score reaches the threshold iff the full score does, and it
   never exceeds the full score. An accepted score is the full score unless the name alone
   reached the threshold while the stem or path, never looked at, would have scored higher.
   */
  lemma {:induction false} PruningIsSound(query: string, c: Candidate, threshold: real, queryWords: seq<string>, fold: Fold)
    ensures var score := FuzzyScore(query, c, threshold, queryWords, fold);
            var full := FullScore(query, c, queryWords, fold);
            var name, stem, path :=
              ExactRatio(query, c.name, fold), ExactRatio(query, c.stem, fold), ExactRatio(query, c.relativePath, fold);
            var seen := MaxWith(name, WordScore(queryWords, c.name, fold));
            && (score >= threshold <==> full >= threshold)
            && score <= full
            && (score >= threshold ==> (score == full <==> name < threshold || (stem <= seen && path <= seen)))
  {
    PrunedScore(query, c.name, threshold, fold);
    PrunedScore(query, c.stem, threshold, fold);
    PrunedScore(query, c.relativePath, threshold, fold);
    GlanceIsSound(SequenceScore(query, c.name, threshold, fold), ExactRatio(query, c.name, fold),
                  SequenceScore(query, c.stem, threshold, fold), ExactRatio(query, c.stem, fold),
                  SequenceScore(query, c.relativePath, threshold, fold), ExactRatio(query, c.relativePath, fold),
                  WordScore(queryWords, c.name, fold), threshold);
  }

  lemma {:induction false} GlanceIsSound(name': real, name: real, stem': real, stem: real, path': real, path: real,
                      overlap: Option<real>, threshold: real)
    requires Harmless(name', name, threshold) && Harmless(stem', stem, threshold) && Harmless(path', path, threshold)
    ensures var score := FirstGlance(name', stem', path', overlap, threshold);
            var full := MaxWith(Max(name, Max(stem, path)), overlap);
            var seen := MaxWith(name, overlap);
            && (score >= threshold <==> full >= threshold)
            && score <= full
            && (score >= threshold ==> (score == full <==> name < threshold || (stem <= seen && path <= seen)))
  {
  }

  // ---------------------------------------------------------------------------
  // The accept loop.

  datatype EntryType = AnyEntry | FilesOnly | DirectoriesOnly

  datatype Options = Options(query: string, entryType: EntryType, pathMatches: Option<string -> bool>, threshold: real)

  /** A reported match; its score is the rounded one. */
  datatype Match = Match(candidate: Candidate, score: real)

  /** Rounding to four digits; nothing needs to be known of it. */
  type Rounding = real -> real

  /** The order of the report: by score, best first, and equal scores by path. */
  predicate MatchLeq(a: Match, b: Match) {
    a.score > b.score || (a.score == b.score && TextLeq(a.candidate.relativePath, b.candidate.relativePath))
  }

  predicate Eligible(o: Options, c: Candidate) {
    && (o.entryType == FilesOnly ==> c.isFile)
    && (o.entryType == DirectoriesOnly ==> !c.isFile)
    && (o.pathMatches.Some? ==> o.pathMatches.value(c.relativePath))
  }

  type Scorer = Candidate -> real

  function ShortcutScorer(o: Options, fold: Fold): Scorer {
    var query, queryWords := Normalized(o.query, fold), Words(fold(o.query));
    c => FuzzyScore(query, c, o.threshold, queryWords, fold)
  }

  ghost function FullScorer(o: Options, fold: Fold): Scorer {
    var query, queryWords := Normalized(o.query, fold), Words(fold(o.query));
    c => FullScore(query, c, queryWords, fold)
  }

  /** Eligible candidates whose score reaches the threshold, in walk order. */
  ghost function Accepted(o: Options, cs: seq<Candidate>, score: Scorer): seq<Candidate> {
    if cs == [] then []
    else
      var c := cs[|cs| - 1];
      Accepted(o, cs[..|cs| - 1], score) + if Eligible(o, c) && score(c) >= o.threshold then [c] else []
  }

  ghost function CandidatesOf(ms: seq<Match>): seq<Candidate> {
    seq(|ms|, i requires 0 <= i < |ms| => ms[i].candidate)
  }

  ghost function Reports(cs: seq<Candidate>, score: Scorer, round: Rounding): seq<Match> {
    seq(|cs|, i requires 0 <= i < |cs| => Match(cs[i], round(score(cs[i]))))
  }

  /** Keeps what passes the filters and scores high enough. */
  method AcceptLoop(o: Options, paths: seq<Candidate>, score: Scorer, round: Rounding) returns (matches: seq<Match>)
    ensures matches == Reports(Accepted(o, paths, score), score, round)
    ensures CandidatesOf(matches) == Accepted(o, paths, score)
    ensures forall i :: 0 <= i < |matches| ==>
              score(matches[i].candidate) >= o.threshold && matches[i].score == round(score(matches[i].candidate))
  {
    matches := [];
    for i := 0 to |paths|
      invariant CandidatesOf(matches) == Accepted(o, paths[..i], score)
      invariant forall k :: 0 <= k < |matches| ==>
                  score(matches[k].candidate) >= o.threshold && matches[k].score == round(score(matches[k].candidate))
    {
      var c := paths[i];
      assert paths[..i + 1][..i] == paths[..i];
      if o.entryType == FilesOnly && !c.isFile {
        continue;
      }
      if o.entryType == DirectoriesOnly && c.isFile {
        continue;
      }
      if o.pathMatches.Some? && !o.pathMatches.value(c.relativePath) {
        continue;
      }
      var s := score(c);
      if s < o.threshold {
        continue;
      }
      assert CandidatesOf(matches + [Match(c, round(s))]) == CandidatesOf(matches) + [c];
      matches := matches + [Match(c, round(s))];
    }
    assert paths[..|paths|] == paths;
    ReportsOf(matches, score, round);
  }

  lemma {:induction false} ReportsOf(matches: seq<Match>, score: Scorer, round: Rounding)
    requires forall i :: 0 <= i < |matches| ==> matches[i].score == round(score(matches[i].candidate))
    ensures matches == Reports(CandidatesOf(matches), score, round)
  {
    forall i | 0 <= i < |matches| ensures matches[i] == Reports(CandidatesOf(matches), score, round)[i] {
      assert CandidatesOf(matches)[i] == matches[i].candidate;
    }
  }

  lemma {:induction false} SameAcceptance(o: Options, cs: seq<Candidate>, f: Scorer, g: Scorer)
    requires forall c :: f(c) >= o.threshold <==> g(c) >= o.threshold
    ensures Accepted(o, cs, f) == Accepted(o, cs, g)
  {
    if cs != [] {
      SameAcceptance(o, cs[..|cs| - 1], f, g);
    }
  }

  lemma {:induction false} AcceptedOfConcat(o: Options, a: seq<Candidate>, b: seq<Candidate>, score: Scorer)
    ensures Accepted(o, a + b, score) == Accepted(o, a, score) + Accepted(o, b, score)
  {
    hide Eligible;
    if b == [] {
      assert a + b == a;
    } else {
      var front, last := b[..|b| - 1], b[|b| - 1];
      assert (a + b)[..|a + b| - 1] == a + front && (a + b)[|a + b| - 1] == last;
      AcceptedOfConcat(o, a, front, score);
      Associates(Accepted(o, a, score), Accepted(o, front, score), if Eligible(o, last) && score(last) >= o.threshold then [last] else []);
    }
  }

  /** The matched characters of the two texts make up the share asked for; two empty texts count as equal. */
  ghost predicate Reaches(a: string, b: string, threshold: real) {
    if |a| + |b| == 0 then 1.0 >= threshold
    else 2.0 * Matches(a, b) as real >= threshold * (|a| + |b|) as real
  }

  lemma {:induction false} RatioReaches(a: string, b: string, threshold: real)
    ensures Ratio(a, b) >= threshold <==> Reaches(a, b, threshold)
  {
    RatioCounts(a, b);
    hide Ratio, Matches;
    if |a| + |b| > 0 {
      SameOrder(Ratio(a, b), threshold, (|a| + |b|) as real);
    }
  }

  lemma {:induction false} SameOrder(x: real, y: real, t: real)
    requires t > 0.0
    ensures x >= y <==> x * t >= y * t
  {
    assert (x - y) * t == x * t - y * t;
  }

  /** Words in common reach the share asked for. */
  ghost predicate WordsReach(asked: seq<string>, words: seq<string>, threshold: real) {
    var distinct, present := (set w | w in asked), (set w | w in words);
    asked != [] && words != [] && |distinct * present| as real >= threshold * |distinct| as real
  }

  lemma {:induction false} WordScoreReaches(queryWords: seq<string>, name: string, fold: Fold, threshold: real)
    ensures var score := WordScore(queryWords, name, fold);
            score.Some? && score.value >= threshold <==>
            WordsReach(queryWords, Words(fold(name)), threshold)
  {
    WordScoreCounts(queryWords, name, fold);
    hide Words, WordScore;
    var asked, words := (set w | w in queryWords), (set w | w in Words(fold(name)));
    assert queryWords != [] ==> queryWords[0] in asked;
    assert Words(fold(name)) != [] ==> Words(fold(name))[0] in words;
    if WordScore(queryWords, name, fold).Some? {
      assert asked != {} && words != {};
      assert |asked| > 0;
      SameOrder(WordScore(queryWords, name, fold).value, threshold, |asked| as real);
    }
  }

  /**
   What the slow search accepts, told without any score: the candidates that pass the filters
   and of which the name, the stem, the path or the words of the name have enough in common
   with the query. Only word characters of the folded texts count.
   */
  lemma {:induction false} AcceptedMeans(o: Options, c: Candidate, fold: Fold)
    ensures var query := OnlyWordChars(fold(o.query));
            Accepted(o, [c], FullScorer(o, fold)) == [c] <==>
            && (o.entryType == FilesOnly ==> c.isFile) && (o.entryType == DirectoriesOnly ==> !c.isFile)
            && (o.pathMatches.Some? ==> o.pathMatches.value(c.relativePath))
            && (Reaches(query, OnlyWordChars(fold(c.name)), o.threshold) ||
                Reaches(query, OnlyWordChars(fold(c.stem)), o.threshold) ||
                Reaches(query, OnlyWordChars(fold(c.relativePath)), o.threshold) ||
                WordsReach(Words(fold(o.query)), Words(fold(c.name)), o.threshold))
  {
    var query, t := OnlyWordChars(fold(o.query)), o.threshold;
    JoinedWords(fold(o.query));
    JoinedWords(fold(c.name));
    JoinedWords(fold(c.stem));
    JoinedWords(fold(c.relativePath));
    RatioReaches(query, OnlyWordChars(fold(c.name)), t);
    RatioReaches(query, OnlyWordChars(fold(c.stem)), t);
    RatioReaches(query, OnlyWordChars(fold(c.relativePath)), t);
    WordScoreReaches(Words(fold(o.query)), c.name, fold, t);
    OnlyOne(o, c, FullScorer(o, fold));
    hide Ratio, Words, OnlyWordChars, Reaches, WordsReach, WordScore, Accepted;
    assert FullScorer(o, fold)(c) == FullScore(query, c, Words(fold(o.query)), fold);
  }

  lemma {:induction false} OnlyOne(o: Options, c: Candidate, score: Scorer)
    ensures Accepted(o, [c], score) == if Eligible(o, c) && score(c) >= o.threshold then [c] else []
  {
    assert [c][..0] == [];
  }

  /** The search with all its shortcuts accepts exactly what the slow search accepts. */
  lemma {:induction false} ShortcutsAcceptTheSame(o: Options, cs: seq<Candidate>, fold: Fold)
    ensures Accepted(o, cs, ShortcutScorer(o, fold)) == Accepted(o, cs, FullScorer(o, fold))
  {
    var f, g := ShortcutScorer(o, fold), FullScorer(o, fold);
    forall c ensures f(c) >= o.threshold <==> g(c) >= o.threshold {
      PruningIsSound(Normalized(o.query, fold), c, o.threshold, Words(fold(o.query)), fold);
    }
    SameAcceptance(o, cs, f, g);
  }

  // ---------------------------------------------------------------------------
  // The report.

  lemma {:induction false} MatchOrderIsTotal()
    ensures IsTotalOrder(MatchLeq)
  {
    hide TextLeq;
    forall a, b ensures MatchLeq(a, b) || MatchLeq(b, a) {
      TextsAreOrdered(a.candidate.relativePath, b.candidate.relativePath, "");
    }
    forall a, b, c | MatchLeq(a, b) && MatchLeq(b, c) ensures MatchLeq(a, c) {
      TextsAreOrdered(a.candidate.relativePath, b.candidate.relativePath, c.candidate.relativePath);
    }
  }

  lemma {:induction false} FallingScores(matches: seq<Match>)
    requires SortedBy(matches, MatchLeq)
    ensures forall i, j :: 0 <= i < j < |matches| ==>
              matches[i].score > matches[j].score ||
              (matches[i].score == matches[j].score &&
               TextLeq(matches[i].candidate.relativePath, matches[j].candidate.relativePath))
  {
    hide TextLeq;
    assert forall i, j :: 0 <= i < j < |matches| ==> MatchLeq(matches[i], matches[j]);
  }

  lemma {:induction false} CandidatesOfLast(ms: seq<Match>, m: Match)
    ensures CandidatesOf(ms + [m]) == CandidatesOf(ms) + [m.candidate]
  {
  }

  lemma {:induction false} PlacedCandidates(ms: seq<Match>, m: Match)
    ensures multiset(CandidatesOf(Place(ms, m, MatchLeq))) == multiset(CandidatesOf(ms)) + multiset{m.candidate}
  {
    hide CandidatesOf, MatchLeq;
    if ms == [] || MatchLeq(ms[|ms| - 1], m) {
      CandidatesOfLast(ms, m);
    } else {
      var front, last := ms[..|ms| - 1], ms[|ms| - 1];
      PlacedCandidates(front, m);
      CandidatesOfLast(Place(front, m, MatchLeq), last);
      CandidatesOfLast(front, last);
      assert ms == front + [last];
    }
  }

  /** Sorting the matches permutes the candidates. */
  lemma {:induction false} SortedCandidates(ms: seq<Match>)
    ensures multiset(CandidatesOf(Sort(ms, MatchLeq))) == multiset(CandidatesOf(ms))
  {
    if ms == [] {
      assert Sort(ms, MatchLeq) == ms;
    } else {
      hide CandidatesOf, MatchLeq, Place;
      var front, last := ms[..|ms| - 1], ms[|ms| - 1];
      SortedCandidates(front);
      PlacedCandidates(Sort(front, MatchLeq), last);
      CandidatesOfLast(front, last);
      assert ms == front + [last];
    }
  }

  /**
   The search as it runs, with all shortcuts: the report holds exactly what the slow search
   accepts, each candidate as often, with the rounded shortcut score, best scores first and
   equal ones by path.
   */
  method FindMatches(o: Options, paths: seq<Candidate>, fold: Fold, round: Rounding) returns (matches: seq<Match>)
    ensures matches == Sort(Reports(Accepted(o, paths, FullScorer(o, fold)), ShortcutScorer(o, fold), round), MatchLeq)
    ensures SortedBy(matches, MatchLeq)
    ensures forall i, j :: 0 <= i < j < |matches| ==>
              matches[i].score > matches[j].score ||
              (matches[i].score == matches[j].score &&
               TextLeq(matches[i].candidate.relativePath, matches[j].candidate.relativePath))
    ensures multiset(CandidatesOf(matches)) == multiset(Accepted(o, paths, FullScorer(o, fold)))
    ensures forall m :: m in matches ==>
              var score := ShortcutScorer(o, fold)(m.candidate); score >= o.threshold && m.score == round(score)
  {
    var score := ShortcutScorer(o, fold);
    ShortcutsAcceptTheSame(o, paths, fold);
    hide Accepted, Sort, SortedBy, IsTotalOrder, MatchLeq, CandidatesOf, Reports, ShortcutScorer, FullScorer;
    var found := AcceptLoop(o, paths, score, round);
    MatchOrderIsTotal();
    SortSorts(found, MatchLeq);
    SortedCandidates(found);
    matches := Sort(found, MatchLeq);
    FallingScores(matches);
    forall m | m in matches ensures score(m.candidate) >= o.threshold && m.score == round(score(m.candidate)) {
      SortMembers(found, MatchLeq, m);
    }
  }
}
