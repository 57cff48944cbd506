/**
 The path search of one session: each search walks its root or asks the session's cache,
 scores what is found with all shortcuts, and reports the matches in order.
 */
module PathSearch {
  import opened FuzzyMatch
  import opened PathWalk
  import opened Sorting
  import opened WalkCache
  import opened Wrappers

  datatype Search = Search(key: Key, options: Options)

  /** What a listed path looks like to the matcher: its texts, and whether it is a file. */
  type Describe = (string, Path) -> Candidate

  function Candidates(paths: seq<Path>, root: string, describe: Describe): (r: seq<Candidate>)
    ensures |r| == |paths| && forall i :: 0 <= i < |r| ==> r[i] == describe(root, paths[i])
  {
    if paths == [] then [] else Candidates(paths[..|paths| - 1], root, describe) + [describe(root, paths[|paths| - 1])]
  }

  /** The reference: walk the tree anew, score everything exactly, nothing skipped and nothing remembered. */
  ghost function SlowMatches(tree: string -> Dir, s: Search, describe: Describe, fold: Fold): seq<Candidate> {
    Accepted(s.options, Candidates(SortedWalk(tree(s.key.root), s.key.mindepth, s.key.maxdepth), s.key.root, describe),
             FullScorer(s.options, fold))
  }

  /** A report of the slow matches: all of them and each as often, best rounded score first, equal scores by path. */
  ghost predicate Reported(report: seq<Match>, tree: string -> Dir, s: Search, describe: Describe, fold: Fold, round: Rounding) {
    && SortedBy(report, MatchLeq)
    && multiset(CandidatesOf(report)) == multiset(SlowMatches(tree, s, describe, fold))
    && forall m :: m in report ==>
         var score := ShortcutScorer(s.options, fold)(m.candidate); score >= s.options.threshold && m.score == round(score)
  }

  /** What the cache holds are walks of the tree as it is. */
  ghost predicate UpToDate(cache: PathCache, tree: string -> Dir)
    reads cache
  {
    forall key :: key in cache.entries ==> cache.entries[key] == WalkerOf(tree)(key)
  }

  method Run(cache: PathCache, tree: string -> Dir, s: Search, describe: Describe, fold: Fold, round: Rounding)
    returns (report: seq<Match>)
    requires UpToDate(cache, tree)
    modifies cache
    ensures UpToDate(cache, tree)
    ensures Reported(report, tree, s, describe, fold, round)
  {
    var paths := cache.CachedWalkPaths(WalkerOf(tree), s.key);
    WalkOnTree(tree, s.key);
    hide SortedWalk, WalkerOf, SortedBy, MatchLeq, CandidatesOf, Accepted, FullScorer, ShortcutScorer, Sort, Reports;
    var candidates := Candidates(paths, s.key.root, describe);
    report := FindMatches(s.options, candidates, fold, round);
  }

  /**
   Cache and pruning change nothing: over any session on an unchanged tree, every search
   reports what the slow search accepts.
   */
  method RunSession(tree: string -> Dir, searches: seq<Search>, describe: Describe, fold: Fold, round: Rounding)
    returns (reports: seq<seq<Match>>)
    ensures |reports| == |searches|
    ensures forall i :: 0 <= i < |searches| ==> Reported(reports[i], tree, searches[i], describe, fold, round)
  {
    var cache := new PathCache();
    reports := [];
    hide Reported;
    for i := 0 to |searches|
      invariant fresh(cache) && UpToDate(cache, tree)
      invariant |reports| == i
      invariant forall k :: 0 <= k < i ==> Reported(reports[k], tree, searches[k], describe, fold, round)
    {
      var report := Run(cache, tree, searches[i], describe, fold, round);
      reports := reports + [report];
    }
  }
}
