/**
 Fetching all review threads of a pull request: the thread connection is read page by page,
 then the comments of each thread are completed page by page.
 */
module ReviewThreads {
  import opened Wrappers
  import opened Pagination

  type Comment = string

  /** The comment connection a thread comes with; fields of the wrong type are `None`. */
  datatype Connection = Connection(nodes: Option<seq<Option<Comment>>>, hasNext: Option<bool>, endCursor: Option<Cursor>)

  /** `comments` is `None` when the thread has no comment connection object. */
  datatype Thread = Thread(id: string, comments: Option<Connection>)

  /** GitHub as seen from here: a response for every query that may be asked. */
  datatype Server = Server(threads: Fetch<Thread>, comments: (string, Cursor) -> Response<Comment>)

  function CommentFetch(server: Server, id: string): Fetch<Comment> {
    (c: Option<Cursor>) => if c.Some? then server.comments(id, c.value) else Unusable
  }

  datatype Outcome = Error(code: NonZero) | Done(pullRequest: string, threads: seq<Thread>)

  // ---------------------------------------------------------------------------
  // Reference: one thread, then all of them.

  function AsNodes(comments: seq<Comment>): (r: seq<Option<Comment>>)
    ensures |r| == |comments| && forall i :: 0 <= i < |r| ==> r[i] == Some(comments[i])
  {
    if comments == [] then [] else [Some(comments[0])] + AsNodes(comments[1..])
  }

  /** The checks on the connection a thread comes with, in their order. */
  predicate Readable(t: Thread) {
    t.comments.Some? && t.comments.value.nodes.Some? && t.comments.value.hasNext.Some? &&
    (t.comments.value.hasNext.value ==> t.comments.value.endCursor.Some? && t.comments.value.endCursor.value != "")
  }

  /** What makes a thread unreadable, told from the thread. */
  lemma {:induction false} UnreadableMeans(t: Thread)
    ensures !Readable(t) <==>
            match t.comments
            case None => true
            case Some(c) =>
              c.nodes == None || c.hasNext == None ||
              (c.hasNext == Some(true) && (c.endCursor == None || c.endCursor == Some("")))
  {
  }

  /** Comments are asked for by the thread's own id, at the cursor reached. */
  lemma {:induction false} AsksForThread(server: Server, id: string, cursor: Cursor)
    ensures CommentFetch(server, id)(Some(cursor)) == server.comments(id, cursor)
  {
  }

  /** The thread with the remaining comments appended and the page information of the last page. */
  function WithComments(t: Thread, more: seq<Comment>, last: Response<Comment>): Thread
    requires Readable(t)
  {
    var nodes := Some(t.comments.value.nodes.value + AsNodes(more));
    match last
    case Page(_, _, hasNext, endCursor) => t.(comments := Some(Connection(nodes, hasNext, endCursor)))
    case _ => t.(comments := Some(Connection(nodes, None, None)))
  }

  /** The thread is whole: nothing more to fetch, or a chain of comment pages supplies the rest in page order. */
  ghost predicate IsWhole(server: Server, t: Thread, whole: Thread) {
    Readable(t) &&
    if !t.comments.value.hasNext.value then whole == t
    else
      exists pages ::
        IsChain(CommentFetch(server, t.id), t.comments.value.endCursor, pages) &&
        whole == WithComments(t, AllObjects(pages), pages[|pages| - 1])
  }

  /** The thread stops the whole query with this code. */
  ghost predicate IsBroken(server: Server, t: Thread, code: NonZero) {
    (!Readable(t) && code == 1) ||
    (Readable(t) && t.comments.value.hasNext.value &&
     exists pages :: BreaksAfter(CommentFetch(server, t.id), t.comments.value.endCursor, pages, code))
  }

  /** The whole query is answered: every thread of a chain of thread pages, in order, each one whole. */
  ghost predicate IsFullAnswer(server: Server, pullRequest: string, threads: seq<Thread>) {
    exists pages: seq<Response<Thread>> ::
      && IsChain(server.threads, None, pages)
      && pullRequest == pages[0].about
      && |threads| == |AllObjects(pages)|
      && forall i :: 0 <= i < |threads| ==> IsWhole(server, AllObjects(pages)[i], threads[i])
  }

  /** Something is wrong: the thread pages break, or the first thread that is not whole does. */
  ghost predicate IsFailure(server: Server, code: NonZero) {
    (exists pages :: BreaksAfter(server.threads, None, pages, code)) ||
    (exists pages :: IsChain(server.threads, None, pages) && HasBrokenThread(server, AllObjects(pages), code))
  }

  ghost predicate CanBeWhole(server: Server, t: Thread) {
    exists whole :: IsWhole(server, t, whole)
  }

  ghost predicate FirstBroken(server: Server, threads: seq<Thread>, k: nat, code: NonZero) {
    k < |threads| && IsBroken(server, threads[k], code) && forall i :: 0 <= i < k ==> CanBeWhole(server, threads[i])
  }

  ghost predicate HasBrokenThread(server: Server, threads: seq<Thread>, code: NonZero) {
    exists k: nat :: FirstBroken(server, threads, k, code)
  }

  /** The loops return if every connection that is read, up to the first broken thread, comes to an end within the bound. */
  ghost predicate Terminates(server: Server, bound: nat) {
    Collect(server.threads, None, [], bound).Some? && ReadThreadsTerminate(server, ThreadsWithin(server, bound), bound)
  }

  ghost predicate ReadThreadsTerminate(server: Server, threads: seq<Thread>, bound: nat) {
    forall i :: 0 <= i < |threads| && (forall j :: 0 <= j < i ==> CanBeWhole(server, threads[j])) ==>
      ThreadTerminates(server, threads[i], bound)
  }

  ghost predicate ThreadTerminates(server: Server, t: Thread, bound: nat) {
    Readable(t) && t.comments.value.hasNext.value ==>
      Collect(CommentFetch(server, t.id), t.comments.value.endCursor, [], bound).Some?
  }

  ghost function ThreadsWithin(server: Server, bound: nat): seq<Thread> {
    var r := Collect(server.threads, None, [], bound);
    if r.Some? && r.value.Complete? then r.value.nodes else []
  }

  // ---------------------------------------------------------------------------
  // The loops.

  /** The outer loop: threads of all pages, and the pull request as the first page describes it. */
  method FetchThreads(server: Server, ghost bound: nat) returns (r: Result<seq<Thread>, NonZero>, pullRequest: string)
    requires Collect(server.threads, None, [], bound).Some?
    ensures match Collect(server.threads, None, [], bound).value
            case GaveUp(code) => r == Failure(code)
            case Complete(nodes, _) => r == Success(nodes) && server.threads(None).Page? && pullRequest == server.threads(None).about
  {
    var threads: seq<Thread> := [];
    var described := false;
    var cursor: Option<Cursor> := None;
    pullRequest := "";
    ghost var fuel := bound;
    while true
      invariant Collect(server.threads, cursor, threads, fuel) == Collect(server.threads, None, [], bound)
      invariant !described ==> cursor == None
      invariant described ==> server.threads(None).Page? && pullRequest == server.threads(None).about
      decreases fuel
    {
      var response := server.threads(cursor);
      if response.ProcessFailed? {
        return Failure(response.code), pullRequest;
      }
      if response.Unusable? {
        return Failure(1), pullRequest;
      }
      if !described {
        pullRequest, described := response.about, true;
      }
      if response.nodes.None? || response.hasNext.None? {
        return Failure(1), pullRequest;
      }
      threads := threads + Objects(response.nodes.value);
      if !response.hasNext.value {
        return Success(threads), pullRequest;
      }
      if response.endCursor.None? || response.endCursor.value == "" || response.endCursor == cursor {
        return Failure(1), pullRequest;
      }
      cursor := response.endCursor;
      fuel := fuel - 1;
    }
  }

  /** The inner loop: extends the thread's own comment list until no page is left. */
  method CompleteThread(server: Server, t: Thread, ghost bound: nat) returns (r: Result<Thread, NonZero>)
    requires ThreadTerminates(server, t, bound)
    ensures r.Success? ==> IsWhole(server, t, r.value)
    ensures r.Failure? ==> IsBroken(server, t, r.error)
  {
    if t.comments.None? || t.comments.value.nodes.None? || t.comments.value.hasNext.None? {
      return Failure(1);
    }
    var connection := t.comments.value;
    if !connection.hasNext.value {
      return Success(t);
    }
    if connection.endCursor.None? || connection.endCursor.value == "" {
      return Failure(1);
    }
    var fetched, last := FetchComments(CommentFetch(server, t.id), connection.endCursor, bound);
    ghost var pages := PagesBehind(CommentFetch(server, t.id), connection.endCursor, [], bound);
    if fetched.Failure? {
      return Failure(fetched.error);
    }
    assert [] + AllObjects(pages) == AllObjects(pages);
    return Success(WithComments(t, fetched.value, last));
  }

  method FetchComments(fetch: Fetch<Comment>, start: Option<Cursor>, ghost bound: nat)
    returns (r: Result<seq<Comment>, NonZero>, last: Response<Comment>)
    requires Collect(fetch, start, [], bound).Some?
    ensures match Collect(fetch, start, [], bound).value
            case GaveUp(code) => r == Failure(code)
            case Complete(nodes, final) => r == Success(nodes) && last == final && last.Page?
  {
    var comments: seq<Comment> := [];
    var cursor := start;
    last := Unusable;
    ghost var fuel := bound;
    while true
      invariant Collect(fetch, cursor, comments, fuel) == Collect(fetch, start, [], bound)
      decreases fuel
    {
      last := fetch(cursor);
      if last.ProcessFailed? {
        return Failure(last.code), last;
      }
      if last.Unusable? || last.nodes.None? || last.hasNext.None? {
        return Failure(1), last;
      }
      comments := comments + Objects(last.nodes.value);
      var previous := cursor;
      cursor := last.endCursor;
      if !last.hasNext.value {
        return Success(comments), last;
      }
      if cursor.None? || cursor.value == "" || cursor == previous {
        return Failure(1), last;
      }
      fuel := fuel - 1;
    }
  }

  /** Completes the threads one after the other and stops at the first that cannot be completed. */
  method CompleteThreads(server: Server, fetched: seq<Thread>, ghost bound: nat) returns (r: Result<seq<Thread>, NonZero>)
    requires ReadThreadsTerminate(server, fetched, bound)
    ensures r.Success? ==> |r.value| == |fetched| && forall i :: 0 <= i < |fetched| ==> IsWhole(server, fetched[i], r.value[i])
    ensures r.Failure? ==> HasBrokenThread(server, fetched, r.error)
  {
    var threads := fetched;
    for i := 0 to |threads|
      invariant |threads| == |fetched|
      invariant forall k :: i <= k < |threads| ==> threads[k] == fetched[k]
      invariant forall k :: 0 <= k < i ==> IsWhole(server, fetched[k], threads[k])
    {
      assert forall k :: 0 <= k < i ==> CanBeWhole(server, fetched[k]);
      var completed := CompleteThread(server, threads[i], bound);
      if completed.Failure? {
        assert FirstBroken(server, fetched, i, completed.error);
        return Failure(completed.error);
      }
      threads := threads[i := completed.value];
    }
    return Success(threads);
  }

  // ---------------------------------------------------------------------------
  // The answer is determined by the server.

  lemma {:induction false} ChainIsUnique<N>(fetch: Fetch<N>, cursor: Option<Cursor>, p: seq<Response<N>>, q: seq<Response<N>>)
    requires IsChain(fetch, cursor, p) && IsChain(fetch, cursor, q)
    ensures p == q
    decreases |p|
  {
    match Judge(p[0], cursor)
    case Last =>
    case More(next) =>
      ChainIsUnique(fetch, Some(next), p[1..], q[1..]);
      assert p == [p[0]] + p[1..] && q == [q[0]] + q[1..];
  }

  lemma {:induction false} NoChainWithBreak<N>(fetch: Fetch<N>, cursor: Option<Cursor>, p: seq<Response<N>>, q: seq<Response<N>>, code: NonZero)
    requires IsChain(fetch, cursor, p)
    ensures !BreaksAfter(fetch, cursor, q, code)
    decreases |p|
  {
    match Judge(p[0], cursor)
    case Last =>
    case More(next) =>
      if q != [] {
        NoChainWithBreak(fetch, Some(next), p[1..], q[1..], code);
      }
  }

  /** The comments of a thread that are JSON objects, in order. */
  ghost function CommentsOf(t: Thread): seq<Comment> {
    if t.comments.Some? && t.comments.value.nodes.Some? then Objects(t.comments.value.nodes.value) else []
  }

  lemma {:induction false} ObjectsOfNodes(comments: seq<Comment>)
    ensures Objects(AsNodes(comments)) == comments
  {
    if comments != [] {
      assert AsNodes(comments)[1..] == AsNodes(comments[1..]);
      ObjectsOfNodes(comments[1..]);
    }
  }

  lemma {:induction false} LastPageIsFinal<N>(fetch: Fetch<N>, cursor: Option<Cursor>, pages: seq<Response<N>>)
    requires IsChain(fetch, cursor, pages)
    ensures pages[|pages| - 1].Page? && pages[|pages| - 1].hasNext == Some(false)
    decreases |pages|
  {
    match Judge(pages[0], cursor)
    case Last => assert pages[|pages| - 1] == pages[0];
    case More(next) =>
      LastPageIsFinal(fetch, Some(next), pages[1..]);
      assert pages[1..][|pages[1..]| - 1] == pages[|pages| - 1];
  }

  lemma {:induction false} WithAllComments(t: Thread, more: seq<Comment>, last: Response<Comment>)
    requires Readable(t) && last.Page?
    ensures var whole := WithComments(t, more, last);
            && whole.id == t.id && whole.comments.Some? && CommentsOf(whole) == CommentsOf(t) + more
            && whole.comments.value.hasNext == last.hasNext && whole.comments.value.endCursor == last.endCursor
  {
    ObjectsOfConcat(t.comments.value.nodes.value, AsNodes(more));
    ObjectsOfNodes(more);
    hide Objects, AsNodes;
  }

  lemma {:induction false} WholeAsItCame(t: Thread)
    requires Readable(t) && !t.comments.value.hasNext.value
    ensures t.comments.value.hasNext == Some(false) && t.comments.value.hasNext != Some(true)
    ensures CommentsOf(t) == CommentsOf(t) + AllObjects([])
  {
    hide CommentsOf;
  }

  lemma {:induction false} WholeWithPages(server: Server, t: Thread, pages: seq<Response<Comment>>)
    requires Readable(t) && t.comments.value.hasNext.value
    requires IsChain(CommentFetch(server, t.id), t.comments.value.endCursor, pages) && pages != []
    ensures t.comments.value.hasNext == Some(true) && pages[|pages| - 1].Page?
    ensures var whole := WithComments(t, AllObjects(pages), pages[|pages| - 1]);
            && whole.id == t.id && whole.comments.Some? && CommentsOf(whole) == CommentsOf(t) + AllObjects(pages)
            && whole.comments.value.hasNext == Some(false)
            && whole.comments.value.endCursor == pages[|pages| - 1].endCursor
  {
    assert t.comments.value.hasNext == Some(true);
    hide *;
    LastPageIsFinal(CommentFetch(server, t.id), t.comments.value.endCursor, pages);
    WithAllComments(t, AllObjects(pages), pages[|pages| - 1]);
  }

  /**
   A whole thread is the thread it was, with its own comments in front and then, in page
   order, those of a chain of further pages, and its page information says that no page is left.
   */
  lemma {:induction false} WholeHasAllComments(server: Server, t: Thread, whole: Thread) returns (pages: seq<Response<Comment>>)
    requires IsWhole(server, t, whole)
    ensures whole.id == t.id && whole.comments.Some? && whole.comments.value.hasNext == Some(false)
    ensures CommentsOf(whole) == CommentsOf(t) + AllObjects(pages)
    ensures if t.comments.value.hasNext == Some(true)
            then IsChain(CommentFetch(server, t.id), t.comments.value.endCursor, pages) else pages == []
    ensures pages == [] ==> whole == t
    ensures pages != [] ==>
              pages[|pages| - 1].Page? && whole.comments.value.endCursor == pages[|pages| - 1].endCursor
  {
    if !t.comments.value.hasNext.value {
      pages := [];
      assert whole == t && Readable(t);
      hide *;
      WholeAsItCame(t);
    } else {
      pages :| IsChain(CommentFetch(server, t.id), t.comments.value.endCursor, pages) &&
               whole == WithComments(t, AllObjects(pages), pages[|pages| - 1]);
      assert Readable(t) && pages != [];
      hide *;
      WholeWithPages(server, t, pages);
    }
  }

  lemma {:induction false} WholeIsUnique(server: Server, t: Thread, a: Thread, b: Thread)
    requires IsWhole(server, t, a) && IsWhole(server, t, b)
    ensures a == b
  {
    if t.comments.value.hasNext.value {
      var p :| IsChain(CommentFetch(server, t.id), t.comments.value.endCursor, p) && a == WithComments(t, AllObjects(p), p[|p| - 1]);
      var q :| IsChain(CommentFetch(server, t.id), t.comments.value.endCursor, q) && b == WithComments(t, AllObjects(q), q[|q| - 1]);
      ChainIsUnique(CommentFetch(server, t.id), t.comments.value.endCursor, p, q);
    }
  }

  lemma {:induction false} WholeIsNotBroken(server: Server, t: Thread, whole: Thread, code: NonZero)
    requires IsWhole(server, t, whole)
    ensures !IsBroken(server, t, code)
  {
    if IsBroken(server, t, code) {
      var fetch, cursor := CommentFetch(server, t.id), t.comments.value.endCursor;
      var q :| BreaksAfter(fetch, cursor, q, code);
      var p :| IsChain(fetch, cursor, p) && whole == WithComments(t, AllObjects(p), p[|p| - 1]);
      NoChainWithBreak(fetch, cursor, p, q, code);
    }
  }

  lemma {:induction false} AnswerIsUnique(server: Server, a: string, s: seq<Thread>, b: string, t: seq<Thread>)
    requires IsFullAnswer(server, a, s) && IsFullAnswer(server, b, t)
    ensures a == b && s == t
  {
    var p: seq<Response<Thread>> :| IsChain(server.threads, None, p) && a == p[0].about && |s| == |AllObjects(p)| &&
             forall i :: 0 <= i < |s| ==> IsWhole(server, AllObjects(p)[i], s[i]);
    var q: seq<Response<Thread>> :| IsChain(server.threads, None, q) && b == q[0].about && |t| == |AllObjects(q)| &&
             forall i :: 0 <= i < |t| ==> IsWhole(server, AllObjects(q)[i], t[i]);
    hide IsChain, AllObjects, IsWhole;
    ChainIsUnique(server.threads, None, p, q);
    forall i | 0 <= i < |s| ensures s[i] == t[i] {
      WholeIsUnique(server, AllObjects(p)[i], s[i], t[i]);
    }
  }

  lemma {:induction false} AnswerExcludesFailure(server: Server, a: string, s: seq<Thread>, code: NonZero)
    requires IsFullAnswer(server, a, s)
    ensures !IsFailure(server, code)
  {
    var p: seq<Response<Thread>> :| IsChain(server.threads, None, p) && a == p[0].about && |s| == |AllObjects(p)| &&
             forall i :: 0 <= i < |s| ==> IsWhole(server, AllObjects(p)[i], s[i]);
    hide IsChain, AllObjects, IsWhole, IsBroken, BreaksAfter;
    forall q ensures !BreaksAfter(server.threads, None, q, code) {
      NoChainWithBreak(server.threads, None, p, q, code);
    }
    forall q | IsChain(server.threads, None, q) ensures !HasBrokenThread(server, AllObjects(q), code) {
      ChainIsUnique(server.threads, None, p, q);
      forall k: nat | k < |AllObjects(q)| ensures !IsBroken(server, AllObjects(q)[k], code) {
        WholeIsNotBroken(server, AllObjects(q)[k], s[k], code);
      }
    }
  }

  /** There is at most one full answer, and none when anything is wrong: so success and failure are both exact. */
  lemma {:induction false} AnswerIsExact(server: Server, a: string, s: seq<Thread>, b: string, t: seq<Thread>, code: NonZero)
    requires IsFullAnswer(server, a, s)
    ensures IsFullAnswer(server, b, t) ==> a == b && s == t
    ensures !IsFailure(server, code)
  {
    hide IsFullAnswer, IsFailure;
    AnswerExcludesFailure(server, a, s, code);
    if IsFullAnswer(server, b, t) {
      AnswerIsUnique(server, a, s, b, t);
    }
  }

  lemma {:induction false} FullAnswerIsReturned(server: Server, r: Outcome)
    requires if r.Done? then IsFullAnswer(server, r.pullRequest, r.threads) else IsFailure(server, r.code)
    ensures forall a, s :: IsFullAnswer(server, a, s) ==> r == Done(a, s)
  {
    hide IsFullAnswer, IsFailure;
    forall a, s | IsFullAnswer(server, a, s) ensures r == Done(a, s) {
      if r.Done? {
        AnswerIsUnique(server, a, s, r.pullRequest, r.threads);
      } else {
        AnswerExcludesFailure(server, a, s, r.code);
      }
    }
  }

  /**
   The whole query. Success is a full answer, an error is a real failure. Reading a connection
   whose pages never end would not return, so an end within some bound is assumed of those that
   are read; `EndsIffAnswered` says when there is one.
   */
  method ExecuteReviewThreads(server: Server, ghost bound: nat) returns (r: Outcome)
    requires Terminates(server, bound)
    ensures r.Done? ==> IsFullAnswer(server, r.pullRequest, r.threads)
    ensures r.Error? ==> IsFailure(server, r.code)
    ensures forall a, s :: IsFullAnswer(server, a, s) ==> r == Done(a, s)
  {
    var fetched, pullRequest := FetchThreads(server, bound);
    ghost var pages := PagesBehind(server.threads, None, [], bound);
    if fetched.Failure? {
      assert BreaksAfter(server.threads, None, pages, fetched.error);
      FullAnswerIsReturned(server, Error(fetched.error));
      return Error(fetched.error);
    }
    assert fetched.value == AllObjects(pages) by {
      assert [] + AllObjects(pages) == AllObjects(pages);
    }
    var threads := CompleteThreads(server, fetched.value, bound);
    assert IsChain(server.threads, None, pages);
    if threads.Failure? {
      FullAnswerIsReturned(server, Error(threads.error));
      return Error(threads.error);
    }
    FullAnswerIsReturned(server, Done(pullRequest, threads.value));
    return Done(pullRequest, threads.value);
  }

  // ---------------------------------------------------------------------------
  // When the loops return.

  lemma {:induction false} WholeTerminates(server: Server, t: Thread, whole: Thread) returns (bound: nat)
    requires IsWhole(server, t, whole)
    ensures ThreadTerminates(server, t, bound)
  {
    bound := 0;
    if t.comments.value.hasNext.value {
      var pages :| IsChain(CommentFetch(server, t.id), t.comments.value.endCursor, pages) &&
                   whole == WithComments(t, AllObjects(pages), pages[|pages| - 1]);
      ChainIsCollected(CommentFetch(server, t.id), t.comments.value.endCursor, [], pages);
      bound := |pages|;
    }
  }

  lemma {:induction false} BrokenTerminates(server: Server, t: Thread, code: NonZero) returns (bound: nat)
    requires IsBroken(server, t, code)
    ensures ThreadTerminates(server, t, bound)
  {
    bound := 0;
    if Readable(t) {
      var pages :| BreaksAfter(CommentFetch(server, t.id), t.comments.value.endCursor, pages, code);
      BreakIsReported(CommentFetch(server, t.id), t.comments.value.endCursor, [], pages, code);
      bound := |pages| + 1;
    }
  }

  lemma {:induction false} MoreTimeForThread(server: Server, t: Thread, bound: nat, more: nat)
    requires ThreadTerminates(server, t, bound) && bound <= more
    ensures ThreadTerminates(server, t, more)
  {
    if Readable(t) && t.comments.value.hasNext.value {
      MoreFuelSameResult(CommentFetch(server, t.id), t.comments.value.endCursor, [], bound, more);
    }
  }

  /** A bound for the first `n` threads, of which all but the last must be whole. */
  lemma {:induction false} BoundForThreads(server: Server, threads: seq<Thread>, n: nat, code: NonZero) returns (bound: nat)
    requires n <= |threads|
    requires forall i :: 0 <= i < n ==> CanBeWhole(server, threads[i]) || IsBroken(server, threads[i], code)
    ensures forall i :: 0 <= i < n ==> ThreadTerminates(server, threads[i], bound)
  {
    hide IsBroken, ThreadTerminates, IsWhole;
    bound := 0;
    for m := 0 to n
      invariant forall i :: 0 <= i < m ==> ThreadTerminates(server, threads[i], bound)
    {
      var own: nat;
      if CanBeWhole(server, threads[m]) {
        var whole :| IsWhole(server, threads[m], whole);
        own := WholeTerminates(server, threads[m], whole);
      } else {
        own := BrokenTerminates(server, threads[m], code);
      }
      var larger := if own > bound then own else bound;
      forall i | 0 <= i <= m ensures ThreadTerminates(server, threads[i], larger) {
        MoreTimeForThread(server, threads[i], if i == m then own else bound, larger);
      }
      bound := larger;
    }
  }

  /** Enough time for the thread pages and for the threads that are read is enough for the query. */
  lemma {:induction false} QueryTerminates(server: Server, outer: nat, inner: nat) returns (bound: nat)
    requires Collect(server.threads, None, [], outer).Some?
    requires ReadThreadsTerminate(server, ThreadsWithin(server, outer), inner)
    ensures Terminates(server, bound)
  {
    hide ThreadTerminates, CanBeWhole;
    bound := if outer > inner then outer else inner;
    MoreFuelSameResult(server.threads, None, [], outer, bound);
    var threads := ThreadsWithin(server, bound);
    assert threads == ThreadsWithin(server, outer);
    forall i | 0 <= i < |threads| && (forall j :: 0 <= j < i ==> CanBeWhole(server, threads[j]))
      ensures ThreadTerminates(server, threads[i], bound)
    {
      MoreTimeForThread(server, threads[i], inner, bound);
    }
  }

  lemma {:induction false} AnswerTerminates(server: Server, pullRequest: string, s: seq<Thread>) returns (bound: nat)
    requires IsFullAnswer(server, pullRequest, s)
    ensures Terminates(server, bound)
  {
    var pages: seq<Response<Thread>> :| IsChain(server.threads, None, pages) && |s| == |AllObjects(pages)| &&
                                        forall i :: 0 <= i < |s| ==> IsWhole(server, AllObjects(pages)[i], s[i]);
    hide IsChain, IsWhole, Terminates, ThreadTerminates;
    var threads := AllObjects(pages);
    ChainIsCollected(server.threads, None, [], pages);
    assert [] + threads == threads;
    forall i | 0 <= i < |threads| ensures CanBeWhole(server, threads[i]) {
      assert IsWhole(server, threads[i], s[i]);
    }
    var inner := BoundForThreads(server, threads, |threads|, 1);
    bound := QueryTerminates(server, |pages|, inner);
  }

  lemma {:induction false} BrokenPagesTerminate(server: Server, pages: seq<Response<Thread>>, code: NonZero) returns (bound: nat)
    requires BreaksAfter(server.threads, None, pages, code)
    ensures Terminates(server, bound)
  {
    hide BreaksAfter, CanBeWhole, ThreadTerminates;
    BreakIsReported(server.threads, None, [], pages, code);
    assert ThreadsWithin(server, |pages| + 1) == [];
    bound := |pages| + 1;
  }

  lemma {:induction false} ReadUpToBroken(server: Server, threads: seq<Thread>, k: nat, code: NonZero) returns (bound: nat)
    requires FirstBroken(server, threads, k, code)
    ensures ReadThreadsTerminate(server, threads, bound)
  {
    hide IsBroken, IsWhole, ThreadTerminates, CanBeWhole;
    bound := BoundForThreads(server, threads, k + 1, code);
    BrokenCannotBeWhole(server, threads[k], code);
  }

  lemma {:induction false} ThreadsOfChain(server: Server, pages: seq<Response<Thread>>)
    requires IsChain(server.threads, None, pages)
    ensures Collect(server.threads, None, [], |pages|).Some? && ThreadsWithin(server, |pages|) == AllObjects(pages)
  {
    hide IsChain, AllObjects, Collect;
    ChainIsCollected(server.threads, None, [], pages);
    assert [] + AllObjects(pages) == AllObjects(pages);
  }

  lemma {:induction false} BrokenThreadTerminates(server: Server, pages: seq<Response<Thread>>, k: nat, code: NonZero) returns (bound: nat)
    requires IsChain(server.threads, None, pages) && FirstBroken(server, AllObjects(pages), k, code)
    ensures Terminates(server, bound)
  {
    hide IsChain, FirstBroken, Terminates, ReadThreadsTerminate, ThreadsWithin, AllObjects, Collect;
    ThreadsOfChain(server, pages);
    var inner := ReadUpToBroken(server, AllObjects(pages), k, code);
    bound := QueryTerminates(server, |pages|, inner);
  }

  lemma {:induction false} FailureTerminates(server: Server, code: NonZero) returns (bound: nat)
    requires IsFailure(server, code)
    ensures Terminates(server, bound)
  {
    hide IsChain, BreaksAfter, FirstBroken, Terminates;
    if pages :| BreaksAfter(server.threads, None, pages, code) {
      bound := BrokenPagesTerminate(server, pages, code);
    } else {
      var pages :| IsChain(server.threads, None, pages) && HasBrokenThread(server, AllObjects(pages), code);
      var k: nat :| FirstBroken(server, AllObjects(pages), k, code);
      bound := BrokenThreadTerminates(server, pages, k, code);
    }
  }

  lemma {:induction false} BrokenCannotBeWhole(server: Server, t: Thread, code: NonZero)
    requires IsBroken(server, t, code)
    ensures !CanBeWhole(server, t)
  {
    hide IsBroken, IsWhole;
    if whole :| IsWhole(server, t, whole) {
      WholeIsNotBroken(server, t, whole, code);
    }
  }

  lemma {:induction false} ThreadOutcome(server: Server, t: Thread, bound: nat)
    requires ThreadTerminates(server, t, bound)
    ensures CanBeWhole(server, t) || exists code :: IsBroken(server, t, code)
  {
    if !Readable(t) {
      assert IsBroken(server, t, 1);
    } else if !t.comments.value.hasNext.value {
      assert IsWhole(server, t, t);
    } else {
      var fetch, cursor := CommentFetch(server, t.id), t.comments.value.endCursor;
      var pages := PagesBehind(fetch, cursor, [], bound);
      match Collect(fetch, cursor, [], bound).value
      case GaveUp(code) => assert IsBroken(server, t, code);
      case Complete(nodes, last) =>
        assert IsWhole(server, t, WithComments(t, AllObjects(pages), pages[|pages| - 1]));
    }
  }

  lemma {:induction false} WholeThreads(server: Server, threads: seq<Thread>) returns (s: seq<Thread>)
    requires forall i :: 0 <= i < |threads| ==> CanBeWhole(server, threads[i])
    ensures |s| == |threads| && forall i :: 0 <= i < |s| ==> IsWhole(server, threads[i], s[i])
  {
    hide IsWhole;
    s := [];
    for n := 0 to |threads|
      invariant |s| == n && forall i :: 0 <= i < n ==> IsWhole(server, threads[i], s[i])
    {
      assert CanBeWhole(server, threads[n]);
      var whole :| IsWhole(server, threads[n], whole);
      s := s + [whole];
    }
  }

  /** Either all threads are whole, or there is a first one that is broken. */
  lemma {:induction false} ThreadsOutcome(server: Server, threads: seq<Thread>, bound: nat) returns (s: seq<Thread>)
    requires ReadThreadsTerminate(server, threads, bound)
    ensures (|s| == |threads| && forall i :: 0 <= i < |s| ==> IsWhole(server, threads[i], s[i])) ||
            exists code :: HasBrokenThread(server, threads, code)
  {
    hide IsWhole, IsBroken, ThreadTerminates, CanBeWhole;
    var k := 0;
    while k < |threads| && CanBeWhole(server, threads[k])
      invariant k <= |threads| && forall i :: 0 <= i < k ==> CanBeWhole(server, threads[i])
    {
      k := k + 1;
    }
    if k < |threads| {
      ThreadOutcome(server, threads[k], bound);
      var code :| IsBroken(server, threads[k], code);
      assert FirstBroken(server, threads, k, code);
      assert HasBrokenThread(server, threads, code);
      s := [];
    } else {
      s := WholeThreads(server, threads);
    }
  }

  /** What is behind the bounded outer loop: a break, or a chain with the threads that were found. */
  lemma {:induction false} PagesOutcome(server: Server, bound: nat) returns (pages: seq<Response<Thread>>)
    requires Terminates(server, bound)
    ensures (exists code :: BreaksAfter(server.threads, None, pages, code)) ||
            (IsChain(server.threads, None, pages) && ReadThreadsTerminate(server, AllObjects(pages), bound))
  {
    hide IsChain, BreaksAfter, ReadThreadsTerminate;
    pages := PagesBehind(server.threads, None, [], bound);
    assert [] + AllObjects(pages) == AllObjects(pages);
    match Collect(server.threads, None, [], bound).value
    case GaveUp(code) => assert BreaksAfter(server.threads, None, pages, code);
    case Complete(_, _) =>
  }

  lemma {:induction false} OutcomeExists(server: Server, bound: nat)
    requires Terminates(server, bound)
    ensures (exists a, s :: IsFullAnswer(server, a, s)) || (exists code :: IsFailure(server, code))
  {
    hide IsChain, BreaksAfter, IsWhole, HasBrokenThread, Terminates, ReadThreadsTerminate, AllObjects;
    var pages := PagesOutcome(server, bound);
    if code :| BreaksAfter(server.threads, None, pages, code) {
      assert IsFailure(server, code);
    } else {
      var s := ThreadsOutcome(server, AllObjects(pages), bound);
      if code :| HasBrokenThread(server, AllObjects(pages), code) {
        assert IsFailure(server, code);
      } else {
        ChainHasPages(server.threads, None, pages);
        assert IsFullAnswer(server, pages[0].about, s);
      }
    }
  }

  lemma {:induction false} ChainHasPages<N>(fetch: Fetch<N>, cursor: Option<Cursor>, pages: seq<Response<N>>)
    requires IsChain(fetch, cursor, pages)
    ensures pages != [] && pages[0].Page?
  {
  }

  /** The query returns exactly where there is something to return: a full answer or a real failure. */
  lemma {:induction false} EndsIffAnswered(server: Server)
    ensures (exists bound: nat :: Terminates(server, bound)) <==>
            (exists a, s :: IsFullAnswer(server, a, s)) || (exists code :: IsFailure(server, code))
  {
    hide IsFullAnswer, IsFailure, Terminates;
    if a, s :| IsFullAnswer(server, a, s) {
      var bound := AnswerTerminates(server, a, s);
    }
    if code :| IsFailure(server, code) {
      var bound := FailureTerminates(server, code);
    }
    if bound: nat :| Terminates(server, bound) {
      OutcomeExists(server, bound);
    }
  }
}
