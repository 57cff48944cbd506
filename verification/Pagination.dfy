/**
 Cursor pagination: one connection is read page by page until a page says there is no next
 one. The server is any function from cursors to responses, well behaved or not.
 */
module Pagination {
  import opened Wrappers

  type Cursor = string

  /** The return code of a failure. */
  type NonZero = code: int | code != 0 witness 1

  /** A node that is not a JSON object is `None`; fields of the wrong type are `None` too. */
  datatype Response<N> =
    | ProcessFailed(code: NonZero)
    | Unusable
    | Page(about: string, nodes: Option<seq<Option<N>>>, hasNext: Option<bool>, endCursor: Option<string>)

  type Fetch<!N> = Option<Cursor> -> Response<N>

  /** What the loop does with a response: stop with a return code, finish, or go on at the next cursor. */
  datatype Verdict = Stop(code: NonZero) | Last | More(next: Cursor)

  function Judge<N>(response: Response<N>, cursor: Option<Cursor>): Verdict {
    match response
    case ProcessFailed(code) => Stop(code)
    case Unusable => Stop(1)
    case Page(_, nodes, hasNext, endCursor) =>
      if nodes.None? || hasNext.None? then Stop(1)
      else if !hasNext.value then Last
      else if endCursor.None? || endCursor.value == "" || endCursor == cursor then Stop(1)
      else More(endCursor.value)
  }

  /** The page has a list of nodes and says whether there is a next one. */
  ghost predicate IsReadable<N>(response: Response<N>) {
    response.Page? && response.nodes.Some? && response.hasNext.Some?
  }

  /** The cursor of the next page: some text, not empty and not the cursor just used. */
  ghost predicate IsNewCursor(next: Option<string>, cursor: Option<Cursor>) {
    next.Some? && next.value != "" && next != cursor
  }

  /**
   What stops the loop, told from the response: a failed process with its own return code; and
   with code 1 anything that is no readable page, or one that promises a next page but names
   no new cursor. It finishes at a readable page without a next one, and else goes on at the
   cursor named.
   */
  lemma {:induction false} JudgeMeans<N>(response: Response<N>, cursor: Option<Cursor>)
    ensures response.ProcessFailed? ==> Judge(response, cursor) == Stop(response.code)
    ensures !response.ProcessFailed? && !IsReadable(response) ==> Judge(response, cursor) == Stop(1)
    ensures IsReadable(response) && response.hasNext == Some(true) && !IsNewCursor(response.endCursor, cursor) ==>
              Judge(response, cursor) == Stop(1)
    ensures IsReadable(response) && response.hasNext == Some(true) && IsNewCursor(response.endCursor, cursor) ==>
              Judge(response, cursor) == More(response.endCursor.value)
    ensures IsReadable(response) && response.hasNext == Some(false) ==> Judge(response, cursor) == Last
  {
  }

  /** The JSON objects among the nodes, in order. */
  function Objects<N>(nodes: seq<Option<N>>): seq<N> {
    if nodes == [] then []
    else (if nodes[0].Some? then [nodes[0].value] else []) + Objects(nodes[1..])
  }

  function PageObjects<N>(page: Response<N>): seq<N> {
    if page.Page? && page.nodes.Some? then Objects(page.nodes.value) else []
  }

  /** Nodes that are no objects are dropped, the others stay in order. */
  lemma {:induction false} ObjectsOfConcat<N>(a: seq<Option<N>>, b: seq<Option<N>>)
    ensures Objects(a + b) == Objects(a) + Objects(b)
    ensures forall n: Option<N> :: Objects([n]) == match n { case Some(node) => [node] case None => [] }
  {
    forall n: Option<N> ensures Objects([n]) == match n { case Some(node) => [node] case None => [] } {
      assert [n][1..] == [];
    }
    if a == [] {
      assert a + b == b;
    } else {
      assert (a + b)[1..] == a[1..] + b && (a + b)[0] == a[0];
      ObjectsOfConcat(a[1..], b);
      Associates(if a[0].Some? then [a[0].value] else [], Objects(a[1..]), Objects(b));
    }
  }

  /** A non-empty list of good pages, each fetched at the cursor the one before it named, the last one final. */
  ghost predicate IsChain<N>(fetch: Fetch<N>, cursor: Option<Cursor>, pages: seq<Response<N>>)
    decreases |pages|
  {
    pages != [] && fetch(cursor) == pages[0] &&
    match Judge(pages[0], cursor)
    case Stop(_) => false
    case Last => |pages| == 1
    case More(next) => IsChain(fetch, Some(next), pages[1..])
  }

  /** Good pages that lead to a response the loop gives up on with `code`. */
  ghost predicate BreaksAfter<N>(fetch: Fetch<N>, cursor: Option<Cursor>, pages: seq<Response<N>>, code: NonZero)
    decreases |pages|
  {
    match Judge(fetch(cursor), cursor)
    case Stop(c) => pages == [] && c == code
    case Last => false
    case More(next) => pages != [] && pages[0] == fetch(cursor) && BreaksAfter(fetch, Some(next), pages[1..], code)
  }

  ghost function AllObjects<N>(pages: seq<Response<N>>): seq<N> {
    if pages == [] then [] else PageObjects(pages[0]) + AllObjects(pages[1..])
  }

  datatype Collected<N> = GaveUp(code: NonZero) | Complete(nodes: seq<N>, last: Response<N>)

  /** The loop run for at most `fuel` fetches; `None` when it has not returned by then. */
  function Collect<N>(fetch: Fetch<N>, cursor: Option<Cursor>, before: seq<N>, fuel: nat): Option<Collected<N>>
    decreases fuel
  {
    if fuel == 0 then None
    else
      var response := fetch(cursor);
      match Judge(response, cursor)
      case Stop(code) => Some(GaveUp(code))
      case Last => Some(Complete(before + PageObjects(response), response))
      case More(next) => Collect(fetch, Some(next), before + PageObjects(response), fuel - 1)
  }

  lemma {:induction false} MoreFuelSameResult<N>(fetch: Fetch<N>, cursor: Option<Cursor>, before: seq<N>, fuel: nat, more: nat)
    requires Collect(fetch, cursor, before, fuel).Some? && fuel <= more
    ensures Collect(fetch, cursor, before, more) == Collect(fetch, cursor, before, fuel)
    decreases fuel
  {
    match Judge(fetch(cursor), cursor)
    case Stop(_) =>
    case Last =>
    case More(next) => MoreFuelSameResult(fetch, Some(next), before + PageObjects(fetch(cursor)), fuel - 1, more - 1);
  }

  lemma {:induction false} NothingBefore<N>()
    ensures AllObjects<N>([]) == []
  {
  }

  /** A chain is collected completely, in page order. */
  lemma {:induction false} ChainIsCollected<N>(fetch: Fetch<N>, cursor: Option<Cursor>, before: seq<N>, pages: seq<Response<N>>)
    requires IsChain(fetch, cursor, pages)
    ensures Collect(fetch, cursor, before, |pages|) ==
            Some(Complete(before + AllObjects(pages), pages[|pages| - 1]))
    decreases |pages|
  {
    hide PageObjects, AllObjects;
    AllObjectsStep(before, pages);
    match Judge(pages[0], cursor)
    case Last =>
      var all := before + PageObjects(pages[0]);
      NothingBefore<N>();
      assert pages[1..] == [] && all + [] == all;
    case More(next) =>
      ChainIsCollected(fetch, Some(next), before + PageObjects(pages[0]), pages[1..]);
      assert pages[1..][|pages[1..]| - 1] == pages[|pages| - 1];
  }

  lemma {:induction false} AllObjectsStep<N>(before: seq<N>, pages: seq<Response<N>>)
    requires pages != []
    ensures before + AllObjects(pages) == before + PageObjects(pages[0]) + AllObjects(pages[1..])
  {
  }

  lemma {:induction false} BreakIsReported<N>(fetch: Fetch<N>, cursor: Option<Cursor>, before: seq<N>, pages: seq<Response<N>>, code: NonZero)
    requires BreaksAfter(fetch, cursor, pages, code)
    ensures Collect(fetch, cursor, before, |pages| + 1) == Some(GaveUp(code))
    decreases |pages|
  {
    match Judge(fetch(cursor), cursor)
    case Stop(_) =>
    case More(next) => BreakIsReported(fetch, Some(next), before + PageObjects(fetch(cursor)), pages[1..], code);
  }

  /** The pages behind a result. */
  lemma {:induction false} PagesBehind<N>(fetch: Fetch<N>, cursor: Option<Cursor>, before: seq<N>, fuel: nat)
    returns (pages: seq<Response<N>>)
    requires Collect(fetch, cursor, before, fuel).Some?
    ensures match Collect(fetch, cursor, before, fuel).value
            case GaveUp(code) => BreaksAfter(fetch, cursor, pages, code)
            case Complete(nodes, last) =>
              IsChain(fetch, cursor, pages) && nodes == before + AllObjects(pages) && last == pages[|pages| - 1]
    decreases fuel
  {
    var response := fetch(cursor);
    match Judge(response, cursor)
    case Stop(_) => pages := [];
    case Last =>
      pages := [response];
      AllObjectsStep(before, pages);
      assert AllObjects(pages[1..]) == [];
    case More(next) =>
      var rest := PagesBehind(fetch, Some(next), before + PageObjects(response), fuel - 1);
      pages := [response] + rest;
      assert pages[1..] == rest;
      AllObjectsStep(before, pages);
  }

  ghost predicate Returns<N>(fetch: Fetch<N>, cursor: Option<Cursor>, result: Collected<N>) {
    exists fuel: nat :: Collect(fetch, cursor, [], fuel) == Some(result)
  }

  /**
   Pagination is exact: it returns a complete result iff the server offers a finite chain of
   good pages, and then the nodes of all of them in page order; it gives up with a code iff
   good pages lead to a response that stops it with that code.
   */
  lemma {:induction false} CompleteIffChain<N>(fetch: Fetch<N>, cursor: Option<Cursor>, nodes: seq<N>, last: Response<N>)
    ensures Returns(fetch, cursor, Complete(nodes, last)) <==>
            exists pages :: IsChain(fetch, cursor, pages) && nodes == AllObjects(pages) && last == pages[|pages| - 1]
  {
    if Returns(fetch, cursor, Complete(nodes, last)) {
      var fuel: nat :| Collect(fetch, cursor, [], fuel) == Some(Complete(nodes, last));
      var pages := PagesBehind(fetch, cursor, [], fuel);
      assert [] + AllObjects(pages) == AllObjects(pages);
    }
    if pages :| IsChain(fetch, cursor, pages) && nodes == AllObjects(pages) && last == pages[|pages| - 1] {
      ChainIsCollected(fetch, cursor, [], pages);
      assert [] + AllObjects(pages) == AllObjects(pages);
    }
  }

  lemma {:induction false} GivesUpIffBreak<N>(fetch: Fetch<N>, cursor: Option<Cursor>, code: NonZero)
    ensures Returns(fetch, cursor, GaveUp(code)) <==> exists pages :: BreaksAfter(fetch, cursor, pages, code)
  {
    if Returns(fetch, cursor, GaveUp(code)) {
      var fuel: nat :| Collect(fetch, cursor, [], fuel) == Some(GaveUp(code));
      var pages := PagesBehind(fetch, cursor, [], fuel);
      assert BreaksAfter(fetch, cursor, pages, code);
      assert exists pages :: BreaksAfter(fetch, cursor, pages, code);
    }
    if pages :| BreaksAfter(fetch, cursor, pages, code) {
      BreakIsReported(fetch, cursor, [], pages, code);
      assert Returns(fetch, cursor, GaveUp(code));
    }
  }

  /** A result, once there, is the only one: a server cannot offer both a chain and a break, or two chains. */
  lemma {:induction false} ResultIsUnique<N>(fetch: Fetch<N>, cursor: Option<Cursor>, before: seq<N>, m: nat, n: nat)
    requires Collect(fetch, cursor, before, m).Some? && Collect(fetch, cursor, before, n).Some?
    ensures Collect(fetch, cursor, before, m) == Collect(fetch, cursor, before, n)
  {
    if m <= n {
      MoreFuelSameResult(fetch, cursor, before, m, n);
    } else {
      MoreFuelSameResult(fetch, cursor, before, n, m);
    }
  }

  /** Every cursor in the set leads on to a cursor in the set. */
  ghost predicate IsClosed<N>(fetch: Fetch<N>, cursors: iset<Option<Cursor>>) {
    forall c :: c in cursors ==> Judge(fetch(c), c).More? && Some(Judge(fetch(c), c).next) in cursors
  }

  ghost predicate NeverReturns<N>(fetch: Fetch<N>, cursor: Option<Cursor>, before: seq<N>) {
    forall fuel: nat :: Collect(fetch, cursor, before, fuel) == None
  }

  lemma {:induction false} ClosedGoesOn<N>(fetch: Fetch<N>, cursor: Option<Cursor>, before: seq<N>, cursors: iset<Option<Cursor>>, fuel: nat)
    requires cursor in cursors && IsClosed(fetch, cursors)
    ensures Collect(fetch, cursor, before, fuel) == None
    decreases fuel
  {
    if fuel > 0 {
      var next := Judge(fetch(cursor), cursor).next;
      ClosedGoesOn(fetch, Some(next), before + PageObjects(fetch(cursor)), cursors, fuel - 1);
    }
  }

  /** Whether the loop returns does not depend on what was collected before. */
  lemma {:induction false} BeforeIsIrrelevant<N>(fetch: Fetch<N>, cursor: Option<Cursor>, a: seq<N>, b: seq<N>, fuel: nat)
    ensures Collect(fetch, cursor, a, fuel).None? <==> Collect(fetch, cursor, b, fuel).None?
    decreases fuel
  {
    if fuel > 0 && Judge(fetch(cursor), cursor).More? {
      BeforeIsIrrelevant(fetch, Some(Judge(fetch(cursor), cursor).next),
                         a + PageObjects(fetch(cursor)), b + PageObjects(fetch(cursor)), fuel - 1);
    }
  }

  /** Where the loop never returns it is led on to a cursor from which it never returns either. */
  lemma {:induction false} NeverReturnsStep<N>(fetch: Fetch<N>, cursor: Option<Cursor>)
    requires NeverReturns(fetch, cursor, [])
    ensures Judge(fetch(cursor), cursor).More? && NeverReturns(fetch, Some(Judge(fetch(cursor), cursor).next), [])
  {
    assert Collect(fetch, cursor, [], 1) == None;
    var next := Some(Judge(fetch(cursor), cursor).next);
    forall fuel: nat ensures Collect(fetch, next, [], fuel) == None {
      assert Collect(fetch, cursor, [], fuel + 1) == None;
      BeforeIsIrrelevant(fetch, next, [], [] + PageObjects(fetch(cursor)), fuel);
    }
  }

  /**
   Only a repeated cursor is noticed, not a longer cycle or an endless run of new cursors: the
   loop never returns iff the cursor belongs to some set, finite or not, in which every page
   points on to a page in the set.
   */
  lemma {:induction false} CycleNeverReturns<N>(fetch: Fetch<N>, cursor: Option<Cursor>, before: seq<N>)
    ensures NeverReturns(fetch, cursor, before) <==>
            exists cursors: iset<Option<Cursor>> :: cursor in cursors && IsClosed(fetch, cursors)
  {
    if cursors: iset<Option<Cursor>> :| cursor in cursors && IsClosed(fetch, cursors) {
      forall fuel: nat ensures Collect(fetch, cursor, before, fuel) == None {
        ClosedGoesOn(fetch, cursor, before, cursors, fuel);
      }
    }
    if NeverReturns(fetch, cursor, before) {
      var cursors := iset c: Option<Cursor> | NeverReturns(fetch, c, []);
      forall fuel: nat ensures Collect(fetch, cursor, [], fuel) == None {
        BeforeIsIrrelevant(fetch, cursor, before, [], fuel);
      }
      assert cursor in cursors;
      forall c | c in cursors ensures Judge(fetch(c), c).More? && Some(Judge(fetch(c), c).next) in cursors {
        NeverReturnsStep(fetch, c);
      }
      assert IsClosed(fetch, cursors);
    }
  }

  /** Such a server exists: two pages that name each other. */
  lemma {:induction false} TwoPageCycle(fuel: nat)
    ensures var fetch: Fetch<string> := (c: Option<Cursor>) =>
              Page("", Some([]), Some(true), Some(if c == Some("a") then "b" else "a"));
            Collect(fetch, None, [], fuel) == None
  {
    var fetch: Fetch<string> := (c: Option<Cursor>) =>
      Page("", Some([]), Some(true), Some(if c == Some("a") then "b" else "a"));
    ClosedGoesOn(fetch, None, [], iset{None, Some("a"), Some("b")}, fuel);
  }
}
