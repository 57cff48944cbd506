/** Folding planning events into the questions still waiting for an acceptable answer. */
module OpenQuestions {
  import opened Wrappers

  type QuestionId = string

  datatype EventType = NeedsAnswer | AnswerAccepted | OtherType

  /** `question` is `None` when the payload has no question object with a string id; `report` is what is kept of the event. */
  datatype Event<T> = Event(eventType: EventType, question: Option<QuestionId>, report: T)

  /** A dictionary with its keys in order of insertion. */
  datatype Entry<T> = Entry(id: QuestionId, report: T)

  /** Assignment keeps the place of an existing key. */
  function Put<T>(entries: seq<Entry<T>>, id: QuestionId, report: T): seq<Entry<T>> {
    if entries == [] then [Entry(id, report)]
    else if entries[0].id == id then [Entry(id, report)] + entries[1..]
    else [entries[0]] + Put(entries[1..], id, report)
  }

  function Pop<T>(entries: seq<Entry<T>>, id: QuestionId): seq<Entry<T>> {
    if entries == [] then []
    else if entries[0].id == id then entries[1..]
    else [entries[0]] + Pop(entries[1..], id)
  }

  predicate Concerns<T>(e: Event<T>, id: QuestionId) {
    e.eventType != OtherType && e.question == Some(id)
  }

  function Handle<T>(entries: seq<Entry<T>>, e: Event<T>): seq<Entry<T>> {
    if e.eventType == OtherType || e.question.None? then entries
    else if e.eventType == AnswerAccepted then Pop(entries, e.question.value)
    else Put(entries, e.question.value, e.report)
  }

  function Fold<T>(events: seq<Event<T>>): seq<Entry<T>> {
    if events == [] then [] else Handle(Fold(events[..|events| - 1]), events[|events| - 1])
  }

  method UnresolvedQuestions<T>(events: seq<Event<T>>) returns (unresolved: seq<Entry<T>>)
    ensures unresolved == Fold(events)
  {
    unresolved := [];
    for i := 0 to |events|
      invariant unresolved == Fold(events[..i])
    {
      assert events[..i + 1][..i] == events[..i];
      if events[i].eventType == OtherType {
        continue;
      }
      if events[i].question.None? {
        continue;
      }
      if events[i].eventType == AnswerAccepted {
        unresolved := Pop(unresolved, events[i].question.value);
        continue;
      }
      unresolved := Put(unresolved, events[i].question.value, events[i].report);
    }
    assert events[..|events|] == events;
  }

  // ---------------------------------------------------------------------------
  // What the events say about one question, without any dictionary.

  /** The last event about the question. */
  ghost function LastAbout<T>(events: seq<Event<T>>, id: QuestionId): Option<Event<T>> {
    if events == [] then None
    else if Concerns(events[|events| - 1], id) then Some(events[|events| - 1])
    else LastAbout(events[..|events| - 1], id)
  }

  /** The question is open: the last event about it asks for an answer. */
  ghost predicate IsOpen<T>(events: seq<Event<T>>, id: QuestionId) {
    LastAbout(events, id).Some? && LastAbout(events, id).value.eventType == NeedsAnswer
  }

  /** Since when the question has been open: it was asked at `since`, was not open just before, and was not accepted after. */
  ghost predicate OpenSince<T>(events: seq<Event<T>>, id: QuestionId, since: nat) {
    && since < |events|
    && Concerns(events[since], id) && events[since].eventType == NeedsAnswer
    && !IsOpen(events[..since], id)
    && forall i :: since < i < |events| && Concerns(events[i], id) ==> events[i].eventType == NeedsAnswer
  }

  // ---------------------------------------------------------------------------
  // Contents of the fold.

  ghost function Find<T>(entries: seq<Entry<T>>, id: QuestionId): Option<T> {
    if entries == [] then None
    else if entries[0].id == id then Some(entries[0].report)
    else Find(entries[1..], id)
  }

  ghost predicate DistinctIds<T>(entries: seq<Entry<T>>) {
    forall k, l :: 0 <= k < l < |entries| ==> entries[k].id != entries[l].id
  }

  lemma {:induction false} FindMeans<T>(entries: seq<Entry<T>>, id: QuestionId)
    ensures Find(entries, id).None? <==> forall k :: 0 <= k < |entries| ==> entries[k].id != id
  {
    if entries != [] {
      FindMeans(entries[1..], id);
      if Find(entries, id).None? {
        forall k | 0 <= k < |entries| ensures entries[k].id != id {
          assert k > 0 ==> entries[k] == entries[1..][k - 1];
        }
      }
    }
  }

  lemma {:induction false} FindAt<T>(entries: seq<Entry<T>>, k: nat)
    requires DistinctIds(entries) && k < |entries|
    ensures Find(entries, entries[k].id) == Some(entries[k].report)
  {
    if k > 0 {
      FindAt(entries[1..], k - 1);
    }
  }

  lemma {:induction false} FindPut<T>(entries: seq<Entry<T>>, id: QuestionId, report: T, q: QuestionId)
    ensures Find(Put(entries, id, report), q) == if q == id then Some(report) else Find(entries, q)
  {
    if entries != [] && entries[0].id != id {
      FindPut(entries[1..], id, report, q);
    }
  }

  lemma {:induction false} FindPop<T>(entries: seq<Entry<T>>, id: QuestionId, q: QuestionId)
    requires DistinctIds(entries)
    ensures Find(Pop(entries, id), q) == if q == id then None else Find(entries, q)
  {
    if entries != [] {
      if entries[0].id == id {
        FindMeans(entries[1..], id);
      } else {
        FindPop(entries[1..], id, q);
      }
    }
  }

  lemma {:induction false} PutAt<T>(entries: seq<Entry<T>>, k: nat, report: T)
    requires k < |entries| && forall i :: 0 <= i < k ==> entries[i].id != entries[k].id
    ensures Put(entries, entries[k].id, report) == entries[k := Entry(entries[k].id, report)]
  {
    if k > 0 {
      PutAt(entries[1..], k - 1, report);
    }
  }

  lemma {:induction false} PutNew<T>(entries: seq<Entry<T>>, id: QuestionId, report: T)
    requires forall i :: 0 <= i < |entries| ==> entries[i].id != id
    ensures Put(entries, id, report) == entries + [Entry(id, report)]
  {
    if entries != [] {
      PutNew(entries[1..], id, report);
    }
  }

  lemma {:induction false} PopAt<T>(entries: seq<Entry<T>>, k: nat)
    requires k < |entries| && forall i :: 0 <= i < k ==> entries[i].id != entries[k].id
    ensures Pop(entries, entries[k].id) == entries[..k] + entries[k + 1..]
  {
    if k > 0 {
      PopAt(entries[1..], k - 1);
    }
  }

  lemma {:induction false} PopMissing<T>(entries: seq<Entry<T>>, id: QuestionId)
    requires forall i :: 0 <= i < |entries| ==> entries[i].id != id
    ensures Pop(entries, id) == entries
  {
    if entries != [] {
      PopMissing(entries[1..], id);
    }
  }

  /** Where an id sits, if it is a key. */
  lemma {:induction false} Locate<T>(entries: seq<Entry<T>>, id: QuestionId) returns (k: nat)
    requires DistinctIds(entries)
    ensures k <= |entries| && (k < |entries| ==> entries[k].id == id)
    ensures k == |entries| ==> forall i :: 0 <= i < |entries| ==> entries[i].id != id
  {
    k := 0;
    while k < |entries| && entries[k].id != id
      invariant k <= |entries| && forall i :: 0 <= i < k ==> entries[i].id != id
    {
      k := k + 1;
    }
  }

  lemma {:induction false} DistinctWithout<T>(entries: seq<Entry<T>>, k: nat)
    requires DistinctIds(entries) && k < |entries|
    ensures DistinctIds(entries[..k] + entries[k + 1..])
  {
  }

  lemma {:induction false} HandleKeepsDistinct<T>(entries: seq<Entry<T>>, e: Event<T>)
    requires DistinctIds(entries)
    ensures DistinctIds(Handle(entries, e))
  {
    hide Put, Pop;
    if e.eventType != OtherType && e.question.Some? {
      var k := Locate(entries, e.question.value);
      if k == |entries| {
        PutNew(entries, e.question.value, e.report);
        PopMissing(entries, e.question.value);
      } else if e.eventType == AnswerAccepted {
        PopAt(entries, k);
        DistinctWithout(entries, k);
      } else {
        PutAt(entries, k, e.report);
      }
    }
  }

  lemma {:induction false} HandleFinds<T>(entries: seq<Entry<T>>, e: Event<T>, id: QuestionId)
    requires DistinctIds(entries)
    ensures Find(Handle(entries, e), id) ==
            if !Concerns(e, id) then Find(entries, id)
            else if e.eventType == NeedsAnswer then Some(e.report) else None
  {
    if e.eventType != OtherType && e.question.Some? {
      FindPut(entries, e.question.value, e.report, id);
      FindPop(entries, e.question.value, id);
    }
  }

  lemma {:induction false} FoldIsDistinct<T>(events: seq<Event<T>>)
    ensures DistinctIds(Fold(events))
  {
    if events != [] {
      FoldIsDistinct(events[..|events| - 1]);
      HandleKeepsDistinct(Fold(events[..|events| - 1]), events[|events| - 1]);
    }
  }

  /** The fold lists exactly the open questions, each once, with the report of the last event about it. */
  lemma {:induction false} FoldListsOpenQuestions<T>(events: seq<Event<T>>, id: QuestionId)
    ensures DistinctIds(Fold(events))
    ensures Find(Fold(events), id) == if IsOpen(events, id) then Some(LastAbout(events, id).value.report) else None
  {
    FoldIsDistinct(events);
    if events != [] {
      FoldIsDistinct(events[..|events| - 1]);
      FoldListsOpenQuestions(events[..|events| - 1], id);
      HandleFinds(Fold(events[..|events| - 1]), events[|events| - 1], id);
    }
  }

  // ---------------------------------------------------------------------------
  // Order of the fold.

  /** An event about something else changes nothing for a question; another request keeps an open question open since then. */
  lemma {:induction false} StaysOpenSince<T>(events: seq<Event<T>>, id: QuestionId, since: nat)
    requires events != [] && OpenSince(events[..|events| - 1], id, since)
    requires !Concerns(events[|events| - 1], id) || events[|events| - 1].eventType == NeedsAnswer
    ensures OpenSince(events, id, since)
  {
    assert events[..since] == events[..|events| - 1][..since];
  }

  /** The entries became open in the order in which they are listed. */
  ghost predicate InOrder<T>(events: seq<Event<T>>, entries: seq<Entry<T>>, since: seq<nat>) {
    && |since| == |entries|
    && (forall k :: 0 <= k < |since| ==> OpenSince(events, entries[k].id, since[k]))
    && (forall k, l :: 0 <= k < l < |since| ==> since[k] < since[l])
  }

  /** The fold lists the questions in the order in which they became open; asking again keeps the place. */
  lemma {:induction false} FoldKeepsOrder<T>(events: seq<Event<T>>) returns (since: seq<nat>)
    ensures InOrder(events, Fold(events), since)
  {
    since := [];
    if events != [] {
      var front, last := events[..|events| - 1], events[|events| - 1];
      since := FoldKeepsOrder(front);
      FoldIsDistinct(front);
      var entries := Fold(front);
      if last.eventType != OtherType && last.question.Some? {
        var k := Locate(entries, last.question.value);
        if last.eventType == AnswerAccepted {
          since := OrderAfterAccept(events, entries, since, k);
        } else {
          since := OrderAfterAsk(events, entries, since, k);
        }
      } else {
        forall j | 0 <= j < |since| ensures OpenSince(events, entries[j].id, since[j]) {
          StaysOpenSince(events, entries[j].id, since[j]);
        }
      }
    }
  }

  lemma {:induction false} OrderWithout<T>(events: seq<Event<T>>, entries: seq<Entry<T>>, since: seq<nat>, k: nat)
    requires k < |since| == |entries| && forall i, j :: 0 <= i < j < |since| ==> since[i] < since[j]
    requires forall j :: 0 <= j < |since| && j != k ==> OpenSince(events, entries[j].id, since[j])
    ensures InOrder(events, entries[..k] + entries[k + 1..], since[..k] + since[k + 1..])
  {
    hide OpenSince;
    var rest, times := entries[..k] + entries[k + 1..], since[..k] + since[k + 1..];
    forall i | 0 <= i < |times| ensures OpenSince(events, rest[i].id, times[i]) {
      assert i >= k ==> rest[i] == entries[i + 1] && times[i] == since[i + 1];
    }
  }

  lemma {:induction false} OrderAfterAccept<T>(events: seq<Event<T>>, entries: seq<Entry<T>>, since: seq<nat>, k: nat) returns (since': seq<nat>)
    requires events != [] && events[|events| - 1].eventType == AnswerAccepted && events[|events| - 1].question.Some?
    requires InOrder(events[..|events| - 1], entries, since) && DistinctIds(entries) && k <= |entries|
    requires if k < |entries| then entries[k].id == events[|events| - 1].question.value
             else forall i :: 0 <= i < |entries| ==> entries[i].id != events[|events| - 1].question.value
    ensures InOrder(events, Pop(entries, events[|events| - 1].question.value), since')
  {
    hide OpenSince, Pop;
    forall j | 0 <= j < |since| && j != k ensures OpenSince(events, entries[j].id, since[j]) {
      StaysOpenSince(events, entries[j].id, since[j]);
    }
    if k < |entries| {
      PopAt(entries, k);
      OrderWithout(events, entries, since, k);
      since' := since[..k] + since[k + 1..];
    } else {
      PopMissing(entries, events[|events| - 1].question.value);
      since' := since;
    }
  }

  lemma {:induction false} OrderAfterAsk<T>(events: seq<Event<T>>, entries: seq<Entry<T>>, since: seq<nat>, k: nat) returns (since': seq<nat>)
    requires events != [] && events[|events| - 1].eventType == NeedsAnswer && events[|events| - 1].question.Some?
    requires entries == Fold(events[..|events| - 1])
    requires InOrder(events[..|events| - 1], entries, since) && k <= |entries|
    requires if k < |entries| then entries[k].id == events[|events| - 1].question.value && DistinctIds(entries)
             else forall i :: 0 <= i < |entries| ==> entries[i].id != events[|events| - 1].question.value
    ensures InOrder(events, Put(entries, events[|events| - 1].question.value, events[|events| - 1].report), since')
  {
    var front, last := events[..|events| - 1], events[|events| - 1];
    var q := last.question.value;
    forall j | 0 <= j < |since| ensures OpenSince(events, entries[j].id, since[j]) {
      StaysOpenSince(events, entries[j].id, since[j]);
    }
    if k < |entries| {
      PutAt(entries, k, last.report);
      since' := since;
    } else {
      PutNew(entries, q, last.report);
      since' := since + [|front|];
      FoldListsOpenQuestions(front, q);
      FindMeans(entries, q);
      assert !IsOpen(front, q);
    }
  }
}
