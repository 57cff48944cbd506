/**
 The workflow record kept with a pull request: tool calls of a new run are merged into the
 calls already recorded, dropping repeated ones by their signature.
 */
module WorkflowRecord {
  import opened Wrappers

  type Signature = string

  /** A recorded value; only mappings are calls. */
  datatype Value<C> = NotAMapping | Call(call: C)

  type Sign<!C> = C -> Signature

  function Calls<C>(calls: seq<C>): (r: seq<Value<C>>)
    ensures |r| == |calls| && forall i :: 0 <= i < |r| ==> r[i] == Call(calls[i])
  {
    if calls == [] then [] else [Call(calls[0])] + Calls(calls[1..])
  }

  function Signatures<C>(calls: seq<C>, sign: Sign<C>): (r: set<Signature>)
    ensures forall s :: s in r <==> exists i :: 0 <= i < |calls| && sign(calls[i]) == s
  {
    set i | 0 <= i < |calls| :: sign(calls[i])
  }

  /** The calls among the values, each signature at its first occurrence only. */
  function Unique<C>(values: seq<Value<C>>, sign: Sign<C>): seq<C> {
    if values == [] then []
    else
      var before, last := Unique(values[..|values| - 1], sign), values[|values| - 1];
      if last.NotAMapping? || sign(last.call) in Signatures(before, sign) then before else before + [last.call]
  }

  method UniqueMappings<C>(values: seq<Value<C>>, sign: Sign<C>) returns (unique: seq<C>)
    ensures unique == Unique(values, sign)
  {
    unique := [];
    var seen: set<Signature> := {};
    for i := 0 to |values|
      invariant unique == Unique(values[..i], sign)
      invariant seen == Signatures(unique, sign)
    {
      assert values[..i + 1][..i] == values[..i];
      if values[i].NotAMapping? {
        continue;
      }
      var item := values[i].call;
      var signature := sign(item);
      if signature in seen {
        continue;
      }
      SignaturesOfLast(unique, item, sign);
      seen := seen + {signature};
      unique := unique + [item];
    }
    assert values[..|values|] == values;
  }

  lemma {:induction false} SignaturesOfLast<C>(calls: seq<C>, last: C, sign: Sign<C>)
    ensures Signatures(calls + [last], sign) == Signatures(calls, sign) + {sign(last)}
  {
    var all := calls + [last];
    forall s ensures s in Signatures(all, sign) <==> s in Signatures(calls, sign) + {sign(last)} {
      if i :| 0 <= i < |calls| && sign(calls[i]) == s {
        assert all[i] == calls[i];
      }
      assert all[|calls|] == last;
    }
  }

  ghost predicate DistinctCalls<C>(calls: seq<C>, sign: Sign<C>) {
    forall i, j :: 0 <= i < j < |calls| ==> sign(calls[i]) != sign(calls[j])
  }

  lemma {:induction false} DistinctWithLast<C>(calls: seq<C>, last: C, sign: Sign<C>)
    requires DistinctCalls(calls, sign) && sign(last) !in Signatures(calls, sign)
    ensures DistinctCalls(calls + [last], sign)
  {
    assert forall i :: 0 <= i < |calls| ==> sign(calls[i]) in Signatures(calls, sign);
  }

  lemma {:induction false} UniqueIsDistinct<C>(values: seq<Value<C>>, sign: Sign<C>)
    ensures DistinctCalls(Unique(values, sign), sign)
  {
    if values != [] {
      var front, last := values[..|values| - 1], values[|values| - 1];
      UniqueIsDistinct(front, sign);
      hide DistinctCalls, Signatures;
      if last.Call? && sign(last.call) !in Signatures(Unique(front, sign), sign) {
        DistinctWithLast(Unique(front, sign), last.call, sign);
      }
    }
  }

  lemma {:induction false} UniqueMissesNone<C>(values: seq<Value<C>>, sign: Sign<C>, i: nat)
    requires i < |values| && values[i].Call?
    ensures sign(values[i].call) in Signatures(Unique(values, sign), sign)
  {
    hide Signatures;
    var front, last := values[..|values| - 1], values[|values| - 1];
    if last.Call? {
      SignaturesOfLast(Unique(front, sign), last.call, sign);
    }
    if i < |front| {
      assert front[i] == values[i];
      UniqueMissesNone(front, sign, i);
    }
  }

  /** The merged list has no repetition and misses no call that was given. */
  lemma {:induction false} UniqueKeepsAll<C>(values: seq<Value<C>>, sign: Sign<C>)
    ensures DistinctCalls(Unique(values, sign), sign)
    ensures forall i :: 0 <= i < |values| && values[i].Call? ==> sign(values[i].call) in Signatures(Unique(values, sign), sign)
  {
    hide DistinctCalls, Signatures, Unique;
    UniqueIsDistinct(values, sign);
    forall i | 0 <= i < |values| && values[i].Call? ensures sign(values[i].call) in Signatures(Unique(values, sign), sign) {
      UniqueMissesNone(values, sign, i);
    }
  }

  /** Values whose signatures are all known add nothing; otherwise what was there stays in front, in order. */
  lemma {:induction false} UniqueExtends<C>(values: seq<Value<C>>, more: seq<Value<C>>, sign: Sign<C>)
    ensures Unique(values, sign) <= Unique(values + more, sign)
    ensures (forall i :: 0 <= i < |more| && more[i].Call? ==> sign(more[i].call) in Signatures(Unique(values, sign), sign)) ==>
              Unique(values + more, sign) == Unique(values, sign)
    decreases |more|
  {
    if more == [] {
      assert values + more == values;
    } else {
      var front := more[..|more| - 1];
      assert (values + more)[..|values + more| - 1] == values + front;
      UniqueExtends(values, front, sign);
    }
  }

  lemma {:induction false} DistinctLast<C>(calls: seq<C>, sign: Sign<C>)
    requires calls != [] && DistinctCalls(calls, sign)
    ensures DistinctCalls(calls[..|calls| - 1], sign)
    ensures sign(calls[|calls| - 1]) !in Signatures(calls[..|calls| - 1], sign)
  {
  }

  lemma {:induction false} CallsOfFront<C>(calls: seq<C>)
    requires calls != []
    ensures Calls(calls)[..|calls| - 1] == Calls(calls[..|calls| - 1])
  {
  }

  lemma {:induction false} DistinctCallsStay<C>(calls: seq<C>, sign: Sign<C>)
    requires DistinctCalls(calls, sign)
    ensures Unique(Calls(calls), sign) == calls
  {
    hide DistinctCalls, Signatures, Calls;
    if calls != [] {
      CallsOfFront(calls);
      DistinctLast(calls, sign);
      DistinctCallsStay(calls[..|calls| - 1], sign);
    }
  }

  /** A list without repetitions is left as it is, and only such a list. */
  lemma {:induction false} UniqueOfCalls<C>(calls: seq<C>, sign: Sign<C>)
    ensures Unique(Calls(calls), sign) == calls <==> DistinctCalls(calls, sign)
  {
    UniqueKeepsAll(Calls(calls), sign);
    if DistinctCalls(calls, sign) {
      DistinctCallsStay(calls, sign);
    }
  }

  // ---------------------------------------------------------------------------
  // Recording.

  /** What the record file holds: nothing usable, or a list of tool calls. */
  type Stored<C> = Option<seq<Value<C>>>

  /** The calls written for a run: merged when there is a list to merge with, as they come otherwise. */
  function Recorded<C>(stored: Stored<C>, calls: seq<C>, sign: Sign<C>): seq<C> {
    if stored.Some? then Unique(stored.value + Calls(calls), sign) else calls
  }

  class RecordFile<C> {
    var stored: Stored<C>

    constructor ()
      ensures stored == None
    {
      stored := None;
    }

    method Record(calls: seq<C>, sign: Sign<C>)
      modifies this
      ensures stored == Some(Calls(Recorded(old(stored), calls, sign)))
    {
      if stored.Some? {
        var merged := UniqueMappings(stored.value + Calls(calls), sign);
        stored := Some(Calls(merged));
      } else {
        stored := Some(Calls(calls));
      }
    }
  }

  /** Merging keeps every distinct earlier call, in front and in first-occurrence order. */
  lemma {:induction false} NothingIsLost<C>(stored: seq<Value<C>>, calls: seq<C>, sign: Sign<C>)
    ensures Unique(stored, sign) <= Recorded(Some(stored), calls, sign)
    ensures forall i :: 0 <= i < |calls| ==> sign(calls[i]) in Signatures(Recorded(Some(stored), calls, sign), sign)
  {
    UniqueExtends(stored, Calls(calls), sign);
    UniqueKeepsAll(stored + Calls(calls), sign);
    forall i | 0 <= i < |calls| ensures sign(calls[i]) in Signatures(Recorded(Some(stored), calls, sign), sign) {
      assert (stored + Calls(calls))[|stored| + i] == Call(calls[i]);
    }
  }

  /**
   Recording the same run again changes nothing once its calls were merged. The first record of
   a pull request is written without merging, so there the repetition is a no-op iff no call of
   the run repeats another.
   */
  lemma {:induction false} RecordingAgain<C>(stored: Stored<C>, calls: seq<C>, sign: Sign<C>)
    ensures var once := Recorded(stored, calls, sign);
            var twice := Recorded(Some(Calls(once)), calls, sign);
            && (twice == once <==> stored.Some? || DistinctCalls(calls, sign))
            && Recorded(Some(Calls(twice)), calls, sign) == twice
  {
    var once := Recorded(stored, calls, sign);
    MergeIsSettled(once, calls, sign);
    if stored.Some? {
      NothingIsLost(stored.value, calls, sign);
      UniqueKeepsAll(stored.value + Calls(calls), sign);
    }
    UniqueOfCalls(once, sign);
    NothingIsLost(Calls(once), calls, sign);
    var twice := Recorded(Some(Calls(once)), calls, sign);
    UniqueKeepsAll(Calls(once) + Calls(calls), sign);
    UniqueOfCalls(twice, sign);
    MergeIsSettled(twice, calls, sign);
  }

  /** A run whose calls are all known merges to the recorded calls without repetitions. */
  lemma {:induction false} MergeIsSettled<C>(known: seq<C>, calls: seq<C>, sign: Sign<C>)
    ensures (forall i :: 0 <= i < |calls| ==> sign(calls[i]) in Signatures(known, sign)) ==>
              Recorded(Some(Calls(known)), calls, sign) == Unique(Calls(known), sign)
  {
    if forall i :: 0 <= i < |calls| ==> sign(calls[i]) in Signatures(known, sign) {
      UniqueKeepsAll(Calls(known), sign);
      forall i | 0 <= i < |Calls(calls)| && Calls(calls)[i].Call?
        ensures sign(Calls(calls)[i].call) in Signatures(Unique(Calls(known), sign), sign)
      {
        var k :| 0 <= k < |known| && sign(known[k]) == sign(calls[i]);
        assert Calls(known)[k] == Call(known[k]);
      }
      UniqueExtends(Calls(known), Calls(calls), sign);
    }
  }
}
