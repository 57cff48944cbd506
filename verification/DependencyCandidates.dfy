/**
 Counting dependency candidates by the pending output they refer to and by the outcome of
 their review. Outputs may be listed twice; the first listing gets all the candidates.
 */
module DependencyCandidates {
  import opened Wrappers

  /** The outcome of one review question. */
  datatype Verdict = Unreviewed | Needed | NotNeeded

  datatype SummaryError = LengthsDiffer | UnknownOutput

  const ANY: set<Verdict> := {Unreviewed, Needed, NotNeeded}
  const ANSWERED: set<Verdict> := {Needed, NotNeeded}

  /** The counts of every output, column by column, and the totals kept beside them. */
  datatype Summary = Summary(candidates: seq<nat>, answered: seq<nat>, required: seq<nat>, independent: seq<nat>, pending: seq<nat>,
                             totalAnswered: nat, totalRequired: nat, totalIndependent: nat, totalPending: nat)

  /** Where an output is listed first. */
  function FirstAt<K(==)>(outputs: seq<K>, key: K): (r: Option<nat>)
    ensures r.Some? ==> r.value < |outputs| && outputs[r.value] == key && forall i :: 0 <= i < r.value ==> outputs[i] != key
    ensures r.None? ==> key !in outputs
  {
    if outputs == [] then None
    else if outputs[0] == key then Some(0)
    else
      var later := FirstAt(outputs[1..], key);
      if later.None? then None else Some(later.value + 1)
  }

  /** How many of the first `n` pairs refer to the output listed first at `row` and have one of the verdicts. */
  ghost function RowCount<K>(outputs: seq<K>, pairs: seq<K>, results: seq<Verdict>, n: nat, row: nat, kinds: set<Verdict>): nat
    requires n <= |pairs| == |results|
  {
    if n == 0 then 0
    else
      RowCount(outputs, pairs, results, n - 1, row, kinds) +
      if FirstAt(outputs, pairs[n - 1]) == Some(row) && results[n - 1] in kinds then 1 else 0
  }

  /** How many of the first `n` verdicts are among the given ones. */
  ghost function Total(results: seq<Verdict>, n: nat, kinds: set<Verdict>): nat
    requires n <= |results|
  {
    if n == 0 then 0 else Total(results, n - 1, kinds) + if results[n - 1] in kinds then 1 else 0
  }

  /** A column holds the row counts for its verdicts. */
  ghost predicate IsColumn<K>(column: seq<nat>, outputs: seq<K>, pairs: seq<K>, results: seq<Verdict>, n: nat, kinds: set<Verdict>)
    requires n <= |pairs| == |results|
  {
    |column| == |outputs| && forall row :: 0 <= row < |column| ==> column[row] == RowCount(outputs, pairs, results, n, row, kinds)
  }

  function Sum(s: seq<nat>): nat {
    if s == [] then 0 else Sum(s[..|s| - 1]) + s[|s| - 1]
  }

  // ---------------------------------------------------------------------------
  // The tally.

  function Zeros(n: nat): (r: seq<nat>)
    ensures |r| == n && forall i :: 0 <= i < n ==> r[i] == 0
  {
    if n == 0 then [] else Zeros(n - 1) + [0]
  }

  function Raise(column: seq<nat>, row: nat): (r: seq<nat>)
    requires row < |column|
  {
    column[row := column[row] + 1]
  }

  lemma {:induction false} ColumnsStartAtZero<K>(outputs: seq<K>, pairs: seq<K>, results: seq<Verdict>, kinds: set<Verdict>)
    requires |pairs| == |results|
    ensures IsColumn(Zeros(|outputs|), outputs, pairs, results, 0, kinds)
  {
  }

  /** One more pair raises the first listing of its output, in the columns its verdict counts for. */
  lemma {:induction false} NextPair<K>(column: seq<nat>, outputs: seq<K>, pairs: seq<K>, results: seq<Verdict>, n: nat, kinds: set<Verdict>)
    requires n < |pairs| == |results| && IsColumn(column, outputs, pairs, results, n, kinds)
    requires FirstAt(outputs, pairs[n]).Some?
    ensures var row := FirstAt(outputs, pairs[n]).value;
            IsColumn(if results[n] in kinds then Raise(column, row) else column, outputs, pairs, results, n + 1, kinds)
  {
  }

  function Start(rows: nat): Summary {
    Summary(Zeros(rows), Zeros(rows), Zeros(rows), Zeros(rows), Zeros(rows), 0, 0, 0, 0)
  }

  /** Counts one pair that refers to the output at `row`. */
  function Counted(s: Summary, row: nat, verdict: Verdict): Summary
    requires row < |s.candidates| == |s.answered| == |s.required| == |s.independent| == |s.pending|
  {
    var asked := s.(candidates := Raise(s.candidates, row));
    match verdict
    case Unreviewed => asked.(pending := Raise(s.pending, row), totalPending := s.totalPending + 1)
    case Needed =>
      asked.(answered := Raise(s.answered, row), totalAnswered := s.totalAnswered + 1,
             required := Raise(s.required, row), totalRequired := s.totalRequired + 1)
    case NotNeeded =>
      asked.(answered := Raise(s.answered, row), totalAnswered := s.totalAnswered + 1,
             independent := Raise(s.independent, row), totalIndependent := s.totalIndependent + 1)
  }

  ghost predicate Describes<K>(s: Summary, outputs: seq<K>, pairs: seq<K>, results: seq<Verdict>, n: nat)
    requires n <= |pairs| == |results|
  {
    && IsColumn(s.candidates, outputs, pairs, results, n, ANY)
    && IsColumn(s.answered, outputs, pairs, results, n, ANSWERED)
    && IsColumn(s.required, outputs, pairs, results, n, {Needed})
    && IsColumn(s.independent, outputs, pairs, results, n, {NotNeeded})
    && IsColumn(s.pending, outputs, pairs, results, n, {Unreviewed})
    && s.totalAnswered == Total(results, n, ANSWERED) && s.totalPending == Total(results, n, {Unreviewed})
    && s.totalRequired == Total(results, n, {Needed}) && s.totalIndependent == Total(results, n, {NotNeeded})
  }

  lemma {:induction false} StartDescribes<K>(outputs: seq<K>, pairs: seq<K>, results: seq<Verdict>)
    requires |pairs| == |results|
    ensures Describes(Start(|outputs|), outputs, pairs, results, 0)
  {
    ColumnsStartAtZero(outputs, pairs, results, ANY);
    ColumnsStartAtZero(outputs, pairs, results, ANSWERED);
    ColumnsStartAtZero(outputs, pairs, results, {Needed});
    ColumnsStartAtZero(outputs, pairs, results, {NotNeeded});
    ColumnsStartAtZero(outputs, pairs, results, {Unreviewed});
    hide IsColumn, Zeros;
  }

  lemma {:induction false} DescribesRows<K>(s: Summary, outputs: seq<K>, pairs: seq<K>, results: seq<Verdict>, n: nat)
    requires n <= |pairs| == |results| && Describes(s, outputs, pairs, results, n)
    ensures |s.candidates| == |s.answered| == |s.required| == |s.independent| == |s.pending| == |outputs|
  {
    hide RowCount;
  }

  lemma {:induction false} CountedDescribes<K>(s: Summary, outputs: seq<K>, pairs: seq<K>, results: seq<Verdict>, n: nat, row: nat)
    requires n < |pairs| == |results| && Describes(s, outputs, pairs, results, n)
    requires FirstAt(outputs, pairs[n]) == Some(row)
    requires row < |s.candidates| == |s.answered| == |s.required| == |s.independent| == |s.pending|
    ensures Describes(Counted(s, row, results[n]), outputs, pairs, results, n + 1)
  {
    hide IsColumn, FirstAt, Raise;
    NextPair(s.candidates, outputs, pairs, results, n, ANY);
    NextPair(s.answered, outputs, pairs, results, n, ANSWERED);
    NextPair(s.required, outputs, pairs, results, n, {Needed});
    NextPair(s.independent, outputs, pairs, results, n, {NotNeeded});
    NextPair(s.pending, outputs, pairs, results, n, {Unreviewed});
  }

  method Summarize<K(==)>(outputs: seq<K>, pairs: seq<K>, results: seq<Verdict>) returns (r: Result<Summary, SummaryError>)
    ensures r == Failure(LengthsDiffer) <==> |pairs| != |results|
    ensures r == Failure(UnknownOutput) <==> |pairs| == |results| && exists i :: 0 <= i < |pairs| && pairs[i] !in outputs
    ensures r.Success? ==> |pairs| == |results| && Describes(r.value, outputs, pairs, results, |pairs|)
  {
    if |pairs| != |results| {
      return Failure(LengthsDiffer);
    }
    var ordinals := Ordinals(outputs);
    hide Describes, Start, Counted, FirstAt;
    var s := Start(|outputs|);
    StartDescribes(outputs, pairs, results);
    for n := 0 to |pairs|
      invariant forall i :: 0 <= i < n ==> pairs[i] in outputs
      invariant Describes(s, outputs, pairs, results, n)
    {
      if pairs[n] !in ordinals {
        return Failure(UnknownOutput);
      }
      var row := ordinals[pairs[n]];
      DescribesRows(s, outputs, pairs, results, n);
      CountedDescribes(s, outputs, pairs, results, n, row);
      s := Counted(s, row, results[n]);
    }
    return Success(s);
  }

  /** The place of every output, a repeated one keeping its first place. */
  method Ordinals<K(==)>(outputs: seq<K>) returns (ordinals: map<K, nat>)
    ensures forall key :: key in ordinals <==> key in outputs
    ensures forall key :: key in ordinals ==> FirstAt(outputs, key) == Some(ordinals[key])
  {
    ordinals := map[];
    for i := 0 to |outputs|
      invariant forall key :: key in ordinals <==> key in outputs[..i]
      invariant forall key :: key in ordinals ==> FirstAt(outputs, key) == Some(ordinals[key])
    {
      if outputs[i] !in ordinals {
        ordinals := ordinals[outputs[i] := i];
      }
    }
  }

  // ---------------------------------------------------------------------------
  // Conservation.

  lemma {:induction false} RowsSplit<K>(outputs: seq<K>, pairs: seq<K>, results: seq<Verdict>, n: nat, row: nat, a: set<Verdict>, b: set<Verdict>)
    requires n <= |pairs| == |results| && a !! b
    ensures RowCount(outputs, pairs, results, n, row, a + b) ==
            RowCount(outputs, pairs, results, n, row, a) + RowCount(outputs, pairs, results, n, row, b)
  {
    if n > 0 {
      RowsSplit(outputs, pairs, results, n - 1, row, a, b);
    }
  }

  lemma {:induction false} TotalsSplit(results: seq<Verdict>, n: nat, a: set<Verdict>, b: set<Verdict>)
    requires n <= |results| && a !! b
    ensures Total(results, n, a + b) == Total(results, n, a) + Total(results, n, b)
  {
    if n > 0 {
      TotalsSplit(results, n - 1, a, b);
    }
  }

  lemma {:induction false} TotalOfAny(results: seq<Verdict>, n: nat)
    requires n <= |results|
    ensures Total(results, n, ANY) == n
  {
    if n > 0 {
      TotalOfAny(results, n - 1);
      assert results[n - 1].Unreviewed? || results[n - 1].Needed? || results[n - 1].NotNeeded?;
    }
  }

  /** The row counts of the first `rows` outputs, added up. */
  ghost function RowsUpTo<K>(outputs: seq<K>, pairs: seq<K>, results: seq<Verdict>, n: nat, kinds: set<Verdict>, rows: nat): nat
    requires n <= |pairs| == |results|
    decreases rows
  {
    if rows == 0 then 0
    else RowsUpTo(outputs, pairs, results, n, kinds, rows - 1) + RowCount(outputs, pairs, results, n, rows - 1, kinds)
  }

  lemma {:induction false} RowsOfNextPair<K>(outputs: seq<K>, pairs: seq<K>, results: seq<Verdict>, n: nat, kinds: set<Verdict>, rows: nat)
    requires 0 < n <= |pairs| == |results|
    ensures RowsUpTo(outputs, pairs, results, n, kinds, rows) ==
            RowsUpTo(outputs, pairs, results, n - 1, kinds, rows) +
            if (exists row :: 0 <= row < rows && FirstAt(outputs, pairs[n - 1]) == Some(row)) && results[n - 1] in kinds then 1 else 0
    decreases rows
  {
    hide FirstAt;
    if rows > 0 {
      RowsOfNextPair(outputs, pairs, results, n, kinds, rows - 1);
    }
  }

  lemma {:induction false} RowsMakeTotal<K>(outputs: seq<K>, pairs: seq<K>, results: seq<Verdict>, n: nat, kinds: set<Verdict>)
    requires n <= |pairs| == |results| && forall i :: 0 <= i < n ==> pairs[i] in outputs
    ensures RowsUpTo(outputs, pairs, results, n, kinds, |outputs|) == Total(results, n, kinds)
    decreases n
  {
    if n == 0 {
      NoPairsNoRows(outputs, pairs, results, kinds, |outputs|);
    } else {
      hide RowsUpTo, FirstAt;
      RowsMakeTotal(outputs, pairs, results, n - 1, kinds);
      RowsOfNextPair(outputs, pairs, results, n, kinds, |outputs|);
      assert FirstAt(outputs, pairs[n - 1]).Some?;
    }
  }

  lemma {:induction false} NoPairsNoRows<K>(outputs: seq<K>, pairs: seq<K>, results: seq<Verdict>, kinds: set<Verdict>, rows: nat)
    requires |pairs| == |results|
    ensures RowsUpTo(outputs, pairs, results, 0, kinds, rows) == 0
    decreases rows
  {
    if rows > 0 {
      NoPairsNoRows(outputs, pairs, results, kinds, rows - 1);
    }
  }

  lemma {:induction false} ColumnAddsUp<K>(column: seq<nat>, outputs: seq<K>, pairs: seq<K>, results: seq<Verdict>, kinds: set<Verdict>, rows: nat)
    requires |pairs| == |results| && IsColumn(column, outputs, pairs, results, |pairs|, kinds) && rows <= |column|
    ensures Sum(column[..rows]) == RowsUpTo(outputs, pairs, results, |pairs|, kinds, rows)
    decreases rows
  {
    hide RowCount;
    if rows > 0 {
      ColumnAddsUp(column, outputs, pairs, results, kinds, rows - 1);
      assert column[..rows][..rows - 1] == column[..rows - 1];
    }
  }

  lemma {:induction false} ColumnTotal<K>(column: seq<nat>, outputs: seq<K>, pairs: seq<K>, results: seq<Verdict>, kinds: set<Verdict>)
    requires |pairs| == |results| && IsColumn(column, outputs, pairs, results, |pairs|, kinds)
    requires forall i :: 0 <= i < |pairs| ==> pairs[i] in outputs
    ensures Sum(column) == Total(results, |pairs|, kinds)
  {
    ColumnAddsUp(column, outputs, pairs, results, kinds, |column|);
    assert column[..|column|] == column;
    RowsMakeTotal(outputs, pairs, results, |pairs|, kinds);
  }

  /** Every candidate is counted once: by verdict, in the totals as in each row, and by output, in each column. */
  lemma {:induction false} CountsAreConserved<K>(s: Summary, outputs: seq<K>, pairs: seq<K>, results: seq<Verdict>)
    requires |pairs| == |results| && Describes(s, outputs, pairs, results, |pairs|)
    requires forall i :: 0 <= i < |pairs| ==> pairs[i] in outputs
    ensures s.totalRequired + s.totalIndependent == s.totalAnswered && s.totalAnswered + s.totalPending == |pairs|
    ensures Sum(s.candidates) == |pairs| && Sum(s.answered) == s.totalAnswered && Sum(s.pending) == s.totalPending
    ensures Sum(s.required) == s.totalRequired && Sum(s.independent) == s.totalIndependent
    ensures forall row :: 0 <= row < |outputs| ==>
              s.required[row] + s.independent[row] == s.answered[row] && s.answered[row] + s.pending[row] == s.candidates[row]
  {
    VerdictSets();
    DescribesRows(s, outputs, pairs, results, |pairs|);
    hide IsColumn, Total;
    TotalsSplit(results, |pairs|, {Needed}, {NotNeeded});
    TotalsSplit(results, |pairs|, ANSWERED, {Unreviewed});
    TotalOfAny(results, |pairs|);
    ColumnTotal(s.candidates, outputs, pairs, results, ANY);
    ColumnTotal(s.answered, outputs, pairs, results, ANSWERED);
    ColumnTotal(s.required, outputs, pairs, results, {Needed});
    ColumnTotal(s.independent, outputs, pairs, results, {NotNeeded});
    ColumnTotal(s.pending, outputs, pairs, results, {Unreviewed});
    forall row | 0 <= row < |outputs|
      ensures s.required[row] + s.independent[row] == s.answered[row] && s.answered[row] + s.pending[row] == s.candidates[row]
    {
      RowIsConserved(s, outputs, pairs, results, row);
    }
  }

  lemma {:induction false} VerdictSets()
    ensures {Needed} + {NotNeeded} == ANSWERED && ANSWERED + {Unreviewed} == ANY
  {
  }

  lemma {:induction false} RowIsConserved<K>(s: Summary, outputs: seq<K>, pairs: seq<K>, results: seq<Verdict>, row: nat)
    requires |pairs| == |results| && Describes(s, outputs, pairs, results, |pairs|) && row < |outputs|
    ensures |s.required| == |s.independent| == |s.answered| == |s.pending| == |s.candidates| == |outputs|
    ensures s.required[row] + s.independent[row] == s.answered[row] && s.answered[row] + s.pending[row] == s.candidates[row]
  {
    VerdictSets();
    hide RowCount;
    RowsSplit(outputs, pairs, results, |pairs|, row, {Needed}, {NotNeeded});
    RowsSplit(outputs, pairs, results, |pairs|, row, ANSWERED, {Unreviewed});
  }

  /** An output listed again gets nothing there, whatever the pairs are. */
  lemma {:induction false} RepeatedOutputIsEmpty<K>(outputs: seq<K>, pairs: seq<K>, results: seq<Verdict>, n: nat, first: nat, again: nat, kinds: set<Verdict>)
    requires n <= |pairs| == |results| && first < again < |outputs| && outputs[first] == outputs[again]
    ensures RowCount(outputs, pairs, results, n, again, kinds) == 0
    decreases n
  {
    hide FirstAt;
    if n > 0 {
      RepeatedOutputIsEmpty(outputs, pairs, results, n - 1, first, again, kinds);
    }
  }
}
