/** Document symbols: a forest of JSON values of which some are symbol objects with children. */
module SymbolForest {
  import opened Wrappers

  datatype Position = Position(name: string, line: int, character: int)

  /** `position` is present when the object has a name and a usable start; `children` is empty when there is no list of them. */
  datatype Symbol =
    | NoObject
    | Object(position: Option<Position>, children: seq<Symbol>)

  function Children(s: Symbol): seq<Symbol> {
    if s.Object? then s.children else []
  }

  /** Symbol objects in a forest, by structural recursion. */
  function ObjectCount(symbols: seq<Symbol>): nat
    decreases symbols
  {
    if symbols == [] then 0
    else ObjectsIn(symbols[0]) + ObjectCount(symbols[1..])
  }

  function ObjectsIn(s: Symbol): nat
    decreases s
  {
    match s
    case NoObject => 0
    case Object(_, children) => 1 + ObjectCount(children)
  }

  /** All values in a forest, objects or not. */
  function Size(symbols: seq<Symbol>): nat
    decreases symbols
  {
    if symbols == [] then 0 else SizeOf(symbols[0]) + Size(symbols[1..])
  }

  function SizeOf(s: Symbol): nat
    decreases s
  {
    match s
    case NoObject => 1
    case Object(_, children) => 1 + Size(children)
  }

  lemma {:induction false} CountsOfConcat(a: seq<Symbol>, b: seq<Symbol>)
    ensures ObjectCount(a + b) == ObjectCount(a) + ObjectCount(b)
    ensures Size(a + b) == Size(a) + Size(b)
  {
    if a == [] {
      assert a + b == b;
    } else {
      assert (a + b)[1..] == a[1..] + b;
      CountsOfConcat(a[1..], b);
    }
  }

  lemma {:induction false} CountsOfLast(a: seq<Symbol>, s: Symbol)
    ensures ObjectCount(a + [s]) == ObjectCount(a) + (if s.Object? then 1 else 0) + ObjectCount(Children(s))
    ensures Size(a + [s]) == Size(a) + 1 + Size(Children(s))
  {
    CountsOfConcat(a, [s]);
    assert [s][1..] == [];
  }

  /** Counts with a worklist, taking from its end; terminates on every forest with the structural count. */
  method DocumentSymbolCount(symbols: seq<Symbol>) returns (count: nat)
    ensures count == ObjectCount(symbols)
  {
    count := 0;
    var pending := symbols;
    while pending != []
      invariant count + ObjectCount(pending) == ObjectCount(symbols)
      decreases Size(pending)
    {
      var symbol := pending[|pending| - 1];
      assert pending == pending[..|pending| - 1] + [symbol];
      CountsOfLast(pending[..|pending| - 1], symbol);
      pending := pending[..|pending| - 1];
      if symbol.NoObject? {
        continue;
      }
      count := count + 1;
      CountsOfConcat(pending, symbol.children);
      pending := pending + symbol.children;
    }
  }

  /** Positions of the symbols that have one, parents before their children. */
  function Positions(symbols: seq<Symbol>): seq<Position>
    decreases symbols
  {
    if symbols == [] then [] else PositionsIn(symbols[0]) + Positions(symbols[1..])
  }

  function PositionsIn(s: Symbol): seq<Position>
    decreases s
  {
    match s
    case NoObject => []
    case Object(position, children) =>
      (if position.Some? then [position.value] else []) + Positions(children)
  }

  /** Every object in the forest has a position. */
  ghost predicate AllPlaced(symbols: seq<Symbol>)
    decreases symbols
  {
    symbols == [] || (Placed(symbols[0]) && AllPlaced(symbols[1..]))
  }

  ghost predicate Placed(s: Symbol)
    decreases s
  {
    match s
    case NoObject => true
    case Object(position, children) => position.Some? && AllPlaced(children)
  }

  /** Positions come in the order of the text: symbol by symbol, each before those below it. */
  lemma {:induction false} PositionsInOrder(a: seq<Symbol>, b: seq<Symbol>)
    ensures Positions(a + b) == Positions(a) + Positions(b)
    decreases |a|
  {
    hide PositionsIn;
    if a == [] {
      assert a + b == b;
    } else {
      assert (a + b)[1..] == a[1..] + b && (a + b)[0] == a[0];
      PositionsInOrder(a[1..], b);
      Associates(PositionsIn(a[0]), Positions(a[1..]), Positions(b));
    }
  }

  lemma {:induction false} PositionsOfSymbol(s: Symbol)
    ensures s == NoObject ==> Positions([s]) == []
    ensures s.Object? && s.position.Some? ==> Positions([s]) == [s.position.value] + Positions(s.children)
    ensures s.Object? && s.position.None? ==> Positions([s]) == Positions(s.children)
  {
    assert [s][1..] == [];
    assert Positions([s]) == PositionsIn(s) + [];
    assert PositionsIn(s) + [] == PositionsIn(s);
  }

  /** The size check bounds the position list too: it is never longer, and as long only if every object has a position. */
  lemma {:induction false} PositionsWithinCount(symbols: seq<Symbol>)
    ensures |Positions(symbols)| <= ObjectCount(symbols)
    ensures |Positions(symbols)| == ObjectCount(symbols) <==> AllPlaced(symbols)
    decreases symbols
  {
    if symbols != [] {
      PositionsWithinObject(symbols[0]);
      PositionsWithinCount(symbols[1..]);
    }
  }

  lemma {:induction false} PositionsWithinObject(s: Symbol)
    ensures |PositionsIn(s)| <= ObjectsIn(s)
    ensures |PositionsIn(s)| == ObjectsIn(s) <==> Placed(s)
    decreases s
  {
    match s
    case NoObject =>
    case Object(_, children) => PositionsWithinCount(children);
  }
}
