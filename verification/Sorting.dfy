/** Sorting by an order given as a function, and the alphabetical orders of texts and paths. */
module Sorting {

  type Order<!T> = (T, T) -> bool

  ghost predicate IsTotalOrder<T(!new)>(leq: Order<T>) {
    (forall x, y :: leq(x, y) || leq(y, x)) &&
    (forall x, y, z :: leq(x, y) && leq(y, z) ==> leq(x, z))
  }

  ghost predicate SortedBy<T>(s: seq<T>, leq: Order<T>) {
    forall i, j :: 0 <= i < j < |s| ==> leq(s[i], s[j])
  }

  /** Places `x` behind everything that may stand before it. */
  function Place<T>(s: seq<T>, x: T, leq: Order<T>): seq<T> {
    if s == [] || leq(s[|s| - 1], x) then s + [x]
    else Place(s[..|s| - 1], x, leq) + [s[|s| - 1]]
  }

  /** The stable sort. */
  function Sort<T>(s: seq<T>, leq: Order<T>): seq<T> {
    if s == [] then [] else Place(Sort(s[..|s| - 1], leq), s[|s| - 1], leq)
  }

  lemma {:induction false} PlaceKeeps<T>(s: seq<T>, x: T, leq: Order<T>)
    ensures multiset(Place(s, x, leq)) == multiset(s) + multiset{x}
  {
    if s != [] && !leq(s[|s| - 1], x) {
      PlaceKeeps(s[..|s| - 1], x, leq);
      assert s == s[..|s| - 1] + [s[|s| - 1]];
    }
  }

  lemma {:induction false} PlaceSorts<T(!new)>(s: seq<T>, x: T, leq: Order<T>)
    requires IsTotalOrder(leq) && SortedBy(s, leq)
    ensures SortedBy(Place(s, x, leq), leq)
  {
    if s == [] {
    } else if leq(s[|s| - 1], x) {
      forall i | 0 <= i < |s| ensures leq(s[i], x) {
        assert leq(s[i], s[|s| - 1]) || i == |s| - 1;
      }
    } else {
      var front, last := s[..|s| - 1], s[|s| - 1];
      PlaceSorts(front, x, leq);
      PlaceKeeps(front, x, leq);
      var r := Place(front, x, leq);
      forall i | 0 <= i < |r| ensures leq(r[i], last) {
        assert r[i] in multiset(r);
        assert r[i] in front || r[i] == x;
      }
    }
  }

  /** Sorting loses and invents nothing and puts everything in order. */
  lemma {:induction false} SortSorts<T(!new)>(s: seq<T>, leq: Order<T>)
    requires IsTotalOrder(leq)
    ensures SortedBy(Sort(s, leq), leq) && multiset(Sort(s, leq)) == multiset(s) && |Sort(s, leq)| == |s|
  {
    hide IsTotalOrder, SortedBy, Place;
    if s == [] {
      NothingSorted(leq);
    } else {
      var front, last := s[..|s| - 1], s[|s| - 1];
      SortSorts(front, leq);
      PlaceSorts(Sort(front, leq), last, leq);
      PlaceKeeps(Sort(front, leq), last, leq);
      assert s == front + [last];
      SameSize(Sort(s, leq), s);
    }
  }

  lemma {:induction false} NothingSorted<T>(leq: Order<T>)
    ensures SortedBy([], leq)
  {
  }

  lemma {:induction false} SameSize<T>(s: seq<T>, t: seq<T>)
    requires multiset(s) == multiset(t)
    ensures |s| == |t|
  {
    assert |multiset(s)| == |s| && |multiset(t)| == |t|;
  }

  lemma {:induction false} SortMembers<T(!new)>(s: seq<T>, leq: Order<T>, x: T)
    requires IsTotalOrder(leq)
    ensures x in Sort(s, leq) <==> x in s
  {
    SortSorts(s, leq);
    assert x in s <==> x in multiset(s);
    assert x in Sort(s, leq) <==> x in multiset(Sort(s, leq));
  }

  // ---------------------------------------------------------------------------
  // Alphabetical orders.

  /** Texts character by character, a text before its extensions. */
  predicate TextLeq(a: string, b: string) {
    a == "" || (b != "" && (a[0] < b[0] || (a[0] == b[0] && TextLeq(a[1..], b[1..]))))
  }

  lemma {:induction false} TextsAreOrdered(a: string, b: string, c: string)
    ensures TextLeq(a, b) || TextLeq(b, a)
    ensures TextLeq(a, b) && TextLeq(b, a) ==> a == b
    ensures TextLeq(a, b) && TextLeq(b, c) ==> TextLeq(a, c)
  {
    if a != "" && b != "" {
      TextsAreOrdered(a[1..], b[1..], if c == "" then "" else c[1..]);
      assert a == [a[0]] + a[1..] && b == [b[0]] + b[1..];
    }
  }

  lemma {:induction false} FirstSame<T>(a: seq<T>, b: seq<T>, k: nat)
    requires 0 < k <= |a| && k <= |b| && a[..k] == b[..k]
    ensures a[0] == b[0]
  {
    assert a[0] == a[..k][0];
  }

  /** The first difference decides: a text that ends there comes first, otherwise the smaller character. */
  ghost predicate ComesFirst(a: string, b: string, k: nat) {
    k <= |a| && k < |b| && a[..k] == b[..k] && (k == |a| || a[k] < b[k])
  }

  lemma {:induction false} FirstDifference(a: string, b: string)
    ensures TextLeq(a, b) <==> a == b || exists k: nat :: ComesFirst(a, b, k)
  {
    forall k: nat | ComesFirst(a, b, k) && k > 0 ensures a[0] == b[0] {
      FirstSame(a, b, k);
    }
    if a == "" {
      assert b != "" ==> ComesFirst(a, b, 0);
    } else if b != "" && a[0] == b[0] {
      FirstDifference(a[1..], b[1..]);
      assert a == [a[0]] + a[1..] && b == [b[0]] + b[1..];
      if k: nat :| ComesFirst(a[1..], b[1..], k) {
        assert a[..k + 1] == [a[0]] + a[1..][..k] && b[..k + 1] == [b[0]] + b[1..][..k];
        assert ComesFirst(a, b, k + 1);
      }
      if k: nat :| ComesFirst(a, b, k) {
        assert k > 0;
        assert a[1..][..k - 1] == a[..k][1..] && b[1..][..k - 1] == b[..k][1..];
        assert ComesFirst(a[1..], b[1..], k - 1);
      }
    } else if b != "" {
      assert a[0] < b[0] ==> ComesFirst(a, b, 0);
    }
  }

  /** Paths part by part, a directory before what is in it. */
  predicate PathLeq(a: seq<string>, b: seq<string>) {
    a == [] || (b != [] && (if a[0] == b[0] then PathLeq(a[1..], b[1..]) else TextLeq(a[0], b[0])))
  }

  /** Paths differ first at a part that is missing or comes first as a text. */
  ghost predicate PathComesFirst(a: seq<string>, b: seq<string>, k: nat) {
    k <= |a| && k < |b| && a[..k] == b[..k] && (k == |a| || (a[k] != b[k] && TextLeq(a[k], b[k])))
  }

  lemma {:induction false} FirstDifferentPart(a: seq<string>, b: seq<string>)
    ensures PathLeq(a, b) <==> a == b || exists k: nat :: PathComesFirst(a, b, k)
  {
    hide TextLeq;
    forall k: nat | PathComesFirst(a, b, k) && k > 0 ensures a[0] == b[0] {
      FirstSame(a, b, k);
    }
    if a == [] {
      assert b != [] ==> PathComesFirst(a, b, 0);
    } else if b != [] && a[0] == b[0] {
      FirstDifferentPart(a[1..], b[1..]);
      assert a == [a[0]] + a[1..] && b == [b[0]] + b[1..];
      if k: nat :| PathComesFirst(a[1..], b[1..], k) {
        assert a[..k + 1] == [a[0]] + a[1..][..k] && b[..k + 1] == [b[0]] + b[1..][..k];
        assert PathComesFirst(a, b, k + 1);
      }
      if k: nat :| PathComesFirst(a, b, k) {
        assert k > 0;
        assert a[1..][..k - 1] == a[..k][1..] && b[1..][..k - 1] == b[..k][1..];
        assert PathComesFirst(a[1..], b[1..], k - 1);
      }
    } else if b != [] {
      assert TextLeq(a[0], b[0]) ==> PathComesFirst(a, b, 0);
    }
  }

  lemma {:induction false} PathsAreOrdered(a: seq<string>, b: seq<string>, c: seq<string>)
    ensures PathLeq(a, b) || PathLeq(b, a)
    ensures PathLeq(a, b) && PathLeq(b, c) ==> PathLeq(a, c)
  {
    hide TextLeq;
    if a != [] && b != [] {
      TextsAreOrdered(a[0], b[0], if c == [] then "" else c[0]);
      if c != [] {
        TextsAreOrdered(b[0], c[0], a[0]);
      }
      PathsAreOrdered(a[1..], b[1..], if c == [] then [] else c[1..]);
    }
  }

  lemma {:induction false} PathOrderIsTotal()
    ensures IsTotalOrder(PathLeq)
  {
    forall x, y ensures PathLeq(x, y) || PathLeq(y, x) {
      PathsAreOrdered(x, y, []);
    }
    forall x, y, z | PathLeq(x, y) && PathLeq(y, z) ensures PathLeq(x, z) {
      PathsAreOrdered(x, y, z);
    }
  }
}
