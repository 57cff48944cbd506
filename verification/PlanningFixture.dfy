/**
 The synthetic planning profile: requirements come in groups of four, and the example client
 splits the first groups in two so as to reach the wanted number of work units.
 */
module PlanningFixture {
  import opened Wrappers
  import opened Numerals

  datatype Profile = Profile(requirements: nat, workUnits: nat)

  function Zeros(n: nat): (r: Bytes)
    ensures |r| == n && forall i :: 0 <= i < n ==> r[i] == 48
  {
    if n == 0 then [] else [48] + Zeros(n - 1)
  }

  /** The number in decimal, padded with zeros to at least four digits. */
  function FourDigits(n: nat): (digits: Bytes)
    ensures AllDigits(digits, 10)
  {
    var digits := Print(n, 10);
    if |digits| < 4 then Zeros(4 - |digits|) + digits else digits
  }

  lemma {:induction false} LeadingZeros(n: nat, digits: Bytes)
    requires AllDigits(digits, 10)
    ensures AllDigits(Zeros(n) + digits, 10) && ReadOn(Zeros(n) + digits, 0, 10) == ReadOn(digits, 0, 10)
  {
    assert forall i :: 0 <= i < n ==> (Zeros(n) + digits)[i] == 48;
    if n == 0 {
      assert Zeros(n) + digits == digits;
    } else {
      LeadingZeros(n - 1, digits);
      assert (Zeros(n) + digits)[1..] == Zeros(n - 1) + digits;
    }
  }

  /** Padded numbers read back, so different requirements have different numbers in their ids and paths. */
  lemma {:induction false} FourDigitsReadBack(n: nat)
    ensures AllDigits(FourDigits(n), 10) && ReadOn(FourDigits(n), 0, 10) == n
  {
    PrintedReadsBack(n, 10);
    var digits := Print(n, 10);
    if |digits| < 4 {
      LeadingZeros(4 - |digits|, digits);
    }
  }

  /** The padded numerals in requirement ids and paths name one number each. */
  lemma {:induction false} FourDigitsAreNames(m: nat, n: nat)
    ensures FourDigits(m) == FourDigits(n) <==> m == n
  {
    FourDigitsReadBack(m);
    FourDigitsReadBack(n);
  }

  /** At least four digits, and no more than needed: exactly four below ten thousand, no leading zero above. */
  lemma {:induction false} FourDigitsWide(n: nat)
    ensures |FourDigits(n)| >= 4
    ensures n < 10000 ==> |FourDigits(n)| == 4
    ensures n >= 10000 ==> FourDigits(n) == Print(n, 10)
  {
    if n < 10000 {
      ShortNumeral(n, 10000, 4);
    } else {
      LongNumeral(n);
    }
  }

  /** A number below the `k`th power of ten has at most `k` digits. */
  lemma {:induction false} ShortNumeral(n: nat, power: nat, k: nat)
    requires k > 0 && n < power == Power(k)
    ensures |Print(n, 10)| <= k
    decreases k
  {
    if n >= 10 {
      DivideByBase(n, 10);
      ShortNumeral(n / 10, Power(k - 1), k - 1);
    }
  }

  function Power(k: nat): nat {
    if k == 0 then 1 else 10 * Power(k - 1)
  }

  lemma {:induction false} LongNumeral(n: nat)
    requires n >= 10000
    ensures |Print(n, 10)| >= 5
  {
    AddsDigit(n);
    AddsDigit(n / 10);
    AddsDigit(n / 10 / 10);
    AddsDigit(n / 10 / 10 / 10);
  }

  lemma {:induction false} AddsDigit(n: nat)
    requires n >= 10
    ensures |Print(n, 10)| == |Print(n / 10, 10)| + 1
  {
  }

  /** `RequirementId(digits)` stands for the text `req-` followed by the digits. */
  datatype RequirementId = RequirementId(digits: Bytes)

  /** `PlannedPath(digits)` stands for `src/generated/behavior-`, the digits and `.py`. */
  datatype PlannedPath = PlannedPath(digits: Bytes)

  function IdOf(n: nat): RequirementId {
    RequirementId(FourDigits(n))
  }

  function PathOf(n: nat): PlannedPath {
    PlannedPath(FourDigits(n))
  }

  /** The ids of the requirements `first..first + count - 1`. */
  function Ids(first: nat, count: nat): (r: seq<RequirementId>)
    ensures |r| == count && forall i :: 0 <= i < count ==> r[i] == IdOf(first + i)
    decreases count
  {
    if count == 0 then [] else [IdOf(first)] + Ids(first + 1, count - 1)
  }

  lemma {:induction false} IdsOfParts(first: nat, m: nat, n: nat)
    ensures Ids(first, m) + Ids(first + m, n) == Ids(first, m + n)
  {
    hide IdOf, Ids;
    var all, front, back := Ids(first, m + n), Ids(first, m), Ids(first + m, n);
    forall i | 0 <= i < n ensures back[i] == all[m + i] {
      assert (first + m) + i == first + (m + i);
    }
  }

  /** Groups of four, and how many units more than groups are wanted (less when negative). */
  function GroupCount(profile: Profile): nat {
    profile.requirements / 4
  }

  function Extra(profile: Profile): int {
    profile.workUnits - GroupCount(profile)
  }

  /** The group a requirement belongs to, from the number in its id. */
  function GroupOf(id: RequirementId): int
    requires AllDigits(id.digits, 10)
  {
    (ReadOn(id.digits, 0, 10) - 1) / 4
  }

  /** The work units proposed for one group of requirements: two while there are extra units to make. */
  function ProposeWorkUnits(extra: int, ids: seq<RequirementId>): seq<seq<RequirementId>>
    requires |ids| >= 2 && AllDigits(ids[0].digits, 10)
  {
    if GroupOf(ids[0]) < extra then [ids[..2], ids[2..]] else [ids]
  }

  ghost predicate NoneEmpty(units: seq<seq<RequirementId>>) {
    forall i :: 0 <= i < |units| ==> units[i] != []
  }

  /** The implementation files of the units, each named after the digits of its unit's first requirement. */
  ghost function PathsOf(units: seq<seq<RequirementId>>): seq<PlannedPath>
    requires NoneEmpty(units)
  {
    if units == [] then [] else [PlannedPath(units[0][0].digits)] + PathsOf(units[1..])
  }

  /** The planned paths, in order. */
  method PlannedPaths(profile: Profile) returns (paths: seq<PlannedPath>)
    ensures paths == PlannedFrom(GroupCount(profile), Extra(profile), 0)
  {
    paths := [];
    var groups, extra := GroupCount(profile), Extra(profile);
    for group := 0 to groups
      invariant paths + PlannedFrom(groups, extra, group) == PlannedFrom(groups, extra, 0)
    {
      var first := group * 4 + 1;
      Associates(paths, PlannedFor(extra, group), PlannedFrom(groups, extra, group + 1));
      if group < extra {
        paths := paths + [PathOf(first), PathOf(first + 2)];
      } else {
        paths := paths + [PathOf(first)];
      }
    }
  }

  function PlannedFrom(groups: nat, extra: int, group: nat): seq<PlannedPath>
    decreases groups - group
  {
    if group >= groups then [] else PlannedFor(extra, group) + PlannedFrom(groups, extra, group + 1)
  }

  function PlannedFor(extra: int, group: nat): seq<PlannedPath> {
    if group < extra then [PathOf(group * 4 + 1), PathOf(group * 4 + 3)] else [PathOf(group * 4 + 1)]
  }

  /** All units the client proposes for the groups from `group` on, in order. */
  ghost function UnitsFrom(groups: nat, extra: int, group: nat): seq<seq<RequirementId>>
    decreases groups - group
  {
    if group >= groups then []
    else ProposeWorkUnits(extra, Ids(group * 4 + 1, 4)) + UnitsFrom(groups, extra, group + 1)
  }

  /** How many of the groups from `group` on are split in two. */
  ghost function Split(groups: nat, extra: int, group: nat): nat {
    var last := if extra < groups then extra else groups;
    if group < last then last - group else 0
  }

  lemma {:induction false} InFront(unit: seq<RequirementId>, rest: seq<seq<RequirementId>>)
    requires unit != [] && NoneEmpty(rest)
    ensures Concat([unit] + rest) == unit + Concat(rest)
    ensures NoneEmpty([unit] + rest)
    ensures PathsOf([unit] + rest) == [PlannedPath(unit[0].digits)] + PathsOf(rest)
  {
    assert ([unit] + rest)[1..] == rest;
  }

  lemma {:induction false} TwoInFront(u: seq<RequirementId>, v: seq<RequirementId>, rest: seq<seq<RequirementId>>)
    requires u != [] && v != [] && NoneEmpty(rest)
    ensures Concat([u, v] + rest) == u + v + Concat(rest)
    ensures NoneEmpty([u, v] + rest)
    ensures PathsOf([u, v] + rest) == [PlannedPath(u[0].digits), PlannedPath(v[0].digits)] + PathsOf(rest)
  {
    hide Concat, PathsOf, NoneEmpty;
    InFront(v, rest);
    InFront(u, [v] + rest);
    assert [u, v] + rest == [u] + ([v] + rest);
    Associates(u, v, Concat(rest));
    Associates([PlannedPath(u[0].digits)], [PlannedPath(v[0].digits)], PathsOf(rest));
    assert [PlannedPath(u[0].digits)] + [PlannedPath(v[0].digits)] == [PlannedPath(u[0].digits), PlannedPath(v[0].digits)];
  }

  /** The client finds the group of a requirement by reading its id back. */
  lemma {:induction false} GroupReadsBack(group: nat)
    ensures GroupOf(IdOf(group * 4 + 1)) == group
  {
    FourDigitsReadBack(group * 4 + 1);
  }

  /** The first groups are split, two requirements each, as many as there are extra units. */
  lemma {:induction false} FirstGroupsAreSplit(extra: int, group: nat)
    ensures var ids := Ids(group * 4 + 1, 4);
            ProposeWorkUnits(extra, ids) ==
            if group < extra then [[IdOf(group * 4 + 1), IdOf(group * 4 + 2)], [IdOf(group * 4 + 3), IdOf(group * 4 + 4)]]
            else [ids]
  {
    hide FourDigits, GroupOf;
    GroupReadsBack(group);
    var ids := Ids(group * 4 + 1, 4);
    assert ids[..2] == [IdOf(group * 4 + 1), IdOf(group * 4 + 2)];
    assert ids[2..] == [IdOf(group * 4 + 3), IdOf(group * 4 + 4)];
  }

  /** One group's units in front of the units of the groups after it. */
  lemma {:induction false} GroupInFront(extra: int, group: nat, rest: seq<seq<RequirementId>>, count: nat)
    requires NoneEmpty(rest) && Concat(rest) == Ids(group * 4 + 5, count)
    ensures var units := ProposeWorkUnits(extra, Ids(group * 4 + 1, 4)) + rest;
            && |units| == |PlannedFor(extra, group)| + |rest|
            && NoneEmpty(units)
            && Concat(units) == Ids(group * 4 + 1, 4 + count)
            && PathsOf(units) == PlannedFor(extra, group) + PathsOf(rest)
  {
    hide Concat, PathsOf, NoneEmpty, Ids, FourDigits, GroupOf;
    var ids := Ids(group * 4 + 1, 4);
    IdsOfParts(group * 4 + 1, 4, count);
    GroupReadsBack(group);
    if group < extra {
      assert ids[..2] + ids[2..] == ids;
      TwoInFront(ids[..2], ids[2..], rest);
    } else {
      InFront(ids, rest);
    }
  }

  lemma {:induction false} SplitStep(groups: nat, extra: int, group: nat)
    requires group < groups
    ensures |PlannedFor(extra, group)| + (groups - (group + 1)) + Split(groups, extra, group + 1) == groups - group + Split(groups, extra, group)
  {
  }

  lemma {:induction false} NextGroup(groups: nat, extra: int, group: nat)
    requires group < groups
    ensures UnitsFrom(groups, extra, group) == ProposeWorkUnits(extra, Ids(group * 4 + 1, 4)) + UnitsFrom(groups, extra, group + 1)
    ensures PlannedFrom(groups, extra, group) == PlannedFor(extra, group) + PlannedFrom(groups, extra, group + 1)
  {
    hide ProposeWorkUnits, Ids, PlannedFor;
  }

  lemma {:induction false} NoGroups(groups: nat, extra: int)
    ensures UnitsFrom(groups, extra, groups) == [] && PlannedFrom(groups, extra, groups) == []
    ensures Split(groups, extra, groups) == 0
    ensures NoneEmpty([]) && Concat<RequirementId>([]) == Ids(groups * 4 + 1, 0) && PathsOf([]) == []
  {
  }

  lemma {:induction false} UnitsCover(groups: nat, extra: int, group: nat)
    requires group <= groups
    ensures var units := UnitsFrom(groups, extra, group);
            && |units| == groups - group + Split(groups, extra, group)
            && NoneEmpty(units)
            && Concat(units) == Ids(group * 4 + 1, (groups - group) * 4)
            && PathsOf(units) == PlannedFrom(groups, extra, group)
    decreases groups - group
  {
    hide *;
    if group == groups {
      NoGroups(groups, extra);
    } else {
      var rest, left := UnitsFrom(groups, extra, group + 1), (groups - (group + 1)) * 4;
      UnitsCover(groups, extra, group + 1);
      assert (group + 1) * 4 + 1 == group * 4 + 5;
      GroupInFront(extra, group, rest, left);
      SplitStep(groups, extra, group);
      NextGroup(groups, extra, group);
      assert 4 + left == (groups - group) * 4;
    }
  }

  lemma {:induction false} LaterPaths(groups: nat, extra: int, group: nat, i: nat) returns (n: nat)
    requires i < |PlannedFrom(groups, extra, group)|
    ensures n > group * 4 && PlannedFrom(groups, extra, group)[i] == PathOf(n)
    decreases groups - group
  {
    hide PathOf;
    var here := PlannedFor(extra, group);
    if i >= |here| {
      n := LaterPaths(groups, extra, group + 1, i - |here|);
    } else {
      n := if i == 0 then group * 4 + 1 else group * 4 + 3;
    }
  }

  /** No file is planned twice. */
  lemma {:induction false} PathsAreDistinct(groups: nat, extra: int, group: nat, i: nat, j: nat)
    requires i < j < |PlannedFrom(groups, extra, group)|
    ensures PlannedFrom(groups, extra, group)[i] != PlannedFrom(groups, extra, group)[j]
    decreases groups - group
  {
    var here := PlannedFor(extra, group);
    hide FourDigits;
    if i >= |here| {
      PathsAreDistinct(groups, extra, group + 1, i - |here|, j - |here|);
    } else {
      var m := if i == 0 then group * 4 + 1 else group * 4 + 3;
      var n := group * 4 + 3;
      if j >= |here| {
        n := LaterPaths(groups, extra, group + 1, j - |here|);
      }
      FourDigitsAreNames(m, n);
    }
  }

  /** No requirement has another one's id, so covering all ids once covers all requirements once. */
  lemma {:induction false} IdsAreDistinct(first: nat, count: nat, i: nat, j: nat)
    requires i < count && j < count
    ensures Ids(first, count)[i] == Ids(first, count)[j] <==> i == j
  {
    hide FourDigits, Ids;
    FourDigitsAreNames(first + i, first + j);
  }

  /**
   The example client and the planned paths agree: over all groups the units cover every
   requirement once and in order and write exactly the planned files; their number is the
   wanted one iff that lies between one and two units per group.
   */
  lemma {:induction false} ProposalsMatchPlan(profile: Profile)
    requires profile.requirements % 4 == 0
    ensures var groups, extra := GroupCount(profile), Extra(profile);
            var units := UnitsFrom(groups, extra, 0);
            && NoneEmpty(units)
            && Concat(units) == Ids(1, profile.requirements)
            && PathsOf(units) == PlannedFrom(groups, extra, 0)
            && (|units| == profile.workUnits <==> groups <= profile.workUnits <= 2 * groups)
  {
    hide Concat, PathsOf, NoneEmpty, Ids, UnitsFrom, PlannedFrom;
    UnitsCover(GroupCount(profile), Extra(profile), 0);
  }
}
