/**
 Deferred workflow edits: a request names files and line edits, everything is validated
 against the files as they are, and only then is each file rewritten.
 Lines are strings without line ends, as `splitlines` yields them.
 */
module DeferredEdits {
  import opened Wrappers
  import opened LinePatches
  import opened EditLists

  type Line = string
  type Path = string

  /** A key of a JSON object: absent, present with the wrong type (null included), or usable. */
  datatype Field<+T> = Missing | Mistyped | Given(value: T)

  datatype Kind = Add | Remove | Replace

  datatype RawEdit =
    | NotAnEdit
    | RawEdit(kind: Option<Kind>, startLine: Field<int>, endLine: Field<int>, text: Field<seq<Line>>)

  datatype Group =
    | NotAGroup
    | Group(filePath: Field<string>, edits: Field<seq<RawEdit>>)

  /** `groups` is `file_edits` when that key is present, else the single file of `file_path`/`edits`. */
  datatype Request =
    | NoEdit
    | NotAnObject
    | Request(actionIsEdit: bool, groups: Field<seq<Group>>)

  datatype EditError =
    | RequestNotObject | WrongAction | NoTarget | NoGroups | GroupNotObject
    | BadPath | NotAFile | NoEdits
    | EditNotObject | BadKind | BadStart | BadEnd
    | AddBeyondEnd | RangeBeyondEnd | TextRequired | TextForbidden

  /** A validated group: the file, its line count when validated, and its edits as patches. */
  datatype Plan = Plan(path: Path, lineCount: nat, patches: seq<Patch<Line>>)

  // ---------------------------------------------------------------------------
  // Validation of one edit.

  /** The checks in their order; the end of an `add` is not compared with the file. */
  function CheckEdit(raw: RawEdit, lineCount: nat): Result<Patch<Line>, EditError> {
    if raw.NotAnEdit? then Failure(EditNotObject)
    else if raw.kind.None? then Failure(BadKind)
    else if !raw.startLine.Given? || raw.startLine.value < 1 then Failure(BadStart)
    else
      var start := raw.startLine.value;
      var endField := if raw.endLine.Missing? then raw.startLine else raw.endLine;
      if !endField.Given? || endField.value < start then Failure(BadEnd)
      else
        var end := endField.value;
        match raw.kind.value
        case Add =>
          if start > lineCount + 1 then Failure(AddBeyondEnd)
          else if !raw.text.Given? then Failure(TextRequired)
          else Success(Patch(start - 1, start - 1, raw.text.value))
        case Replace =>
          if end > lineCount then Failure(RangeBeyondEnd)
          else if !raw.text.Given? then Failure(TextRequired)
          else Success(Patch(start - 1, end, raw.text.value))
        case Remove =>
          if end > lineCount then Failure(RangeBeyondEnd)
          else if !raw.text.Missing? then Failure(TextForbidden)
          else Success(Patch(start - 1, end, []))
  }

  /** What the tool promises about an accepted edit, stated without the order of the checks. */
  ghost predicate Acceptable(raw: RawEdit, lineCount: nat) {
    && raw.RawEdit? && raw.kind.Some? && raw.startLine.Given?
    && 1 <= raw.startLine.value <= LastLine(raw)
    && (raw.endLine.Missing? || raw.endLine.Given?)
    && (raw.kind == Some(Add) ==> raw.startLine.value <= lineCount + 1)
    && (raw.kind != Some(Add) ==> LastLine(raw) <= lineCount)
    && (if raw.kind == Some(Remove) then raw.text.Missing? else raw.text.Given?)
  }

  ghost function LastLine(raw: RawEdit): int
    requires raw.RawEdit? && raw.startLine.Given?
  {
    if raw.endLine.Given? then raw.endLine.value else raw.startLine.value
  }

  /** Validation accepts exactly the acceptable edits, and an accepted edit fits the file it was checked against. */
  lemma {:induction false} EditAccepted(raw: RawEdit, lineCount: nat)
    ensures CheckEdit(raw, lineCount).Success? <==> Acceptable(raw, lineCount)
    ensures CheckEdit(raw, lineCount).Success? ==>
              var p := CheckEdit(raw, lineCount).value;
              && Fits(lineCount, p)
              && p.lo == raw.startLine.value - 1
              && p.hi == (if raw.kind == Some(Add) then p.lo else LastLine(raw))
              && (raw.kind != Some(Add) ==> p.lo < p.hi)
              && p.text == (if raw.kind == Some(Remove) then [] else raw.text.value)
  {
  }

  // ---------------------------------------------------------------------------
  // Validation of groups and requests: the first failing check decides.

  function CheckEdits(raws: seq<RawEdit>, lineCount: nat): Result<seq<Patch<Line>>, EditError> {
    if raws == [] then Success([])
    else
      var front :- CheckEdits(raws[..|raws| - 1], lineCount);
      var last :- CheckEdit(raws[|raws| - 1], lineCount);
      Success(front + [last])
  }

  function CheckGroup(resolve: string -> Option<Path>, files: map<Path, seq<Line>>, g: Group): Result<Plan, EditError>
  {
    if g.NotAGroup? then Failure(GroupNotObject)
    else if !g.filePath.Given? || resolve(g.filePath.value).None? then Failure(BadPath)
    else
      var path := resolve(g.filePath.value).value;
      if path !in files then Failure(NotAFile)
      else if !g.edits.Given? || g.edits.value == [] then Failure(NoEdits)
      else
        var patches :- CheckEdits(g.edits.value, |files[path]|);
        Success(Plan(path, |files[path]|, patches))
  }

  function CheckGroups(resolve: string -> Option<Path>, files: map<Path, seq<Line>>, gs: seq<Group>)
    : Result<seq<Plan>, EditError>
  {
    if gs == [] then Success([])
    else
      var front :- CheckGroups(resolve, files, gs[..|gs| - 1]);
      var last :- CheckGroup(resolve, files, gs[|gs| - 1]);
      Success(front + [last])
  }

  /** Shape errors of the request itself come before any file is looked at. */
  function Groups(request: Request): Result<seq<Group>, EditError> {
    match request
    case NoEdit => Success([])
    case NotAnObject => Failure(RequestNotObject)
    case Request(actionIsEdit, groups) =>
      if !actionIsEdit then Failure(WrongAction)
      else if groups.Missing? then Failure(NoTarget)
      else if groups.Mistyped? || groups.value == [] then Failure(NoGroups)
      else if exists i :: 0 <= i < |groups.value| && groups.value[i].NotAGroup? then Failure(GroupNotObject)
      else Success(groups.value)
  }

  function CheckRequest(resolve: string -> Option<Path>, files: map<Path, seq<Line>>, request: Request)
    : Result<seq<Plan>, EditError>
  {
    var gs :- Groups(request);
    CheckGroups(resolve, files, gs)
  }

  // ---------------------------------------------------------------------------
  // What an accepted request is, and what its plans are, told from the request itself.

  /** The group names a file of the tree and has edits, all of them acceptable for that file. */
  ghost predicate AcceptableGroup(resolve: string -> Option<Path>, files: map<Path, seq<Line>>, g: Group) {
    && g.Group? && g.filePath.Given? && resolve(g.filePath.value).Some? && resolve(g.filePath.value).value in files
    && g.edits.Given? && |g.edits.value| > 0
    && forall j :: 0 <= j < |g.edits.value| ==> Acceptable(g.edits.value[j], |files[resolve(g.filePath.value).value]|)
  }

  /** Nothing to do, or an edit action with groups, all of them acceptable. */
  ghost predicate AcceptableRequest(resolve: string -> Option<Path>, files: map<Path, seq<Line>>, request: Request) {
    request.NoEdit? ||
    (request.Request? && request.actionIsEdit && request.groups.Given? && |request.groups.value| > 0 &&
     forall i :: 0 <= i < |request.groups.value| ==> AcceptableGroup(resolve, files, request.groups.value[i]))
  }

  /** The patch replaces the lines `startLine..LastLine` by the text; an `add` stands in front of its start line. */
  ghost predicate Denotes(raw: RawEdit, p: Patch<Line>) {
    && raw.RawEdit? && raw.startLine.Given? && p.lo == raw.startLine.value - 1
    && p.hi == (if raw.kind == Some(Add) then p.lo else LastLine(raw))
    && (if raw.kind == Some(Remove) then p.text == [] else raw.text.Given? && p.text == raw.text.value)
  }

  ghost predicate DenotesAll(raws: seq<RawEdit>, patches: seq<Patch<Line>>) {
    |patches| == |raws| && forall j :: 0 <= j < |raws| ==> Denotes(raws[j], patches[j])
  }

  /** The plan is for the file the group names, and its patches are the group's edits, one by one. */
  ghost predicate PlanOf(resolve: string -> Option<Path>, files: map<Path, seq<Line>>, g: Group, plan: Plan) {
    && g.Group? && g.filePath.Given? && resolve(g.filePath.value) == Some(plan.path)
    && plan.path in files && plan.lineCount == |files[plan.path]|
    && g.edits.Given? && DenotesAll(g.edits.value, plan.patches)
  }

  ghost predicate PlansOf(resolve: string -> Option<Path>, files: map<Path, seq<Line>>, request: Request, plans: seq<Plan>) {
    if request.Request? && request.groups.Given? then
      |plans| == |request.groups.value| &&
      forall i :: 0 <= i < |plans| ==> PlanOf(resolve, files, request.groups.value[i], plans[i])
    else plans == []
  }

  lemma {:induction false} EditsAccepted(raws: seq<RawEdit>, lineCount: nat)
    ensures CheckEdits(raws, lineCount).Success? <==> forall j :: 0 <= j < |raws| ==> Acceptable(raws[j], lineCount)
    ensures CheckEdits(raws, lineCount).Success? ==> DenotesAll(raws, CheckEdits(raws, lineCount).value)
  {
    hide CheckEdit, Acceptable, Denotes;
    if raws != [] {
      var front, last := raws[..|raws| - 1], raws[|raws| - 1];
      EditsAccepted(front, lineCount);
      EditDenotes(last, lineCount);
      assert forall j :: 0 <= j < |front| ==> front[j] == raws[j];
    }
  }

  lemma {:induction false} EditDenotes(raw: RawEdit, lineCount: nat)
    ensures CheckEdit(raw, lineCount).Success? <==> Acceptable(raw, lineCount)
    ensures CheckEdit(raw, lineCount).Success? ==> Denotes(raw, CheckEdit(raw, lineCount).value)
  {
    EditAccepted(raw, lineCount);
  }

  lemma {:induction false} GroupAccepted(resolve: string -> Option<Path>, files: map<Path, seq<Line>>, g: Group)
    ensures CheckGroup(resolve, files, g).Success? <==> AcceptableGroup(resolve, files, g)
    ensures CheckGroup(resolve, files, g).Success? ==> PlanOf(resolve, files, g, CheckGroup(resolve, files, g).value)
  {
    hide CheckEdits, Acceptable, Denotes;
    if g.Group? && g.filePath.Given? && resolve(g.filePath.value).Some? && resolve(g.filePath.value).value in files && g.edits.Given? {
      EditsAccepted(g.edits.value, |files[resolve(g.filePath.value).value]|);
    }
  }

  lemma {:induction false} GroupsAccepted(resolve: string -> Option<Path>, files: map<Path, seq<Line>>, gs: seq<Group>)
    ensures CheckGroups(resolve, files, gs).Success? <==> forall i :: 0 <= i < |gs| ==> AcceptableGroup(resolve, files, gs[i])
    ensures CheckGroups(resolve, files, gs).Success? ==>
              var plans := CheckGroups(resolve, files, gs).value;
              |plans| == |gs| && forall i :: 0 <= i < |plans| ==> PlanOf(resolve, files, gs[i], plans[i])
  {
    hide CheckGroup, AcceptableGroup, PlanOf;
    if gs != [] {
      var front, last := gs[..|gs| - 1], gs[|gs| - 1];
      GroupsAccepted(resolve, files, front);
      GroupAccepted(resolve, files, last);
      assert forall i :: 0 <= i < |front| ==> front[i] == gs[i];
    }
  }

  /**
   A request is accepted iff all its groups name files and all their edits are acceptable;
   its plans are then these groups with these edits, none left out and none changed.
   */
  lemma {:induction false} RequestAccepted(resolve: string -> Option<Path>, files: map<Path, seq<Line>>, request: Request)
    ensures CheckRequest(resolve, files, request).Success? <==> AcceptableRequest(resolve, files, request)
    ensures CheckRequest(resolve, files, request).Success? ==>
              PlansOf(resolve, files, request, CheckRequest(resolve, files, request).value)
  {
    if request.NoEdit? {
      GroupsAccepted(resolve, files, []);
    } else if request.Request? && request.actionIsEdit && request.groups.Given? && request.groups.value != [] {
      GroupsAccepted(resolve, files, request.groups.value);
      if i :| 0 <= i < |request.groups.value| && request.groups.value[i].NotAGroup? {
        assert !AcceptableGroup(resolve, files, request.groups.value[i]);
      }
    }
  }

  ghost predicate PlanFits(files: map<Path, seq<Line>>, plan: Plan) {
    plan.path in files && plan.lineCount == |files[plan.path]| && AllFit(plan.lineCount, plan.patches)
  }

  lemma {:induction false} CheckedEditsFit(raws: seq<RawEdit>, lineCount: nat)
    requires CheckEdits(raws, lineCount).Success?
    ensures |CheckEdits(raws, lineCount).value| == |raws|
    ensures AllFit(lineCount, CheckEdits(raws, lineCount).value)
  {
    if raws != [] {
      CheckedEditsFit(raws[..|raws| - 1], lineCount);
      EditAccepted(raws[|raws| - 1], lineCount);
    }
  }

  /** Every plan of an accepted request fits the files it was validated against. */
  lemma {:induction false} CheckedPlansFit(resolve: string -> Option<Path>, files: map<Path, seq<Line>>, gs: seq<Group>)
    requires CheckGroups(resolve, files, gs).Success?
    ensures var plans := CheckGroups(resolve, files, gs).value;
            |plans| == |gs| && forall i :: 0 <= i < |plans| ==> PlanFits(files, plans[i])
  {
    if gs != [] {
      CheckedPlansFit(resolve, files, gs[..|gs| - 1]);
      var last := gs[|gs| - 1];
      CheckedEditsFit(last.edits.value, |files[resolve(last.filePath.value).value]|);
    }
  }

  // ---------------------------------------------------------------------------
  // Rewriting files.

  /** The lines read back after `"\n".join(lines) + "\n"` was written: an emptied file holds one empty line. */
  function Written(lines: seq<Line>): seq<Line> {
    if lines == [] then [""] else lines
  }

  /** The tree after the plans ran one after the other, each rereading its file. */
  function Rewritten(files: map<Path, seq<Line>>, plans: seq<Plan>): map<Path, seq<Line>> {
    if plans == [] then files
    else
      var before := Rewritten(files, plans[..|plans| - 1]);
      var plan := plans[|plans| - 1];
      if plan.path in before then
        before[plan.path := Written(ApplyDescending(before[plan.path], plan.patches))]
      else before
  }

  lemma {:induction false} PlanStep(files: map<Path, seq<Line>>, plans: seq<Plan>, i: nat)
    requires i < |plans|
    ensures var before := Rewritten(files, plans[..i]);
            plans[i].path in before ==>
              Rewritten(files, plans[..i + 1]) ==
              before[plans[i].path := Written(ApplyDescending(before[plans[i].path], plans[i].patches))]
  {
    hide ApplyDescending, Written;
    assert plans[..i + 1][..i] == plans[..i];
  }

  /** The plans for one file, in request order. */
  ghost function PlansFor(plans: seq<Plan>, path: Path): seq<Plan> {
    if plans == [] then []
    else PlansFor(plans[..|plans| - 1], path) + if plans[|plans| - 1].path == path then [plans[|plans| - 1]] else []
  }

  ghost function RunPlans(lines: seq<Line>, plans: seq<Plan>): seq<Line> {
    if plans == [] then lines
    else Written(ApplyDescending(RunPlans(lines, plans[..|plans| - 1]), plans[|plans| - 1].patches))
  }

  /** Each file sees exactly the plans that name it, in order; a file nobody names is untouched. */
  lemma {:induction false} RewrittenFileByFile(files: map<Path, seq<Line>>, plans: seq<Plan>, path: Path)
    requires path in files
    ensures Rewritten(files, plans).Keys == files.Keys
    ensures Rewritten(files, plans)[path] == RunPlans(files[path], PlansFor(plans, path))
  {
    if plans != [] {
      var front, plan := plans[..|plans| - 1], plans[|plans| - 1];
      RewrittenFileByFile(files, front, path);
      if plan.path == path {
        assert PlansFor(plans, path)[..|PlansFor(front, path)|] == PlansFor(front, path);
      } else {
        assert PlansFor(plans, path) == PlansFor(front, path);
      }
    }
  }

  lemma {:induction false} PlansForOnly(plans: seq<Plan>, k: nat)
    requires k < |plans|
    requires forall i :: 0 <= i < |plans| && i != k ==> plans[i].path != plans[k].path
    ensures PlansFor(plans, plans[k].path) == [plans[k]]
  {
    var front := plans[..|plans| - 1];
    if k == |plans| - 1 {
      PlansForNone(front, plans[k].path);
    } else {
      PlansForOnly(front, k);
    }
  }

  lemma {:induction false} PlansForNone(plans: seq<Plan>, path: Path)
    requires forall i :: 0 <= i < |plans| ==> plans[i].path != path
    ensures PlansFor(plans, path) == []
  {
    if plans != [] {
      PlansForNone(plans[..|plans| - 1], path);
    }
  }

  /** A line that no text contains: a blank one longer than all of theirs. */
  lemma {:induction false} FreshLine(ps: seq<Patch<Line>>) returns (x: Line)
    ensures IsFresh(x, ps) && x != ""
  {
    var size := LongerThanTexts(ps);
    x := seq(size + 1, _ => ' ');
    forall i | 0 <= i < |ps| ensures x !in ps[i].text {
      assert forall j :: 0 <= j < |ps[i].text| ==> |ps[i].text[j]| <= size;
    }
  }

  lemma {:induction false} LongerThanTexts(ps: seq<Patch<Line>>) returns (size: nat)
    ensures forall i, j :: 0 <= i < |ps| && 0 <= j < |ps[i].text| ==> |ps[i].text[j]| <= size
  {
    size := 0;
    for i := 0 to |ps|
      invariant forall k, j :: 0 <= k < i && 0 <= j < |ps[k].text| ==> |ps[k].text[j]| <= size
    {
      for j := 0 to |ps[i].text|
        invariant forall k, l :: 0 <= k < i && 0 <= l < |ps[k].text| ==> |ps[k].text[l]| <= size
        invariant forall l :: 0 <= l < j ==> |ps[i].text[l]| <= size
      {
        if |ps[i].text[j]| > size {
          size := |ps[i].text[j]|;
        }
      }
    }
  }

  /** For every file of `n` lines, what is written is the simultaneous edit of its lines. */
  ghost predicate WritesSimultaneousEdit(n: nat, ps: seq<Patch<Line>>) {
    forall lines: seq<Line> :: |lines| == n ==>
      Written(ApplyDescending(lines, ps)) == Written(SimultaneousEdit(lines, ps))
  }

  /**
   The one way for incompatible edits to be written correctly: every line goes, the only text
   is one blank line, and in place that line goes as well; an emptied file is written as one blank line.
   */
  ghost predicate BlankEitherWay(n: nat, ps: seq<Patch<Line>>) {
    LinesLeft(n, SortDescending(ps)) == 0 && AllCovered(ps, 0, n) && TextFrom(ps, 0, n) == [""]
  }

  lemma {:induction false} BlankIsWritten(n: nat, ps: seq<Patch<Line>>)
    requires BlankEitherWay(n, ps)
    ensures WritesSimultaneousEdit(n, ps)
  {
    hide LinesLeft, AllCovered, TextFrom, SortDescending;
    forall lines: seq<Line> | |lines| == n ensures Written(ApplyDescending(lines, ps)) == Written(SimultaneousEdit(lines, ps)) {
      LinesLeftCounts(lines, SortDescending(ps));
      CoveredLeavesText(lines, ps, 0);
    }
  }

  /** What is written for copies of a fresh line decides. */
  lemma {:induction false} WrittenDecides(n: nat, ps: seq<Patch<Line>>)
    requires AllFit(n, ps) && WritesSimultaneousEdit(n, ps)
    ensures Compatible(n, SortDescending(ps)) || BlankEitherWay(n, ps)
  {
    hide Compatible, SortDescending, AllFit, IsFresh, ApplyInOrder, ForwardPass, LinesLeft, TextFrom;
    var x := FreshLine(ps);
    var lines := Copies(n, x);
    assert |lines| == n;
    SortIsStable(ps);
    SortKeepsFit(n, ps);
    SortKeepsFresh(ps, x);
    SortKeepsMeaning(lines, ps);
    var inPlace, intended := ApplyInOrder(lines, SortDescending(ps)), SimultaneousEdit(lines, ps);
    assert Written(inPlace) == Written(intended);
    if inPlace == intended {
      CopiesDecide(n, SortDescending(ps), x);
    } else {
      NeverLonger(lines, SortDescending(ps));
      assert inPlace == [] && intended == [""];
      LinesLeftCounts(lines, SortDescending(ps));
      NothingKept(lines, ps, x);
    }
  }

  lemma {:induction false} NothingKept(lines: seq<Line>, ps: seq<Patch<Line>>, x: Line)
    requires forall i :: 0 <= i < |lines| ==> lines[i] == x
    requires SimultaneousEdit(lines, ps) == [""] && x != ""
    ensures AllCovered(ps, 0, |lines|) && TextFrom(ps, 0, |lines|) == [""]
  {
    forall j | 0 <= j < |lines| ensures Covered(ps, j) {
      if !Covered(ps, j) {
        UncoveredLineShows(lines, ps, 0, j);
      }
    }
    CoveredLeavesText(lines, ps, 0);
  }

  /**
   A file named by one group only holds, after the request, the simultaneous edit of its
   original lines, provided the group's edits are compatible with each other. That is exact:
   it holds for all files of that many lines iff the edits are compatible or leave a blank
   file either way.
   */
  lemma {:induction false} FileNamedOnce(files: map<Path, seq<Line>>, plans: seq<Plan>, k: nat)
    requires k < |plans| && PlanFits(files, plans[k])
    requires forall i :: 0 <= i < |plans| && i != k ==> plans[i].path != plans[k].path
    ensures Rewritten(files, plans).Keys == files.Keys
    ensures Compatible(plans[k].lineCount, SortDescending(plans[k].patches)) ==>
              Rewritten(files, plans)[plans[k].path] ==
              Written(SimultaneousEdit(files[plans[k].path], plans[k].patches))
    ensures RewritesAsIntended(plans, k) <==>
              Compatible(plans[k].lineCount, SortDescending(plans[k].patches)) ||
              BlankEitherWay(plans[k].lineCount, plans[k].patches)
  {
    var n, ps := plans[k].lineCount, plans[k].patches;
    hide Compatible, BlankEitherWay, SimultaneousEdit;
    FileRewritten(files, plans, k);
    InPlaceIsSimultaneous(n, ps);
    RewritesIffWrites(plans, k);
    if Compatible(n, SortDescending(ps)) {
      assert WritesSimultaneousEdit(n, ps);
    }
    if BlankEitherWay(n, ps) {
      BlankIsWritten(n, ps);
    }
    if WritesSimultaneousEdit(n, ps) {
      WrittenDecides(n, ps);
    }
  }

  /** Whatever the files are, as long as the one of plan `k` has the checked number of lines, it ends up as intended. */
  ghost predicate RewritesAsIntended(plans: seq<Plan>, k: nat)
    requires k < |plans|
  {
    forall files: map<Path, seq<Line>> ::
      plans[k].path in files && |files[plans[k].path]| == plans[k].lineCount ==>
        plans[k].path in Rewritten(files, plans) &&
        Rewritten(files, plans)[plans[k].path] == Written(SimultaneousEdit(files[plans[k].path], plans[k].patches))
  }

  lemma {:induction false} FileRewritten(files: map<Path, seq<Line>>, plans: seq<Plan>, k: nat)
    requires k < |plans| && plans[k].path in files
    requires forall i :: 0 <= i < |plans| && i != k ==> plans[i].path != plans[k].path
    ensures Rewritten(files, plans).Keys == files.Keys
    ensures plans[k].path in Rewritten(files, plans)
    ensures Rewritten(files, plans)[plans[k].path] == Written(ApplyDescending(files[plans[k].path], plans[k].patches))
  {
    hide Rewritten, PlansFor;
    RewrittenFileByFile(files, plans, plans[k].path);
    PlansForOnly(plans, k);
    assert [plans[k]][..0] == [];
  }

  lemma {:induction false} RewritesIffWrites(plans: seq<Plan>, k: nat)
    requires k < |plans|
    requires forall i :: 0 <= i < |plans| && i != k ==> plans[i].path != plans[k].path
    ensures RewritesAsIntended(plans, k) <==> WritesSimultaneousEdit(plans[k].lineCount, plans[k].patches)
  {
    hide Rewritten, Written, ApplyDescending, SimultaneousEdit;
    var path, n, ps := plans[k].path, plans[k].lineCount, plans[k].patches;
    forall files: map<Path, seq<Line>> | path in files && |files[path]| == n
      ensures path in Rewritten(files, plans) && Rewritten(files, plans)[path] == Written(ApplyDescending(files[path], ps))
    {
      FileRewritten(files, plans, k);
    }
    if RewritesAsIntended(plans, k) {
      forall lines: seq<Line> | |lines| == n ensures Written(ApplyDescending(lines, ps)) == Written(SimultaneousEdit(lines, ps)) {
        var files := map[path := lines];
        assert path in files && files[path] == lines;
        assert path in Rewritten(files, plans);
      }
    }
  }

  /**
   Overlapping edits pass validation and still go wrong: replacing lines 1-3 while adding a
   line in front of line 2 loses the added line and keeps a line that was to be replaced.
   */
  lemma {:induction false} OverlapGoesWrong()
    ensures var raws := [RawEdit(Some(Replace), Given(1), Given(3), Given(["new"])),
                         RawEdit(Some(Add), Given(2), Missing, Given(["extra"]))];
            var lines := ["a", "b", "c"];
            CheckEdits(raws, 3) == Success([Patch(0, 3, ["new"]), Patch(1, 1, ["extra"])]) &&
            ApplyDescending(lines, [Patch(0, 3, ["new"]), Patch(1, 1, ["extra"])]) == ["new", "c"] &&
            SimultaneousEdit(lines, [Patch(0, 3, ["new"]), Patch(1, 1, ["extra"])]) == ["new", "extra"]
  {
    hide ApplyDescending, SimultaneousEdit, CheckEdits;
    var p, q := Patch(0, 3, ["new"]), Patch(1, 1, ["extra"]);
    CheckTwo(RawEdit(Some(Replace), Given(1), Given(3), Given(["new"])),
             RawEdit(Some(Add), Given(2), Missing, Given(["extra"])), 3, p, q);
    InsertionInRange("a", "b", "c", "new", "extra");
  }

  lemma {:induction false} CheckTwo(r: RawEdit, s: RawEdit, lineCount: nat, p: Patch<Line>, q: Patch<Line>)
    requires CheckEdit(r, lineCount) == Success(p) && CheckEdit(s, lineCount) == Success(q)
    ensures CheckEdits([r, s], lineCount) == Success([p, q])
  {
    assert [r, s][..1] == [r] && [r][..0] == [];
    var one := [r];
    assert CheckEdits(one[..|one| - 1], lineCount) == Success([]);
    assert [] + [p] == [p];
    assert CheckEdits(one, lineCount) == Success([p]);
    assert [p] + [q] == [p, q];
  }

  /** Some plan is for the file. */
  ghost predicate Named(plans: seq<Plan>, path: Path) {
    exists i :: 0 <= i < |plans| && plans[i].path == path
  }

  /** No other plan is for the file of plan `k`. */
  ghost predicate NamedOnce(plans: seq<Plan>, k: nat)
    requires k < |plans|
  {
    forall i :: 0 <= i < |plans| && i != k ==> plans[i].path != plans[k].path
  }

  /** What the tree holds after fitting plans: nothing changes in files they do not name, and files named once are as intended. */
  lemma {:induction false} AppliedPlans(files: map<Path, seq<Line>>, plans: seq<Plan>)
    requires forall i :: 0 <= i < |plans| ==> PlanFits(files, plans[i])
    ensures Rewritten(files, plans).Keys == files.Keys
    ensures forall path :: path in files && !Named(plans, path) ==> Rewritten(files, plans)[path] == files[path]
    ensures forall k :: 0 <= k < |plans| && NamedOnce(plans, k) && Compatible(plans[k].lineCount, SortDescending(plans[k].patches)) ==>
              var path := plans[k].path;
              path in files && path in Rewritten(files, plans) &&
              var lines := SimultaneousEdit(files[path], plans[k].patches);
              Rewritten(files, plans)[path] == if lines == [] then [""] else lines
  {
    hide Rewritten, Compatible, SimultaneousEdit, SortDescending, RewritesAsIntended, BlankEitherWay;
    RewrittenKeys(files, plans);
    forall path | path in files && !Named(plans, path) ensures Rewritten(files, plans)[path] == files[path] {
      RewrittenFileByFile(files, plans, path);
      PlansForNone(plans, path);
    }
    forall k | 0 <= k < |plans| && NamedOnce(plans, k) && Compatible(plans[k].lineCount, SortDescending(plans[k].patches))
      ensures var path := plans[k].path;
              path in files && path in Rewritten(files, plans) &&
              var lines := SimultaneousEdit(files[path], plans[k].patches);
              Rewritten(files, plans)[path] == if lines == [] then [""] else lines
    {
      assert PlanFits(files, plans[k]);
      FileNamedOnce(files, plans, k);
    }
  }

  lemma {:induction false} RewrittenKeys(files: map<Path, seq<Line>>, plans: seq<Plan>)
    ensures Rewritten(files, plans).Keys == files.Keys
  {
    hide ApplyDescending, Written;
    if plans != [] {
      RewrittenKeys(files, plans[..|plans| - 1]);
    }
  }

  // ---------------------------------------------------------------------------
  // The tools.

  lemma {:induction false} EditPrefixFails(raws: seq<RawEdit>, k: nat, lineCount: nat)
    requires k <= |raws| && CheckEdits(raws[..k], lineCount).Failure?
    ensures CheckEdits(raws, lineCount) == CheckEdits(raws[..k], lineCount)
    decreases |raws| - k
  {
    if k == |raws| {
      assert raws[..k] == raws;
    } else {
      assert raws[..k + 1][..k] == raws[..k];
      EditPrefixFails(raws, k + 1, lineCount);
    }
  }

  /** Checks the edits of one group in order; the first failing one decides. */
  method CheckedEdits(raws: seq<RawEdit>, lineCount: nat) returns (r: Result<seq<Patch<Line>>, EditError>)
    ensures r == CheckEdits(raws, lineCount)
  {
    var patches: seq<Patch<Line>> := [];
    for j := 0 to |raws|
      invariant CheckEdits(raws[..j], lineCount) == Success(patches)
    {
      assert raws[..j + 1][..j] == raws[..j];
      var checked := CheckEdit(raws[j], lineCount);
      if checked.Failure? {
        EditPrefixFails(raws, j + 1, lineCount);
        return Failure(checked.error);
      }
      patches := patches + [checked.value];
    }
    assert raws[..|raws|] == raws;
    return Success(patches);
  }

  class Worktree {
    /** Regular files and their lines. */
    var files: map<Path, seq<Line>>
    /** Relative paths without `..`, symlink or blank name resolve to a file name; others do not. */
    const resolve: string -> Option<Path>

    constructor (resolve: string -> Option<Path>, files: map<Path, seq<Line>>)
      ensures this.resolve == resolve && this.files == files
    {
      this.resolve := resolve;
      this.files := files;
    }

    /** Collects one plan per group and stops at the first failing check; reads files only. */
    method Validate(request: Request) returns (r: Result<seq<Plan>, EditError>)
      ensures r == CheckRequest(resolve, files, request)
    {
      var groups :- Groups(request);
      hide Groups, CheckEdits;
      var results: seq<Plan> := [];
      for i := 0 to |groups|
        invariant CheckGroups(resolve, files, groups[..i]) == Success(results)
      {
        assert groups[..i + 1][..i] == groups[..i];
        var g := groups[i];
        if g.NotAGroup? || !g.filePath.Given? || resolve(g.filePath.value).None? {
          PrefixFails(groups, i + 1);
          return Failure(if g.NotAGroup? then GroupNotObject else BadPath);
        }
        var path := resolve(g.filePath.value).value;
        if path !in files || !g.edits.Given? || g.edits.value == [] {
          PrefixFails(groups, i + 1);
          return Failure(if path !in files then NotAFile else NoEdits);
        }
        var patches := CheckedEdits(g.edits.value, |files[path]|);
        if patches.Failure? {
          PrefixFails(groups, i + 1);
          return Failure(patches.error);
        }
        results := results + [Plan(path, |files[path]|, patches.value)];
      }
      assert groups[..|groups|] == groups;
      return Success(results);
    }

    lemma {:induction false} PrefixFails(gs: seq<Group>, k: nat)
      requires k <= |gs| && CheckGroups(resolve, files, gs[..k]).Failure?
      ensures CheckGroups(resolve, files, gs) == CheckGroups(resolve, files, gs[..k])
      decreases |gs| - k
    {
      if k == |gs| {
        assert gs[..k] == gs;
      } else {
        assert gs[..k + 1][..k] == gs[..k];
        PrefixFails(gs, k + 1);
      }
    }

    /** Reports whether a request is valid; never changes a file. */
    method ExecuteValidateEdit(request: Request) returns (valid: bool)
      ensures valid <==> AcceptableRequest(resolve, files, request)
    {
      RequestAccepted(resolve, files, request);
      var r := Validate(request);
      return r.Success?;
    }

    /** Rewrites the file of each plan in turn. */
    method RewriteFiles(plans: seq<Plan>)
      requires forall i :: 0 <= i < |plans| ==> PlanFits(files, plans[i])
      modifies this`files
      ensures files == Rewritten(old(files), plans)
    {
      ghost var was := files;
      assert forall i :: 0 <= i < |plans| ==> plans[i].path in was;
      assert was == Rewritten(was, plans[..0]);
      hide PlanFits, Rewritten, ApplyDescending, Written;
      for i := 0 to |plans|
        invariant files == Rewritten(was, plans[..i])
        invariant files.Keys == was.Keys
      {
        PlanStep(was, plans, i);
        var lines := EditLines(files[plans[i].path], plans[i].patches);
        files := files[plans[i].path := Written(lines)];
      }
      assert plans[..|plans|] == plans;
    }

    /**
     All or nothing up to validation: a request that is not acceptable leaves every file alone.
     An acceptable one rewrites the named files and no other, each by the edits that name it; a
     file named by one group with compatible edits then holds the simultaneous edit of its
     lines, or one empty line if nothing is left.
     */
    method ExecuteApplyEdit(request: Request) returns (r: Result<seq<Plan>, EditError>)
      modifies this`files
      ensures r == CheckRequest(resolve, old(files), request)
      ensures r.Success? <==> AcceptableRequest(resolve, old(files), request)
      ensures r.Failure? ==> files == old(files)
      ensures r.Success? ==> PlansOf(resolve, old(files), request, r.value)
      ensures r.Success? ==> files == Rewritten(old(files), r.value)
      ensures r.Success? ==> files.Keys == old(files).Keys && forall path :: path in files && !Named(r.value, path) ==> files[path] == old(files)[path]
      ensures r.Success? ==>
                forall k :: 0 <= k < |r.value| && NamedOnce(r.value, k) &&
                            Compatible(r.value[k].lineCount, SortDescending(r.value[k].patches)) ==>
                  var path := r.value[k].path;
                  path in old(files) && path in files &&
                  var lines := SimultaneousEdit(old(files)[path], r.value[k].patches);
                  files[path] == if lines == [] then [""] else lines
    {
      RequestAccepted(resolve, files, request);
      var plans :- Validate(request);
      assert Groups(request).Success?;
      CheckedPlansFit(resolve, files, Groups(request).value);
      AppliedPlans(files, plans);
      hide *;
      RewriteFiles(plans);
      return Success(plans);
    }
  }

  /** Edits one file's line list in place, last edit of the file first. */
  method EditLines(original: seq<Line>, patches: seq<Patch<Line>>) returns (lines: seq<Line>)
    ensures lines == ApplyDescending(original, patches)
  {
    lines := original;
    var sorted := SortDescending(patches);
    for j := 0 to |sorted|
      invariant lines == ApplyInOrder(original, sorted[..j])
    {
      assert sorted[..j + 1][..j] == sorted[..j];
      lines := Splice(lines, sorted[j].lo, sorted[j].hi, sorted[j].text);
    }
    assert sorted[..|sorted|] == sorted;
  }
}
