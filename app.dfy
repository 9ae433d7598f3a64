/** `EmployeeOrgApp` (src/index.ts): the organisation tree together with the linear history of
    moves that `undo` and `redo` walk through. */
module App {
  import opened Employees
  import opened TreeFacts
  import opened Relocation

  /** One entry of `actionHistory`. The source stores the `exec` and `undo` closures of a move;
      both only call `_move`, so the entry is the ids they capture: the employee, the target
      supervisor, and the supervisor found before the move. */
  datatype Action = Action(employeeId: int, supervisorId: int, cachedSupervisorId: int)

  /** How a call ends: normally, or with the exception the source throws. */
  datatype Outcome = Done | Threw(error: Error)

  /** The fields of the object: `ceo`, `actionHistory` (entry 0 is the initial `null`) and
      `latestActionIdx`. */
  datatype AppState = AppState(ceo: Employee, history: seq<Option<Action>>, cursor: nat)

  /** A freshly constructed object. */
  function Initial(ceo: Employee): AppState {
    AppState(ceo, [None], 0)
  }

  /** No history entry replays a move of the ceo (`move` throws before recording one). */
  predicate ActionsAvoidCeo(st: AppState) {
    forall i :: 0 <= i < |st.history| && st.history[i].Some? ==> st.history[i].value.employeeId != st.ceo.uniqueId
  }

  /** What holds of every reachable state: distinct ids, the `null` sentinel at index 0 and moves
      after it, and a cursor inside the history. */
  ghost predicate ValidState(st: AppState) {
    UniqueIds(st.ceo) && |st.history| >= 1 && st.history[0] == None && st.cursor < |st.history| &&
    (forall i :: 0 < i < |st.history| ==> st.history[i].Some?) && ActionsAvoidCeo(st)
  }

  /** Runs a closure's `_move` on the state: the tree changes only if it did not throw. */
  function Apply(st: AppState, step: Result<Employee>): (AppState, Outcome) {
    match step
    case Ok(t) => (st.(ceo := t), Done)
    case Err(error) => (st, Threw(error))
  }

  /** `move(eId, sId)`: refuses the ceo, cuts off the undone part of the history, looks the
      employee up (throwing when absent), records the move and advances the cursor, and only then
      runs it, so a missing target throws after the move has been recorded. */
  function MoveApp(st: AppState, eId: int, sId: int): (r: (AppState, Outcome))
    ensures r.0.ceo.uniqueId == st.ceo.uniqueId
    ensures ActionsAvoidCeo(st) ==> ActionsAvoidCeo(r.0)
  {
    if eId == st.ceo.uniqueId then (st, Threw(CeoImmutable))
    else
      var history := if st.cursor < |st.history| - 1 then st.history[..st.cursor + 1] else st.history;
      match FindIdOrThrow(st.ceo, eId, st.ceo, st.ceo)
      case Err(error) => (st.(history := history), Threw(error))
      case Ok(position) =>
        var action := Action(eId, sId, position.supervisor.uniqueId);
        Apply(AppState(st.ceo, history + [Some(action)], st.cursor + 1), MoveStep(st.ceo, eId, sId))
  }

  /** `undo()`: at the start of the history it does nothing; otherwise it runs the undo closure
      of the current entry and steps the cursor back, unless the closure throws. */
  function UndoApp(st: AppState): (r: (AppState, Outcome))
    requires ActionsAvoidCeo(st)
    ensures r.0.ceo.uniqueId == st.ceo.uniqueId && r.0.history == st.history && ActionsAvoidCeo(r.0)
  {
    if st.cursor > 0 then
      var entry := if st.cursor < |st.history| then st.history[st.cursor] else None;
      match entry
      case None => (st.(cursor := st.cursor - 1), Done)
      case Some(action) =>
        match MoveStep(st.ceo, action.employeeId, action.cachedSupervisorId)
        case Err(error) => (st, Threw(error))
        case Ok(t) => (st.(ceo := t, cursor := st.cursor - 1), Done)
    else (st, Done)
  }

  /** `redo()`: at the end of the history it does nothing; otherwise it advances the cursor and
      then runs the exec closure of the new current entry. */
  function RedoApp(st: AppState): (r: (AppState, Outcome))
    requires ActionsAvoidCeo(st)
    ensures r.0.ceo.uniqueId == st.ceo.uniqueId && r.0.history == st.history && ActionsAvoidCeo(r.0)
  {
    if st.cursor < |st.history| - 1 then
      var next := st.(cursor := st.cursor + 1);
      match st.history[st.cursor + 1]
      case None => (next, Done)
      case Some(action) => Apply(next, MoveStep(st.ceo, action.employeeId, action.supervisorId))
    else (st, Done)
  }

  // ---------------------------------------------------------------------------------------
  // The object

  class EmployeeOrgApp {
    var ceo: Employee
    var actionHistory: seq<Option<Action>>
    var latestActionIdx: nat

    function State(): AppState
      reads this
    {
      AppState(ceo, actionHistory, latestActionIdx)
    }

    ghost predicate Valid()
      reads this
    {
      ValidState(State())
    }

    constructor(ceo: Employee)
      requires UniqueIds(ceo)
      ensures Valid() && State() == Initial(ceo)
    {
      this.ceo := ceo;
      actionHistory := [None];
      latestActionIdx := 0;
    }

    /** `_move(eId, sId)`: changes the tree only when both lookups succeed. */
    method Relocate(eId: int, sId: int) returns (outcome: Outcome)
      requires eId != ceo.uniqueId
      modifies this`ceo
      ensures (AppState(ceo, actionHistory, latestActionIdx), outcome) ==
              Apply(AppState(old(ceo), actionHistory, latestActionIdx), MoveStep(old(ceo), eId, sId))
    {
      var employeePosition := FindIdOrThrow(ceo, eId, ceo, ceo);
      if employeePosition.Err? {
        return Threw(employeePosition.error);
      }
      var supervisorPosition := FindIdOrThrow(ceo, sId, ceo, ceo);
      if supervisorPosition.Err? {
        return Threw(supervisorPosition.error);
      }
      var employee := employeePosition.value.employee;
      var currentSupervisor := employeePosition.value.supervisor;
      var targetSupervisor := supervisorPosition.value.employee;
      ceo := Detach(ceo, currentSupervisor.uniqueId, eId);
      ceo := Attach(ceo, targetSupervisor.uniqueId, employee);
      outcome := Done;
    }

    method Move(eId: int, sId: int) returns (outcome: Outcome)
      requires Valid()
      modifies this
      ensures Valid()
      ensures (State(), outcome) == MoveApp(old(State()), eId, sId)
    {
      ghost var st := State();
      MovePreservesValid(st, eId, sId);
      if eId == ceo.uniqueId {
        return Threw(CeoImmutable);
      }
      if latestActionIdx < |actionHistory| - 1 {
        actionHistory := actionHistory[..latestActionIdx + 1];
      }
      var found := FindIdOrThrow(ceo, eId, ceo, ceo);
      if found.Err? {
        outcome := Threw(found.error);
        assert (State(), outcome) == MoveApp(st, eId, sId);
        return;
      }
      var cachedSupervisor := found.value.supervisor;
      var action := Action(eId, sId, cachedSupervisor.uniqueId);
      actionHistory := actionHistory + [Some(action)];
      latestActionIdx := latestActionIdx + 1;
      MoveFound(st, eId, sId, found.value);
      outcome := Relocate(eId, sId);
      assert (State(), outcome) == MoveApp(st, eId, sId);
    }

    method Undo() returns (outcome: Outcome)
      requires Valid()
      modifies this
      ensures Valid()
      ensures (State(), outcome) == UndoApp(old(State()))
    {
      UndoPreservesValid(State());
      outcome := Done;
      if latestActionIdx > 0 {
        var entry := actionHistory[latestActionIdx];
        if entry.Some? {
          outcome := Relocate(entry.value.employeeId, entry.value.cachedSupervisorId);
          if outcome.Threw? {
            return;
          }
        }
        latestActionIdx := latestActionIdx - 1;
      }
    }

    method Redo() returns (outcome: Outcome)
      requires Valid()
      modifies this
      ensures Valid()
      ensures (State(), outcome) == RedoApp(old(State()))
    {
      ghost var st := State();
      RedoPreservesValid(st);
      outcome := Done;
      if latestActionIdx < |actionHistory| - 1 {
        latestActionIdx := latestActionIdx + 1;
        var entry := actionHistory[latestActionIdx];
        if entry.Some? {
          outcome := Relocate(entry.value.employeeId, entry.value.supervisorId);
          assert RedoApp(st) == Apply(st.(cursor := st.cursor + 1), MoveStep(st.ceo, entry.value.employeeId, entry.value.supervisorId));
        }
      }
    }
  }

  // ---------------------------------------------------------------------------------------
  // The calls in closed form

  /** `move` once the employee has been found at `position`. */
  lemma MoveFound(st: AppState, eId: int, sId: int, position: Position)
    requires eId != st.ceo.uniqueId && FindIdOrThrow(st.ceo, eId, st.ceo, st.ceo) == Ok(position)
    ensures var history := if st.cursor < |st.history| - 1 then st.history[..st.cursor + 1] else st.history;
            MoveApp(st, eId, sId) ==
            Apply(AppState(st.ceo, history + [Some(Action(eId, sId, position.supervisor.uniqueId))], st.cursor + 1),
                  MoveStep(st.ceo, eId, sId))
  {
  }

  /** A `move` of an employee found under supervisor p records the move, with p as the place to
      return to, after the part of the history that was not undone, and then runs `_move`. */
  lemma MoveRecorded(st: AppState, eId: int, sId: int, p: int)
    requires ValidState(st) && eId != st.ceo.uniqueId && IsKid(st.ceo, p, eId)
    ensures MoveApp(st, eId, sId) ==
            Apply(AppState(st.ceo, st.history[..st.cursor + 1] + [Some(Action(eId, sId, p))], st.cursor + 1),
                  MoveStep(st.ceo, eId, sId))
  {
    assert st.cursor == |st.history| - 1 ==> st.history[..st.cursor + 1] == st.history;
    var pos := FindIdOrThrow(st.ceo, eId, st.ceo, st.ceo);
    assert pos.Ok? && pos.value.supervisor.uniqueId == p by {
      FindSupervisor(st.ceo, eId, p);
    }
  }

  /** A `move` whose two ids are both present. */
  lemma MoveDone(st: AppState, eId: int, sId: int, p: int)
    requires ValidState(st) && eId != st.ceo.uniqueId && eId in Ids(st.ceo) && IsKid(st.ceo, p, eId) && sId in Ids(st.ceo)
    ensures MoveStep(st.ceo, eId, sId).Ok?
    ensures MoveApp(st, eId, sId) ==
            (AppState(MoveStep(st.ceo, eId, sId).value, st.history[..st.cursor + 1] + [Some(Action(eId, sId, p))],
                      st.cursor + 1), Done)
  {
    MoveRecorded(st, eId, sId, p);
    MoveErrors(st.ceo, eId, sId);
  }

  /** `undo` whose closure succeeds with the tree t. */
  lemma UndoStep(st: AppState, t: Employee)
    requires ActionsAvoidCeo(st) && 0 < st.cursor < |st.history| && st.history[st.cursor].Some?
    requires MoveStep(st.ceo, st.history[st.cursor].value.employeeId, st.history[st.cursor].value.cachedSupervisorId) == Ok(t)
    ensures UndoApp(st) == (AppState(t, st.history, st.cursor - 1), Done)
  {
  }

  /** `undo` whose closure throws. */
  lemma UndoThrows(st: AppState, error: Error)
    requires ActionsAvoidCeo(st) && 0 < st.cursor < |st.history| && st.history[st.cursor].Some?
    requires MoveStep(st.ceo, st.history[st.cursor].value.employeeId, st.history[st.cursor].value.cachedSupervisorId) == Err(error)
    ensures UndoApp(st) == (st, Threw(error))
  {
  }

  /** `redo` whose closure succeeds with the tree t. */
  lemma RedoStep(st: AppState, t: Employee)
    requires ActionsAvoidCeo(st) && st.cursor < |st.history| - 1 && st.history[st.cursor + 1].Some?
    requires MoveStep(st.ceo, st.history[st.cursor + 1].value.employeeId, st.history[st.cursor + 1].value.supervisorId) == Ok(t)
    ensures RedoApp(st) == (AppState(t, st.history, st.cursor + 1), Done)
  {
  }

  // ---------------------------------------------------------------------------------------
  // Properties of the operations

  lemma InitialIsValid(ceo: Employee)
    requires UniqueIds(ceo)
    ensures ValidState(Initial(ceo))
  {
  }

  lemma MovePreservesValid(st: AppState, eId: int, sId: int)
    requires ValidState(st)
    ensures ValidState(MoveApp(st, eId, sId).0)
  {
    if eId != st.ceo.uniqueId && MoveStep(st.ceo, eId, sId).Ok? {
      MovePreservesUnique(st.ceo, eId, sId);
    }
  }

  lemma UndoPreservesValid(st: AppState)
    requires ValidState(st)
    ensures ValidState(UndoApp(st).0)
  {
    if st.cursor > 0 {
      var action := st.history[st.cursor].value;
      if MoveStep(st.ceo, action.employeeId, action.cachedSupervisorId).Ok? {
        MovePreservesUnique(st.ceo, action.employeeId, action.cachedSupervisorId);
      }
    }
  }

  lemma RedoPreservesValid(st: AppState)
    requires ValidState(st)
    ensures ValidState(RedoApp(st).0)
  {
    if st.cursor < |st.history| - 1 {
      var action := st.history[st.cursor + 1].value;
      if MoveStep(st.ceo, action.employeeId, action.supervisorId).Ok? {
        MovePreservesUnique(st.ceo, action.employeeId, action.supervisorId);
      }
    }
  }

  /** The four ways `move` ends. Refusing the ceo changes nothing; an unknown employee still cuts
      off the undone part of the history; otherwise the move is recorded with the employee's
      current supervisor as the place to return to, it becomes the last entry of the history
      (so nothing is left to redo), and the tree changes only when the target is found. */
  lemma MoveOutcomes(st: AppState, eId: int, sId: int)
    requires ValidState(st)
    ensures eId == st.ceo.uniqueId ==> MoveApp(st, eId, sId) == (st, Threw(CeoImmutable))
    ensures eId != st.ceo.uniqueId && eId !in Ids(st.ceo) ==>
              MoveApp(st, eId, sId) == (st.(history := st.history[..st.cursor + 1]), Threw(NotFound(eId)))
    ensures eId != st.ceo.uniqueId && eId in Ids(st.ceo) ==>
              var r := MoveApp(st, eId, sId).0;
              r.history[..st.cursor + 1] == st.history[..st.cursor + 1] && |r.history| == st.cursor + 2 &&
              r.cursor == |r.history| - 1 && RedoApp(r) == (r, Done) &&
              r.history[r.cursor].Some? && r.history[r.cursor].value.employeeId == eId &&
              r.history[r.cursor].value.supervisorId == sId &&
              IsKid(st.ceo, r.history[r.cursor].value.cachedSupervisorId, eId)
    ensures eId != st.ceo.uniqueId && eId in Ids(st.ceo) && sId !in Ids(st.ceo) ==>
              MoveApp(st, eId, sId).0.ceo == st.ceo && MoveApp(st, eId, sId).1 == Threw(NotFound(sId))
    ensures eId != st.ceo.uniqueId && eId in Ids(st.ceo) && sId in Ids(st.ceo) ==>
              MoveApp(st, eId, sId).1 == Done && Ok(MoveApp(st, eId, sId).0.ceo) == MoveStep(st.ceo, eId, sId)
  {
    if eId != st.ceo.uniqueId {
      if eId !in Ids(st.ceo) {
        MoveUnknown(st, eId, sId);
      } else {
        var p := SupervisorOf(st.ceo, eId);
        MoveKnown(st, eId, sId, p);
      }
    }
  }

  lemma MoveUnknown(st: AppState, eId: int, sId: int)
    requires ValidState(st) && eId != st.ceo.uniqueId && eId !in Ids(st.ceo)
    ensures MoveApp(st, eId, sId) == (st.(history := st.history[..st.cursor + 1]), Threw(NotFound(eId)))
  {
    assert st.cursor == |st.history| - 1 ==> st.history[..st.cursor + 1] == st.history;
    assert FindIdOrThrow(st.ceo, eId, st.ceo, st.ceo) == Err(NotFound(eId)) by {
      FindFromCeo(st.ceo, eId);
    }
  }

  lemma MoveKnown(st: AppState, eId: int, sId: int, p: int)
    requires ValidState(st) && eId != st.ceo.uniqueId && eId in Ids(st.ceo) && IsKid(st.ceo, p, eId)
    ensures var r := MoveApp(st, eId, sId).0;
            r.history[..st.cursor + 1] == st.history[..st.cursor + 1] && |r.history| == st.cursor + 2 &&
            r.cursor == |r.history| - 1 && RedoApp(r) == (r, Done) &&
            r.history[r.cursor] == Some(Action(eId, sId, p))
    ensures sId !in Ids(st.ceo) ==>
              MoveApp(st, eId, sId).0.ceo == st.ceo && MoveApp(st, eId, sId).1 == Threw(NotFound(sId))
    ensures sId in Ids(st.ceo) ==>
              MoveApp(st, eId, sId).1 == Done && Ok(MoveApp(st, eId, sId).0.ceo) == MoveStep(st.ceo, eId, sId)
  {
    MoveRecorded(st, eId, sId, p);
    var h := st.history[..st.cursor + 1] + [Some(Action(eId, sId, p))];
    assert MoveApp(st, eId, sId).0.history == h;
    assert h[..st.cursor + 1] == st.history[..st.cursor + 1];
    assert MoveStep(st.ceo, eId, sId).Err? <==> sId !in Ids(st.ceo) by {
      MoveErrors(st.ceo, eId, sId);
    }
    assert sId !in Ids(st.ceo) ==> MoveStep(st.ceo, eId, sId) == Err(NotFound(sId)) by {
      MoveErrors(st.ceo, eId, sId);
    }
  }

  /** `undo` right after a successful `move` to a supervisor outside the employee's subtree gives
      back the same organisation and the cursor of before the move; the employee becomes the last
      subordinate of its old supervisor. */
  lemma UndoRestores(st: AppState, eId: int, sId: int)
    requires ValidState(st) && eId != st.ceo.uniqueId && eId in Ids(st.ceo)
    requires sId in Ids(st.ceo) && sId !in SubIds(st.ceo, eId)
    ensures var moved := MoveApp(st, eId, sId);
            var undone := UndoApp(moved.0);
            moved.1 == Done && undone.1 == Done &&
            SameOrg(undone.0.ceo, st.ceo) && undone.0.cursor == st.cursor && undone.0.history == moved.0.history
    ensures var undone := UndoApp(MoveApp(st, eId, sId).0).0;
            forall p :: IsKid(st.ceo, p, eId) ==> Kids(undone.ceo, p) == Some(FilterOut(Kids(st.ceo, p).value, eId) + [eId])
  {
    var p := SupervisorOf(st.ceo, eId);
    MoveDone(st, eId, sId, p);
    var r1 := MoveStep(st.ceo, eId, sId).value;
    var st1 := MoveApp(st, eId, sId).0;
    assert MoveStep(r1, eId, p).Ok? && SameOrg(MoveStep(r1, eId, p).value, st.ceo) &&
           Kids(MoveStep(r1, eId, p).value, p) == Some(FilterOut(Kids(st.ceo, p).value, eId) + [eId]) by {
      MoveThenUndo(st.ceo, eId, sId, p);
      assert p in Ids(st.ceo);
    }
    UndoStep(st1, MoveStep(r1, eId, p).value);
    forall q | IsKid(st.ceo, q, eId) ensures q == p {
      SupervisorUnique(st.ceo, eId, q, p);
    }
  }

  /** `redo` right after that `undo` gives back exactly the state the `move` produced. */
  lemma RedoReplays(st: AppState, eId: int, sId: int)
    requires ValidState(st) && eId != st.ceo.uniqueId && eId in Ids(st.ceo)
    requires sId in Ids(st.ceo) && sId !in SubIds(st.ceo, eId)
    ensures RedoApp(UndoApp(MoveApp(st, eId, sId).0).0) == MoveApp(st, eId, sId)
  {
    var p := SupervisorOf(st.ceo, eId);
    var c := st.cursor;
    var h := st.history[..c + 1] + [Some(Action(eId, sId, p))];
    assert MoveStep(st.ceo, eId, sId).Ok? by {
      MoveDone(st, eId, sId, p);
    }
    var r1 := MoveStep(st.ceo, eId, sId).value;
    var st1 := AppState(r1, h, c + 1);
    assert MoveApp(st, eId, sId) == (st1, Done) by {
      MoveDone(st, eId, sId, p);
    }
    assert ActionsAvoidCeo(st1);
    assert MoveStep(r1, eId, p).Ok? by {
      MoveThenUndo(st.ceo, eId, sId, p);
    }
    var r2 := MoveStep(r1, eId, p).value;
    assert MoveStep(r2, eId, sId) == Ok(r1) by {
      MoveUndoRedo(st.ceo, eId, sId, p);
    }
    assert |h| == c + 2 && h[c + 1] == Some(Action(eId, sId, p));
    UndoThenRedo(st1, r2);
  }

  /** When replaying the entry under the cursor gives back the tree its undo started from, a
      `redo` right after a successful `undo` restores the whole state. */
  lemma UndoThenRedo(st: AppState, t: Employee)
    requires ActionsAvoidCeo(st) && 0 < st.cursor < |st.history| && st.history[st.cursor].Some?
    requires var action := st.history[st.cursor].value;
             MoveStep(st.ceo, action.employeeId, action.cachedSupervisorId) == Ok(t) &&
             MoveStep(t, action.employeeId, action.supervisorId) == Ok(st.ceo)
    ensures UndoApp(st).1 == Done && RedoApp(UndoApp(st).0) == (st, Done)
  {
    var undone := AppState(t, st.history, st.cursor - 1);
    assert UndoApp(st) == (undone, Done) by {
      UndoStep(st, t);
    }
    assert ActionsAvoidCeo(undone);
    RedoStep(undone, st.ceo);
  }

  /** Two successful moves followed by two undos give back the organisation of the start, with
      the cursor where it was. */
  lemma TwoMovesTwoUndos(st: AppState, eA: int, sA: int, eB: int, sB: int)
    requires ValidState(st) && eA != st.ceo.uniqueId && eA in Ids(st.ceo)
    requires sA in Ids(st.ceo) && sA !in SubIds(st.ceo, eA)
    requires var t1 := MoveApp(st, eA, sA).0.ceo;
             eB != t1.uniqueId && eB in Ids(t1) && sB in Ids(t1) && sB !in SubIds(t1, eB)
    ensures var st1 := MoveApp(st, eA, sA);
            var st2 := MoveApp(st1.0, eB, sB);
            var st3 := UndoApp(st2.0);
            var st4 := UndoApp(st3.0);
            st1.1 == Done && st2.1 == Done && st3.1 == Done && st4.1 == Done &&
            SameOrg(st4.0.ceo, st.ceo) && st4.0.cursor == st.cursor && st4.0.history == st2.0.history
  {
    // The first move, and what undoing it right away would give.
    var st1 := MoveApp(st, eA, sA).0;
    var u1 := UndoApp(st1).0;
    assert MoveApp(st, eA, sA).1 == Done && UndoApp(st1).1 == Done && SameOrg(u1.ceo, st.ceo) &&
           u1.cursor == st.cursor by {
      UndoRestores(st, eA, sA);
    }
    assert ValidState(st1) by {
      MovePreservesValid(st, eA, sA);
    }
    // The second move and its undo give back the organisation after the first move.
    var st2 := MoveApp(st1, eB, sB).0;
    var st3 := UndoApp(st2).0;
    assert MoveApp(st1, eB, sB).1 == Done && UndoApp(st2).1 == Done && SameOrg(st3.ceo, st1.ceo) &&
           st3.cursor == st1.cursor && st3.history == st2.history by {
      UndoRestores(st1, eB, sB);
    }
    assert ValidState(st3) by {
      MovePreservesValid(st1, eB, sB);
      UndoPreservesValid(st2);
    }
    assert st3.history[st3.cursor] == st1.history[st1.cursor] by {
      var pB := SupervisorOf(st1.ceo, eB);
      MoveKnown(st1, eB, sB, pB);
      assert st2.history[st1.cursor] == st2.history[..st1.cursor + 1][st1.cursor];
    }
    // So the second undo behaves as undoing the first move right away.
    assert UndoApp(st3).1 == Done && UndoApp(st3).0.cursor == st.cursor && SameOrg(UndoApp(st3).0.ceo, u1.ceo) by {
      UndoRespectsSameOrg(st3, st1);
    }
    SameOrgTransitive(UndoApp(st3).0.ceo, u1.ceo, st.ceo);
  }

  /** A `move` under the employee's own subtree detaches that subtree from the organisation; the
      recorded undo then throws not-found for the employee and the cursor stays where it is. */
  lemma UndoAfterMoveIntoOwnSubtree(st: AppState, eId: int, sId: int)
    requires ValidState(st) && eId != st.ceo.uniqueId && eId in Ids(st.ceo) && sId in SubIds(st.ceo, eId)
    ensures MoveApp(st, eId, sId).1 == Done
    ensures forall x :: x in SubIds(st.ceo, eId) ==> x !in Ids(MoveApp(st, eId, sId).0.ceo)
    ensures UndoApp(MoveApp(st, eId, sId).0) == (MoveApp(st, eId, sId).0, Threw(NotFound(eId)))
  {
    var p := SupervisorOf(st.ceo, eId);
    MoveRecorded(st, eId, sId, p);
    var t1 := Detach(st.ceo, p, eId);
    assert MoveStep(st.ceo, eId, sId) == Ok(t1) && eId !in Ids(t1) &&
           multiset(Ids(t1)) == multiset(Ids(st.ceo)) - multiset(SubIds(st.ceo, eId)) by {
      MoveIntoOwnSubtree(st.ceo, eId, sId, p);
    }
    var st1 := MoveApp(st, eId, sId).0;
    assert st1.ceo == t1;
    forall x | x in SubIds(st.ceo, eId) ensures x !in Ids(t1) {
      SubtreeIdsGone(st.ceo, eId, t1, x);
    }
    assert MoveStep(t1, eId, p) == Err(NotFound(eId)) by {
      MoveErrors(t1, eId, p);
    }
    UndoThrows(st1, NotFound(eId));
  }

  /** Ids whose whole count has been subtracted are no longer present. */
  lemma SubtreeIdsGone(t: Employee, eId: int, t1: Employee, x: int)
    requires UniqueIds(t) && eId in Ids(t) && x in SubIds(t, eId)
    requires multiset(Ids(t1)) == multiset(Ids(t)) - multiset(SubIds(t, eId))
    ensures x !in Ids(t1)
  {
    SubtreeWithin(t, eId);
    assert x in multiset(SubIds(t, eId));
    assert multiset(Ids(t1))[x] == multiset(Ids(t))[x] - multiset(SubIds(t, eId))[x];
  }

  /** A `move` whose target is missing throws but is still recorded; undoing it moves the
      employee to its own supervisor, which only puts it last among the subordinates. */
  lemma UndoAfterMissingTarget(st: AppState, eId: int, sId: int)
    requires ValidState(st) && eId != st.ceo.uniqueId && eId in Ids(st.ceo) && sId !in Ids(st.ceo)
    ensures MoveApp(st, eId, sId).1 == Threw(NotFound(sId)) && MoveApp(st, eId, sId).0.ceo == st.ceo
    ensures var undone := UndoApp(MoveApp(st, eId, sId).0);
            undone.1 == Done && undone.0.cursor == st.cursor && SameOrg(undone.0.ceo, st.ceo)
  {
    var p := SupervisorOf(st.ceo, eId);
    MoveRecorded(st, eId, sId, p);
    assert MoveStep(st.ceo, eId, sId) == Err(NotFound(sId)) by {
      MoveErrors(st.ceo, eId, sId);
    }
    var st1 := MoveApp(st, eId, sId).0;
    assert MoveStep(st.ceo, eId, p).Ok? && SameOrg(MoveStep(st.ceo, eId, p).value, st.ceo) by {
      MoveToOwnSupervisor(st.ceo, eId, p);
    }
    UndoStep(st1, MoveStep(st.ceo, eId, p).value);
  }

  /** `undo` only looks at the tree and the entry under the cursor, and `_move` treats two trees
      that are the same organisation alike. */
  lemma UndoRespectsSameOrg(a: AppState, b: AppState)
    requires ValidState(a) && ValidState(b) && SameOrg(a.ceo, b.ceo)
    requires a.cursor == b.cursor && a.history[a.cursor] == b.history[b.cursor]
    ensures UndoApp(a).1 == UndoApp(b).1 && UndoApp(a).0.cursor == UndoApp(b).0.cursor
    ensures SameOrg(UndoApp(a).0.ceo, UndoApp(b).0.ceo)
  {
    if a.cursor > 0 {
      var action := a.history[a.cursor].value;
      MoveRespectsSameOrg(a.ceo, b.ceo, action.employeeId, action.cachedSupervisorId);
    }
  }

  /** `undo` at the start and `redo` at the end of the history do nothing. */
  lemma HistoryEnds(st: AppState)
    requires ValidState(st)
    ensures st.cursor == 0 ==> UndoApp(st) == (st, Done)
    ensures st.cursor == |st.history| - 1 ==> RedoApp(st) == (st, Done)
  {
  }

  // ---------------------------------------------------------------------------------------
  // Sequences of calls

  /** A call on the object. */
  datatype Call = MoveCall(employeeId: int, supervisorId: int) | UndoCall | RedoCall

  function Step(st: AppState, call: Call): (r: (AppState, Outcome))
    requires ActionsAvoidCeo(st)
    ensures ActionsAvoidCeo(r.0)
  {
    match call
    case MoveCall(eId, sId) => MoveApp(st, eId, sId)
    case UndoCall => UndoApp(st)
    case RedoCall => RedoApp(st)
  }

  /** The state after the calls, and the outcome of each call in order. */
  function Run(st: AppState, calls: seq<Call>): (r: (AppState, seq<Outcome>))
    requires ActionsAvoidCeo(st)
    ensures |r.1| == |calls|
    decreases |calls|
  {
    if calls == [] then (st, [])
    else
      var first := Step(st, calls[0]);
      var rest := Run(first.0, calls[1..]);
      (rest.0, [first.1] + rest.1)
  }

  /** Two states that differ at most in the order of siblings. */
  ghost predicate SameState(a: AppState, b: AppState) {
    SameOrg(a.ceo, b.ceo) && a.history == b.history && a.cursor == b.cursor
  }

  lemma StepPreservesValid(st: AppState, call: Call)
    requires ValidState(st)
    ensures ValidState(Step(st, call).0)
  {
    match call
    case MoveCall(eId, sId) => MovePreservesValid(st, eId, sId);
    case UndoCall => UndoPreservesValid(st);
    case RedoCall => RedoPreservesValid(st);
  }

  lemma {:induction false} RunPreservesValid(st: AppState, calls: seq<Call>)
    requires ValidState(st)
    ensures ValidState(Run(st, calls).0)
    decreases |calls|
  {
    if calls != [] {
      StepPreservesValid(st, calls[0]);
      RunPreservesValid(Step(st, calls[0]).0, calls[1..]);
    }
  }

  /** `move` on two states that differ only in sibling order: the same outcome, the same history
      and cursor, and again the same organisation. */
  lemma MoveRespectsSameState(a: AppState, b: AppState, eId: int, sId: int)
    requires ValidState(a) && ValidState(b) && SameState(a, b)
    ensures MoveApp(a, eId, sId).1 == MoveApp(b, eId, sId).1
    ensures SameState(MoveApp(a, eId, sId).0, MoveApp(b, eId, sId).0)
  {
    if eId != a.ceo.uniqueId {
      if eId !in Ids(a.ceo) {
        MoveUnknown(a, eId, sId);
        MoveUnknown(b, eId, sId);
      } else {
        var p := SupervisorOf(a.ceo, eId);
        assert IsKid(b.ceo, p, eId);
        MoveRecorded(a, eId, sId, p);
        MoveRecorded(b, eId, sId, p);
        MoveRespectsSameOrg(a.ceo, b.ceo, eId, sId);
      }
    }
  }

  lemma RedoRespectsSameState(a: AppState, b: AppState)
    requires ValidState(a) && ValidState(b) && SameState(a, b)
    ensures RedoApp(a).1 == RedoApp(b).1 && SameState(RedoApp(a).0, RedoApp(b).0)
  {
    if a.cursor < |a.history| - 1 {
      var action := a.history[a.cursor + 1].value;
      MoveRespectsSameOrg(a.ceo, b.ceo, action.employeeId, action.supervisorId);
    }
  }

  lemma StepRespectsSameState(a: AppState, b: AppState, call: Call)
    requires ValidState(a) && ValidState(b) && SameState(a, b)
    ensures Step(a, call).1 == Step(b, call).1 && SameState(Step(a, call).0, Step(b, call).0)
  {
    match call
    case MoveCall(eId, sId) => MoveRespectsSameState(a, b, eId, sId);
    case UndoCall => UndoRespectsSameOrg(a, b);
    case RedoCall => RedoRespectsSameState(a, b);
  }

  /** Any sequence of calls gives the same outcomes on two states that differ only in sibling
      order, and leaves them again differing only in sibling order. */
  lemma {:induction false} RunRespectsSameState(a: AppState, b: AppState, calls: seq<Call>)
    requires ValidState(a) && ValidState(b) && SameState(a, b)
    ensures Run(a, calls).1 == Run(b, calls).1 && SameState(Run(a, calls).0, Run(b, calls).0)
    decreases |calls|
  {
    if calls != [] {
      var sa, sb := Step(a, calls[0]), Step(b, calls[0]);
      StepRespectsSameState(a, b, calls[0]);
      StepPreservesValid(a, calls[0]);
      StepPreservesValid(b, calls[0]);
      RunRespectsSameState(sa.0, sb.0, calls[1..]);
    }
  }
}
