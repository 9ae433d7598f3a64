# EmployeeOrgApp in Dafny

This project models `EmployeeOrgApp` from `src/index.ts`. The class holds an organisation
chart: a tree of employees rooted at the CEO, where each employee has an integer `uniqueId` and
an ordered list of direct subordinates. It offers four operations:

- `findId` and `findIdOrThrow` look up an employee together with its supervisor.
- `move(eId, sId)` makes one employee a direct subordinate of another.
- `undo` and `redo` walk back and forth through a linear history of the moves.

The model has three parts, one module each (plus a module of general tree facts):

- `Employees` (`employees.dfy`) defines the tree and the lookup. The lookup is proved to be the
  first match of a pre-order walk, which pairs every node with its parent.
- `Relocation` (`relocation.dfy`) models the `_move` closure inside `move`, called
  `MoveStep`. It filters the employee out of its current supervisor's list and then appends it
  to the target's list. Its effect on every node's list of subordinates is proved, along with
  what happens when the two are composed. `TreeFacts` (`tree_facts.dfy`) holds the general
  facts about trees with distinct ids that these proofs rest on.
- `App` (`app.dfy`) models the object itself. `MoveApp`, `UndoApp` and `RedoApp` describe the
  calls as functions on the record `AppState(ceo, history, cursor)`. The class
  `EmployeeOrgApp` has the source's three fields. Its methods `Move`, `Undo` and `Redo` change
  those fields, and each is proved to agree with the matching function.

The model follows the code wherever the accompanying tests expect something else.

- A moved employee keeps its own subordinates. The code copies nothing over to the old
  supervisor. The tests at `test/index.test.ts:57-58` expect those subordinates to be promoted.
- Moving an employee under itself or under one of its own descendants throws nothing. Line 73
  of the code cuts the employee's subtree out of the tree, and line 76 then attaches it to a
  node of that detached subtree. The organisation reached from the CEO therefore loses the whole
  subtree (`Relocation.MoveIntoOwnSubtree`). The tests at `test/index.test.ts:425-439` expect
  an error.
- `undo` does not put the employee back at its old place in the list. It moves the employee
  back to the supervisor it had before the move, and `push` puts it last
  (`Relocation.MoveThenUndo`). The organisation is the same; the sibling order may differ.
- A `move` whose target id is unknown throws only after the move has been recorded in the
  history. Undoing that entry does not throw: it moves the employee to its own supervisor,
  which puts it last among its siblings (`App.UndoAfterMissingTarget`).

Two trees are "the same organisation" (`Relocation.SameOrg`) when they have the same root, the
same set of ids, and the same supervisor for every id. Two states of the object differ only in
sibling order (`App.SameState`) when their trees are the same organisation and their histories
and cursors are equal. `App.Run` applies a sequence of calls (`App.Call`) to a state.

## Model

| member | source | states |
|---|---|---|
| Employees.FindId | src/index.ts:15-40 | A query for the CEO's id answers (CEO, CEO) whatever node the search is at; any answer has the id asked for |
| Employees.FindAmong | src/index.ts:33-38 | The `some` over the subordinates: any answer has the id asked for. That it is the first match, in the order of the list, is `Employees.FindIdIsFirstInPreorder` |
| Employees.FindIdOrThrow | src/index.ts:42-48 | Throws not-found for that id exactly when `findId` answers null, and otherwise returns `findId`'s answer |
| Employees.FindIdIsFirstInPreorder | src/index.ts:27-39 | For any id other than the CEO's, `findId` returns the first position of a left-to-right depth-first walk whose employee has that id, paired with the node it hangs under |
| Employees.PreorderPairsChildWithParent | src/index.ts:27-35 | Every position of that walk after the first pairs an employee with its actual supervisor |
| Employees.FindFromCeo | src/index.ts:15-40 | Searching from the CEO finds an id exactly when it occurs in the tree; the employee found is that id's subtree |
| Relocation.Without | src/index.ts:73-75 | The filtered list keeps only elements of the original, and none of them has the moved id. That every other sibling stays, in order, is `Relocation.WithoutKidIds` |
| Relocation.WithoutKidIds | src/index.ts:73-75 | The ids of the filtered list are the ids of the original list with the moved id filtered out, the others kept in their order |
| Relocation.WithoutWithin | src/index.ts:73-75 | The ids below the filtered list are a sub-multiset of those below the original list |
| Relocation.FilterOutAt | src/index.ts:73-75 | With distinct ids, filtering removes exactly the one occurrence and keeps the other siblings in their order |
| TreeFacts.Update | src/index.ts:73-76 | Assigning a new list of subordinates to the node with a given id keeps the root id. Its effect on the ids and on every other node is `TreeFacts.UpdateIds`, `TreeFacts.UpdateInside` and `TreeFacts.UpdateOutside` |
| TreeFacts.UpdateIds | src/index.ts:73-76 | With distinct ids, the ids of the updated tree are the old ones minus those of the old node plus those of the new node |
| TreeFacts.UpdateInside | src/index.ts:73-76 | When both trees have distinct ids, searching the updated tree below the replaced node is searching the new node |
| TreeFacts.UpdateOutside | src/index.ts:73-76 | When both trees have distinct ids, every node outside the old subtree of the replaced node keeps its child ids |
| Relocation.Detach | src/index.ts:73-75 | Filtering the employee out of its supervisor's list keeps the root id; what it does to the tree is `Relocation.DetachFacts` |
| Relocation.DetachFacts | src/index.ts:73-75 | With distinct ids, the filter removes exactly the employee's subtree, keeps ids distinct, and changes only the supervisor's child ids, to its old list with the employee filtered out |
| Relocation.Attach | src/index.ts:76 | Pushing the employee onto the target's list keeps the root id; what it does to the tree is `Relocation.AttachIds` |
| Relocation.AttachIds | src/index.ts:76 | Pushing a subtree whose ids are new adds exactly its ids and keeps them distinct |
| Relocation.MoveStep | src/index.ts:67-77 | The `_move` closure. Its own contract says only that a successful move keeps the CEO's id; `Relocation.MoveErrors`, `Relocation.MoveEffect` and `Relocation.MoveIntoOwnSubtree` fix its behaviour |
| Relocation.FindSupervisor | src/index.ts:65 | In a tree with distinct ids, looking up an employee succeeds; the supervisor reported is its unique parent, and the employee is its own subtree |
| Relocation.MoveErrors | src/index.ts:68-69 | `_move` throws exactly when one of the two ids is missing; a missing employee is reported before a missing target |
| Relocation.MoveEffect | src/index.ts:67-77 | Moving an employee to a node outside its own subtree succeeds and keeps ids distinct and the multiset of ids unchanged. The moved employee keeps its whole subtree. Every node's subordinate list loses the employee if it is the old supervisor and gains it at the end if it is the target; nothing else changes |
| Relocation.MoveIntoOwnSubtree | src/index.ts:73-76 | Moving an employee under itself or a descendant succeeds but removes the employee's whole subtree from the tree; all other subordinate lists change as in the normal case |
| Relocation.MoveToOwnSupervisor | src/index.ts:73-76 | Moving an employee to its current supervisor only puts it last among its siblings; the organisation is the same |
| Relocation.MoveThenUndo | src/index.ts:85-87 | After a normal move, moving the employee back to the cached supervisor succeeds and gives the same organisation; the old supervisor's list is its original with the employee moved to the end |
| Relocation.MoveUndoRedo | src/index.ts:79-87 | Replaying the move after that undo gives exactly the tree the move produced |
| Relocation.MovePreservesUnique | src/index.ts:67-77 | Every successful move keeps the ids of the tree distinct |
| Relocation.MoveRespectsSameOrg | src/index.ts:67-77 | On two trees that are the same organisation, the same move fails on both with the same error, or succeeds on both with results that are again the same organisation |
| App.MoveApp | src/index.ts:50-97 | `move` as a function on the state. Its own contract says that the CEO stays and no recorded move is one of the CEO; `App.MoveOutcomes`, `App.UndoRestores` and `App.RedoReplays` fix its behaviour |
| App.UndoApp | src/index.ts:99-105 | `undo` as a function on the state: the CEO and the history stay and no recorded move is one of the CEO; `App.UndoRestores`, `App.UndoAfterMissingTarget`, `App.UndoAfterMoveIntoOwnSubtree` and `App.HistoryEnds` fix its behaviour |
| App.RedoApp | src/index.ts:107-113 | `redo` as a function on the state, with the same contract as `undo`; `App.RedoReplays` and `App.HistoryEnds` fix its behaviour |
| App.EmployeeOrgApp.constructor | src/index.ts:4-10 | A new object holds the CEO, a history of one null entry and a cursor at 0, and satisfies the invariant |
| App.EmployeeOrgApp.Relocate | src/index.ts:67-77 | The `_move` closure as a method: it replaces the tree by the result of `MoveStep` when that succeeds, and throws its error otherwise |
| App.EmployeeOrgApp.Move | src/index.ts:50-97 | `move` keeps the invariant and leaves exactly the state and outcome given by `MoveApp` |
| App.EmployeeOrgApp.Undo | src/index.ts:99-105 | `undo` keeps the invariant and leaves exactly the state and outcome given by `UndoApp` |
| App.EmployeeOrgApp.Redo | src/index.ts:107-113 | `redo` keeps the invariant and leaves exactly the state and outcome given by `RedoApp` |
| App.InitialIsValid | src/index.ts:4-10 | The state of a new object over a tree with distinct ids satisfies the invariant |
| App.MovePreservesValid | src/index.ts:50-97 | `move` keeps the invariant: distinct ids, the null entry at index 0 followed by recorded moves, none of them of the CEO, and a cursor inside the history |
| App.UndoPreservesValid | src/index.ts:99-105 | `undo` keeps the invariant |
| App.RedoPreservesValid | src/index.ts:107-113 | `redo` keeps the invariant |
| App.MoveOutcomes | src/index.ts:50-97 | Moving the CEO throws and changes nothing. An unknown employee throws not-found after the undone part of the history has been cut off. Otherwise the move becomes the last history entry, with the cursor on it: it holds the employee, the target and the employee's current supervisor, and nothing is left to redo. An unknown target then throws and leaves the tree unchanged; a known target gives the tree `MoveStep` computes |
| App.UndoRestores | src/index.ts:99-105 | An undo right after a normal move succeeds. It gives back the same organisation and the earlier cursor, keeps the history, and leaves the employee last among its old supervisor's subordinates |
| App.RedoReplays | src/index.ts:107-113 | A redo right after that undo gives back exactly the state and outcome of the move |
| App.TwoMovesTwoUndos | test/index.test.ts:179-216 | Two normal moves followed by two undos all succeed and give back the organisation and cursor of the start |
| App.UndoAfterMoveIntoOwnSubtree | src/index.ts:85-87 | After a move into the employee's own subtree, none of that subtree's ids remain, and undo throws not-found for the employee without changing the state |
| App.UndoAfterMissingTarget | src/index.ts:93-96 | A move to an unknown target throws and leaves the tree as it was. Undoing it succeeds, restores the cursor and gives the same organisation |
| App.UndoThenRedo | src/index.ts:99-113 | When replaying the current entry gives back the tree its undo started from, `redo` right after a successful `undo` restores the whole state |
| App.UndoRespectsSameOrg | src/index.ts:99-105 | `undo` on two trees that are the same organisation, with the same cursor and the same entry under it, ends the same way and gives again the same organisation and the same cursor |
| App.MoveRespectsSameState | src/index.ts:50-97 | `move` on two states that differ only in sibling order ends the same way and leaves the same history and cursor and the same organisation |
| App.RedoRespectsSameState | src/index.ts:107-113 | The same for `redo` |
| App.Run | src/index.ts:50-113 | A sequence of calls on the object gives one outcome per call |
| App.StepPreservesValid | src/index.ts:50-113 | Every call keeps the invariant |
| App.RunPreservesValid | src/index.ts:50-113 | Every sequence of calls keeps the invariant |
| App.StepRespectsSameState | src/index.ts:50-113 | Every call treats two states that differ only in sibling order alike |
| App.RunRespectsSameState | src/index.ts:50-113 | Any sequence of calls on two states that differ only in sibling order gives the same outcomes, and the states again differ only in sibling order |
| App.HistoryEnds | src/index.ts:101 | `undo` with the cursor at the start and `redo` with the cursor at the end change nothing |

## Left out

- The tree is a value holding only the part reachable from the CEO. The source updates shared
  objects in place, and employee objects may be aliased from outside. Nodes are identified by
  id, and the lookup only ever reaches nodes under the CEO.
- The model assumes distinct ids: the constructor requires them and every operation keeps
  them. The source does not check for this.
- The history entries hold the ids captured by the `exec` and `undo` closures, not the closures
  themselves.
- Exceptions are values: the `Error` datatype gives their kind and the offending id. Their
  message text is not modelled.
- `Relocation.MoveStep`: requires that the employee is not the CEO. The source never builds the
  closure for the CEO (`src/index.ts:51-52`), and moving the CEO would make the JavaScript tree
  cyclic.
- `App.UndoApp` and `App.RedoApp` require that no history entry moves the CEO. This holds for
  every state the object can reach (`App.RunPreservesValid`).
- `findId` called with an explicit start node and parent is modelled in `Employees.FindId`. The
  class has no separate method for it, since the class's own calls always start at the CEO.
- `App.UndoRestores`, `App.TwoMovesTwoUndos`: undo is proved to give back the same organisation,
  not the same tree, because the employee is re-appended at the end of the list.
- Longer sequences of calls are covered by the congruence lemma `App.RunRespectsSameState`: two
  states that differ only in sibling order give the same outcomes under every later sequence of
  calls, so the reordering an undo leaves behind never changes what later calls report. No lemma
  states the final tree of a long sequence in closed form.
- The interface file `src/interfaces/employee.interface.ts` is not part of this model. Neither
  is the test module's sample organisation.
