/** The organisation tree and the lookup of `EmployeeOrgApp` (src/index.ts, `findId` and
    `findIdOrThrow`), together with a reference description of the depth-first search
    and the basic views of a tree (its ids, its subtrees, the child ids of a node). */
module Employees {

  datatype Option<T> = None | Some(value: T)

  /** An employee: an id and the ordered list of direct subordinates. */
  datatype Employee = Employee(uniqueId: int, subordinates: seq<Employee>)

  /** What `findId` returns: the employee found and its supervisor. */
  datatype Position = Position(employee: Employee, supervisor: Employee)

  /** The exceptions thrown by the source. */
  datatype Error = CeoImmutable | NotFound(id: int)

  datatype Result<T> = Ok(value: T) | Err(error: Error)

  // ---------------------------------------------------------------------------------------
  // findId and findIdOrThrow

  /** `findId(eId, node, parentNode)`: a query for the ceo's id answers (ceo, ceo) at every
      level; otherwise the current node is reported with the parent passed in, or the
      subordinates are searched left to right and the first answer is returned. */
  function FindId(ceo: Employee, eId: int, node: Employee, parentNode: Employee): (r: Option<Position>)
    ensures r.Some? ==> r.value.employee.uniqueId == eId
    ensures eId == ceo.uniqueId ==> r == Some(Position(ceo, ceo))
    decreases node
  {
    if eId == ceo.uniqueId then Some(Position(ceo, ceo))
    else if node.uniqueId == eId then Some(Position(node, parentNode))
    else FindAmong(ceo, eId, node.subordinates, node)
  }

  /** The `subordinates.some(...)` loop: the first subordinate whose search succeeds. */
  function FindAmong(ceo: Employee, eId: int, subs: seq<Employee>, parentNode: Employee): (r: Option<Position>)
    ensures r.Some? ==> r.value.employee.uniqueId == eId
    decreases subs
  {
    if subs == [] then None
    else
      match FindId(ceo, eId, subs[0], parentNode)
      case Some(position) => Some(position)
      case None => FindAmong(ceo, eId, subs[1..], parentNode)
  }

  /** `findIdOrThrow`: throws not-found exactly when `findId` answers null. */
  function FindIdOrThrow(ceo: Employee, eId: int, node: Employee, parentNode: Employee): (r: Result<Position>)
    ensures r.Err? <==> FindId(ceo, eId, node, parentNode).None?
    ensures r.Err? ==> r.error == NotFound(eId)
    ensures r.Ok? ==> r.value == FindId(ceo, eId, node, parentNode).value
  {
    match FindId(ceo, eId, node, parentNode)
    case None => Err(NotFound(eId))
    case Some(position) => Ok(position)
  }

  // ---------------------------------------------------------------------------------------
  // Reference description of the search: every node paired with its parent, in pre-order

  function Preorder(node: Employee, parentNode: Employee): seq<Position>
    decreases node
  {
    [Position(node, parentNode)] + PreorderAmong(node.subordinates, node)
  }

  function PreorderAmong(subs: seq<Employee>, parentNode: Employee): seq<Position>
    decreases subs
  {
    if subs == [] then [] else Preorder(subs[0], parentNode) + PreorderAmong(subs[1..], parentNode)
  }

  /** The first position whose employee has the given id. */
  function FirstWithId(ps: seq<Position>, eId: int): (r: Option<Position>)
    ensures r.None? <==> forall k :: 0 <= k < |ps| ==> ps[k].employee.uniqueId != eId
    ensures r.Some? ==> exists k :: 0 <= k < |ps| && r.value == ps[k] && ps[k].employee.uniqueId == eId &&
                                    forall j :: 0 <= j < k ==> ps[j].employee.uniqueId != eId
  {
    if ps == [] then None
    else if ps[0].employee.uniqueId == eId then Some(ps[0])
    else
      var r := FirstWithId(ps[1..], eId);
      if r.Some? then
        var k :| 0 <= k < |ps[1..]| && r.value == ps[1..][k] && ps[1..][k].employee.uniqueId == eId &&
                 forall j :: 0 <= j < k ==> ps[1..][j].employee.uniqueId != eId;
        assert forall j :: 0 <= j < k + 1 ==> ps[j].employee.uniqueId != eId by {
          forall j | 0 <= j < k + 1 ensures ps[j].employee.uniqueId != eId {
            if j > 0 { assert ps[j] == ps[1..][j - 1]; }
          }
        }
        assert ps[k + 1] == ps[1..][k];
        r
      else
        assert forall k :: 1 <= k < |ps| ==> ps[k] == ps[1..][k - 1];
        r
  }

  lemma {:induction false} FirstWithIdConcat(a: seq<Position>, b: seq<Position>, eId: int)
    ensures FirstWithId(a + b, eId) == if FirstWithId(a, eId).Some? then FirstWithId(a, eId) else FirstWithId(b, eId)
  {
    if a != [] {
      assert (a + b)[0] == a[0];
      assert (a + b)[1..] == a[1..] + b;
      FirstWithIdConcat(a[1..], b, eId);
    } else {
      assert a + b == b;
    }
  }

  /** Away from the ceo's id, `findId` answers the first node with that id in left-to-right
      depth-first order, paired with the node it hangs under. */
  lemma {:induction false} FindIdIsFirstInPreorder(ceo: Employee, eId: int, node: Employee, parentNode: Employee)
    requires eId != ceo.uniqueId
    ensures FindId(ceo, eId, node, parentNode) == FirstWithId(Preorder(node, parentNode), eId)
    decreases node
  {
    var ps := Preorder(node, parentNode);
    assert ps[0] == Position(node, parentNode);
    assert ps[1..] == PreorderAmong(node.subordinates, node);
    if node.uniqueId != eId {
      FindAmongIsFirstInPreorder(ceo, eId, node.subordinates, node);
    }
  }

  lemma {:induction false} FindAmongIsFirstInPreorder(ceo: Employee, eId: int, subs: seq<Employee>, parentNode: Employee)
    requires eId != ceo.uniqueId
    ensures FindAmong(ceo, eId, subs, parentNode) == FirstWithId(PreorderAmong(subs, parentNode), eId)
    decreases subs
  {
    if subs != [] {
      FindIdIsFirstInPreorder(ceo, eId, subs[0], parentNode);
      FindAmongIsFirstInPreorder(ceo, eId, subs[1..], parentNode);
      FirstWithIdConcat(Preorder(subs[0], parentNode), PreorderAmong(subs[1..], parentNode), eId);
    }
  }

  /** Every position of the pre-order after the first pairs a node with its actual supervisor. */
  lemma {:induction false} PreorderPairsChildWithParent(node: Employee, parentNode: Employee)
    ensures Preorder(node, parentNode)[0] == Position(node, parentNode)
    ensures forall k :: 0 < k < |Preorder(node, parentNode)| ==>
              Preorder(node, parentNode)[k].employee in Preorder(node, parentNode)[k].supervisor.subordinates
    decreases node
  {
    var ps := Preorder(node, parentNode);
    PreorderAmongPairs(node.subordinates, node);
    forall k | 0 < k < |ps| ensures ps[k].employee in ps[k].supervisor.subordinates {
      assert ps[k] == PreorderAmong(node.subordinates, node)[k - 1];
    }
  }

  lemma {:induction false} PreorderAmongPairs(subs: seq<Employee>, parentNode: Employee)
    ensures forall k :: 0 <= k < |PreorderAmong(subs, parentNode)| ==>
              var q := PreorderAmong(subs, parentNode)[k];
              q.employee in q.supervisor.subordinates || (q.supervisor == parentNode && q.employee in subs)
    decreases subs
  {
    if subs != [] {
      var a: seq<Position> := Preorder(subs[0], parentNode);
      var b: seq<Position> := PreorderAmong(subs[1..], parentNode);
      var ab: seq<Position> := a + b;
      PreorderPairsChildWithParent(subs[0], parentNode);
      PreorderAmongPairs(subs[1..], parentNode);
      forall k | 0 <= k < |ab|
        ensures ab[k].employee in ab[k].supervisor.subordinates ||
                (ab[k].supervisor == parentNode && ab[k].employee in subs)
      {
        if k < |a| {
          assert ab[k] == a[k];
        } else {
          assert ab[k] == b[k - |a|];
          assert forall e :: e in subs[1..] ==> e in subs;
        }
      }
    }
  }

  // ---------------------------------------------------------------------------------------
  // Views of a tree

  /** The ids of a tree in pre-order. */
  function Ids(t: Employee): seq<int>
    decreases t
  {
    [t.uniqueId] + IdsAmong(t.subordinates)
  }

  function IdsAmong(subs: seq<Employee>): seq<int>
    decreases subs
  {
    if subs == [] then [] else Ids(subs[0]) + IdsAmong(subs[1..])
  }

  /** The ids of a list of subordinates. */
  function KidIds(subs: seq<Employee>): (r: seq<int>)
    ensures |r| == |subs| && forall i :: 0 <= i < |subs| ==> r[i] == subs[i].uniqueId
  {
    seq(|subs|, i requires 0 <= i < |subs| => subs[i].uniqueId)
  }

  /** No value occurs twice. */
  ghost predicate NoDup(s: seq<int>) {
    forall x :: multiset(s)[x] <= 1
  }

  /** No id occurs twice in the tree. */
  ghost predicate UniqueIds(t: Employee) {
    NoDup(Ids(t))
  }

  ghost predicate UniqueAmong(subs: seq<Employee>) {
    NoDup(IdsAmong(subs))
  }

  /** The subtree rooted at the first node (in pre-order) with id x. */
  function Subtree(t: Employee, x: int): (r: Option<Employee>)
    ensures r.Some? <==> x in Ids(t)
    ensures r.Some? ==> r.value.uniqueId == x
    decreases t
  {
    if t.uniqueId == x then Some(t) else SubtreeAmong(t.subordinates, x)
  }

  function SubtreeAmong(subs: seq<Employee>, x: int): (r: Option<Employee>)
    ensures r.Some? <==> x in IdsAmong(subs)
    ensures r.Some? ==> r.value.uniqueId == x
    decreases subs
  {
    if subs == [] then None
    else
      match Subtree(subs[0], x)
      case Some(n) => Some(n)
      case None => SubtreeAmong(subs[1..], x)
  }

  function KidsOf(o: Option<Employee>): Option<seq<int>> {
    match o
    case None => None
    case Some(n) => Some(KidIds(n.subordinates))
  }

  /** The ids of the direct subordinates of employee x, if x is in the tree. */
  function Kids(t: Employee, x: int): Option<seq<int>> {
    KidsOf(Subtree(t, x))
  }

  /** e is a direct subordinate of p. */
  predicate IsKid(t: Employee, p: int, e: int) {
    Kids(t, p).Some? && e in Kids(t, p).value
  }

  /** The ids of the subtree of x (empty when x is absent). */
  function SubIds(t: Employee, x: int): seq<int> {
    match Subtree(t, x)
    case None => []
    case Some(n) => Ids(n)
  }

  /** The ids of a subtree are among the ids of the tree. */
  lemma {:induction false} SubtreeWithin(t: Employee, x: int)
    requires x in Ids(t)
    ensures multiset(Ids(Subtree(t, x).value)) <= multiset(Ids(t))
    decreases t
  {
    if t.uniqueId != x {
      SubtreeAmongWithin(t.subordinates, x);
      assert multiset(Ids(t)) == multiset([t.uniqueId]) + multiset(IdsAmong(t.subordinates));
    }
  }

  lemma {:induction false} SubtreeAmongWithin(subs: seq<Employee>, x: int)
    requires x in IdsAmong(subs)
    ensures multiset(Ids(SubtreeAmong(subs, x).value)) <= multiset(IdsAmong(subs))
    decreases subs
  {
    assert multiset(IdsAmong(subs)) == multiset(Ids(subs[0])) + multiset(IdsAmong(subs[1..]));
    if x in Ids(subs[0]) {
      SubtreeWithin(subs[0], x);
    } else {
      SubtreeAmongWithin(subs[1..], x);
    }
  }

  // ---------------------------------------------------------------------------------------
  // findId in terms of the views

  /** With the ceo passed in as the search root, the employee `findId` reports is the subtree
      of the first node with that id, and null exactly when the id is absent. */
  lemma {:induction false} FindIdIsSubtree(ceo: Employee, eId: int, node: Employee, parentNode: Employee)
    requires eId != ceo.uniqueId
    ensures FindId(ceo, eId, node, parentNode).None? <==> Subtree(node, eId).None?
    ensures FindId(ceo, eId, node, parentNode).Some? ==>
              FindId(ceo, eId, node, parentNode).value.employee == Subtree(node, eId).value
    decreases node
  {
    if node.uniqueId != eId {
      FindAmongIsSubtree(ceo, eId, node.subordinates, node);
    }
  }

  lemma {:induction false} FindAmongIsSubtree(ceo: Employee, eId: int, subs: seq<Employee>, parentNode: Employee)
    requires eId != ceo.uniqueId
    ensures FindAmong(ceo, eId, subs, parentNode).None? <==> SubtreeAmong(subs, eId).None?
    ensures FindAmong(ceo, eId, subs, parentNode).Some? ==>
              FindAmong(ceo, eId, subs, parentNode).value.employee == SubtreeAmong(subs, eId).value
    decreases subs
  {
    if subs != [] {
      FindIdIsSubtree(ceo, eId, subs[0], parentNode);
      FindAmongIsSubtree(ceo, eId, subs[1..], parentNode);
    }
  }

  /** `findId(eId)` from the ceo: null exactly when eId is not in the tree, and otherwise the
      node with that id (the ceo itself for the ceo's id). */
  lemma FindFromCeo(ceo: Employee, eId: int)
    ensures FindId(ceo, eId, ceo, ceo).None? <==> eId !in Ids(ceo)
    ensures FindId(ceo, eId, ceo, ceo).Some? ==> Some(FindId(ceo, eId, ceo, ceo).value.employee) == Subtree(ceo, eId)
  {
    if eId != ceo.uniqueId {
      FindIdIsSubtree(ceo, eId, ceo, ceo);
    }
  }
}
