/** `_move` of `EmployeeOrgApp.move` (src/index.ts): the employee is filtered out of its current
    supervisor's subordinates and appended to the subordinates of the target supervisor. */
module Relocation {
  import opened Employees
  import opened TreeFacts

  // ---------------------------------------------------------------------------------------
  // The filter and the push

  /** `subordinates.filter(e => !(e.uniqueId === eId))`. */
  function Without(subs: seq<Employee>, eId: int): (r: seq<Employee>)
    ensures forall c :: c in r ==> c in subs && c.uniqueId != eId
    decreases subs
  {
    if subs == [] then []
    else if subs[0].uniqueId == eId then Without(subs[1..], eId)
    else [subs[0]] + Without(subs[1..], eId)
  }

  /** The ids left by the filter are among those of the original list. */
  lemma {:induction false} WithoutWithin(subs: seq<Employee>, eId: int)
    ensures multiset(IdsAmong(Without(subs, eId))) <= multiset(IdsAmong(subs))
    decreases subs
  {
    if subs != [] {
      var rest := subs[1..];
      WithoutWithin(rest, eId);
      if subs[0].uniqueId != eId {
        IdsAmongCons(subs[0], Without(rest, eId));
      }
    }
  }

  /** The same filter on a list of ids. */
  function FilterOut(ids: seq<int>, x: int): (r: seq<int>)
    ensures x !in r
    ensures forall y :: y in r <==> y in ids && y != x
    decreases ids
  {
    if ids == [] then []
    else if ids[0] == x then FilterOut(ids[1..], x)
    else [ids[0]] + FilterOut(ids[1..], x)
  }

  function Dropping(eId: int): seq<Employee> -> seq<Employee> {
    subs => Without(subs, eId)
  }

  function Appending(employee: Employee): seq<Employee> -> seq<Employee> {
    subs => subs + [employee]
  }

  /** The current supervisor p loses the subordinate eId. */
  function Detach(t: Employee, p: int, eId: int): (r: Employee)
    ensures r.uniqueId == t.uniqueId
  {
    Update(t, p, Dropping(eId))
  }

  /** The target supervisor s gains `employee` as its last subordinate. */
  function Attach(t: Employee, s: int, employee: Employee): (r: Employee)
    ensures r.uniqueId == t.uniqueId
  {
    Update(t, s, Appending(employee))
  }

  lemma KidIdsConcat(a: seq<Employee>, b: seq<Employee>)
    ensures KidIds(a + b) == KidIds(a) + KidIds(b)
  {
  }

  lemma {:induction false} WithoutKidIds(subs: seq<Employee>, eId: int)
    ensures KidIds(Without(subs, eId)) == FilterOut(KidIds(subs), eId)
    decreases subs
  {
    if subs != [] {
      var c, rest := subs[0], subs[1..];
      WithoutKidIds(rest, eId);
      KidIdsConcat([c], rest);
      assert subs == [c] + rest;
      assert KidIds([c]) == [c.uniqueId];
      if c.uniqueId != eId {
        KidIdsConcat([c], Without(rest, eId));
      }
    }
  }

  lemma {:induction false} WithoutAbsent(subs: seq<Employee>, eId: int)
    requires forall j :: 0 <= j < |subs| ==> subs[j].uniqueId != eId
    ensures Without(subs, eId) == subs
    decreases subs
  {
    if subs != [] {
      assert forall j :: 0 <= j < |subs| - 1 ==> subs[1..][j] == subs[j + 1];
      WithoutAbsent(subs[1..], eId);
    }
  }

  /** Filtering out the unique subordinate eId, at position i, removes exactly the ids of its
      subtree. */
  lemma {:induction false} WithoutIds(subs: seq<Employee>, eId: int, i: nat)
    requires UniqueAmong(subs) && i < |subs| && subs[i].uniqueId == eId
    ensures multiset(IdsAmong(Without(subs, eId))) == multiset(IdsAmong(subs)) - multiset(Ids(subs[i]))
    decreases subs
  {
    UniqueFirst(subs);
    if i == 0 {
      WithoutFirst(subs, eId);
    } else {
      assert subs[1..][i - 1] == subs[i];
      WithoutIds(subs[1..], eId, i - 1);
      WithoutIdsLater(subs, eId, i);
    }
  }

  /** The step of WithoutIds past a first subordinate that stays. */
  lemma WithoutIdsLater(subs: seq<Employee>, eId: int, i: nat)
    requires UniqueAmong(subs) && 0 < i < |subs| && subs[i].uniqueId == eId
    requires multiset(IdsAmong(Without(subs[1..], eId))) == multiset(IdsAmong(subs[1..])) - multiset(Ids(subs[i]))
    ensures multiset(IdsAmong(Without(subs, eId))) == multiset(IdsAmong(subs)) - multiset(Ids(subs[i]))
  {
    var c, rest := subs[0], subs[1..];
    assert rest[i - 1] == subs[i];
    IdsAmongContains(rest, i - 1);
    LaterNotFirst(subs, i);
    IdsAmongCons(c, Without(rest, eId));
    AddThenSubtract(multiset(IdsAmong(rest)), multiset(Ids(subs[i])), multiset(Ids(c)));
  }

  /** With distinct ids, a later subordinate does not have the first one's id. */
  lemma LaterNotFirst(subs: seq<Employee>, i: nat)
    requires UniqueAmong(subs) && 0 < i < |subs|
    ensures subs[0].uniqueId != subs[i].uniqueId
  {
    UniqueFirst(subs);
    assert subs[1..][i - 1] == subs[i];
    OtherRoot(subs[1..], i - 1, subs[0].uniqueId);
  }

  lemma AddThenSubtract(a: multiset<int>, b: multiset<int>, d: multiset<int>)
    requires b <= a
    ensures d + (a - b) == (d + a) - b
  {
  }

  lemma IdsAmongCons(c: Employee, w: seq<Employee>)
    ensures IdsAmong([c] + w) == Ids(c) + IdsAmong(w)
  {
    assert ([c] + w)[0] == c;
    assert ([c] + w)[1..] == w;
  }

  /** With distinct ids, the first subordinate's id occurs in none of the others. */
  lemma WithoutFirst(subs: seq<Employee>, eId: int)
    requires UniqueAmong(subs) && subs != [] && subs[0].uniqueId == eId
    ensures Without(subs, eId) == subs[1..]
  {
    var rest := subs[1..];
    UniqueFirst(subs);
    forall j | 0 <= j < |rest| ensures rest[j].uniqueId != eId {
      OtherRoot(rest, j, eId);
    }
    WithoutAbsent(rest, eId);
  }

  lemma OtherRoot(rest: seq<Employee>, j: nat, eId: int)
    requires j < |rest| && eId !in IdsAmong(rest)
    ensures rest[j].uniqueId != eId
  {
    IdsAmongContains(rest, j);
    assert rest[j].uniqueId in Ids(rest[j]);
    assert rest[j].uniqueId in multiset(Ids(rest[j]));
  }

  /** Below the remaining subordinates nothing changes. */
  lemma {:induction false} WithoutSubtrees(subs: seq<Employee>, eId: int, x: int)
    requires UniqueAmong(subs) && x in IdsAmong(Without(subs, eId))
    ensures SubtreeAmong(Without(subs, eId), x) == SubtreeAmong(subs, x)
    decreases subs
  {
    var c, rest := subs[0], subs[1..];
    UniqueFirst(subs);
    var w := Without(rest, eId);
    WithoutWithin(rest, eId);
    if c.uniqueId == eId {
      assert x in multiset(IdsAmong(rest));
      assert x !in Ids(c);
      WithoutSubtrees(rest, eId, x);
    } else {
      assert ([c] + w)[0] == c;
      assert ([c] + w)[1..] == w;
      if x !in Ids(c) {
        WithoutSubtrees(rest, eId, x);
      }
    }
  }

  lemma SubtreeAmongSingle(e: Employee, x: int)
    requires x in Ids(e)
    ensures SubtreeAmong([e], x) == Subtree(e, x)
  {
    assert [e][0] == e;
  }

  /** FilterOut keeps the order of the other ids: with x occurring once at position i, the
      result is the list with that position cut out. */
  lemma {:induction false} FilterOutAt(ids: seq<int>, x: int, i: nat)
    requires NoDup(ids) && i < |ids| && ids[i] == x
    ensures FilterOut(ids, x) == ids[..i] + ids[i + 1..]
    decreases ids
  {
    assert ids == [ids[0]] + ids[1..];
    NoDupSplit([ids[0]], ids[1..]);
    if i == 0 {
      FilterOutAbsent(ids[1..], x);
    } else {
      assert ids[1..][i - 1] == x;
      assert x in ids[1..];
      assert ids[0] != x;
      FilterOutAt(ids[1..], x, i - 1);
      assert ids[1..][..i - 1] == ids[1..i];
      assert ids[1..][i..] == ids[i + 1..];
      assert ids[..i] == [ids[0]] + ids[1..i];
    }
  }

  lemma {:induction false} FilterOutAbsent(ids: seq<int>, x: int)
    requires x !in ids
    ensures FilterOut(ids, x) == ids
    decreases ids
  {
    if ids != [] {
      FilterOutAbsent(ids[1..], x);
    }
  }

  lemma {:induction false} FilterOutAppend(ids: seq<int>, x: int, y: int)
    ensures FilterOut(ids + [y], x) == FilterOut(ids, x) + FilterOut([y], x)
    decreases ids
  {
    if ids == [] {
      assert ids + [y] == [y];
    } else {
      assert (ids + [y])[0] == ids[0];
      assert (ids + [y])[1..] == ids[1..] + [y];
      FilterOutAppend(ids[1..], x, y);
    }
  }

  // ---------------------------------------------------------------------------------------
  // The supervisor that findId reports

  /** Among the subordinates, the search ends in the one child whose subtree holds eId. */
  lemma {:induction false} FindAmongAt(ceo: Employee, eId: int, subs: seq<Employee>, parentNode: Employee, i: nat)
    requires eId != ceo.uniqueId && i < |subs| && eId in Ids(subs[i])
    requires forall j :: 0 <= j < i ==> eId !in Ids(subs[j])
    ensures FindAmong(ceo, eId, subs, parentNode) == FindId(ceo, eId, subs[i], parentNode)
    decreases subs
  {
    FindIdIsSubtree(ceo, eId, subs[0], parentNode);
    if i > 0 {
      assert subs[1..][i - 1] == subs[i];
      FindAmongAt(ceo, eId, subs[1..], parentNode, i - 1);
    }
  }

  /** For an id strictly below `node`, findId reports a supervisor that has eId as a direct
      subordinate. */
  lemma {:induction false} FindIdParent(ceo: Employee, eId: int, node: Employee, parentNode: Employee)
    requires UniqueIds(node) && eId != ceo.uniqueId && eId != node.uniqueId && eId in Ids(node)
    ensures FindId(ceo, eId, node, parentNode).Some?
    ensures IsKid(node, FindId(ceo, eId, node, parentNode).value.supervisor.uniqueId, eId)
    decreases node
  {
    UniqueRoot(node);
    var i := FindChild(node.subordinates, eId);
    forall j | 0 <= j < i ensures eId !in Ids(node.subordinates[j]) {
      ChildrenDisjoint(node.subordinates, i, j, eId);
    }
    var c := node.subordinates[i];
    FindAmongAt(ceo, eId, node.subordinates, node, i);
    if c.uniqueId == eId {
      assert eId in KidIds(node.subordinates);
    } else {
      UniqueChildAt(node.subordinates, i);
      FindIdParent(ceo, eId, c, node);
      var sup := FindId(ceo, eId, c, node).value.supervisor.uniqueId;
      SubtreeAtChild(node, i, sup);
    }
  }

  /** Every employee other than the ceo has a supervisor. */
  lemma SupervisorOf(t: Employee, eId: int) returns (p: int)
    requires UniqueIds(t) && eId in Ids(t) && eId != t.uniqueId
    ensures IsKid(t, p, eId)
  {
    FindIdParent(t, eId, t, t);
    p := FindId(t, eId, t, t).value.supervisor.uniqueId;
  }

  /** `findIdOrThrow(eId)` reports the employee's supervisor and the employee's own subtree. */
  lemma FindSupervisor(t: Employee, eId: int, p: int)
    requires UniqueIds(t) && eId != t.uniqueId && IsKid(t, p, eId)
    ensures FindIdOrThrow(t, eId, t, t).Ok?
    ensures FindIdOrThrow(t, eId, t, t).value.supervisor.uniqueId == p
    ensures Some(FindIdOrThrow(t, eId, t, t).value.employee) == Subtree(t, eId)
  {
    var n := Subtree(t, p).value;
    var j := KidIndex(n.subordinates, eId);
    ChildNode(t, p, j);
    FindFromCeo(t, eId);
    FindIdParent(t, eId, t, t);
    SupervisorUnique(t, eId, FindId(t, eId, t, t).value.supervisor.uniqueId, p);
  }

  // ---------------------------------------------------------------------------------------
  // The child ids of every node after an update

  /** Below node k, searching the whole tree is searching the subordinates of k. */
  lemma KidsBelow(t: Employee, k: int, x: int)
    requires UniqueIds(t) && k in Ids(t) && x in IdsAmong(Subtree(t, k).value.subordinates)
    ensures Kids(t, x) == KidsOf(SubtreeAmong(Subtree(t, k).value.subordinates, x))
  {
    var n := Subtree(t, k).value;
    UniqueSubtree(t, k);
    UniqueRoot(n);
    SubtreeOfSubtree(t, k, x);
  }

  /** After replacing the subordinates L of node k by f(L): node k has the ids of f(L) as
      children, the nodes under f(L) are as in f(L), and every other node is unchanged. */
  lemma UpdateKids(t: Employee, k: int, f: seq<Employee> -> seq<Employee>, x: int)
    requires UniqueIds(t) && k in Ids(t) && UniqueIds(Update(t, k, f)) && x in Ids(Update(t, k, f))
    ensures var l := f(Subtree(t, k).value.subordinates);
            Kids(Update(t, k, f), x) ==
              if x == k then Some(KidIds(l))
              else if x in IdsAmong(l) then KidsOf(SubtreeAmong(l, x))
              else Kids(t, x)
  {
    var n := Subtree(t, k).value;
    var nn := Updated(n, f);
    UpdateIds(t, k, f);
    if x in Ids(nn) {
      UpdateInside(t, k, f, x);
    } else {
      assert multiset(Ids(Update(t, k, f)))[x] == multiset(Ids(t))[x] - multiset(Ids(n))[x] + 0;
      assert x in Ids(t) && x !in Ids(n);
      UpdateOutside(t, k, f, x);
    }
  }

  // ---------------------------------------------------------------------------------------
  // The two halves of `_move`

  lemma SubtractNested(a: multiset<int>, b: multiset<int>, c: multiset<int>)
    requires c <= b <= a
    ensures a - b + (b - c) == a - c
  {
  }

  lemma AddBack(a: multiset<int>, b: multiset<int>, c: multiset<int>)
    requires b <= a
    ensures a - b + (b + c) == a + c
  {
  }

  /** Filtering eId out of its supervisor p removes the subtree of eId and nothing else. */
  lemma DetachIds(t: Employee, p: int, eId: int)
    requires UniqueIds(t) && IsKid(t, p, eId)
    ensures eId in Ids(t)
    ensures multiset(Ids(Detach(t, p, eId))) == multiset(Ids(t)) - multiset(SubIds(t, eId))
    ensures UniqueIds(Detach(t, p, eId))
  {
    var n := Subtree(t, p).value;
    var j := KidIndex(n.subordinates, eId);
    ChildNode(t, p, j);
    UniqueSubtree(t, p);
    SubtreeWithin(t, p);
    DetachedNodeIds(n, eId, j);
    UpdateIds(t, p, Dropping(eId));
    SubtractNested(multiset(Ids(t)), multiset(Ids(n)), multiset(Ids(n.subordinates[j])));
    NoDupSub(Ids(Detach(t, p, eId)), Ids(t));
  }

  /** The node that loses its subordinate at position j loses exactly the ids of that subtree. */
  lemma DetachedNodeIds(n: Employee, eId: int, j: nat)
    requires UniqueIds(n) && j < |n.subordinates| && n.subordinates[j].uniqueId == eId
    ensures multiset(Ids(n.subordinates[j])) <= multiset(Ids(n))
    ensures multiset(Ids(Updated(n, Dropping(eId)))) == multiset(Ids(n)) - multiset(Ids(n.subordinates[j]))
  {
    UniqueRoot(n);
    IdsAmongContains(n.subordinates, j);
    WithoutIds(n.subordinates, eId, j);
    assert Updated(n, Dropping(eId)) == Employee(n.uniqueId, Without(n.subordinates, eId));
    AddThenSubtract(multiset(IdsAmong(n.subordinates)), multiset(Ids(n.subordinates[j])), multiset([n.uniqueId]));
  }

  lemma DetachKidsAt(t: Employee, p: int, eId: int, x: int)
    requires UniqueIds(t) && IsKid(t, p, eId) && x in Ids(Detach(t, p, eId))
    ensures Kids(Detach(t, p, eId), x) == if x == p then Some(FilterOut(Kids(t, x).value, eId)) else Kids(t, x)
  {
    DetachIds(t, p, eId);
    var n := Subtree(t, p).value;
    var w := Without(n.subordinates, eId);
    UniqueSubtree(t, p);
    UniqueRoot(n);
    UpdateKids(t, p, Dropping(eId), x);
    assert Dropping(eId)(n.subordinates) == w;
    if x == p {
      WithoutKidIds(n.subordinates, eId);
    } else if x in IdsAmong(w) {
      WithoutSubtrees(n.subordinates, eId, x);
      assert x in multiset(IdsAmong(n.subordinates));
      KidsBelow(t, p, x);
    }
  }

  lemma DetachFacts(t: Employee, p: int, eId: int)
    requires UniqueIds(t) && IsKid(t, p, eId)
    ensures eId in Ids(t)
    ensures multiset(Ids(Detach(t, p, eId))) == multiset(Ids(t)) - multiset(SubIds(t, eId))
    ensures UniqueIds(Detach(t, p, eId))
    ensures forall x :: x in Ids(Detach(t, p, eId)) ==>
              Kids(Detach(t, p, eId), x) == if x == p then Some(FilterOut(Kids(t, x).value, eId)) else Kids(t, x)
  {
    DetachIds(t, p, eId);
    forall x | x in Ids(Detach(t, p, eId))
      ensures Kids(Detach(t, p, eId), x) == if x == p then Some(FilterOut(Kids(t, x).value, eId)) else Kids(t, x)
    {
      DetachKidsAt(t, p, eId, x);
    }
  }

  /** Appending `employee`, whose ids are new to the tree, to s. */
  lemma AttachIds(t: Employee, s: int, employee: Employee)
    requires UniqueIds(t) && s in Ids(t) && NoDup(Ids(t) + Ids(employee))
    ensures multiset(Ids(Attach(t, s, employee))) == multiset(Ids(t)) + multiset(Ids(employee))
    ensures UniqueIds(Attach(t, s, employee))
  {
    var m := Subtree(t, s).value;
    var a, b, c := multiset(Ids(t)), multiset(Ids(m)), multiset(Ids(employee));
    assert multiset(Ids(Updated(m, Appending(employee)))) == b + c by {
      AppendedIds(m, employee);
    }
    assert multiset(Ids(Attach(t, s, employee))) == a - b + (b + c) by {
      UpdateIds(t, s, Appending(employee));
    }
    assert b <= a by {
      SubtreeWithin(t, s);
    }
    AddBack(a, b, c);
    assert multiset(Ids(Attach(t, s, employee))) == multiset(Ids(t) + Ids(employee));
    NoDupSub(Ids(Attach(t, s, employee)), Ids(t) + Ids(employee));
  }

  /** The node that receives `employee` gains exactly its ids. */
  lemma AppendedIds(m: Employee, employee: Employee)
    ensures multiset(Ids(Updated(m, Appending(employee)))) == multiset(Ids(m)) + multiset(Ids(employee))
  {
    IdsAmongConcat(m.subordinates, [employee]);
    assert IdsAmong([employee]) == Ids(employee);
    assert Updated(m, Appending(employee)) == Employee(m.uniqueId, m.subordinates + [employee]);
  }

  /** The subordinates of s after the push, and the ids below them. */
  lemma AttachedList(t: Employee, s: int, employee: Employee)
    requires s in Ids(t)
    ensures var l := Subtree(t, s).value.subordinates + [employee];
            Appending(employee)(Subtree(t, s).value.subordinates) == l &&
            IdsAmong(l) == IdsAmong(Subtree(t, s).value.subordinates) + Ids(employee) &&
            KidIds(l) == KidIds(Subtree(t, s).value.subordinates) + [employee.uniqueId]
  {
    var m := Subtree(t, s).value;
    IdsAmongConcat(m.subordinates, [employee]);
    assert IdsAmong([employee]) == Ids(employee);
    KidIdsConcat(m.subordinates, [employee]);
  }

  lemma AttachKidsOutside(t: Employee, s: int, employee: Employee, x: int)
    requires UniqueIds(t) && s in Ids(t) && NoDup(Ids(t) + Ids(employee)) && x in Ids(t)
    ensures Kids(Attach(t, s, employee), x) == Some(if x == s then Kids(t, x).value + [employee.uniqueId] else Kids(t, x).value)
  {
    var m := Subtree(t, s).value;
    var l := m.subordinates + [employee];
    assert x !in Ids(employee) by {
      NoDupSplit(Ids(t), Ids(employee));
    }
    assert x in Ids(Attach(t, s, employee)) by {
      AttachIds(t, s, employee);
      assert x in multiset(Ids(Attach(t, s, employee)));
    }
    AttachIds(t, s, employee);
    AttachedList(t, s, employee);
    var a := Attach(t, s, employee);
    UpdateKids(t, s, Appending(employee), x);
    assert Kids(t, x).Some?;
    if x == s {
      assert Kids(a, x) == Some(KidIds(l));
      assert Kids(t, x) == Some(KidIds(m.subordinates));
    } else if x in IdsAmong(l) {
      assert Kids(a, x) == KidsOf(SubtreeAmong(l, x));
      assert x in IdsAmong(m.subordinates);
      assert SubtreeAmong(l, x) == SubtreeAmong(m.subordinates, x) by {
        SubtreeAmongConcat(m.subordinates, [employee], x);
      }
      KidsBelow(t, s, x);
    } else {
      assert Kids(a, x) == Kids(t, x);
    }
  }

  lemma AttachKidsInside(t: Employee, s: int, employee: Employee, x: int)
    requires UniqueIds(t) && s in Ids(t) && NoDup(Ids(t) + Ids(employee)) && x in Ids(employee)
    ensures Kids(Attach(t, s, employee), x) == Kids(employee, x)
    ensures x == employee.uniqueId ==> Subtree(Attach(t, s, employee), x) == Some(employee)
  {
    var m := Subtree(t, s).value;
    var l := m.subordinates + [employee];
    assert x !in Ids(t) by {
      NoDupSplit(Ids(t), Ids(employee));
    }
    assert x !in IdsAmong(m.subordinates) by {
      SubtreeWithin(t, s);
      assert multiset(IdsAmong(m.subordinates)) <= multiset(Ids(m)) <= multiset(Ids(t));
      assert x !in multiset(Ids(t));
    }
    assert x in Ids(Updated(m, Appending(employee))) by {
      AttachedList(t, s, employee);
      assert Updated(m, Appending(employee)) == Employee(s, l);
    }
    AttachIds(t, s, employee);
    UpdateInside(t, s, Appending(employee), x);
    assert Updated(m, Appending(employee)) == Employee(s, l);
    assert x != s;
    SubtreeAmongConcat(m.subordinates, [employee], x);
    SubtreeAmongSingle(employee, x);
  }

  // ---------------------------------------------------------------------------------------
  // `_move`

  /** `_move(eId, sId)` on the tree reachable from the ceo. Both lookups come before any change,
      so a lookup that throws leaves the tree as it was. The closure is only ever built for an
      employee other than the ceo. */
  function MoveStep(ceo: Employee, eId: int, sId: int): (r: Result<Employee>)
    requires eId != ceo.uniqueId
    ensures r.Ok? ==> r.value.uniqueId == ceo.uniqueId
  {
    match FindIdOrThrow(ceo, eId, ceo, ceo)
    case Err(error) => Err(error)
    case Ok(employeePosition) =>
      match FindIdOrThrow(ceo, sId, ceo, ceo)
      case Err(error) => Err(error)
      case Ok(supervisorPosition) =>
        var employee := employeePosition.employee;
        var currentSupervisor := employeePosition.supervisor;
        var targetSupervisor := supervisorPosition.employee;
        Ok(Attach(Detach(ceo, currentSupervisor.uniqueId, eId), targetSupervisor.uniqueId, employee))
  }

  /** The child ids of node x once eId has moved from p to s. */
  function MovedKids(ks: seq<int>, x: int, p: int, s: int, eId: int): seq<int> {
    var kept := if x == p then FilterOut(ks, eId) else ks;
    if x == s then kept + [eId] else kept
  }

  /** `_move` throws exactly when one of the two ids is not in the tree, the employee's first. */
  lemma MoveErrors(t: Employee, eId: int, sId: int)
    requires eId != t.uniqueId
    ensures MoveStep(t, eId, sId).Err? <==> eId !in Ids(t) || sId !in Ids(t)
    ensures eId !in Ids(t) ==> MoveStep(t, eId, sId) == Err(NotFound(eId))
    ensures eId in Ids(t) && sId !in Ids(t) ==> MoveStep(t, eId, sId) == Err(NotFound(sId))
  {
    FindFromCeo(t, eId);
    FindFromCeo(t, sId);
  }

  /** When both ids are present, `_move` is the filter at the supervisor findId reports,
      followed by the push of the employee's subtree at the target. */
  lemma MoveStepParts(t: Employee, eId: int, sId: int, p: int)
    requires UniqueIds(t) && eId != t.uniqueId && IsKid(t, p, eId) && eId in Ids(t) && sId in Ids(t)
    ensures MoveStep(t, eId, sId) == Ok(Attach(Detach(t, p, eId), sId, Subtree(t, eId).value))
  {
    FindSupervisor(t, eId, p);
    FindFromCeo(t, sId);
  }

  /** The ids of the tree once the subtree of eId is detached. */
  lemma DetachedIds(t: Employee, p: int, eId: int, x: int)
    requires UniqueIds(t) && IsKid(t, p, eId)
    ensures x in Ids(Detach(t, p, eId)) <==> x in Ids(t) && x !in SubIds(t, eId)
  {
    DetachFacts(t, p, eId);
    UniqueSubtree(t, eId);
    var e := Subtree(t, eId).value;
    SubtreeWithin(t, eId);
    assert multiset(Ids(Detach(t, p, eId)))[x] == multiset(Ids(t))[x] - multiset(Ids(e))[x];
  }

  lemma MoveKidsAt(t: Employee, eId: int, sId: int, p: int, x: int)
    requires UniqueIds(t) && eId != t.uniqueId && IsKid(t, p, eId) && sId in Ids(t) && sId !in SubIds(t, eId)
    requires eId in Ids(t) && NoDup(Ids(Detach(t, p, eId)) + SubIds(t, eId)) && x in Ids(t)
    ensures Kids(Attach(Detach(t, p, eId), sId, Subtree(t, eId).value), x) == Some(MovedKids(Kids(t, x).value, x, p, sId, eId))
  {
    var e := Subtree(t, eId).value;
    var t1 := Detach(t, p, eId);
    DetachIds(t, p, eId);
    DetachedIds(t, p, eId, sId);
    if x in Ids(e) {
      AttachKidsInside(t1, sId, e, x);
      SubtreeOfSubtree(t, eId, x);
      SupervisorNotBelow(t, p, eId);
      assert x != p && x != sId;
    } else {
      DetachedIds(t, p, eId, x);
      AttachKidsOutside(t1, sId, e, x);
      DetachKidsAt(t, p, eId, x);
    }
  }

  /** A move to a supervisor outside the employee's own subtree: the employee leaves its
      supervisor p, becomes the last subordinate of s and keeps its whole subtree; every other
      node keeps its subordinates in order, and nobody joins or leaves the organisation. */
  lemma MoveEffect(t: Employee, eId: int, sId: int, p: int)
    requires UniqueIds(t) && eId != t.uniqueId && IsKid(t, p, eId) && sId in Ids(t) && sId !in SubIds(t, eId)
    ensures MoveStep(t, eId, sId).Ok?
    ensures var r := MoveStep(t, eId, sId).value;
            UniqueIds(r) && multiset(Ids(r)) == multiset(Ids(t)) && Subtree(r, eId) == Subtree(t, eId) &&
            forall x :: x in Ids(t) ==> Kids(r, x) == Some(MovedKids(Kids(t, x).value, x, p, sId, eId))
  {
    DetachIds(t, p, eId);
    MoveStepParts(t, eId, sId, p);
    var e := Subtree(t, eId).value;
    var t1 := Detach(t, p, eId);
    assert multiset(Ids(t1) + Ids(e)) == multiset(Ids(t)) by {
      SubtreeWithin(t, eId);
    }
    assert NoDup(Ids(t1) + Ids(e)) by {
      NoDupSub(Ids(t1) + Ids(e), Ids(t));
    }
    DetachedIds(t, p, eId, sId);
    var r := Attach(t1, sId, e);
    assert Subtree(r, eId) == Some(e) by {
      AttachKidsInside(t1, sId, e, eId);
    }
    AttachIds(t1, sId, e);
    forall x | x in Ids(t) ensures Kids(r, x) == Some(MovedKids(Kids(t, x).value, x, p, sId, eId)) {
      MoveKidsAt(t, eId, sId, p, x);
    }
  }

  /** A move under one of the employee's own descendants (or under the employee itself): the
      employee is filtered out of p, but the target is no longer reachable from the ceo, so the
      push has no visible effect and the whole subtree of the employee drops out of the tree. */
  lemma MoveIntoOwnSubtree(t: Employee, eId: int, sId: int, p: int)
    requires UniqueIds(t) && eId != t.uniqueId && IsKid(t, p, eId) && sId in SubIds(t, eId)
    ensures MoveStep(t, eId, sId) == Ok(Detach(t, p, eId))
    ensures UniqueIds(Detach(t, p, eId))
    ensures multiset(Ids(Detach(t, p, eId))) == multiset(Ids(t)) - multiset(SubIds(t, eId))
    ensures eId !in Ids(Detach(t, p, eId))
    ensures forall x :: x in Ids(Detach(t, p, eId)) ==>
              x in Ids(t) && Kids(Detach(t, p, eId), x) == Some(MovedKids(Kids(t, x).value, x, p, sId, eId))
  {
    DetachIds(t, p, eId);
    var e := Subtree(t, eId).value;
    var t1 := Detach(t, p, eId);
    assert sId in Ids(t) by {
      SubtreeWithin(t, eId);
      assert sId in multiset(Ids(t));
    }
    MoveStepParts(t, eId, sId, p);
    DetachedIds(t, p, eId, sId);
    DetachedIds(t, p, eId, eId);
    assert eId in Ids(e);
    UpdateAbsent(t1, sId, Appending(e));
    DetachedAllMovedKids(t, eId, sId, p);
  }

  lemma DetachedAllMovedKids(t: Employee, eId: int, sId: int, p: int)
    requires UniqueIds(t) && IsKid(t, p, eId) && sId !in Ids(Detach(t, p, eId))
    ensures forall x :: x in Ids(Detach(t, p, eId)) ==>
              x in Ids(t) && Kids(Detach(t, p, eId), x) == Some(MovedKids(Kids(t, x).value, x, p, sId, eId))
  {
    forall x | x in Ids(Detach(t, p, eId))
      ensures x in Ids(t) && Kids(Detach(t, p, eId), x) == Some(MovedKids(Kids(t, x).value, x, p, sId, eId))
    {
      DetachedMovedKids(t, eId, sId, p, x);
    }
  }

  lemma DetachedMovedKids(t: Employee, eId: int, sId: int, p: int, x: int)
    requires UniqueIds(t) && IsKid(t, p, eId) && x in Ids(Detach(t, p, eId)) && x != sId
    ensures x in Ids(t)
    ensures Kids(Detach(t, p, eId), x) == Some(MovedKids(Kids(t, x).value, x, p, sId, eId))
  {
    DetachedIds(t, p, eId, x);
    DetachKidsAt(t, p, eId, x);
  }

  // ---------------------------------------------------------------------------------------
  // Moving back

  /** The same people with the same reporting lines; only the order of subordinates may differ. */
  ghost predicate SameOrg(a: Employee, b: Employee) {
    a.uniqueId == b.uniqueId &&
    (forall x :: x in Ids(a) <==> x in Ids(b)) &&
    (forall q, e :: IsKid(a, q, e) <==> IsKid(b, q, e))
  }

  /** A tree in which eId has only been moved to the end of its supervisor's subordinates is the
      same organisation. */
  lemma ReorderedIsSameOrg(t: Employee, r: Employee, p: int, eId: int)
    requires UniqueIds(t) && IsKid(t, p, eId) && r.uniqueId == t.uniqueId && multiset(Ids(r)) == multiset(Ids(t))
    requires forall x :: x in Ids(t) ==>
               Kids(r, x) == Some(if x == p then FilterOut(Kids(t, x).value, eId) + [eId] else Kids(t, x).value)
    ensures SameOrg(r, t)
  {
    forall x ensures x in Ids(r) <==> x in Ids(t) {
      assert x in Ids(r) <==> x in multiset(Ids(r));
      assert x in Ids(t) <==> x in multiset(Ids(t));
    }
    forall q, e ensures IsKid(r, q, e) <==> IsKid(t, q, e) {
      if q in Ids(t) {
        if q == p {
          assert e in FilterOut(Kids(t, q).value, eId) + [eId] <==> e in Kids(t, q).value;
        }
      } else {
        assert q !in Ids(r);
      }
    }
  }

  /** Moving an employee to its own supervisor only moves it to the end of the subordinates. */
  lemma MoveToOwnSupervisor(t: Employee, eId: int, p: int)
    requires UniqueIds(t) && eId != t.uniqueId && IsKid(t, p, eId)
    ensures MoveStep(t, eId, p).Ok?
    ensures Kids(MoveStep(t, eId, p).value, p) == Some(FilterOut(Kids(t, p).value, eId) + [eId])
    ensures SameOrg(MoveStep(t, eId, p).value, t)
  {
    SupervisorNotBelow(t, p, eId);
    MoveEffect(t, eId, p, p);
    ReorderedIsSameOrg(t, MoveStep(t, eId, p).value, p, eId);
  }

  /** What the undo closure does to the child ids of one node after the move it undoes. */
  lemma MovedBack(ks: seq<int>, x: int, p: int, s: int, eId: int)
    requires x == s && s != p ==> eId !in ks
    ensures MovedKids(MovedKids(ks, x, p, s, eId), x, s, p, eId) ==
            if x == p then FilterOut(ks, eId) + [eId] else ks
  {
    FilterOutAppend(ks, eId, eId);
    FilterOutAppend(FilterOut(ks, eId), eId, eId);
    FilterOutAbsent(FilterOut(ks, eId), eId);
    if x == s && s != p {
      FilterOutAbsent(ks, eId);
    }
  }

  /** Undoing a move (moving the employee back to the supervisor cached before the move) gives
      the same organisation back; the employee ends up last among the old supervisor's
      subordinates. */
  lemma MoveThenUndo(t: Employee, eId: int, sId: int, p: int)
    requires UniqueIds(t) && eId != t.uniqueId && IsKid(t, p, eId) && sId in Ids(t) && sId !in SubIds(t, eId)
    ensures MoveStep(t, eId, sId).Ok? && MoveStep(MoveStep(t, eId, sId).value, eId, p).Ok?
    ensures var r := MoveStep(MoveStep(t, eId, sId).value, eId, p).value;
            UniqueIds(r) && multiset(Ids(r)) == multiset(Ids(t)) && Subtree(r, eId) == Subtree(t, eId) &&
            (forall x :: x in Ids(t) ==>
               Kids(r, x) == Some(if x == p then FilterOut(Kids(t, x).value, eId) + [eId] else Kids(t, x).value)) &&
            SameOrg(r, t)
  {
    MoveEffect(t, eId, sId, p);
    var r1 := MoveStep(t, eId, sId).value;
    assert IsKid(r1, sId, eId);
    SupervisorNotBelow(t, p, eId);
    assert p in multiset(Ids(r1));
    MoveEffect(r1, eId, p, sId);
    var r := MoveStep(r1, eId, p).value;
    forall x | x in Ids(t)
      ensures Kids(r, x) == Some(if x == p then FilterOut(Kids(t, x).value, eId) + [eId] else Kids(t, x).value)
    {
      assert x in multiset(Ids(r1));
      if x == sId && sId != p && eId in Kids(t, x).value {
        SupervisorUnique(t, eId, sId, p);
      }
      MovedBack(Kids(t, x).value, x, p, sId, eId);
    }
    ReorderedIsSameOrg(t, r, p, eId);
  }

  /** What the redo does to the child ids of one node after the undo. */
  lemma MovedAgain(ks: seq<int>, undone: seq<int>, x: int, p: int, s: int, eId: int)
    requires undone == if x == p then FilterOut(ks, eId) + [eId] else ks
    ensures MovedKids(undone, x, p, s, eId) == MovedKids(ks, x, p, s, eId)
  {
    FilterOutAppend(FilterOut(ks, eId), eId, eId);
    FilterOutAbsent(FilterOut(ks, eId), eId);
  }

  /** Two trees with distinct ids in which every id has the same child ids have the same
      subtrees. */
  lemma {:induction false} SameKidsSameSubtree(a: Employee, b: Employee, x: int)
    requires UniqueIds(a) && UniqueIds(b) && (forall y :: Kids(a, y) == Kids(b, y)) && x in Ids(a)
    ensures Subtree(a, x) == Subtree(b, x)
    decreases Subtree(a, x).value
  {
    var n := Subtree(a, x).value;
    assert Kids(b, x).Some?;
    var m := Subtree(b, x).value;
    assert KidIds(n.subordinates) == KidIds(m.subordinates);
    forall i | 0 <= i < |n.subordinates| ensures n.subordinates[i] == m.subordinates[i] {
      ChildNode(a, x, i);
      ChildNode(b, x, i);
      assert n.subordinates[i] in n.subordinates;
      SameKidsSameSubtree(a, b, n.subordinates[i].uniqueId);
    }
    assert n.subordinates == m.subordinates;
  }

  /** Re-running a move after undoing it gives exactly the tree the move first produced. */
  lemma MoveUndoRedo(t: Employee, eId: int, sId: int, p: int)
    requires UniqueIds(t) && eId != t.uniqueId && IsKid(t, p, eId) && sId in Ids(t) && sId !in SubIds(t, eId)
    ensures MoveStep(t, eId, sId).Ok? && MoveStep(MoveStep(t, eId, sId).value, eId, p).Ok?
    ensures MoveStep(MoveStep(MoveStep(t, eId, sId).value, eId, p).value, eId, sId) == MoveStep(t, eId, sId)
  {
    assert MoveStep(t, eId, sId).Ok? && MoveStep(MoveStep(t, eId, sId).value, eId, p).Ok? by {
      MoveThenUndo(t, eId, sId, p);
    }
    var r1, r2 := MoveStep(t, eId, sId).value, MoveStep(MoveStep(t, eId, sId).value, eId, p).value;
    assert UniqueIds(r2) && Subtree(r2, eId) == Subtree(t, eId) &&
           (forall x :: x in Ids(t) ==> x in Ids(r2)) && (forall x :: x in Ids(r2) ==> x in Ids(t)) &&
           forall x :: x in Ids(t) ==>
             Kids(r2, x) == Some(if x == p then FilterOut(Kids(t, x).value, eId) + [eId] else Kids(t, x).value) by {
      MoveThenUndo(t, eId, sId, p);
      SameIds(t, r2);
      SameIds(r2, t);
    }
    assert UniqueIds(r1) && (forall x :: x in Ids(r1) ==> x in Ids(t)) &&
           forall x :: x in Ids(t) ==> Kids(r1, x) == Some(MovedKids(Kids(t, x).value, x, p, sId, eId)) by {
      MoveEffect(t, eId, sId, p);
      SameIds(r1, t);
    }
    assert IsKid(r2, p, eId);
    assert MoveStep(r2, eId, sId).Ok? by {
      MoveEffect(r2, eId, sId, p);
    }
    var r3 := MoveStep(r2, eId, sId).value;
    assert UniqueIds(r3) && (forall x :: x in Ids(r3) ==> x in Ids(r2)) &&
           forall x :: x in Ids(r2) ==> Kids(r3, x) == Some(MovedKids(Kids(r2, x).value, x, p, sId, eId)) by {
      MoveEffect(r2, eId, sId, p);
      SameIds(r3, r2);
    }
    RedoSameKids(t, r1, r2, r3, eId, sId, p);
    SameKidsSameSubtree(r3, r1, r3.uniqueId);
  }

  /** Trees with the same multiset of ids have the same ids. */
  lemma SameIds(a: Employee, b: Employee)
    requires multiset(Ids(a)) == multiset(Ids(b))
    ensures forall x :: x in Ids(a) ==> x in Ids(b)
  {
    forall x | x in Ids(a) ensures x in Ids(b) {
      assert x in multiset(Ids(a));
    }
  }

  /** The child ids after move, undo and redo are those after the move alone. */
  lemma RedoSameKids(t: Employee, r1: Employee, r2: Employee, r3: Employee, eId: int, sId: int, p: int)
    requires forall x :: x in Ids(t) ==> x in Ids(r2)
    requires forall x :: x in Ids(r1) ==> x in Ids(t)
    requires forall x :: x in Ids(r3) ==> x in Ids(r2)
    requires forall x :: x in Ids(r2) ==> x in Ids(t)
    requires forall x {:trigger Kids(r1, x)} :: x in Ids(t) ==> Kids(r1, x) == Some(MovedKids(Kids(t, x).value, x, p, sId, eId))
    requires forall x {:trigger Kids(r2, x)} :: x in Ids(t) ==>
               Kids(r2, x) == Some(if x == p then FilterOut(Kids(t, x).value, eId) + [eId] else Kids(t, x).value)
    requires forall x {:trigger Kids(r3, x)} :: x in Ids(r2) ==> Kids(r3, x) == Some(MovedKids(Kids(r2, x).value, x, p, sId, eId))
    ensures forall y :: Kids(r3, y) == Kids(r1, y)
  {
    forall y ensures Kids(r3, y) == Kids(r1, y) {
      if y in Ids(t) {
        var kt := Kids(t, y).value;
        var k2 := if y == p then FilterOut(kt, eId) + [eId] else kt;
        assert Kids(r2, y) == Some(k2);
        assert Kids(r3, y) == Some(MovedKids(k2, y, p, sId, eId));
        MovedAgain(kt, k2, y, p, sId, eId);
      } else {
        assert y !in Ids(r1) && y !in Ids(r3);
      }
    }
  }

  /** Whatever the target, a successful `_move` leaves a tree with distinct ids under the same ceo. */
  lemma MovePreservesUnique(t: Employee, eId: int, sId: int)
    requires UniqueIds(t) && eId != t.uniqueId && MoveStep(t, eId, sId).Ok?
    ensures UniqueIds(MoveStep(t, eId, sId).value)
  {
    MoveErrors(t, eId, sId);
    var p := SupervisorOf(t, eId);
    if sId in SubIds(t, eId) {
      MoveIntoOwnSubtree(t, eId, sId, p);
    } else {
      MoveEffect(t, eId, sId, p);
    }
  }

  // ---------------------------------------------------------------------------------------
  // Moves on organisations that differ only in the order of subordinates

  lemma SameOrgTransitive(a: Employee, b: Employee, c: Employee)
    requires SameOrg(a, b) && SameOrg(b, c)
    ensures SameOrg(a, c)
  {
  }

  /** The subtree of x has no more ids in a than in b when every reporting line of a is one of b. */
  lemma {:induction false} SubIdsIncluded(a: Employee, b: Employee, x: int, y: int)
    requires UniqueIds(a) && UniqueIds(b) && (forall q, e :: IsKid(a, q, e) ==> IsKid(b, q, e))
    requires x in Ids(a) && x in Ids(b) && y in SubIds(a, x)
    ensures y in SubIds(b, x)
    decreases Subtree(a, x).value
  {
    var n := Subtree(a, x).value;
    var m := Subtree(b, x).value;
    if y != x {
      assert y in IdsAmong(n.subordinates);
      var i := FindChild(n.subordinates, y);
      var c := n.subordinates[i];
      ChildNode(a, x, i);
      assert IsKid(a, x, c.uniqueId);
      assert IsKid(b, x, c.uniqueId);
      var j := KidIndex(m.subordinates, c.uniqueId);
      ChildNode(b, x, j);
      assert c in n.subordinates;
      SubIdsIncluded(a, b, c.uniqueId, y);
      IdsAmongContains(m.subordinates, j);
      assert y in multiset(Ids(m.subordinates[j]));
      assert y in IdsAmong(m.subordinates);
    }
  }

  /** Which ids are subordinates of x after eId moved from p to s. */
  lemma MovedKidsMembers(ks: seq<int>, x: int, p: int, s: int, eId: int, y: int)
    ensures y in MovedKids(ks, x, p, s, eId) <==> (y in ks && (x != p || y != eId)) || (x == s && y == eId)
  {
  }

  /** Applying the same change of reporting lines to two versions of one organisation gives two
      versions of one organisation. */
  lemma MovedSameOrg(a: Employee, b: Employee, ra: Employee, rb: Employee, eId: int, sId: int, p: int)
    requires SameOrg(a, b) && ra.uniqueId == rb.uniqueId && (forall x :: x in Ids(ra) <==> x in Ids(rb))
    requires forall x :: x in Ids(ra) ==> x in Ids(a) && Kids(ra, x) == Some(MovedKids(Kids(a, x).value, x, p, sId, eId))
    requires forall x :: x in Ids(rb) ==> x in Ids(b) && Kids(rb, x) == Some(MovedKids(Kids(b, x).value, x, p, sId, eId))
    ensures SameOrg(ra, rb)
  {
    forall q, y ensures IsKid(ra, q, y) <==> IsKid(rb, q, y) {
      if q in Ids(ra) {
        MovedKidsMembers(Kids(a, q).value, q, p, sId, eId, y);
        MovedKidsMembers(Kids(b, q).value, q, p, sId, eId, y);
        assert IsKid(a, q, y) <==> IsKid(b, q, y);
      }
    }
  }

  lemma SubIdsAgree(a: Employee, b: Employee, x: int, y: int)
    requires UniqueIds(a) && UniqueIds(b) && SameOrg(a, b) && x in Ids(a)
    ensures y in SubIds(a, x) <==> y in SubIds(b, x)
  {
    if y in SubIds(a, x) {
      SubIdsIncluded(a, b, x, y);
    }
    if y in SubIds(b, x) {
      SubIdsIncluded(b, a, x, y);
    }
  }

  /** The ids left once the subtree of eId has dropped out. */
  lemma RemainingIds(t: Employee, r: Employee, eId: int, x: int)
    requires UniqueIds(t) && eId in Ids(t) && multiset(Ids(r)) == multiset(Ids(t)) - multiset(SubIds(t, eId))
    ensures x in Ids(r) <==> x in Ids(t) && x !in SubIds(t, eId)
  {
    SubtreeWithin(t, eId);
    assert multiset(Ids(r))[x] == multiset(Ids(t))[x] - multiset(SubIds(t, eId))[x];
  }

  lemma SameOrgOutside(a: Employee, b: Employee, eId: int, sId: int, p: int)
    requires UniqueIds(a) && UniqueIds(b) && SameOrg(a, b) && eId != a.uniqueId && IsKid(a, p, eId) && IsKid(b, p, eId)
    requires sId in Ids(a) && sId in Ids(b) && sId !in SubIds(a, eId) && sId !in SubIds(b, eId)
    ensures MoveStep(a, eId, sId).Ok? && MoveStep(b, eId, sId).Ok?
    ensures SameOrg(MoveStep(a, eId, sId).value, MoveStep(b, eId, sId).value)
  {
    MoveEffect(a, eId, sId, p);
    MoveEffect(b, eId, sId, p);
    var ra := MoveStep(a, eId, sId).value;
    var rb := MoveStep(b, eId, sId).value;
    MovedEverywhere(a, ra, eId, sId, p);
    MovedEverywhere(b, rb, eId, sId, p);
    assert forall x :: x in Ids(ra) <==> x in Ids(rb);
    MovedSameOrg(a, b, ra, rb, eId, sId, p);
  }

  lemma MovedEverywhere(t: Employee, r: Employee, eId: int, sId: int, p: int)
    requires multiset(Ids(r)) == multiset(Ids(t))
    requires forall x :: x in Ids(t) ==> Kids(r, x) == Some(MovedKids(Kids(t, x).value, x, p, sId, eId))
    ensures forall x :: x in Ids(r) <==> x in Ids(t)
    ensures forall x :: x in Ids(r) ==> x in Ids(t) && Kids(r, x) == Some(MovedKids(Kids(t, x).value, x, p, sId, eId))
  {
    forall x ensures x in Ids(r) <==> x in Ids(t) {
      assert x in Ids(r) <==> x in multiset(Ids(r));
      assert x in Ids(t) <==> x in multiset(Ids(t));
    }
  }

  lemma SameOrgInside(a: Employee, b: Employee, eId: int, sId: int, p: int)
    requires UniqueIds(a) && UniqueIds(b) && SameOrg(a, b) && eId != a.uniqueId && IsKid(a, p, eId) && IsKid(b, p, eId)
    requires sId in SubIds(a, eId) && sId in SubIds(b, eId)
    ensures MoveStep(a, eId, sId).Ok? && MoveStep(b, eId, sId).Ok?
    ensures SameOrg(MoveStep(a, eId, sId).value, MoveStep(b, eId, sId).value)
  {
    MoveIntoOwnSubtree(a, eId, sId, p);
    MoveIntoOwnSubtree(b, eId, sId, p);
    var ra := Detach(a, p, eId);
    var rb := Detach(b, p, eId);
    forall x ensures x in Ids(ra) <==> x in Ids(rb) {
      RemainingIds(a, ra, eId, x);
      RemainingIds(b, rb, eId, x);
      SubIdsAgree(a, b, eId, x);
    }
    MovedSameOrg(a, b, ra, rb, eId, sId, p);
  }

  /** `_move` cannot tell apart two trees that are the same organisation: it throws the same
      error on both, or it succeeds on both with results that are again the same organisation. */
  lemma MoveRespectsSameOrg(a: Employee, b: Employee, eId: int, sId: int)
    requires UniqueIds(a) && UniqueIds(b) && SameOrg(a, b) && eId != a.uniqueId
    ensures MoveStep(a, eId, sId).Err? ==> MoveStep(b, eId, sId) == MoveStep(a, eId, sId)
    ensures MoveStep(a, eId, sId).Ok? ==> MoveStep(b, eId, sId).Ok? && SameOrg(MoveStep(a, eId, sId).value, MoveStep(b, eId, sId).value)
  {
    MoveErrors(a, eId, sId);
    MoveErrors(b, eId, sId);
    if MoveStep(a, eId, sId).Ok? {
      var p := SupervisorOf(a, eId);
      assert IsKid(b, p, eId);
      SubIdsAgree(a, b, eId, sId);
      if sId in SubIds(a, eId) {
        SameOrgInside(a, b, eId, sId, p);
      } else {
        SameOrgOutside(a, b, eId, sId, p);
      }
    }
  }
}
