/** Facts about trees whose ids are pairwise distinct, and about `Update`, the replacement of
    the subordinate list of one node: the shape of both changes `_move` makes. */
module TreeFacts {
  import opened Employees

  // ---------------------------------------------------------------------------------------
  // Distinct values

  lemma NoDupSub(a: seq<int>, b: seq<int>)
    requires multiset(a) <= multiset(b) && NoDup(b)
    ensures NoDup(a)
  {
    forall x ensures multiset(a)[x] <= 1 {
      assert multiset(a)[x] <= multiset(b)[x];
    }
  }

  lemma NoDupSplit(a: seq<int>, b: seq<int>)
    requires NoDup(a + b)
    ensures NoDup(a) && NoDup(b)
    ensures forall x :: x in a ==> x !in b
  {
    assert multiset(a + b) == multiset(a) + multiset(b);
    forall x ensures multiset(a)[x] <= 1 && multiset(b)[x] <= 1 && (x in a ==> x !in b) {
      assert multiset(a + b)[x] == multiset(a)[x] + multiset(b)[x];
    }
  }

  lemma UniqueRoot(t: Employee)
    requires UniqueIds(t)
    ensures UniqueAmong(t.subordinates) && t.uniqueId !in IdsAmong(t.subordinates)
  {
    NoDupSplit([t.uniqueId], IdsAmong(t.subordinates));
  }

  lemma UniqueFirst(subs: seq<Employee>)
    requires UniqueAmong(subs) && subs != []
    ensures UniqueIds(subs[0]) && UniqueAmong(subs[1..])
    ensures forall x :: x in Ids(subs[0]) ==> x !in IdsAmong(subs[1..])
  {
    NoDupSplit(Ids(subs[0]), IdsAmong(subs[1..]));
  }

  lemma UniqueSubtree(t: Employee, x: int)
    requires UniqueIds(t) && x in Ids(t)
    ensures UniqueIds(Subtree(t, x).value)
  {
    SubtreeWithin(t, x);
    NoDupSub(Ids(Subtree(t, x).value), Ids(t));
  }

  /** Multiset bookkeeping of the updates below. */
  lemma ReplaceInSum(a: multiset<int>, b: multiset<int>, c: multiset<int>, d: multiset<int>)
    requires b <= a
    ensures (a - b + c) + d == (a + d) - b + c
    ensures d + (a - b + c) == (d + a) - b + c
  {
  }

  // ---------------------------------------------------------------------------------------
  // Where ids live in a list of subordinates

  lemma {:induction false} IdsAmongContains(subs: seq<Employee>, i: nat)
    requires i < |subs|
    ensures multiset(Ids(subs[i])) <= multiset(IdsAmong(subs))
    decreases subs
  {
    var a, b := multiset(Ids(subs[0])), multiset(IdsAmong(subs[1..]));
    assert multiset(IdsAmong(subs)) == a + b;
    if i > 0 {
      assert subs[1..][i - 1] == subs[i];
      IdsAmongContains(subs[1..], i - 1);
      SubInSum(multiset(Ids(subs[i])), a, b);
    }
  }

  lemma SubInSum(x: multiset<int>, a: multiset<int>, b: multiset<int>)
    requires x <= b
    ensures x <= a + b
  {
  }

  /** The child whose subtree holds y. */
  lemma {:induction false} FindChild(subs: seq<Employee>, y: int) returns (i: nat)
    requires y in IdsAmong(subs)
    ensures i < |subs| && y in Ids(subs[i])
    decreases subs
  {
    if y in Ids(subs[0]) {
      i := 0;
    } else {
      var j := FindChild(subs[1..], y);
      assert subs[1..][j] == subs[j + 1];
      i := j + 1;
    }
  }

  /** The position of a child id among the subordinates. */
  lemma KidIndex(subs: seq<Employee>, c: int) returns (j: nat)
    requires c in KidIds(subs)
    ensures j < |subs| && subs[j].uniqueId == c
  {
    var ks := KidIds(subs);
    var k :| 0 <= k < |ks| && ks[k] == c;
    j := k;
  }

  /** Two different children hold disjoint parts of the ids. */
  lemma {:induction false} ChildrenDisjoint(subs: seq<Employee>, i: nat, j: nat, y: int)
    requires UniqueAmong(subs) && i < |subs| && j < |subs| && i != j
    ensures y in Ids(subs[i]) ==> y !in Ids(subs[j])
    decreases subs
  {
    UniqueFirst(subs);
    if i == 0 {
      if y in Ids(subs[j]) {
        InLaterChild(subs, j, y);
      }
    } else if j == 0 {
      if y in Ids(subs[i]) {
        InLaterChild(subs, i, y);
      }
    } else {
      assert subs[1..][i - 1] == subs[i];
      assert subs[1..][j - 1] == subs[j];
      ChildrenDisjoint(subs[1..], i - 1, j - 1, y);
    }
  }

  lemma InLaterChild(subs: seq<Employee>, j: nat, y: int)
    requires 0 < j < |subs| && y in Ids(subs[j])
    ensures y in IdsAmong(subs[1..])
  {
    assert subs[1..][j - 1] == subs[j];
    IdsAmongContains(subs[1..], j - 1);
    assert y in multiset(Ids(subs[j]));
  }

  lemma UniqueChildAt(subs: seq<Employee>, i: nat)
    requires UniqueAmong(subs) && i < |subs|
    ensures UniqueIds(subs[i])
  {
    IdsAmongContains(subs, i);
    NoDupSub(Ids(subs[i]), IdsAmong(subs));
  }

  lemma {:induction false} KidIdsAmongIds(subs: seq<Employee>)
    ensures multiset(KidIds(subs)) <= multiset(IdsAmong(subs))
    decreases subs
  {
    if subs != [] {
      KidIdsAmongIds(subs[1..]);
      assert KidIds(subs) == [subs[0].uniqueId] + KidIds(subs[1..]);
    }
  }

  lemma {:induction false} IdsAmongConcat(a: seq<Employee>, b: seq<Employee>)
    ensures IdsAmong(a + b) == IdsAmong(a) + IdsAmong(b)
    decreases a
  {
    if a == [] {
      assert a + b == b;
    } else {
      assert (a + b)[0] == a[0];
      assert (a + b)[1..] == a[1..] + b;
      IdsAmongConcat(a[1..], b);
    }
  }

  lemma {:induction false} SubtreeAmongConcat(a: seq<Employee>, b: seq<Employee>, x: int)
    ensures SubtreeAmong(a + b, x) == if x in IdsAmong(a) then SubtreeAmong(a, x) else SubtreeAmong(b, x)
    decreases a
  {
    if a == [] {
      assert a + b == b;
    } else {
      assert (a + b)[0] == a[0];
      assert (a + b)[1..] == a[1..] + b;
      SubtreeAmongConcat(a[1..], b, x);
    }
  }

  // ---------------------------------------------------------------------------------------
  // Subtrees of a tree with distinct ids

  /** In a list with distinct ids the search for y stops in the child holding y. */
  lemma {:induction false} SubtreeAmongAt(subs: seq<Employee>, i: nat, y: int)
    requires UniqueAmong(subs) && i < |subs| && y in Ids(subs[i])
    ensures SubtreeAmong(subs, y) == Subtree(subs[i], y)
    decreases subs
  {
    if i > 0 {
      assert subs[1..][i - 1] == subs[i];
      ChildrenDisjoint(subs, i, 0, y);
      UniqueFirst(subs);
      SubtreeAmongAt(subs[1..], i - 1, y);
    }
  }

  lemma SubtreeAtChild(t: Employee, i: nat, y: int)
    requires UniqueIds(t) && i < |t.subordinates| && y in Ids(t.subordinates[i])
    ensures Subtree(t, y) == Subtree(t.subordinates[i], y)
  {
    UniqueRoot(t);
    IdsAmongContains(t.subordinates, i);
    assert y in multiset(IdsAmong(t.subordinates));
    SubtreeAmongAt(t.subordinates, i, y);
  }

  /** Searching inside the subtree of k finds the same node as searching the whole tree. */
  lemma {:induction false} SubtreeOfSubtree(t: Employee, k: int, y: int)
    requires UniqueIds(t) && k in Ids(t) && y in Ids(Subtree(t, k).value)
    ensures Subtree(Subtree(t, k).value, y) == Subtree(t, y)
    decreases t
  {
    if t.uniqueId != k {
      var i := FindChild(t.subordinates, k);
      var c := t.subordinates[i];
      UniqueRoot(t);
      UniqueChildAt(t.subordinates, i);
      SubtreeAtChild(t, i, k);
      SubtreeWithin(c, k);
      assert y in multiset(Ids(Subtree(c, k).value));
      assert y in Ids(c);
      SubtreeAtChild(t, i, y);
      SubtreeOfSubtree(c, k, y);
    }
  }

  /** Each subordinate of the node x is the subtree of its own id. */
  lemma ChildNode(t: Employee, x: int, i: nat)
    requires UniqueIds(t) && x in Ids(t) && i < |Subtree(t, x).value.subordinates|
    ensures Subtree(t, Subtree(t, x).value.subordinates[i].uniqueId) == Some(Subtree(t, x).value.subordinates[i])
  {
    var n := Subtree(t, x).value;
    var c := n.subordinates[i];
    IdsAmongContains(n.subordinates, i);
    assert c.uniqueId in multiset(IdsAmong(n.subordinates));
    assert c.uniqueId in Ids(n);
    SubtreeOfSubtree(t, x, c.uniqueId);
    UniqueSubtree(t, x);
    SubtreeAtChild(n, i, c.uniqueId);
  }

  /** A child id of some node inside c lies strictly below the root of c. */
  lemma KidBelow(c: Employee, q: int, e: int)
    ensures IsKid(c, q, e) ==> e in IdsAmong(c.subordinates)
  {
    if IsKid(c, q, e) {
      var m := Subtree(c, q).value;
      KidIdsAmongIds(m.subordinates);
      assert e in multiset(KidIds(m.subordinates));
      assert e in IdsAmong(m.subordinates);
      if c.uniqueId != q {
        SubtreeAmongWithin(c.subordinates, q);
        assert e in multiset(Ids(m));
      }
    }
  }

  /** A direct subordinate of the root is nobody else's subordinate. */
  lemma RootKidNotElsewhere(t: Employee, e: int, q: int)
    requires UniqueIds(t) && e in KidIds(t.subordinates) && q != t.uniqueId && q in Ids(t)
    ensures !IsKid(t, q, e)
  {
    UniqueRoot(t);
    var i := KidIndex(t.subordinates, e);
    var j := FindChild(t.subordinates, q);
    SubtreeAtChild(t, j, q);
    RootKidNotInChild(t, i, j);
    KidBelow(t.subordinates[j], q, e);
  }

  /** The root of one child of t is not strictly below the root of any child of t. */
  lemma RootKidNotInChild(t: Employee, i: nat, j: nat)
    requires UniqueIds(t) && i < |t.subordinates| && j < |t.subordinates|
    ensures t.subordinates[i].uniqueId !in IdsAmong(t.subordinates[j].subordinates)
  {
    UniqueRoot(t);
    var cj := t.subordinates[j];
    UniqueChildAt(t.subordinates, j);
    UniqueRoot(cj);
    if i != j {
      ChildrenDisjoint(t.subordinates, i, j, t.subordinates[i].uniqueId);
      assert t.subordinates[i].uniqueId in Ids(t.subordinates[i]);
    }
  }

  /** In a tree with distinct ids every employee has at most one supervisor. */
  lemma {:induction false} SupervisorUnique(t: Employee, e: int, p: int, q: int)
    requires UniqueIds(t) && IsKid(t, p, e) && IsKid(t, q, e)
    ensures p == q
    decreases t, 1
  {
    if p == t.uniqueId && q != t.uniqueId {
      RootKidNotElsewhere(t, e, q);
      assert false;
    } else if q == t.uniqueId && p != t.uniqueId {
      RootKidNotElsewhere(t, e, p);
      assert false;
    } else if p != t.uniqueId && q != t.uniqueId {
      SupervisorUniqueBelow(t, e, p, q);
    }
  }

  lemma {:induction false} SupervisorUniqueBelow(t: Employee, e: int, p: int, q: int)
    requires UniqueIds(t) && IsKid(t, p, e) && IsKid(t, q, e)
    requires p != t.uniqueId && q != t.uniqueId
    ensures p == q
    decreases t, 0
  {
    UniqueRoot(t);
    var i := FindChild(t.subordinates, p);
    var j := FindChild(t.subordinates, q);
    KidInChild(t, i, p, e);
    KidInChild(t, j, q, e);
    SameChild(t.subordinates, i, j, e);
    UniqueChildAt(t.subordinates, i);
    SupervisorUnique(t.subordinates[i], e, p, q);
  }

  /** A subordinate of a node inside a child of t is found inside that child. */
  lemma KidInChild(t: Employee, i: nat, p: int, e: int)
    requires UniqueIds(t) && i < |t.subordinates| && p in Ids(t.subordinates[i]) && IsKid(t, p, e)
    ensures IsKid(t.subordinates[i], p, e) && e in Ids(t.subordinates[i])
  {
    var c := t.subordinates[i];
    SubtreeAtChild(t, i, p);
    KidBelow(c, p, e);
    assert multiset(IdsAmong(c.subordinates)) <= multiset(Ids(c));
    assert e in multiset(Ids(c));
  }

  lemma SameChild(subs: seq<Employee>, i: nat, j: nat, y: int)
    requires UniqueAmong(subs) && i < |subs| && j < |subs| && y in Ids(subs[i]) && y in Ids(subs[j])
    ensures i == j
  {
    if i != j {
      ChildrenDisjoint(subs, i, j, y);
    }
  }

  /** No node lies in the subtree of one of its own subordinates. */
  lemma SupervisorNotBelow(t: Employee, p: int, e: int)
    requires UniqueIds(t) && IsKid(t, p, e)
    ensures p !in SubIds(t, e)
  {
    var n := Subtree(t, p).value;
    var j := KidIndex(n.subordinates, e);
    ChildNode(t, p, j);
    var eNode := Subtree(t, e).value;
    UniqueSubtree(t, e);
    UniqueRoot(eNode);
    if p in Ids(eNode) {
      SubtreeOfSubtree(t, e, p);
      KidBelow(eNode, p, e);
      assert false;
    }
  }

  // ---------------------------------------------------------------------------------------
  // Replacing the subordinate list of the node with id k

  function Update(t: Employee, k: int, f: seq<Employee> -> seq<Employee>): (r: Employee)
    ensures r.uniqueId == t.uniqueId
    decreases t
  {
    if t.uniqueId == k then Employee(k, f(t.subordinates))
    else Employee(t.uniqueId, UpdateAmong(t.subordinates, k, f))
  }

  function UpdateAmong(subs: seq<Employee>, k: int, f: seq<Employee> -> seq<Employee>): (r: seq<Employee>)
    ensures |r| == |subs|
    ensures forall i :: 0 <= i < |subs| ==> r[i] == Update(subs[i], k, f)
    decreases subs
  {
    if subs == [] then [] else [Update(subs[0], k, f)] + UpdateAmong(subs[1..], k, f)
  }

  /** The node k after the update. */
  function Updated(n: Employee, f: seq<Employee> -> seq<Employee>): Employee {
    Employee(n.uniqueId, f(n.subordinates))
  }

  lemma UpdateKeepsKidIds(subs: seq<Employee>, k: int, f: seq<Employee> -> seq<Employee>)
    ensures KidIds(UpdateAmong(subs, k, f)) == KidIds(subs)
  {
  }

  lemma {:induction false} UpdateAbsent(t: Employee, k: int, f: seq<Employee> -> seq<Employee>)
    requires k !in Ids(t)
    ensures Update(t, k, f) == t
    decreases t
  {
    UpdateAmongAbsent(t.subordinates, k, f);
  }

  lemma {:induction false} UpdateAmongAbsent(subs: seq<Employee>, k: int, f: seq<Employee> -> seq<Employee>)
    requires k !in IdsAmong(subs)
    ensures UpdateAmong(subs, k, f) == subs
    decreases subs
  {
    if subs != [] {
      UpdateAbsent(subs[0], k, f);
      UpdateAmongAbsent(subs[1..], k, f);
    }
  }

  /** The ids after the update: those of the old node k are replaced by those of the new one. */
  lemma {:induction false} UpdateIds(t: Employee, k: int, f: seq<Employee> -> seq<Employee>)
    requires UniqueIds(t) && k in Ids(t)
    ensures multiset(Ids(Update(t, k, f))) ==
            multiset(Ids(t)) - multiset(Ids(Subtree(t, k).value)) + multiset(Ids(Updated(Subtree(t, k).value, f)))
    decreases t
  {
    if t.uniqueId != k {
      UniqueRoot(t);
      UpdateAmongIds(t.subordinates, k, f);
      SubtreeAmongWithin(t.subordinates, k);
      ReplaceInSum(multiset(IdsAmong(t.subordinates)), multiset(Ids(Subtree(t, k).value)),
                   multiset(Ids(Updated(Subtree(t, k).value, f))), multiset([t.uniqueId]));
    }
  }

  lemma {:induction false} UpdateAmongIds(subs: seq<Employee>, k: int, f: seq<Employee> -> seq<Employee>)
    requires UniqueAmong(subs) && k in IdsAmong(subs)
    ensures multiset(IdsAmong(UpdateAmong(subs, k, f))) ==
            multiset(IdsAmong(subs)) - multiset(Ids(SubtreeAmong(subs, k).value))
              + multiset(Ids(Updated(SubtreeAmong(subs, k).value, f)))
    decreases subs
  {
    var c, rest := subs[0], subs[1..];
    UniqueFirst(subs);
    assert UpdateAmong(subs, k, f) == [Update(c, k, f)] + UpdateAmong(rest, k, f);
    if k in Ids(c) {
      UpdateIds(c, k, f);
      UpdateAmongAbsent(rest, k, f);
      SubtreeWithin(c, k);
      ReplaceInSum(multiset(Ids(c)), multiset(Ids(Subtree(c, k).value)),
                   multiset(Ids(Updated(Subtree(c, k).value, f))), multiset(IdsAmong(rest)));
    } else {
      UpdateAbsent(c, k, f);
      UpdateAmongIds(rest, k, f);
      SubtreeAmongWithin(rest, k);
      ReplaceInSum(multiset(IdsAmong(rest)), multiset(Ids(SubtreeAmong(rest, k).value)),
                   multiset(Ids(Updated(SubtreeAmong(rest, k).value, f))), multiset(Ids(c)));
    }
  }

  /** Inside the new node k, searching the updated tree is searching the new node. */
  lemma {:induction false} UpdateInside(t: Employee, k: int, f: seq<Employee> -> seq<Employee>, x: int)
    requires UniqueIds(t) && k in Ids(t) && UniqueIds(Update(t, k, f))
    requires x in Ids(Updated(Subtree(t, k).value, f))
    ensures Subtree(Update(t, k, f), x) == Subtree(Updated(Subtree(t, k).value, f), x)
    decreases t
  {
    if t.uniqueId != k {
      var u := Update(t, k, f);
      var n := Subtree(t, k).value;
      UpdateIds(t, k, f);
      UniqueRoot(t);
      UniqueRoot(u);
      SubtreeAmongWithin(t.subordinates, k);
      assert t.uniqueId !in multiset(Ids(n));
      assert multiset(Ids(u))[t.uniqueId] ==
             multiset(Ids(t))[t.uniqueId] - multiset(Ids(n))[t.uniqueId] + multiset(Ids(Updated(n, f)))[t.uniqueId];
      assert x != t.uniqueId;
      UpdateAmongInside(t.subordinates, k, f, x);
    }
  }

  lemma {:induction false} UpdateAmongInside(subs: seq<Employee>, k: int, f: seq<Employee> -> seq<Employee>, x: int)
    requires UniqueAmong(subs) && k in IdsAmong(subs) && UniqueAmong(UpdateAmong(subs, k, f))
    requires x in Ids(Updated(SubtreeAmong(subs, k).value, f))
    ensures SubtreeAmong(UpdateAmong(subs, k, f), x) == Subtree(Updated(SubtreeAmong(subs, k).value, f), x)
    decreases subs
  {
    var c, rest := subs[0], subs[1..];
    var us := UpdateAmong(subs, k, f);
    UniqueFirst(subs);
    UniqueFirst(us);
    assert us[1..] == UpdateAmong(rest, k, f);
    if k in Ids(c) {
      NewIdsPresent(c, k, f, x);
      UpdateInside(c, k, f, x);
    } else {
      UpdateAbsent(c, k, f);
      NewIdsPresentAmong(rest, k, f, x);
      assert x !in Ids(c);
      UpdateAmongInside(rest, k, f, x);
    }
  }

  lemma NewIdsPresent(t: Employee, k: int, f: seq<Employee> -> seq<Employee>, x: int)
    requires UniqueIds(t) && k in Ids(t) && x in Ids(Updated(Subtree(t, k).value, f))
    ensures x in Ids(Update(t, k, f))
  {
    UpdateIds(t, k, f);
    assert multiset(Ids(Update(t, k, f)))[x] >= multiset(Ids(Updated(Subtree(t, k).value, f)))[x];
  }

  lemma NewIdsPresentAmong(subs: seq<Employee>, k: int, f: seq<Employee> -> seq<Employee>, x: int)
    requires UniqueAmong(subs) && k in IdsAmong(subs) && x in Ids(Updated(SubtreeAmong(subs, k).value, f))
    ensures x in IdsAmong(UpdateAmong(subs, k, f))
  {
    UpdateAmongIds(subs, k, f);
    assert multiset(IdsAmong(UpdateAmong(subs, k, f)))[x] >= multiset(Ids(Updated(SubtreeAmong(subs, k).value, f)))[x];
  }

  /** Outside the old node k, every node keeps its child ids. */
  lemma {:induction false} UpdateOutside(t: Employee, k: int, f: seq<Employee> -> seq<Employee>, x: int)
    requires UniqueIds(t) && k in Ids(t) && UniqueIds(Update(t, k, f))
    requires x in Ids(t) && x !in Ids(Subtree(t, k).value)
    ensures Kids(Update(t, k, f), x) == Kids(t, x)
    decreases t
  {
    if t.uniqueId == k {
      assert false;
    } else if x == t.uniqueId {
      UpdateKeepsKidIds(t.subordinates, k, f);
    } else {
      UniqueRoot(t);
      UniqueRoot(Update(t, k, f));
      UpdateAmongOutside(t.subordinates, k, f, x);
    }
  }

  lemma {:induction false} UpdateAmongOutside(subs: seq<Employee>, k: int, f: seq<Employee> -> seq<Employee>, x: int)
    requires UniqueAmong(subs) && k in IdsAmong(subs) && UniqueAmong(UpdateAmong(subs, k, f))
    requires x in IdsAmong(subs) && x !in Ids(SubtreeAmong(subs, k).value)
    ensures KidsOf(SubtreeAmong(UpdateAmong(subs, k, f), x)) == KidsOf(SubtreeAmong(subs, x))
    decreases subs
  {
    var c, rest := subs[0], subs[1..];
    var us := UpdateAmong(subs, k, f);
    UniqueFirst(subs);
    UniqueFirst(us);
    assert us[1..] == UpdateAmong(rest, k, f);
    if k in Ids(c) {
      if x in Ids(c) {
        OldIdsPresent(c, k, f, x);
        UpdateOutside(c, k, f, x);
      } else {
        UpdateAmongAbsent(rest, k, f);
        assert x in IdsAmong(us[1..]);
        assert x !in Ids(Update(c, k, f));
      }
    } else {
      UpdateAbsent(c, k, f);
      if x !in Ids(c) {
        UpdateAmongOutside(rest, k, f, x);
      }
    }
  }

  lemma OldIdsPresent(t: Employee, k: int, f: seq<Employee> -> seq<Employee>, x: int)
    requires UniqueIds(t) && k in Ids(t) && x in Ids(t) && x !in Ids(Subtree(t, k).value)
    ensures x in Ids(Update(t, k, f))
  {
    UpdateIds(t, k, f);
    assert multiset(Ids(Update(t, k, f)))[x] >= multiset(Ids(t))[x] - multiset(Ids(Subtree(t, k).value))[x];
  }
}
