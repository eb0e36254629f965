/**
  The member graph of a truss: an undirected graph over joint ids, stored as
  an adjacency list (each registered joint id maps to the list of its
  neighbours). The first half states each operation on a graph value; the
  class `MemberGraph` at the end is the mutable object the editor uses, and
  each of its methods is proved to move its state as the matching function
  says.
 */
module MemberGraphs {
  import opened JsValues

  type JointId = JsString

  /** A graph value: the registered ids in the order `Object.keys` reports
      them (insertion order), and each id's neighbour list. */
  datatype Adjacency = Adjacency(order: seq<JointId>, lists: map<JointId, seq<JointId>>)

  /** The graph of a freshly constructed `MemberGraph`. */
  const Empty: Adjacency := Adjacency([], map[])

  /** The ordered keys are exactly the map's keys, each listed once. */
  ghost predicate WellKeyed(g: Adjacency) {
    && NoDup(g.order)
    && (forall id :: id in g.order ==> id in g.lists)
    && (forall id :: id in g.lists ==> id in g.order)
  }

  /** Every neighbour list is set-like. */
  ghost predicate DuplicateFree(g: Adjacency) {
    forall id :: id in g.lists ==> NoDup(g.lists[id])
  }

  /** Adjacency goes both ways, and no list names an unregistered joint. */
  ghost predicate Symmetric(g: Adjacency) {
    forall a, b :: a in g.lists && b in g.lists[a] ==> b in g.lists && a in g.lists[b]
  }

  /** The invariants an undirected graph of members keeps. */
  ghost predicate Undirected(g: Adjacency) {
    WellKeyed(g) && DuplicateFree(g) && Symmetric(g)
  }

  /** `addJoint`: registers `id` with an empty list unless it is already registered. */
  function WithJoint(g: Adjacency, id: JointId): (r: Adjacency)
    ensures r.lists.Keys == g.lists.Keys + {id}
    ensures forall k :: k in g.lists ==> r.lists[k] == g.lists[k]
  {
    if id in g.lists then g
    else Adjacency(g.order + [id], g.lists[id := []])
  }

  /** `addAdjacent`: appends `b` to `a`'s list unless it is already there. */
  function WithAdjacent(g: Adjacency, a: JointId, b: JointId): (r: Adjacency)
    requires a in g.lists
    ensures r.order == g.order && r.lists.Keys == g.lists.Keys
    ensures forall k :: k in g.lists && k != a ==> r.lists[k] == g.lists[k]
    ensures forall y :: y in r.lists[a] <==> y in g.lists[a] || y == b
    ensures NoDup(g.lists[a]) ==> NoDup(r.lists[a])
  {
    if b in g.lists[a] then g
    else g.(lists := g.lists[a := g.lists[a] + [b]])
  }

  /** `removeAdjacent`: drops `b` from `a`'s list if it is there. */
  function WithoutAdjacent(g: Adjacency, a: JointId, b: JointId): (r: Adjacency)
    requires a in g.lists
    ensures r.order == g.order && r.lists.Keys == g.lists.Keys
    ensures forall k :: k in g.lists && k != a ==> r.lists[k] == g.lists[k]
    ensures NoDup(g.lists[a]) ==> NoDup(r.lists[a]) && b !in r.lists[a]
    ensures NoDup(g.lists[a]) ==> forall y :: y in r.lists[a] <==> y in g.lists[a] && y != b
  {
    RemoveFirstFacts(g.lists[a], b);
    g.(lists := g.lists[a := RemoveFirst(g.lists[a], b)])
  }

  /** `addMember`: registers both endpoints, then links them both ways. */
  function WithMember(g: Adjacency, a: JointId, b: JointId): (r: Adjacency)
    ensures r.lists.Keys == g.lists.Keys + {a, b}
    ensures b in r.lists[a] && a in r.lists[b]
    ensures forall k :: k in g.lists && k != a && k != b ==> r.lists[k] == g.lists[k]
  {
    var g1 := WithJoint(WithJoint(g, a), b);
    WithAdjacent(WithAdjacent(g1, a, b), b, a)
  }

  /** `removeMember`: registers both endpoints, then unlinks them both ways. */
  function WithoutMember(g: Adjacency, a: JointId, b: JointId): (r: Adjacency)
    ensures r.lists.Keys == g.lists.Keys + {a, b}
    ensures forall k :: k in g.lists && k != a && k != b ==> r.lists[k] == g.lists[k]
  {
    var g1 := WithJoint(WithJoint(g, a), b);
    WithoutAdjacent(WithoutAdjacent(g1, a, b), b, a)
  }

  /** `removeJoint`: forgets `id`'s own list and drops `id` from every other list. */
  function WithoutJoint(g: Adjacency, id: JointId): (r: Adjacency)
    ensures r.lists.Keys == g.lists.Keys - {id}
    ensures forall k :: k in r.lists ==> r.lists[k] == RemoveFirst(g.lists[k], id)
  {
    Adjacency(RemoveFirst(g.order, id), map k | k in g.lists && k != id :: RemoveFirst(g.lists[k], id))
  }

  /** `addJoint` keeps each of the three invariants. */
  lemma AddJointKeepsInvariants(g: Adjacency, id: JointId)
    ensures WellKeyed(g) ==> WellKeyed(WithJoint(g, id))
    ensures DuplicateFree(g) ==> DuplicateFree(WithJoint(g, id))
    ensures Symmetric(g) ==> Symmetric(WithJoint(g, id))
  {
    if id !in g.lists && WellKeyed(g) {
      var r := WithJoint(g, id);
      forall i, j | 0 <= i < j < |r.order| ensures r.order[i] != r.order[j] {
        if j == |g.order| {
          assert r.order[i] == g.order[i];
        }
      }
    }
  }

  /** `addAdjacent` and `removeAdjacent` keep the keys and keep every list set-like. */
  lemma AdjacentOpsKeepSetLike(g: Adjacency, a: JointId, b: JointId)
    requires WellKeyed(g) && DuplicateFree(g) && a in g.lists
    ensures WellKeyed(WithAdjacent(g, a, b)) && DuplicateFree(WithAdjacent(g, a, b))
    ensures WellKeyed(WithoutAdjacent(g, a, b)) && DuplicateFree(WithoutAdjacent(g, a, b))
  {
    assert NoDup(g.lists[a]);
  }

  /** A graph that differs from a symmetric one only by gaining or losing the
      link between `a` and `b`, in both directions, is symmetric. */
  lemma RelinkedIsSymmetric(g: Adjacency, r: Adjacency, a: JointId, b: JointId, linked: bool)
    requires Symmetric(g) && r.lists.Keys == g.lists.Keys && a in g.lists && b in g.lists
    requires forall k, y :: k in r.lists ==>
      (y in r.lists[k] <==> if (k == a && y == b) || (k == b && y == a) then linked else y in g.lists[k])
    ensures Symmetric(r)
  {
    forall x, y | x in r.lists && y in r.lists[x] ensures y in r.lists && x in r.lists[y] {
      if !((x == a && y == b) || (x == b && y == a)) {
        assert y in g.lists[x];
      }
    }
  }

  /** `removeJoint` keeps the ordered keys in step with the map. */
  lemma WithoutJointWellKeyed(g: Adjacency, id: JointId)
    requires WellKeyed(g)
    ensures WellKeyed(WithoutJoint(g, id))
  {
    var r := WithoutJoint(g, id);
    RemoveFirstFacts(g.order, id);
    forall k | k in r.order ensures k in r.lists {
      assert k in g.order && k != id;
    }
  }

  /** What `removeJoint` does step by step (delete the key, then strip every
      remaining list) yields `WithoutJoint`, which stays well keyed. */
  lemma WithoutJointSteps(g: Adjacency, id: JointId, order: seq<JointId>, lists: map<JointId, seq<JointId>>)
    requires id in g.order <==> id in g.lists
    requires order == if id in g.lists then RemoveFirst(g.order, id) else g.order
    requires lists.Keys == g.lists.Keys - {id}
    requires forall k :: k in lists ==> lists[k] == RemoveFirst(g.lists[k], id)
    ensures Adjacency(order, lists) == WithoutJoint(g, id)
  {
    if id !in g.lists {
      RemoveFirstAbsent(g.order, id);
    }
    assert lists == WithoutJoint(g, id).lists;
  }

  /** The joints left after deleting `id`'s key are without repeats and match the map. */
  lemma DeletedKeyWellKeyed(g: Adjacency, id: JointId)
    requires WellKeyed(g)
    ensures var order := if id in g.lists then RemoveFirst(g.order, id) else g.order;
      NoDup(order) && forall k :: k in g.lists - {id} <==> k in order
  {
    RemoveFirstFacts(g.order, id);
  }

  /** `addMember` keeps the graph undirected. */
  lemma AddMemberKeepsUndirected(g: Adjacency, a: JointId, b: JointId)
    requires Undirected(g)
    ensures Undirected(WithMember(g, a, b))
  {
    AddJointKeepsInvariants(g, a);
    AddJointKeepsInvariants(WithJoint(g, a), b);
    var g1 := WithJoint(WithJoint(g, a), b);
    var g2 := WithAdjacent(g1, a, b);
    AdjacentOpsKeepSetLike(g1, a, b);
    AdjacentOpsKeepSetLike(g2, b, a);
    LinkedLists(g1, a, b);
    RelinkedIsSymmetric(g1, WithMember(g, a, b), a, b, true);
  }

  /** Linking `a` and `b` both ways adds exactly those two adjacencies. */
  lemma LinkedLists(g1: Adjacency, a: JointId, b: JointId)
    requires a in g1.lists && b in g1.lists
    ensures var r := WithAdjacent(WithAdjacent(g1, a, b), b, a);
      r.lists.Keys == g1.lists.Keys &&
      forall k, y :: k in r.lists ==>
        (y in r.lists[k] <==> if (k == a && y == b) || (k == b && y == a) then true else y in g1.lists[k])
  {
  }

  /** Unlinking `a` and `b` both ways in a set-like graph removes exactly those two adjacencies. */
  lemma UnlinkedLists(g1: Adjacency, a: JointId, b: JointId)
    requires a in g1.lists && b in g1.lists && DuplicateFree(g1)
    ensures var r := WithoutAdjacent(WithoutAdjacent(g1, a, b), b, a);
      r.lists.Keys == g1.lists.Keys &&
      forall k, y :: k in r.lists ==>
        (y in r.lists[k] <==> if (k == a && y == b) || (k == b && y == a) then false else y in g1.lists[k])
  {
    var g2 := WithoutAdjacent(g1, a, b);
    assert NoDup(g1.lists[a]) && NoDup(g1.lists[b]);
    assert NoDup(g2.lists[b]);
  }

  /** `removeMember` keeps an undirected graph undirected and leaves the two
      joints unlinked. */
  lemma RemoveMemberKeepsUndirected(g: Adjacency, a: JointId, b: JointId)
    requires Undirected(g)
    ensures Undirected(WithoutMember(g, a, b))
    ensures b !in WithoutMember(g, a, b).lists[a] && a !in WithoutMember(g, a, b).lists[b]
  {
    AddJointKeepsInvariants(g, a);
    AddJointKeepsInvariants(WithJoint(g, a), b);
    var g1 := WithJoint(WithJoint(g, a), b);
    var g2 := WithoutAdjacent(g1, a, b);
    AdjacentOpsKeepSetLike(g1, a, b);
    AdjacentOpsKeepSetLike(g2, b, a);
    UnlinkedLists(g1, a, b);
    RelinkedIsSymmetric(g1, WithoutMember(g, a, b), a, b, false);
  }

  /** Each list `removeJoint` leaves is the old one without `id`. */
  lemma StrippedLists(g: Adjacency, id: JointId)
    requires DuplicateFree(g)
    ensures forall k :: k in WithoutJoint(g, id).lists ==>
      NoDup(WithoutJoint(g, id).lists[k]) && id !in WithoutJoint(g, id).lists[k]
    ensures forall k, y :: k in WithoutJoint(g, id).lists ==>
      (y in WithoutJoint(g, id).lists[k] <==> y in g.lists[k] && y != id)
  {
    var r := WithoutJoint(g, id);
    forall k | k in r.lists
      ensures NoDup(r.lists[k]) && id !in r.lists[k]
      ensures forall y :: y in r.lists[k] <==> y in g.lists[k] && y != id
    {
      assert NoDup(g.lists[k]);
      RemoveFirstFacts(g.lists[k], id);
    }
  }

  /** Dropping one id from every list of a symmetric graph, and its own list, keeps it symmetric. */
  lemma StrippedSymmetric(g: Adjacency, id: JointId)
    requires Symmetric(g) && DuplicateFree(g)
    ensures Symmetric(WithoutJoint(g, id))
  {
    var r := WithoutJoint(g, id);
    StrippedLists(g, id);
    forall x, y | x in r.lists && y in r.lists[x] ensures y in r.lists && x in r.lists[y] {
      assert y in g.lists[x] && y != id && x != id;
      assert y in g.lists && x in g.lists[y];
      assert y in r.lists;
    }
  }

  /** `removeJoint` on an undirected graph unregisters `id`, leaves it in no
      list, takes nothing else out of any list, and keeps the graph undirected. */
  lemma RemoveJointKeepsUndirected(g: Adjacency, id: JointId)
    requires Undirected(g)
    ensures id !in WithoutJoint(g, id).lists
    ensures forall k :: k in WithoutJoint(g, id).lists ==> id !in WithoutJoint(g, id).lists[k]
    ensures forall k, y :: k in WithoutJoint(g, id).lists ==>
      (y in WithoutJoint(g, id).lists[k] <==> y in g.lists[k] && y != id)
    ensures Undirected(WithoutJoint(g, id))
  {
    WithoutJointWellKeyed(g, id);
    StrippedLists(g, id);
    StrippedSymmetric(g, id);
  }

  // ---------------------------------------------------------------------
  // getAllMembers

  /** Two `[jointId, adjacent]` pairs that name the same undirected member. */
  predicate SameMember(p: (JointId, JointId), q: (JointId, JointId)) {
    p == q || (p.0 == q.1 && p.1 == q.0)
  }

  /** No undirected member is listed twice. */
  ghost predicate DistinctMembers(ps: seq<(JointId, JointId)>) {
    forall i, j :: 0 <= i < j < |ps| ==> !SameMember(ps[i], ps[j])
  }

  /** The inner loop of `getAllMembers`: a pair `[src, adjacent]` for every
      adjacent that has not been reviewed yet, in list order. */
  function PairsFrom(src: JointId, adjacents: seq<JointId>, reviewed: seq<JointId>): seq<(JointId, JointId)>
    decreases |adjacents|
  {
    if adjacents == [] then []
    else
      var last := adjacents[|adjacents| - 1];
      PairsFrom(src, adjacents[..|adjacents| - 1], reviewed) + (if last in reviewed then [] else [(src, last)])
  }

  /** One more adjacent visited by the inner loop adds its pair unless it was reviewed. */
  lemma PairsFromSnoc(src: JointId, adjacents: seq<JointId>, reviewed: seq<JointId>, x: JointId)
    ensures PairsFrom(src, adjacents + [x], reviewed)
         == PairsFrom(src, adjacents, reviewed) + (if x in reviewed then [] else [(src, x)])
  {
    assert (adjacents + [x])[..|adjacents|] == adjacents;
  }

  /** The inner loop collects `[src, y]` exactly for the adjacents `y` not reviewed yet. */
  lemma {:induction false} PairsFromMembers(src: JointId, adjacents: seq<JointId>, reviewed: seq<JointId>)
    ensures forall p :: p in PairsFrom(src, adjacents, reviewed) <==>
      p.0 == src && p.1 in adjacents && p.1 !in reviewed
  {
    if adjacents != [] {
      var init := adjacents[..|adjacents| - 1];
      assert adjacents == init + [adjacents[|adjacents| - 1]];
      PairsFromMembers(src, init, reviewed);
    }
  }

  /** From a set-like list, the inner loop collects no member twice. */
  lemma {:induction false} PairsFromDistinct(src: JointId, adjacents: seq<JointId>, reviewed: seq<JointId>)
    requires NoDup(adjacents)
    ensures DistinctMembers(PairsFrom(src, adjacents, reviewed))
  {
    if adjacents != [] {
      var last := adjacents[|adjacents| - 1];
      var init := adjacents[..|adjacents| - 1];
      assert adjacents == init + [last];
      assert NoDup(init) && last !in init;
      PairsFromDistinct(src, init, reviewed);
      PairsFromMembers(src, init, reviewed);
      var ps := PairsFrom(src, init, reviewed);
      if last !in reviewed {
        DistinctMembersAppend(ps, [(src, last)]);
      }
    }
  }

  /** The pairs `getAllMembers` has collected after reviewing the first `n` joints. */
  function PairsUpTo(g: Adjacency, n: nat): seq<(JointId, JointId)>
    requires WellKeyed(g) && n <= |g.order|
  {
    if n == 0 then []
    else PairsUpTo(g, n - 1) + PairsFrom(g.order[n - 1], g.lists[g.order[n - 1]], g.order[..n - 1])
  }

  /** What `getAllMembers` returns. */
  function MemberPairs(g: Adjacency): seq<(JointId, JointId)>
    requires WellKeyed(g)
  {
    PairsUpTo(g, |g.order|)
  }

  /** In a list without repeats, the first position of the element at `k` is `k`. */
  lemma IndexOfDistinct(s: seq<JointId>, k: nat)
    requires NoDup(s) && k < |s|
    ensures IndexOf(s, s[k]) == k
  {
  }

  lemma DistinctMembersAppend(xs: seq<(JointId, JointId)>, ys: seq<(JointId, JointId)>)
    requires DistinctMembers(xs) && DistinctMembers(ys)
    requires forall p, q :: p in xs && q in ys ==> !SameMember(p, q)
    ensures DistinctMembers(xs + ys)
  {
    var zs := xs + ys;
    forall i, j | 0 <= i < j < |zs| ensures !SameMember(zs[i], zs[j]) {
      if j < |xs| {
        assert zs[i] == xs[i] && zs[j] == xs[j];
      } else if i >= |xs| {
        assert zs[i] == ys[i - |xs|] && zs[j] == ys[j - |xs|];
      } else {
        assert zs[i] in xs && zs[j] in ys;
      }
    }
  }

  /** After `n` joints, a pair is collected exactly when its source is among
      them and its target was not reviewed before its source; and no
      undirected member has been collected twice. */
  lemma {:induction false} PairsUpToDistinct(g: Adjacency, n: nat)
    requires WellKeyed(g) && DuplicateFree(g) && n <= |g.order|
    ensures DistinctMembers(PairsUpTo(g, n))
  {
    if n > 0 {
      PairsUpToDistinct(g, n - 1);
      PairsUpToMembers(g, n - 1);
      var src := g.order[n - 1];
      var prev := PairsUpTo(g, n - 1);
      var next := PairsFrom(src, g.lists[src], g.order[..n - 1]);
      PairsFromDistinct(src, g.lists[src], g.order[..n - 1]);
      PairsFromMembers(src, g.lists[src], g.order[..n - 1]);
      IndexOfDistinct(g.order, n - 1);
      forall p, q | p in prev && q in next ensures !SameMember(p, q) {
        var i := IndexOf(g.order, p.0);
        assert g.order[i] == p.0 && i < n - 1;
        assert q.1 !in g.order[..n - 1];
        assert p.0 != q.0;
        assert p.0 in g.order[..n - 1];
      }
      DistinctMembersAppend(prev, next);
    }
  }

  /** The pairs collected after `n` joints: from a reviewed joint to a neighbour
      that was not reviewed before it. */
  lemma {:induction false} PairsUpToMembers(g: Adjacency, n: nat)
    requires WellKeyed(g) && n <= |g.order|
    ensures forall p :: p in PairsUpTo(g, n) <==>
      p.0 in g.order[..n] && p.1 in g.lists[p.0] && p.1 !in g.order[..IndexOf(g.order, p.0)]
  {
    if n > 0 {
      PairsUpToMembers(g, n - 1);
      var src := g.order[n - 1];
      PairsFromMembers(src, g.lists[src], g.order[..n - 1]);
      IndexOfDistinct(g.order, n - 1);
      assert g.order[..n] == g.order[..n - 1] + [src];
      assert src !in g.order[..n - 1];
    }
  }

  /** `getAllMembers` on an undirected graph lists every member exactly once:
      each pair is a member, every member appears in one orientation, and no
      member appears twice. */
  lemma MemberPairsExact(g: Adjacency)
    requires Undirected(g)
    ensures forall p :: p in MemberPairs(g) ==> p.0 in g.lists && p.1 in g.lists[p.0]
    ensures forall a, b :: a in g.lists && b in g.lists[a] ==> (a, b) in MemberPairs(g) || (b, a) in MemberPairs(g)
    ensures DistinctMembers(MemberPairs(g))
  {
    var ps := MemberPairs(g);
    PairsUpToMembers(g, |g.order|);
    PairsUpToDistinct(g, |g.order|);
    assert g.order[..|g.order|] == g.order;
    forall a, b | a in g.lists && b in g.lists[a] ensures (a, b) in ps || (b, a) in ps {
      var i := IndexOf(g.order, a);
      var j := IndexOf(g.order, b);
      if b in g.order[..i] {
        assert j < i;
        assert a in g.lists[b];
        assert a !in g.order[..j] by {
          forall m | 0 <= m < j ensures g.order[m] != a {
            assert g.order[i] == a && m < i;
          }
        }
        assert (b, a) in ps;
      } else {
        assert (a, b) in ps;
      }
    }
  }

  // ---------------------------------------------------------------------
  // Properties of single operations

  /** `addJoint` keeps a registered joint's list, gives a new joint an empty
      list at the end of the key order, and doing it twice is doing it once. */
  lemma AddJointIdempotent(g: Adjacency, id: JointId)
    ensures id in g.lists ==> WithJoint(g, id) == g
    ensures id !in g.lists ==> WithJoint(g, id).lists[id] == [] && WithJoint(g, id).order == g.order + [id]
    ensures WithJoint(WithJoint(g, id), id) == WithJoint(g, id)
  {
  }

  /** After `addAdjacent(a, b)` on a set-like list, `b` occurs in it exactly once. */
  lemma AddAdjacentOnce(g: Adjacency, a: JointId, b: JointId)
    requires a in g.lists && NoDup(g.lists[a])
    ensures multiset(WithAdjacent(g, a, b).lists[a])[b] == 1
  {
    OccursOnce(WithAdjacent(g, a, b).lists[a], b);
  }

  /** In a list without repeats, a member occurs exactly once. */
  lemma {:induction false} OccursOnce(s: seq<JointId>, x: JointId)
    requires NoDup(s) && x in s
    ensures multiset(s)[x] == 1
  {
    assert s == [s[0]] + s[1..];
    if s[0] == x {
      assert x !in s[1..];
    } else {
      OccursOnce(s[1..], x);
    }
  }

  /** `removeMember` undoes `addMember` when the two joints were not linked
      before: only the joint registrations remain. */
  lemma RemoveMemberUndoesAddMember(g: Adjacency, a: JointId, b: JointId)
    requires a in g.lists ==> b !in g.lists[a]
    requires b in g.lists ==> a !in g.lists[b]
    ensures WithoutMember(WithMember(g, a, b), a, b) == WithJoint(WithJoint(g, a), b)
  {
    var g1 := WithJoint(WithJoint(g, a), b);
    if a == b {
      UnlinkUndoesSelfLink(g1, a);
    } else {
      UnlinkUndoesLink(g1, a, b);
    }
  }

  lemma UnlinkUndoesSelfLink(g1: Adjacency, a: JointId)
    requires a in g1.lists && a !in g1.lists[a]
    ensures WithoutAdjacent(WithoutAdjacent(WithAdjacent(WithAdjacent(g1, a, a), a, a), a, a), a, a) == g1
  {
    var la := g1.lists[a];
    RemoveFirstAppended(la, a);
    RemoveFirstAbsent(la, a);
    var g2 := g1.(lists := g1.lists[a := la + [a]]);
    assert WithAdjacent(g1, a, a) == g2;
    assert WithAdjacent(g2, a, a) == g2;
    assert WithoutAdjacent(g2, a, a) == g1;
  }

  lemma UnlinkUndoesLink(g1: Adjacency, a: JointId, b: JointId)
    requires a in g1.lists && b in g1.lists && a != b
    requires b !in g1.lists[a] && a !in g1.lists[b]
    ensures WithoutAdjacent(WithoutAdjacent(WithAdjacent(WithAdjacent(g1, a, b), b, a), a, b), b, a) == g1
  {
    var la, lb := g1.lists[a], g1.lists[b];
    RemoveFirstAppended(la, b);
    RemoveFirstAppended(lb, a);
    var g2 := g1.(lists := g1.lists[a := la + [b]]);
    assert WithAdjacent(g1, a, b) == g2;
    var g3 := g2.(lists := g2.lists[b := lb + [a]]);
    assert WithAdjacent(g2, b, a) == g3;
    var g4 := g3.(lists := g3.lists[a := la]);
    assert WithoutAdjacent(g3, a, b) == g4;
    var g5 := g4.(lists := g4.lists[b := lb]);
    assert WithoutAdjacent(g4, b, a) == g5;
    RestoreTwo(g1.lists, a, b, la + [b], lb + [a]);
  }

  lemma RestoreTwo<K, V>(m: map<K, V>, a: K, b: K, va: V, vb: V)
    requires a in m && b in m && a != b
    ensures m[a := va][b := vb][a := m[a]][b := m[b]] == m
  {
  }

  /** On a fresh graph, `addMember(a, b)` then `removeMember(a, b)` leaves
      both joints registered with empty lists. */
  lemma AddThenRemoveOnFreshGraph(a: JointId, b: JointId)
    ensures WithoutMember(WithMember(Empty, a, b), a, b)
         == Adjacency(if a == b then [a] else [a, b], map[a := [], b := []])
  {
    RemoveMemberUndoesAddMember(Empty, a, b);
    FreshJoints(a, b);
  }

  /** Registering `a` then `b` on a fresh graph. */
  lemma FreshJoints(a: JointId, b: JointId)
    ensures WithJoint(WithJoint(Empty, a), b)
         == Adjacency(if a == b then [a] else [a, b], map[a := [], b := []])
  {
    var ga := WithJoint(Empty, a);
    assert ga == Adjacency([a], map[a := []]);
    if a == b {
      assert WithJoint(ga, b) == ga;
    }
  }

  // ---------------------------------------------------------------------
  // The mutable object

  /** The state of the `removeJoint` loop after it has visited the first `i`
      keys: those lists have lost `id`, the others are untouched. */
  ghost predicate StrippedUpTo(ks: seq<JointId>, i: nat, lists0: map<JointId, seq<JointId>>,
                               lists: map<JointId, seq<JointId>>, id: JointId)
    requires i <= |ks|
  {
    && lists.Keys == lists0.Keys
    && forall k :: k in lists ==>
         lists[k] == if k in ks[..i] then RemoveFirst(lists0[k], id) else lists0[k]
  }

  lemma StrippedStep(ks: seq<JointId>, i: nat, lists0: map<JointId, seq<JointId>>,
                     lists: map<JointId, seq<JointId>>, id: JointId)
    requires i < |ks| && NoDup(ks) && ks[i] in lists0
    requires StrippedUpTo(ks, i, lists0, lists, id)
    ensures StrippedUpTo(ks, i + 1, lists0, lists[ks[i] := RemoveFirst(lists[ks[i]], id)], id)
  {
    assert ks[i] !in ks[..i];
    assert ks[..i + 1] == ks[..i] + [ks[i]];
  }

  /** The loop of `removeJoint`: every remaining adjacency list, visited in key
      order, loses its first occurrence of `id` by `indexOf` and `splice`. */
  method StripAll(ks: seq<JointId>, lists0: map<JointId, seq<JointId>>, id: JointId)
    returns (lists: map<JointId, seq<JointId>>)
    requires NoDup(ks) && forall k :: k in lists0 <==> k in ks
    ensures lists.Keys == lists0.Keys
    ensures forall k :: k in lists ==> lists[k] == RemoveFirst(lists0[k], id)
  {
    lists := lists0;
    var i := 0;
    while i < |ks|
      invariant 0 <= i <= |ks|
      invariant StrippedUpTo(ks, i, lists0, lists, id)
    {
      var adjacents := lists[ks[i]];
      var index := IndexOf(adjacents, id);
      StrippedStep(ks, i, lists0, lists, id);
      if index > -1 {
        SpliceIsRemoveFirst(adjacents, id, index);
        adjacents := adjacents[..index] + adjacents[index + 1..];
      } else {
        RemoveFirstAbsent(adjacents, id);
      }
      lists := lists[ks[i] := adjacents];
      i := i + 1;
    }
    assert ks[..i] == ks;
  }

  class MemberGraph {
    /** `Object.keys(this.graph)`, kept in insertion order. */
    var keys: seq<JointId>
    /** `this.graph`: each registered joint's neighbour list. */
    var graph: map<JointId, seq<JointId>>

    function Model(): Adjacency
      reads this
    {
      Adjacency(keys, graph)
    }

    /** The keys match the map, and every neighbour list is set-like. */
    ghost predicate Valid()
      reads this
    {
      WellKeyed(Model()) && DuplicateFree(Model())
    }

    constructor ()
      ensures Valid() && Model() == Empty
    {
      keys := [];
      graph := map[];
    }

    /** The `joints` getter: every registered id once, in insertion order. */
    function Joints(): (ids: seq<JointId>)
      reads this
      requires Valid()
      ensures NoDup(ids) && forall id :: id in ids <==> id in graph
    {
      keys
    }

    function HasJoint(id: JointId): (b: bool)
      reads this
      requires Valid()
      ensures b <==> id in graph
    {
      IndexOf(Joints(), id) > -1
    }

    /** `graph[jointOne]` is read without a guard, so `a` must be registered. */
    function HasAdjacent(a: JointId, b: JointId): (r: bool)
      reads this
      requires a in graph
      ensures r <==> b in graph[a]
    {
      IndexOf(graph[a], b) > -1
    }

    method AddJoint(id: JointId)
      requires Valid()
      modifies this
      ensures Valid() && Model() == WithJoint(old(Model()), id)
    {
      AddJointKeepsInvariants(Model(), id);
      if !HasJoint(id) {
        graph := graph[id := []];
        keys := keys + [id];
      }
    }

    method RemoveJoint(id: JointId)
      requires Valid()
      modifies this
      ensures Valid() && Model() == WithoutJoint(old(Model()), id)
    {
      ghost var g0 := Model();
      DeletedKeyWellKeyed(g0, id);
      var ks, rest := keys, graph;
      if HasJoint(id) {
        ks := RemoveFirst(ks, id);
        rest := rest - {id};
      }
      var lists := StripAll(ks, rest, id);
      WithoutJointSteps(g0, id, ks, lists);
      WithoutJointWellKeyed(g0, id);
      StrippedLists(g0, id);
      keys := ks;
      graph := lists;
    }

    method AddAdjacent(a: JointId, b: JointId)
      requires Valid() && a in graph
      modifies this
      ensures Valid() && Model() == WithAdjacent(old(Model()), a, b)
    {
      AdjacentOpsKeepSetLike(Model(), a, b);
      if !HasAdjacent(a, b) {
        graph := graph[a := graph[a] + [b]];
      }
    }

    method AddMember(a: JointId, b: JointId)
      requires Valid()
      modifies this
      ensures Valid() && Model() == WithMember(old(Model()), a, b)
    {
      AddJoint(a);
      AddJoint(b);
      AddAdjacent(a, b);
      AddAdjacent(b, a);
    }

    method RemoveAdjacent(a: JointId, b: JointId)
      requires Valid() && a in graph
      modifies this
      ensures Valid() && Model() == WithoutAdjacent(old(Model()), a, b)
    {
      AdjacentOpsKeepSetLike(Model(), a, b);
      if HasAdjacent(a, b) {
        var index := IndexOf(graph[a], b);
        SpliceIsRemoveFirst(graph[a], b, index);
        graph := graph[a := graph[a][..index] + graph[a][index + 1..]];
      } else {
        RemoveFirstAbsent(graph[a], b);
      }
    }

    method RemoveMember(a: JointId, b: JointId)
      requires Valid()
      modifies this
      ensures Valid() && Model() == WithoutMember(old(Model()), a, b)
    {
      AddJoint(a);
      AddJoint(b);
      RemoveAdjacent(a, b);
      RemoveAdjacent(b, a);
    }

    /** `getAllMembers`: walks the joints in key order, collecting
        `[jointId, adjacent]` for every adjacent not reviewed yet. */
    method GetAllMembers() returns (pairs: seq<(JointId, JointId)>)
      requires Valid()
      ensures pairs == MemberPairs(Model())
    {
      ghost var g := Model();
      var reviewed: seq<JointId> := [];
      pairs := [];
      var i := 0;
      while i < |keys|
        invariant 0 <= i <= |keys| && g == Model()
        invariant reviewed == keys[..i]
        invariant pairs == PairsUpTo(g, i)
      {
        var id := keys[i];
        var adjacents := graph[id];
        ghost var done := pairs;
        var j := 0;
        while j < |adjacents|
          invariant 0 <= j <= |adjacents|
          invariant pairs == done + PairsFrom(id, adjacents[..j], reviewed)
        {
          var adjacent := adjacents[j];
          assert adjacents[..j + 1] == adjacents[..j] + [adjacent];
          PairsFromSnoc(id, adjacents[..j], reviewed, adjacent);
          ghost var before := PairsFrom(id, adjacents[..j], reviewed);
          if IndexOf(reviewed, adjacent) < 0 {
            pairs := pairs + [(id, adjacent)];
            assert pairs == done + (before + [(id, adjacent)]);
          }
          j := j + 1;
        }
        assert adjacents[..j] == adjacents;
        assert keys[..i + 1] == keys[..i] + [id];
        reviewed := reviewed + [id];
        i := i + 1;
      }
      assert keys[..i] == keys;
    }
  }
}
