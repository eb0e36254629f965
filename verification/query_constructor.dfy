/**
  The query sent to the truss solver: joints, members and forces collected
  in three lists, plus the drawing separation. The first half states each
  operation on a query value; the class `QueryConstructor` is the mutable
  builder, and each of its methods is proved to move its state as the
  matching function says.
 */
module QueryConstructors {
  import opened JsValues

  /** `[id, location, isPin]`: the third field holds the joint type code. */
  datatype JointEntry = JointEntry(id: JsString, location: Vec, typeCode: int)

  /** `[id, mag, dir]`: a load on a joint, its direction in degrees. */
  datatype ForceEntry = ForceEntry(id: JsString, magnitude: real, direction: real)

  /** The builder's four fields as one value. */
  datatype Query = Query(joints: seq<JointEntry>, members: seq<Pair>, forces: seq<ForceEntry>, separation: Vec)

  /** A freshly constructed builder: three empty lists and separation `[1, 1]`. */
  const Fresh: Query := Query([], [], [], Vec(1.0, 1.0))

  /** `jointIds`: the ids of the joint entries, in order. */
  function Ids(js: seq<JointEntry>): seq<JsString> {
    seq(|js|, i requires 0 <= i < |js| => js[i].id)
  }

  /** `forces.map(force => force[0])`. */
  function ForceIds(fs: seq<ForceEntry>): seq<JsString> {
    seq(|fs|, i requires 0 <= i < |fs| => fs[i].id)
  }

  /** What the builder keeps true: joint ids are unique, every member joins
      two existing joints and is stored sorted, and each joint carries at
      most one force. */
  ghost predicate WellFormed(q: Query) {
    && NoDup(Ids(q.joints))
    && (forall m :: m in q.members ==> m.low in Ids(q.joints) && m.high in Ids(q.joints) && !Below(m.high, m.low))
    && NoDup(ForceIds(q.forces))
    && (forall f :: f in q.forces ==> f.id in Ids(q.joints))
  }

  /** `addJoint`: replaces the entry with the same id where it stands, or appends. */
  function Upsert(js: seq<JointEntry>, e: JointEntry): seq<JointEntry> {
    var index := IndexOf(Ids(js), e.id);
    if index > -1 then js[index := e] else js + [e]
  }

  function WithJoint(q: Query, id: JsString, location: Vec, typeCode: int): (r: Query)
    ensures JointEntry(id, location, typeCode) in r.joints
    ensures r.members == q.members && r.forces == q.forces && r.separation == q.separation
  {
    var e := JointEntry(id, location, typeCode);
    var index := IndexOf(Ids(q.joints), id);
    assert index > -1 ==> q.joints[index := e][index] == e;
    q.(joints := Upsert(q.joints, e))
  }

  /** `addMember`: appends the sorted pair when both ids are joints, else does nothing. */
  function WithMember(q: Query, a: JsString, b: JsString): (r: Query)
    ensures r.joints == q.joints && r.forces == q.forces && r.separation == q.separation
  {
    if a in Ids(q.joints) && b in Ids(q.joints) then q.(members := q.members + [SortedPair(a, b)]) else q
  }

  /** `addForce`: appends when `id` is a joint without a force yet, else does nothing. */
  function WithForce(q: Query, id: JsString, magnitude: real, direction: real): (r: Query)
    ensures r.joints == q.joints && r.members == q.members && r.separation == q.separation
  {
    if id in Ids(q.joints) && id !in ForceIds(q.forces) then q.(forces := q.forces + [ForceEntry(id, magnitude, direction)])
    else q
  }

  // ---------------------------------------------------------------------
  // Properties

  /** An existing id's entry is replaced at the same index and nothing else
      moves; a new id's entry is appended. */
  lemma UpsertPlacement(js: seq<JointEntry>, e: JointEntry)
    ensures e.id in Ids(js) ==>
      var index := IndexOf(Ids(js), e.id);
      && |Upsert(js, e)| == |js| && Upsert(js, e)[index] == e
      && forall k :: 0 <= k < |js| && k != index ==> Upsert(js, e)[k] == js[k]
    ensures e.id !in Ids(js) ==> Upsert(js, e) == js + [e]
  {
  }

  /** Upserting keeps joint ids unique and registers exactly one more id at most. */
  lemma {:induction false} UpsertKeepsIdsUnique(js: seq<JointEntry>, e: JointEntry)
    requires NoDup(Ids(js))
    ensures NoDup(Ids(Upsert(js, e)))
    ensures forall x :: x in Ids(Upsert(js, e)) <==> x in Ids(js) || x == e.id
  {
    var r := Upsert(js, e);
    var index := IndexOf(Ids(js), e.id);
    if index > -1 {
      assert Ids(r) == Ids(js);
    } else {
      assert Ids(r) == Ids(js) + [e.id];
    }
  }

  /** `addJoint` keeps the builder well formed and leaves members, forces and separation alone. */
  lemma WithJointKeepsWellFormed(q: Query, id: JsString, location: Vec, typeCode: int)
    requires WellFormed(q)
    ensures WellFormed(WithJoint(q, id, location, typeCode))
  {
    UpsertKeepsIdsUnique(q.joints, JointEntry(id, location, typeCode));
  }

  /** `addMember` adds one sorted member exactly when both ids are joints,
      changes nothing otherwise, and keeps the builder well formed. */
  lemma WithMemberSpec(q: Query, a: JsString, b: JsString)
    requires WellFormed(q)
    ensures WellFormed(WithMember(q, a, b))
    ensures |WithMember(q, a, b).members| == |q.members| + 1 <==> a in Ids(q.joints) && b in Ids(q.joints)
    ensures WithMember(q, a, b).members[..|q.members|] == q.members
    ensures a in Ids(q.joints) && b in Ids(q.joints) ==>
      WithMember(q, a, b).members[|q.members|] == SortedPair(a, b) == SortedPair(b, a)
    ensures !(a in Ids(q.joints) && b in Ids(q.joints)) ==> WithMember(q, a, b) == q
    ensures WithMember(q, a, b).joints == q.joints && WithMember(q, a, b).forces == q.forces
    ensures WithMember(q, a, b).separation == q.separation
  {
    SortedPairSymmetric(a, b);
  }

  /** After `addForce(id, …)` on a well-formed builder, no joint carries two
      forces, and `id` carries one exactly when it is a joint. A new force is
      appended after the earlier ones; a missing joint or a joint that already
      carries a force leaves the builder unchanged. */
  lemma WithForceSpec(q: Query, id: JsString, magnitude: real, direction: real)
    requires WellFormed(q)
    ensures WellFormed(WithForce(q, id, magnitude, direction))
    ensures id in ForceIds(WithForce(q, id, magnitude, direction).forces) <==> id in Ids(q.joints)
    ensures id in ForceIds(q.forces) ==> WithForce(q, id, magnitude, direction) == q
    ensures id !in Ids(q.joints) ==> WithForce(q, id, magnitude, direction) == q
    ensures id in Ids(q.joints) && id !in ForceIds(q.forces) ==>
      WithForce(q, id, magnitude, direction).forces == q.forces + [ForceEntry(id, magnitude, direction)]
    ensures WithForce(q, id, magnitude, direction).forces[..|q.forces|] == q.forces
    ensures WithForce(q, id, magnitude, direction).joints == q.joints
    ensures WithForce(q, id, magnitude, direction).members == q.members
    ensures WithForce(q, id, magnitude, direction).separation == q.separation
  {
    var r := WithForce(q, id, magnitude, direction);
    if id in Ids(q.joints) && id !in ForceIds(q.forces) {
      assert ForceIds(r.forces) == ForceIds(q.forces) + [id];
    }
  }

  // ---------------------------------------------------------------------
  // The mutable builder

  class QueryConstructor {
    var joints: seq<JointEntry>
    var members: seq<Pair>
    var forces: seq<ForceEntry>
    /** `seperation`: the horizontal and vertical spacing used to draw the result. */
    var separation: Vec

    function Model(): Query
      reads this
    {
      Query(joints, members, forces, separation)
    }

    ghost predicate Valid()
      reads this
    {
      WellFormed(Model())
    }

    constructor ()
      ensures Valid() && Model() == Fresh
    {
      joints := [];
      members := [];
      forces := [];
      separation := Vec(1.0, 1.0);
    }

    method SetSeparation(xSep: real, ySep: real)
      requires Valid()
      modifies this
      ensures Valid() && Model() == old(Model()).(separation := Vec(xSep, ySep))
    {
      separation := Vec(xSep, ySep);
    }

    /** `jointIndex`: the position of the joint with this id, or -1. */
    function JointIndex(id: JsString): (r: int)
      reads this
      ensures -1 <= r < |joints|
      ensures r == -1 <==> forall i :: 0 <= i < |joints| ==> joints[i].id != id
      ensures r >= 0 ==> joints[r].id == id && forall i :: 0 <= i < r ==> joints[i].id != id
    {
      var r := IndexOf(Ids(joints), id);
      assert forall i :: 0 <= i < |joints| ==> Ids(joints)[i] == joints[i].id;
      assert r >= 0 ==> forall i :: 0 <= i < r ==> Ids(joints)[..r][i] == joints[i].id;
      r
    }

    function HasJoint(id: JsString): (b: bool)
      reads this
      ensures b <==> exists i :: 0 <= i < |joints| && joints[i].id == id
      ensures b <==> id in Ids(joints)
    {
      var index := JointIndex(id);
      assert index == -1 ==> forall i :: 0 <= i < |joints| ==> joints[i].id != id;
      assert index > -1 ==> joints[index].id == id;
      index > -1
    }

    method AddJoint(id: JsString, location: Vec, typeCode: int)
      requires Valid()
      modifies this
      ensures Valid() && Model() == WithJoint(old(Model()), id, location, typeCode)
    {
      WithJointKeepsWellFormed(Model(), id, location, typeCode);
      var index := JointIndex(id);
      if index > -1 {
        joints := joints[index := JointEntry(id, location, typeCode)];
      } else {
        joints := joints + [JointEntry(id, location, typeCode)];
      }
    }

    method AddMember(idOne: JsString, idTwo: JsString)
      requires Valid()
      modifies this
      ensures Valid() && Model() == WithMember(old(Model()), idOne, idTwo)
    {
      WithMemberSpec(Model(), idOne, idTwo);
      var hasOne := JointIndex(idOne) > -1;
      var hasTwo := JointIndex(idTwo) > -1;
      if hasOne && hasTwo {
        members := members + [SortedPair(idOne, idTwo)];
      }
    }

    method AddForce(id: JsString, magnitude: real, direction: real)
      requires Valid()
      modifies this
      ensures Valid() && Model() == WithForce(old(Model()), id, magnitude, direction)
    {
      WithForceSpec(Model(), id, magnitude, direction);
      if JointIndex(id) > -1 && IndexOf(ForceIds(forces), id) == -1 {
        forces := forces + [ForceEntry(id, magnitude, direction)];
      }
    }
  }
}
