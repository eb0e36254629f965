/**
  The Warren truss generator: from a bridge's height, member length, bridge
  length, width and loads it builds the solver query for a Warren truss,
  `2n + 1` joints in a zig-zag between the bottom chord (y = 0) and the top
  chord (y = height), members from each joint to the next two, and a
  downward load on every interior bottom joint.
 */
module WarrenTruss {
  import opened JsValues
  import opened QueryConstructors

  /** The constructor's argument object. Lengths and loads are numbers. */
  datatype TrussParams = TrussParams(
    height: real, memberLength: real, bridgeLength: real,
    bridgeWidth: real, jointLoad: real, uniformLoad: real)

  /** The `Error` the constructor throws. */
  datatype GeneratorError = GeneratorError(message: string)

  const NotIntegerMessage: string := "Bridge Length / Member Length must be an integer value"

  /** `'A'.charCodeAt(0)`. */
  const FirstId: int := 65

  /** The direction of every generated load, in degrees. */
  const Downward: real := -90.0

  /** `Number.isInteger`. */
  predicate IsInteger(x: real) {
    x == x.Floor as real
  }

  /** `numSections = bridgeLength / memberLength`, when it is an integer; a
      zero member length gives an infinite or undefined ratio, which is not. */
  function SectionCount(p: TrussParams): (r: Option<int>)
    ensures r.Some? <==> p.memberLength != 0.0 && IsInteger(p.bridgeLength / p.memberLength)
    ensures r.Some? ==> r.value as real * p.memberLength == p.bridgeLength
  {
    if p.memberLength == 0.0 then None
    else
      var ratio := p.bridgeLength / p.memberLength;
      if IsInteger(ratio) then Some(ratio.Floor) else None
  }

  /** The load put on each loaded joint: the joint load, plus the uniform load
      over the tributary area `memberLength * bridgeWidth / 2` when the uniform
      load is non-zero. */
  function EffectiveLoad(p: TrussParams): (load: real)
    ensures p.uniformLoad == 0.0 ==> load == p.jointLoad
  {
    p.jointLoad + if p.uniformLoad != 0.0 then p.uniformLoad * (p.memberLength * p.bridgeWidth / 2.0) else 0.0
  }

  /** The fields the generator's loops read. */
  datatype Layout = Layout(height: real, memberLength: real, numNodes: int, xStart: real)

  function LayoutOf(p: TrussParams, numSections: int): Layout {
    Layout(p.height, p.memberLength, 2 * numSections + 1, -1.0 * p.bridgeLength / 2.0)
  }

  /** The id of joint `i`: `String.fromCharCode(firstId + i)`. */
  function IdOf(i: int): JsString {
    FromCharCode(FirstId + i)
  }

  /** The entry `addJoints` adds in round `i`. */
  function JointAt(l: Layout, i: nat): (e: JointEntry)
    ensures e.typeCode == 1 <==> i == 0 || i == l.numNodes - 1
    ensures e.location.y == 0.0 <==> i % 2 == 0 || l.height == 0.0
  {
    JointEntry(
      IdOf(i),
      Vec(l.xStart + i as real * l.memberLength / 2.0, if i % 2 == 1 then l.height else 0.0),
      if i == 0 || i == l.numNodes - 1 then 1 else 0)
  }

  /** The entries of all rounds of `addJoints`, in order. */
  function Entries(l: Layout): (es: seq<JointEntry>)
    ensures |es| == if l.numNodes < 0 then 0 else l.numNodes
  {
    seq(if l.numNodes < 0 then 0 else l.numNodes, i requires 0 <= i => JointAt(l, i))
  }

  /** Upserting a list of entries one after the other. */
  function UpsertAll(js: seq<JointEntry>, es: seq<JointEntry>): seq<JointEntry> {
    if es == [] then js else Upsert(UpsertAll(js, es[..|es| - 1]), es[|es| - 1])
  }

  lemma UpsertAllSnoc(js: seq<JointEntry>, es: seq<JointEntry>, i: nat)
    requires i < |es|
    ensures UpsertAll(js, es[..i + 1]) == Upsert(UpsertAll(js, es[..i]), es[i])
  {
    assert es[..i + 1][..i] == es[..i];
  }

  /** Round `i` of `addMembers`: link joint `i` to joint `i + 1` and to joint
      `i + 2`, each only if that joint exists. */
  function MemberRound(q: Query, i: int): (r: Query)
    ensures r.joints == q.joints && r.forces == q.forces && r.separation == q.separation
  {
    var id := IdOf(i);
    var q1 := if IdOf(i + 1) in Ids(q.joints) then WithMember(q, id, IdOf(i + 1)) else q;
    if IdOf(i + 2) in Ids(q1.joints) then WithMember(q1, id, IdOf(i + 2)) else q1
  }

  /** The first `k` rounds of `addMembers`. */
  function MemberRounds(q: Query, k: nat): Query {
    if k == 0 then q else MemberRound(MemberRounds(q, k - 1), k - 1)
  }

  /** The number of rounds of `addMembers`: `i` runs while `i < numNodes - 1`. */
  function MemberRoundCount(l: Layout): nat {
    if l.numNodes - 1 < 0 then 0 else l.numNodes - 1
  }

  /** `joints.slice(1, -1)`: every joint but the first and the last. */
  function Interior(js: seq<JointEntry>): (inner: seq<JointEntry>)
    ensures |inner| == if |js| <= 2 then 0 else |js| - 2
    ensures forall k :: 0 <= k < |inner| ==> inner[k] == js[k + 1]
  {
    if |js| <= 2 then [] else js[1..|js| - 1]
  }

  /** `addForces` over the given joints: a downward load on each joint at y = 0. */
  function ForcesOver(q: Query, js: seq<JointEntry>, load: real): Query {
    if js == [] then q
    else
      var q1 := ForcesOver(q, js[..|js| - 1], load);
      var joint := js[|js| - 1];
      if joint.location.y == 0.0 then WithForce(q1, joint.id, load, Downward) else q1
  }

  /** The query after `setSeperation` and `addJoints`, for `n` sections. */
  function Placed(p: TrussParams, n: int): Query {
    var q := Fresh.(separation := Vec(p.memberLength / 2.0, p.height));
    q.(joints := UpsertAll(q.joints, Entries(LayoutOf(p, n))))
  }

  /** The query after `addMembers` as well. */
  function Wired(p: TrussParams, n: int): Query {
    MemberRounds(Placed(p, n), MemberRoundCount(LayoutOf(p, n)))
  }

  /** The query after `addForces` as well: the whole result for `n` sections. */
  function Built(p: TrussParams, n: int): Query {
    var q := Wired(p, n);
    ForcesOver(q, Interior(q.joints), EffectiveLoad(p))
  }

  /** Everything the constructor does: the query it leaves, or the error it throws. */
  function Generated(p: TrussParams): (r: Result<Query, GeneratorError>)
    ensures r.Err? <==> SectionCount(p).None?
    ensures r.Err? ==> r.error.message == NotIntegerMessage
    ensures r.Ok? ==> r.value == Built(p, SectionCount(p).value)
  {
    match SectionCount(p)
    case None => Err(GeneratorError(NotIntegerMessage))
    case Some(n) => Ok(Built(p, n))
  }

  // ---------------------------------------------------------------------
  // The generator object

  /** `WarrenTrussConstructor`. It extends `QueryConstructor` in the source;
      here it holds one and drives it. */
  class WarrenTrussConstructor {
    const query: QueryConstructor
    const jointLoad: real
    const height: real
    const memberLength: real
    const numSections: int
    const numNodes: int
    const xStart: real

    function Shape(): Layout
      reads this
    {
      Layout(height, memberLength, numNodes, xStart)
    }

    /** The constructor after its integer check has passed. */
    constructor (p: TrussParams)
      requires SectionCount(p).Some?
      ensures fresh(query) && query.Valid()
      ensures numSections == SectionCount(p).value && numNodes == 2 * numSections + 1
      ensures jointLoad == EffectiveLoad(p) && Shape() == LayoutOf(p, numSections)
      ensures Generated(p) == Ok(query.Model())
    {
      var load := p.jointLoad;
      if p.uniformLoad != 0.0 {
        var tributaryArea := p.memberLength * p.bridgeWidth / 2.0;
        load := load + p.uniformLoad * tributaryArea;
      }
      jointLoad := load;
      height := p.height;
      memberLength := p.memberLength;
      numSections := SectionCount(p).value;
      numNodes := 2 * SectionCount(p).value + 1;
      xStart := -1.0 * p.bridgeLength / 2.0;
      query := new QueryConstructor();
      new;
      query.SetSeparation(p.memberLength / 2.0, p.height);
      AddJoints();
      AddMembers();
      AddForces();
    }

    /** `addJoints`: joint `i` is upserted as `JointAt(Shape(), i)`, whose
        id, position and type code are the ones the loop body computes. */
    method AddJoints()
      requires query.Valid()
      modifies query
      ensures query.Valid()
      ensures query.Model() == old(query.Model()).(joints := UpsertAll(old(query.joints), Entries(Shape())))
    {
      ghost var q0 := query.Model();
      var l := Shape();
      ghost var es := Entries(l);
      var i := 0;
      while i < numNodes
        invariant 0 <= i <= |es|
        invariant query.Valid()
        invariant query.Model() == q0.(joints := UpsertAll(q0.joints, es[..i]))
      {
        var joint := JointAt(l, i);
        UpsertAllSnoc(q0.joints, es, i);
        query.AddJoint(joint.id, joint.location, joint.typeCode);
        i := i + 1;
      }
      assert es[..i] == es;
    }

    /** `addMembers`: round `i` links joint `i` to the next two joints that exist. */
    method AddMembers()
      requires query.Valid()
      modifies query
      ensures query.Valid()
      ensures query.Model() == MemberRounds(old(query.Model()), MemberRoundCount(Shape()))
    {
      ghost var q0 := query.Model();
      var i := 0;
      while i < numNodes - 1
        invariant 0 <= i && (i <= numNodes - 1 || i == 0)
        invariant query.Valid()
        invariant query.Model() == MemberRounds(q0, i)
      {
        ghost var before := query.Model();
        var id := FromCharCode(FirstId + i);
        var next := FromCharCode(FirstId + i + 1);
        var nextnext := FromCharCode(FirstId + i + 2);
        if query.HasJoint(next) {
          query.AddMember(id, next);
        }
        ghost var mid := query.Model();
        assert mid == if IdOf(i + 1) in Ids(before.joints) then WithMember(before, IdOf(i), IdOf(i + 1)) else before;
        if query.HasJoint(nextnext) {
          query.AddMember(id, nextnext);
        }
        assert query.Model() == MemberRound(before, i) == MemberRounds(q0, i + 1);
        i := i + 1;
      }
    }

    method AddForces()
      requires query.Valid()
      modifies query
      ensures query.Valid()
      ensures query.Model() == ForcesOver(old(query.Model()), Interior(old(query.joints)), jointLoad)
    {
      ghost var q0 := query.Model();
      var all := query.joints;
      var interior := if |all| <= 2 then [] else all[1..|all| - 1];
      var k := 0;
      while k < |interior|
        invariant 0 <= k <= |interior|
        invariant query.Valid()
        invariant query.Model() == ForcesOver(q0, interior[..k], jointLoad)
      {
        var joint := interior[k];
        assert interior[..k + 1][..k] == interior[..k];
        if joint.location.y == 0.0 {
          query.AddForce(joint.id, jointLoad, Downward);
        }
        k := k + 1;
      }
      assert interior[..k] == interior;
    }
  }

  /** `new WarrenTrussConstructor(params)`: throws when the bridge length is
      not a whole number of member lengths, and otherwise builds the query. */
  method NewWarrenTruss(p: TrussParams) returns (r: Result<WarrenTrussConstructor, GeneratorError>)
    ensures r.Err? <==> SectionCount(p).None?
    ensures r.Err? ==> Generated(p) == Err(r.error)
    ensures r.Ok? ==> fresh(r.value) && fresh(r.value.query) && r.value.query.Valid()
    ensures r.Ok? ==> Generated(p) == Ok(r.value.query.Model())
  {
    if p.memberLength == 0.0 || !IsInteger(p.bridgeLength / p.memberLength) {
      return Err(GeneratorError(NotIntegerMessage));
    }
    var w := new WarrenTrussConstructor(p);
    return Ok(w);
  }
  // ---------------------------------------------------------------------
  // Properties of the generated query

  /** Upserting any entries keeps joint ids unique. */
  lemma {:induction false} UpsertAllKeepsIdsUnique(js: seq<JointEntry>, es: seq<JointEntry>)
    requires NoDup(Ids(js))
    ensures NoDup(Ids(UpsertAll(js, es)))
  {
    if es != [] {
      UpsertAllKeepsIdsUnique(js, es[..|es| - 1]);
      UpsertKeepsIdsUnique(UpsertAll(js, es[..|es| - 1]), es[|es| - 1]);
    }
  }

  /** `addMembers` touches only the members. */
  lemma {:induction false} MemberRoundsOnlyMembers(q: Query, k: nat)
    ensures MemberRounds(q, k) == q.(members := MemberRounds(q, k).members)
  {
    if k > 0 {
      MemberRoundsOnlyMembers(q, k - 1);
    }
  }

  /** `addForces` touches only the forces. */
  lemma {:induction false} ForcesOverOnlyForces(q: Query, js: seq<JointEntry>, load: real)
    ensures ForcesOver(q, js, load) == q.(forces := ForcesOver(q, js, load).forces)
  {
    if js != [] {
      ForcesOverOnlyForces(q, js[..|js| - 1], load);
    }
  }

  /** `addMembers` keeps the query well formed. */
  lemma {:induction false} MemberRoundsKeepWellFormed(q: Query, k: nat)
    requires WellFormed(q)
    ensures WellFormed(MemberRounds(q, k))
  {
    if k > 0 {
      var i := k - 1;
      var q0 := MemberRounds(q, i);
      MemberRoundsKeepWellFormed(q, i);
      WithMemberSpec(q0, IdOf(i), IdOf(i + 1));
      var q1 := if IdOf(i + 1) in Ids(q0.joints) then WithMember(q0, IdOf(i), IdOf(i + 1)) else q0;
      WithMemberSpec(q1, IdOf(i), IdOf(i + 2));
    }
  }

  /** `addForces` keeps the query well formed. */
  lemma {:induction false} ForcesOverKeepsWellFormed(q: Query, js: seq<JointEntry>, load: real)
    requires WellFormed(q)
    ensures WellFormed(ForcesOver(q, js, load))
  {
    if js != [] {
      var q1 := ForcesOver(q, js[..|js| - 1], load);
      ForcesOverKeepsWellFormed(q, js[..|js| - 1], load);
      WithForceSpec(q1, js[|js| - 1].id, load, Downward);
    }
  }

  /** Whatever the parameters, a generated query has unique joint ids, members
      between existing joints stored sorted, and at most one force per joint. */
  lemma GeneratedWellFormed(p: TrussParams)
    ensures Generated(p).Ok? <==> SectionCount(p).Some?
    ensures Generated(p).Ok? ==> WellFormed(Generated(p).value)
  {
    if SectionCount(p).Some? {
      var n := SectionCount(p).value;
      UpsertAllKeepsIdsUnique([], Entries(LayoutOf(p, n)));
      MemberRoundsKeepWellFormed(Placed(p, n), MemberRoundCount(LayoutOf(p, n)));
      var q := Wired(p, n);
      ForcesOverKeepsWellFormed(q, Interior(q.joints), EffectiveLoad(p));
    }
  }

  /** `numNodes` ids `'A' + i` (and one past them) stay below 2^16, so none wraps around. */
  predicate NoWrap(numNodes: int) {
    FirstId + numNodes < 0x1_0000
  }

  /** Entries with distinct ids are all appended by upserting them into an empty list. */
  lemma {:induction false} UpsertAllDistinct(es: seq<JointEntry>)
    requires NoDup(Ids(es))
    ensures UpsertAll([], es) == es
  {
    if es != [] {
      var init := es[..|es| - 1];
      assert Ids(init) == Ids(es)[..|es| - 1];
      UpsertAllDistinct(init);
      assert Ids(es)[|es| - 1] !in Ids(init);
      assert init + [es[|es| - 1]] == es;
    }
  }

  /** The layout's ids are `'A' + i`, pairwise distinct, and `'A' + j` is one of
      them exactly when `j < numNodes`. */
  lemma EntryIds(l: Layout)
    requires 0 <= l.numNodes && NoWrap(l.numNodes)
    ensures forall i :: 0 <= i < l.numNodes ==> Ids(Entries(l))[i] == IdOf(i) == [FirstId + i]
    ensures NoDup(Ids(Entries(l)))
    ensures forall j :: 0 <= j <= l.numNodes ==> (IdOf(j) in Ids(Entries(l)) <==> j < l.numNodes)
  {
    var ids := Ids(Entries(l));
    forall j | 0 <= j <= l.numNodes && IdOf(j) in ids
      ensures j < l.numNodes
    {
      var k :| 0 <= k < |ids| && ids[k] == IdOf(j);
      assert IdOf(k)[0] == FirstId + k;
    }
    forall j | 0 <= j < l.numNodes
      ensures IdOf(j) in ids
    {
      assert ids[j] == IdOf(j);
    }
  }

  /** After `addJoints`, the joints are exactly the layout's entries, in order. */
  lemma PlacedJoints(p: TrussParams, n: int)
    requires 0 <= n && NoWrap(2 * n + 1)
    ensures Placed(p, n).joints == Entries(LayoutOf(p, n))
  {
    EntryIds(LayoutOf(p, n));
    UpsertAllDistinct(Entries(LayoutOf(p, n)));
  }

  /** The stored member between joints `a` and `b`. */
  function Link(a: int, b: int): Pair {
    SortedPair(IdOf(a), IdOf(b))
  }

  /** The members round `i` adds when every joint below `numNodes` exists. */
  function RoundLinks(numNodes: int, i: int): seq<Pair> {
    (if i + 1 < numNodes then [Link(i, i + 1)] else []) + (if i + 2 < numNodes then [Link(i, i + 2)] else [])
  }

  /** The members of the first `k` rounds. */
  function Links(numNodes: int, k: nat): seq<Pair> {
    if k == 0 then [] else Links(numNodes, k - 1) + RoundLinks(numNodes, k - 1)
  }

  /** A link from a lower to a higher joint is stored in that order. */
  lemma LinkIsOrdered(a: int, b: int)
    requires 0 <= a < b && FirstId + b < 0x1_0000
    ensures Link(a, b) == Pair(IdOf(a), IdOf(b))
  {
    assert Below(IdOf(a), IdOf(b));
  }

  /** On joints `'A'` to `'A' + numNodes - 1`, the rounds of `addMembers` add exactly the links. */
  lemma {:induction false} MemberRoundsAreLinks(q: Query, numNodes: int, k: nat)
    requires k < numNodes && NoWrap(numNodes)
    requires forall j :: 0 <= j <= numNodes ==> (IdOf(j) in Ids(q.joints) <==> j < numNodes)
    ensures MemberRounds(q, k).members == q.members + Links(numNodes, k)
    ensures MemberRounds(q, k).joints == q.joints
  {
    if k > 0 {
      var i := k - 1;
      MemberRoundsAreLinks(q, numNodes, i);
      var q0 := MemberRounds(q, i);
      MemberRoundIsRoundLinks(q0, numNodes, i);
      assert MemberRounds(q, k) == MemberRound(q0, i);
      assert q.members + Links(numNodes, k) == (q.members + Links(numNodes, i)) + RoundLinks(numNodes, i);
    }
  }

  /** One round of `addMembers` on joints `'A'` to `'A' + numNodes - 1` adds its round's links. */
  lemma MemberRoundIsRoundLinks(q: Query, numNodes: int, i: nat)
    requires i + 1 < numNodes && NoWrap(numNodes)
    requires forall j :: 0 <= j <= numNodes ==> (IdOf(j) in Ids(q.joints) <==> j < numNodes)
    ensures MemberRound(q, i).members == q.members + RoundLinks(numNodes, i)
    ensures MemberRound(q, i).joints == q.joints
  {
    assert IdOf(i) in Ids(q.joints) && IdOf(i + 1) in Ids(q.joints);
    var q1 := WithMember(q, IdOf(i), IdOf(i + 1));
    assert q1.members == q.members + [Link(i, i + 1)];
    if i + 2 < numNodes {
      assert IdOf(i + 2) in Ids(q1.joints);
      assert RoundLinks(numNodes, i) == [Link(i, i + 1), Link(i, i + 2)];
    } else {
      assert IdOf(i + 2) !in Ids(q1.joints);
      assert RoundLinks(numNodes, i) == [Link(i, i + 1)];
    }
  }

  /** Round by round there are two links, except one in the last round. */
  lemma {:induction false} LinksCount(numNodes: int, k: nat)
    requires k < numNodes
    ensures |Links(numNodes, k)| == if k + 1 < numNodes || k == 0 then 2 * k else 2 * k - 1
  {
    if k > 0 {
      LinksCount(numNodes, k - 1);
    }
  }

  /** The links of the first `k` rounds join each joint `a < k` to `a + 1` and `a + 2`, where those exist. */
  lemma {:induction false} LinksMembers(numNodes: int, k: nat)
    ensures forall m :: m in Links(numNodes, k) <==>
      exists a, b :: 0 <= a < k && a < b <= a + 2 && b < numNodes && m == Link(a, b)
  {
    if k > 0 {
      var i := k - 1;
      LinksMembers(numNodes, i);
      forall m | m in Links(numNodes, k)
        ensures exists a, b :: 0 <= a < k && a < b <= a + 2 && b < numNodes && m == Link(a, b)
      {
        if m !in Links(numNodes, i) {
          assert m == Link(i, i + 1) || m == Link(i, i + 2);
        }
      }
      forall a, b | 0 <= a < k && a < b <= a + 2 && b < numNodes
        ensures Link(a, b) in Links(numNodes, k)
      {
        if a < i {
          assert Link(a, b) in Links(numNodes, i);
        } else {
          assert Link(a, b) in RoundLinks(numNodes, i);
        }
      }
    }
  }

  /** No member is generated twice. */
  lemma {:induction false} LinksDistinct(numNodes: int, k: nat)
    requires NoWrap(numNodes)
    ensures NoDup(Links(numNodes, k))
  {
    if k > 0 {
      var i := k - 1;
      LinksDistinct(numNodes, i);
      LinksMembers(numNodes, i);
      var earlier, round := Links(numNodes, i), RoundLinks(numNodes, i);
      forall m | m in round
        ensures m.low == IdOf(i) && m !in earlier
      {
        var b := if m == Link(i, i + 1) && i + 1 < numNodes then i + 1 else i + 2;
        LinkIsOrdered(i, b);
        if m in earlier {
          var a, c :| 0 <= a < i && a < c <= a + 2 && c < numNodes && m == Link(a, c);
          LinkIsOrdered(a, c);
        }
      }
      if i + 2 < numNodes {
        LinkIsOrdered(i, i + 1);
        LinkIsOrdered(i, i + 2);
        assert IdOf(i + 1) != IdOf(i + 2);
      }
      NoDupConcat(earlier, round);
    }
  }

  /** After `addMembers` on the layout's joints, the members are exactly the links;
      joints, separation and the empty force list are as `addJoints` left them. */
  lemma WiredIsLinks(p: TrussParams, n: int)
    requires 0 <= n && NoWrap(2 * n + 1)
    ensures Wired(p, n) == Placed(p, n).(members := Links(2 * n + 1, 2 * n))
    ensures Placed(p, n) == Query(Entries(LayoutOf(p, n)), [], [], Vec(p.memberLength / 2.0, p.height))
  {
    PlacedJoints(p, n);
    EntryIds(LayoutOf(p, n));
    MemberRoundsAreLinks(Placed(p, n), 2 * n + 1, 2 * n);
    MemberRoundsOnlyMembers(Placed(p, n), 2 * n);
  }

  /** The layout's joints: `2n + 1` of them, joint `i` with id `'A' + i`,
      x coordinate `-bridgeLength / 2 + i * memberLength / 2`, on the bottom
      chord for even `i` and the top chord for odd `i`, type code 1 exactly
      at the two ends. */
  lemma LayoutJoints(p: TrussParams, n: int)
    requires 0 <= n && NoWrap(2 * n + 1)
    ensures var js := Entries(LayoutOf(p, n));
      && |js| == 2 * n + 1
      && NoDup(Ids(js))
      && forall i :: 0 <= i < |js| ==>
        && js[i].id == IdOf(i) == [FirstId + i]
        && js[i].location.x == -1.0 * p.bridgeLength / 2.0 + i as real * p.memberLength / 2.0
        && js[i].location.y == (if i % 2 == 1 then p.height else 0.0)
        && js[i].typeCode == (if i == 0 || i == 2 * n then 1 else 0)
  {
    EntryIds(LayoutOf(p, n));
  }

  /** The generated query holds the layout's joints, in order, and the
      separation `[memberLength / 2, height]`. */
  lemma BuiltJoints(p: TrussParams, n: int)
    requires 0 <= n && NoWrap(2 * n + 1)
    ensures Built(p, n).joints == Entries(LayoutOf(p, n))
    ensures Built(p, n).separation == Vec(p.memberLength / 2.0, p.height)
  {
    WiredIsLinks(p, n);
    var q := Wired(p, n);
    ForcesOverOnlyForces(q, Interior(q.joints), EffectiveLoad(p));
  }

  /** The members of a Warren truss on `numNodes` joints: joint `a` is linked
      to `a + 1` and `a + 2` where those exist, each link stored low id first
      and none twice, `2 * numNodes - 3` in all (none for a single joint). */
  lemma WarrenLinks(numNodes: int)
    requires 1 <= numNodes && NoWrap(numNodes)
    ensures var ms := Links(numNodes, numNodes - 1);
      && |ms| == (if numNodes == 1 then 0 else 2 * numNodes - 3)
      && NoDup(ms)
      && forall m :: m in ms <==>
        exists a, b :: 0 <= a < b <= a + 2 && b < numNodes && m == Pair(IdOf(a), IdOf(b))
  {
    LinksCount(numNodes, numNodes - 1);
    LinksDistinct(numNodes, numNodes - 1);
    LinksMembers(numNodes, numNodes - 1);
    forall a, b | 0 <= a < b <= a + 2 && b < numNodes
      ensures Link(a, b) == Pair(IdOf(a), IdOf(b))
    {
      LinkIsOrdered(a, b);
    }
  }

  /** The generated query's members are the Warren links on its `2n + 1` joints. */
  lemma BuiltMembers(p: TrussParams, n: int)
    requires 0 <= n && NoWrap(2 * n + 1)
    ensures Built(p, n).members == Links(2 * n + 1, 2 * n)
  {
    WiredIsLinks(p, n);
    var q := Wired(p, n);
    ForcesOverOnlyForces(q, Interior(q.joints), EffectiveLoad(p));
  }

  /** The forces `addForces` puts on joints with distinct ids in a query
      without forces: one downward load per joint at y = 0, in order. */
  function Loaded(js: seq<JointEntry>, load: real): seq<ForceEntry> {
    if js == [] then []
    else
      var joint := js[|js| - 1];
      Loaded(js[..|js| - 1], load) + if joint.location.y == 0.0 then [ForceEntry(joint.id, load, Downward)] else []
  }

  /** A force is loaded exactly on a joint at y = 0, with the given load, pointing down. */
  lemma {:induction false} LoadedMembers(js: seq<JointEntry>, load: real)
    ensures forall f :: f in Loaded(js, load) <==>
      exists t :: 0 <= t < |js| && js[t].location.y == 0.0 && f == ForceEntry(js[t].id, load, Downward)
  {
    if js != [] {
      var init := js[..|js| - 1];
      LoadedMembers(init, load);
      forall f | f in Loaded(js, load)
        ensures exists t :: 0 <= t < |js| && js[t].location.y == 0.0 && f == ForceEntry(js[t].id, load, Downward)
      {
        if f in Loaded(init, load) {
          var t :| 0 <= t < |init| && init[t].location.y == 0.0 && f == ForceEntry(init[t].id, load, Downward);
          assert js[t] == init[t];
        } else {
          assert js[|js| - 1].location.y == 0.0 && f == ForceEntry(js[|js| - 1].id, load, Downward);
        }
      }
      forall t | 0 <= t < |js| && js[t].location.y == 0.0
        ensures ForceEntry(js[t].id, load, Downward) in Loaded(js, load)
      {
        if t < |init| {
          assert init[t] == js[t];
        }
      }
    }
  }

  /** On joints with distinct ids that are all in a query without forces,
      `addForces` adds exactly the loaded forces. */
  lemma {:induction false} ForcesOverLoaded(q: Query, js: seq<JointEntry>, load: real)
    requires q.forces == [] && NoDup(Ids(js))
    requires forall t :: 0 <= t < |js| ==> js[t].id in Ids(q.joints)
    ensures ForcesOver(q, js, load) == q.(forces := Loaded(js, load))
  {
    if js != [] {
      var init, last := js[..|js| - 1], js[|js| - 1];
      assert Ids(init) == Ids(js)[..|js| - 1];
      ForcesOverLoaded(q, init, load);
      LoadedMembers(init, load);
      var loaded := Loaded(init, load);
      forall x | x in ForceIds(loaded)
        ensures x != last.id
      {
        var u :| 0 <= u < |loaded| && ForceIds(loaded)[u] == x;
        assert loaded[u] in loaded;
        var t :| 0 <= t < |init| && init[t].location.y == 0.0 && loaded[u] == ForceEntry(init[t].id, load, Downward);
        assert Ids(js)[t] == x && Ids(js)[|js| - 1] == last.id;
      }
      assert last.id in Ids(q.joints);
    }
  }

  /** Along a zig-zag starting on the top chord (height not zero), every second
      joint is loaded. */
  lemma {:induction false} LoadedCount(js: seq<JointEntry>, load: real, height: real)
    requires height != 0.0
    requires forall t :: 0 <= t < |js| ==> js[t].location.y == if t % 2 == 0 then height else 0.0
    ensures |Loaded(js, load)| == |js| / 2
  {
    if js != [] {
      LoadedCount(js[..|js| - 1], load, height);
    }
  }

  /** The interior joints of `n >= 1` sections: `2n - 1` of them, interior
      joint `t` being joint `t + 1`, so on the top chord for even `t`. */
  lemma InteriorShape(p: TrussParams, n: int)
    requires 1 <= n
    ensures var inner := Interior(Entries(LayoutOf(p, n)));
      && |inner| == 2 * n - 1
      && forall t :: 0 <= t < |inner| ==>
        inner[t].id == IdOf(t + 1) && inner[t].location.y == if t % 2 == 0 then p.height else 0.0
  {
    var js := Entries(LayoutOf(p, n));
    assert forall t :: 0 <= t < |Interior(js)| ==> Interior(js)[t] == js[t + 1];
  }

  /** The interior joints of a truss with `n >= 1` sections and non-zero
      height: exactly the `n - 1` interior bottom-chord joints, the even ones,
      carry the load, pointing down. */
  lemma InteriorLoads(p: TrussParams, n: int)
    requires 1 <= n && p.height != 0.0
    ensures var fs := Loaded(Interior(Entries(LayoutOf(p, n))), EffectiveLoad(p));
      && |fs| == n - 1
      && forall f :: f in fs <==>
        exists j :: 0 < j < 2 * n && j % 2 == 0 && f == ForceEntry(IdOf(j), EffectiveLoad(p), Downward)
  {
    var load := EffectiveLoad(p);
    var inner := Interior(Entries(LayoutOf(p, n)));
    InteriorShape(p, n);
    LoadedCount(inner, load, p.height);
    LoadedMembers(inner, load);
    var fs := Loaded(inner, load);
    forall f | f in fs
      ensures exists j :: 0 < j < 2 * n && j % 2 == 0 && f == ForceEntry(IdOf(j), load, Downward)
    {
      var t :| 0 <= t < |inner| && inner[t].location.y == 0.0 && f == ForceEntry(inner[t].id, load, Downward);
      assert f == ForceEntry(IdOf(t + 1), load, Downward);
    }
    forall j | 0 < j < 2 * n && j % 2 == 0
      ensures ForceEntry(IdOf(j), load, Downward) in fs
    {
      assert inner[j - 1].id == IdOf(j);
    }
  }

  /** The interior of joints with distinct ids has distinct ids, all among the joints'. */
  lemma InteriorIds(js: seq<JointEntry>)
    requires NoDup(Ids(js))
    ensures NoDup(Ids(Interior(js)))
    ensures forall t :: 0 <= t < |Interior(js)| ==> Interior(js)[t].id in Ids(js)
  {
    var inner := Interior(js);
    if |js| > 2 {
      assert Ids(inner) == Ids(js)[1..|js| - 1];
      assert forall t :: 0 <= t < |inner| ==> inner[t].id == Ids(js)[t + 1];
    }
  }

  /** The generated query's forces are the loads on its interior joints. */
  lemma BuiltForces(p: TrussParams, n: int)
    requires 0 <= n && NoWrap(2 * n + 1)
    ensures Built(p, n).forces == Loaded(Interior(Entries(LayoutOf(p, n))), EffectiveLoad(p))
  {
    WiredIsLinks(p, n);
    var q := Wired(p, n);
    var js := Entries(LayoutOf(p, n));
    EntryIds(LayoutOf(p, n));
    InteriorIds(js);
    ForcesOverLoaded(q, Interior(js), EffectiveLoad(p));
  }

  /** A bridge of 10 made of members of 2, with a height: 11 joints, 19
      members and 4 loaded joints, `B`, `D`, ... carrying nothing and the
      bottom chord's interior `C`, `E`, `G`, `I` carrying the joint load. */
  lemma TenByTwo(height: real, width: real, load: real)
    requires height != 0.0
    ensures var g := Generated(TrussParams(height, 2.0, 10.0, width, load, 0.0));
      && g.Ok?
      && |g.value.joints| == 11
      && |g.value.members| == 19
      && |g.value.forces| == 4
      && ForceEntry(IdOf(2), load, Downward) in g.value.forces
      && ForceEntry(IdOf(1), load, Downward) !in g.value.forces
  {
    var p := TrussParams(height, 2.0, 10.0, width, load, 0.0);
    assert SectionCount(p) == Some(5);
    BuiltJoints(p, 5);
    WarrenLinks(11);
    BuiltMembers(p, 5);
    InteriorLoads(p, 5);
    BuiltForces(p, 5);
    forall j | 0 < j < 10 && j % 2 == 0
      ensures IdOf(j) != IdOf(1)
    {
      assert IdOf(j)[0] != IdOf(1)[0];
    }
  }

  /** A bridge of 7 with members of 2 is rejected with the constructor's message. */
  lemma SevenByTwoThrows(height: real, width: real, load: real, uniform: real)
    ensures Generated(TrussParams(height, 2.0, 7.0, width, load, uniform)) == Err(GeneratorError(NotIntegerMessage))
  {
    assert !IsInteger(7.0 / 2.0) by {
      assert (7.0 / 2.0).Floor == 3;
    }
  }

  /** With no sections the truss is a single joint, and with a negative
      number the loops do not run: no members and no forces either way. */
  lemma DegenerateBuilt(p: TrussParams, n: int)
    requires n <= 0
    ensures |Built(p, n).joints| == (if n == 0 then 1 else 0)
    ensures Built(p, n).members == [] && Built(p, n).forces == []
  {
    var l := LayoutOf(p, n);
    var q := Placed(p, n);
    if n == 0 {
      assert Entries(l) == [JointAt(l, 0)];
      assert UpsertAll([], Entries(l)) == [JointAt(l, 0)];
    }
    assert MemberRounds(q, MemberRoundCount(l)) == q;
  }
}
