/**
  The editor's reversible actions: immutable records that each describe one
  change to the scene. A constructor checks that every parameter is set and
  throws `MalformedActionError` otherwise; `reverse()` builds the action
  that undoes the original.
 */
module Actions {
  import opened JsValues

  /** A parameter as a JavaScript caller passes it: left out (`undefined`),
      explicitly `null`, or a value. Both of the first two are `== null`,
      but only a left-out parameter picks up a default. */
  datatype Arg<T> = Undefined | Null | Given(value: T)

  /** The parameter after JavaScript default-parameter substitution. */
  function WithDefault<T>(a: Arg<T>, default: T): (r: Arg<T>)
    ensures r.Given? <==> a.Given? || a.Undefined?
    ensures a.Given? ==> r == a
    ensures a.Undefined? ==> r == Given(default)
  {
    if a.Undefined? then Given(default) else a
  }

  /** `jointType`: the two kinds of joint the editor places. */
  datatype JointType = Pin | Floating

  datatype Action =
    | AddJoint(point: Vec, id: JsString, kind: JointType)
    | RemoveJoint(point: Vec, id: JsString, kind: JointType)
    | MoveJoint(displacement: Vec, id: JsString)
    | SetJointType(id: JsString, oldType: JointType, newType: JointType)
    | SetJointId(oldId: JsString, newId: JsString)
    | AddMember(jointOne: JsString, jointTwo: JsString, linArea: real)
    | RemoveMember(jointOne: JsString, jointTwo: JsString, linArea: real)
    | SetMemberLinearArea(jointOne: JsString, jointTwo: JsString, oldLinArea: real, newLinArea: real)
    | SelectJoint(ids: seq<JsString>)
    | DeselectJoint(ids: seq<JsString>)

  /** `MalformedActionError`, carrying the name of the action class that refused its parameters. */
  datatype MalformedActionError = MalformedActionError(action: string)

  const MessageSuffix: string := " must have all parameters set"

  /** The error's message text: the refusing class's name, then a fixed suffix. */
  function Message(e: MalformedActionError): string {
    e.action + MessageSuffix
  }

  /** The message names the refusing class: two errors carry the same message
      exactly when they come from the same class. */
  lemma MessageIdentifiesAction(e1: MalformedActionError, e2: MalformedActionError)
    ensures Message(e1) == Message(e2) <==> e1 == e2
  {
    if Message(e1) == Message(e2) {
      var n := |e1.action|;
      assert |e2.action| == n;
      assert e1.action == Message(e1)[..n];
      assert e2.action == Message(e2)[..n];
    }
  }

  type Built = Result<Action, MalformedActionError>

  // ---------------------------------------------------------------------
  // Constructors: each throws exactly when one of its parameters is `== null`
  // after default substitution, and otherwise stores them unchanged.

  function NewAddJoint(x: Arg<real>, y: Arg<real>, id: Arg<JsString>, kind: Arg<JointType>): (r: Built)
    ensures r.Ok? <==> x.Given? && y.Given? && id.Given? && !kind.Null?
    ensures r.Ok? ==> r.value.AddJoint? && r.value.point == Vec(x.value, y.value) && r.value.id == id.value
    ensures r.Ok? ==> r.value.kind == if kind.Given? then kind.value else Floating
    ensures r.Err? ==> r.error.action == "AddJoint"
  {
    var k := WithDefault(kind, Floating);
    if x.Given? && y.Given? && id.Given? && k.Given? then Ok(AddJoint(Vec(x.value, y.value), id.value, k.value))
    else Err(MalformedActionError("AddJoint"))
  }

  function NewRemoveJoint(x: Arg<real>, y: Arg<real>, id: Arg<JsString>, kind: Arg<JointType>): (r: Built)
    ensures r.Ok? <==> x.Given? && y.Given? && id.Given? && !kind.Null?
    ensures r.Ok? ==> r.value.RemoveJoint? && r.value.point == Vec(x.value, y.value) && r.value.id == id.value
    ensures r.Ok? ==> r.value.kind == if kind.Given? then kind.value else Floating
    ensures r.Err? ==> r.error.action == "RemoveJoint"
  {
    var k := WithDefault(kind, Floating);
    if x.Given? && y.Given? && id.Given? && k.Given? then Ok(RemoveJoint(Vec(x.value, y.value), id.value, k.value))
    else Err(MalformedActionError("RemoveJoint"))
  }

  function NewMoveJoint(dx: Arg<real>, dy: Arg<real>, id: Arg<JsString>): (r: Built)
    ensures r.Ok? <==> dx.Given? && dy.Given? && id.Given?
    ensures r.Ok? ==> r == Ok(MoveJoint(Vec(dx.value, dy.value), id.value))
    ensures r.Err? ==> r.error.action == "MoveJoint"
  {
    if dx.Given? && dy.Given? && id.Given? then Ok(MoveJoint(Vec(dx.value, dy.value), id.value))
    else Err(MalformedActionError("MoveJoint"))
  }

  function NewSetJointType(id: Arg<JsString>, oldType: Arg<JointType>, newType: Arg<JointType>): (r: Built)
    ensures r.Ok? <==> id.Given? && oldType.Given? && newType.Given?
    ensures r.Ok? ==> r == Ok(SetJointType(id.value, oldType.value, newType.value))
    ensures r.Err? ==> r.error.action == "SetJointType"
  {
    if id.Given? && oldType.Given? && newType.Given? then Ok(SetJointType(id.value, oldType.value, newType.value))
    else Err(MalformedActionError("SetJointType"))
  }

  /** The error names the class through `this.constructor.name`, which is `SetJointId`. */
  function NewSetJointId(oldId: Arg<JsString>, newId: Arg<JsString>): (r: Built)
    ensures r.Ok? <==> oldId.Given? && newId.Given?
    ensures r.Ok? ==> r == Ok(SetJointId(oldId.value, newId.value))
    ensures r.Err? ==> r.error.action == "SetJointId"
  {
    if oldId.Given? && newId.Given? then Ok(SetJointId(oldId.value, newId.value))
    else Err(MalformedActionError("SetJointId"))
  }

  function NewAddMember(jointOne: Arg<JsString>, jointTwo: Arg<JsString>, linArea: Arg<real>): (r: Built)
    ensures r.Ok? <==> jointOne.Given? && jointTwo.Given? && !linArea.Null?
    ensures r.Ok? ==> r.value.AddMember? && r.value.jointOne == jointOne.value && r.value.jointTwo == jointTwo.value
    ensures r.Ok? ==> r.value.linArea == if linArea.Given? then linArea.value else 0.0
    ensures r.Err? ==> r.error.action == "AddMember"
  {
    var area := WithDefault(linArea, 0.0);
    if jointOne.Given? && jointTwo.Given? && area.Given? then Ok(AddMember(jointOne.value, jointTwo.value, area.value))
    else Err(MalformedActionError("AddMember"))
  }

  function NewRemoveMember(jointOne: Arg<JsString>, jointTwo: Arg<JsString>, linArea: Arg<real>): (r: Built)
    ensures r.Ok? <==> jointOne.Given? && jointTwo.Given? && !linArea.Null?
    ensures r.Ok? ==> r.value.RemoveMember? && r.value.jointOne == jointOne.value && r.value.jointTwo == jointTwo.value
    ensures r.Ok? ==> r.value.linArea == if linArea.Given? then linArea.value else 0.0
    ensures r.Err? ==> r.error.action == "RemoveMember"
  {
    var area := WithDefault(linArea, 0.0);
    if jointOne.Given? && jointTwo.Given? && area.Given? then Ok(RemoveMember(jointOne.value, jointTwo.value, area.value))
    else Err(MalformedActionError("RemoveMember"))
  }

  function NewSetMemberLinearArea(jointOne: Arg<JsString>, jointTwo: Arg<JsString>,
                                  oldLinArea: Arg<real>, newLinArea: Arg<real>): (r: Built)
    ensures r.Ok? <==> jointOne.Given? && jointTwo.Given? && oldLinArea.Given? && newLinArea.Given?
    ensures r.Ok? ==> r == Ok(SetMemberLinearArea(jointOne.value, jointTwo.value, oldLinArea.value, newLinArea.value))
    ensures r.Err? ==> r.error.action == "SetMemberLinearArea"
  {
    if jointOne.Given? && jointTwo.Given? && oldLinArea.Given? && newLinArea.Given? then
      Ok(SetMemberLinearArea(jointOne.value, jointTwo.value, oldLinArea.value, newLinArea.value))
    else Err(MalformedActionError("SetMemberLinearArea"))
  }

  /** The id list is copied (`[...ids]`); a copy of a sequence is the sequence. */
  function NewSelectJoint(ids: Arg<seq<JsString>>): (r: Built)
    ensures r.Ok? <==> ids.Given?
    ensures r.Ok? ==> r == Ok(SelectJoint(ids.value))
    ensures r.Err? ==> r.error.action == "SelectJoint"
  {
    if ids.Given? then Ok(SelectJoint(ids.value)) else Err(MalformedActionError("SelectJoint"))
  }

  function NewDeselectJoint(ids: Arg<seq<JsString>>): (r: Built)
    ensures r.Ok? <==> ids.Given?
    ensures r.Ok? ==> r == Ok(DeselectJoint(ids.value))
    ensures r.Err? ==> r.error.action == "DeselectJoint"
  {
    if ids.Given? then Ok(DeselectJoint(ids.value)) else Err(MalformedActionError("DeselectJoint"))
  }

  // ---------------------------------------------------------------------
  // reverse()

  /** `reverse()`: the action that undoes `a`, built through its class's
      constructor as `new` does. `SetJointId` inherits the base class's
      empty `reverse()`, which returns `undefined` (here `None`). */
  function Reverse(a: Action): (r: Option<Built>)
    ensures r.None? <==> a.SetJointId?
  {
    match a
    case AddJoint(p, id, k) => Some(NewRemoveJoint(Given(p.x), Given(p.y), Given(id), Given(k)))
    case RemoveJoint(p, id, k) => Some(NewAddJoint(Given(p.x), Given(p.y), Given(id), Given(k)))
    case MoveJoint(d, id) => Some(NewMoveJoint(Given(-1.0 * d.x), Given(-1.0 * d.y), Given(id)))
    case SetJointType(id, o, n) => Some(NewSetJointType(Given(id), Given(n), Given(o)))
    case SetJointId(_, _) => None
    case AddMember(j1, j2, area) => Some(NewRemoveMember(Given(j1), Given(j2), Given(area)))
    case RemoveMember(j1, j2, area) => Some(NewAddMember(Given(j1), Given(j2), Given(area)))
    case SetMemberLinearArea(j1, j2, o, n) => Some(NewSetMemberLinearArea(Given(j1), Given(j2), Given(n), Given(o)))
    case SelectJoint(ids) => Some(NewDeselectJoint(Given(ids)))
    case DeselectJoint(ids) => Some(NewSelectJoint(Given(ids)))
  }

  /** Every action a constructor accepted has all its fields set, so
      `reverse()` never throws. */
  lemma ReverseNeverThrows(a: Action)
    ensures Reverse(a).Some? ==> Reverse(a).value.Ok?
  {
  }

  /** What `reverse()` keeps and what it changes: add and remove swap with all
      fields kept, select and deselect likewise, a move is negated, and the
      setters swap their old and new values. */
  lemma ReverseFields(a: Action)
    ensures a.AddJoint? ==> Reverse(a) == Some(Ok(RemoveJoint(a.point, a.id, a.kind)))
    ensures a.RemoveJoint? ==> Reverse(a) == Some(Ok(AddJoint(a.point, a.id, a.kind)))
    ensures a.MoveJoint? ==>
      Reverse(a) == Some(Ok(MoveJoint(Vec(-a.displacement.x, -a.displacement.y), a.id)))
    ensures a.SetJointType? ==> Reverse(a) == Some(Ok(SetJointType(a.id, a.newType, a.oldType)))
    ensures a.AddMember? ==> Reverse(a) == Some(Ok(RemoveMember(a.jointOne, a.jointTwo, a.linArea)))
    ensures a.RemoveMember? ==> Reverse(a) == Some(Ok(AddMember(a.jointOne, a.jointTwo, a.linArea)))
    ensures a.SetMemberLinearArea? ==>
      Reverse(a) == Some(Ok(SetMemberLinearArea(a.jointOne, a.jointTwo, a.newLinArea, a.oldLinArea)))
    ensures a.SelectJoint? ==> Reverse(a) == Some(Ok(DeselectJoint(a.ids)))
    ensures a.DeselectJoint? ==> Reverse(a) == Some(Ok(SelectJoint(a.ids)))
  {
  }

  /** Reversing twice gives back the original action, for every action that has a reverse. */
  lemma ReverseInvolution(a: Action)
    requires !a.SetJointId?
    ensures Reverse(a).Some? && Reverse(a).value.Ok?
    ensures Reverse(Reverse(a).value.value) == Some(Ok(a))
  {
    ReverseFields(a);
    ReverseFields(Reverse(a).value.value);
  }
}
