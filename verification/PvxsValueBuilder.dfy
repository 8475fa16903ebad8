/** The objects of the value builder: shared memory, builder nodes and the visitor that owns a stack of them. */
module PvxsValueBuilder {
  import opened Results
  import opened AnyValues
  import opened PvxsData
  import opened PvxsStore
  import opened Stacks
  import opened ValueBuilder
  import TypeBuilder

  /** The storage that all copies of a pvxs::Value share. */
  class Memory {
    var store: Store

    constructor (store: Store)
      ensures this.store == store
    {
      this.store := store;
    }

    method AllocMember(h: Handle) returns (r: Result<Handle>)
      modifies this
      ensures CodeAt(old(store), h) != StructACode ==> r == Err(NotStructArray) && store == old(store)
      ensures CodeAt(old(store), h) == StructACode ==>
        && r == Ok(At(|old(store)|, []))
        && var c := Lookup(old(store), h).value; store == old(store) + [Create(StructDef(c.id, c.defs))]
    {
      if CodeAt(store, h) != StructACode {
        return Err(NotStructArray);
      }
      var c := Lookup(store, h).value;
      r := Ok(At(|store|, []));
      store := store + [Create(StructDef(c.id, c.defs))];
    }
  }

  /** The copy loop of AssignToPVXSScalarArray. */
  method CollectItems(items: seq<AnyValue>) returns (data: seq<Data>)
    ensures data == ItemData(items)
  {
    data := [];
    for i := 0 to |items|
      invariant data == ItemData(items)[..i]
    {
      data := data + [if items[i].Scalar? then items[i].data else Number(0)];
    }
  }

  datatype NodeKind = PlainKind | ScalarArrayKind | StructArrayKind

  class BuilderNode {
    const kind: NodeKind
    const value: Handle
    var slots: seq<Handle>
    var index: nat

    ghost function Abs(): NodeState
      reads this
    {
      match kind
      case PlainKind => Plain(value)
      case ScalarArrayKind => ScalarArrayNode(value)
      case StructArrayKind => StructArrayNode(value, slots, index)
    }

    constructor (kind: NodeKind, value: Handle, slots: seq<Handle>)
      ensures this.kind == kind && this.value == value && this.slots == slots && index == 0
    {
      this.kind, this.value, this.slots, index := kind, value, slots, 0;
    }

    method GetPvxsValueRef() returns (r: Result<Handle>)
      ensures r == ValueRef(Abs())
    {
      if kind.StructArrayKind? {
        if index >= |slots| {
          return Err(OutOfBounds);
        }
        return Ok(slots[index]);
      }
      return Ok(value);
    }

    method ArrayElementSeparator() returns (r: Result<()>)
      modifies this
      ensures kind.PlainKind? ==> r == Err(NotImplemented)
      ensures !kind.PlainKind? ==> r.Ok?
      ensures slots == old(slots)
      ensures index == if kind.StructArrayKind? then old(index) + 1 else old(index)
    {
      match kind
      case PlainKind => return Err(NotImplemented);
      case ScalarArrayKind => return Ok(());
      case StructArrayKind =>
        index := index + 1;
        return Ok(());
    }

    /** Only an array of structures has something left to assign. */
    method Freeze(memory: Memory) returns (r: Result<()>)
      modifies memory
      ensures match (if kind.StructArrayKind? then ValueBuilder.Freeze(old(memory.store), value, slots)
                     else Ok(old(memory.store)))
        case Ok(store) => r.Ok? && memory.store == store
        case Err(e) => r == Err(e)
    {
      if kind.StructArrayKind? {
        var frozen := ValueBuilder.Freeze(memory.store, value, slots);
        if frozen.Err? {
          return Err(frozen.error);
        }
        memory.store := frozen.value;
      }
      return Ok(());
    }
  }

  /** AssignAnyValueToPVXSValueScalarArray: the type checks, then the copy. */
  method AssignArray(memory: Memory, h: Handle, v: AnyValue) returns (r: Result<()>)
    modifies memory
    ensures match AssignScalarArray(old(memory.store), h, v)
      case Ok(store) => r.Ok? && memory.store == store
      case Err(e) => r == Err(e)
  {
    if !v.Array? {
      return Err(NotArray);
    }
    var code := ArrayCode(v.element);
    if code.Err? {
      return Err(code.error);
    }
    if code.value != CodeAt(memory.store, h) {
      return Err(ArrayTypeMismatch);
    }
    if !code.value.ArrayOf? {
      return Err(UnknownAnyTypeCode);
    }
    var data := CollectItems(v.items);
    memory.store := PutAt(memory.store, h, ArrayCell(code.value.kind, data));
    return Ok(());
  }

  /** The loop of StructArrayBuilderNode's constructor. */
  method AllocateSlots(memory: Memory, h: Handle, n: nat) returns (r: Result<seq<Handle>>)
    modifies memory
    ensures match AllocMembers(old(memory.store), h, n)
      case Ok(store) => r == Ok(NewBlocks(old(memory.store), n)) && memory.store == store
      case Err(e) => r == Err(e)
  {
    ghost var before := memory.store;
    var slots: seq<Handle> := [];
    for i := 0 to n
      invariant Lookup(memory.store, h) == Lookup(before, h)
      invariant AllocMembers(before, h, i) == Ok(memory.store)
      invariant slots == NewBlocks(before, i)
    {
      var slot := memory.AllocMember(h);
      if slot.Err? {
        return Err(slot.error);
      }
      slots := slots + [slot.value];
      var c := Lookup(before, h).value;
      assert memory.store == before + seq(i + 1, _ => Create(StructDef(c.id, c.defs)));
    }
    return Ok(slots);
  }

  class Builder {
    const memory: Memory
    var nodes: seq<BuilderNode>

    ghost predicate Valid()
      reads this
    {
      forall i, j :: 0 <= i < j < |nodes| ==> nodes[i] != nodes[j]
    }

    ghost function Abs(): State
      reads this, memory, nodes
    {
      State(memory.store, seq(|nodes|, i requires 0 <= i < |nodes| reads this, nodes => nodes[i].Abs()))
    }

    /** The call ended as the step did. */
    ghost predicate Follows(r: Result<()>, expected: Result<State>)
      reads this, memory, nodes
    {
      match expected
      case Ok(s) => r.Ok? && Valid() && Abs() == s
      case Err(e) => r == Err(e)
    }

    constructor (def: TypeDef)
      ensures Valid() && Abs() == Initial(def)
      ensures fresh(memory) && fresh(nodes)
    {
      var store, h := [], NullHandle;
      if !def.NoType? {
        store, h := [Create(def)], At(0, []);
      }
      memory := new Memory(store);
      var root := new BuilderNode(PlainKind, h, []);
      nodes := [root];
    }

    method GetCurrent() returns (r: Result<Handle>)
      requires Valid()
      ensures r == Current(Abs())
    {
      if nodes == [] {
        return Err(EmptyStack);
      }
      r := nodes[|nodes| - 1].GetPvxsValueRef();
    }

    method ProcessComponent(kind: NodeKind, value: Handle, slots: seq<Handle>)
      requires Valid()
      modifies this
      ensures Valid() && |nodes| == |old(nodes)| + 1 && nodes[..|old(nodes)|] == old(nodes) && fresh(nodes[|old(nodes)|])
      ensures var n := if kind.PlainKind? then Plain(value)
                       else if kind.ScalarArrayKind? then ScalarArrayNode(value) else StructArrayNode(value, slots, 0);
        Abs() == Push(old(Abs()), n)
    {
      var n := new BuilderNode(kind, value, slots);
      nodes := nodes + [n];
    }

    method PopNode() returns (r: Result<()>)
      requires Valid()
      modifies this
      ensures old(nodes) == [] ==> r == Err(EmptyStack) && unchanged(this)
      ensures old(nodes) != [] ==> r.Ok? && Valid() && nodes == Pop(old(nodes))
      ensures old(nodes) != [] ==> Abs() == old(Abs()).(nodes := Pop(old(Abs()).nodes))
    {
      if nodes == [] {
        return Err(EmptyStack);
      }
      nodes := nodes[..|nodes| - 1];
      return Ok(());
    }

    method StructProlog(v: AnyValue) returns (r: Result<()>)
      requires Valid()
      modifies this
      ensures Follows(r, Step(old(Abs()), Event.StructProlog(v)))
      ensures forall n :: n in nodes ==> n in old(nodes) || fresh(n)
    {
      var h := GetCurrent();
      if h.Err? {
        return Err(h.error);
      }
      ProcessComponent(PlainKind, h.value, []);
      return Ok(());
    }

    method MemberProlog(name: string) returns (r: Result<()>)
      requires Valid()
      modifies this
      ensures Follows(r, Step(old(Abs()), Event.MemberProlog(name)))
      ensures forall n :: n in nodes ==> n in old(nodes) || fresh(n)
    {
      var h := GetCurrent();
      if h.Err? {
        return Err(h.error);
      }
      ProcessComponent(PlainKind, Child(memory.store, h.value, name), []);
      return Ok(());
    }

    method ArrayProlog(v: AnyValue) returns (r: Result<()>)
      requires Valid()
      modifies this, memory
      ensures Follows(r, Step(old(Abs()), Event.ArrayProlog(v)))
      ensures forall n :: n in nodes ==> n in old(nodes) || fresh(n)
    {
      var h := GetCurrent();
      if h.Err? {
        return Err(h.error);
      }
      if IsScalarArray(CodeAt(memory.store, h.value)) {
        var done := AssignArray(memory, h.value, v);
        if done.Err? {
          return done;
        }
        ProcessComponent(ScalarArrayKind, h.value, []);
      } else {
        var slots := AllocateSlots(memory, h.value, if v.Array? then |v.items| else 0);
        if slots.Err? {
          return Err(slots.error);
        }
        ProcessComponent(StructArrayKind, h.value, slots.value);
      }
      return Ok(());
    }

    method ArrayElementSeparator() returns (r: Result<()>)
      requires Valid()
      modifies nodes
      ensures Follows(r, Step(old(Abs()), Event.ArrayElementSeparator))
    {
      if nodes == [] {
        return Err(EmptyStack);
      }
      ghost var before := Abs();
      r := nodes[|nodes| - 1].ArrayElementSeparator();
      assert forall i :: 0 <= i < |nodes| - 1 ==> nodes[i].Abs() == before.nodes[i];
      if r.Ok? {
        assert Abs().nodes == Pop(before.nodes) + [nodes[|nodes| - 1].Abs()];
      }
    }

    method ArrayEpilog(v: AnyValue) returns (r: Result<()>)
      requires Valid()
      modifies this, memory
      ensures Follows(r, Step(old(Abs()), Event.ArrayEpilog(v)))
      ensures forall n :: n in nodes ==> n in old(nodes)
    {
      if nodes == [] {
        return Err(EmptyStack);
      }
      r := nodes[|nodes| - 1].Freeze(memory);
      if r.Ok? {
        r := PopNode();
      }
    }

    method ScalarProlog(v: AnyValue) returns (r: Result<()>)
      requires Valid()
      modifies memory
      ensures Follows(r, Step(old(Abs()), Event.ScalarProlog(v)))
    {
      if nodes == [] {
        return Err(EmptyStack);
      }
      if nodes[|nodes| - 1].kind.ScalarArrayKind? {
        return Ok(());
      }
      var h := GetCurrent();
      if h.Err? {
        return Err(h.error);
      }
      var store := AssignScalar(memory.store, h.value, v);
      if store.Err? {
        return Err(store.error);
      }
      memory.store := store.value;
      return Ok(());
    }

    /** Dispatch to the callback; the callbacks that are not listed do nothing. */
    method Visit(e: Event<AnyValue>) returns (r: Result<()>)
      requires Valid()
      modifies this, memory, nodes
      ensures Follows(r, Step(old(Abs()), e))
      ensures forall n :: n in nodes ==> n in old(nodes) || fresh(n)
    {
      match e
      case StructProlog(v) => r := StructProlog(v);
      case StructEpilog(_) => r := PopNode();
      case MemberProlog(name) => r := MemberProlog(name);
      case MemberEpilog(_) => r := PopNode();
      case ArrayProlog(v) => r := ArrayProlog(v);
      case ArrayElementSeparator => r := ArrayElementSeparator();
      case ArrayEpilog(v) => r := ArrayEpilog(v);
      case ScalarProlog(v) => r := ScalarProlog(v);
      case _ => r := Ok(());
    }

    method GetPvxsValue() returns (tree: Tree)
      requires Valid()
      ensures tree == Finished(Abs())
    {
      if nodes == [] {
        return Null;
      }
      return Read(memory.store, nodes[|nodes| - 1].value);
    }
  }

  /** BuildPVXSValue on the classes: SerializeAnyValue feeds the visit to a builder made from the value's type. */
  method BuildValue(v: AnyValue) returns (r: Result<Tree>)
    ensures r == BuildPvxsValue(v)
  {
    var def := TypeBuilder.BuildType(TypeOf(v));
    if def.Err? {
      return Err(def.error);
    }
    var builder := new Builder(def.value);
    var es := ValueEvents(v);
    for i := 0 to |es|
      invariant builder.Valid() && fresh(builder.memory) && fresh(builder.nodes)
      invariant Run(Initial(def.value), es) == Run(builder.Abs(), es[i..])
    {
      assert es[i..][1..] == es[i + 1..];
      ghost var before := builder.nodes;
      var step := builder.Visit(es[i]);
      forall k | 0 <= k < |builder.nodes| ensures fresh(builder.nodes[k]) {
        if builder.nodes[k] in before {
          var j :| 0 <= j < |before| && before[j] == builder.nodes[k];
        }
      }
      if step.Err? {
        return Err(step.error);
      }
    }
    var tree := builder.GetPvxsValue();
    return Ok(tree);
  }
}
