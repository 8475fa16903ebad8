/** PvxsValueBuilder: a stack machine that turns the visit of an AnyValue into writes on a shared PVXS value. */
module ValueBuilder {
  import opened Results
  import opened AnyValues
  import opened PvxsData
  import opened PvxsStore
  import opened Stacks
  import TypeBuilder

  datatype NodeState =
    | Plain(value: Handle)
    | ScalarArrayNode(value: Handle)
    | StructArrayNode(value: Handle, slots: seq<Handle>, index: nat)

  datatype State = State(store: Store, nodes: seq<NodeState>)

  /** GetPvxsValueRef: the array element that is being filled, or the node's own value. */
  function ValueRef(n: NodeState): Result<Handle> {
    if n.StructArrayNode? then
      if n.index < |n.slots| then Ok(n.slots[n.index]) else Err(OutOfBounds)
    else Ok(n.value)
  }

  function Current(s: State): Result<Handle> {
    if s.nodes == [] then Err(EmptyStack) else ValueRef(Top(s.nodes))
  }

  // ---------------------------------------------------------------------------------------------
  // Writes
  // ---------------------------------------------------------------------------------------------

  /** AssignAnyValueToPVXSValueScalar. */
  function AssignScalar(store: Store, h: Handle, v: AnyValue): Result<Store> {
    if !v.Scalar? then Err(NotScalar)
    else if CodeAt(store, h) != Base(KindOf(v.code)) then Err(ScalarTypeMismatch)
    else Ok(PutAt(store, h, ScalarCell(KindOf(v.code), v.data)))
  }

  /** AssignAnyValueToPVXSValueScalarArray. */
  function AssignScalarArray(store: Store, h: Handle, v: AnyValue): Result<Store> {
    if !v.Array? then Err(NotArray)
    else
      var code :- ArrayCode(v.element);
      if CodeAt(store, h) != code then Err(ArrayTypeMismatch)
      else if !code.ArrayOf? then Err(UnknownAnyTypeCode)
      else Ok(PutAt(store, h, ArrayCell(code.kind, ItemData(v.items))))
  }

  /** allocMember, n times: new blocks with the element type, not visible in the array itself. */
  function AllocMembers(store: Store, h: Handle, n: nat): Result<Store> {
    if n == 0 then Ok(store)
    else if CodeAt(store, h) != StructACode then Err(NotStructArray)
    else
      var c := Lookup(store, h).value;
      Ok(store + seq(n, _ => Create(StructDef(c.id, c.defs))))
  }

  function NewBlocks(store: Store, n: nat): seq<Handle> {
    seq(n, i requires 0 <= i < n => At(|store| + i, []))
  }

  /** Freeze: the array's value becomes the collected elements. */
  function Freeze(store: Store, h: Handle, elems: seq<Handle>): Result<Store> {
    if CodeAt(store, h) != StructACode then Err(NotStructArray)
    else Ok(PutAt(store, h, Lookup(store, h).value.(elems := elems)))
  }

  // ---------------------------------------------------------------------------------------------
  // The machine
  // ---------------------------------------------------------------------------------------------

  function Push(s: State, n: NodeState): State {
    s.(nodes := s.nodes + [n])
  }

  function Step(s: State, e: Event<AnyValue>): Result<State> {
    match e
    case StructProlog(_) =>
      var h :- Current(s);
      Ok(Push(s, Plain(h)))
    case MemberProlog(name) =>
      var h :- Current(s);
      Ok(Push(s, Plain(Child(s.store, h, name))))
    case StructEpilog(_) => if s.nodes == [] then Err(EmptyStack) else Ok(s.(nodes := Pop(s.nodes)))
    case MemberEpilog(_) => if s.nodes == [] then Err(EmptyStack) else Ok(s.(nodes := Pop(s.nodes)))
    case ArrayProlog(v) =>
      var h :- Current(s);
      if IsScalarArray(CodeAt(s.store, h)) then
        var store :- AssignScalarArray(s.store, h, v);
        Ok(Push(s.(store := store), ScalarArrayNode(h)))
      else
        var n := if v.Array? then |v.items| else 0;
        var store :- AllocMembers(s.store, h, n);
        Ok(Push(s.(store := store), StructArrayNode(h, NewBlocks(s.store, n), 0)))
    case ArrayElementSeparator =>
      if s.nodes == [] then Err(EmptyStack)
      else
        var n := Top(s.nodes);
        if n.Plain? then Err(NotImplemented)
        else if n.ScalarArrayNode? then Ok(s)
        else Ok(s.(nodes := Pop(s.nodes) + [n.(index := n.index + 1)]))
    case ArrayEpilog(_) =>
      if s.nodes == [] then Err(EmptyStack)
      else if Top(s.nodes).StructArrayNode? then
        var store :- Freeze(s.store, Top(s.nodes).value, Top(s.nodes).slots);
        Ok(State(store, Pop(s.nodes)))
      else Ok(s.(nodes := Pop(s.nodes)))
    case ScalarProlog(v) =>
      if s.nodes == [] then Err(EmptyStack)
      else if Top(s.nodes).ScalarArrayNode? then Ok(s)
      else
        var h :- Current(s);
        var store :- AssignScalar(s.store, h, v);
        Ok(s.(store := store))
    case _ => Ok(s)
  }

  function Run(s: State, es: seq<Event<AnyValue>>): Result<State>
    decreases es
  {
    if es == [] then Ok(s)
    else
      var s' :- Step(s, es[0]);
      Run(s', es[1..])
  }

  function StepAfter(r: Result<State>, e: Event<AnyValue>): Result<State> {
    if r.Ok? then Step(r.value, e) else r
  }

  function RunAfter(r: Result<State>, es: seq<Event<AnyValue>>): Result<State> {
    if r.Ok? then Run(r.value, es) else r
  }

  lemma {:induction false} RunAppend(s: State, a: seq<Event<AnyValue>>, b: seq<Event<AnyValue>>)
    ensures Run(s, a + b) == RunAfter(Run(s, a), b)
    decreases a
  {
    if a == [] {
      assert a + b == b;
    } else {
      assert (a + b)[1..] == a[1..] + b;
      if Step(s, a[0]).Ok? {
        RunAppend(Step(s, a[0]).value, a[1..], b);
      }
    }
  }

  lemma {:induction false} RunTwo(s: State, a: Event<AnyValue>, b: Event<AnyValue>)
    ensures Run(s, [a, b]) == StepAfter(Step(s, a), b)
  {
    assert [a, b][1..] == [b];
    if Step(s, a).Ok? {
      var s1 := Step(s, a).value;
      assert [b][1..] == [];
      assert Run(s1, [b]) == Step(s1, b);
    }
  }

  lemma {:induction false} RunBracket(s: State, a: Event<AnyValue>, inner: seq<Event<AnyValue>>, b: Event<AnyValue>)
    ensures Run(s, [a] + inner + [b]) == StepAfter(RunAfter(Step(s, a), inner), b)
  {
    assert ([a] + inner + [b])[1..] == inner + [b];
    if Step(s, a).Ok? {
      var s1 := Step(s, a).value;
      RunAppend(s1, inner, [b]);
      if Run(s1, inner).Ok? {
        var s2 := Run(s1, inner).value;
        assert [b][1..] == [];
        assert Run(s2, [b]) == Step(s2, b);
      }
    }
  }

  // ---------------------------------------------------------------------------------------------
  // What the machine computes, by structure, for every value and every slot
  // ---------------------------------------------------------------------------------------------

  /** The store after the value was written to the slot, or the throw. */
  function Write(store: Store, h: Handle, v: AnyValue): Result<Store>
    decreases v, 0
  {
    match v
    case Empty => Ok(store)
    case Scalar(_, _) => AssignScalar(store, h, v)
    case Struct(_, ms) => WriteMembers(store, h, ms, 0)
    case Array(_, _, items) =>
      if IsScalarArray(CodeAt(store, h)) then AssignScalarArray(store, h, v)
      else
        var extended :- AllocMembers(store, h, |items|);
        var filled :- WriteItems(extended, NewBlocks(store, |items|), items, 0);
        Freeze(filled, h, NewBlocks(store, |items|))
  }

  function WriteMembers(store: Store, h: Handle, ms: seq<Member>, i: nat): Result<Store>
    requires i <= |ms|
    decreases ms, |ms| - i
  {
    if i == |ms| then Ok(store)
    else
      var store' :- Write(store, Child(store, h, ms[i].name), ms[i].value);
      WriteMembers(store', h, ms, i + 1)
  }

  function WriteItems(store: Store, slots: seq<Handle>, items: seq<AnyValue>, i: nat): Result<Store>
    requires i <= |items| <= |slots|
    decreases items, |items| - i
  {
    if i == |items| then Ok(store)
    else
      var store' :- Write(store, slots[i], items[i]);
      WriteItems(store', slots, items, i + 1)
  }

  function WithStore(r: Result<Store>, nodes: seq<NodeState>): Result<State> {
    if r.Ok? then Ok(State(r.value, nodes)) else Err(r.error)
  }

  /**
   Refinement, for every value and from every state with a current slot: the visit restores the stack
   of nodes and leaves the store of the structural write, or throws what that throws.
   */
  lemma {:induction false} MachineWrites(v: AnyValue, s: State)
    requires WellFormed(v)
    requires Current(s).Ok? && !Top(s.nodes).ScalarArrayNode?
    ensures Run(s, ValueEvents(v)) == WithStore(Write(s.store, Current(s).value, v), s.nodes)
    decreases v, 1
  {
    var h := Current(s).value;
    match v
    case Empty =>
      RunTwo(s, EmptyProlog(v), EmptyEpilog(v));
    case Scalar(_, _) =>
      RunTwo(s, ScalarProlog(v), ScalarEpilog(v));
    case Struct(_, ms) =>
      RunBracket(s, StructProlog(v), MemberEvents(ms, 0), StructEpilog(v));
      MachineWritesMembers(ms, 0, Push(s, Plain(h)));
      var r := WriteMembers(s.store, h, ms, 0);
      if r.Ok? {
        StructEpilogPops(s, r.value, Plain(h), v);
      }
    case Array(_, _, _) =>
      MachineWritesArray(v, s);
  }

  lemma {:induction false} StructEpilogPops(s: State, store: Store, n: NodeState, v: AnyValue)
    ensures Step(State(store, Push(s, n).nodes), StructEpilog(v)) == Ok(State(store, s.nodes))
  {
    assert Pop(Push(s, n).nodes) == s.nodes;
  }

  lemma {:induction false} MachineWritesArray(v: AnyValue, s: State)
    requires v.Array? && WellFormed(v)
    requires Current(s).Ok? && !Top(s.nodes).ScalarArrayNode?
    ensures Run(s, ValueEvents(v)) == WithStore(Write(s.store, Current(s).value, v), s.nodes)
    decreases v, 0
  {
    var h, items := Current(s).value, v.items;
    RunBracket(s, ArrayProlog(v), ItemEvents(items, 0), ArrayEpilog(v));
    if Step(s, ArrayProlog(v)).Ok? {
      var s1 := Step(s, ArrayProlog(v)).value;
      assert Pop(s1.nodes) == s.nodes;
      if IsScalarArray(CodeAt(s.store, h)) {
        ScalarItemsAreSkipped(items, 0, s1);
      } else {
        MachineWritesItems(items, 0, s1);
        var r := WriteItems(s1.store, NewBlocks(s.store, |items|), items, 0);
        if r.Ok? {
          ArrayEpilogFreezes(s, r.value, AfterItems(Top(s1.nodes), 0, |items|), v);
        }
      }
    }
  }

  lemma {:induction false} ArrayEpilogFreezes(s: State, store: Store, n: NodeState, v: AnyValue)
    requires n.StructArrayNode?
    ensures Step(State(store, s.nodes + [n]), ArrayEpilog(v)) == WithStore(Freeze(store, n.value, n.slots), s.nodes)
  {
    assert Pop(s.nodes + [n]) == s.nodes;
  }

  lemma {:induction false} PlainIsCurrent(s: State, h: Handle)
    ensures Current(Push(s, Plain(h))) == Ok(h) && Top(Push(s, Plain(h)).nodes) == Plain(h)
  {
  }

  lemma {:induction false} MachineWritesMembers(ms: seq<Member>, i: nat, s: State)
    requires i <= |ms|
    requires forall k :: 0 <= k < |ms| ==> WellFormed(ms[k].value)
    requires Current(s).Ok? && Top(s.nodes).Plain?
    ensures Run(s, MemberEvents(ms, i)) == WithStore(WriteMembers(s.store, Current(s).value, ms, i), s.nodes)
    decreases ms, |ms| - i, 1
  {
    if i < |ms| {
      var r := Write(s.store, Child(s.store, Current(s).value, ms[i].name), ms[i].value);
      MachineWritesMember(ms, i, s);
      if r.Ok? {
        MachineWritesMembers(ms, i + 1, State(r.value, s.nodes));
      }
    }
  }

  lemma {:induction false} MachineWritesMember(ms: seq<Member>, i: nat, s: State)
    requires i < |ms| && WellFormed(ms[i].value)
    requires Current(s).Ok? && Top(s.nodes).Plain?
    ensures var r := Write(s.store, Child(s.store, Current(s).value, ms[i].name), ms[i].value);
      Run(s, MemberEvents(ms, i)) == RunAfter(WithStore(r, s.nodes), MemberEvents(ms, i + 1))
    decreases ms, |ms| - i, 0
  {
    var child := Child(s.store, Current(s).value, ms[i].name);
    PlainIsCurrent(s, child);
    MachineWrites(ms[i].value, Push(s, Plain(child)));
    MemberFollows(ms, i, s, Write(s.store, child, ms[i].value));
  }

  lemma {:induction false} MemberFollows(ms: seq<Member>, i: nat, s: State, r: Result<Store>)
    requires i < |ms| && Current(s).Ok?
    requires var pushed := Push(s, Plain(Child(s.store, Current(s).value, ms[i].name)));
      Run(pushed, ValueEvents(ms[i].value)) == WithStore(r, pushed.nodes)
    ensures Run(s, MemberEvents(ms, i)) == RunAfter(WithStore(r, s.nodes), MemberEvents(ms, i + 1))
  {
    RunMember(ms, i, s);
    MemberEpilogFollows(s, r, Plain(Child(s.store, Current(s).value, ms[i].name)), ms[i].name);
  }

  lemma {:induction false} MemberEpilogFollows(s: State, r: Result<Store>, n: NodeState, name: string)
    ensures StepAfter(WithStore(r, Push(s, n).nodes), MemberEpilog(name)) == WithStore(r, s.nodes)
  {
    if r.Ok? {
      MemberEpilogPops(s, r.value, n, name);
    }
  }

  lemma {:induction false} MemberEpilogPops(s: State, store: Store, n: NodeState, name: string)
    ensures Step(State(store, Push(s, n).nodes), MemberEpilog(name)) == Ok(State(store, s.nodes))
  {
    assert Pop(Push(s, n).nodes) == s.nodes;
  }

  lemma {:induction false} RunMember(ms: seq<Member>, i: nat, s: State)
    requires i < |ms| && Current(s).Ok?
    ensures var pushed := Push(s, Plain(Child(s.store, Current(s).value, ms[i].name)));
      Run(s, MemberEvents(ms, i)) ==
      RunAfter(StepAfter(Run(pushed, ValueEvents(ms[i].value)), MemberEpilog(ms[i].name)), MemberEvents(ms, i + 1))
  {
    var name, inner, rest := ms[i].name, ValueEvents(ms[i].value), MemberEvents(ms, i + 1);
    var sep: seq<Event<AnyValue>> := if i == 0 then [] else [StructMemberSeparator];
    var member := [MemberProlog(name)] + inner + [MemberEpilog(name)];
    assert MemberEvents(ms, i) == sep + (member + rest);
    RunAppend(s, sep, member + rest);
    assert Run(s, sep) == Ok(s);
    RunAppend(s, member, rest);
    RunBracket(s, MemberProlog(name), inner, MemberEpilog(name));
  }

  /** The node of the array after the items from `i` on; the index stays on the last item. */
  function AfterItems(n: NodeState, i: nat, count: nat): NodeState
    requires n.StructArrayNode?
  {
    if i < count then n.(index := count - 1) else n
  }

  lemma {:induction false} MachineWritesItems(items: seq<AnyValue>, i: nat, s: State)
    requires i <= |items|
    requires forall k :: 0 <= k < |items| ==> WellFormed(items[k])
    requires s.nodes != [] && Top(s.nodes).StructArrayNode? && |items| <= |Top(s.nodes).slots|
    requires Top(s.nodes).index == if i == 0 then 0 else i - 1
    ensures Run(s, ItemEvents(items, i)) ==
      WithStore(WriteItems(s.store, Top(s.nodes).slots, items, i), Pop(s.nodes) + [AfterItems(Top(s.nodes), i, |items|)])
    decreases items, |items| - i
  {
    var n := Top(s.nodes);
    if i == |items| {
      assert Pop(s.nodes) + [n] == s.nodes;
    } else {
      var s1 := State(s.store, Pop(s.nodes) + [n.(index := i)]);
      RunItem(items, i, s);
      MachineWrites(items[i], s1);
      var r := Write(s.store, n.slots[i], items[i]);
      if r.Ok? {
        assert Pop(s1.nodes) == Pop(s.nodes);
        MachineWritesItems(items, i + 1, State(r.value, s1.nodes));
      }
    }
  }

  lemma {:induction false} RunItem(items: seq<AnyValue>, i: nat, s: State)
    requires i < |items|
    requires s.nodes != [] && Top(s.nodes).StructArrayNode?
    requires Top(s.nodes).index == if i == 0 then 0 else i - 1
    ensures var s1 := State(s.store, Pop(s.nodes) + [Top(s.nodes).(index := i)]);
      Run(s, ItemEvents(items, i)) == RunAfter(Run(s1, ValueEvents(items[i])), ItemEvents(items, i + 1))
  {
    var sep: seq<Event<AnyValue>> := if i == 0 then [] else [ArrayElementSeparator];
    var inner, rest := ValueEvents(items[i]), ItemEvents(items, i + 1);
    assert ItemEvents(items, i) == sep + (inner + rest);
    RunAppend(s, sep, inner + rest);
    RunSeparator(s, i);
    RunAppend(State(s.store, Pop(s.nodes) + [Top(s.nodes).(index := i)]), inner, rest);
  }

  lemma {:induction false} RunSeparator(s: State, i: nat)
    requires s.nodes != [] && Top(s.nodes).StructArrayNode?
    requires Top(s.nodes).index == if i == 0 then 0 else i - 1
    ensures Run(s, if i == 0 then [] else [ArrayElementSeparator])
         == Ok(State(s.store, Pop(s.nodes) + [Top(s.nodes).(index := i)]))
  {
    var n := Top(s.nodes);
    if i == 0 {
      assert Pop(s.nodes) + [n] == s.nodes;
    } else {
      var es: seq<Event<AnyValue>> := [ArrayElementSeparator];
      assert es[1..] == [];
      assert Run(s, es) == Step(s, ArrayElementSeparator);
    }
  }

  /** The items of an array that was assigned as a whole are visited without effect. */
  lemma {:induction false} ScalarItemsAreSkipped(items: seq<AnyValue>, i: nat, s: State)
    requires i <= |items|
    requires forall k :: 0 <= k < |items| ==> items[k].Scalar?
    requires s.nodes != [] && Top(s.nodes).ScalarArrayNode?
    ensures Run(s, ItemEvents(items, i)) == Ok(s)
    decreases |items| - i
  {
    if i < |items| {
      var sep: seq<Event<AnyValue>> := if i == 0 then [] else [ArrayElementSeparator];
      var inner, rest := ValueEvents(items[i]), ItemEvents(items, i + 1);
      assert ItemEvents(items, i) == sep + (inner + rest);
      RunAppend(s, sep, inner + rest);
      assert Run(s, sep) == Ok(s);
      RunAppend(s, inner, rest);
      RunTwo(s, ScalarProlog(items[i]), ScalarEpilog(items[i]));
      ScalarItemsAreSkipped(items, i + 1, s);
    }
  }

  // ---------------------------------------------------------------------------------------------
  // Writing a value to a slot whose definition has the layout of the value's type
  // ---------------------------------------------------------------------------------------------

  /** Only the slot changed, apart from blocks that did not exist before. */
  ghost predicate OnlySlotChanged(store: Store, store': Store, h: Handle) {
    && Lookup(store, h).Some? && |store| <= |store'| && Lookup(store', h).Some?
    && store'[h.top] == Put(store[h.top], h.path, Lookup(store', h).value)
    && forall j :: 0 <= j < |store| && j != h.top ==> store'[j] == store[j]
  }

  /** The slot now denotes the tree, through new blocks only. */
  ghost predicate Wrote(store: Store, r: Result<Store>, h: Handle, tree: Tree) {
    && r.Ok?
    && OnlySlotChanged(store, r.value, h)
    && Denotes(r.value, |store|, Lookup(r.value, h).value, tree)
  }

  /** The cell can take the value. What is Empty leaves things as they are, which must be as created. */
  ghost predicate Takes(c: Cell, v: AnyValue, def: TypeDef) {
    FitsType(TypeOf(v), def) && Complete(def) && HasShape(c, def) && (Filled(v) || c == Create(def))
  }

  ghost predicate IsSlot(store: Store, h: Handle, v: AnyValue, def: TypeDef) {
    Lookup(store, h).Some? && Takes(Lookup(store, h).value, v, def)
  }

  lemma {:induction false} WriteIsRight(store: Store, h: Handle, v: AnyValue, def: TypeDef)
    requires WellFormed(v) && IsSlot(store, h, v, def)
    ensures Wrote(store, Write(store, h, v), h, EncodeInto(v, def))
    decreases v, 1
  {
    var c := Lookup(store, h).value;
    match v
    case Empty =>
      PutSame(store[h.top], h.path);
      CreatedDenotesDefault(store, |store|, def);
    case Scalar(code, data) =>
      PutThenAt(store[h.top], h.path, ScalarCell(KindOf(code), data));
    case Struct(_, ms) =>
      PutSame(store[h.top], h.path);
      StructSlot(c, v, def);
      WriteMembersIsRight(store, h, ms, 0, store, def);
    case Array(_, element, items) =>
      if element.ScalarType? {
        PutThenAt(store[h.top], h.path, ArrayCell(KindOf(element.code), ItemData(items)));
      } else {
        WriteStructArrayIsRight(store, h, v, def);
      }
  }

  lemma {:induction false} StructSlot(c: Cell, v: AnyValue, def: TypeDef)
    requires v.Struct? && Takes(c, v, def)
    ensures c.StructCell? && c.id == v.name && |c.fields| == |v.members|
    ensures forall k :: 0 <= k < |v.members| ==>
      c.fields[k].name == v.members[k].name && Takes(c.fields[k].cell, v.members[k].value, MemberDef(def, k))
  {
    MemberTypes(v);
    forall k | 0 <= k < |v.members|
      ensures c.fields[k].name == v.members[k].name
      ensures Takes(c.fields[k].cell, v.members[k].value, MemberDef(def, k))
    {
      assert FitsType(TypeOf(v).members[k].typ, MemberDef(def, k));
      assert c.fields[k].name == def.fields[k].name && HasShape(c.fields[k].cell, def.fields[k].def);
      assert Complete(def.fields[k].def);
    }
  }

  /** Fields before `i` are written, the others are as they were. */
  ghost predicate MembersWritten(store0: Store, store: Store, h: Handle, ms: seq<Member>, i: nat, def: TypeDef)
    requires i <= |ms|
  {
    && OnlySlotChanged(store0, store, h)
    && var c0, c := Lookup(store0, h).value, Lookup(store, h).value;
    && c0.StructCell? && c.StructCell? && c.id == c0.id && |c.fields| == |c0.fields| == |ms|
    && (forall k :: 0 <= k < |ms| ==> c.fields[k].name == c0.fields[k].name == ms[k].name)
    && (forall k :: i <= k < |ms| ==> c.fields[k] == c0.fields[k])
    && (forall k :: 0 <= k < i ==> Denotes(store, |store0|, c.fields[k].cell, EncodeInto(ms[k].value, MemberDef(def, k))))
  }

  lemma {:induction false} WriteMembersIsRight(store0: Store, h: Handle, ms: seq<Member>, i: nat, store: Store, def: TypeDef)
    requires i <= |ms| && DistinctNames(ms)
    requires forall k :: 0 <= k < |ms| ==> WellFormed(ms[k].value)
    requires MembersWritten(store0, store, h, ms, i, def)
    requires forall k :: 0 <= k < |ms| ==> Takes(Lookup(store0, h).value.fields[k].cell, ms[k].value, MemberDef(def, k))
    ensures WriteMembers(store, h, ms, i).Ok?
    ensures MembersWritten(store0, WriteMembers(store, h, ms, i).value, h, ms, |ms|, def)
    decreases ms, |ms| - i
  {
    if i < |ms| {
      var c := Lookup(store, h).value;
      var child := At(h.top, h.path + [i]);
      FieldStep(store[h.top], h.path, i);
      assert FieldIndex(c.fields, ms[i].name, 0) == i;
      assert Child(store, h, ms[i].name) == child;
      WriteIsRight(store, child, ms[i].value, MemberDef(def, i));
      var store' := Write(store, child, ms[i].value).value;
      MemberWritten(store0, store, store', h, ms, i, def);
      WriteMembersIsRight(store0, h, ms, i + 1, store', def);
    }
  }

  lemma {:induction false} MemberWritten(
    store0: Store, store: Store, store': Store, h: Handle, ms: seq<Member>, i: nat, def: TypeDef)
    requires i < |ms| && MembersWritten(store0, store, h, ms, i, def)
    requires Wrote(store, Ok(store'), At(h.top, h.path + [i]), EncodeInto(ms[i].value, MemberDef(def, i)))
    ensures MembersWritten(store0, store', h, ms, i + 1, def)
  {
    var child := At(h.top, h.path + [i]);
    var b0, b, b' := store0[h.top], store[h.top], store'[h.top];
    var c := Lookup(store, h).value;
    var x := Lookup(store', child).value;
    var c' := c.(fields := c.fields[i := c.fields[i].(cell := x)]);
    PutField(b, h.path, i, x);
    assert b' == Put(b, h.path, c');
    PutThenAt(b, h.path, c');
    PutTwice(b0, h.path, c, c');
    assert Lookup(store', h) == Some(c');
    DenotesFrame(store', store', |store|, |store0|, x, EncodeInto(ms[i].value, MemberDef(def, i)));
    forall k | 0 <= k < i
      ensures Denotes(store', |store0|, c'.fields[k].cell, EncodeInto(ms[k].value, MemberDef(def, k)))
    {
      DenotesFrame(store, store', |store0|, |store0|, c.fields[k].cell, EncodeInto(ms[k].value, MemberDef(def, k)));
    }
  }

  /** The k-th new block denotes the k-th item. */
  ghost predicate ItemDenotes(store0: Store, store: Store, def: TypeDef, items: seq<AnyValue>, k: nat)
    requires k < |items| && |store0| + |items| <= |store|
  {
    Denotes(store, |store0| + |items|, store[|store0| + k], EncodeInto(items[k], def))
  }

  /** New blocks: those before `i` denote their items, the others are still as created. */
  ghost predicate ItemsWritten(store0: Store, store: Store, def: TypeDef, items: seq<AnyValue>, i: nat)
    requires i <= |items| && !def.NoType?
  {
    && |store0| + |items| <= |store| && store0 <= store
    && (forall j :: |store0| + i <= j < |store0| + |items| ==> store[j] == Create(def))
    && (forall k :: 0 <= k < i ==> ItemDenotes(store0, store, def, items, k))
  }

  ghost predicate AreItems(items: seq<AnyValue>, def: TypeDef) {
    Complete(def) && forall k :: 0 <= k < |items| ==> WellFormed(items[k]) && FitsType(TypeOf(items[k]), def)
  }

  lemma {:induction false} WriteItemsIsRight(store0: Store, def: TypeDef, slots: seq<Handle>, items: seq<AnyValue>, i: nat,
                                             store: Store)
    requires i <= |items| <= |slots| && slots == NewBlocks(store0, |slots|)
    requires AreItems(items, def) && ItemsWritten(store0, store, def, items, i)
    ensures WriteItems(store, slots, items, i).Ok?
    ensures ItemsWritten(store0, WriteItems(store, slots, items, i).value, def, items, |items|)
    decreases items, |items| - i
  {
    if i < |items| {
      var slot := At(|store0| + i, []);
      assert slots[i] == slot;
      assert Lookup(store, slot) == Some(store[slot.top]);
      CreatedHasShape(def);
      WriteIsRight(store, slot, items[i], def);
      var store' := Write(store, slot, items[i]).value;
      ItemWritten(store0, store, store', def, items, i);
      WriteItemsIsRight(store0, def, slots, items, i + 1, store');
    }
  }

  lemma {:induction false} ItemWritten(store0: Store, store: Store, store': Store, def: TypeDef, items: seq<AnyValue>, i: nat)
    requires i < |items| && !def.NoType? && ItemsWritten(store0, store, def, items, i)
    requires Wrote(store, Ok(store'), At(|store0| + i, []), EncodeInto(items[i], def))
    ensures ItemsWritten(store0, store', def, items, i + 1)
  {
    var lo := |store0| + |items|;
    DenotesFrame(store', store', |store|, lo, store'[|store0| + i], EncodeInto(items[i], def));
    forall k | 0 <= k < i ensures ItemDenotes(store0, store', def, items, k) {
      assert ItemDenotes(store0, store, def, items, k);
      DenotesFrame(store, store', lo, lo, store[|store0| + k], EncodeInto(items[k], def));
    }
    assert ItemDenotes(store0, store', def, items, i);
  }

  lemma {:induction false} ArraySlot(store: Store, h: Handle, v: AnyValue, def: TypeDef)
    requires v.Array? && v.element.StructType? && WellFormed(v) && IsSlot(store, h, v, def)
    ensures AreItems(v.items, ElementDef(def)) && !ElementDef(def).NoType?
    ensures AllocMembers(store, h, |v.items|).Ok?
    ensures ItemsWritten(store, AllocMembers(store, h, |v.items|).value, ElementDef(def), v.items, 0)
  {
  }

  lemma {:induction false} FrozenSlot(store: Store, filled: Store, h: Handle, slots: seq<Handle>)
    requires Lookup(store, h).Some? && Lookup(store, h).value.StructArrayCell? && store <= filled
    ensures Freeze(filled, h, slots).Ok?
    ensures var store' := Freeze(filled, h, slots).value;
      && Lookup(store', h) == Some(Lookup(store, h).value.(elems := slots))
      && OnlySlotChanged(store, store', h)
      && |store'| == |filled| && forall j :: |store| <= j < |filled| ==> store'[j] == filled[j]
  {
    PutThenAt(store[h.top], h.path, Lookup(store, h).value.(elems := slots));
  }

  /** The elements become part of the slot's value by the last write. */
  lemma {:induction false} FrozenItems(store: Store, filled: Store, h: Handle, def: TypeDef, items: seq<AnyValue>)
    requires Lookup(store, h).Some? && Lookup(store, h).value.StructArrayCell? && !def.NoType?
    requires ItemsWritten(store, filled, def, items, |items|)
    ensures Wrote(store, Freeze(filled, h, NewBlocks(store, |items|)), h,
                  Nodes(seq(|items|, i requires 0 <= i < |items| => EncodeInto(items[i], def))))
  {
    var trees := seq(|items|, i requires 0 <= i < |items| => EncodeInto(items[i], def));
    FrozenSlot(store, filled, h, NewBlocks(store, |items|));
    FrozenElements(store, filled, Freeze(filled, h, NewBlocks(store, |items|)).value, def, items, trees);
  }

  lemma {:induction false} FrozenElements(
    store: Store, filled: Store, store': Store, def: TypeDef, items: seq<AnyValue>, trees: seq<Tree>)
    requires !def.NoType? && ItemsWritten(store, filled, def, items, |items|)
    requires |store'| == |filled| && forall j :: |store| <= j < |filled| ==> store'[j] == filled[j]
    requires |trees| == |items| && forall i :: 0 <= i < |items| ==> trees[i] == EncodeInto(items[i], def)
    ensures forall i :: 0 <= i < |items| ==>
      var slot := NewBlocks(store, |items|)[i];
      IsBlock(store', |store|, slot) && Denotes(store', slot.top + 1, store'[slot.top], trees[i])
  {
    forall i | 0 <= i < |items|
      ensures Denotes(store', |store| + i + 1, store'[|store| + i], trees[i])
    {
      assert ItemDenotes(store, filled, def, items, i);
      DenotesFrame(filled, store', |store| + |items|, |store| + i + 1, filled[|store| + i], trees[i]);
    }
  }

  lemma {:induction false} WriteStructArrayIsRight(store: Store, h: Handle, v: AnyValue, def: TypeDef)
    requires v.Array? && v.element.StructType?
    requires WellFormed(v) && IsSlot(store, h, v, def)
    ensures Wrote(store, Write(store, h, v), h, EncodeInto(v, def))
    decreases v, 0
  {
    var items := v.items;
    ArraySlot(store, h, v, def);
    var extended := AllocMembers(store, h, |items|).value;
    var slots := NewBlocks(store, |items|);
    WriteItemsIsRight(store, ElementDef(def), slots, items, 0, extended);
    FrozenItems(store, WriteItems(extended, slots, items, 0).value, h, ElementDef(def), items);
  }

  /**
   The builder's contract: from any stack whose current node designates a slot that can take the value,
   the visit restores the stack, makes the slot read as the translation and changes nothing else. For a
   value without Empty parts the slot may hold anything, and the translation is the structural one.
   */
  lemma {:induction false} VisitWritesSlot(s: State, v: AnyValue, def: TypeDef)
    requires WellFormed(v)
    requires Current(s).Ok? && !Top(s.nodes).ScalarArrayNode? && IsSlot(s.store, Current(s).value, v, def)
    ensures Run(s, ValueEvents(v)).Ok?
    ensures var s', h, tree := Run(s, ValueEvents(v)).value, Current(s).value, EncodeInto(v, def);
      && s'.nodes == s.nodes && Wrote(s.store, Ok(s'.store), h, tree) && Read(s'.store, h) == tree
      && (Filled(v) ==> tree == Encode(v))
  {
    var h := Current(s).value;
    MachineWrites(v, s);
    WriteIsRight(s.store, h, v, def);
    WrittenIsRead(s.store, Write(s.store, h, v).value, h, EncodeInto(v, def));
    if Filled(v) {
      FilledEncodes(v, def);
    }
  }

  lemma {:induction false} WrittenIsRead(store: Store, store': Store, h: Handle, tree: Tree)
    requires Wrote(store, Ok(store'), h, tree)
    ensures Read(store', h) == tree
  {
    DenotesFrame(store', store', |store|, h.top + 1, Lookup(store', h).value, tree);
    SnapshotIsDenoted(store', h.top + 1, Lookup(store', h).value, tree);
  }

  /**
   After the first `i` structures of an array, the j-th of them is in the j-th new block, and no block
   that existed before has changed: the elements become visible to the parent only at Freeze.
   */
  lemma {:induction false} ItemsStayDetached(s: State, v: AnyValue, i: nat, def: TypeDef)
    requires v.Array? && v.element.StructType? && i <= |v.items| && WellFormed(v)
    requires Current(s).Ok? && !Top(s.nodes).ScalarArrayNode? && IsSlot(s.store, Current(s).value, v, def)
    ensures var r := Run(s, [ArrayProlog(v)] + ItemEvents(v.items[..i], 0));
      && r.Ok? && s.store <= r.value.store
      && forall j :: 0 <= j < i ==>
        Read(r.value.store, NewBlocks(s.store, |v.items|)[j]) == EncodeInto(v.items[j], ElementDef(def))
  {
    var items, first, slots := v.items, v.items[..i], NewBlocks(s.store, |v.items|);
    var s1 := StructArrayProlog(s, v, def);
    var start: seq<Event<AnyValue>> := [ArrayProlog(v)];
    RunAppend(s, start, ItemEvents(first, 0));
    assert start[1..] == [];
    assert Run(s, start) == Ok(s1);
    MachineWritesItems(first, 0, s1);
    WriteItemsIsRight(s.store, ElementDef(def), slots, first, 0, s1.store);
    var store' := WriteItems(s1.store, slots, first, 0).value;
    FirstItemsRead(s.store, store', ElementDef(def), items, i);
  }

  lemma {:induction false} StructArrayProlog(s: State, v: AnyValue, def: TypeDef) returns (s1: State)
    requires v.Array? && v.element.StructType? && WellFormed(v)
    requires Current(s).Ok? && !Top(s.nodes).ScalarArrayNode? && IsSlot(s.store, Current(s).value, v, def)
    ensures Step(s, ArrayProlog(v)) == Ok(s1) && !ElementDef(def).NoType?
    ensures s1.nodes == s.nodes + [StructArrayNode(Current(s).value, NewBlocks(s.store, |v.items|), 0)]
    ensures forall i | 0 <= i <= |v.items| ::
      AreItems(v.items[..i], ElementDef(def)) && ItemsWritten(s.store, s1.store, ElementDef(def), v.items[..i], 0)
  {
    ArraySlot(s.store, Current(s).value, v, def);
    s1 := Step(s, ArrayProlog(v)).value;
    assert ItemsWritten(s.store, s1.store, ElementDef(def), v.items, 0);
  }

  lemma {:induction false} FirstItemsRead(store: Store, store': Store, def: TypeDef, items: seq<AnyValue>, i: nat)
    requires i <= |items| && !def.NoType? && ItemsWritten(store, store', def, items[..i], i)
    ensures forall j :: 0 <= j < i ==> Read(store', NewBlocks(store, |items|)[j]) == EncodeInto(items[j], def)
  {
    forall j | 0 <= j < i ensures Read(store', NewBlocks(store, |items|)[j]) == EncodeInto(items[j], def) {
      var k := |store| + j;
      assert ItemDenotes(store, store', def, items[..i], j);
      DenotesFrame(store', store', |store| + i, k + 1, store'[k], EncodeInto(items[j], def));
      SnapshotIsDenoted(store', k + 1, store'[k], EncodeInto(items[j], def));
      assert Lookup(store', NewBlocks(store, |items|)[j]) == Some(store'[k]);
    }
  }

  // ---------------------------------------------------------------------------------------------
  // BuildPVXSValue
  // ---------------------------------------------------------------------------------------------

  /** A value of the type, or a null value when there is no type. */
  function Initial(def: TypeDef): State {
    if def.NoType? then State([], [Plain(NullHandle)]) else State([Create(def)], [Plain(At(0, []))])
  }

  function Finished(s: State): Tree {
    if s.nodes == [] then Null else Read(s.store, Top(s.nodes).value)
  }

  function BuildPvxsValue(v: AnyValue): Result<Tree> {
    var def :- TypeBuilder.BuildPvxsType(TypeOf(v));
    var s :- Run(Initial(def), ValueEvents(v));
    Ok(Finished(s))
  }

  /** What BuildPVXSValue makes of a value once the type builder has made this of its type. */
  function Built(v: AnyValue, def: Result<TypeDef>): Result<Tree> {
    if def.Err? then Err(def.error) else Ok(EncodeInto(v, def.value))
  }

  /**
   Builder agreement, for every value: the value builder never throws on a value made from the type the
   type builder made, and the value reads as the translation into that type.
   */
  lemma {:induction false} BuiltValueExactly(v: AnyValue)
    requires WellFormed(v)
    ensures BuildPvxsValue(v) == Built(v, TypeBuilder.BuildPvxsType(TypeOf(v)))
  {
    var t := TypeOf(v);
    TypeBuilder.MachineBuilds(t, TypeBuilder.INITIAL);
    if TypeBuilder.Build(t, NoType).Ok? {
      var def := TypeBuilder.Build(t, NoType).value;
      if v.Empty? {
        MachineWrites(v, Initial(def));
      } else {
        WellFormedValuesHaveWellFormedTypes(v);
        TypeBuilder.BuiltFits(t, NoType);
        TypeBuilder.BuiltIsComplete(t, NoType);
        CreatedHasShape(def);
        VisitWritesSlot(Initial(def), v, def);
      }
    }
  }

  /** A value of supported type is built without any throw, and built right. */
  lemma {:induction false} BuiltValueIsEncoded(v: AnyValue)
    requires WellFormed(v) && (v.Empty? || SupportedType(TypeOf(v)))
    ensures BuildPvxsValue(v) == Ok(Encode(v))
  {
    BuiltValueExactly(v);
    TypeBuilder.TypeBuilderIsRightExactly(TypeOf(v));
    if !v.Empty? {
      SupportedTypeIsFilled(v);
      FilledEncodes(v, EncodeType(TypeOf(v)));
    }
  }

  lemma {:induction false} SupportedTypeIsFilled(v: AnyValue)
    requires WellFormed(v) && SupportedType(TypeOf(v))
    ensures Filled(v)
  {
    match v
    case Scalar(_, _) =>
    case Struct(_, ms) =>
      MemberTypes(v);
      forall i | 0 <= i < |ms| ensures Filled(ms[i].value) {
        assert SupportedType(TypeOf(v).members[i].typ);
        SupportedTypeIsFilled(ms[i].value);
      }
    case Array(_, _, items) =>
      forall i | 0 <= i < |items| ensures Filled(items[i]) {
        SupportedTypeIsFilled(items[i]);
      }
  }
}
