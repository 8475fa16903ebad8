/** PvxsTypeBuilder: a stack machine that turns the visit of an AnyType into a pvxs::TypeDef. */
module TypeBuilder {
  import opened Results
  import opened AnyValues
  import opened PvxsData
  import opened Stacks

  datatype TypeNode = TypeNode(def: TypeDef, code: TypeCode)

  datatype State = State(last: TypeDef, stack: seq<TypeNode>, arrayRequest: bool)

  const INITIAL := State(NoType, [], false)

  function AppendMember(def: TypeDef, name: string, member: TypeDef): Result<TypeDef> {
    if member.NoType? then Err(EmptyTypeDef)
    else if def.StructDef? || def.StructArrayDef? then Ok(def.(fields := def.fields + [FieldDef(name, member)]))
    else Err(NotCompound)
  }

  /** TypeDef(type_code): a definition without id and without members. */
  function DefOfCode(code: TypeCode): TypeDef {
    match code
    case Base(k) => ScalarDef(k)
    case ArrayOf(k) => ScalarArrayDef(k)
    case StructCode => StructDef("", [])
    case StructACode => StructArrayDef("", [])
    case _ => NoType
  }

  /** A definition made from a code has that code, unless nothing can be made from it. */
  lemma {:induction false} DefHasCode(code: TypeCode)
    ensures CodeOfDef(DefOfCode(code)) == code || DefOfCode(code) == NoType
    ensures DefOfCode(code) == NoType <==> !(code.Base? || code.ArrayOf? || code.StructCode? || code.StructACode?)
  {
  }

  function TypeName(t: AnyType): string {
    if t.StructType? || t.ArrayType? then t.name else ""
  }

  /** The effect of one callback. */
  function Step(s: State, e: Event<AnyType>): Result<State> {
    match e
    case StructProlog(t) =>
      if s.arrayRequest then
        Ok(s.(stack := s.stack + [TypeNode(StructArrayDef(TypeName(t), []), StructACode)], arrayRequest := false))
      else
        var code :- PvxsCode(t);
        Ok(s.(stack := s.stack + [TypeNode(StructDef(TypeName(t), []), code)]))
    case StructEpilog(_) =>
      if s.stack == [] then Err(EmptyStack)
      else if Top(s.stack).code.StructACode? then Ok(s)
      else Ok(s.(last := Top(s.stack).def, stack := Pop(s.stack)))
    case MemberEpilog(name) =>
      if s.stack == [] then Err(EmptyStack)
      else
        var def :- AppendMember(Top(s.stack).def, name, s.last);
        Ok(s.(stack := Pop(s.stack) + [Top(s.stack).(def := def)]))
    case ArrayProlog(t) =>
      var code :- PvxsCode(t);
      if code.StructACode? then Ok(s.(arrayRequest := true))
      else Ok(s.(stack := s.stack + [TypeNode(DefOfCode(code), code)]))
    case ArrayEpilog(_) =>
      if s.stack == [] then Err(EmptyStack)
      else Ok(s.(last := Top(s.stack).def, stack := Pop(s.stack)))
    case ScalarEpilog(t) =>
      var code :- PvxsCode(t);
      Ok(s.(last := DefOfCode(code)))
    case _ => Ok(s)
  }

  function Run(s: State, es: seq<Event<AnyType>>): Result<State>
    decreases es
  {
    if es == [] then Ok(s)
    else
      var s' :- Step(s, es[0]);
      Run(s', es[1..])
  }

  function StepAfter(r: Result<State>, e: Event<AnyType>): Result<State> {
    if r.Ok? then Step(r.value, e) else r
  }

  function RunAfter(r: Result<State>, es: seq<Event<AnyType>>): Result<State> {
    if r.Ok? then Run(r.value, es) else r
  }

  lemma {:induction false} RunAppend(s: State, a: seq<Event<AnyType>>, b: seq<Event<AnyType>>)
    ensures Run(s, a + b) == RunAfter(Run(s, a), b)
    decreases a
  {
    if a == [] {
      assert a + b == b;
    } else {
      assert (a + b)[1..] == a[1..] + b;
      if Step(s, a[0]).Ok? {
        RunAppend(Step(s, a[0]).value, a[1..], b);
      }
    }
  }

  // ---------------------------------------------------------------------------------------------
  // What the machine computes, by structure, for every type
  // ---------------------------------------------------------------------------------------------

  /**
   The definition left in `m_last_processed`, given the one that was there before. The visit of an
   Empty type leaves it alone, so an Empty member repeats the definition processed before it.
   */
  function Build(t: AnyType, last: TypeDef): Result<TypeDef>
    decreases t, 0
  {
    match t
    case EmptyType => Ok(last)
    case ScalarType(code) => Ok(ScalarDef(KindOf(code)))
    case StructType(name, ms) =>
      var r :- BuildMembers(ms, 0, [], last);
      Ok(StructDef(name, r.0))
    case ArrayType(_, _, element) =>
      match element
      case ScalarType(code) => Ok(ScalarArrayDef(KindOf(code)))
      case StructType(name, ms) =>
        var r :- BuildMembers(ms, 0, [], last);
        Ok(StructArrayDef(name, r.0))
      case _ => Err(UnknownAnyTypeCode)
  }

  function BuildMembers(ms: seq<MemberType>, i: nat, done: seq<FieldDef>, last: TypeDef): Result<(seq<FieldDef>, TypeDef)>
    requires i <= |ms|
    decreases ms, |ms| - i
  {
    if i == |ms| then Ok((done, last))
    else
      var def :- Build(ms[i].typ, last);
      if def.NoType? then Err(EmptyTypeDef)
      else BuildMembers(ms, i + 1, done + [FieldDef(ms[i].name, def)], def)
  }

  /**
   Refinement, for every type and from every state that awaits no structure: the visit restores the
   stack and the mode flag, and leaves the built definition in `last`.
   */
  lemma {:induction false} MachineBuilds(t: AnyType, s: State)
    requires !s.arrayRequest
    ensures Run(s, TypeEvents(t)) == match Build(t, s.last) case Ok(def) => Ok(s.(last := def)) case Err(e) => Err(e)
    decreases t, 1
  {
    match t
    case EmptyType =>
      RunTwo(s, EmptyProlog(t), EmptyEpilog(t));
    case ScalarType(_) =>
      RunTwo(s, ScalarProlog(t), ScalarEpilog(t));
    case StructType(_, _) => MachineBuildsStruct(t, s);
    case ArrayType(_, _, _) => MachineBuildsArray(t, s);
  }

  lemma {:induction false} MachineBuildsStruct(t: AnyType, s: State)
    requires t.StructType? && !s.arrayRequest
    ensures Run(s, TypeEvents(t)) == match Build(t, s.last) case Ok(def) => Ok(s.(last := def)) case Err(e) => Err(e)
    decreases t, 0
  {
    var node := TypeNode(StructDef(t.name, []), StructCode);
    RunBracket(s, StructProlog(t), MemberTypeEvents(t.members, 0), StructEpilog(t));
    MachineBuildsMembers(t.members, 0, s.(stack := s.stack + [node]), []);
    Restored(s, node);
  }

  lemma {:induction false} MachineBuildsArray(t: AnyType, s: State)
    requires t.ArrayType? && !s.arrayRequest
    ensures Run(s, TypeEvents(t)) == match Build(t, s.last) case Ok(def) => Ok(s.(last := def)) case Err(e) => Err(e)
    decreases t, 0
  {
    var element := t.element;
    RunBracket(s, ArrayProlog(t), TypeEvents(element), ArrayEpilog(t));
    if element.ScalarType? {
      var node := TypeNode(ScalarArrayDef(KindOf(element.code)), ArrayOf(KindOf(element.code)));
      RunTwo(s.(stack := s.stack + [node]), ScalarProlog(element), ScalarEpilog(element));
      Restored(s, node);
    } else if element.StructType? {
      ElementStructBuilds(element, s);
      Restored(s, TypeNode(StructArrayDef(element.name, []), StructACode));
    }
  }

  lemma {:induction false} Restored(s: State, node: TypeNode)
    ensures Pop(s.stack + [node]) == s.stack
  {
  }

  /** The element structure of an array: its definition stays on the stack, for the array to take. */
  lemma {:induction false} ElementStructBuilds(element: AnyType, s: State)
    requires element.StructType? && !s.arrayRequest
    ensures Run(s.(arrayRequest := true), TypeEvents(element)) ==
      match BuildMembers(element.members, 0, [], s.last)
      case Ok(r) =>
        Ok(s.(last := r.1, stack := s.stack + [TypeNode(StructArrayDef(element.name, r.0), StructACode)]))
      case Err(e) => Err(e)
    decreases element, 0
  {
    var node := TypeNode(StructArrayDef(element.name, []), StructACode);
    var requested := s.(arrayRequest := true);
    RunBracket(requested, StructProlog(element), MemberTypeEvents(element.members, 0), StructEpilog(element));
    assert Step(requested, StructProlog(element)) == Ok(s.(stack := s.stack + [node]));
    MachineBuildsMembers(element.members, 0, s.(stack := s.stack + [node]), []);
    Restored(s, node);
  }

  /** The members of the structure on top of the stack, plain or inside an array. */
  lemma {:induction false} MachineBuildsMembers(ms: seq<MemberType>, i: nat, s: State, done: seq<FieldDef>)
    requires i <= |ms|
    requires !s.arrayRequest && s.stack != []
    requires Top(s.stack).def.StructDef? || Top(s.stack).def.StructArrayDef?
    requires Top(s.stack).def.fields == done
    ensures Run(s, MemberTypeEvents(ms, i)) ==
      match BuildMembers(ms, i, done, s.last)
      case Ok(r) => Ok(s.(last := r.1, stack := Pop(s.stack) + [Top(s.stack).(def := Top(s.stack).def.(fields := r.0))]))
      case Err(e) => Err(e)
    decreases ms, |ms| - i
  {
    if i == |ms| {
      assert Pop(s.stack) + [Top(s.stack)] == s.stack;
    } else {
      RunMember(ms, i, s);
      MachineBuilds(ms[i].typ, s);
      if Build(ms[i].typ, s.last).Ok? {
        var def := Build(ms[i].typ, s.last).value;
        var built := s.(last := def);
        if !def.NoType? {
          var s1 := Step(built, MemberEpilog(ms[i].name)).value;
          assert Pop(s1.stack) == Pop(s.stack);
          MachineBuildsMembers(ms, i + 1, s1, done + [FieldDef(ms[i].name, def)]);
        }
      }
    }
  }

  lemma {:induction false} RunMember(ms: seq<MemberType>, i: nat, s: State)
    requires i < |ms|
    ensures Run(s, MemberTypeEvents(ms, i)) ==
      RunAfter(StepAfter(Run(s, TypeEvents(ms[i].typ)), MemberEpilog(ms[i].name)), MemberTypeEvents(ms, i + 1))
  {
    var name, inner, rest := ms[i].name, TypeEvents(ms[i].typ), MemberTypeEvents(ms, i + 1);
    var sep: seq<Event<AnyType>> := if i == 0 then [] else [StructMemberSeparator];
    var member := [MemberProlog(name)] + inner + [MemberEpilog(name)];
    assert MemberTypeEvents(ms, i) == sep + (member + rest);
    RunAppend(s, sep, member + rest);
    assert Run(s, sep) == Ok(s);
    RunAppend(s, member, rest);
    RunBracket(s, MemberProlog(name), inner, MemberEpilog(name));
  }

  lemma {:induction false} RunTwo(s: State, a: Event<AnyType>, b: Event<AnyType>)
    ensures Run(s, [a, b]) == StepAfter(Step(s, a), b)
  {
    assert [a, b][1..] == [b];
    if Step(s, a).Ok? {
      var s1 := Step(s, a).value;
      assert [b][1..] == [];
      assert Run(s1, [b]) == Step(s1, b);
    }
  }

  lemma {:induction false} RunBracket(s: State, a: Event<AnyType>, inner: seq<Event<AnyType>>, b: Event<AnyType>)
    ensures Run(s, [a] + inner + [b]) == StepAfter(RunAfter(Step(s, a), inner), b)
  {
    assert ([a] + inner + [b])[1..] == inner + [b];
    if Step(s, a).Ok? {
      var s1 := Step(s, a).value;
      RunAppend(s1, inner, [b]);
      if Run(s1, inner).Ok? {
        var s2 := Run(s1, inner).value;
        assert [b][1..] == [];
        assert Run(s2, [b]) == Step(s2, b);
      }
    }
  }

  // ---------------------------------------------------------------------------------------------
  // When that is the right definition
  // ---------------------------------------------------------------------------------------------

  lemma {:induction false} SupportedTypeBuilds(t: AnyType, last: TypeDef)
    requires SupportedType(t)
    ensures Build(t, last) == Ok(EncodeType(t)) && !EncodeType(t).NoType?
    decreases t, 0
  {
    match t
    case ScalarType(_) =>
    case StructType(_, ms) =>
      SupportedMembersBuild(ms, 0, [], last);
    case ArrayType(_, _, element) =>
      if element.StructType? {
        SupportedMembersBuild(element.members, 0, [], last);
      }
  }

  lemma {:induction false} SupportedMembersBuild(ms: seq<MemberType>, i: nat, done: seq<FieldDef>, last: TypeDef)
    requires i <= |ms| && done == EncodeMembers(ms)[..i]
    requires forall k :: 0 <= k < |ms| ==> SupportedType(ms[k].typ)
    ensures BuildMembers(ms, i, done, last).Ok? && BuildMembers(ms, i, done, last).value.0 == EncodeMembers(ms)
    decreases ms, |ms| - i
  {
    if i < |ms| {
      SupportedTypeBuilds(ms[i].typ, last);
      var done' := done + [FieldDef(ms[i].name, EncodeType(ms[i].typ))];
      assert done' == EncodeMembers(ms)[..i + 1];
      SupportedMembersBuild(ms, i + 1, done', EncodeType(ms[i].typ));
    }
  }

  ghost predicate BuildsTo(t: AnyType, def: TypeDef) {
    !def.NoType? && exists last :: Build(t, last) == Ok(def)
  }

  /** Members are only ever appended, under their names and never without a type. */
  lemma {:induction false} BuiltMembers(ms: seq<MemberType>, i: nat, done: seq<FieldDef>, last: TypeDef)
    requires i <= |ms| && i == |done|
    requires BuildMembers(ms, i, done, last).Ok?
    ensures var fields := BuildMembers(ms, i, done, last).value.0;
      && |fields| == |ms| && done <= fields
      && forall k :: i <= k < |ms| ==> fields[k].name == ms[k].name && BuildsTo(ms[k].typ, fields[k].def)
    decreases |ms| - i
  {
    if i < |ms| {
      var def := Build(ms[i].typ, last).value;
      var done' := done + [FieldDef(ms[i].name, def)];
      BuiltMembers(ms, i + 1, done', def);
      var fields := BuildMembers(ms, i, done, last).value.0;
      assert fields[i] == done'[i];
      assert Build(ms[i].typ, last) == Ok(fields[i].def);
      assert done == done'[..i];
    }
  }

  lemma {:induction false} RightOnlyIfSupported(t: AnyType, last: TypeDef)
    requires !t.EmptyType? && Build(t, last) == Ok(EncodeType(t))
    ensures SupportedType(t)
    decreases t
  {
    if t.StructType? {
      RightMembersOnlyIfSupported(t.members, last);
    } else if t.ArrayType? && t.element.StructType? {
      RightMembersOnlyIfSupported(t.element.members, last);
    }
  }

  lemma {:induction false} RightMembersOnlyIfSupported(ms: seq<MemberType>, last: TypeDef)
    requires BuildMembers(ms, 0, [], last).Ok? && BuildMembers(ms, 0, [], last).value.0 == EncodeMembers(ms)
    ensures forall k :: 0 <= k < |ms| ==> SupportedType(ms[k].typ)
    decreases ms
  {
    BuiltMembers(ms, 0, [], last);
    forall k | 0 <= k < |ms| ensures SupportedType(ms[k].typ) {
      var def := EncodeMembers(ms)[k].def;
      assert BuildsTo(ms[k].typ, def);
      var l :| Build(ms[k].typ, l) == Ok(def);
      RightOnlyIfSupported(ms[k].typ, l);
    }
  }

  /** BuildPVXSType. */
  function BuildPvxsType(t: AnyType): Result<TypeDef> {
    var s :- Run(INITIAL, TypeEvents(t));
    Ok(s.last)
  }

  /** The built type is the translated one exactly for the supported types and the Empty type itself. */
  lemma {:induction false} TypeBuilderIsRightExactly(t: AnyType)
    ensures BuildPvxsType(t) == Ok(EncodeType(t)) <==> t.EmptyType? || SupportedType(t)
  {
    MachineBuilds(t, INITIAL);
    if SupportedType(t) {
      SupportedTypeBuilds(t, NoType);
    } else if !t.EmptyType? && BuildPvxsType(t) == Ok(EncodeType(t)) {
      RightOnlyIfSupported(t, NoType);
    }
  }

  /** Every array, at any depth, is an array of scalars or of structures. */
  ghost predicate ArraysOfScalarsOrStructs(t: AnyType) {
    match t
    case EmptyType => true
    case ScalarType(_) => true
    case StructType(_, ms) => forall i :: 0 <= i < |ms| ==> ArraysOfScalarsOrStructs(ms[i].typ)
    case ArrayType(_, _, element) =>
      (element.ScalarType? || element.StructType?) && ArraysOfScalarsOrStructs(element)
  }

  /** The first thing a visit of the members meets is a member of the Empty type. */
  predicate FirstIsEmpty(t: AnyType) {
    match t
    case StructType(_, ms) => ms != [] && (ms[0].typ.EmptyType? || FirstIsEmpty(ms[0].typ))
    case ArrayType(_, _, element) => element.StructType? && FirstIsEmpty(element)
    case _ => false
  }

  lemma {:induction false} BuildSucceedsExactly(t: AnyType, last: TypeDef)
    ensures Build(t, last).Ok? <==> ArraysOfScalarsOrStructs(t) && (last.NoType? ==> !FirstIsEmpty(t))
    decreases t, 0
  {
    if t.StructType? {
      BuildMembersSucceedsExactly(t.members, 0, [], last);
    } else if t.ArrayType? && t.element.StructType? {
      var ms := t.element.members;
      BuildMembersSucceedsExactly(ms, 0, [], last);
      assert ArraysOfScalarsOrStructs(t.element) <==> forall k :: 0 <= k < |ms| ==> ArraysOfScalarsOrStructs(ms[k].typ);
      assert FirstIsEmpty(t.element) <==> ms != [] && (ms[0].typ.EmptyType? || FirstIsEmpty(ms[0].typ));
    }
  }

  /** After the first member there always is a definition that an Empty member can repeat. */
  lemma {:induction false} BuildMembersSucceedsExactly(ms: seq<MemberType>, i: nat, done: seq<FieldDef>, last: TypeDef)
    requires i <= |ms|
    ensures BuildMembers(ms, i, done, last).Ok? <==>
      && (forall k :: i <= k < |ms| ==> ArraysOfScalarsOrStructs(ms[k].typ))
      && (last.NoType? && i < |ms| ==> !ms[i].typ.EmptyType? && !FirstIsEmpty(ms[i].typ))
    decreases ms, |ms| - i
  {
    if i < |ms| {
      var typ := ms[i].typ;
      BuildSucceedsExactly(typ, last);
      if Build(typ, last).Ok? {
        var def := Build(typ, last).value;
        assert def.NoType? <==> typ.EmptyType? && last.NoType?;
        BuildMembersSucceedsExactly(ms, i + 1, done + [FieldDef(ms[i].name, def)], def);
      }
    }
  }

  /** An array of anything but scalars or structures makes the builder throw, whatever the rest of the type. */
  lemma {:induction false} BuildChecksArrays(t: AnyType, last: TypeDef)
    requires Build(t, last).Ok?
    ensures ArraysOfScalarsOrStructs(t)
  {
    BuildSucceedsExactly(t, last);
  }

  /** The two ways to make the builder throw: a bad array, or an Empty member with nothing to repeat. */
  lemma {:induction false} TypeBuilderThrowsExactly(t: AnyType)
    ensures BuildPvxsType(t).Err? <==> !ArraysOfScalarsOrStructs(t) || FirstIsEmpty(t)
  {
    MachineBuilds(t, INITIAL);
    BuildSucceedsExactly(t, NoType);
  }

  /**
   An Empty member silently takes the definition of the member before it, whatever that is; the first
   member takes the definition that was processed before the structure was entered.
   */
  lemma {:induction false} EmptyMemberRepeatsType(ms: seq<MemberType>, k: nat, last: TypeDef)
    requires BuildMembers(ms, 0, [], last).Ok?
    requires k < |ms| && ms[k].typ.EmptyType?
    ensures var fields := BuildMembers(ms, 0, [], last).value.0;
      |fields| == |ms| && fields[k] == FieldDef(ms[k].name, if k == 0 then last else fields[k - 1].def)
  {
    EmptyMemberFrom(ms, 0, [], last, k);
  }

  lemma {:induction false} EmptyMemberFrom(ms: seq<MemberType>, i: nat, done: seq<FieldDef>, last: TypeDef, k: nat)
    requires i <= k < |ms| && i == |done| && ms[k].typ.EmptyType?
    requires BuildMembers(ms, i, done, last).Ok?
    ensures var fields := BuildMembers(ms, i, done, last).value.0;
      && |fields| == |ms| && done <= fields
      && fields[k] == FieldDef(ms[k].name, if k == i then last else fields[k - 1].def)
    decreases k - i
  {
    BuiltMembers(ms, i, done, last);
    var def := Build(ms[i].typ, last).value;
    var done' := done + [FieldDef(ms[i].name, def)];
    var fields := BuildMembers(ms, i + 1, done', def).value.0;
    BuiltMembers(ms, i + 1, done', def);
    assert fields[i] == done'[i];
    if i < k {
      EmptyMemberFrom(ms, i + 1, done', def, k);
    }
  }

  // ---------------------------------------------------------------------------------------------
  // What every built definition is like
  // ---------------------------------------------------------------------------------------------

  lemma {:induction false} BuiltFits(t: AnyType, last: TypeDef)
    requires Build(t, last).Ok? && !Build(t, last).value.NoType?
    ensures FitsType(t, Build(t, last).value)
    decreases t
  {
    var ms := if t.StructType? then t.members else if t.ArrayType? && t.element.StructType? then t.element.members else [];
    if t.StructType? || (t.ArrayType? && t.element.StructType?) {
      BuiltMembers(ms, 0, [], last);
      var fields := BuildMembers(ms, 0, [], last).value.0;
      forall k | 0 <= k < |ms| ensures FitsType(ms[k].typ, fields[k].def) {
        assert BuildsTo(ms[k].typ, fields[k].def);
        var l :| Build(ms[k].typ, l) == Ok(fields[k].def);
        BuiltFits(ms[k].typ, l);
      }
    }
  }

  lemma {:induction false} BuiltIsComplete(t: AnyType, last: TypeDef)
    requires WellFormedType(t) && (last.NoType? || Complete(last))
    requires Build(t, last).Ok?
    ensures Build(t, last).value.NoType? || Complete(Build(t, last).value)
    decreases t, 0
  {
    if t.StructType? {
      BuiltMembersAreComplete(t.members, 0, [], last);
      BuiltMembers(t.members, 0, [], last);
    } else if t.ArrayType? && t.element.StructType? {
      BuiltMembersAreComplete(t.element.members, 0, [], last);
      BuiltMembers(t.element.members, 0, [], last);
    }
  }

  lemma {:induction false} BuiltMembersAreComplete(ms: seq<MemberType>, i: nat, done: seq<FieldDef>, last: TypeDef)
    requires i <= |ms| && (last.NoType? || Complete(last))
    requires forall k :: 0 <= k < |ms| ==> WellFormedType(ms[k].typ)
    requires forall k :: 0 <= k < |done| ==> Complete(done[k].def)
    requires BuildMembers(ms, i, done, last).Ok?
    ensures var fields := BuildMembers(ms, i, done, last).value.0;
      forall k :: 0 <= k < |fields| ==> Complete(fields[k].def)
    decreases ms, |ms| - i
  {
    if i < |ms| {
      BuiltIsComplete(ms[i].typ, last);
      var def := Build(ms[i].typ, last).value;
      BuiltMembersAreComplete(ms, i + 1, done + [FieldDef(ms[i].name, def)], def);
    }
  }

  // ---------------------------------------------------------------------------------------------
  // The class
  // ---------------------------------------------------------------------------------------------

  class PvxsTypeBuilder {
    var last: TypeDef
    var stack: seq<TypeNode>
    var arrayRequest: bool

    constructor ()
      ensures Current() == INITIAL
    {
      last, stack, arrayRequest := NoType, [], false;
    }

    ghost function Current(): State
      reads this
    {
      State(last, stack, arrayRequest)
    }

    /** The call ended as the step did. */
    ghost predicate Follows(r: Result<()>, expected: Result<State>)
      reads this
    {
      match expected
      case Ok(s) => r.Ok? && Current() == s
      case Err(e) => r == Err(e)
    }

    predicate IsInArrayOfStructMode()
      reads this
    {
      stack != [] && stack[|stack| - 1].code.StructACode?
    }

    method StructProlog(t: AnyType) returns (r: Result<()>)
      modifies this
      ensures Follows(r, Step(old(Current()), Event.StructProlog(t)))
    {
      if arrayRequest {
        arrayRequest := false;
        stack := stack + [TypeNode(StructArrayDef(TypeName(t), []), StructACode)];
        return Ok(());
      }
      var code := PvxsCode(t);
      if code.Err? {
        return Err(code.error);
      }
      stack := stack + [TypeNode(StructDef(TypeName(t), []), code.value)];
      return Ok(());
    }

    method StructEpilog(t: AnyType) returns (r: Result<()>)
      modifies this
      ensures Follows(r, Step(old(Current()), Event.StructEpilog(t)))
    {
      if IsInArrayOfStructMode() {
        return Ok(());
      }
      r := PopLast();
    }

    method MemberEpilog(name: string) returns (r: Result<()>)
      modifies this
      ensures Follows(r, Step(old(Current()), Event.MemberEpilog(name)))
    {
      if stack == [] {
        return Err(EmptyStack);
      }
      var top := stack[|stack| - 1];
      var def := AppendMember(top.def, name, last);
      if def.Err? {
        return Err(def.error);
      }
      stack := stack[..|stack| - 1] + [top.(def := def.value)];
      return Ok(());
    }

    method ArrayProlog(t: AnyType) returns (r: Result<()>)
      modifies this
      ensures Follows(r, Step(old(Current()), Event.ArrayProlog(t)))
    {
      var code := PvxsCode(t);
      if code.Err? {
        return Err(code.error);
      }
      if code.value == StructACode {
        arrayRequest := true;
        return Ok(());
      }
      stack := stack + [TypeNode(DefOfCode(code.value), code.value)];
      return Ok(());
    }

    method ArrayEpilog(t: AnyType) returns (r: Result<()>)
      modifies this
      ensures Follows(r, Step(old(Current()), Event.ArrayEpilog(t)))
    {
      r := PopLast();
    }

    method ScalarEpilog(t: AnyType) returns (r: Result<()>)
      modifies this
      ensures Follows(r, Step(old(Current()), Event.ScalarEpilog(t)))
    {
      var code := PvxsCode(t);
      if code.Err? {
        return Err(code.error);
      }
      last := DefOfCode(code.value);
      return Ok(());
    }

    method PopLast() returns (r: Result<()>)
      modifies this
      ensures old(stack) == [] ==> r == Err(EmptyStack)
      ensures old(stack) != [] ==>
        r.Ok? && last == Top(old(stack)).def && stack == Pop(old(stack)) && arrayRequest == old(arrayRequest)
    {
      if stack == [] {
        return Err(EmptyStack);
      }
      last := stack[|stack| - 1].def;
      stack := stack[..|stack| - 1];
      return Ok(());
    }

    /** Dispatch to the callback; the callbacks that are not listed do nothing. */
    method Visit(e: Event<AnyType>) returns (r: Result<()>)
      modifies this
      ensures Follows(r, Step(old(Current()), e))
    {
      match e
      case StructProlog(t) => r := StructProlog(t);
      case StructEpilog(t) => r := StructEpilog(t);
      case MemberEpilog(name) => r := MemberEpilog(name);
      case ArrayProlog(t) => r := ArrayProlog(t);
      case ArrayEpilog(t) => r := ArrayEpilog(t);
      case ScalarEpilog(t) => r := ScalarEpilog(t);
      case _ => r := Ok(());
    }
  }

  /** BuildPVXSType on the class: SerializeAnyType feeds the visit to a fresh builder. */
  method BuildType(t: AnyType) returns (r: Result<TypeDef>)
    ensures r == BuildPvxsType(t)
  {
    var builder := new PvxsTypeBuilder();
    var es := TypeEvents(t);
    for i := 0 to |es|
      invariant Run(INITIAL, es) == Run(builder.Current(), es[i..])
    {
      assert es[i..][1..] == es[i + 1..];
      var step := builder.Visit(es[i]);
      if step.Err? {
        return Err(step.error);
      }
    }
    return Ok(builder.last);
  }
}
