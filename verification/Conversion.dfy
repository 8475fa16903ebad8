/** BuildAnyValue by structure, when it succeeds, and the round trip through PVXS. */
module Conversion {
  import opened Results
  import opened AnyValues
  import opened PvxsData
  import opened ReverseWalk
  import C = Composer
  import TypeBuilder
  import ValueBuilder

  // ---------------------------------------------------------------------------------------------
  // What the walk and the composer build together
  // ---------------------------------------------------------------------------------------------

  /** The AnyValue of a nested PVXS node, or the first throw of its trace. */
  function Decode(tree: Tree): Result<AnyValue>
    decreases tree, 0
  {
    match tree
    case Null => Err(UnsupportedPvxsValue)
    case Foreign(_) =>
      if IsScalarArray(CodeOfTree(tree)) then Err(UnknownPvxsTypeCode) else Err(UnsupportedPvxsValue)
    case Leaf(k, d) => Ok(Scalar(CodeOf(k), d))
    case Leaves(k, ds) => Ok(Array("", ScalarType(CodeOf(k)), ScalarItems(k, ds)))
    case Node(id, fields) =>
      var members :- DecodeFields(fields, 0, []);
      Ok(Struct(id, members))
    case Nodes(elems) =>
      var items :- DecodeElements(elems, 0, []);
      if items == [] then Err(NoElementType) else Ok(Array("", TypeOf(items[0]), items))
  }

  function DecodeFields(fields: seq<Field>, i: nat, done: seq<Member>): Result<seq<Member>>
    requires i <= |fields|
    decreases fields, |fields| - i
  {
    if i == |fields| then Ok(done)
    else
      var v :- Decode(fields[i].tree);
      if C.HasMember(done, fields[i].name) then Err(DuplicateMember)
      else DecodeFields(fields, i + 1, done + [Member(fields[i].name, v)])
  }

  function DecodeElements(elems: seq<Tree>, i: nat, done: seq<AnyValue>): Result<seq<AnyValue>>
    requires i <= |elems|
    decreases elems, |elems| - i
  {
    if i == |elems| then Ok(done)
    else
      var v :- Decode(elems[i]);
      if done != [] && TypeOf(done[0]) != TypeOf(v) then Err(MixedElementTypes)
      else DecodeElements(elems, i + 1, done + [v])
  }

  /** Where a decoded value goes, by the context of its node. */
  function Place(s: C.State, r: Result<AnyValue>, name: string, context: Context): Result<C.State> {
    if r.Err? then Err(r.error)
    else
      match context
      case Root => C.Finish(s, r.value)
      case StructField => C.AddMember(s, name, r.value)
      case ArrayElement => C.AddItem(s, r.value)
  }

  predicate Accepts(s: C.State, context: Context) {
    match context
    case Root => C.Ready(s)
    case StructField => s.frames != [] && C.Top(s).StructFrame?
    case ArrayElement => s.frames != [] && C.Top(s).ArrayFrame?
  }

  function Delivered(s: C.State, r: Result<AnyValue>): Result<C.State> {
    if r.Err? then Err(r.error) else C.Finish(s, r.value)
  }

  /** Composing the trace of a node adds exactly its decoded value, for every node and every context. */
  lemma {:induction false} TraceComposes(s: C.State, tree: Tree, name: string, context: Context)
    requires Accepts(s, context)
    ensures C.Run(s, Trace(tree, name, context)) == Place(s, Decode(tree), name, context)
    decreases tree, 2
  {
    match context
    case Root =>
      if tree.Null? || tree.Foreign? {
        ThrowsAlone(s, tree, name, context);
      } else {
        assert Trace(tree, name, context) == Body(tree);
        BodyComposes(s, tree);
      }
    case StructField =>
      NestedComposes(s, tree, name, context, C.StartField(name), C.EndField, C.FieldFrame(name, None));
    case ArrayElement =>
      NestedComposes(s, tree, name, context, C.StartArrayElement, C.EndArrayElement, C.ElementFrame(None));
  }

  lemma {:induction false} ThrowsAlone(s: C.State, tree: Tree, name: string, context: Context)
    requires Accepts(s, context) && (tree.Null? || tree.Foreign?)
    ensures C.Run(s, Trace(tree, name, context)) == Err(Decode(tree).error)
  {
    if tree.Null? || !IsScalarArray(CodeOfTree(tree)) {
      C.RunOne(s, C.Throw(UnsupportedPvxsValue));
    } else {
      var call := C.Throw(UnknownPvxsTypeCode);
      assert LeafCall(tree) == call;
      match context {
        case Root =>
          assert Trace(tree, name, context) == [call];
          C.RunOne(s, call);
        case StructField =>
          assert Trace(tree, name, context) == [C.StartField(name)] + [call] + [C.EndField];
          C.RunBracket(s, C.StartField(name), [call], C.EndField);
          C.RunOne(C.Step(s, C.StartField(name)).value, call);
        case ArrayElement =>
          assert Trace(tree, name, context) == [C.StartArrayElement] + [call] + [C.EndArrayElement];
          C.RunBracket(s, C.StartArrayElement, [call], C.EndArrayElement);
          C.RunOne(C.Step(s, C.StartArrayElement).value, call);
      }
    }
  }

  /** A field or an element: its frame is pushed, filled by the body and taken off again. */
  lemma {:induction false} NestedComposes(
    s: C.State, tree: Tree, name: string, context: Context, start: C.Call, end: C.Call, f: C.Frame)
    requires Accepts(s, context)
    requires match context
      case Root => false
      case StructField => start == C.StartField(name) && end == C.EndField && f == C.FieldFrame(name, None)
      case ArrayElement => start == C.StartArrayElement && end == C.EndArrayElement && f == C.ElementFrame(None)
    ensures C.Run(s, Trace(tree, name, context)) == Place(s, Decode(tree), name, context)
    decreases tree, 1
  {
    if tree.Null? || tree.Foreign? {
      ThrowsAlone(s, tree, name, context);
    } else {
      var inner := C.Push(s, f);
      assert Trace(tree, name, context) == [start] + Body(tree) + [end];
      C.RunBracket(s, start, Body(tree), end);
      assert C.Step(s, start) == Ok(inner);
      BodyComposes(inner, tree);
      Ended(s, f, end, Decode(tree), name, context);
    }
  }

  lemma {:induction false} Ended(s: C.State, f: C.Frame, end: C.Call, r: Result<AnyValue>, name: string, context: Context)
    requires Accepts(s, context)
    requires (context.StructField? && end == C.EndField && f == C.FieldFrame(name, None))
          || (context.ArrayElement? && end == C.EndArrayElement && f == C.ElementFrame(None))
    ensures C.Ready(C.Push(s, f))
    ensures C.StepAfter(Delivered(C.Push(s, f), r), end) == Place(s, r, name, context)
  {
    if r.Ok? {
      TakenOff(s, f, r.value);
    }
  }

  lemma {:induction false} TakenOff(s: C.State, f: C.Frame, v: AnyValue)
    requires (f.FieldFrame? || f.ElementFrame?) && f.content.None?
    ensures C.Ready(C.Push(s, f))
    ensures C.Pop(C.Deliver(C.Push(s, f), v)) == s
    ensures C.Top(C.Deliver(C.Push(s, f), v)) == f.(content := Some(v))
  {
    assert C.Pop(C.Push(s, f)).frames == s.frames;
    assert C.Pop(C.Deliver(C.Push(s, f), v)).frames == s.frames;
  }

  lemma {:induction false} BodyComposes(s: C.State, tree: Tree)
    requires C.Ready(s) && !tree.Null? && !tree.Foreign?
    ensures C.Run(s, Body(tree)) == Delivered(s, Decode(tree))
    decreases tree, 0
  {
    match tree
    case Leaf(_, _) => C.RunOne(s, LeafCall(tree));
    case Leaves(_, _) => C.RunOne(s, LeafCall(tree));
    case Node(id, fields) => StructComposes(s, id, fields);
    case Nodes(elems) => ArrayComposes(s, elems);
  }

  lemma {:induction false} StructComposes(s: C.State, id: string, fields: seq<Field>)
    requires C.Ready(s)
    ensures C.Run(s, [C.StartStruct(id)] + FieldTraces(fields, 0) + [C.EndStruct]) == Delivered(s, Decode(Node(id, fields)))
    decreases fields, |fields| + 1
  {
    C.RunBracket(s, C.StartStruct(id), FieldTraces(fields, 0), C.EndStruct);
    FieldsCompose(s, id, fields, 0, []);
    var r := DecodeFields(fields, 0, []);
    if r.Ok? {
      PushPop(s, id, r.value, []);
    }
  }

  lemma {:induction false} ArrayComposes(s: C.State, elems: seq<Tree>)
    requires C.Ready(s)
    ensures C.Run(s, [C.StartArray("")] + ElementTraces(elems, 0) + [C.EndArray]) == Delivered(s, Decode(Nodes(elems)))
    decreases elems, |elems| + 1
  {
    C.RunBracket(s, C.StartArray(""), ElementTraces(elems, 0), C.EndArray);
    ElementsCompose(s, elems, 0, []);
    var r := DecodeElements(elems, 0, []);
    if r.Ok? {
      PushPop(s, "", [], r.value);
    }
  }

  lemma {:induction false} PushPop(s: C.State, name: string, members: seq<Member>, items: seq<AnyValue>)
    ensures C.Pop(C.Push(s, C.StructFrame(name, members))) == s
    ensures C.Pop(C.Push(s, C.ArrayFrame(name, items))) == s
  {
    assert C.Pop(C.Push(s, C.StructFrame(name, members))).frames == s.frames;
    assert C.Pop(C.Push(s, C.ArrayFrame(name, items))).frames == s.frames;
  }

  lemma {:induction false} FieldsCompose(s: C.State, id: string, fields: seq<Field>, i: nat, done: seq<Member>)
    requires i <= |fields|
    ensures C.Run(C.Push(s, C.StructFrame(id, done)), FieldTraces(fields, i)) ==
      var r := DecodeFields(fields, i, done);
      if r.Ok? then Ok(C.Push(s, C.StructFrame(id, r.value))) else Err(r.error)
    decreases fields, |fields| - i
  {
    if i < |fields| {
      var s1 := C.Push(s, C.StructFrame(id, done));
      var name := fields[i].name;
      C.RunAppend(s1, Trace(fields[i].tree, name, StructField), FieldTraces(fields, i + 1));
      TraceComposes(s1, fields[i].tree, name, StructField);
      PushPop(s, id, done, []);
      if Decode(fields[i].tree).Ok? && !C.HasMember(done, name) {
        FieldsCompose(s, id, fields, i + 1, done + [Member(name, Decode(fields[i].tree).value)]);
      }
    }
  }

  lemma {:induction false} ElementsCompose(s: C.State, elems: seq<Tree>, i: nat, done: seq<AnyValue>)
    requires i <= |elems|
    ensures C.Run(C.Push(s, C.ArrayFrame("", done)), ElementTraces(elems, i)) ==
      var r := DecodeElements(elems, i, done);
      if r.Ok? then Ok(C.Push(s, C.ArrayFrame("", r.value))) else Err(r.error)
    decreases elems, |elems| - i
  {
    if i < |elems| {
      var s1 := C.Push(s, C.ArrayFrame("", done));
      C.RunAppend(s1, Trace(elems[i], "", ArrayElement), ElementTraces(elems, i + 1));
      TraceComposes(s1, elems[i], "", ArrayElement);
      PushPop(s, "", [], done);
      if Decode(elems[i]).Ok? && (done == [] || TypeOf(done[0]) == TypeOf(Decode(elems[i]).value)) {
        ElementsCompose(s, elems, i + 1, done + [Decode(elems[i]).value]);
      }
    }
  }

  // ---------------------------------------------------------------------------------------------
  // When decoding succeeds, and with which value
  // ---------------------------------------------------------------------------------------------

  function ValueOf(tree: Tree): AnyValue {
    match tree
    case Null => Empty
    case Foreign(_) => Empty
    case Leaf(k, d) => Scalar(CodeOf(k), d)
    case Leaves(k, ds) => Array("", ScalarType(CodeOf(k)), ScalarItems(k, ds))
    case Node(id, fields) => Struct(id, MembersOf(fields))
    case Nodes(elems) =>
      var items := ItemsOf(elems);
      Array("", if items == [] then EmptyType else TypeOf(items[0]), items)
  }

  function MembersOf(fields: seq<Field>): seq<Member> {
    seq(|fields|, i requires 0 <= i < |fields| => Member(fields[i].name, ValueOf(fields[i].tree)))
  }

  function ItemsOf(elems: seq<Tree>): seq<AnyValue> {
    seq(|elems|, i requires 0 <= i < |elems| => ValueOf(elems[i]))
  }

  ghost predicate DistinctFields(fields: seq<Field>, n: nat)
    requires n <= |fields|
  {
    forall i, j :: 0 <= i < j < n ==> fields[i].name != fields[j].name
  }

  ghost predicate Uniform(elems: seq<Tree>, n: nat)
    requires n <= |elems|
  {
    forall i :: 0 <= i < n ==> TypeOf(ValueOf(elems[i])) == TypeOf(ValueOf(elems[0]))
  }

  /** No nested null, union or any; and what a composer can accept: unique names, non-empty uniform arrays. */
  ghost predicate Decodable(tree: Tree) {
    match tree
    case Null => false
    case Foreign(_) => false
    case Leaf(_, _) => true
    case Leaves(_, _) => true
    case Node(_, fields) =>
      DistinctFields(fields, |fields|) && forall i :: 0 <= i < |fields| ==> Decodable(fields[i].tree)
    case Nodes(elems) =>
      elems != [] && Uniform(elems, |elems|) && forall i :: 0 <= i < |elems| ==> Decodable(elems[i])
  }

  lemma {:induction false} DecodesExactly(tree: Tree)
    ensures Decode(tree).Ok? <==> Decodable(tree)
    ensures Decode(tree).Ok? ==> Decode(tree).value == ValueOf(tree)
    decreases tree, 0
  {
    match tree
    case Null =>
    case Foreign(_) =>
    case Leaf(_, _) =>
    case Leaves(_, _) =>
    case Node(_, fields) => FieldsDecodeExactly(fields, 0, []);
    case Nodes(elems) =>
      ElementsDecodeExactly(elems, 0, []);
      assert |ItemsOf(elems)| == |elems|;
  }

  lemma {:induction false} FieldsDecodeExactly(fields: seq<Field>, i: nat, done: seq<Member>)
    requires i <= |fields| && done == MembersOf(fields)[..i] && DistinctFields(fields, i)
    ensures DecodeFields(fields, i, done).Ok? <==>
      DistinctFields(fields, |fields|) && forall k :: i <= k < |fields| ==> Decodable(fields[k].tree)
    ensures DecodeFields(fields, i, done).Ok? ==> DecodeFields(fields, i, done).value == MembersOf(fields)
    decreases fields, |fields| - i
  {
    if i < |fields| {
      DecodesExactly(fields[i].tree);
      assert |done| == i && forall k :: 0 <= k < i ==> done[k].name == fields[k].name;
      var member := Member(fields[i].name, ValueOf(fields[i].tree));
      assert done + [member] == MembersOf(fields)[..i + 1];
      if C.HasMember(done, fields[i].name) {
        var k :| 0 <= k < |done| && done[k].name == fields[i].name;
        assert fields[k].name == fields[i].name;
      } else if Decodable(fields[i].tree) {
        FieldsDecodeExactly(fields, i + 1, done + [member]);
      }
    }
  }

  lemma {:induction false} ElementsDecodeExactly(elems: seq<Tree>, i: nat, done: seq<AnyValue>)
    requires i <= |elems| && done == ItemsOf(elems)[..i] && Uniform(elems, i)
    ensures DecodeElements(elems, i, done).Ok? <==>
      Uniform(elems, |elems|) && forall k :: i <= k < |elems| ==> Decodable(elems[k])
    ensures DecodeElements(elems, i, done).Ok? ==> DecodeElements(elems, i, done).value == ItemsOf(elems)
    decreases elems, |elems| - i
  {
    if i < |elems| {
      DecodesExactly(elems[i]);
      var v := ValueOf(elems[i]);
      assert done + [v] == ItemsOf(elems)[..i + 1];
      assert i > 0 ==> done[0] == ValueOf(elems[0]);
      if Decodable(elems[i]) && (i == 0 || TypeOf(ValueOf(elems[0])) == TypeOf(v)) {
        ElementsDecodeExactly(elems, i + 1, done + [v]);
      }
    }
  }

  /** BuildAnyValue: the composer's value, which is Empty when nothing was composed. */
  function BuildAnyValue(tree: Tree): Result<AnyValue> {
    var s :- Composed(tree);
    Ok(if s.root.Some? then s.root.value else Empty)
  }

  lemma {:induction false} BuildAnyValueDecodes(tree: Tree)
    ensures BuildAnyValue(tree) == if tree.Null? then Ok(Empty) else Decode(tree)
  {
    if !tree.Null? {
      TraceComposes(C.INITIAL, tree, "", Root);
    }
  }

  /** The exact domain of BuildAnyValue, and its value there. */
  lemma {:induction false} BuildAnyValueExactly(tree: Tree)
    ensures BuildAnyValue(tree).Ok? <==> tree.Null? || Decodable(tree)
    ensures BuildAnyValue(tree).Ok? ==> BuildAnyValue(tree).value == ValueOf(tree)
  {
    BuildAnyValueDecodes(tree);
    DecodesExactly(tree);
  }

  /** The two throws for nodes without translation: their arrays pass for arrays of scalars until the code is looked up. */
  lemma {:induction false} ForeignThrows(code: ForeignCode)
    ensures BuildAnyValue(Foreign(code)) ==
      Err(if code == UnionArray || code == AnyArray then UnknownPvxsTypeCode else UnsupportedPvxsValue)
  {
    BuildAnyValueDecodes(Foreign(code));
  }

  // ---------------------------------------------------------------------------------------------
  // The round trip
  // ---------------------------------------------------------------------------------------------

  function NormCode(code: ScalarCode): ScalarCode {
    if code.Char8? then ScalarCode.UInt8 else code
  }

  function NormType(t: AnyType): AnyType {
    match t
    case EmptyType => t
    case ScalarType(code) => ScalarType(NormCode(code))
    case StructType(name, ms) =>
      StructType(name, seq(|ms|, i requires 0 <= i < |ms| => MemberType(ms[i].name, NormType(ms[i].typ))))
    case ArrayType(_, size, element) => ArrayType("", size, NormType(element))
  }

  /** What survives: everything but the difference of char8 and uint8, and the names of arrays. */
  function Norm(v: AnyValue): AnyValue {
    match v
    case Empty => v
    case Scalar(code, data) => Scalar(NormCode(code), data)
    case Struct(name, ms) =>
      Struct(name, seq(|ms|, i requires 0 <= i < |ms| => Member(ms[i].name, Norm(ms[i].value))))
    case Array(_, element, items) =>
      Array("", NormType(element), seq(|items|, i requires 0 <= i < |items| => Norm(items[i])))
  }

  lemma {:induction false} CodeOfKindOf(code: ScalarCode)
    ensures CodeOf(KindOf(code)) == NormCode(code)
  {
  }

  lemma {:induction false} TypeOfNorm(v: AnyValue)
    ensures TypeOf(Norm(v)) == NormType(TypeOf(v))
  {
    if v.Struct? {
      var ms := v.members;
      forall i | 0 <= i < |ms| ensures TypeOf(Norm(ms[i].value)) == NormType(TypeOf(ms[i].value)) {
        TypeOfNorm(ms[i].value);
      }
      assert TypeOf(Norm(v)).members == NormType(TypeOf(v)).members;
    }
  }

  lemma {:induction false} EncodedDecodes(v: AnyValue)
    requires WellFormed(v) && Supported(v)
    ensures Decodable(Encode(v)) && ValueOf(Encode(v)) == Norm(v)
  {
    match v
    case Scalar(_, _) =>
    case Struct(_, ms) =>
      var fields := Encode(v).fields;
      forall i | 0 <= i < |ms| ensures Decodable(fields[i].tree) && ValueOf(fields[i].tree) == Norm(ms[i].value) {
        EncodedDecodes(ms[i].value);
      }
      assert MembersOf(fields) == Norm(v).members;
    case Array(_, element, items) =>
      if element.ScalarType? {
        ScalarArrayDecodes(v);
      } else {
        var elems := Encode(v).elems;
        forall i | 0 <= i < |items|
          ensures Decodable(elems[i]) && ValueOf(elems[i]) == Norm(items[i])
          ensures TypeOf(ValueOf(elems[i])) == NormType(element)
        {
          EncodedDecodes(items[i]);
          TypeOfNorm(items[i]);
        }
        assert ItemsOf(elems) == Norm(v).items;
      }
  }

  lemma {:induction false} ScalarArrayDecodes(v: AnyValue)
    requires v.Array? && v.element.ScalarType? && WellFormed(v)
    ensures ValueOf(Encode(v)) == Norm(v)
  {
    var items, code := v.items, v.element.code;
    CodeOfKindOf(code);
    forall i | 0 <= i < |items| ensures ScalarItems(KindOf(code), ItemData(items))[i] == Norm(v).items[i] {
      assert TypeOf(items[i]) == v.element;
      assert Norm(v).items[i] == Norm(items[i]);
    }
  }

  /** What a decoded value can be: nothing nested is Empty, and an empty array is one of scalars. */
  ghost predicate Canonical(v: AnyValue) {
    match v
    case Empty => false
    case Scalar(_, _) => true
    case Struct(_, ms) => forall i :: 0 <= i < |ms| ==> Canonical(ms[i].value)
    case Array(_, element, items) =>
      (items == [] ==> element.ScalarType?) && forall i :: 0 <= i < |items| ==> Canonical(items[i])
  }

  lemma {:induction false} DecodedIsCanonical(tree: Tree)
    requires Decodable(tree)
    ensures Canonical(ValueOf(tree))
  {
    if tree.Node? {
      forall i | 0 <= i < |tree.fields| ensures Canonical(ValueOf(tree).members[i].value) {
        DecodedIsCanonical(tree.fields[i].tree);
      }
    } else if tree.Nodes? {
      assert ValueOf(tree).items == ItemsOf(tree.elems);
      forall i | 0 <= i < |tree.elems| ensures Canonical(ValueOf(tree).items[i]) {
        DecodedIsCanonical(tree.elems[i]);
      }
    }
  }

  lemma {:induction false} CanonicalNormIsSupported(v: AnyValue)
    requires WellFormed(v) && Canonical(Norm(v)) && TypeBuilder.ArraysOfScalarsOrStructs(TypeOf(v))
    ensures Supported(v)
  {
    match v
    case Scalar(_, _) =>
    case Struct(_, ms) =>
      forall i | 0 <= i < |ms| ensures Supported(ms[i].value) {
        assert Norm(v).members[i].value == Norm(ms[i].value);
        assert TypeOf(v).members[i].typ == TypeOf(ms[i].value);
        CanonicalNormIsSupported(ms[i].value);
      }
    case Array(_, element, items) =>
      forall i | 0 <= i < |items| ensures Supported(items[i]) {
        assert Norm(v).items[i] == Norm(items[i]);
        CanonicalNormIsSupported(items[i]);
      }
      assert |Norm(v).items| == |items|;
  }

  function RoundTrip(v: AnyValue): Result<AnyValue> {
    var tree :- ValueBuilder.BuildPvxsValue(v);
    BuildAnyValue(tree)
  }

  /** The law of the translation, with the exact set of values it holds for. */
  lemma {:induction false} RoundTripsExactly(v: AnyValue)
    requires WellFormed(v)
    ensures RoundTrip(v) == Ok(Norm(v)) <==> v.Empty? || Supported(v)
  {
    if v.Empty? || Supported(v) {
      if !v.Empty? {
        SupportedHasSupportedType(v);
        EncodedDecodes(v);
      }
      ValueBuilder.BuiltValueIsEncoded(v);
      BuildAnyValueExactly(Encode(v));
    } else if RoundTrip(v) == Ok(Norm(v)) {
      var tree := ValueBuilder.BuildPvxsValue(v).value;
      BuildAnyValueExactly(tree);
      DecodedIsCanonical(tree);
      TypeBuilder.MachineBuilds(TypeOf(v), TypeBuilder.INITIAL);
      TypeBuilder.BuildChecksArrays(TypeOf(v), NoType);
      CanonicalNormIsSupported(v);
    }
  }

  // ---------------------------------------------------------------------------------------------
  // What becomes of all other values
  // ---------------------------------------------------------------------------------------------

  ghost predicate NoStructArrays(def: TypeDef) {
    match def
    case NoType => false
    case StructArrayDef(_, _) => false
    case StructDef(_, fields) => forall i :: 0 <= i < |fields| ==> NoStructArrays(fields[i].def)
    case _ => true
  }

  /** Written into the definition, the value leaves no array of structures without elements. */
  ghost predicate Solid(v: AnyValue, def: TypeDef)
    decreases v
  {
    match v
    case Empty => NoStructArrays(def)
    case Scalar(_, _) => true
    case Struct(_, ms) => forall i :: 0 <= i < |ms| ==> Solid(ms[i].value, MemberDef(def, i))
    case Array(_, element, items) =>
      element.ScalarType? || (items != [] && forall i :: 0 <= i < |items| ==> Solid(items[i], ElementDef(def)))
  }

  lemma {:induction false} DefaultDecodesExactly(def: TypeDef)
    requires Complete(def)
    ensures Decodable(DefaultTree(def)) <==> NoStructArrays(def)
    decreases def
  {
    if def.StructDef? {
      var tree := DefaultTree(def);
      forall i | 0 <= i < |def.fields|
        ensures Decodable(tree.fields[i].tree) <==> NoStructArrays(def.fields[i].def)
      {
        DefaultDecodesExactly(def.fields[i].def);
      }
    }
  }

  lemma {:induction false} ReturnedMembers(v: AnyValue, def: TypeDef)
    requires v.Struct?
    ensures var w := ValueOf(EncodeInto(v, def));
      && w.Struct? && w.name == v.name && |w.members| == |v.members|
      && forall i :: 0 <= i < |v.members| ==>
        w.members[i] == Member(v.members[i].name, ValueOf(EncodeInto(v.members[i].value, MemberDef(def, i))))
  {
  }

  /** The type of what comes back depends on the type of what was written only. */
  lemma {:induction false} SameType(v: AnyValue, w: AnyValue, def: TypeDef)
    requires WellFormed(v) && WellFormed(w) && TypeOf(v) == TypeOf(w)
    ensures TypeOf(ValueOf(EncodeInto(v, def))) == TypeOf(ValueOf(EncodeInto(w, def)))
    decreases v
  {
    match v
    case Empty =>
    case Scalar(_, _) =>
    case Struct(_, ms) =>
      MemberTypes(v);
      MemberTypes(w);
      var v', w' := ValueOf(EncodeInto(v, def)), ValueOf(EncodeInto(w, def));
      ReturnedMembers(v, def);
      ReturnedMembers(w, def);
      MemberTypes(v');
      MemberTypes(w');
      forall i | 0 <= i < |ms| ensures TypeOf(v').members[i] == TypeOf(w').members[i] {
        assert TypeOf(v).members[i] == TypeOf(w).members[i];
        SameType(ms[i].value, w.members[i].value, MemberDef(def, i));
      }
      assert TypeOf(v').members == TypeOf(w').members;
    case Array(_, element, items) =>
      if !element.ScalarType? && items != [] {
        SameType(items[0], w.items[0], ElementDef(def));
      }
  }

  /** Written into a definition of its layout, a value can be decoded if and only if it is solid. */
  lemma {:induction false} WrittenDecodesExactly(v: AnyValue, def: TypeDef)
    requires WellFormed(v) && Complete(def) && FitsType(TypeOf(v), def)
    ensures Decodable(EncodeInto(v, def)) <==> Solid(v, def)
    decreases v
  {
    match v
    case Empty => DefaultDecodesExactly(def);
    case Scalar(_, _) =>
    case Struct(_, ms) =>
      MemberTypes(v);
      var fields := EncodeInto(v, def).fields;
      forall i | 0 <= i < |ms| ensures Decodable(fields[i].tree) <==> Solid(ms[i].value, MemberDef(def, i)) {
        assert FitsType(TypeOf(v).members[i].typ, MemberDef(def, i));
        WrittenDecodesExactly(ms[i].value, MemberDef(def, i));
      }
    case Array(_, element, items) =>
      if !element.ScalarType? {
        var elems := EncodeInto(v, def).elems;
        forall i | 0 <= i < |items|
          ensures Decodable(elems[i]) <==> Solid(items[i], ElementDef(def))
          ensures TypeOf(ValueOf(elems[i])) == TypeOf(ValueOf(elems[0]))
        {
          WrittenDecodesExactly(items[i], ElementDef(def));
          SameType(items[i], items[0], ElementDef(def));
        }
      }
  }

  /** The definition BuildPVXSValue writes into. */
  function OwnDef(v: AnyValue): TypeDef {
    var def := TypeBuilder.BuildPvxsType(TypeOf(v));
    if def.Ok? then def.value else NoType
  }

  ghost predicate Encodable(v: AnyValue) {
    TypeBuilder.ArraysOfScalarsOrStructs(TypeOf(v)) && !TypeBuilder.FirstIsEmpty(TypeOf(v))
  }

  lemma {:induction false} EncodesExactly(v: AnyValue)
    requires WellFormed(v)
    ensures ValueBuilder.BuildPvxsValue(v).Ok? <==> Encodable(v)
    ensures ValueBuilder.BuildPvxsValue(v).Ok? ==> ValueBuilder.BuildPvxsValue(v).value == EncodeInto(v, OwnDef(v))
    ensures ValueBuilder.BuildPvxsValue(v) == Ok(Null) <==> v.Empty?
  {
    ValueBuilder.BuiltValueExactly(v);
    TypeBuilder.TypeBuilderThrowsExactly(TypeOf(v));
    TypeBuilder.MachineBuilds(TypeOf(v), TypeBuilder.INITIAL);
  }

  /** The outcome of the round trip for every value: a throw on the way out, one on the way back, or a value. */
  lemma {:induction false} RoundTripOutcomes(v: AnyValue)
    requires WellFormed(v)
    ensures RoundTrip(v).Ok? <==> v.Empty? || (Encodable(v) && Solid(v, OwnDef(v)))
    ensures RoundTrip(v).Ok? ==> RoundTrip(v).value == ValueOf(EncodeInto(v, OwnDef(v)))
  {
    EncodesExactly(v);
    if v.Empty? || Encodable(v) {
      BuildAnyValueExactly(EncodeInto(v, OwnDef(v)));
    }
    if Encodable(v) && !v.Empty? {
      WellFormedValuesHaveWellFormedTypes(v);
      TypeBuilder.MachineBuilds(TypeOf(v), TypeBuilder.INITIAL);
      TypeBuilder.TypeBuilderThrowsExactly(TypeOf(v));
      TypeBuilder.BuiltFits(TypeOf(v), NoType);
      TypeBuilder.BuiltIsComplete(TypeOf(v), NoType);
      WrittenDecodesExactly(v, OwnDef(v));
    }
  }

  lemma {:induction false} SupportedIsSolid(v: AnyValue, def: TypeDef)
    requires Supported(v)
    ensures Solid(v, def)
    decreases v
  {
    match v
    case Scalar(_, _) =>
    case Struct(_, ms) =>
      forall i | 0 <= i < |ms| ensures Solid(ms[i].value, MemberDef(def, i)) {
        SupportedIsSolid(ms[i].value, MemberDef(def, i));
      }
    case Array(_, _, items) =>
      forall i | 0 <= i < |items| ensures Solid(items[i], ElementDef(def)) {
        SupportedIsSolid(items[i], ElementDef(def));
      }
  }

  lemma {:induction false} SolidAndFilledIsSupported(v: AnyValue, def: TypeDef)
    requires WellFormed(v) && Filled(v) && Solid(v, def) && TypeBuilder.ArraysOfScalarsOrStructs(TypeOf(v))
    ensures Supported(v)
    decreases v
  {
    match v
    case Scalar(_, _) =>
    case Struct(_, ms) =>
      MemberTypes(v);
      forall i | 0 <= i < |ms| ensures Supported(ms[i].value) {
        assert TypeBuilder.ArraysOfScalarsOrStructs(TypeOf(v).members[i].typ);
        SolidAndFilledIsSupported(ms[i].value, MemberDef(def, i));
      }
    case Array(_, element, items) =>
      forall i | 0 <= i < |items| ensures Supported(items[i]) {
        if element.StructType? {
          SolidAndFilledIsSupported(items[i], ElementDef(def));
        }
      }
  }

  /** A value that comes back is right if and only if nothing in it was Empty. */
  lemma {:induction false} SupportedExactly(v: AnyValue)
    requires WellFormed(v) && !v.Empty?
    ensures Supported(v) <==> Encodable(v) && Solid(v, OwnDef(v)) && Filled(v)
  {
    if Supported(v) {
      SupportedHasSupportedType(v);
      ValueBuilder.SupportedTypeIsFilled(v);
      ValueBuilder.BuiltValueIsEncoded(v);
      EncodesExactly(v);
      SupportedIsSolid(v, OwnDef(v));
    } else if Encodable(v) && Solid(v, OwnDef(v)) && Filled(v) {
      SolidAndFilledIsSupported(v, OwnDef(v));
    }
  }

  /** The values that come back changed without any throw: those with Empty parts that are built and solid. */
  lemma {:induction false} SilentLossExactly(v: AnyValue)
    requires WellFormed(v)
    ensures RoundTrip(v).Ok? && RoundTrip(v) != Ok(Norm(v)) <==>
      !Filled(v) && !v.Empty? && Encodable(v) && Solid(v, OwnDef(v))
  {
    RoundTripsExactly(v);
    RoundTripOutcomes(v);
    if !v.Empty? {
      SupportedExactly(v);
    }
  }

  /** The smallest such value: an Empty member comes back as the default of the scalar before it. */
  lemma {:induction false} EmptyMemberComesBack(name: string, a: string, b: string, code: ScalarCode, data: Data)
    requires a != b && Fits(code, data)
    ensures var v := Struct(name, [Member(a, Scalar(code, data)), Member(b, Empty)]);
      WellFormed(v) && Encodable(v) && Solid(v, OwnDef(v)) && RoundTrip(v) == Ok(Struct(name,
        [Member(a, Scalar(NormCode(code), data)), Member(b, Scalar(NormCode(code), if code.String? then Text([]) else Number(0)))]))
  {
    var v := Struct(name, [Member(a, Scalar(code, data)), Member(b, Empty)]);
    assert v.members[0].value == Scalar(code, data) && v.members[1].value == Empty;
    PairDef(v, code, data);
    RoundTripOutcomes(v);
    PairComesBack(v, code, data, OwnDef(v));
  }

  ghost predicate IsPair(v: AnyValue, code: ScalarCode, data: Data) {
    v.Struct? && |v.members| == 2 && v.members[0].value == Scalar(code, data) && v.members[1].value == Empty
  }

  lemma {:induction false} PairDef(v: AnyValue, code: ScalarCode, data: Data)
    requires IsPair(v, code, data)
    ensures Encodable(v)
    ensures MemberDef(OwnDef(v), 0) == MemberDef(OwnDef(v), 1) == ScalarDef(KindOf(code))
  {
    MemberTypes(v);
    var t := TypeOf(v);
    assert t.members[0].typ == ScalarType(code) && t.members[1].typ == EmptyType;
    TypeBuilder.MachineBuilds(t, TypeBuilder.INITIAL);
    TypeBuilder.BuildMembersSucceedsExactly(t.members, 0, [], NoType);
    TypeBuilder.EmptyMemberRepeatsType(t.members, 1, NoType);
    TypeBuilder.BuiltFits(t, NoType);
    assert FitsType(t.members[0].typ, MemberDef(OwnDef(v), 0));
  }

  lemma {:induction false} PairComesBack(v: AnyValue, code: ScalarCode, data: Data, def: TypeDef)
    requires IsPair(v, code, data)
    requires MemberDef(def, 0) == MemberDef(def, 1) == ScalarDef(KindOf(code))
    ensures Solid(v, def)
    ensures ValueOf(EncodeInto(v, def)) == Struct(v.name,
      [Member(v.members[0].name, Scalar(NormCode(code), data)),
       Member(v.members[1].name, Scalar(NormCode(code), DefaultData(NormCode(code))))])
  {
    CodeOfKindOf(code);
    ReturnedMembers(v, def);
  }

  lemma {:induction false} NormTwice(v: AnyValue)
    ensures Norm(Norm(v)) == Norm(v)
  {
    match v
    case Empty =>
    case Scalar(_, _) =>
    case Struct(_, ms) =>
      forall i | 0 <= i < |ms| ensures Norm(Norm(ms[i].value)) == Norm(ms[i].value) {
        NormTwice(ms[i].value);
      }
      assert Norm(Norm(v)).members == Norm(v).members;
    case Array(_, element, items) =>
      NormTypeTwice(element);
      forall i | 0 <= i < |items| ensures Norm(Norm(items[i])) == Norm(items[i]) {
        NormTwice(items[i]);
      }
      assert Norm(Norm(v)).items == Norm(v).items;
  }

  lemma {:induction false} NormTypeTwice(t: AnyType)
    ensures NormType(NormType(t)) == NormType(t)
  {
    if t.StructType? {
      forall i | 0 <= i < |t.members| ensures NormType(NormType(t.members[i].typ)) == NormType(t.members[i].typ) {
        NormTypeTwice(t.members[i].typ);
      }
      assert NormType(NormType(t)).members == NormType(t).members;
    } else if t.ArrayType? {
      NormTypeTwice(t.element);
    }
  }

  /** BuildAnyValue on the class. */
  method BuildValue(tree: Tree) returns (r: Result<AnyValue>)
    ensures r == BuildAnyValue(tree)
  {
    var builder := new AnyValueFromPvxsBuilder();
    var done := builder.ProcessPvxsValue(tree);
    if done.Err? {
      return Err(done.error);
    }
    return Ok(if builder.composer.root.Some? then builder.composer.root.value else Empty);
  }

  // ---------------------------------------------------------------------------------------------
  // Scalars at top level travel as a structure with one member
  // ---------------------------------------------------------------------------------------------

  const VALUE_FIELD := "value"

  function ScalarAwareTree(v: AnyValue): Result<Tree> {
    ValueBuilder.BuildPvxsValue(if v.Scalar? then Struct("", [Member(VALUE_FIELD, v)]) else v)
  }

  predicate IsScalarStruct(tree: Tree) {
    tree.Node? && |tree.fields| == 1 && tree.fields[0].name == VALUE_FIELD && tree.fields[0].tree.Leaf?
  }

  function ScalarAwareValue(tree: Tree): Result<AnyValue> {
    BuildAnyValue(if IsScalarStruct(tree) then tree.fields[0].tree else tree)
  }

  /** The pair as one trip. */
  function ScalarAwareTrip(v: AnyValue): Result<AnyValue> {
    var tree :- ScalarAwareTree(v);
    ScalarAwareValue(tree)
  }

  /** A structure whose only member is a scalar with the name that the wrapping uses. */
  ghost predicate LooksWrapped(v: AnyValue) {
    v.Struct? && |v.members| == 1 && v.members[0].name == "value" && v.members[0].value.Scalar?
  }

  /** A scalar travels as a structure without name, with the scalar as its member `value`. */
  lemma {:induction false} ScalarIsWrapped(code: ScalarCode, data: Data)
    requires Fits(code, data)
    ensures ScalarAwareTree(Scalar(code, data)) == Ok(Node("", [Field("value", Leaf(KindOf(code), data))]))
  {
    var v := Scalar(code, data);
    var w := Struct("", [Member("value", v)]);
    assert w.members[0].value == v;
    SupportedHasSupportedType(w);
    ValueBuilder.BuiltValueIsEncoded(w);
    assert Encode(w).fields == [Field("value", Encode(v))];
  }

  /** What is unwrapped, of all PVXS values: exactly a structure with the one scalar field `value`, whatever its id. */
  lemma {:induction false} UnwrapsExactly(tree: Tree)
    ensures forall id, k, d :: tree == Node(id, [Field("value", Leaf(k, d))]) ==>
      ScalarAwareValue(tree) == Ok(Scalar(CodeOf(k), d))
    ensures (forall id, k, d :: tree != Node(id, [Field("value", Leaf(k, d))])) ==>
      ScalarAwareValue(tree) == BuildAnyValue(tree)
  {
    if IsScalarStruct(tree) {
      var leaf := tree.fields[0].tree;
      assert tree == Node(tree.id, [Field("value", Leaf(leaf.kind, leaf.data))]);
      BuildAnyValueExactly(leaf);
    }
  }

  /**
   The law of the scalar-aware pair, for every value: it returns the normal form exactly where the plain pair
   does, except for structures that look like a wrapped scalar, which come back as the scalar.
   */
  lemma {:induction false} ScalarAwareRoundTrip(v: AnyValue)
    requires WellFormed(v)
    ensures ScalarAwareTrip(v) == Ok(Norm(v)) <==> (v.Empty? || Supported(v)) && !LooksWrapped(v)
    ensures LooksWrapped(v) ==> ScalarAwareTrip(v) == Ok(Norm(v.members[0].value))
  {
    if v.Scalar? {
      ScalarIsWrapped(v.code, v.data);
      UnwrapsExactly(ScalarAwareTree(v).value);
      CodeOfKindOf(v.code);
    } else if v.Empty? || Supported(v) {
      SupportedComesBack(v);
    } else {
      RoundTripsExactly(v);
      if ScalarAwareTree(v).Ok? && IsScalarStruct(ScalarAwareTree(v).value) {
        BuildAnyValueExactly(ScalarAwareTree(v).value.fields[0].tree);
      }
    }
  }

  lemma {:induction false} SupportedComesBack(v: AnyValue)
    requires WellFormed(v) && !v.Scalar? && (v.Empty? || Supported(v))
    ensures ScalarAwareTrip(v) == Ok(if LooksWrapped(v) then Norm(v.members[0].value) else Norm(v))
  {
    if !v.Empty? {
      SupportedHasSupportedType(v);
      EncodedDecodes(v);
    }
    ValueBuilder.BuiltValueIsEncoded(v);
    BuildAnyValueExactly(Encode(v));
    WrappedExactly(v);
    if LooksWrapped(v) {
      EncodedDecodes(v.members[0].value);
      BuildAnyValueExactly(Encode(v).fields[0].tree);
    }
  }

  lemma {:induction false} WrappedExactly(v: AnyValue)
    requires v.Empty? || Supported(v)
    ensures IsScalarStruct(Encode(v)) <==> LooksWrapped(v)
  {
    if v.Struct? && |v.members| == 1 {
      assert Encode(v).fields[0] == Field(v.members[0].name, Encode(v.members[0].value));
    }
  }
}
