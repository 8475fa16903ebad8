/** AnyValueFromPVXSBuilder: an explicit stack walks a PVXS value and drives the composer. */
module ReverseWalk {
  import opened Results
  import opened AnyValues
  import opened PvxsData
  import opened C = Composer

  datatype Context = Root | StructField | ArrayElement

  datatype WalkNode = WalkNode(value: Tree, name: string, visited: bool, context: Context)

  // ---------------------------------------------------------------------------------------------
  // The recursive trace
  // ---------------------------------------------------------------------------------------------

  function Opening(name: string, context: Context): seq<Call> {
    match context
    case Root => []
    case StructField => [StartField(name)]
    case ArrayElement => [StartArrayElement]
  }

  function Closing(context: Context): seq<Call> {
    match context
    case Root => []
    case StructField => [EndField]
    case ArrayElement => [EndArrayElement]
  }

  function ScalarItems(kind: Kind, items: seq<Data>): seq<AnyValue> {
    seq(|items|, i requires 0 <= i < |items| => Scalar(CodeOf(kind), items[i]))
  }

  /** GetAnyValueFromScalar and GetAnyValueFromScalarArray, or the throw of the type code lookup. */
  function LeafCall(tree: Tree): Call {
    match tree
    case Leaf(k, d) => AddValue(Scalar(CodeOf(k), d))
    case Leaves(k, ds) => AddValue(Array("", ScalarType(CodeOf(k)), ScalarItems(k, ds)))
    case _ => Throw(UnknownPvxsTypeCode)
  }

  /** Pre- and post-order trace of composer calls; a Throw ends it. */
  function Trace(tree: Tree, name: string, context: Context): seq<Call>
    decreases tree, 1
  {
    match tree
    case Null => [Throw(UnsupportedPvxsValue)]
    case Foreign(code) =>
      if IsScalarArray(CodeOfTree(tree)) then Opening(name, context) + [LeafCall(tree)] + Closing(context)
      else [Throw(UnsupportedPvxsValue)]
    case _ => Opening(name, context) + Body(tree) + Closing(context)
  }

  function Body(tree: Tree): seq<Call>
    decreases tree, 0
  {
    match tree
    case Node(id, fields) => [StartStruct(id)] + FieldTraces(fields, 0) + [EndStruct]
    case Nodes(elems) => [StartArray("")] + ElementTraces(elems, 0) + [EndArray]
    case _ => [LeafCall(tree)]
  }

  function FieldTraces(fields: seq<Field>, i: nat): seq<Call>
    requires i <= |fields|
    decreases fields, |fields| - i
  {
    if i == |fields| then []
    else Trace(fields[i].tree, fields[i].name, StructField) + FieldTraces(fields, i + 1)
  }

  function ElementTraces(elems: seq<Tree>, i: nat): seq<Call>
    requires i <= |elems|
    decreases elems, |elems| - i
  {
    if i == |elems| then [] else Trace(elems[i], "", ArrayElement) + ElementTraces(elems, i + 1)
  }

  // ---------------------------------------------------------------------------------------------
  // The walk
  // ---------------------------------------------------------------------------------------------

  /** What the walk still has to do for one node of its stack. */
  function NodeTrace(n: WalkNode): seq<Call> {
    if !n.visited then Trace(n.value, n.name, n.context)
    else (if n.value.Node? then [EndStruct] else [EndArray]) + Closing(n.context)
  }

  function Pending(stack: seq<WalkNode>): seq<Call> {
    if stack == [] then []
    else NodeTrace(stack[|stack| - 1]) + Pending(stack[..|stack| - 1])
  }

  function Children(tree: Tree): seq<Tree> {
    match tree
    case Node(_, fields) => seq(|fields|, i requires 0 <= i < |fields| => fields[i].tree)
    case Nodes(elems) => elems
    case _ => []
  }

  /** Number of times the loop looks at the nodes of a tree. */
  function Visits(tree: Tree): nat
    decreases tree, 1
  {
    match tree
    case Node(_, fields) => 2 + FieldVisits(fields, 0)
    case Nodes(elems) => 2 + ElementVisits(elems, 0)
    case _ => 1
  }

  function FieldVisits(fields: seq<Field>, i: nat): nat
    requires i <= |fields|
    decreases fields, |fields| - i
  {
    if i == |fields| then 0 else Visits(fields[i].tree) + FieldVisits(fields, i + 1)
  }

  function ElementVisits(elems: seq<Tree>, i: nat): nat
    requires i <= |elems|
    decreases elems, |elems| - i
  {
    if i == |elems| then 0 else Visits(elems[i]) + ElementVisits(elems, i + 1)
  }

  function StackVisits(stack: seq<WalkNode>): nat {
    if stack == [] then 0
    else
      var n := stack[|stack| - 1];
      (if n.visited then 1 else Visits(n.value)) + StackVisits(stack[..|stack| - 1])
  }

  predicate IsComposite(tree: Tree) {
    tree.Node? || tree.Nodes?
  }

  function ChildNode(tree: Tree, i: nat): WalkNode
    requires IsComposite(tree) && i < |Children(tree)|
  {
    if tree.Node? then WalkNode(tree.fields[i].tree, tree.fields[i].name, false, StructField)
    else WalkNode(tree.elems[i], "", false, ArrayElement)
  }

  function ChildTraces(tree: Tree, i: nat): seq<Call>
    requires IsComposite(tree) && i <= |Children(tree)|
  {
    if tree.Node? then FieldTraces(tree.fields, i) else ElementTraces(tree.elems, i)
  }

  function ChildVisits(tree: Tree, i: nat): nat
    requires IsComposite(tree) && i <= |Children(tree)|
  {
    if tree.Node? then FieldVisits(tree.fields, i) else ElementVisits(tree.elems, i)
  }

  /** One more child on the stack: its trace comes before those of the children already there. */
  lemma {:induction false} PushChild(stack: seq<WalkNode>, tree: Tree, i: nat, rest: seq<Call>)
    requires IsComposite(tree) && i < |Children(tree)|
    requires Pending(stack) == ChildTraces(tree, i + 1) + rest
    ensures Pending(stack + [ChildNode(tree, i)]) == ChildTraces(tree, i) + rest
    ensures StackVisits(stack + [ChildNode(tree, i)]) == Visits(Children(tree)[i]) + StackVisits(stack)
    ensures ChildVisits(tree, i) == Visits(Children(tree)[i]) + ChildVisits(tree, i + 1)
  {
    PushNode(stack, ChildNode(tree, i));
    FirstChild(tree, i);
    Associative(NodeTrace(ChildNode(tree, i)), ChildTraces(tree, i + 1), rest);
  }

  lemma {:induction false} PushNode(stack: seq<WalkNode>, n: WalkNode)
    ensures Pending(stack + [n]) == NodeTrace(n) + Pending(stack)
    ensures StackVisits(stack + [n]) == (if n.visited then 1 else Visits(n.value)) + StackVisits(stack)
  {
    assert (stack + [n])[..|stack|] == stack;
  }

  lemma {:induction false} Associative<T>(a: seq<T>, b: seq<T>, c: seq<T>)
    ensures a + (b + c) == a + b + c
  {
  }

  lemma {:induction false} FirstChild(tree: Tree, i: nat)
    requires IsComposite(tree) && i < |Children(tree)|
    ensures ChildTraces(tree, i) == NodeTrace(ChildNode(tree, i)) + ChildTraces(tree, i + 1)
    ensures ChildVisits(tree, i) == Visits(Children(tree)[i]) + ChildVisits(tree, i + 1)
  {
    var n := ChildNode(tree, i);
    var t := Trace(n.value, n.name, n.context);
    if tree.Node? {
      assert FieldTraces(tree.fields, i) == t + FieldTraces(tree.fields, i + 1);
    } else {
      assert ElementTraces(tree.elems, i) == t + ElementTraces(tree.elems, i + 1);
    }
  }

  /** What follows the opening calls of the composite node on top. */
  function AfterStart(stack: seq<WalkNode>): seq<Call>
    requires stack != [] && IsComposite(stack[|stack| - 1].value)
  {
    var n := stack[|stack| - 1];
    ChildTraces(n.value, 0) + (NodeTrace(n.(visited := true)) + Pending(stack[..|stack| - 1]))
  }

  lemma {:induction false} FailedPrefix(a: seq<Call>, b: seq<Call>)
    requires C.Run(C.INITIAL, a).Err?
    ensures C.Run(C.INITIAL, a + b) == C.Run(C.INITIAL, a)
  {
    C.RunAppend(C.INITIAL, a, b);
  }

  lemma {:induction false} NewCompositeTrace(calls: seq<Call>, stack: seq<WalkNode>, start: Call)
    requires stack != [] && !stack[|stack| - 1].visited && IsComposite(stack[|stack| - 1].value)
    requires start == if stack[|stack| - 1].value.Node? then StartStruct(stack[|stack| - 1].value.id) else StartArray("")
    ensures var opening := Opening(stack[|stack| - 1].name, stack[|stack| - 1].context);
      calls + Pending(stack) == calls + opening + [start] + AfterStart(stack)
    ensures StackVisits(stack) == 2 + ChildVisits(stack[|stack| - 1].value, 0) + StackVisits(stack[..|stack| - 1])
  {
    var n := stack[|stack| - 1];
    var opening := Opening(n.name, n.context);
    CompositeTrace(n, start);
    Regroup(calls, opening, [start], ChildTraces(n.value, 0), NodeTrace(n.(visited := true)), Pending(stack[..|stack| - 1]));
  }

  lemma {:induction false} Regroup<T>(a: seq<T>, b: seq<T>, c: seq<T>, d: seq<T>, e: seq<T>, f: seq<T>)
    ensures a + ((b + c + d + e) + f) == a + b + c + (d + (e + f))
  {
  }

  lemma {:induction false} CompositeTrace(n: WalkNode, start: Call)
    requires !n.visited && IsComposite(n.value)
    requires start == if n.value.Node? then StartStruct(n.value.id) else StartArray("")
    ensures NodeTrace(n) == Opening(n.name, n.context) + [start] + ChildTraces(n.value, 0) + NodeTrace(n.(visited := true))
  {
    var end: Call := if n.value.Node? then EndStruct else EndArray;
    assert Body(n.value) == [start] + ChildTraces(n.value, 0) + [end];
    assert Trace(n.value, n.name, n.context) == Opening(n.name, n.context) + Body(n.value) + Closing(n.context);
  }

  lemma {:induction false} LeafTrace(n: WalkNode)
    requires !n.visited && !IsComposite(n.value) && (n.value.Leaf? || IsScalarArray(CodeOfTree(n.value)))
    ensures NodeTrace(n) == Opening(n.name, n.context) + [LeafCall(n.value)] + Closing(n.context)
  {
    var middle := [LeafCall(n.value)];
    assert n.value.Foreign? || Body(n.value) == middle;
  }

  lemma {:induction false} LeafPending(calls: seq<Call>, stack: seq<WalkNode>)
    requires stack != [] && !stack[|stack| - 1].visited && !IsComposite(stack[|stack| - 1].value)
    requires var tree := stack[|stack| - 1].value; tree.Leaf? || IsScalarArray(CodeOfTree(tree))
    ensures var n := stack[|stack| - 1];
      calls + Pending(stack) ==
      calls + Opening(n.name, n.context) + [LeafCall(n.value)] + Closing(n.context) + Pending(stack[..|stack| - 1])
    ensures StackVisits(stack) == 1 + StackVisits(stack[..|stack| - 1])
  {
    var n := stack[|stack| - 1];
    LeafTrace(n);
    Flatten(calls, Opening(n.name, n.context), [LeafCall(n.value)], Closing(n.context), Pending(stack[..|stack| - 1]));
  }

  lemma {:induction false} Flatten<T>(a: seq<T>, b: seq<T>, c: seq<T>, d: seq<T>, e: seq<T>)
    ensures a + ((b + c + d) + e) == a + b + c + d + e
  {
  }

  lemma {:induction false} MarkedTop(stack: seq<WalkNode>, marked: seq<WalkNode>)
    requires stack != [] && IsComposite(stack[|stack| - 1].value)
    requires marked == stack[|stack| - 1 := stack[|stack| - 1].(visited := true)]
    ensures AfterStart(stack) == ChildTraces(stack[|stack| - 1].value, 0) + Pending(marked)
    ensures StackVisits(marked) == 1 + StackVisits(stack[..|stack| - 1])
  {
    assert marked[..|marked| - 1] == stack[..|stack| - 1];
  }

  /** Only structures and arrays of structures stay on the stack after their first visit. */
  ghost predicate VisitedAreComposite(stack: seq<WalkNode>) {
    forall i :: 0 <= i < |stack| && stack[i].visited ==> IsComposite(stack[i].value)
  }

  /** The value of a leaf; the elements of an array are copied one by one. */
  method MakeLeafCall(tree: Tree) returns (c: Call)
    ensures c == LeafCall(tree)
  {
    if tree.Leaves? {
      var items: seq<AnyValue> := [];
      for i := 0 to |tree.items|
        invariant items == ScalarItems(tree.kind, tree.items)[..i]
      {
        items := items + [Scalar(CodeOf(tree.kind), tree.items[i])];
      }
      assert items == ScalarItems(tree.kind, tree.items);
      return AddValue(Array("", ScalarType(CodeOf(tree.kind)), items));
    }
    return LeafCall(tree);
  }

  /** The loop of AddChildren: children are pushed in reverse, so that the first one ends up on top. */
  method WithChildren(stack: seq<WalkNode>, tree: Tree) returns (pushed: seq<WalkNode>)
    requires IsComposite(tree) && VisitedAreComposite(stack)
    ensures VisitedAreComposite(pushed)
    ensures Pending(pushed) == ChildTraces(tree, 0) + Pending(stack)
    ensures StackVisits(pushed) == ChildVisits(tree, 0) + StackVisits(stack)
  {
    pushed := stack;
    var i := |Children(tree)|;
    NoChildLeft(stack, tree);
    while i > 0
      invariant 0 <= i <= |Children(tree)|
      invariant PushedFrom(stack, tree, i, pushed)
    {
      i := i - 1;
      PushOne(stack, tree, i, pushed);
      pushed := pushed + [ChildNode(tree, i)];
    }
  }

  /** The children from the i-th on are above what was there. */
  ghost predicate PushedFrom(stack: seq<WalkNode>, tree: Tree, i: nat, pushed: seq<WalkNode>)
    requires IsComposite(tree) && i <= |Children(tree)|
  {
    && VisitedAreComposite(pushed)
    && Pending(pushed) == ChildTraces(tree, i) + Pending(stack)
    && StackVisits(pushed) == ChildVisits(tree, i) + StackVisits(stack)
  }

  lemma {:induction false} PushOne(stack: seq<WalkNode>, tree: Tree, i: nat, pushed: seq<WalkNode>)
    requires IsComposite(tree) && i < |Children(tree)| && PushedFrom(stack, tree, i + 1, pushed)
    ensures PushedFrom(stack, tree, i, pushed + [ChildNode(tree, i)])
  {
    PushChild(pushed, tree, i, Pending(stack));
  }

  lemma {:induction false} NoChildLeft(stack: seq<WalkNode>, tree: Tree)
    requires IsComposite(tree) && VisitedAreComposite(stack)
    ensures PushedFrom(stack, tree, |Children(tree)|, stack)
  {
    NoMoreChildren(tree);
    assert [] + Pending(stack) == Pending(stack);
  }

  lemma {:induction false} NoMoreChildren(tree: Tree)
    requires IsComposite(tree)
    ensures ChildTraces(tree, |Children(tree)|) == [] && ChildVisits(tree, |Children(tree)|) == 0
  {
    if tree.Node? {
      assert FieldTraces(tree.fields, |tree.fields|) == [] && FieldVisits(tree.fields, |tree.fields|) == 0;
    } else {
      assert ElementTraces(tree.elems, |tree.elems|) == [] && ElementVisits(tree.elems, |tree.elems|) == 0;
    }
  }

  /** The composer's outcome on the whole trace of the value. */
  function Composed(tree: Tree): Result<C.State> {
    if tree.Null? then Ok(C.INITIAL) else C.Run(C.INITIAL, Trace(tree, "", Root))
  }

  class AnyValueFromPvxsBuilder {
    var composer: C.State
    var stack: seq<WalkNode>
    ghost var calls: seq<Call>

    constructor ()
      ensures composer == C.INITIAL && stack == [] && calls == []
    {
      composer, stack, calls := C.INITIAL, [], [];
    }

    /** The composer has received exactly the recorded calls. */
    ghost predicate Valid()
      reads this
    {
      C.Run(C.INITIAL, calls) == Ok(composer)
    }

    /** The step composed what the trace of the stack promises, or failed as composing all of it would. */
    ghost predicate Progress(r: Result<()>, calls0: seq<Call>, stack0: seq<WalkNode>)
      reads this
    {
      if r.Ok? then
        && Valid() && VisitedAreComposite(stack)
        && calls + Pending(stack) == calls0 + Pending(stack0)
        && StackVisits(stack) < StackVisits(stack0)
      else C.Run(C.INITIAL, calls0 + Pending(stack0)) == Err(r.error)
    }

    method Compose(c: Call) returns (r: Result<()>)
      requires Valid()
      modifies this
      ensures stack == old(stack)
      ensures r.Ok? ==> Valid() && calls == old(calls) + [c]
      ensures r.Err? ==> C.Run(C.INITIAL, old(calls) + [c]) == Err(r.error)
    {
      C.RunAppend(C.INITIAL, calls, [c]);
      C.RunOne(composer, c);
      var s := C.Step(composer, c);
      if s.Err? {
        return Err(s.error);
      }
      composer, calls := s.value, calls + [c];
      return Ok(());
    }

    /** StartComposite: mark the node and open its field or element. */
    method StartComposite() returns (r: Result<()>)
      requires Valid() && stack != [] && !stack[|stack| - 1].visited
      modifies this
      ensures stack == old(stack)[|old(stack)| - 1 := old(stack)[|old(stack)| - 1].(visited := true)]
      ensures var n := old(stack)[|old(stack)| - 1];
        if r.Ok? then Valid() && calls == old(calls) + Opening(n.name, n.context)
        else C.Run(C.INITIAL, old(calls) + Opening(n.name, n.context)) == Err(r.error)
    {
      var n := stack[|stack| - 1];
      stack := stack[|stack| - 1 := n.(visited := true)];
      match n.context
      case StructField => r := Compose(StartField(n.name));
      case ArrayElement => r := Compose(StartArrayElement);
      case Root => r := Ok(());
    }

    /** EndComposite: close the field or element and drop the node. */
    method EndComposite() returns (r: Result<()>)
      requires Valid() && stack != []
      modifies this
      ensures r.Ok? ==> stack == old(stack)[..|old(stack)| - 1]
      ensures var n := old(stack)[|old(stack)| - 1];
        if r.Ok? then Valid() && calls == old(calls) + Closing(n.context)
        else C.Run(C.INITIAL, old(calls) + Closing(n.context)) == Err(r.error)
    {
      var n := stack[|stack| - 1];
      match n.context {
        case StructField => r := Compose(EndField);
        case ArrayElement => r := Compose(EndArrayElement);
        case Root => r := Ok(());
      }
      if r.Ok? {
        stack := stack[..|stack| - 1];
      }
    }

    method AddChildren()
      requires stack != [] && IsComposite(stack[|stack| - 1].value) && VisitedAreComposite(stack)
      modifies this`stack
      ensures VisitedAreComposite(stack)
      ensures var tree := old(stack)[|old(stack)| - 1].value;
        && Pending(stack) == ChildTraces(tree, 0) + Pending(old(stack))
        && StackVisits(stack) == ChildVisits(tree, 0) + StackVisits(old(stack))
    {
      stack := WithChildren(stack, stack[|stack| - 1].value);
    }

    /** A composite node seen for the first time stays, marked, under its children. */
    method ProcessNewComposite() returns (r: Result<()>)
      requires Valid() && VisitedAreComposite(stack)
      requires stack != [] && !stack[|stack| - 1].visited && IsComposite(stack[|stack| - 1].value)
      modifies this
      ensures Progress(r, old(calls), old(stack))
    {
      var n := stack[|stack| - 1];
      ghost var calls0, stack0 := calls, stack;
      var start := if n.value.Node? then StartStruct(n.value.id) else StartArray("");
      NewCompositeTrace(calls0, stack0, start);
      ghost var opening := Opening(n.name, n.context);
      r := StartComposite();
      if r.Err? {
        FailedPrefix(calls0 + opening, [start]);
        FailedPrefix(calls0 + opening + [start], AfterStart(stack0));
        return;
      }
      ghost var marked := stack;
      r := Compose(start);
      if r.Err? {
        FailedPrefix(calls0 + opening + [start], AfterStart(stack0));
        return;
      }
      AddChildren();
      MarkedTop(stack0, marked);
    }

    /** A composite node whose children are done is closed and dropped. */
    method ProcessVisitedComposite() returns (r: Result<()>)
      requires Valid() && VisitedAreComposite(stack) && stack != [] && stack[|stack| - 1].visited
      modifies this
      ensures Progress(r, old(calls), old(stack))
    {
      var n := stack[|stack| - 1];
      ghost var calls0, base := calls, stack[..|stack| - 1];
      var end: Call := if n.value.Node? then EndStruct else EndArray;
      Associative(calls0, [end] + Closing(n.context), Pending(base));
      Associative(calls0, [end], Closing(n.context));
      r := Compose(end);
      if r.Err? {
        FailedPrefix(calls0 + [end], Closing(n.context) + Pending(base));
        Associative(calls0 + [end], Closing(n.context), Pending(base));
        return;
      }
      r := EndComposite();
      if r.Err? {
        FailedPrefix(calls0 + [end] + Closing(n.context), Pending(base));
      }
    }

    /** StartComposite, one call, EndComposite. */
    method ComposeAndDrop(c: Call) returns (r: Result<()>)
      requires Valid() && stack != [] && !stack[|stack| - 1].visited
      modifies this
      ensures r.Ok? ==> Valid() && stack == old(stack)[..|old(stack)| - 1]
      ensures var n := old(stack)[|old(stack)| - 1];
        if r.Ok? then calls == old(calls) + Opening(n.name, n.context) + [c] + Closing(n.context)
        else C.Run(C.INITIAL, old(calls) + Opening(n.name, n.context) + [c] + Closing(n.context)) == Err(r.error)
    {
      var n := stack[|stack| - 1];
      ghost var opening := calls + Opening(n.name, n.context);
      r := StartComposite();
      if r.Err? {
        FailedPrefix(opening, [c]);
        FailedPrefix(opening + [c], Closing(n.context));
        return;
      }
      r := Compose(c);
      if r.Err? {
        FailedPrefix(opening + [c], Closing(n.context));
        return;
      }
      r := EndComposite();
    }

    /** A scalar or an array of scalars is added as a whole. */
    method ProcessLeaf() returns (r: Result<()>)
      requires Valid() && VisitedAreComposite(stack) && stack != []
      requires var tree := stack[|stack| - 1].value; tree.Leaf? || IsScalarArray(CodeOfTree(tree))
      modifies this
      ensures Progress(r, old(calls), old(stack))
    {
      var n := stack[|stack| - 1];
      ghost var calls0, base := calls, stack[..|stack| - 1];
      var add := MakeLeafCall(n.value);
      LeafPending(calls0, stack);
      r := ComposeAndDrop(add);
      if r.Err? {
        FailedPrefix(calls0 + Opening(n.name, n.context) + [add] + Closing(n.context), Pending(base));
      }
    }

    /** The loop: it ends with an empty stack, or with the throw that composing the trace runs into. */
    method ProcessStack()
      returns (r: Result<()>)
      requires Valid() && VisitedAreComposite(stack)
      modifies this
      ensures r.Ok? ==> Valid() && stack == [] && calls == old(calls) + Pending(old(stack))
      ensures r.Err? ==> C.Run(C.INITIAL, old(calls) + Pending(old(stack))) == Err(r.error)
    {
      while stack != []
        invariant Valid() && VisitedAreComposite(stack)
        invariant calls + Pending(stack) == old(calls) + Pending(old(stack))
        decreases StackVisits(stack)
      {
        var n := stack[|stack| - 1];
        if n.value.Node? || n.value.Nodes? {
          if n.visited {
            r := ProcessVisitedComposite();
          } else {
            r := ProcessNewComposite();
          }
        } else if n.value.Leaf? || IsScalarArray(CodeOfTree(n.value)) {
          r := ProcessLeaf();
        } else {
          ghost var rest := Pending(stack[..|stack| - 1]);
          C.RunAppend(C.INITIAL, calls, [Throw(UnsupportedPvxsValue)] + rest);
          return Err(UnsupportedPvxsValue);
        }
        if r.Err? {
          return;
        }
      }
      return Ok(());
    }

    /** ProcessPvxsValue: a null value leaves the composer as it is. */
    method ProcessPvxsValue(tree: Tree) returns (r: Result<()>)
      requires composer == C.INITIAL && stack == [] && calls == []
      modifies this
      ensures r.Ok? ==>
        stack == [] && calls == (if tree.Null? then [] else Trace(tree, "", Root)) && Composed(tree) == Ok(composer)
      ensures r.Err? ==> Composed(tree) == Err(r.error)
    {
      if tree.Null? {
        return Ok(());
      }
      stack := [WalkNode(tree, "", false, Root)];
      assert stack[..0] == [];
      assert Pending(stack) == Trace(tree, "", Root) + [];
      assert [] + Pending(stack) == Trace(tree, "", Root);
      r := ProcessStack();
    }
  }
}
