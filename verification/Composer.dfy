/**
 The sup-dto AnyValueComposer, as far as the translation relies on it: it rebuilds a value from a
 balanced series of calls and refuses what sup-dto values cannot be.
 */
module Composer {
  import opened Results
  import opened AnyValues

  datatype Call =
    | StartStruct(name: string) | EndStruct
    | StartField(name: string) | EndField
    | StartArray(name: string) | EndArray
    | StartArrayElement | EndArrayElement
    | AddValue(value: AnyValue)
    | Throw(error: Error)   // not a call: the caller of the composer throws here

  datatype Frame =
    | StructFrame(name: string, members: seq<Member>)
    | FieldFrame(name: string, content: Option<AnyValue>)
    | ArrayFrame(name: string, items: seq<AnyValue>)
    | ElementFrame(content: Option<AnyValue>)

  datatype State = State(frames: seq<Frame>, root: Option<AnyValue>)

  const INITIAL := State([], None)

  function Pop(s: State): State
    requires s.frames != []
  {
    s.(frames := s.frames[..|s.frames| - 1])
  }

  function Top(s: State): Frame
    requires s.frames != []
  {
    s.frames[|s.frames| - 1]
  }

  function Push(s: State, f: Frame): State {
    s.(frames := s.frames + [f])
  }

  /** A value can be started or added here. */
  predicate Ready(s: State) {
    if s.frames == [] then s.root.None?
    else (Top(s).FieldFrame? || Top(s).ElementFrame?) && Top(s).content.None?
  }

  function Deliver(s: State, v: AnyValue): State
    requires Ready(s)
  {
    if s.frames == [] then s.(root := Some(v)) else Push(Pop(s), Top(s).(content := Some(v)))
  }

  predicate HasMember(ms: seq<Member>, name: string) {
    exists i :: 0 <= i < |ms| && ms[i].name == name
  }

  function AddMember(s: State, name: string, v: AnyValue): Result<State> {
    if s.frames == [] || !Top(s).StructFrame? then Err(ComposerMisuse)
    else if HasMember(Top(s).members, name) then Err(DuplicateMember)
    else Ok(Push(Pop(s), Top(s).(members := Top(s).members + [Member(name, v)])))
  }

  function AddItem(s: State, v: AnyValue): Result<State> {
    if s.frames == [] || !Top(s).ArrayFrame? then Err(ComposerMisuse)
    else if Top(s).items != [] && TypeOf(Top(s).items[0]) != TypeOf(v) then Err(MixedElementTypes)
    else Ok(Push(Pop(s), Top(s).(items := Top(s).items + [v])))
  }

  function Finish(s: State, v: AnyValue): Result<State> {
    if Ready(s) then Ok(Deliver(s, v)) else Err(ComposerMisuse)
  }

  function Step(s: State, c: Call): Result<State> {
    match c
    case StartStruct(name) => if Ready(s) then Ok(Push(s, StructFrame(name, []))) else Err(ComposerMisuse)
    case EndStruct =>
      if s.frames == [] || !Top(s).StructFrame? then Err(ComposerMisuse)
      else Finish(Pop(s), Struct(Top(s).name, Top(s).members))
    case StartField(name) =>
      if s.frames == [] || !Top(s).StructFrame? then Err(ComposerMisuse) else Ok(Push(s, FieldFrame(name, None)))
    case EndField =>
      if s.frames == [] || !Top(s).FieldFrame? || Top(s).content.None? then Err(ComposerMisuse)
      else AddMember(Pop(s), Top(s).name, Top(s).content.value)
    case StartArray(name) => if Ready(s) then Ok(Push(s, ArrayFrame(name, []))) else Err(ComposerMisuse)
    case EndArray =>
      if s.frames == [] || !Top(s).ArrayFrame? then Err(ComposerMisuse)
      else if Top(s).items == [] then Err(NoElementType)
      else Finish(Pop(s), Array(Top(s).name, TypeOf(Top(s).items[0]), Top(s).items))
    case StartArrayElement =>
      if s.frames == [] || !Top(s).ArrayFrame? then Err(ComposerMisuse) else Ok(Push(s, ElementFrame(None)))
    case EndArrayElement =>
      if s.frames == [] || !Top(s).ElementFrame? || Top(s).content.None? then Err(ComposerMisuse)
      else AddItem(Pop(s), Top(s).content.value)
    case AddValue(v) => Finish(s, v)
    case Throw(e) => Err(e)
  }

  function Run(s: State, cs: seq<Call>): Result<State>
    decreases cs
  {
    if cs == [] then Ok(s)
    else
      var s' :- Step(s, cs[0]);
      Run(s', cs[1..])
  }

  function RunAfter(r: Result<State>, cs: seq<Call>): Result<State> {
    if r.Ok? then Run(r.value, cs) else r
  }

  function StepAfter(r: Result<State>, c: Call): Result<State> {
    if r.Ok? then Step(r.value, c) else r
  }

  lemma {:induction false} RunAppend(s: State, a: seq<Call>, b: seq<Call>)
    ensures Run(s, a + b) == RunAfter(Run(s, a), b)
    decreases a
  {
    if a == [] {
      assert a + b == b;
    } else {
      assert (a + b)[1..] == a[1..] + b;
      if Step(s, a[0]).Ok? {
        RunAppend(Step(s, a[0]).value, a[1..], b);
      }
    }
  }

  lemma {:induction false} RunOne(s: State, c: Call)
    ensures Run(s, [c]) == Step(s, c)
  {
    assert [c][1..] == [];
  }

  lemma {:induction false} RunBracket(s: State, a: Call, inner: seq<Call>, b: Call)
    ensures Run(s, [a] + inner + [b]) == StepAfter(RunAfter(Step(s, a), inner), b)
  {
    assert ([a] + inner + [b])[1..] == inner + [b];
    if Step(s, a).Ok? {
      var s1 := Step(s, a).value;
      RunAppend(s1, inner, [b]);
      if Run(s1, inner).Ok? {
        RunOne(Run(s1, inner).value, b);
      }
    }
  }
}
