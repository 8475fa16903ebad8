/** PvAccessClientPVImpl: the cache of a monitored variable and the loop that feeds it. */
module Monitor {
  import opened Results
  import opened AnyValues
  import opened PvxsData
  import opened Conversion

  datatype ExtendedValue = ExtendedValue(connected: bool, value: AnyValue)

  /** What one pop of the subscription yields; an empty queue yields a null update, which ends the loop. */
  datatype Event = Connected | Disconnected | Update(tree: Tree)

  type Convert = (AnyType, AnyValue) -> Option<AnyValue>

  /** sup-dto conversion: the result has the type asked for, and a value of that type stays as it is. */
  ghost predicate ProperConvert(convert: Convert) {
    && (forall t: AnyType, v: AnyValue {:trigger convert(t, v)} :: convert(t, v).Some? ==> TypeOf(convert(t, v).value) == t)
    && (forall v: AnyValue {:trigger convert(TypeOf(v), v)} :: convert(TypeOf(v), v) == Some(v))
  }

  /** TryAssignIfEmptyOrConvert. */
  function AssignIfEmptyOrConvert(convert: Convert, dest: AnyValue, src: AnyValue): Option<AnyValue> {
    if dest.Empty? then Some(src) else convert(TypeOf(dest), src)
  }

  function Apply(convert: Convert, c: ExtendedValue, e: Event): Result<ExtendedValue> {
    match e
    case Connected => Ok(c.(connected := true))
    case Disconnected => Ok(c.(connected := false))
    case Update(tree) =>
      var v :- BuildAnyValue(tree);
      match AssignIfEmptyOrConvert(convert, c.value, v)
      case None => Err(IncompatibleUpdate)
      case Some(w) => Ok(c.(value := w))
  }

  function Fold(convert: Convert, c: ExtendedValue, es: seq<Event>): Result<ExtendedValue>
    decreases es
  {
    if es == [] then Ok(c)
    else
      var c' :- Apply(convert, c, es[0]);
      Fold(convert, c', es[1..])
  }

  lemma {:induction false} FoldAppend(convert: Convert, c: ExtendedValue, a: seq<Event>, b: seq<Event>)
    ensures Fold(convert, c, a + b) ==
      if Fold(convert, c, a).Ok? then Fold(convert, Fold(convert, c, a).value, b) else Fold(convert, c, a)
    decreases a
  {
    if a == [] {
      assert a + b == b;
    } else {
      assert (a + b)[1..] == a[1..] + b;
      if Apply(convert, c, a[0]).Ok? {
        FoldAppend(convert, Apply(convert, c, a[0]).value, a[1..], b);
      }
    }
  }

  // ---------------------------------------------------------------------------------------------
  // Any number of calls, each with the events that were queued by then
  // ---------------------------------------------------------------------------------------------

  function Flatten(batches: seq<seq<Event>>): seq<Event> {
    if batches == [] then [] else Flatten(batches[..|batches| - 1]) + batches[|batches| - 1]
  }

  /** The cache after the calls and the states the callback saw; a call that throws changes neither. */
  function Calls(convert: Convert, c: ExtendedValue, batches: seq<seq<Event>>): (ExtendedValue, seq<ExtendedValue>) {
    if batches == [] then (c, [])
    else
      var before := Calls(convert, c, batches[..|batches| - 1]);
      var r := Fold(convert, before.0, batches[|batches| - 1]);
      if r.Ok? then (r.value, before.1 + [r.value]) else before
  }

  /** For a compatible stream of events it does not matter how the events are split into calls. */
  lemma {:induction false} BatchingIsIrrelevant(convert: Convert, c: ExtendedValue, batches: seq<seq<Event>>)
    requires Fold(convert, c, Flatten(batches)).Ok?
    ensures Calls(convert, c, batches).0 == Fold(convert, c, Flatten(batches)).value
    ensures |Calls(convert, c, batches).1| == |batches|
    ensures forall i :: 0 <= i < |batches| ==>
      Fold(convert, c, Flatten(batches[..i + 1])) == Ok(Calls(convert, c, batches).1[i])
  {
    if batches != [] {
      var front, last := batches[..|batches| - 1], batches[|batches| - 1];
      FoldAppend(convert, c, Flatten(front), last);
      BatchingIsIrrelevant(convert, c, front);
      forall i | 0 <= i < |batches|
        ensures Fold(convert, c, Flatten(batches[..i + 1])) == Ok(Calls(convert, c, batches).1[i])
      {
        if i < |front| {
          assert batches[..i + 1] == front[..i + 1];
        } else {
          assert batches[..i + 1] == batches;
        }
      }
    }
  }

  lemma {:induction false} FoldKeepsType(convert: Convert, c: ExtendedValue, es: seq<Event>)
    requires ProperConvert(convert) && !c.value.Empty? && Fold(convert, c, es).Ok?
    ensures TypeOf(Fold(convert, c, es).value.value) == TypeOf(c.value)
    decreases es
  {
    if es != [] {
      FoldKeepsType(convert, Apply(convert, c, es[0]).value, es[1..]);
    }
  }

  /** Once the cache has a value its type never changes, whatever arrives and whichever calls throw. */
  lemma {:induction false} TypeIsStable(convert: Convert, c: ExtendedValue, batches: seq<seq<Event>>)
    requires ProperConvert(convert) && !c.value.Empty?
    ensures TypeOf(Calls(convert, c, batches).0.value) == TypeOf(c.value)
    ensures forall s :: s in Calls(convert, c, batches).1 ==> TypeOf(s.value) == TypeOf(c.value)
  {
    if batches != [] {
      var front, last := batches[..|batches| - 1], batches[|batches| - 1];
      TypeIsStable(convert, c, front);
      var before := Calls(convert, c, front).0;
      if Fold(convert, before, last).Ok? {
        FoldKeepsType(convert, before, last);
      }
    }
  }

  // ---------------------------------------------------------------------------------------------
  // Calls that throw, and what a reader sees
  // ---------------------------------------------------------------------------------------------

  lemma {:induction false} FoldLast(convert: Convert, c: ExtendedValue, es: seq<Event>)
    requires es != []
    ensures var front := Fold(convert, c, es[..|es| - 1]);
      Fold(convert, c, es) == if front.Ok? then Apply(convert, front.value, es[|es| - 1]) else front
  {
    var front, last := es[..|es| - 1], [es[|es| - 1]];
    assert es == front + last && last[1..] == [];
    FoldAppend(convert, c, front, last);
  }

  /**
   Where batching does matter: a throw takes the earlier events of its own call with it, and of no other. The
   caches differ exactly if those events had changed anything.
   */
  lemma {:induction false} ThrowLosesItsCall(convert: Convert, c: ExtendedValue, es: seq<Event>, bad: Event)
    requires Fold(convert, c, es).Ok? && Apply(convert, Fold(convert, c, es).value, bad).Err?
    ensures Calls(convert, c, [es + [bad]]) == (c, [])
    ensures var kept := Fold(convert, c, es).value;
      && Calls(convert, c, [es, [bad]]) == (kept, [kept])
      && (Calls(convert, c, [es + [bad]]).0 != Calls(convert, c, [es, [bad]]).0 <==> kept != c)
  {
    var kept := Fold(convert, c, es).value;
    assert (es + [bad])[..|es|] == es;
    FoldLast(convert, c, es + [bad]);
    OneMoreCall(convert, c, [], es + [bad]);
    OneMoreCall(convert, c, [], es);
    OneMoreCall(convert, c, [es], [bad]);
    var none: seq<seq<Event>> := [];
    assert none + [es + [bad]] == [es + [bad]] && none + [es] == [es] && [es] + [[bad]] == [es, [bad]];
    var unseen: seq<ExtendedValue> := [];
    assert Calls(convert, c, none) == (c, unseen) && unseen + [kept] == [kept];
    assert Calls(convert, c, [es]) == (kept, [kept]);
    assert Fold(convert, kept, [bad]).Err?;
  }

  lemma {:induction false} OneMoreCall(convert: Convert, c: ExtendedValue, batches: seq<seq<Event>>, es: seq<Event>)
    ensures var before := Calls(convert, c, batches);
      var r := Fold(convert, before.0, es);
      Calls(convert, c, batches + [es]) == if r.Ok? then (r.value, before.1 + [r.value]) else before
  {
    var all := batches + [es];
    assert all[..|all| - 1] == batches;
  }

  /** The events of the calls that did not throw. */
  function Committed(convert: Convert, c: ExtendedValue, batches: seq<seq<Event>>): seq<Event> {
    if batches == [] then []
    else
      var front, last := batches[..|batches| - 1], batches[|batches| - 1];
      Committed(convert, c, front) + if Fold(convert, Calls(convert, c, front).0, last).Ok? then last else []
  }

  lemma {:induction false} CallsFoldCommitted(convert: Convert, c: ExtendedValue, batches: seq<seq<Event>>)
    ensures Fold(convert, c, Committed(convert, c, batches)) == Ok(Calls(convert, c, batches).0)
  {
    if batches != [] {
      var front, last := batches[..|batches| - 1], batches[|batches| - 1];
      CallsFoldCommitted(convert, c, front);
      FoldAppend(convert, c, Committed(convert, c, front), last);
      assert Committed(convert, c, front) + [] == Committed(convert, c, front);
    }
  }

  lemma {:induction false} CommittedWereQueued(convert: Convert, c: ExtendedValue, batches: seq<seq<Event>>)
    requires forall i :: 0 <= i < |batches| ==> NoNulls(batches[i])
    ensures NoNulls(Committed(convert, c, batches))
  {
    if batches != [] {
      CommittedWereQueued(convert, c, batches[..|batches| - 1]);
    }
  }

  /** A null update is how a queue says that it is empty. */
  ghost predicate NoNulls(es: seq<Event>) {
    forall i :: 0 <= i < |es| && es[i].Update? ==> !es[i].tree.Null?
  }

  /** The last word of the stream on the connection. */
  predicate Online(es: seq<Event>) {
    es != [] && match es[|es| - 1]
      case Connected => true
      case Disconnected => false
      case Update(_) => Online(es[..|es| - 1])
  }

  /** The updates of the stream, in order. */
  function Updates(es: seq<Event>): seq<Tree> {
    if es == [] then []
    else
      var last := es[|es| - 1];
      Updates(es[..|es| - 1]) + if last.Update? then [last.tree] else []
  }

  /** Every update can be decoded, and every one after the first converts to the type of the first. */
  ghost predicate Compatible(convert: Convert, trees: seq<Tree>) {
    forall i :: 0 <= i < |trees| ==>
      Decodable(trees[i]) && (i > 0 ==> convert(TypeOf(ValueOf(trees[0])), ValueOf(trees[i])).Some?)
  }

  /** The value of the last update, converted to the type of the first unless it is the first. */
  ghost predicate IsLatest(convert: Convert, trees: seq<Tree>, v: AnyValue) {
    if trees == [] then v == Empty
    else if |trees| == 1 then v == ValueOf(trees[0])
    else convert(TypeOf(ValueOf(trees[0])), ValueOf(trees[|trees| - 1])) == Some(v)
  }

  const NEVER_CONNECTED := ExtendedValue(false, Empty)

  /** When a stream of events throws, and what it leaves in the cache otherwise. */
  lemma {:induction false} FoldsExactly(convert: Convert, es: seq<Event>)
    requires ProperConvert(convert) && NoNulls(es)
    ensures Fold(convert, NEVER_CONNECTED, es).Ok? <==> Compatible(convert, Updates(es))
    ensures Fold(convert, NEVER_CONNECTED, es).Ok? ==>
      var c := Fold(convert, NEVER_CONNECTED, es).value;
      c.connected == Online(es) && IsLatest(convert, Updates(es), c.value)
  {
    if es != [] {
      var front, last := es[..|es| - 1], es[|es| - 1];
      FoldLast(convert, NEVER_CONNECTED, es);
      FoldsExactly(convert, front);
      if last.Update? {
        OneMoreUpdate(convert, Updates(front), last.tree);
        if Fold(convert, NEVER_CONNECTED, front).Ok? {
          UpdateApplies(convert, Fold(convert, NEVER_CONNECTED, front).value, Updates(front), last.tree);
        }
      } else {
        assert Updates(front) + [] == Updates(front);
      }
    }
  }

  lemma {:induction false} OneMoreUpdate(convert: Convert, trees: seq<Tree>, tree: Tree)
    ensures Compatible(convert, trees + [tree]) <==>
      && Compatible(convert, trees) && Decodable(tree)
      && (trees != [] ==> convert(TypeOf(ValueOf(trees[0])), ValueOf(tree)).Some?)
  {
    var all := trees + [tree];
    if Compatible(convert, all) {
      forall i | 0 <= i < |trees|
        ensures Decodable(trees[i]) && (i > 0 ==> convert(TypeOf(ValueOf(trees[0])), ValueOf(trees[i])).Some?)
      {
        assert all[i] == trees[i] && all[0] == trees[0];
      }
      assert all[|trees|] == tree;
    }
  }

  lemma {:induction false} UpdateApplies(convert: Convert, c: ExtendedValue, trees: seq<Tree>, tree: Tree)
    requires ProperConvert(convert) && !tree.Null?
    requires Compatible(convert, trees) && IsLatest(convert, trees, c.value)
    ensures Apply(convert, c, Update(tree)).Ok? <==>
      Decodable(tree) && (trees != [] ==> convert(TypeOf(ValueOf(trees[0])), ValueOf(tree)).Some?)
    ensures Apply(convert, c, Update(tree)).Ok? ==>
      var c' := Apply(convert, c, Update(tree)).value;
      c'.connected == c.connected && IsLatest(convert, trees + [tree], c'.value)
  {
    BuildAnyValueExactly(tree);
    LatestHasType(convert, trees, c.value);
  }

  lemma {:induction false} LatestHasType(convert: Convert, trees: seq<Tree>, v: AnyValue)
    requires ProperConvert(convert) && Compatible(convert, trees) && IsLatest(convert, trees, v)
    ensures v == Empty <==> trees == []
    ensures trees != [] ==> TypeOf(v) == TypeOf(ValueOf(trees[0]))
    ensures trees != [] && TypeOf(ValueOf(trees[|trees| - 1])) == TypeOf(ValueOf(trees[0])) ==>
      v == ValueOf(trees[|trees| - 1])
  {
    if trees != [] {
      assert Decodable(trees[0]);
      assert TypeOf(ValueOf(trees[0])) != EmptyType;
    }
  }

  /** GetValue. */
  function Visible(c: ExtendedValue): AnyValue {
    if c.connected then c.value else Empty
  }

  /**
   What a reader sees after any calls, throwing ones included. While the last committed connection event is a
   connect it is the value of the last committed update, converted to the type of the first if it is a later
   one; so it is that update's own value if the types agree. Otherwise, and before any update, it is Empty.
   */
  lemma {:induction false} VisibleExactly(convert: Convert, batches: seq<seq<Event>>)
    requires ProperConvert(convert) && forall i :: 0 <= i < |batches| ==> NoNulls(batches[i])
    ensures var es := Committed(convert, NEVER_CONNECTED, batches);
      var trees, v := Updates(es), Visible(Calls(convert, NEVER_CONNECTED, batches).0);
      && Compatible(convert, trees)
      && (if Online(es) then IsLatest(convert, trees, v) else v == Empty)
      && (v != Empty <==> Online(es) && trees != [])
      && (v != Empty ==> TypeOf(v) == TypeOf(ValueOf(trees[0])))
      && (v != Empty && TypeOf(ValueOf(trees[|trees| - 1])) == TypeOf(ValueOf(trees[0])) ==> v == ValueOf(trees[|trees| - 1]))
  {
    var es := Committed(convert, NEVER_CONNECTED, batches);
    CallsFoldCommitted(convert, NEVER_CONNECTED, batches);
    CommittedWereQueued(convert, NEVER_CONNECTED, batches);
    FoldsExactly(convert, es);
    LatestHasType(convert, Updates(es), Calls(convert, NEVER_CONNECTED, batches).0.value);
  }

  // ---------------------------------------------------------------------------------------------
  // The class
  // ---------------------------------------------------------------------------------------------

  class PvAccessClientPv {
    const convert: Convert
    var cache: ExtendedValue
    var queue: seq<Event>                // of the subscription
    var notified: seq<ExtendedValue>     // states the callback was called with

    constructor (convert: Convert)
      ensures this.convert == convert && cache == NEVER_CONNECTED && queue == [] && notified == []
    {
      this.convert, cache, queue, notified := convert, NEVER_CONNECTED, [], [];
    }

    /** A throw leaves the cache and loses the event that caused it and all before it; the later ones stay queued. */
    method ProcessMonitor() returns (r: Result<()>)
      requires NoNulls(queue)
      modifies this
      ensures r.Ok? <==> Fold(convert, old(cache), old(queue)).Ok?
      ensures r.Ok? ==>
        && Ok(cache) == Fold(convert, old(cache), old(queue))
        && notified == old(notified) + [cache] && queue == []
      ensures r.Err? ==>
        && r.error == Fold(convert, old(cache), old(queue)).error
        && cache == old(cache) && notified == old(notified)
        && exists n :: 0 <= n < |old(queue)| && queue == old(queue)[n + 1..]
                    && Fold(convert, old(cache), old(queue)[..n]).Ok? && Fold(convert, old(cache), old(queue)[..n + 1]).Err?
    {
      var result := cache;
      ghost var n := 0;
      while queue != []
        invariant 0 <= n <= |old(queue)| && queue == old(queue)[n..]
        invariant cache == old(cache) && notified == old(notified)
        invariant Fold(convert, old(cache), old(queue)[..n]) == Ok(result)
        decreases queue
      {
        var e := queue[0];
        queue := queue[1..];
        ghost var events := old(queue);
        assert events[..n + 1] == events[..n] + [e];
        FoldAppend(convert, old(cache), events[..n], [e]);
        assert [e][1..] == [];
        var next := Apply(convert, result, e);
        if next.Err? {
          assert events == events[..n + 1] + events[n + 1..];
          FoldAppend(convert, old(cache), events[..n + 1], events[n + 1..]);
          return Err(next.error);
        }
        result := next.value;
        n := n + 1;
      }
      assert old(queue)[..n] == old(queue);
      cache := result;
      notified := notified + [result];
      return Ok(());
    }

    method GetValue() returns (v: AnyValue)
      ensures v == Visible(cache)
    {
      if !cache.connected {
        return Empty;
      }
      return cache.value;
    }
  }
}
