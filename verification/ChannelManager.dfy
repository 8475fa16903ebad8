/**
 CAChannelManager: ids, callback entries, the lifetime of the context and of the channels opened in it.

 Every public call holds the manager's mutex, so a task given to the context has run when HandleTask
 returns, whatever the threads do (ManagerContext.CallsHaveRun). What the Channel Access library answers is an input.
 */
module ChannelManager {
  import opened Results
  import opened AnyValues
  import Codec = ChannelCodec

  type ChannelId = nat
  type Chid = nat

  /** ChannelID is an unsigned 64-bit integer. */
  const MODULUS: nat := 0x1_0000_0000_0000_0000

  // ---------------------------------------------------------------------------------------------
  // Ids
  // ---------------------------------------------------------------------------------------------

  function After(last: nat, k: nat): nat {
    (last + k) % MODULUS
  }

  function Window(last: nat, k: nat): set<nat> {
    set j | 1 <= j <= k :: After(last, j)
  }

  lemma {:induction false} WindowSize(last: nat, k: nat)
    requires k <= MODULUS
    ensures |Window(last, k)| == k
  {
    if k > 0 {
      WindowSize(last, k - 1);
      forall j | 1 <= j <= k - 1 ensures After(last, j) != After(last, k) {
      }
      assert Window(last, k) == Window(last, k - 1) + {After(last, k)};
    }
  }

  lemma {:induction false} SubsetSize(a: set<nat>, b: set<nat>)
    requires a <= b
    ensures |a| <= |b|
  {
    if a != {} {
      var x :| x in a;
      SubsetSize(a - {x}, b - {x});
    }
  }

  /** Pigeonhole: fewer than 2^64 keys cannot occupy 2^64 successive ids. */
  lemma {:induction false} Pigeonhole(last: nat, keys: set<nat>, k: nat)
    requires k <= MODULUS && forall j :: 1 <= j <= k ==> After(last, j) in keys
    ensures k <= |keys|
  {
    WindowSize(last, k);
    SubsetSize(Window(last, k), keys);
  }

  /** Number of increments until a free id, at least k of them. */
  function Increments(last: nat, keys: set<nat>, k: nat): (n: nat)
    requires |keys| < MODULUS && 1 <= k <= MODULUS
    requires forall j :: 1 <= j < k ==> After(last, j) in keys
    ensures k <= n <= |keys| + 1
    ensures After(last, n) !in keys && forall j :: 1 <= j < n ==> After(last, j) in keys
    decreases MODULUS - k
  {
    if After(last, k) in keys then
      Pigeonhole(last, keys, k);
      Increments(last, keys, k + 1)
    else
      Pigeonhole(last, keys, k - 1);
      k
  }

  function NextId(last: nat, keys: set<nat>): ChannelId
    requires |keys| < MODULUS
  {
    After(last, Increments(last, keys, 1))
  }

  lemma {:induction false} FirstFree(last: nat, keys: set<nat>) returns (n: nat)
    requires |keys| < MODULUS
    ensures 1 <= n && NextId(last, keys) == After(last, n) && After(last, n) !in keys
    ensures forall j :: 1 <= j < n ==> After(last, j) in keys
  {
    n := Increments(last, keys, 1);
  }

  lemma {:induction false} AfterStep(last: nat, k: nat)
    ensures After(last, k + 1) == (After(last, k) + 1) % MODULUS
  {
  }

  /** The id is free, and it is the first free one after the last id. */
  lemma {:induction false} NextIdIsFree(last: nat, keys: set<nat>)
    requires |keys| < MODULUS
    ensures NextId(last, keys) !in keys && NextId(last, keys) < MODULUS
    ensures last + 1 < MODULUS && last + 1 !in keys ==> NextId(last, keys) == last + 1
  {
    if last + 1 < MODULUS && last + 1 !in keys {
      assert After(last, 1) == last + 1;
    }
  }

  /** The id that also means failure is handed out exactly when the ids up to the wrap-around are taken. */
  lemma {:induction false} ZeroIdExactly(last: nat, keys: set<nat>)
    requires |keys| < MODULUS && last < MODULUS
    ensures NextId(last, keys) == 0 <==> 0 !in keys && forall id :: last < id < MODULUS ==> id in keys
  {
    if 0 !in keys && forall id :: last < id < MODULUS ==> id in keys {
      ZeroIdIf(last, keys);
    }
    if NextId(last, keys) == 0 {
      ZeroIdOnlyIf(last, keys);
    }
  }

  lemma {:induction false} ZeroIdIf(last: nat, keys: set<nat>)
    requires |keys| < MODULUS && last < MODULUS
    requires 0 !in keys && forall id :: last < id < MODULUS ==> id in keys
    ensures NextId(last, keys) == 0
  {
    var n := FirstFree(last, keys);
    var wrap := MODULUS - last;
    AfterWrap(last);
    if n < wrap {
      AfterBelow(last, n);
    }
    assert n == wrap;
  }

  lemma {:induction false} AfterWrap(last: nat)
    requires last < MODULUS
    ensures After(last, MODULUS - last) == 0
  {
  }

  lemma {:induction false} AfterBelow(last: nat, j: nat)
    requires last + j < MODULUS
    ensures After(last, j) == last + j
  {
  }

  lemma {:induction false} ZeroIdOnlyIf(last: nat, keys: set<nat>)
    requires |keys| < MODULUS && last < MODULUS && NextId(last, keys) == 0
    ensures 0 !in keys && forall id :: last < id < MODULUS ==> id in keys
  {
    var n := FirstFree(last, keys);
    ZeroAfter(last, n);
    AfterWrap(last);
    forall id | last < id < MODULUS ensures id in keys {
      AfterBelow(last, id - last);
    }
  }

  lemma {:induction false} ZeroAfter(last: nat, n: nat)
    requires last < MODULUS && After(last, n) == 0 && n >= 1
    ensures n >= MODULUS - last
  {
  }

  // ---------------------------------------------------------------------------------------------
  // The manager and the channels open in its context
  // ---------------------------------------------------------------------------------------------

  datatype Info = Info(typ: AnyType, chid: Option<Chid>)

  datatype State = State(
    lastId: nat,
    context: bool,
    infos: map<ChannelId, Info>,
    open: map<Chid, ChannelId>,   // open channels, with the entry their callbacks point to
    leaked: set<Chid>             // channels that could not be cleared, since the context exists
  )

  const INITIAL := State(0, false, map[], map[], {})

  /** How the library answers while a channel is added. */
  datatype AddAnswer =
    | ContextFails
    | CreateFails
    | SubscribeFails(chid: Chid, cleared: bool)
    | Added(chid: Chid)

  /** A new channel gets an id that no open channel has. */
  predicate Possible(s: State, a: AddAnswer) {
    match a
    case ContextFails => !s.context
    case CreateFails => true
    case SubscribeFails(chid, _) => chid !in s.open
    case Added(chid) => chid !in s.open
  }

  function Without<K, V>(m: map<K, V>, k: K): (r: map<K, V>)
    ensures r.Keys == m.Keys - {k} && forall x :: x in r ==> r[x] == m[x]
  {
    map x | x in m && x != k :: m[x]
  }

  /** RemoveChannelTask on an open channel. */
  function Clear(s: State, chid: Chid, cleared: bool): State {
    if cleared then s.(open := Without(s.open, chid)) else s.(leaked := s.leaked + {chid})
  }

  /** Destroying the context closes everything that is open in it. */
  function ClearContextIfNotNeeded(s: State): State {
    if s.infos == map[] then s.(context := false, open := map[], leaked := {}) else s
  }

  /** AddChannel; a type without channel type is refused before anything happens. */
  function Add(s: State, typ: AnyType, a: AddAnswer): (Result<ChannelId>, State)
    requires |s.infos.Keys| < MODULUS
  {
    if Codec.ChannelType(typ).None? then (Ok(0), s)
    else if a.ContextFails? then (Err(NoContext), s)
    else
      var id := NextId(s.lastId, s.infos.Keys);
      var s1 := s.(context := true, lastId := id);
      match a
      case Added(chid) =>
        (Ok(id), s1.(infos := s1.infos[id := Info(typ, Some(chid))], open := s1.open[chid := id]))
      case SubscribeFails(chid, cleared) =>
        (Ok(0), ClearContextIfNotNeeded(Clear(s1.(open := s1.open[chid := id]), chid, cleared)))
      case _ => (Ok(0), ClearContextIfNotNeeded(s1))
  }

  function Remove(s: State, id: ChannelId, cleared: bool): (bool, State) {
    if id !in s.infos then (false, s)
    else
      var s1 := if s.infos[id].chid.Some? then Clear(s, s.infos[id].chid.value, cleared) else s;
      (cleared, ClearContextIfNotNeeded(s1.(infos := Without(s1.infos, id))))
  }

  // ---------------------------------------------------------------------------------------------
  // The resource invariant
  // ---------------------------------------------------------------------------------------------

  /** The callbacks of the open channel point to the live entry of that channel. */
  predicate Live(s: State, chid: Chid)
    requires chid in s.open
  {
    s.open[chid] in s.infos && s.infos[s.open[chid]].chid == Some(chid)
  }

  ghost predicate Inv(s: State) {
    ContextMatches(s) && EntriesAreOpen(s) && DeadAreLeaked(s)
  }

  /** The context exists exactly while there are entries, and channels are open only in a context. */
  ghost predicate ContextMatches(s: State) {
    && (s.context <==> s.infos != map[])
    && (!s.context ==> s.open == map[])
  }

  /** Every entry has a channel type and its own open channel. */
  ghost predicate EntriesAreOpen(s: State) {
    forall id :: id in s.infos ==>
      && Codec.ChannelType(s.infos[id].typ).Some?
      && s.infos[id].chid.Some? && s.infos[id].chid.value in s.open && s.open[s.infos[id].chid.value] == id
  }

  /** The open channels without a live entry are those that could not be cleared. */
  ghost predicate DeadAreLeaked(s: State) {
    && s.leaked <= s.open.Keys
    && forall chid :: chid in s.open ==> (chid in s.leaked <==> !Live(s, chid))
  }

  lemma {:induction false} AddKeepsInv(s: State, typ: AnyType, a: AddAnswer)
    requires Inv(s) && |s.infos.Keys| < MODULUS && Possible(s, a)
    ensures Inv(Add(s, typ, a).1)
  {
    var id := NextId(s.lastId, s.infos.Keys);
    NextIdIsFree(s.lastId, s.infos.Keys);
    if Codec.ChannelType(typ).Some? {
      match a
      case Added(chid) => EntryKeepsInv(s, id, typ, chid);
      case SubscribeFails(chid, cleared) => OrphanKeepsInv(s, id, chid, cleared);
      case _ =>
    }
  }

  lemma {:induction false} EntryKeepsInv(s: State, id: ChannelId, typ: AnyType, chid: Chid)
    requires Inv(s) && id !in s.infos && chid !in s.open && Codec.ChannelType(typ).Some?
    ensures Inv(s.(context := true, lastId := id, infos := s.infos[id := Info(typ, Some(chid))], open := s.open[chid := id]))
  {
    var s' := s.(context := true, lastId := id, infos := s.infos[id := Info(typ, Some(chid))], open := s.open[chid := id]);
    assert s'.infos != map[] by {
      assert id in s'.infos;
    }
    EntryIsOpen(s, s', id, chid);
    EntryIsLive(s, s', id, chid);
  }

  lemma {:induction false} EntryIsOpen(s: State, s': State, id: ChannelId, chid: Chid)
    requires EntriesAreOpen(s) && id !in s.infos && chid !in s.open
    requires s'.open == s.open[chid := id]
    requires s'.infos.Keys == s.infos.Keys + {id} && forall k :: k in s.infos ==> s'.infos[k] == s.infos[k]
    requires Codec.ChannelType(s'.infos[id].typ).Some? && s'.infos[id].chid == Some(chid)
    ensures EntriesAreOpen(s')
  {
  }

  lemma {:induction false} EntryIsLive(s: State, s': State, id: ChannelId, chid: Chid)
    requires DeadAreLeaked(s) && id !in s.infos && chid !in s.open
    requires s'.open == s.open[chid := id] && s'.leaked == s.leaked
    requires s'.infos.Keys == s.infos.Keys + {id} && forall k :: k in s.infos ==> s'.infos[k] == s.infos[k]
    requires s'.infos[id].chid == Some(chid)
    ensures DeadAreLeaked(s')
  {
    forall c | c in s'.open ensures c in s'.leaked <==> !Live(s', c) {
      if c != chid {
        assert c in s.open && s'.open[c] == s.open[c];
      }
    }
  }

  /** A channel without entry: closed again, or leaked unless the context goes away with it. */
  lemma {:induction false} OrphanKeepsInv(s: State, id: ChannelId, chid: Chid, cleared: bool)
    requires Inv(s) && id !in s.infos && chid !in s.open
    ensures Inv(ClearContextIfNotNeeded(Clear(s.(context := true, lastId := id, open := s.open[chid := id]), chid, cleared)))
  {
  }

  lemma {:induction false} RemoveKeepsInv(s: State, id: ChannelId, cleared: bool)
    requires Inv(s)
    ensures Inv(Remove(s, id, cleared).1)
  {
    if id in s.infos {
      var chid := s.infos[id].chid.value;
      assert Live(s, chid);
    }
  }

  /** The open channels are the ones in the map and the leaked ones, which are never the same. */
  lemma {:induction false} OpenChannels(s: State)
    requires Inv(s)
    ensures var mapped := set id | id in s.infos && s.infos[id].chid.Some? :: s.infos[id].chid.value;
      s.open.Keys == mapped + s.leaked && mapped !! s.leaked
    ensures forall i, j :: i in s.infos && j in s.infos && s.infos[i].chid == s.infos[j].chid ==> i == j
  {
    var mapped := set id | id in s.infos && s.infos[id].chid.Some? :: s.infos[id].chid.value;
    forall chid | chid in s.open ensures chid in mapped + s.leaked {
      if chid !in s.leaked {
        assert Live(s, chid);
      }
    }
    forall id | id in s.infos ensures s.infos[id].chid.value !in s.leaked {
      assert Live(s, s.infos[id].chid.value);
    }
  }

  /** The entry is there, with its type, and its own open channel was not open before. */
  ghost predicate Opens(s: State, s': State, id: ChannelId, typ: AnyType) {
    && id in s'.infos && s'.infos[id].typ == typ && s'.infos[id].chid.Some?
    && var chid := s'.infos[id].chid.value;
    chid !in s.open && chid in s'.open && s'.open[chid] == id
  }

  /**
   What an addition returns. A new entry is there if and only if the library added a channel of a type with
   channel type; it is then the returned one, and it owns a newly opened channel. Any id other than 0 that is
   returned is such an entry. No other entry changes, and nothing at all where the type is refused or the
   context cannot be made, which is the only throw.
   */
  lemma {:induction false} AddReturnsExactly(s: State, typ: AnyType, a: AddAnswer)
    requires Inv(s) && |s.infos.Keys| < MODULUS && Possible(s, a)
    ensures var (r, s') := Add(s, typ, a);
      && (forall id :: id in s.infos ==> id in s'.infos && s'.infos[id] == s.infos[id])
      && (forall id :: id in s'.infos && id !in s.infos ==> r == Ok(id) && Opens(s, s', id, typ))
      && ((exists id :: id in s'.infos && id !in s.infos) <==> Codec.ChannelType(typ).Some? && a.Added?)
      && (r.Ok? && r.value != 0 ==> r.value !in s.infos && Opens(s, s', r.value, typ))
      && (r.Err? <==> Codec.ChannelType(typ).Some? && a.ContextFails?)
      && (r.Err? || Codec.ChannelType(typ).None? ==> s' == s)
  {
    NextIdIsFree(s.lastId, s.infos.Keys);
    if Codec.ChannelType(typ).Some? && a.Added? {
      var (r, s') := Add(s, typ, a);
      var id := NextId(s.lastId, s.infos.Keys);
      assert id in s'.infos && id !in s.infos && Opens(s, s', id, typ);
    }
  }

  /**
   What a removal returns: true if and only if the id was known and the clear succeeded. The entry is gone in
   any case, its channel stays open only after a failed clear with other entries left, and nothing else changes
   while there are entries.
   */
  lemma {:induction false} RemoveReturnsExactly(s: State, id: ChannelId, cleared: bool)
    requires Inv(s)
    ensures var (r, s') := Remove(s, id, cleared);
      && (r <==> id in s.infos && cleared)
      && s'.lastId == s.lastId
      && s'.infos.Keys == s.infos.Keys - {id} && (forall k :: k in s'.infos ==> s'.infos[k] == s.infos[k])
      && (id !in s.infos ==> s' == s)
      && (id in s.infos ==>
        && (s.infos[id].chid.value in s'.open <==> !cleared && s'.infos != map[])
        && (s'.infos != map[] ==> forall c :: c in s.open && c != s.infos[id].chid.value ==>
          c in s'.open && s'.open[c] == s.open[c]))
  {
  }

  /** Create failure, or subscription failure with a successful clear: nothing is left behind but the id. */
  lemma {:induction false} FailedAddRestores(s: State, typ: AnyType, a: AddAnswer)
    requires Inv(s) && |s.infos.Keys| < MODULUS && Possible(s, a)
    requires a.CreateFails? || a.ContextFails? || (a.SubscribeFails? && a.cleared)
    ensures var (r, s') := Add(s, typ, a);
      s' == s.(lastId := s'.lastId) && (r == Ok(0) || r == Err(NoContext))
  {
    if Codec.ChannelType(typ).Some? && a.SubscribeFails? {
      var id := NextId(s.lastId, s.infos.Keys);
      assert Without(s.open[a.chid := id], a.chid) == s.open;
    }
  }

  // ---------------------------------------------------------------------------------------------
  // Whole runs of public calls
  // ---------------------------------------------------------------------------------------------

  datatype Call =
    | AddCall(typ: AnyType, answer: AddAnswer)
    | RemoveCall(id: ChannelId, cleared: bool)

  function Apply(s: State, c: Call): State
    requires |s.infos.Keys| < MODULUS
  {
    match c
    case AddCall(typ, a) => Add(s, typ, a).1
    case RemoveCall(id, cleared) => Remove(s, id, cleared).1
  }

  /** What AddChannel returns to its caller; 0 where it throws and for other calls. */
  function Returned(s: State, c: Call): ChannelId
    requires |s.infos.Keys| < MODULUS
  {
    match c
    case AddCall(typ, a) =>
      var r := Add(s, typ, a).0;
      if r.Ok? then r.value else 0
    case RemoveCall(_, _) => 0
  }

  /** The call put an entry into the map. */
  ghost predicate AddsEntry(s: State, s': State) {
    exists id :: id in s'.infos && id !in s.infos
  }

  ghost predicate IsTrace(states: seq<State>, calls: seq<Call>) {
    && |states| == |calls| + 1 && states[0] == INITIAL
    && forall i :: 0 <= i < |calls| ==> Leads(states[i], calls[i], states[i + 1])
  }

  ghost predicate Leads(s: State, c: Call, s': State) {
    && |s.infos.Keys| < MODULUS
    && (c.AddCall? ==> Possible(s, c.answer))
    && s' == Apply(s, c)
  }

  lemma {:induction false} CallKeepsInv(s: State, c: Call, s': State)
    requires Inv(s) && Leads(s, c, s')
    ensures Inv(s')
  {
    match c
    case AddCall(typ, a) => AddKeepsInv(s, typ, a);
    case RemoveCall(id, cleared) => RemoveKeepsInv(s, id, cleared);
  }

  lemma {:induction false} TraceKeepsInv(states: seq<State>, calls: seq<Call>, n: nat)
    requires IsTrace(states, calls) && n <= |calls|
    ensures Inv(states[n])
  {
    if n > 0 {
      TraceKeepsInv(states, calls, n - 1);
      CallKeepsInv(states[n - 1], calls[n - 1], states[n]);
    }
  }

  /** The call opens or finds a channel, tries to clear it and fails. */
  predicate FailsToClear(s: State, c: Call) {
    match c
    case AddCall(typ, a) => Codec.ChannelType(typ).Some? && a.SubscribeFails? && !a.cleared
    case RemoveCall(id, cleared) => id in s.infos && !cleared
  }

  /** An open channel whose callbacks point to an entry that was erased. */
  ghost predicate HasDeadCallback(s: State) {
    exists chid :: chid in s.open && !Live(s, chid)
  }

  lemma {:induction false} DeadIsLeaked(s: State)
    requires Inv(s)
    ensures HasDeadCallback(s) <==> s.leaked != {}
  {
    if s.leaked != {} {
      var chid :| chid in s.leaked;
      assert chid in s.open && !Live(s, chid);
    }
  }

  /** One call: dead callbacks stay, and new ones come from failed clears only, unless the context goes away. */
  lemma {:induction false} DeadAfterCall(s: State, c: Call, s': State)
    requires Inv(s) && Leads(s, c, s')
    ensures HasDeadCallback(s') <==> s'.infos != map[] && (HasDeadCallback(s) || FailsToClear(s, c))
  {
    CallKeepsInv(s, c, s');
    DeadIsLeaked(s);
    DeadIsLeaked(s');
    LeakedAfterCall(s, c, s');
  }

  lemma {:induction false} LeakedAfterCall(s: State, c: Call, s': State)
    requires Inv(s) && Leads(s, c, s')
    ensures s'.leaked != {} <==> s'.infos != map[] && (s.leaked != {} || FailsToClear(s, c))
  {
    match c
    case AddCall(typ, Added(chid)) =>
      if Codec.ChannelType(typ).Some? {
        assert NextId(s.lastId, s.infos.Keys) in s'.infos;
      }
    case AddCall(_, _) =>
    case RemoveCall(id, _) =>
      if id in s.infos {
        assert s.infos[id].chid.Some?;
      }
  }

  /**
   A callback that points to an erased entry is registered at the end of a run if and only if some clear
   failed and the context was kept by other entries ever since.
   */
  lemma {:induction false} CallbacksAreLiveExactly(states: seq<State>, calls: seq<Call>, n: nat)
    requires IsTrace(states, calls) && n <= |calls|
    ensures HasDeadCallback(states[n]) <==>
      exists i :: 0 <= i < n && FailsToClear(states[i], calls[i]) && forall j :: i < j <= n ==> states[j].infos != map[]
  {
    if n > 0 {
      CallbacksAreLiveExactly(states, calls, n - 1);
      TraceKeepsInv(states, calls, n - 1);
      assert Leads(states[n - 1], calls[n - 1], states[n]);
      DeadAfterCall(states[n - 1], calls[n - 1], states[n]);
      if HasDeadCallback(states[n]) {
        if FailsToClear(states[n - 1], calls[n - 1]) {
          assert forall j :: n - 1 < j <= n ==> states[j].infos != map[];
        } else {
          var i :| 0 <= i < n - 1 && FailsToClear(states[i], calls[i])
                && forall j :: i < j <= n - 1 ==> states[j].infos != map[];
          assert forall j :: i < j <= n ==> states[j].infos != map[];
        }
      }
    }
  }

  /** The shortest such run: two channels are added, and removing the first fails to clear it. */
  lemma {:induction false} DeadCallbackRun(typ: AnyType, first: Chid, second: Chid) returns (states: seq<State>, calls: seq<Call>)
    requires Codec.ChannelType(typ).Some? && first != second
    ensures IsTrace(states, calls) && calls == [AddCall(typ, Added(first)), AddCall(typ, Added(second)), RemoveCall(1, false)]
    ensures first in states[3].open && !Live(states[3], first)
  {
    calls := [AddCall(typ, Added(first)), AddCall(typ, Added(second)), RemoveCall(1, false)];
    NextIdIsFree(0, {});
    var s1 := Add(INITIAL, typ, Added(first)).1;
    assert s1.infos.Keys == {1};
    NextIdIsFree(1, {1});
    var s2 := Add(s1, typ, Added(second)).1;
    assert s2.infos.Keys == {1, 2};
    assert 2 in Without(s2.infos, 1);
    states := [INITIAL, s1, s2, Remove(s2, 1, false).1];
  }

  /** As long as clears succeed, the open channels are exactly those of the map, and every callback is live. */
  lemma {:induction false} NoLeaks(states: seq<State>, calls: seq<Call>, n: nat)
    requires IsTrace(states, calls) && n <= |calls|
    requires forall i :: 0 <= i < n ==> !FailsToClear(states[i], calls[i])
    ensures var s := states[n];
      && (s.context <==> s.infos != map[])
      && s.open.Keys == (set id | id in s.infos && s.infos[id].chid.Some? :: s.infos[id].chid.value)
      && forall chid :: chid in s.open ==> Live(s, chid)
  {
    TraceKeepsInv(states, calls, n);
    CallbacksAreLiveExactly(states, calls, n);
    DeadIsLeaked(states[n]);
    OpenChannels(states[n]);
  }

  ghost predicate KeysUpToLast(s: State) {
    forall id :: id in s.infos ==> 1 <= id <= s.lastId
  }

  lemma {:induction false} CallIncrementsOnce(s: State, c: Call)
    requires |s.infos.Keys| < MODULUS && KeysUpToLast(s) && s.lastId + 1 < MODULUS
    ensures KeysUpToLast(Apply(s, c)) && s.lastId <= Apply(s, c).lastId <= s.lastId + 1
    ensures Returned(s, c) != 0 ==> Returned(s, c) == s.lastId + 1 == Apply(s, c).lastId
    ensures AddsEntry(s, Apply(s, c)) ==> Returned(s, c) != 0
  {
    NextIdIsFree(s.lastId, s.infos.Keys);
  }

  lemma {:induction false} LastIdGrows(states: seq<State>, calls: seq<Call>, i: nat, n: nat)
    requires IsTrace(states, calls) && i <= n <= |calls| && n < MODULUS
    ensures KeysUpToLast(states[n]) && states[i].lastId <= states[n].lastId <= n
    decreases n
  {
    if n > 0 {
      LastIdGrows(states, calls, if i < n then i else n - 1, n - 1);
      assert Leads(states[n - 1], calls[n - 1], states[n]);
      CallIncrementsOnce(states[n - 1], calls[n - 1]);
    }
  }

  /** Before the counter can have wrapped, a call that adds an entry returns an id larger than all returned before. */
  lemma {:induction false} IdsIncrease(states: seq<State>, calls: seq<Call>, i: nat, n: nat)
    requires IsTrace(states, calls) && i <= n < |calls| && |calls| < MODULUS
    requires Leads(states[i], calls[i], states[i + 1]) && Leads(states[n], calls[n], states[n + 1])
    ensures AddsEntry(states[n], states[n + 1]) ==> Returned(states[n], calls[n]) > 0
    ensures i < n && Returned(states[n], calls[n]) > 0 ==> Returned(states[i], calls[i]) < Returned(states[n], calls[n])
  {
    LastIdGrows(states, calls, i, i);
    LastIdGrows(states, calls, n, n);
    CallIncrementsOnce(states[i], calls[i]);
    CallIncrementsOnce(states[n], calls[n]);
    if i < n {
      LastIdGrows(states, calls, i + 1, n);
    }
  }

  /** The wrap-around can be reached: after 2^64 - 1 failed additions the next one succeeds and returns 0. */
  lemma {:induction false} ZeroIdRun(typ: AnyType, chid: Chid) returns (states: seq<State>, calls: seq<Call>)
    requires Codec.ChannelType(typ).Some?
    ensures IsTrace(states, calls) && |calls| == MODULUS
    ensures forall i :: 0 <= i < MODULUS - 1 ==> calls[i] == AddCall(typ, CreateFails)
    ensures calls[MODULUS - 1] == AddCall(typ, Added(chid))
    ensures Leads(states[MODULUS - 1], calls[MODULUS - 1], states[MODULUS])
    ensures AddsEntry(states[MODULUS - 1], states[MODULUS]) && Returned(states[MODULUS - 1], calls[MODULUS - 1]) == 0
    ensures chid in states[MODULUS].open && Live(states[MODULUS], chid)
  {
    var before := INITIAL.(lastId := MODULUS - 1);
    ZeroIdExactly(MODULUS - 1, {});
    var s' := Add(before, typ, Added(chid)).1;
    calls := seq(MODULUS - 1, _ => AddCall(typ, CreateFails)) + [AddCall(typ, Added(chid))];
    states := seq(MODULUS, i requires 0 <= i < MODULUS => INITIAL.(lastId := i)) + [s'];
    forall i | 0 <= i < MODULUS ensures Leads(states[i], calls[i], states[i + 1]) {
      if i < MODULUS - 1 {
        NextIdIsFree(i, {});
        assert states[i].infos.Keys == {};
      }
    }
  }

  // ---------------------------------------------------------------------------------------------
  // The classes
  // ---------------------------------------------------------------------------------------------

  /** The Channel Access library as the context's thread uses it; answers are given with the calls. */
  class CaLibrary {
    var open: map<Chid, ChannelId>
    ghost var leaked: set<Chid>

    constructor ()
      ensures open == map[] && leaked == {}
    {
      open, leaked := map[], {};
    }

    /** AddChannelTask: the channel id is written before the subscription is tried. */
    method AddChannelTask(owner: ChannelId, a: AddAnswer) returns (added: bool, chid: Option<Chid>)
      modifies this`open
      ensures added <==> a.Added?
      ensures chid == if a.Added? || a.SubscribeFails? then Some(a.chid) else None
      ensures open == if chid.Some? then old(open)[chid.value := owner] else old(open)
    {
      match a
      case Added(c) => added, chid, open := true, Some(c), open[c := owner];
      case SubscribeFails(c, _) => added, chid, open := false, Some(c), open[c := owner];
      case _ => added, chid := false, None;
    }

    method RemoveChannelTask(chid: Chid, cleared: bool) returns (r: bool)
      modifies this
      ensures r == cleared
      ensures open == if cleared then Without(old(open), chid) else old(open)
      ensures leaked == if cleared then old(leaked) else old(leaked) + {chid}
    {
      if cleared {
        open := Without(open, chid);
      } else {
        leaked := leaked + {chid};
      }
      r := cleared;
    }

    /** ca_context_destroy. */
    method Destroy()
      modifies this
      ensures open == map[] && leaked == {}
    {
      open, leaked := map[], {};
    }
  }

  /** What UpdateChannelTask is given. */
  datatype Put = Put(chid: Chid, dbr: Codec.Dbr, count: nat, bytes: seq<byte>)

  class CAChannelManager {
    var lastId: nat
    var context: bool
    var infos: map<ChannelId, Info>
    const library: CaLibrary

    ghost function Abs(): State
      reads this, library
    {
      State(lastId, context, infos, library.open, library.leaked)
    }

    constructor ()
      ensures Abs() == INITIAL && fresh(library)
    {
      lastId, context, infos := 0, false, map[];
      library := new CaLibrary();
    }

    method GenerateId() returns (id: ChannelId)
      requires |infos.Keys| < MODULUS
      modifies this`lastId
      ensures id == lastId == NextId(old(lastId), infos.Keys)
    {
      ghost var last, k := lastId, 1;
      ghost var n := FirstFree(lastId, infos.Keys);
      lastId := (lastId + 1) % MODULUS;
      while lastId in infos
        invariant 1 <= k <= n && lastId == After(last, k)
        decreases n - k
      {
        AfterStep(last, k);
        k := k + 1;
        lastId := (lastId + 1) % MODULUS;
      }
      id := lastId;
    }

    method ClearContext()
      modifies this`context, library
      ensures Abs() == ClearContextIfNotNeeded(old(Abs()))
    {
      if |infos| == 0 {
        context := false;
        library.Destroy();
      }
    }

    /** The part of AddChannel that holds a context and an id: the entry, the task and the rollback. */
    method AddEntry(id: ChannelId, typ: AnyType, a: AddAnswer) returns (r: ChannelId)
      requires id !in infos && !a.ContextFails?
      modifies this`infos, library
      ensures r == if a.Added? then id else 0
      ensures infos == if a.Added? then old(infos)[id := Info(typ, Some(a.chid))] else old(infos)
      ensures library.open ==
        if a.Added? then old(library.open)[a.chid := id]
        else if a.CreateFails? then old(library.open)
        else if a.cleared then Without(old(library.open)[a.chid := id], a.chid)
        else old(library.open)[a.chid := id]
      ensures library.leaked ==
        if a.SubscribeFails? && !a.cleared then old(library.leaked) + {a.chid} else old(library.leaked)
    {
      ghost var before := infos;
      infos := infos[id := Info(typ, None)];
      var added, chid := library.AddChannelTask(id, a);
      infos := infos[id := Info(typ, chid)];
      r := id;
      if !added {
        if chid.Some? {
          var _ := library.RemoveChannelTask(chid.value, a.cleared);
        }
        infos := Without(infos, id);
        assert infos == before;
        r := 0;
      }
    }

    method AddChannel(typ: AnyType, a: AddAnswer) returns (r: Result<ChannelId>)
      requires |infos.Keys| < MODULUS && Possible(Abs(), a)
      modifies this, library
      ensures (r, Abs()) == Add(old(Abs()), typ, a)
    {
      if Codec.ChannelType(typ).None? {
        return Ok(0);
      }
      if !context {
        if a.ContextFails? {
          return Err(NoContext);
        }
        context := true;
      }
      NextIdIsFree(lastId, infos.Keys);
      var id := GenerateId();
      id := AddEntry(id, typ, a);
      assert a.Added? ==> id in infos;
      ClearContext();
      return Ok(id);
    }

    method RemoveChannel(id: ChannelId, cleared: bool) returns (r: bool)
      requires Inv(Abs())
      modifies this, library
      ensures (r, Abs()) == Remove(old(Abs()), id, cleared)
    {
      if id !in infos {
        return false;
      }
      r := library.RemoveChannelTask(infos[id].chid.value, cleared);
      infos := Without(infos, id);
      ClearContext();
    }

    /**
     UpdateChannel: `converted` is what TryConvert makes of the value for the channel's type, `accepted`
     the library's answer. What is sent are `count` elements of the channel's type, and as many bytes.
     */
    method UpdateChannel(id: ChannelId, converted: Option<AnyValue>, accepted: bool) returns (r: bool, ghost sent: Option<Put>)
      requires Inv(Abs())
      requires id in infos && converted.Some? ==>
        TypeOf(converted.value) == infos[id].typ && WellFormed(converted.value)
      ensures r <==> id in infos && converted.Some? && Codec.UpdateBuffer(converted.value) != [] && accepted
      ensures sent.None? <==> id !in infos || converted.None? || Codec.UpdateBuffer(converted.value) == []
      ensures sent.Some? ==>
        var t, put := infos[id].typ, sent.value;
        && put.bytes == Codec.UpdateBuffer(converted.value) && Some(put.chid) == infos[id].chid
        && Some(put.dbr) == Codec.ChannelType(t) && put.count == (if t.ArrayType? && t.size > 1 then t.size else 1)
        && |put.bytes| == put.count * Codec.DbrSize(put.dbr)
    {
      sent := None;
      if id !in infos {
        return false, None;
      }
      var t, chid := infos[id].typ, infos[id].chid;
      if Codec.ChannelType(t).None? || converted.None? {
        return false, None;
      }
      var count := Codec.Multiplicity(t);
      var bytes := Codec.GetUpdateBuffer(converted.value);
      if |bytes| == 0 {
        return false, None;
      }
      Codec.BufferHasDeclaredLength(converted.value);
      r, sent := accepted, Some(Put(chid.value, Codec.ChannelType(t).value, count, bytes));
    }
  }
}
