/** The live-feed hub: websocket handlers that register a watcher, start a tail and later
    take both away again, interleaved step by step, two handlers possibly under one id. */
module WatcherHub {
  import opened Sequences

  type Id = string

  /** A handler number stands for the handler, its watcher and its tail's stop channel. */
  type Handler = nat

  // ----- The inner hub

  datatype Inner = Inner(maxSize: nat, m: map<Id, Handler>)

  /** Refused only when full and the id is new. */
  function RegisterInner(s: Inner, id: Id, h: Handler): (Inner, bool) {
    if s.maxSize > 0 && |s.m| >= s.maxSize && id !in s.m then (s, false)
    else (s.(m := s.m[id := h]), true)
  }

  /** A watcher is admitted exactly when there is no limit, there is room, or its id is present,
      and it then replaces only what was there under its id. */
  lemma AdmittedExactly(s: Inner, id: Id, h: Handler)
    ensures var (t, ok) := RegisterInner(s, id, h);
            && (ok <==> s.maxSize == 0 || |s.m| < s.maxSize || id in s.m)
            && (ok ==> id in t.m && t.m[id] == h && t.m.Keys == s.m.Keys + {id})
            && (forall k :: k in s.m && k != id ==> k in t.m && t.m[k] == s.m[k])
            && (!ok ==> t == s) && t.maxSize == s.maxSize
  {
  }

  class SimpleWatcherHub {
    const maxSize: nat
    var m: map<Id, Handler>

    constructor (maxSize: nat)
      ensures State() == Inner(maxSize, map[])
    {
      this.maxSize := maxSize;
      m := map[];
    }

    function State(): Inner
      reads this
    {
      Inner(maxSize, m)
    }

    method IsRegistered(id: Id) returns (exists_: bool)
      ensures exists_ <==> id in State().m
    {
      exists_ := id in m;
    }

    method Register(id: Id, h: Handler) returns (ok: bool)
      modifies this
      ensures (State(), ok) == RegisterInner(old(State()), id, h)
    {
      if maxSize > 0 && |m| >= maxSize {
        if id !in m {
          return false;
        }
      }
      m := m[id := h];
      ok := true;
    }

    method Unregister(id: Id)
      modifies this
      ensures State() == old(State()).(m := old(State()).m - {id})
    {
      m := m - {id};
    }
  }

  // ----- The tails map and its two critical sections

  /** closed lists the stop channels in the order they were closed. */
  datatype Tails = Tails(m: map<Id, Handler>, closed: seq<Handler>)

  function InsertTail(t: Tails, id: Id, h: Handler): Tails {
    Tails(t.m[id := h], if id in t.m then t.closed + [t.m[id]] else t.closed)
  }

  function RemoveTail(t: Tails, id: Id): Tails {
    if id in t.m then Tails(t.m - {id}, t.closed + [t.m[id]]) else t
  }

  class Hub {
    const inner: SimpleWatcherHub
    var tails: map<Id, Handler>
    ghost var closed: seq<Handler>

    constructor (inner: SimpleWatcherHub)
      ensures this.inner == inner && TailState() == Tails(map[], [])
    {
      this.inner := inner;
      tails, closed := map[], [];
    }

    ghost function TailState(): Tails
      reads this
    {
      Tails(tails, closed)
    }

    /** `Register` up to its critical section: a refusal starts no tail. */
    method RegisterWatcher(id: Id, h: Handler) returns (ok: bool)
      modifies inner
      ensures (inner.State(), ok) == RegisterInner(old(inner.State()), id, h)
      ensures TailState() == old(TailState())
    {
      ok := inner.Register(id, h);
    }

    /** `Register`'s critical section. */
    method StartTail(id: Id, h: Handler)
      modifies this
      ensures TailState() == InsertTail(old(TailState()), id, h)
    {
      if id in tails {
        closed := closed + [tails[id]];
      }
      tails := tails[id := h];
    }

    /** `Unregister`'s critical section. */
    method StopTail(id: Id)
      modifies this
      ensures TailState() == RemoveTail(old(TailState()), id)
    {
      if id in tails {
        closed := closed + [tails[id]];
        tails := tails - {id};
      }
    }

    /** The rest of `Unregister`. */
    method UnregisterWatcher(id: Id)
      modifies inner
      ensures inner.State() == old(inner.State()).(m := old(inner.State()).m - {id})
      ensures TailState() == old(TailState())
    {
      inner.Unregister(id);
    }
  }

  // ----- Every interleaving of handlers

  /** Where a handler is between its atomic sections. */
  datatype Pc = Arrived | Checked | Registered | Running | Stopping | Finished | Rejected

  datatype State = State(inner: Inner, tails: Tails, pc: map<Handler, Pc>, id: map<Handler, Id>)

  datatype Action =
    | Arrive(h: Handler, watcherId: Id)
    | Check(h: Handler)
    | Register(h: Handler)
    | Start(h: Handler)
    | Stop(h: Handler)
    | Unregister(h: Handler)

  function Initial(maxSize: nat): State {
    State(Inner(maxSize, map[]), Tails(map[], []), map[], map[])
  }

  predicate At(s: State, h: Handler, pc: Pc) {
    h in s.pc && h in s.id && s.pc[h] == pc
  }

  predicate Enabled(s: State, a: Action) {
    match a
    case Arrive(h, _) => h !in s.pc
    case Check(h) => At(s, h, Arrived)
    case Register(h) => At(s, h, Checked)
    case Start(h) => At(s, h, Registered)
    case Stop(h) => At(s, h, Running)
    case Unregister(h) => At(s, h, Stopping)
  }

  function Next(s: State, a: Action): State
    requires Enabled(s, a)
  {
    match a
    case Arrive(h, id) => s.(pc := s.pc[h := Arrived], id := s.id[h := id])
    case Check(h) => s.(pc := s.pc[h := if s.id[h] in s.inner.m then Rejected else Checked])
    case Register(h) =>
      var (inner, ok) := RegisterInner(s.inner, s.id[h], h);
      s.(inner := inner, pc := s.pc[h := if ok then Registered else Rejected])
    case Start(h) => s.(tails := InsertTail(s.tails, s.id[h], h), pc := s.pc[h := Running])
    case Stop(h) => s.(tails := RemoveTail(s.tails, s.id[h]), pc := s.pc[h := Stopping])
    case Unregister(h) => s.(inner := s.inner.(m := s.inner.m - {s.id[h]}), pc := s.pc[h := Finished])
  }

  predicate IsRun(s: State, actions: seq<Action>)
    decreases |actions|
  {
    actions != [] ==> Enabled(s, actions[0]) && IsRun(Next(s, actions[0]), actions[1..])
  }

  function After(s: State, actions: seq<Action>): State
    requires IsRun(s, actions)
    decreases |actions|
  {
    if actions == [] then s else After(Next(s, actions[0]), actions[1..])
  }

  /** The handler's stop channel was put into the map. */
  predicate Started(s: State, h: Handler) {
    At(s, h, Running) || At(s, h, Stopping) || At(s, h, Finished)
  }

  predicate IsEntry(s: State, h: Handler) {
    h in s.id && s.id[h] in s.tails.m && s.tails.m[s.id[h]] == h
  }

  ghost predicate Inv(s: State) {
    && s.pc.Keys == s.id.Keys
    && NoDuplicates(s.tails.closed)
    && (forall h :: h in s.tails.closed ==> Started(s, h))
    && (forall id :: id in s.tails.m ==>
      At(s, s.tails.m[id], Running) && s.id[s.tails.m[id]] == id && s.tails.m[id] !in s.tails.closed)
    && (forall h :: Started(s, h) ==> IsEntry(s, h) || h in s.tails.closed)
    && (forall id :: id in s.inner.m ==>
          var h := s.inner.m[id];
          (At(s, h, Registered) || At(s, h, Running) || At(s, h, Stopping)) && s.id[h] == id)
    && (s.inner.maxSize > 0 ==> |s.inner.m| <= s.inner.maxSize)
  }

  lemma InsertKeepsInv(s: State, h: Handler)
    requires Inv(s) && Enabled(s, Start(h))
    ensures Inv(Next(s, Start(h)))
  {
    var t := Next(s, Start(h));
    assert h !in s.tails.closed;
    assert forall g :: g != h ==> (Started(t, g) <==> Started(s, g));
    assert IsEntry(t, h);
    if s.id[h] in s.tails.m {
      var g := s.tails.m[s.id[h]];
      assert t.tails.closed == s.tails.closed + [g];
    }
  }

  lemma StopKeepsInv(s: State, h: Handler)
    requires Inv(s) && Enabled(s, Stop(h))
    ensures Inv(Next(s, Stop(h)))
  {
    var t := Next(s, Stop(h));
    assert forall g :: Started(t, g) <==> Started(s, g);
    if s.id[h] in s.tails.m {
      var g := s.tails.m[s.id[h]];
      assert t.tails.closed == s.tails.closed + [g];
    }
  }

  lemma MapSizeDrop(m: map<Id, Handler>, id: Id)
    ensures |m - {id}| <= |m|
  {
    assert (m - {id}).Keys == m.Keys - {id};
    assert |m.Keys - {id}| <= |m.Keys|;
  }

  lemma MapSizePut(m: map<Id, Handler>, id: Id, h: Handler)
    ensures |m[id := h]| == if id in m then |m| else |m| + 1
  {
    assert m[id := h].Keys == m.Keys + {id};
  }

  lemma RegisterKeepsInv(s: State, h: Handler)
    requires Inv(s) && Enabled(s, Register(h))
    ensures Inv(Next(s, Register(h)))
  {
    var t := Next(s, Register(h));
    MapSizePut(s.inner.m, s.id[h], h);
    assert forall g :: Started(t, g) <==> Started(s, g);
  }

  lemma UnregisterKeepsInv(s: State, h: Handler)
    requires Inv(s) && Enabled(s, Unregister(h))
    ensures Inv(Next(s, Unregister(h)))
  {
    var t := Next(s, Unregister(h));
    MapSizeDrop(s.inner.m, s.id[h]);
    assert forall g :: Started(t, g) <==> Started(s, g);
  }

  lemma StepKeepsInv(s: State, a: Action)
    requires Inv(s) && Enabled(s, a)
    ensures Inv(Next(s, a))
  {
    match a
    case Start(h) => InsertKeepsInv(s, h);
    case Stop(h) => StopKeepsInv(s, h);
    case Register(h) => RegisterKeepsInv(s, h);
    case Unregister(h) => UnregisterKeepsInv(s, h);
    case _ =>
      var t := Next(s, a);
      assert forall g :: Started(t, g) <==> Started(s, g);
  }

  /** A handler goes on past its check exactly when its id is not registered then, and past its
      registration exactly when there is no limit, there is room, or its id is registered then. */
  lemma HandlerAdmittedExactly(s: State, h: Handler)
    ensures Enabled(s, Check(h)) ==>
              && (At(Next(s, Check(h)), h, Checked) <==> s.id[h] !in s.inner.m)
              && (At(Next(s, Check(h)), h, Rejected) <==> s.id[h] in s.inner.m)
    ensures Enabled(s, Register(h)) ==>
              var t := Next(s, Register(h));
              && (At(t, h, Registered) <==>
                s.inner.maxSize == 0 || |s.inner.m| < s.inner.maxSize || s.id[h] in s.inner.m)
              && (At(t, h, Registered) ==> s.id[h] in t.inner.m && t.inner.m[s.id[h]] == h)
              && (!At(t, h, Registered) ==> At(t, h, Rejected) && t.inner == s.inner)
  {
    if Enabled(s, Register(h)) {
      AdmittedExactly(s.inner, s.id[h], h);
    }
  }

  lemma {:induction false} RunKeepsInv(s: State, actions: seq<Action>)
    requires Inv(s) && IsRun(s, actions)
    ensures Inv(After(s, actions))
    decreases |actions|
  {
    if actions == [] {
    } else {
      StepKeepsInv(s, actions[0]);
      RunKeepsInv(Next(s, actions[0]), actions[1..]);
    }
  }

  lemma {:induction false} SizeIsFixed(s: State, actions: seq<Action>)
    requires IsRun(s, actions)
    ensures After(s, actions).inner.maxSize == s.inner.maxSize
    decreases |actions|
  {
    if actions == [] {
    } else {
      SizeIsFixed(Next(s, actions[0]), actions[1..]);
    }
  }

  /** Under every interleaving: no stop channel is closed twice, and every started one is
      the current entry of its id or closed; entries of both maps belong to handlers that
      have yet to take them away; the inner hub respects its limit. */
  lemma HubIsSafe(maxSize: nat, actions: seq<Action>)
    requires IsRun(Initial(maxSize), actions)
    ensures var s := After(Initial(maxSize), actions);
            && NoDuplicates(s.tails.closed)
            && (forall h :: Started(s, h) ==> (IsEntry(s, h) <==> h !in s.tails.closed))
            && (forall id :: id in s.tails.m ==> At(s, s.tails.m[id], Running))
            && (forall id :: id in s.inner.m ==>
              At(s, s.inner.m[id], Registered) || At(s, s.inner.m[id], Running) || At(s, s.inner.m[id], Stopping))
            && (maxSize > 0 ==> |s.inner.m| <= maxSize)
  {
    RunKeepsInv(Initial(maxSize), actions);
    SizeIsFixed(Initial(maxSize), actions);
  }

  lemma NobodyHolds(s: State, id: Id)
    requires Inv(s) && forall h :: h in s.pc ==> s.pc[h] == Finished || s.pc[h] == Rejected
    ensures id !in s.tails.m && id !in s.inner.m
  {
  }

  lemma NothingLeft(s: State)
    requires Inv(s) && forall h :: h in s.pc ==> s.pc[h] == Finished || s.pc[h] == Rejected
    ensures s.tails.m == map[] && s.inner.m == map[] && forall h :: Started(s, h) ==> h in s.tails.closed
  {
    forall id
      ensures id !in s.tails.m && id !in s.inner.m
    {
      NobodyHolds(s, id);
    }
  }

  /** Once every handler is done, both maps are empty and every started tail is stopped. */
  lemma NothingLeaks(maxSize: nat, actions: seq<Action>)
    requires IsRun(Initial(maxSize), actions)
    ensures var s := After(Initial(maxSize), actions);
            (forall h :: h in s.pc ==> s.pc[h] == Finished || s.pc[h] == Rejected) ==>
              s.tails.m == map[] && s.inner.m == map[] && forall h :: Started(s, h) ==> h in s.tails.closed
  {
    RunKeepsInv(Initial(maxSize), actions);
    var s := After(Initial(maxSize), actions);
    if forall h :: h in s.pc ==> s.pc[h] == Finished || s.pc[h] == Rejected {
      NothingLeft(s);
    }
  }

  // ----- Two handlers under one id

  /** The action enters a critical section of the tails map under this id. */
  predicate Disturbs(s: State, a: Action, id: Id) {
    (a.Start? || a.Stop?) && a.h in s.id && s.id[a.h] == id
  }

  predicate Undisturbed(s: State, actions: seq<Action>, id: Id)
    requires IsRun(s, actions)
    decreases |actions|
  {
    actions == [] || (!Disturbs(s, actions[0], id) && Undisturbed(Next(s, actions[0]), actions[1..], id))
  }

  lemma {:induction false} ClosedStaysClosed(s: State, actions: seq<Action>, h: Handler)
    requires IsRun(s, actions) && h in s.tails.closed
    ensures h in After(s, actions).tails.closed
    decreases |actions|
  {
    if actions == [] {
    } else {
      ClosedStaysClosed(Next(s, actions[0]), actions[1..], h);
    }
  }

  /** A handler that has just become its id's entry keeps a live tail exactly as long as
      nobody, itself included, starts or stops a tail under the same id. */
  lemma {:induction false} TailIsLiveExactlyWhenUndisturbed(s: State, actions: seq<Action>, h: Handler)
    requires Inv(s) && IsEntry(s, h) && IsRun(s, actions)
    ensures h !in After(s, actions).tails.closed <==> Undisturbed(s, actions, s.id[h])
    decreases |actions|
  {
    if actions == [] {
    } else {
      var t := Next(s, actions[0]);
      StepKeepsInv(s, actions[0]);
      if Disturbs(s, actions[0], s.id[h]) {
        assert t.tails.closed == s.tails.closed + [h];
        ClosedStaysClosed(t, actions[1..], h);
      } else {
        assert IsEntry(t, h) && t.id[h] == s.id[h];
        TailIsLiveExactlyWhenUndisturbed(t, actions[1..], h);
      }
    }
  }

  // ----- The registration

  /** The handler is the one its id is registered to. */
  predicate IsRegisteredAs(s: State, h: Handler) {
    h in s.id && s.id[h] in s.inner.m && s.inner.m[s.id[h]] == h
  }

  /** The action writes the inner map under this id. */
  predicate Reregisters(s: State, a: Action, id: Id) {
    (a.Register? || a.Unregister?) && a.h in s.id && s.id[a.h] == id
  }

  predicate RegistrationUndisturbed(s: State, actions: seq<Action>, id: Id)
    requires IsRun(s, actions)
    decreases |actions|
  {
    actions == [] || (!Reregisters(s, actions[0], id) && RegistrationUndisturbed(Next(s, actions[0]), actions[1..], id))
  }

  predicate PastRegister(s: State, h: Handler) {
    At(s, h, Registered) || At(s, h, Running) || At(s, h, Stopping) || At(s, h, Finished)
  }

  /** A handler that has registered and is not the id's registered one never is again. */
  lemma LostStep(s: State, a: Action, h: Handler)
    requires Inv(s) && Enabled(s, a) && PastRegister(s, h) && !IsRegisteredAs(s, h)
    ensures PastRegister(Next(s, a), h) && !IsRegisteredAs(Next(s, a), h)
  {
  }

  lemma {:induction false} LostStaysLost(s: State, actions: seq<Action>, h: Handler)
    requires Inv(s) && IsRun(s, actions) && PastRegister(s, h) && !IsRegisteredAs(s, h)
    ensures !IsRegisteredAs(After(s, actions), h)
    decreases |actions|
  {
    if actions == [] {
    } else {
      StepKeepsInv(s, actions[0]);
      LostStep(s, actions[0], h);
      LostStaysLost(Next(s, actions[0]), actions[1..], h);
    }
  }

  /** A handler that its id is registered to stays so exactly as long as nobody, itself
      included, registers or unregisters under the same id. */
  lemma {:induction false} RegistrationIsKeptExactlyWhenUndisturbed(s: State, actions: seq<Action>, h: Handler)
    requires Inv(s) && IsRegisteredAs(s, h) && IsRun(s, actions)
    ensures IsRegisteredAs(After(s, actions), h) <==> RegistrationUndisturbed(s, actions, s.id[h])
    decreases |actions|
  {
    if actions == [] {
    } else {
      var t := Next(s, actions[0]);
      StepKeepsInv(s, actions[0]);
      if Reregisters(s, actions[0], s.id[h]) {
        assert PastRegister(t, h) && !IsRegisteredAs(t, h);
        LostStaysLost(t, actions[1..], h);
      } else {
        assert IsRegisteredAs(t, h) && t.id[h] == s.id[h];
        RegistrationIsKeptExactlyWhenUndisturbed(t, actions[1..], h);
      }
    }
  }

  // ----- One handler of an id at a time

  predicate PastCheck(s: State, h: Handler) {
    At(s, h, Checked) || At(s, h, Registered) || At(s, h, Running) || At(s, h, Stopping)
  }

  /** No two handlers of one id are past the check at once. */
  ghost predicate Exclusive(s: State) {
    forall g, h :: PastCheck(s, g) && PastCheck(s, h) && s.id[g] == s.id[h] ==> g == h
  }

  /** Having registered and not yet unregistered it is registered, and running it has its tail. */
  predicate Held(s: State, h: Handler) {
    && (At(s, h, Registered) || At(s, h, Running) || At(s, h, Stopping) ==> IsRegisteredAs(s, h))
    && (At(s, h, Running) ==> IsEntry(s, h))
  }

  ghost predicate AllHeld(s: State) {
    forall h :: Held(s, h)
  }

  lemma HeldStep(s: State, a: Action, h: Handler)
    requires Enabled(s, a) && Held(s, h) && PastRegister(s, h) && h != a.h
    requires PastCheck(s, a.h) && PastCheck(s, h) ==> s.id[h] != s.id[a.h]
    ensures Held(Next(s, a), h)
  {
  }

  lemma OwnStep(s: State, a: Action)
    requires Enabled(s, a) && Held(s, a.h)
    ensures Held(Next(s, a), a.h)
  {
  }

  lemma ExclusiveStep(s: State, a: Action)
    requires Exclusive(s) && AllHeld(s) && Enabled(s, a)
    ensures AllHeld(Next(s, a))
  {
    forall h
      ensures Held(Next(s, a), h)
    {
      assert Held(s, h);
      if h == a.h {
        OwnStep(s, a);
      } else if PastRegister(s, h) {
        HeldStep(s, a, h);
      }
    }
  }

  /** The run never has two handlers of one id past the check. */
  ghost predicate RunExclusive(s: State, actions: seq<Action>)
    requires IsRun(s, actions)
    decreases |actions|
  {
    Exclusive(s) && (actions != [] ==> RunExclusive(Next(s, actions[0]), actions[1..]))
  }

  lemma {:induction false} ExclusiveRun(s: State, actions: seq<Action>)
    requires Inv(s) && AllHeld(s) && IsRun(s, actions) && RunExclusive(s, actions)
    ensures Inv(After(s, actions)) && AllHeld(After(s, actions)) && Exclusive(After(s, actions))
    decreases |actions|
  {
    if actions == [] {
    } else {
      ExclusiveStep(s, actions[0]);
      StepKeepsInv(s, actions[0]);
      ExclusiveRun(Next(s, actions[0]), actions[1..]);
    }
  }

  lemma OtherStepsKeepExclusion(s: State, a: Action)
    requires Exclusive(s) && Enabled(s, a) && (a.Check? ==> s.id[a.h] in s.inner.m)
    ensures Exclusive(Next(s, a))
  {
    var t := Next(s, a);
    forall g, h | PastCheck(t, g) && PastCheck(t, h) && t.id[g] == t.id[h]
      ensures g == h
    {
      assert PastCheck(s, g) && PastCheck(s, h);
    }
  }

  lemma PassedCheck(s: State, h: Handler, g: Handler)
    requires Enabled(s, Check(h)) && s.id[h] !in s.inner.m
    ensures PastCheck(Next(s, Check(h)), g) <==> g == h || PastCheck(s, g)
    ensures Held(s, g) && PastCheck(s, g) && s.id[g] == s.id[h] ==> At(s, g, Checked)
  {
  }

  /** A check that passes while another handler of the id is between its own check and its
      registration. */
  ghost predicate ChecksInWindow(s: State, a: Action)
    requires Enabled(s, a)
  {
    a.Check? && s.id[a.h] !in s.inner.m && exists g :: g != a.h && At(s, g, Checked) && s.id[g] == s.id[a.h]
  }

  /** And that is the one step that ends it. */
  lemma OnlyTheCheckWindowBreaksExclusion(s: State, a: Action)
    requires Exclusive(s) && AllHeld(s) && Enabled(s, a)
    ensures Exclusive(Next(s, a)) <==> !ChecksInWindow(s, a)
  {
    if a.Check? && s.id[a.h] !in s.inner.m {
      forall g
        ensures PastCheck(Next(s, a), g) <==> g == a.h || PastCheck(s, g)
        ensures PastCheck(s, g) && s.id[g] == s.id[a.h] ==> At(s, g, Checked)
      {
        assert Held(s, g);
        PassedCheck(s, a.h, g);
      }
    } else {
      OtherStepsKeepExclusion(s, a);
    }
  }

  ghost predicate NoneInWindow(s: State, actions: seq<Action>)
    requires IsRun(s, actions)
    decreases |actions|
  {
    actions != [] ==> !ChecksInWindow(s, actions[0]) && NoneInWindow(Next(s, actions[0]), actions[1..])
  }

  /** So over whole runs the condition can be read off each check before it is made. */
  lemma {:induction false} ExclusiveExactlyOutsideTheWindow(s: State, actions: seq<Action>)
    requires Exclusive(s) && AllHeld(s) && IsRun(s, actions)
    ensures RunExclusive(s, actions) <==> NoneInWindow(s, actions)
    decreases |actions|
  {
    if actions == [] {
    } else {
      OnlyTheCheckWindowBreaksExclusion(s, actions[0]);
      ExclusiveStep(s, actions[0]);
      if Exclusive(Next(s, actions[0])) {
        ExclusiveExactlyOutsideTheWindow(Next(s, actions[0]), actions[1..]);
      }
    }
  }

  /** When no check is made in that window, every running handler is registered and has a
      live tail. */
  lemma CarefulHandlersKeepBoth(maxSize: nat, actions: seq<Action>, h: Handler)
    requires IsRun(Initial(maxSize), actions) && NoneInWindow(Initial(maxSize), actions)
    requires At(After(Initial(maxSize), actions), h, Running)
    ensures var s := After(Initial(maxSize), actions);
            IsRegisteredAs(s, h) && IsEntry(s, h) && h !in s.tails.closed
  {
    ExclusiveExactlyOutsideTheWindow(Initial(maxSize), actions);
    ExclusiveRun(Initial(maxSize), actions);
    assert Held(After(Initial(maxSize), actions), h);
  }

  lemma {:induction false} RunSnoc(s: State, actions: seq<Action>, a: Action)
    requires IsRun(s, actions) && Enabled(After(s, actions), a)
    ensures IsRun(s, actions + [a]) && After(s, actions + [a]) == Next(After(s, actions), a)
    decreases |actions|
  {
    if actions == [] {
      assert [] + [a] == [a] && [a][1..] == [];
    } else {
      assert (actions + [a])[1..] == actions[1..] + [a];
      RunSnoc(Next(s, actions[0]), actions[1..], a);
    }
  }

  /** Two handlers under one id that both pass the check before either registers. */
  lemma BothCheck(id: Id) returns (actions: seq<Action>)
    ensures IsRun(Initial(0), actions)
    ensures After(Initial(0), actions) ==
              State(Inner(0, map[]), Tails(map[], []), map[0 := Checked, 1 := Checked], map[0 := id, 1 := id])
  {
    actions := [];
    RunSnoc(Initial(0), actions, Arrive(0, id));
    actions := actions + [Arrive(0, id)];
    RunSnoc(Initial(0), actions, Arrive(1, id));
    actions := actions + [Arrive(1, id)];
    RunSnoc(Initial(0), actions, Check(0));
    actions := actions + [Check(0)];
    RunSnoc(Initial(0), actions, Check(1));
    actions := actions + [Check(1)];
  }

  lemma BothStart(id: Id) returns (actions: seq<Action>)
    ensures IsRun(Initial(0), actions)
    ensures After(Initial(0), actions) ==
              State(Inner(0, map[id := 1]), Tails(map[id := 1], [0]), map[0 := Running, 1 := Running],
                map[0 := id, 1 := id])
  {
    actions := BothCheck(id);
    RunSnoc(Initial(0), actions, Register(0));
    actions := actions + [Register(0)];
    RunSnoc(Initial(0), actions, Register(1));
    actions := actions + [Register(1)];
    RunSnoc(Initial(0), actions, Start(0));
    actions := actions + [Start(0)];
    RunSnoc(Initial(0), actions, Start(1));
    actions := actions + [Start(1)];
  }

  /** When the first of the two leaves, the second is still running, with its tail stopped
      and its registration gone. */
  lemma SameIdRaceSilencesSecond(id: Id) returns (actions: seq<Action>)
    ensures IsRun(Initial(0), actions)
    ensures var s := After(Initial(0), actions); At(s, 1, Running) && 1 in s.tails.closed && id !in s.inner.m
  {
    actions := BothStart(id);
    RunSnoc(Initial(0), actions, Stop(0));
    actions := actions + [Stop(0)];
    RunSnoc(Initial(0), actions, Unregister(0));
    actions := actions + [Unregister(0)];
  }
}
