/** One RDAP service: an answer cache behind a hand-written FIFO mutex, with the lookup
    method cut at its two awaits into three atomic segments. */
module RdapCache {
  import opened Sequences
  import opened Text
  import opened IpAddr
  import opened IpRange
  import opened StableSort

  type Id = nat

  // ----- The mutex

  datatype Lock = Lock(queue: seq<Id>, locked: bool)

  /** The lock after `lock()` by id, and whether the promise resolves at once. */
  function Acquire(m: Lock, id: Id): (Lock, bool) {
    if m.locked then (m.(queue := m.queue + [id]), false) else (m.(locked := true), true)
  }

  /** The lock after `unlock()`, and whose promise resolves. */
  function Release(m: Lock): (Lock, Option<Id>) {
    if m.queue != [] then (m.(queue := m.queue[1..]), Some(m.queue[0])) else (m.(locked := false), None)
  }

  class Mutex {
    var queue: seq<Id>
    var locked: bool

    constructor ()
      ensures State() == Lock([], false)
    {
      queue, locked := [], false;
    }

    function State(): Lock
      reads this
    {
      Lock(queue, locked)
    }

    method LockFor(id: Id) returns (resolved: bool)
      modifies this
      ensures (State(), resolved) == Acquire(old(State()), id)
    {
      if locked {
        queue := queue + [id];
        resolved := false;
      } else {
        locked := true;
        resolved := true;
      }
    }

    method Unlock() returns (next: Option<Id>)
      modifies this
      ensures (State(), next) == Release(old(State()))
    {
      if queue != [] {
        next := Some(queue[0]);
        queue := queue[1..];
      } else {
        next := None;
        locked := false;
      }
    }
  }

  // ----- The cache

  /** An RDAP answer: an absent field is the empty string. */
  datatype Data = Data(startAddress: string, endAddress: string, body: nat)

  datatype Cached = Cached(data: Data, range: Range)

  /** The range an answer is cached under, if its two bounds are present, parse and are ordered. */
  function CacheRange(d: Data): Option<Range> {
    if d.startAddress == "" || d.endAddress == "" then None
    else if AddressOf(d.startAddress).None? || AddressOf(d.endAddress).None? then None
    else RangeOfBounds(AddressOf(d.startAddress).value, AddressOf(d.endAddress).value)
  }

  function AddCache(cache: seq<Cached>, d: Data): seq<Cached> {
    if CacheRange(d).None? then cache else cache + [Cached(d, CacheRange(d).value)]
  }

  function GetCached(cache: seq<Cached>, q: Query): Option<Data> {
    match Find(cache, (c: Cached) => Contains(c.range, q))
    case None => None
    case Some(c) => Some(c.data)
  }

  predicate Covers(cache: seq<Cached>, q: Query) {
    exists i :: 0 <= i < |cache| && Contains(cache[i].range, q)
  }

  /** An answer is added exactly when both its bounds are present, parse and are ordered, and
      then under the range from the one to the other. */
  lemma AddCacheMeaning(cache: seq<Cached>, d: Data, lo: Address, hi: Address)
    ensures d.startAddress == "" || d.endAddress == "" ==> AddCache(cache, d) == cache
    ensures AddressOf(d.startAddress) == Some(lo) && AddressOf(d.endAddress) == Some(hi) ==>
              AddCache(cache, d) == if lo <= hi then cache + [Cached(d, Range(lo, hi))] else cache
    ensures AddressOf(d.startAddress).None? || AddressOf(d.endAddress).None? ==> AddCache(cache, d) == cache
  {
    assert Split("", '.') == [""] && Split("", ':') == [""];
  }

  /** The answer found is that of the first cached range that contains the query. */
  lemma GetCachedMeaning(cache: seq<Cached>, q: Query)
    ensures GetCached(cache, q).Some? <==> Covers(cache, q)
    ensures GetCached(cache, q).Some? ==>
              exists i :: && 0 <= i < |cache| && Contains(cache[i].range, q)
                          && cache[i].data == GetCached(cache, q).value
                          && forall j :: 0 <= j < i ==> !Contains(cache[j].range, q)
  {
    var p := (c: Cached) => Contains(c.range, q);
    var i := FindMeaning(cache, p);
    if GetCached(cache, q).Some? {
      forall j | 0 <= j < i
        ensures !Contains(cache[j].range, q)
      {
        assert !p(cache[j]);
      }
    }
  }

  // ----- The three segments of a lookup

  datatype Core = Core(cache: seq<Cached>, mutex: Lock)

  /** How a segment leaves the lookup: answered from the cache, waiting for the lock,
      holding the lock with its continuation scheduled, or waiting for the network. */
  datatype Next = Hit(data: Data) | Blocked | Scheduled | Fetch

  function BeginSegment(c: Core, id: Id, q: Query): (Core, Next) {
    match GetCached(c.cache, q)
    case Some(d) => (c, Hit(d))
    case None =>
      var (m, resolved) := Acquire(c.mutex, id);
      (c.(mutex := m), if resolved then Scheduled else Blocked)
  }

  function ResumeSegment(c: Core, q: Query): (Core, Next, Option<Id>) {
    match GetCached(c.cache, q)
    case Some(d) =>
      var (m, woken) := Release(c.mutex);
      (c.(mutex := m), Hit(d), woken)
    case None => (c, Fetch, None)
  }

  /** The fetch ends, with an answer or by throwing; `finally` unlocks either way. */
  function FinishSegment(c: Core, result: Option<Data>): (Core, Option<Id>) {
    var cache := if result.Some? then AddCache(c.cache, result.value) else c.cache;
    var (m, woken) := Release(c.mutex);
    (Core(cache, m), woken)
  }

  class IPService {
    var cache: seq<Cached>
    const mu: Mutex

    constructor ()
      ensures State() == Core([], Lock([], false)) && fresh(mu)
    {
      cache := [];
      mu := new Mutex();
    }

    function State(): Core
      reads this, mu
    {
      Core(cache, mu.State())
    }

    method Begin(id: Id, q: Query) returns (next: Next)
      modifies mu
      ensures (State(), next) == BeginSegment(old(State()), id, q)
    {
      var data := GetCached(cache, q);
      if data.Some? {
        return Hit(data.value);
      }
      var resolved := mu.LockFor(id);
      next := if resolved then Scheduled else Blocked;
    }

    method Resume(q: Query) returns (next: Next, woken: Option<Id>)
      modifies mu
      ensures (State(), next, woken) == ResumeSegment(old(State()), q)
    {
      var data := GetCached(cache, q);
      if data.Some? {
        woken := mu.Unlock();
        next := Hit(data.value);
      } else {
        next, woken := Fetch, None;
      }
    }

    method Remember(data: Data)
      modifies this
      ensures cache == AddCache(old(cache), data)
    {
      var range := CacheRange(data);
      if range.Some? {
        cache := cache + [Cached(data, range.value)];
      }
    }

    method Finish(result: Option<Data>) returns (woken: Option<Id>)
      modifies this, mu
      ensures (State(), woken) == FinishSegment(old(State()), result)
    {
      if result.Some? {
        Remember(result.value);
      }
      woken := mu.Unlock();
    }
  }

  // ----- All interleavings of lookups

  datatype Phase = Waiting | Granted | Fetching | Done(answer: Option<Data>, fromCache: bool)

  /** arrived lists the lookups that called `lock()`, granted those whose promise resolved, in order. */
  datatype State = State(core: Core, phase: map<Id, Phase>, query: map<Id, Query>, arrived: seq<Id>, granted: seq<Id>)

  datatype Action = Begin(id: Id, q: Query) | Resume(id: Id) | Finish(id: Id, result: Option<Data>)

  const INIT := State(Core([], Lock([], false)), map[], map[], [], [])

  predicate Enabled(s: State, a: Action) {
    match a
    case Begin(id, _) => id !in s.phase
    case Resume(id) => id in s.phase && id in s.query && s.phase[id] == Granted
    case Finish(id, _) => id in s.phase && s.phase[id] == Fetching
  }

  /** A resolved promise makes its lookup runnable. */
  function Wake(s: State, woken: Option<Id>): State {
    match woken
    case None => s
    case Some(w) => s.(phase := s.phase[w := Granted], granted := s.granted + [w])
  }

  function Step(s: State, a: Action): State
    requires Enabled(s, a)
  {
    match a
    case Begin(id, q) =>
      var (core, next) := BeginSegment(s.core, id, q);
      var t := s.(core := core, query := s.query[id := q]);
      (match next
       case Hit(d) => t.(phase := s.phase[id := Done(Some(d), true)])
       case Blocked => t.(phase := s.phase[id := Waiting], arrived := s.arrived + [id])
       case _ => t.(phase := s.phase[id := Granted], arrived := s.arrived + [id], granted := s.granted + [id]))
    case Resume(id) =>
      var (core, next, woken) := ResumeSegment(s.core, s.query[id]);
      if next.Hit? then Wake(s.(core := core, phase := s.phase[id := Done(Some(next.data), true)]), woken)
      else s.(phase := s.phase[id := Fetching])
    case Finish(id, result) =>
      var (core, woken) := FinishSegment(s.core, result);
      Wake(s.(core := core, phase := s.phase[id := Done(result, false)]), woken)
  }

  function Exec(s: State, actions: seq<Action>): Option<State>
    decreases |actions|
  {
    if actions == [] then Some(s)
    else if Enabled(s, actions[0]) then Exec(Step(s, actions[0]), actions[1..])
    else None
  }

  predicate IsHolder(s: State, id: Id) {
    id in s.phase && (s.phase[id] == Granted || s.phase[id] == Fetching)
  }

  /** While locked, the latest grantee is the one holder; when unlocked there is none. */
  ghost predicate MutexInv(s: State) {
    var m := s.core.mutex;
    && (if m.locked then s.granted != [] && IsHolder(s, s.granted[|s.granted| - 1]) else m.queue == [])
    && (forall i :: IsHolder(s, i) ==> m.locked && i == s.granted[|s.granted| - 1])
    && (forall i :: i in m.queue <==> i in s.phase && s.phase[i] == Waiting)
    && NoDuplicates(m.queue)
    && s.arrived == s.granted + m.queue
  }

  /** Every entry is cached under the range from its data's one bound to the other. */
  ghost predicate Honest(cache: seq<Cached>) {
    forall i :: 0 <= i < |cache| ==>
      && AddressOf(cache[i].data.startAddress) == Some(cache[i].range.start)
      && AddressOf(cache[i].data.endAddress) == Some(cache[i].range.end)
      && cache[i].range.start <= cache[i].range.end
  }

  predicate AsksFor(q: Query, a: Address) {
    match q
    case Single(b) => a == b
    case Span(r) => r.start <= a <= r.end
  }

  /** Both bounds of the answer parse, and every address of the query lies between them. */
  ghost predicate ServedFor(answer: Option<Data>, q: Query) {
    && answer.Some? && AddressOf(answer.value.startAddress).Some? && AddressOf(answer.value.endAddress).Some?
    && forall a: Address :: AsksFor(q, a) ==>
      AddressOf(answer.value.startAddress).value <= a <= AddressOf(answer.value.endAddress).value
  }

  /** Cached entries carry the range their own bounds denote, and every answer served
      from the cache comes from an entry whose range contains the query. */
  ghost predicate CacheInv(s: State) {
    && Honest(s.core.cache)
    && (forall id :: id in s.phase ==> id in s.query)
    && (forall id :: id in s.phase && s.phase[id].Done? && s.phase[id].fromCache ==>
      ServedFor(s.phase[id].answer, s.query[id]))
  }

  ghost predicate Inv(s: State) {
    MutexInv(s) && CacheInv(s)
  }

  /** A lookup is answered from the cache exactly when a cached range contains its query, at its
      start or once it has the lock; otherwise it asks for the lock, or fetches. */
  lemma AnsweredExactlyWhenCovered(s: State, a: Action, q: Query)
    requires Inv(s) && Enabled(s, a) && !a.Finish? && q == (if a.Begin? then a.q else s.query[a.id])
    ensures var phase := Step(s, a).phase;
            && a.id in phase
            && (Covers(s.core.cache, q) <==> phase[a.id].Done? && phase[a.id].fromCache)
            && (!Covers(s.core.cache, q) ==>
              phase[a.id] == (if a.Resume? then Fetching else if s.core.mutex.locked then Waiting else Granted))
  {
    GetCachedMeaning(s.core.cache, q);
    assert s.core.mutex.queue != [] ==> s.core.mutex.queue[0] in s.core.mutex.queue;
  }

  lemma BeginKeepsMutex(s: State, id: Id, q: Query)
    requires MutexInv(s) && Enabled(s, Begin(id, q))
    ensures MutexInv(Step(s, Begin(id, q)))
  {
    var t := Step(s, Begin(id, q));
    assert forall i :: i != id ==> (IsHolder(t, i) <==> IsHolder(s, i));
    assert !IsHolder(s, id) && id !in s.core.mutex.queue;
  }

  /** t is s with the lock handed from id, which is done, to the longest waiter w. */
  predicate HandedOver(s: State, id: Id, answer: Phase, t: State, w: Id) {
    && s.core.mutex.queue != [] && w == s.core.mutex.queue[0]
    && t.core.mutex == s.core.mutex.(queue := s.core.mutex.queue[1..])
    && t.phase == s.phase[id := answer][w := Granted]
    && t.granted == s.granted + [w] && t.arrived == s.arrived
  }

  /** No identifier but the first is first. */
  lemma HeadIsGone(queue: seq<Id>, i: Id)
    requires queue != [] && NoDuplicates(queue)
    ensures i in queue[1..] <==> i in queue && i != queue[0]
    ensures NoDuplicates(queue[1..]) && queue == [queue[0]] + queue[1..]
  {
    if i in queue[1..] {
      var k :| 0 <= k < |queue| - 1 && queue[1..][k] == i;
      assert queue[k + 1] == i;
    }
  }

  lemma HandOverHolder(s: State, id: Id, answer: Phase, t: State, w: Id, i: Id)
    requires MutexInv(s) && IsHolder(s, id) && answer.Done? && HandedOver(s, id, answer, t, w)
    ensures IsHolder(t, i) <==> i == w
    ensures i in t.core.mutex.queue <==> i in t.phase && t.phase[i] == Waiting
  {
    assert w in s.core.mutex.queue && s.phase[w] == Waiting;
    assert IsHolder(s, i) ==> i == id;
    assert i in s.core.mutex.queue <==> i in s.phase && s.phase[i] == Waiting;
    HeadIsGone(s.core.mutex.queue, i);
  }

  /** Releasing with somebody waiting. */
  lemma HandOver(s: State, id: Id, answer: Phase, t: State, w: Id)
    requires MutexInv(s) && IsHolder(s, id) && answer.Done? && HandedOver(s, id, answer, t, w)
    ensures MutexInv(t)
  {
    HeadIsGone(s.core.mutex.queue, w);
    forall i
      ensures IsHolder(t, i) <==> i == w
      ensures i in t.core.mutex.queue <==> i in t.phase && t.phase[i] == Waiting
    {
      HandOverHolder(s, id, answer, t, w, i);
    }
    assert s.granted + s.core.mutex.queue == s.granted + [w] + s.core.mutex.queue[1..];
    assert t.core.mutex.locked && t.granted[|t.granted| - 1] == w;
  }

  /** Releasing with nobody waiting. */
  lemma FreeLock(s: State, id: Id, answer: Phase, t: State)
    requires MutexInv(s) && IsHolder(s, id) && answer.Done? && s.core.mutex.queue == []
    requires t.core.mutex == Lock([], false) && t.phase == s.phase[id := answer]
    requires t.granted == s.granted && t.arrived == s.arrived
    ensures MutexInv(t)
  {
    assert !IsHolder(t, id);
    assert forall i :: i != id ==> (IsHolder(t, i) <==> IsHolder(s, i));
  }

  /** Releasing: the holder is done and the head of the queue, if any, takes over. */
  lemma ReleaseKeepsMutex(s: State, id: Id, answer: Phase, t: State)
    requires MutexInv(s) && IsHolder(s, id) && answer.Done?
    requires var (m, woken) := Release(s.core.mutex);
             && t.core.mutex == m
             && t.phase == (if woken.Some? then s.phase[id := answer][woken.value := Granted]
                            else s.phase[id := answer])
             && t.granted == (if woken.Some? then s.granted + [woken.value] else s.granted)
             && t.arrived == s.arrived
    ensures MutexInv(t)
  {
    var queue := s.core.mutex.queue;
    if queue != [] {
      HandOver(s, id, answer, t, queue[0]);
    } else {
      FreeLock(s, id, answer, t);
    }
  }

  lemma StepKeepsMutex(s: State, a: Action)
    requires MutexInv(s) && Enabled(s, a)
    ensures MutexInv(Step(s, a))
  {
    var t := Step(s, a);
    match a
    case Begin(id, q) => BeginKeepsMutex(s, id, q);
    case Resume(id) =>
      assert IsHolder(s, id);
      if t.phase[id] == Fetching {
        assert forall i :: IsHolder(t, i) <==> IsHolder(s, i);
      } else {
        ReleaseKeepsMutex(s, id, Done(GetCached(s.core.cache, s.query[id]), true), t);
      }
    case Finish(id, result) =>
      assert IsHolder(s, id);
      ReleaseKeepsMutex(s, id, Done(result, false), t);
  }

  lemma CacheGrows(s: State, a: Action)
    requires Enabled(s, a)
    ensures s.core.cache <= Step(s, a).core.cache
  {
  }

  lemma HonestAdd(cache: seq<Cached>, d: Data)
    requires Honest(cache)
    ensures Honest(AddCache(cache, d))
  {
  }

  lemma HonestStep(s: State, a: Action)
    requires Honest(s.core.cache) && Enabled(s, a)
    ensures Honest(Step(s, a).core.cache)
  {
    match a
    case Finish(id, result) =>
      if result.Some? {
        HonestAdd(s.core.cache, result.value);
      }
    case Begin(id, q) =>
      assert Step(s, a).core.cache == s.core.cache;
    case Resume(id) =>
      assert Step(s, a).core.cache == s.core.cache;
  }

  lemma HitIsServed(cache: seq<Cached>, q: Query)
    requires Honest(cache) && GetCached(cache, q).Some?
    ensures ServedFor(GetCached(cache, q), q)
  {
    GetCachedMeaning(cache, q);
  }

  /** How a step leaves the lookup it belongs to. */
  lemma OwnAnswer(s: State, a: Action)
    requires CacheInv(s) && Enabled(s, a)
    ensures var t := Step(s, a);
            a.id in t.phase && t.phase[a.id].Done? && t.phase[a.id].fromCache ==>
              a.id in t.query && ServedFor(t.phase[a.id].answer, t.query[a.id])
  {
    if !a.Finish? {
      var q := if a.Begin? then a.q else s.query[a.id];
      if GetCached(s.core.cache, q).Some? {
        HitIsServed(s.core.cache, q);
      }
    }
  }

  /** And how it leaves another one: as it was, or granted. */
  lemma OtherAnswer(s: State, a: Action, id: Id)
    requires CacheInv(s) && Enabled(s, a) && id != a.id && id in Step(s, a).phase
    requires forall i :: i in s.core.mutex.queue ==> i in s.phase
    ensures id in s.phase && id in Step(s, a).query && Step(s, a).query[id] == s.query[id]
    ensures Step(s, a).phase[id] == s.phase[id] || Step(s, a).phase[id] == Granted
  {
  }

  lemma StepKeepsCache(s: State, a: Action)
    requires CacheInv(s) && Enabled(s, a)
    requires forall i :: i in s.core.mutex.queue ==> i in s.phase && s.phase[i] == Waiting
    ensures CacheInv(Step(s, a))
  {
    HonestStep(s, a);
    OwnAnswer(s, a);
    var t := Step(s, a);
    forall id | id in t.phase
      ensures id in t.query && (t.phase[id].Done? && t.phase[id].fromCache ==>
                ServedFor(t.phase[id].answer, t.query[id]))
    {
      if id != a.id {
        OtherAnswer(s, a, id);
      }
    }
  }

  /** Every interleaving of any number of lookups: one holder at most, a non-empty queue
      implies the lock is held, grants follow arrival order, and cached answers cover their query. */
  lemma {:induction false} EveryRunIsSafe(s: State, actions: seq<Action>)
    requires Inv(s)
    ensures Exec(s, actions).Some? ==> Inv(Exec(s, actions).value)
    decreases |actions|
  {
    if actions != [] && Enabled(s, actions[0]) {
      StepKeepsMutex(s, actions[0]);
      StepKeepsCache(s, actions[0]);
      EveryRunIsSafe(Step(s, actions[0]), actions[1..]);
    } else {
    }
  }

  /** In every reachable state: at most one fetch is in flight, grants follow arrivals, whoever is
      unfinished has a holder to wait for, and whatever was answered from the cache was asked of
      addresses between the answer's own two bounds. */
  lemma ReachableIsSafe(actions: seq<Action>)
    requires Exec(INIT, actions).Some?
    ensures var s := Exec(INIT, actions).value;
            && Inv(s)
            && (forall i, j :: i in s.phase && j in s.phase && s.phase[i] == Fetching && s.phase[j] == Fetching ==>
              i == j)
            && s.granted <= s.arrived
            && ((exists i :: i in s.phase && !s.phase[i].Done?) ==> exists h :: IsHolder(s, h))
            && (forall i :: i in s.phase && s.phase[i].Done? && s.phase[i].fromCache ==>
              i in s.query && ServedFor(s.phase[i].answer, s.query[i]))
  {
    assert Inv(INIT);
    EveryRunIsSafe(INIT, actions);
    var s := Exec(INIT, actions).value;
    forall i, j | i in s.phase && j in s.phase && s.phase[i] == Fetching && s.phase[j] == Fetching
      ensures i == j
    {
      assert IsHolder(s, i) && IsHolder(s, j);
    }
    forall i | i in s.phase && !s.phase[i].Done?
      ensures exists h :: IsHolder(s, h)
    {
      if s.phase[i] != Waiting {
        assert IsHolder(s, i);
      }
    }
  }

  // ----- Where cached answers come from

  /** Some fetch of the run gave the data. */
  ghost predicate Fetched(actions: seq<Action>, d: Data) {
    exists i :: 0 <= i < |actions| && actions[i].Finish? && actions[i].result == Some(d)
  }

  /** Cached data, and answers served from the cache, are among the known ones. */
  ghost predicate Known(s: State, known: iset<Data>) {
    && (forall i :: 0 <= i < |s.core.cache| ==> s.core.cache[i].data in known)
    && (forall id :: id in s.phase && s.phase[id].Done? && s.phase[id].fromCache ==>
      s.phase[id].answer.Some? && s.phase[id].answer.value in known)
  }

  lemma KnownStep(s: State, a: Action, known: iset<Data>)
    requires Known(s, known) && Enabled(s, a)
    requires forall i :: i in s.core.mutex.queue ==> i in s.phase
    requires a.Finish? && a.result.Some? ==> a.result.value in known
    ensures Known(Step(s, a), known)
  {
    if !a.Finish? {
      GetCachedMeaning(s.core.cache, if a.Begin? then a.q else s.query[a.id]);
    }
  }

  lemma {:induction false} KnownRun(s: State, actions: seq<Action>, known: iset<Data>)
    requires Inv(s) && Known(s, known) && Exec(s, actions).Some?
    requires forall d :: Fetched(actions, d) ==> d in known
    ensures Known(Exec(s, actions).value, known)
    decreases |actions|
  {
    if actions == [] {
    } else {
      var a, rest := actions[0], actions[1..];
      if a.Finish? && a.result.Some? {
        assert Fetched(actions, a.result.value);
      }
      forall d | Fetched(rest, d)
        ensures d in known
      {
        var i :| 0 <= i < |rest| && rest[i].Finish? && rest[i].result == Some(d);
        assert actions[i + 1] == rest[i];
      }
      KnownStep(s, a, known);
      StepKeepsMutex(s, a);
      StepKeepsCache(s, a);
      KnownRun(Step(s, a), rest, known);
    }
  }

  /** Nothing is cached, and nothing is served from the cache, that no fetch of the run gave. */
  lemma CachedAnswersWereFetched(actions: seq<Action>)
    requires Exec(INIT, actions).Some?
    ensures var s := Exec(INIT, actions).value;
            && (forall i :: 0 <= i < |s.core.cache| ==> Fetched(actions, s.core.cache[i].data))
            && (forall id :: id in s.phase && s.phase[id].Done? && s.phase[id].fromCache ==>
              s.phase[id].answer.Some? && Fetched(actions, s.phase[id].answer.value))
  {
    assert Inv(INIT);
    KnownRun(INIT, actions, iset d | Fetched(actions, d));
  }

  // ----- Every lookup ends

  /** How many actions of its own a lookup can still take. */
  function ActionsLeft(s: State, id: Id): nat {
    if id !in s.phase then 3
    else
      match s.phase[id]
      case Waiting => 2
      case Granted => 2
      case Fetching => 1
      case Done(_, _) => 0
  }

  function OwnActions(actions: seq<Action>, id: Id): nat {
    if actions == [] then 0 else (if actions[0].id == id then 1 else 0) + OwnActions(actions[1..], id)
  }

  lemma ActionCounts(s: State, a: Action, id: Id)
    requires Inv(s) && Enabled(s, a)
    ensures ActionsLeft(Step(s, a), id) + (if a.id == id then 1 else 0) <= ActionsLeft(s, id)
  {
    assert s.core.mutex.queue != [] ==> s.core.mutex.queue[0] in s.core.mutex.queue;
  }

  lemma {:induction false} RunCounts(s: State, actions: seq<Action>, id: Id)
    requires Inv(s) && Exec(s, actions).Some?
    ensures OwnActions(actions, id) + ActionsLeft(Exec(s, actions).value, id) <= ActionsLeft(s, id)
    decreases |actions|
  {
    if actions == [] {
    } else {
      ActionCounts(s, actions[0], id);
      StepKeepsMutex(s, actions[0]);
      StepKeepsCache(s, actions[0]);
      RunCounts(Step(s, actions[0]), actions[1..], id);
    }
  }

  /** No lookup that has begun can go on. */
  ghost predicate Quiescent(s: State) {
    forall id :: !Enabled(s, Resume(id)) && !Enabled(s, Finish(id, None))
  }

  lemma QuietMeansDone(s: State, id: Id)
    requires Inv(s) && Quiescent(s) && id in s.phase
    ensures s.phase[id].Done?
  {
    var m := s.core.mutex;
    assert forall i :: IsHolder(s, i) ==> Enabled(s, Resume(i)) || Enabled(s, Finish(i, None));
    assert !m.locked && id !in m.queue;
    assert !IsHolder(s, id);
  }

  /** Under every interleaving each lookup takes at most three actions of its own, and when
      none can go on all are done: nobody is left waiting for a lock that never comes. */
  lemma EveryLookupEnds(actions: seq<Action>, id: Id)
    requires Exec(INIT, actions).Some?
    ensures var s := Exec(INIT, actions).value;
            && OwnActions(actions, id) <= 3
            && (Quiescent(s) && id in s.phase ==> s.phase[id].Done?)
  {
    assert Inv(INIT);
    EveryRunIsSafe(INIT, actions);
    RunCounts(INIT, actions, id);
    var s := Exec(INIT, actions).value;
    if Quiescent(s) && id in s.phase {
      QuietMeansDone(s, id);
    }
  }

  /** A lookup that has not started its fetch and whose query some cached range covers. */
  ghost predicate CoveredAndIdle(s: State, id: Id) {
    id in s.phase && id in s.query && s.phase[id] != Fetching && Covers(s.core.cache, s.query[id])
  }

  lemma CoverGrows(cache: seq<Cached>, more: seq<Cached>, q: Query)
    requires Covers(cache, q) && cache <= more
    ensures Covers(more, q)
  {
    var i :| 0 <= i < |cache| && Contains(cache[i].range, q);
    assert more[i] == cache[i];
  }

  lemma CoveredStep(s: State, a: Action, id: Id)
    requires CoveredAndIdle(s, id) && Enabled(s, a)
    ensures CoveredAndIdle(Step(s, a), id)
  {
    CacheGrows(s, a);
    CoverGrows(s.core.cache, Step(s, a).core.cache, s.query[id]);
    GetCachedMeaning(s.core.cache, s.query[id]);
  }

  /** Once covered, a waiting lookup never fetches, whatever else runs. */
  lemma {:induction false} CoveredNeverFetches(s: State, actions: seq<Action>, id: Id)
    requires Inv(s) && CoveredAndIdle(s, id)
    ensures Exec(s, actions).Some? ==> CoveredAndIdle(Exec(s, actions).value, id)
    decreases |actions|
  {
    if actions != [] && Enabled(s, actions[0]) {
      StepKeepsMutex(s, actions[0]);
      StepKeepsCache(s, actions[0]);
      CoveredStep(s, actions[0], id);
      CoveredNeverFetches(Step(s, actions[0]), actions[1..], id);
    } else {
    }
  }
}
