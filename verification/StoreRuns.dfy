/** Whole runs of the store: it behaves like a timed multimap that never forgets an entry
    before it expires, and its counters and dirty flag stay honest. */
module StoreRuns {
  import opened Bytes
  import opened Clock
  import opened TtlStore

  datatype Op =
    | Add(key: string, val: Bytes, ttl: Time)
    | Set(key: string, val: Bytes, ttl: Time)
    | Remove(key: string, val: Bytes)
    | Delete(key: string)
    | Prune
    | Write(done: bool)
    | Load(file: Contents)

  datatype Event = Event(op: Op, now: Time)

  ghost function Apply(s: Store, e: Event): Store {
    match e.op
    case Add(key, val, ttl) => DoAdd(s, key, val, ttl, e.now).0
    case Set(key, val, ttl) => DoSet(s, key, val, ttl, e.now).0
    case Remove(key, val) => DoRemove(s, key, val)
    case Delete(key) => DoDelete(s, key)
    case Prune => DoPrune(s, e.now)
    case Write(done) => if done then DoWrite(s) else s
    case Load(file) => DoLoad(s, file)
  }

  ghost function Run(s: Store, events: seq<Event>): Store
    decreases |events|
  {
    if events == [] then s else Run(Apply(s, events[0]), events[1..])
  }

  /** The clock never runs backwards. */
  predicate Ordered(events: seq<Event>, from: Time, until: Time) {
    if events == [] then from <= until else from <= events[0].now && Ordered(events[1..], events[0].now, until)
  }

  // ----- The timed multimap: a log of what happened to each key, pruning left out

  datatype Fact =
    | Appended(key: string, entry: Entry)
    | Replaced(key: string, entry: Entry)
    | Removed(key: string, val: Bytes)
    | Cleared(key: string)
    | Restored(file: Contents)

  /** What the caller was told: a failed Add changed nothing, a failed Set lost the key. */
  function FactOf(s: Store, e: Event): seq<Fact> {
    match e.op
    case Add(key, val, ttl) =>
      if DoAdd(s, key, val, ttl, e.now).1 then [Appended(key, Entry(Expiry(e.now, ttl), val))] else []
    case Set(key, val, ttl) =>
      if DoSet(s, key, val, ttl, e.now).1 then [Replaced(key, Entry(Expiry(e.now, ttl), val))] else [Cleared(key)]
    case Remove(key, val) => [Removed(key, val)]
    case Delete(key) => [Cleared(key)]
    case Prune => []
    case Write(_) => []
    case Load(file) => [Restored(file)]
  }

  ghost function Log(s: Store, events: seq<Event>): seq<Fact>
    decreases |events|
  {
    if events == [] then [] else FactOf(s, events[0]) + Log(Apply(s, events[0]), events[1..])
  }

  function Effect(f: Fact, key: string, es: seq<Entry>): seq<Entry> {
    match f
    case Appended(k, e) => if k == key then es + [e] else es
    case Replaced(k, e) => if k == key then [e] else es
    case Removed(k, val) => if k == key then Without(es, val) else es
    case Cleared(k) => if k == key then [] else es
    case Restored(file) => EntriesAt(file, key)
  }

  /** Every entry the log leaves under a key, expired or not. */
  function Logged(log: seq<Fact>, key: string, es: seq<Entry>): seq<Entry> {
    if log == [] then es else Logged(log[1..], key, Effect(log[0], key, es))
  }

  lemma {:induction false} LoggedAppend(a: seq<Fact>, b: seq<Fact>, key: string, es: seq<Entry>)
    ensures Logged(a + b, key, es) == Logged(b, key, Logged(a, key, es))
  {
    if a == [] {
      assert a + b == b;
    } else {
      assert (a + b)[1..] == a[1..] + b;
      LoggedAppend(a[1..], b, key, Effect(a[0], key, es));
    }
  }

  // ----- Refinement

  lemma PruneKeepsValues(m: Contents, key: string, now: Time, later: Time)
    requires now <= later
    ensures Live(EntriesAt(PruneContents(m, now), key), later) == Live(EntriesAt(m, key), later)
  {
    if key in m {
      LiveLater(m[key], now, later);
    }
  }

  /** The two lists agree from some moment on. */
  predicate Alike(m: Contents, key: string, es: seq<Entry>, later: Time) {
    Live(EntriesAt(m, key), later) == Live(es, later)
  }

  lemma AddRefines(s: Store, k: string, val: Bytes, ttl: Time, now: Time, key: string, es: seq<Entry>, later: Time)
    requires Alike(s.m, key, es, later) && DoAdd(s, k, val, ttl, now).1
    ensures Alike(DoAdd(s, k, val, ttl, now).0.m, key, Effect(Appended(k, Entry(Expiry(now, ttl), val)), key, es),
              later)
  {
    var e := Entry(Expiry(now, ttl), val);
    LiveAppend(EntriesAt(s.m, key), [e], later);
    LiveAppend(es, [e], later);
  }

  lemma RemoveRefines(s: Store, k: string, val: Bytes, key: string, es: seq<Entry>, later: Time)
    requires Alike(s.m, key, es, later)
    ensures Alike(DoRemove(s, k, val).m, key, Effect(Removed(k, val), key, es), later)
  {
    LiveWithout(EntriesAt(s.m, key), val, later);
    LiveWithout(es, val, later);
    if k in s.m && |Without(s.m[k], val)| == |s.m[k]| {
      WithoutAll(s.m[k], val);
    }
  }

  lemma SetRefines(s: Store, k: string, val: Bytes, ttl: Time, now: Time, key: string, es: seq<Entry>, later: Time)
    requires Alike(s.m, key, es, later)
    ensures var (t, ok) := DoSet(s, k, val, ttl, now);
            var f := if ok then Replaced(k, Entry(Expiry(now, ttl), val)) else Cleared(k);
            Alike(t.m, key, Effect(f, key, es), later)
  {
    var e := Entry(Expiry(now, ttl), val);
    assert EntriesAt(Drop(s, k).m, k) + [e] == [e];
  }

  lemma OneFact(f: Fact, key: string, es: seq<Entry>)
    ensures Logged([f], key, es) == Effect(f, key, es)
  {
    assert [f][1..] == [];
  }

  /** What an operation does to one key's live values, in terms of the log. */
  lemma ApplyRefines(s: Store, e: Event, key: string, es: seq<Entry>, later: Time)
    requires e.now <= later && Alike(s.m, key, es, later)
    ensures Alike(Apply(s, e).m, key, Logged(FactOf(s, e), key, es), later)
  {
    var f := FactOf(s, e);
    if f != [] {
      OneFact(f[0], key, es);
    }
    match e.op
    case Add(k, val, ttl) =>
      if f != [] {
        AddRefines(s, k, val, ttl, e.now, key, es, later);
      }
    case Set(k, val, ttl) => SetRefines(s, k, val, ttl, e.now, key, es, later);
    case Remove(k, val) => RemoveRefines(s, k, val, key, es, later);
    case Delete(k) =>
    case Prune => PruneKeepsValues(s.m, key, e.now, later);
    case Write(_) =>
    case Load(_) =>
  }

  lemma {:induction false} OrderedBound(events: seq<Event>, from: Time, until: Time)
    requires Ordered(events, from, until)
    ensures from <= until && (events != [] ==> events[0].now <= until)
  {
    if events == [] {
    } else {
      OrderedBound(events[1..], events[0].now, until);
    }
  }

  lemma {:induction false} RunRefines(s: Store, events: seq<Event>, from: Time, later: Time, key: string,
          es: seq<Entry>)
    requires Ordered(events, from, later) && Alike(s.m, key, es, later)
    ensures Alike(Run(s, events).m, key, Logged(Log(s, events), key, es), later)
    decreases |events|
  {
    if events == [] {
    } else {
      var e := events[0];
      OrderedBound(events, from, later);
      ApplyRefines(s, e, key, es, later);
      RunRefines(Apply(s, e), events[1..], e.now, later, key, Logged(FactOf(s, e), key, es));
      LoggedAppend(FactOf(s, e), Log(Apply(s, e), events[1..]), key, es);
    }
  }

  /** After any run, the values read under any key at any later time are, in order, those
      the log left there that have not expired by then. */
  lemma StoreIsTimedMultimap(s: Store, events: seq<Event>, from: Time, later: Time, key: string)
    requires Ordered(events, from, later)
    ensures Values(Run(s, events).m, key, later) ==
              ValuesOf(Live(Logged(Log(s, events), key, EntriesAt(s.m, key)), later))
  {
    RunRefines(s, events, from, later, key, EntriesAt(s.m, key));
  }

  /** Pruning at one moment is invisible from then on. */
  lemma PruneIsInvisible(s: Store, now: Time, later: Time, key: string)
    requires now <= later
    ensures Values(DoPrune(s, now).m, key, later) == Values(s.m, key, later)
  {
    PruneKeepsValues(s.m, key, now, later);
  }

  predicate NoEmptyLists(m: Contents) {
    forall k :: k in m ==> m[k] != []
  }

  /** The keys left by pruning are exactly those with a live value or an empty list; without
      empty lists, exactly those with a live value. */
  lemma PruneListsLiveKeys(s: Store, now: Time, key: string)
    ensures key in DoPrune(s, now).m <==> Values(s.m, key, now) != [] || (key in s.m && s.m[key] == [])
    ensures NoEmptyLists(s.m) ==> NoEmptyLists(DoPrune(s, now).m)
  {
  }

  // ----- What each call does to the values read

  lemma OneLive(e: Entry, later: Time)
    ensures ValuesOf(Live([e], later)) == if later < e.expires then [e.value] else []
  {
    assert [e][1..] == [];
  }

  /** A full store refuses an added value. Otherwise it is read, behind the others, as long as
      the clock is before now + ttl, in 32 bits; other keys are left alone. */
  lemma AddMeaning(s: Store, k: string, val: Bytes, ttl: Time, now: Time, key: string, later: Time)
    ensures var (t, ok) := DoAdd(s, k, val, ttl, now);
            && (ok <==> s.maxSize == 0 || s.size < s.maxSize)
            && Values(t.m, key, later) ==
               Values(s.m, key, later)
               + if ok && key == k && later < (now + ttl) % 0x1_0000_0000 then [val] else []
  {
    var e := Entry(Expiry(now, ttl), val);
    LiveAppend(EntriesAt(s.m, key), [e], later);
    OneLive(e, later);
  }

  lemma CountCons(e: Entry, es: seq<Entry>, v: Bytes)
    ensures multiset(ValuesOf([e] + es))[v] == (if e.value == v then 1 else 0) + multiset(ValuesOf(es))[v]
  {
    assert ValuesOf([e] + es) == [e.value] + ValuesOf(es);
  }

  lemma {:induction false} WithoutCount(es: seq<Entry>, val: Bytes, v: Bytes)
    ensures multiset(ValuesOf(Without(es, val)))[v] == if v == val then 0 else multiset(ValuesOf(es))[v]
  {
    if es == [] {
    } else {
      WithoutCount(es[1..], val, v);
      assert es == [es[0]] + es[1..];
      CountCons(es[0], es[1..], v);
      CountCons(es[0], Without(es[1..], val), v);
    }
  }

  lemma RemovedLive(s: Store, k: string, val: Bytes, key: string, later: Time)
    ensures Live(EntriesAt(DoRemove(s, k, val).m, key), later) ==
            if key == k then Without(Live(EntriesAt(s.m, key), later), val) else Live(EntriesAt(s.m, key), later)
  {
    LiveWithout(EntriesAt(s.m, key), val, later);
    if k in s.m && |Without(s.m[k], val)| == |s.m[k]| {
      WithoutAll(s.m[k], val);
    }
  }

  /** Removing a value takes away every copy of it from its key and nothing else. */
  lemma RemoveMeaning(s: Store, k: string, val: Bytes, key: string, later: Time, v: Bytes)
    ensures multiset(Values(DoRemove(s, k, val).m, key, later))[v] ==
            if key == k && v == val then 0 else multiset(Values(s.m, key, later))[v]
  {
    RemovedLive(s, k, val, key, later);
    WithoutCount(Live(EntriesAt(s.m, key), later), val, v);
  }

  // ----- Bookkeeping

  ghost predicate Fits(maxSize: nat, file: Contents) {
    NoEmptyLists(file) && (maxSize > 0 ==> Total(file) <= maxSize)
  }

  ghost predicate Clean(s: Store) {
    !s.dirty ==> s.m == s.disk
  }

  /** The counter is the number of stored entries, the limit is respected, no list is
      empty, and a store that is not dirty is what the file holds. */
  ghost predicate Book(s: Store) {
    s.size == Total(s.m) && Fits(s.maxSize, s.m) && Clean(s)
  }

  lemma DropTotal(s: Store, key: string)
    requires s.size == Total(s.m)
    ensures Drop(s, key).size == Total(Drop(s, key).m) && Drop(s, key).size <= s.size
    ensures key in s.m ==> Drop(s, key).size == s.size - |s.m[key]|
  {
    if key in s.m {
      TotalDrop(s.m, key);
    }
  }

  lemma AddTotal(s: Store, key: string, val: Bytes, ttl: Time, now: Time)
    requires s.size == Total(s.m)
    ensures var (t, ok) := DoAdd(s, key, val, ttl, now);
            t.size == Total(t.m) && (ok ==> t.dirty && t.size == s.size + 1) && (!ok ==> t == s)
    ensures NoEmptyLists(s.m) ==> NoEmptyLists(DoAdd(s, key, val, ttl, now).0.m)
  {
    TotalPut(s.m, key, EntriesAt(s.m, key) + [Entry(Expiry(now, ttl), val)]);
  }

  /** Within the limit and without empty lists, replacing a present key always has room. */
  lemma SetOnPresentKeySucceeds(s: Store, key: string, val: Bytes, ttl: Time, now: Time)
    requires Book(s) && key in s.m
    ensures DoSet(s, key, val, ttl, now).1
  {
    DropTotal(s, key);
  }

  lemma SetKeepsBook(s: Store, key: string, val: Bytes, ttl: Time, now: Time)
    requires Book(s)
    ensures Book(DoSet(s, key, val, ttl, now).0)
  {
    DropTotal(s, key);
    AddTotal(Drop(s, key), key, val, ttl, now);
    if key in s.m {
      SetOnPresentKeySucceeds(s, key, val, ttl, now);
    }
  }

  lemma RemoveKeepsBook(s: Store, key: string, val: Bytes)
    requires Book(s)
    ensures Book(DoRemove(s, key, val))
  {
    if key in s.m {
      DropTotal(s, key);
      TotalPut(s.m, key, Without(s.m[key], val));
    }
  }

  lemma {:induction false} PruneTotal(m: Contents, now: Time, keys: set<string>)
    requires keys <= m.Keys
    ensures TotalOver(PruneContents(m, now), keys * PruneContents(m, now).Keys) <= TotalOver(m, keys)
  {
    var n := PruneContents(m, now);
    if keys != {} {
      var k :| k in keys;
      PruneTotal(m, now, keys - {k});
      TotalSplit(m, keys, k);
      if k in n {
        TotalSplit(n, keys * n.Keys, k);
        assert keys * n.Keys - {k} == (keys - {k}) * n.Keys;
      } else {
        assert keys * n.Keys == (keys - {k}) * n.Keys;
      }
    } else {
      assert keys * n.Keys == {};
    }
  }

  lemma PruneKeepsBook(s: Store, now: Time)
    requires Book(s)
    ensures Book(DoPrune(s, now))
  {
    PruneTotal(s.m, now, s.m.Keys);
    assert s.m.Keys * PruneContents(s.m, now).Keys == PruneContents(s.m, now).Keys;
  }

  lemma StepKeepsBook(s: Store, e: Event)
    requires Book(s) && (e.op.Load? ==> Fits(s.maxSize, e.op.file))
    ensures Book(Apply(s, e)) && Apply(s, e).maxSize == s.maxSize
  {
    match e.op
    case Add(key, val, ttl) => AddTotal(s, key, val, ttl, e.now);
    case Set(key, val, ttl) => SetKeepsBook(s, key, val, ttl, e.now);
    case Remove(key, val) => RemoveKeepsBook(s, key, val);
    case Delete(key) => DropTotal(s, key);
    case Prune => PruneKeepsBook(s, e.now);
    case Write(_) =>
    case Load(_) =>
  }

  /** In every run that loads only files within the limit. */
  lemma {:induction false} BookkeepingHolds(s: Store, events: seq<Event>)
    requires Book(s)
    requires forall i :: 0 <= i < |events| && events[i].op.Load? ==> Fits(s.maxSize, events[i].op.file)
    ensures Book(Run(s, events))
    decreases |events|
  {
    if events == [] {
    } else {
      StepKeepsBook(s, events[0]);
      BookkeepingHolds(Apply(s, events[0]), events[1..]);
    }
  }

  lemma EmptyStoreIsBooked(maxSize: nat)
    ensures Book(Store(maxSize, map[], 0, false, map[]))
  {
  }

  /** So in every run of a fresh store. */
  lemma FreshStoreIsBooked(maxSize: nat, events: seq<Event>)
    requires forall i :: 0 <= i < |events| && events[i].op.Load? ==> Fits(maxSize, events[i].op.file)
    ensures Book(Run(Store(maxSize, map[], 0, false, map[]), events))
  {
    EmptyStoreIsBooked(maxSize);
    BookkeepingHolds(Store(maxSize, map[], 0, false, map[]), events);
  }

  /** Without the limit respected, Set is not atomic: exactly when the other entries alone
      fill the store it fails, and then it has lost the key's old entries. */
  lemma SetFailure(s: Store, key: string, val: Bytes, ttl: Time, now: Time)
    ensures var (t, ok) := DoSet(s, key, val, ttl, now);
            && (ok <==> s.maxSize == 0 || s.size - |EntriesAt(s.m, key)| < s.maxSize)
            && (ok ==> t.m == s.m[key := [Entry(Expiry(now, ttl), val)]])
            && (!ok ==> t.m == s.m - {key} && t.dirty == s.dirty)
  {
    assert EntriesAt(Drop(s, key).m, key) + [Entry(Expiry(now, ttl), val)] == [Entry(Expiry(now, ttl), val)];
    assert key !in s.m ==> s.m - {key} == s.m;
  }

  /** A value that is set is the only one read, until its time has come; a failed one leaves
      none, like deleting the key. */
  lemma SetMeaning(s: Store, k: string, val: Bytes, ttl: Time, now: Time, key: string, later: Time)
    ensures var (t, ok) := DoSet(s, k, val, ttl, now);
            Values(t.m, key, later) ==
            if key != k then Values(s.m, key, later)
            else if ok && later < (now + ttl) % 0x1_0000_0000 then [val] else []
    ensures Values(DoDelete(s, k).m, key, later) == if key == k then [] else Values(s.m, key, later)
  {
    SetFailure(s, k, val, ttl, now);
    OneLive(Entry(Expiry(now, ttl), val), later);
  }

  /** Set keeps the rule that a store that is not dirty is its file exactly when the store is
      dirty, the key absent, or there is room without the key's own entries. */
  lemma SetKeepsCleanExactly(s: Store, key: string, val: Bytes, ttl: Time, now: Time)
    requires Clean(s)
    ensures Clean(DoSet(s, key, val, ttl, now).0) <==>
            s.dirty || key !in s.m || s.maxSize == 0 || s.size - |s.m[key]| < s.maxSize
  {
    SetFailure(s, key, val, ttl, now);
    if key in s.m {
      assert key !in s.m - {key};
    }
  }

  /** The event is a Set on a present key of a store that is not dirty, without room for it. */
  predicate FailsSilently(s: Store, e: Event) {
    e.op.Set? && !s.dirty && e.op.key in s.m && s.maxSize > 0 && s.size - |s.m[e.op.key]| >= s.maxSize
  }

  /** And of all events such a failing Set is the one that breaks the rule. */
  lemma EventKeepsCleanExactly(s: Store, e: Event)
    requires Clean(s)
    ensures Clean(Apply(s, e)) <==> !FailsSilently(s, e)
  {
    if e.op.Set? {
      SetKeepsCleanExactly(s, e.op.key, e.op.val, e.op.ttl, e.now);
    }
  }

  /** With the limit kept, Set on a present key fails exactly when the key's list is empty and
      the store is full. */
  lemma SetOnPresentKeyExactly(s: Store, key: string, val: Bytes, ttl: Time, now: Time)
    requires key in s.m && (s.maxSize > 0 ==> s.size <= s.maxSize)
    ensures DoSet(s, key, val, ttl, now).1 <==> s.maxSize == 0 || s.m[key] != [] || s.size < s.maxSize
  {
    SetFailure(s, key, val, ttl, now);
  }

  /** When the dirty flag is set: by every successful Add and Set, and by Remove, Delete and
      pruning exactly when they change the contents. A completed write clears it, a failed one
      changes nothing, and a load takes the file's contents and leaves the flag as it was. */
  lemma DirtyExactly(s: Store, e: Event)
    ensures var t := Apply(s, e);
            match e.op
            case Add(key, val, ttl) => t.dirty <==> s.dirty || DoAdd(s, key, val, ttl, e.now).1
            case Set(key, val, ttl) => t.dirty <==> s.dirty || DoSet(s, key, val, ttl, e.now).1
            case Remove(_, _) => t.dirty <==> s.dirty || t.m != s.m
            case Delete(_) => t.dirty <==> s.dirty || t.m != s.m
            case Prune => t.dirty <==> s.dirty || t.m != s.m
            case Write(done) => if done then !t.dirty && t.disk == t.m == s.m else t == s
            case Load(file) => t.dirty == s.dirty && t.m == t.disk == file
  {
    match e.op
    case Set(key, val, ttl) => SetFailure(s, key, val, ttl, e.now);
    case Remove(key, val) =>
      if key in s.m {
        var rest := Without(s.m[key], val);
        assert |rest| != |s.m[key]| ==> EntriesAt(DoRemove(s, key, val).m, key) == rest != s.m[key];
      }
    case Delete(key) =>
      if key in s.m {
        assert key !in Drop(s, key).m;
      }
    case _ =>
  }

  lemma StepKeepsTotal(s: Store, e: Event)
    requires s.size == Total(s.m)
    ensures Apply(s, e).size == Total(Apply(s, e).m)
  {
    match e.op
    case Add(key, val, ttl) => AddTotal(s, key, val, ttl, e.now);
    case Set(key, val, ttl) =>
      DropTotal(s, key);
      AddTotal(Drop(s, key), key, val, ttl, e.now);
    case Remove(key, val) =>
      DropTotal(s, key);
      TotalPut(s.m, key, Without(EntriesAt(s.m, key), val));
    case Delete(key) => DropTotal(s, key);
    case Prune =>
    case Write(_) =>
    case Load(_) =>
  }

  /** Whatever is loaded, the counter is the number of stored entries. */
  lemma {:induction false} CounterHolds(s: Store, events: seq<Event>)
    requires s.size == Total(s.m)
    ensures Run(s, events).size == Total(Run(s, events).m)
    decreases |events|
  {
    if events == [] {
    } else {
      StepKeepsTotal(s, events[0]);
      CounterHolds(Apply(s, events[0]), events[1..]);
    }
  }

  /** A store of two entries loaded from a file that has three. */
  lemma SetLosesKeyExample()
    ensures var file: Contents := map["a" := [Entry(9, [1])], "b" := [Entry(9, [2]), Entry(9, [3])]];
            var s := DoLoad(Store(2, map[], 0, false, map[]), file);
            var (t, ok) := DoSet(s, "a", [4], 5, 1);
            Clean(s) && !ok && Values(s.m, "a", 1) == [[1]] && Values(t.m, "a", 1) == [] && !Clean(t)
  {
    var file: Contents := map["a" := [Entry(9, [1])], "b" := [Entry(9, [2]), Entry(9, [3])]];
    TotalDrop(file, "a");
    TotalDrop(file - {"a"}, "b");
    assert file - {"a"} - {"b"} == map[];
    var s := DoLoad(Store(2, map[], 0, false, map[]), file);
    assert s.size == 3;
    assert "a" in s.m && "a" !in (s.m - {"a"});
    SetFailure(s, "a", [4], 5, 1);
  }

  /** A store of two entries loaded from a file that has two, and an empty list. */
  lemma SetLosesEmptyListExample()
    ensures var file: Contents := map["a" := [], "b" := [Entry(9, [2]), Entry(9, [3])]];
            var s := DoLoad(Store(2, map[], 0, false, map[]), file);
            var (t, ok) := DoSet(s, "a", [4], 5, 1);
            s.size == 2 && Clean(s) && !ok && !Clean(t)
  {
    var file: Contents := map["a" := [], "b" := [Entry(9, [2]), Entry(9, [3])]];
    TotalDrop(file, "a");
    TotalDrop(file - {"a"}, "b");
    assert file - {"a"} - {"b"} == map[];
    var s := DoLoad(Store(2, map[], 0, false, map[]), file);
    assert s.size == 2;
    assert "a" in s.m && "a" !in (s.m - {"a"});
    SetFailure(s, "a", [4], 5, 1);
  }
}
