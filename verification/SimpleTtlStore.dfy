/** The in-memory store, imperatively: maps of slices edited in place, a running size
    counter and a dirty flag. Each method takes its one clock reading as a parameter. */
module SimpleTtlStore {
  import opened Text
  import opened Bytes
  import opened Clock
  import opened TtlStore

  /** The contents while the pruning loop still has the keys of todo ahead of it. */
  ghost function PrunedSoFar(m: Contents, now: Time, todo: set<string>): Contents {
    map key | key in m && (key in todo || Live(m[key], now) != [] || m[key] == []) ::
      if key in todo then m[key] else Live(m[key], now)
  }

  lemma PrunedStep(m: Contents, now: Time, todo: set<string>, key: string)
    requires key in todo && todo <= m.Keys
    ensures var before, after := PrunedSoFar(m, now, todo), PrunedSoFar(m, now, todo - {key});
            && key in before && before[key] == m[key]
            && after == (if Live(m[key], now) != [] || m[key] == [] then before[key := Live(m[key], now)]
              else before - {key})
            && (before != m ==> after != m)
  {
    var before, after := PrunedSoFar(m, now, todo), PrunedSoFar(m, now, todo - {key});
    if before != m {
      var k :| k in m && (k !in before || before[k] != m[k]);
      assert k != key;
    }
  }

  class SimpleStore {
    const maxSize: nat
    var m: Contents
    var size: int
    var dirty: bool
    ghost var disk: Contents

    constructor (maxSize: nat)
      ensures State() == Store(maxSize, map[], 0, false, map[])
    {
      this.maxSize := maxSize;
      m, size, dirty, disk := map[], 0, false, map[];
    }

    ghost function State(): Store
      reads this
    {
      Store(maxSize, m, size, dirty, disk)
    }

    method AddEntry(key: string, val: Bytes, ttl: Time, now: Time) returns (ok: bool)
      modifies this
      ensures (State(), ok) == DoAdd(old(State()), key, val, ttl, now)
    {
      if maxSize > 0 && size >= maxSize {
        return false;
      }
      m := m[key := EntriesAt(m, key) + [Entry(Expiry(now, ttl), val)]];
      size := size + 1;
      dirty := true;
      ok := true;
    }

    method Set(key: string, val: Bytes, ttl: Time, now: Time) returns (ok: bool)
      modifies this
      ensures (State(), ok) == DoSet(old(State()), key, val, ttl, now)
    {
      if key in m {
        size := size - |m[key]|;
        m := m - {key};
      }
      ok := AddEntry(key, val, ttl, now);
    }

    method Exists(key: string, now: Time) returns (exists_: bool)
      ensures exists_ <==> Values(m, key, now) != []
    {
      var rs := EntriesAt(m, key);
      for i := 0 to |rs|
        invariant Live(rs[..i], now) == []
      {
        LiveAppend(rs[..i], [rs[i]], now);
        assert rs[..i + 1] == rs[..i] + [rs[i]];
        if rs[i].expires > now {
          assert rs == rs[..i + 1] + rs[i + 1..];
          LiveAppend(rs[..i + 1], rs[i + 1..], now);
          return true;
        }
      }
      assert rs[..|rs|] == rs;
      return false;
    }

    method AllValues(key: string, now: Time) returns (vals: seq<Bytes>)
      ensures vals == Values(m, key, now)
    {
      var rs := EntriesAt(m, key);
      vals := [];
      for i := 0 to |rs|
        invariant vals == ValuesOf(Live(rs[..i], now))
      {
        LiveAppend(rs[..i], [rs[i]], now);
        assert rs[..i + 1] == rs[..i] + [rs[i]];
        if rs[i].expires > now {
          vals := vals + [rs[i].value];
        }
      }
      assert rs[..|rs|] == rs;
    }

    method First(key: string, now: Time) returns (val: Option<Bytes>)
      ensures val == Get(m, key, now)
    {
      var rs := EntriesAt(m, key);
      for i := 0 to |rs|
        invariant Live(rs[..i], now) == []
      {
        LiveAppend(rs[..i], [rs[i]], now);
        assert rs[..i + 1] == rs[..i] + [rs[i]];
        if rs[i].expires > now {
          assert rs == rs[..i + 1] + rs[i + 1..];
          LiveAppend(rs[..i + 1], rs[i + 1..], now);
          return Some(rs[i].value);
        }
      }
      assert rs[..|rs|] == rs;
      return None;
    }

    method List(prefix: string) returns (keys: set<string>)
      ensures keys == set k | k in m && prefix <= k
    {
      keys := {};
      var todo := m.Keys;
      while todo != {}
        invariant todo <= m.Keys
        invariant keys == set k | k in m && k !in todo && prefix <= k
        decreases |todo|
      {
        var k :| k in todo;
        if prefix <= k {
          keys := keys + {k};
        }
        todo := todo - {k};
      }
    }

    /** The deletion loop over one slice, counting the size down as it goes. */
    method RemoveFromSlice(es: seq<Entry>, val: Bytes) returns (rs: seq<Entry>, removed: bool)
      modifies this`size
      ensures rs == Without(es, val) && (removed <==> |rs| < |es|)
      ensures size == old(size) - (|es| - |rs|)
    {
      rs, removed := es, false;
      var i := 0;
      while i < |rs|
        invariant 0 <= i <= |rs| <= |es| && Without(es, val) == rs[..i] + Without(rs[i..], val)
        invariant (removed <==> |rs| < |es|) && size == old(size) - (|es| - |rs|)
        decreases |rs| - i
      {
        WithoutRound(rs, i, val);
        if rs[i].value == val {
          rs := rs[..i] + rs[i + 1..];
          size := size - 1;
          removed := true;
          continue;
        }
        i := i + 1;
      }
      assert rs[..i] + [] == rs && rs[i..] == [];
    }

    method Remove(key: string, val: Bytes)
      modifies this
      ensures State() == DoRemove(old(State()), key, val)
    {
      var rs, removed := RemoveFromSlice(EntriesAt(m, key), val);
      if removed {
        m := if |rs| == 0 then m - {key} else m[key := rs];
        dirty := true;
      }
    }

    method Delete(key: string)
      modifies this
      ensures State() == DoDelete(old(State()), key)
    {
      if key in m {
        size := size - |m[key]|;
        m := m - {key};
        dirty := true;
      }
    }

    method PruneSlice(es: seq<Entry>, now: Time) returns (rs: seq<Entry>, pruned: bool)
      modifies this`size
      ensures rs == Live(es, now) && (pruned <==> |rs| < |es|)
      ensures size == old(size) - (|es| - |rs|)
    {
      rs, pruned := es, false;
      var i := 0;
      while i < |rs|
        invariant 0 <= i <= |rs| <= |es| && Live(es, now) == rs[..i] + Live(rs[i..], now)
        invariant (pruned <==> |rs| < |es|) && size == old(size) - (|es| - |rs|)
        decreases |rs| - i
      {
        LiveRound(rs, i, now);
        if rs[i].expires <= now {
          rs := rs[..i] + rs[i + 1..];
          size := size - 1;
          pruned := true;
          continue;
        }
        i := i + 1;
      }
      assert rs[..i] + [] == rs && rs[i..] == [];
    }

    /** One step of the pruning loop. */
    method PruneKey(key: string, now: Time)
      requires key in m
      modifies this
      ensures disk == old(disk)
      ensures m == if Live(old(m)[key], now) != [] || old(m)[key] == [] then old(m)[key := Live(old(m)[key], now)]
                else old(m) - {key}
      ensures size == old(size) - (Total(old(m)) - Total(m))
      ensures dirty <==> old(dirty) || m != old(m)
    {
      var es := m[key];
      var rs, pruned := PruneSlice(es, now);
      if pruned {
        TotalDrop(m, key);
        TotalPut(m, key, rs);
        m := if |rs| == 0 then m - {key} else m[key := rs];
        dirty := true;
        assert key in m ==> m[key] != old(m)[key];
      } else {
        LiveAll(es, now);
      }
    }

    method Prune(now: Time)
      modifies this
      ensures State() == DoPrune(old(State()), now)
    {
      ghost var was := m;
      var todo := m.Keys;
      while todo != {}
        invariant todo <= was.Keys && disk == old(disk) && m == PrunedSoFar(was, now, todo)
        invariant size == old(size) - (Total(was) - Total(m))
        invariant dirty <==> old(dirty) || m != was
        decreases |todo|
      {
        var key :| key in todo;
        PruneKey(key, now);
        PrunedStep(was, now, todo, key);
        todo := todo - {key};
      }
      assert PrunedSoFar(was, now, {}) == PruneContents(was, now);
    }

    /** done says whether the file was created, encoded, closed and renamed. */
    method WriteFile(done: bool)
      modifies this
      ensures State() == if done then DoWrite(old(State())) else old(State())
    {
      if done {
        disk := m;
        dirty := false;
      }
    }

    method LoadFile(file: Contents)
      modifies this
      ensures State() == DoLoad(old(State()), file)
    {
      var count := 0;
      var todo := file.Keys;
      while todo != {}
        invariant todo <= file.Keys && dirty == old(dirty) && count == Total(file) - TotalOver(file, todo)
        decreases |todo|
      {
        var key :| key in todo;
        TotalSplit(file, todo, key);
        count := count + |file[key]|;
        todo := todo - {key};
      }
      assert todo == {};
      assert count == Total(file);
      m := file;
      size := count;
      disk := file;
    }
  }
}
