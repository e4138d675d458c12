/** The store with expiring values: what each operation does to the contents, the size
    counter and the dirty flag. */
module TtlStore {
  import opened Bytes
  import opened Clock
  import opened Text

  datatype Entry = Entry(expires: Time, value: Bytes)

  type Contents = map<string, seq<Entry>>

  /** `uint32(now) + ttl` with 32-bit wrap-around. */
  function Expiry(now: Time, ttl: Time): Time {
    Wrap(now + ttl)
  }

  function EntriesAt(m: Contents, key: string): seq<Entry> {
    if key in m then m[key] else []
  }

  /** The entries that have not expired, in order. */
  function Live(es: seq<Entry>, now: Time): (r: seq<Entry>)
    ensures |r| <= |es|
  {
    if es == [] then []
    else if es[0].expires > now then [es[0]] + Live(es[1..], now)
    else Live(es[1..], now)
  }

  /** The entries whose value is not val, in order. */
  function Without(es: seq<Entry>, val: Bytes): (r: seq<Entry>)
    ensures |r| <= |es|
  {
    if es == [] then []
    else if es[0].value == val then Without(es[1..], val)
    else [es[0]] + Without(es[1..], val)
  }

  function ValuesOf(es: seq<Entry>): seq<Bytes> {
    seq(|es|, i requires 0 <= i < |es| => es[i].value)
  }

  function Values(m: Contents, key: string, now: Time): seq<Bytes> {
    ValuesOf(Live(EntriesAt(m, key), now))
  }

  /** The first live value. */
  function Get(m: Contents, key: string, now: Time): Option<Bytes> {
    var vs := Values(m, key, now);
    if vs == [] then None else Some(vs[0])
  }

  // ----- The state of a store and its operations

  /** disk is the file last written or loaded. */
  datatype Store = Store(maxSize: nat, m: Contents, size: int, dirty: bool, disk: Contents)

  function DoAdd(s: Store, key: string, val: Bytes, ttl: Time, now: Time): (Store, bool) {
    if s.maxSize > 0 && s.size >= s.maxSize then (s, false)
    else
      (s.(m := s.m[key := EntriesAt(s.m, key) + [Entry(Expiry(now, ttl), val)]], size := s.size + 1, dirty := true),
        true)
  }

  /** Drop a key without touching the dirty flag. */
  function Drop(s: Store, key: string): Store {
    if key in s.m then s.(m := s.m - {key}, size := s.size - |s.m[key]|) else s
  }

  function DoSet(s: Store, key: string, val: Bytes, ttl: Time, now: Time): (Store, bool) {
    DoAdd(Drop(s, key), key, val, ttl, now)
  }

  function DoRemove(s: Store, key: string, val: Bytes): Store {
    if key !in s.m then s
    else
      var rs := Without(s.m[key], val);
      if |rs| == |s.m[key]| then s
      else if rs == [] then Drop(s, key).(dirty := true)
      else s.(m := s.m[key := rs], size := s.size - (|s.m[key]| - |rs|), dirty := true)
  }

  function DoDelete(s: Store, key: string): Store {
    if key in s.m then Drop(s, key).(dirty := true) else s
  }

  /** A key is dropped when its last entry is; a list without expired entries is left alone. */
  function PruneContents(m: Contents, now: Time): Contents {
    map key | key in m && (Live(m[key], now) != [] || m[key] == []) :: Live(m[key], now)
  }

  /** The number of entries under the keys of a set. */
  ghost function TotalOver(m: Contents, keys: set<string>): nat
    requires keys <= m.Keys
  {
    if keys == {} then 0
    else
      var key :| key in keys;
      |m[key]| + TotalOver(m, keys - {key})
  }

  ghost function Total(m: Contents): nat {
    TotalOver(m, m.Keys)
  }

  ghost function DoPrune(s: Store, now: Time): Store {
    var m := PruneContents(s.m, now);
    s.(m := m, size := s.size - (Total(s.m) - Total(m)), dirty := s.dirty || m != s.m)
  }

  function DoWrite(s: Store): Store {
    s.(disk := s.m, dirty := false)
  }

  /** Loading replaces the contents and recounts; the dirty flag is not touched. */
  ghost function DoLoad(s: Store, file: Contents): Store {
    s.(m := file, size := Total(file), disk := file)
  }

  // ----- Counting entries

  lemma {:induction false} TotalSplit(m: Contents, keys: set<string>, key: string)
    requires keys <= m.Keys && key in keys
    ensures TotalOver(m, keys) == |m[key]| + TotalOver(m, keys - {key})
  {
    var k :| k in keys && TotalOver(m, keys) == |m[k]| + TotalOver(m, keys - {k});
    if k == key {
    } else {
      TotalSplit(m, keys - {k}, key);
      TotalSplit(m, keys - {key}, k);
      assert keys - {k} - {key} == keys - {key} - {k};
    }
  }

  lemma {:induction false} TotalSame(m: Contents, n: Contents, keys: set<string>)
    requires keys <= m.Keys && keys <= n.Keys && forall k :: k in keys ==> |m[k]| == |n[k]|
    ensures TotalOver(m, keys) == TotalOver(n, keys)
  {
    if keys == {} {
    } else {
      var k :| k in keys;
      TotalSame(m, n, keys - {k});
      TotalSplit(m, keys, k);
      TotalSplit(n, keys, k);
    }
  }

  lemma TotalDrop(m: Contents, key: string)
    requires key in m
    ensures Total(m) == |m[key]| + Total(m - {key})
  {
    TotalSplit(m, m.Keys, key);
    assert (m - {key}).Keys == m.Keys - {key};
    TotalSame(m, m - {key}, m.Keys - {key});
  }

  lemma TotalPut(m: Contents, key: string, es: seq<Entry>)
    ensures Total(m[key := es]) == Total(m) - |EntriesAt(m, key)| + |es|
  {
    var n := m[key := es];
    TotalDrop(n, key);
    if key in m {
      TotalDrop(m, key);
      assert n - {key} == m - {key};
    } else {
      assert n - {key} == m;
    }
  }

  // ----- Lists of entries

  lemma {:induction false} LiveAppend(a: seq<Entry>, b: seq<Entry>, now: Time)
    ensures Live(a + b, now) == Live(a, now) + Live(b, now)
  {
    if a == [] {
      assert a + b == b;
    } else {
      assert (a + b)[1..] == a[1..] + b;
      LiveAppend(a[1..], b, now);
    }
  }

  lemma {:induction false} LiveLater(es: seq<Entry>, now: Time, later: Time)
    requires now <= later
    ensures Live(Live(es, now), later) == Live(es, later)
  {
    if es == [] {
    } else {
      LiveLater(es[1..], now, later);
      if es[0].expires > now {
        var r := [es[0]] + Live(es[1..], now);
        assert r[1..] == Live(es[1..], now);
      }
    }
  }

  lemma {:induction false} LiveWithout(es: seq<Entry>, val: Bytes, now: Time)
    ensures Live(Without(es, val), now) == Without(Live(es, now), val)
  {
    if es == [] {
    } else {
      LiveWithout(es[1..], val, now);
      var a, b := [es[0]] + Without(es[1..], val), [es[0]] + Live(es[1..], now);
      assert a[1..] == Without(es[1..], val) && b[1..] == Live(es[1..], now);
    }
  }

  lemma {:induction false} WithoutAll(es: seq<Entry>, val: Bytes)
    requires |Without(es, val)| == |es|
    ensures Without(es, val) == es
  {
    if es == [] {
    } else {
      WithoutAll(es[1..], val);
    }
  }

  lemma {:induction false} LiveAll(es: seq<Entry>, now: Time)
    requires |Live(es, now)| == |es|
    ensures Live(es, now) == es
  {
    if es == [] {
    } else {
      LiveAll(es[1..], now);
    }
  }

  lemma {:induction false} LiveMember(es: seq<Entry>, e: Entry, now: Time)
    ensures e in Live(es, now) <==> e in es && e.expires > now
  {
    if es == [] {
    } else {
      LiveMember(es[1..], e, now);
      assert e in es <==> e == es[0] || e in es[1..];
    }
  }

  // ----- One round of a deletion loop at position i

  lemma DropAt(es: seq<Entry>, i: nat)
    requires i < |es|
    ensures es[i..] == [es[i]] + es[i + 1..] && es[i..][1..] == es[i + 1..] && es[..i + 1] == es[..i] + [es[i]]
    ensures var t := es[..i] + es[i + 1..]; t[..i] == es[..i] && t[i..] == es[i + 1..]
  {
  }

  lemma WithoutRound(es: seq<Entry>, i: nat, val: Bytes)
    requires i < |es|
    ensures es[i].value == val ==>
              var t := es[..i] + es[i + 1..]; t[..i] + Without(t[i..], val) == es[..i] + Without(es[i..], val)
    ensures es[i].value != val ==> es[..i + 1] + Without(es[i + 1..], val) == es[..i] + Without(es[i..], val)
  {
    DropAt(es, i);
    assert es[..i] + ([es[i]] + Without(es[i + 1..], val)) == es[..i] + [es[i]] + Without(es[i + 1..], val);
  }

  lemma LiveRound(es: seq<Entry>, i: nat, now: Time)
    requires i < |es|
    ensures es[i].expires <= now ==>
              var t := es[..i] + es[i + 1..]; t[..i] + Live(t[i..], now) == es[..i] + Live(es[i..], now)
    ensures es[i].expires > now ==> es[..i + 1] + Live(es[i + 1..], now) == es[..i] + Live(es[i..], now)
  {
    DropAt(es, i);
    assert es[..i] + ([es[i]] + Live(es[i + 1..], now)) == es[..i] + [es[i]] + Live(es[i + 1..], now);
  }
}
