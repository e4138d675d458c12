/** Ownership of names over every run of requests, clock ticks and pruning: who holds a
    key, and that no record outlives its registration. */
module MyaddrOwnership {
  import opened Text
  import opened Bytes
  import opened Clock
  import opened TtlStore
  import opened AsciiCase
  import opened MyaddrRecords
  import opened StoreRuns
  import opened Myaddr

  // ----- Runs

  datatype Step =
    | DoRegister(name: string, verified: bool, hash: string)
    | DoUnregister(key: Presented)
    | DoUpdate(key: Presented, remove: bool, ip: IpParam, challenge: string)
    | DoAdmin(name: string, suspend: bool)
    | Tick(to: Time)
    | PruneData
    | PruneChallenges
    | Foreign(data: Contents, chal: Contents)

  /** Writes by the other services that share the stores leave the prefixed keys alone. */
  ghost predicate SamePrefixed(a: Contents, b: Contents) {
    forall key: string :: PREFIX <= key ==> EntriesAt(a, key) == EntriesAt(b, key)
  }

  /** The clock does not run back and stays clear of the 32-bit wrap; presented keys are
      looked up under SHA-256 digests; a freshly drawn key's digest names nothing. */
  ghost predicate Enabled(s: State, a: Step) {
    match a
    case DoRegister(_, _, hash) => IsHash(hash) && Current(s.data, Hash(hash), s.now).None?
    case DoUnregister(key) => IsHash(key.hash)
    case DoUpdate(key, _, _, _) => IsHash(key.hash)
    case DoAdmin(_, _) => true
    case Tick(to) => s.now <= to && to + REGISTRATION_TTL < WRAP
    case PruneData => true
    case PruneChallenges => true
    case Foreign(data, chal) => SamePrefixed(s.data, data) && SamePrefixed(s.chal, chal)
  }

  function Next(s: State, a: Step): State {
    match a
    case DoRegister(name, verified, hash) => Register(s, name, verified, hash).0
    case DoUnregister(key) => Unregister(s, key).0
    case DoUpdate(key, remove, ip, challenge) => Update(s, key, remove, ip, challenge).0
    case DoAdmin(name, suspend) => Administer(s, name, suspend).0
    case Tick(to) => s.(now := to)
    case PruneData => s.(data := PruneContents(s.data, s.now))
    case PruneChallenges => s.(chal := PruneContents(s.chal, s.now))
    case Foreign(data, chal) => s.(data := data, chal := chal)
  }

  ghost predicate IsRun(s: State, steps: seq<Step>)
    decreases |steps|
  {
    steps != [] ==> Enabled(s, steps[0]) && IsRun(Next(s, steps[0]), steps[1..])
  }

  function After(s: State, steps: seq<Step>): State
    decreases |steps|
  {
    if steps == [] then s else After(Next(s, steps[0]), steps[1..])
  }

  // ----- What the stores say

  function RegOf(s: State, n: string): Option<Entry> {
    Current(s.data, Reg(n), s.now)
  }

  function KeyOf(s: State, h: string): Option<Entry> {
    Current(s.data, Hash(h), s.now)
  }

  /** The decoded registration of an entry; a placeholder when it does not decode. */
  function Record(e: Entry): Registration {
    match UnmarshalRegistration(e.value)
    case None => Registration(0, 0, "")
    case Some(r) => r
  }

  /** The digest a live registration names, if any. */
  function HashOf(s: State, n: string): string {
    if RegOf(s, n).None? then "" else Record(RegOf(s, n).value).hash
  }

  predicate LiveAt(m: Contents, key: string, now: Time, e: Entry) {
    e in EntriesAt(m, key) && e.expires > now
  }

  predicate LiveIp(s: State, n: string, four: bool, e: Entry) {
    LiveAt(s.data, Key(Ip(n, four)), s.now, e)
  }

  predicate LiveChallenge(s: State, n: string, e: Entry) {
    LiveAt(s.chal, ChallengeKey(n), s.now, e)
  }

  // ----- The invariant

  /** Written with an update, or pending since its creation; never written in the future. */
  predicate GoodRecord(e: Entry, now: Time) {
    var r := Record(e);
    && UnmarshalRegistration(e.value).Some? && (r.hash == "" || IsHash(r.hash))
    && r.created <= r.updated <= now
    && (e.expires as int == r.updated + REGISTRATION_TTL
        || (r.created == r.updated && e.expires as int == r.updated + PENDING_TTL))
  }

  ghost predicate Singles(s: State) {
    forall k: Kind :: |EntriesAt(s.data, Key(k))| <= 1
  }

  ghost predicate GoodRegistrations(s: State) {
    forall n :: RegOf(s, n).Some? ==> IsOwned(n) && GoodRecord(RegOf(s, n).value, s.now)
  }

  /** A live key entry names a name whose live registration has this digest and this expiry. */
  ghost predicate KeysAreOwned(s: State) {
    forall h :: IsHash(h) && KeyOf(s, h).Some? ==>
      var n := StringOf(KeyOf(s, h).value.value);
      && RegOf(s, n).Some? && RegOf(s, n).value.expires == KeyOf(s, h).value.expires && HashOf(s, n) == h
  }

  /** And a live registration's digest, when it has one, is a live key entry naming it. */
  ghost predicate OwnersHaveKeys(s: State) {
    forall n :: HashOf(s, n) != "" ==> KeyOf(s, HashOf(s, n)) == Some(Entry(RegOf(s, n).value.expires, BytesOf(n)))
  }

  predicate Outlived(s: State, n: string, e: Entry) {
    RegOf(s, n).Some? && e.expires <= RegOf(s, n).value.expires
  }

  ghost predicate RecordsAreOutlived(s: State) {
    && (forall n, four, e :: LiveIp(s, n, four, e) ==> Outlived(s, n, e))
    && (forall n, e :: LiveChallenge(s, n, e) ==> Outlived(s, n, e))
  }

  ghost predicate Inv(s: State) {
    && s.now + REGISTRATION_TTL < WRAP
    && Singles(s) && GoodRegistrations(s) && KeysAreOwned(s) && OwnersHaveKeys(s) && RecordsAreOutlived(s)
  }

  // ----- Reading after writing

  lemma CurrentPut(m: Contents, k: Kind, val: Bytes, ttl: Time, now: Time, q: Kind, t: Time)
    requires (k.Hash? ==> IsHash(k.hash)) && (q.Hash? ==> IsHash(q.hash))
    ensures var e := Entry(Expiry(now, ttl), val);
            Current(Put(m, Key(k), val, ttl, now), q, t) ==
            if q != k then Current(m, q, t) else if e.expires > t then Some(e) else None
  {
    KeyInjective(k, q);
  }

  lemma SinglesPut(m: Contents, key: string, val: Bytes, ttl: Time, now: Time)
    requires forall k: Kind :: |EntriesAt(m, Key(k))| <= 1
    ensures forall k: Kind :: |EntriesAt(Put(m, key, val, ttl, now), Key(k))| <= 1
  {
  }

  // ----- The two shapes of a step

  /** u is s after name n was registered, updated or suspended with entry e: the digest it
      had no longer names it, the digest it has does, and its records end with it. */
  ghost predicate Rewritten(s: State, u: State, n: string, e: Entry) {
    && u.now == s.now && Singles(u) && IsOwned(n)
    && e.expires > s.now && GoodRecord(e, s.now)
    && (forall m :: RegOf(u, m) == if m == n then Some(e) else RegOf(s, m))
    && (forall g :: IsHash(g) ==> KeyOf(u, g) == if g == Record(e).hash then Some(Entry(e.expires, BytesOf(n)))
                                               else if g == HashOf(s, n) then None else KeyOf(s, g))
    && (Record(e).hash == "" || Record(e).hash == HashOf(s, n) || KeyOf(s, Record(e).hash).None?)
    && (forall m, four, r :: LiveIp(u, m, four, r) ==> if m == n then r.expires <= e.expires else LiveIp(s, m, four, r))
    && (forall m, r :: LiveChallenge(u, m, r) ==> if m == n then r.expires <= e.expires else LiveChallenge(s, m, r))
  }

  /** u is s without name n: no registration, key, address or challenge of it is left. */
  ghost predicate Forgotten(s: State, u: State, n: string) {
    && u.now == s.now && Singles(u)
    && (forall m :: RegOf(u, m) == if m == n then None else RegOf(s, m))
    && (forall g :: IsHash(g) ==> KeyOf(u, g) == if g == HashOf(s, n) then None else KeyOf(s, g))
    && (forall m, four, r :: LiveIp(u, m, four, r) ==> m != n && LiveIp(s, m, four, r))
    && (forall m, r :: LiveChallenge(u, m, r) ==> m != n && LiveChallenge(s, m, r))
  }

  /** Owners of one digest are one name. */
  lemma DigestOwner(s: State, n: string, m: string)
    requires GoodRegistrations(s) && OwnersHaveKeys(s) && HashOf(s, n) == HashOf(s, m) != ""
    ensures n == m
  {
    OwnedIsByteString(n);
    OwnedIsByteString(m);
    StringRoundTrip(n);
    StringRoundTrip(m);
  }

  lemma RewrittenKeys(s: State, u: State, n: string, e: Entry)
    requires Inv(s) && Rewritten(s, u, n, e)
    ensures KeysAreOwned(u)
  {
    OwnedIsByteString(n);
    StringRoundTrip(n);
    forall g | IsHash(g) && KeyOf(u, g).Some? && g != Record(e).hash
      ensures StringOf(KeyOf(u, g).value.value) != n
    {
      assert KeyOf(s, g) == KeyOf(u, g);
    }
  }

  lemma RewrittenOwners(s: State, u: State, n: string, e: Entry)
    requires Inv(s) && Rewritten(s, u, n, e)
    ensures OwnersHaveKeys(u)
  {
    forall m | HashOf(u, m) != ""
      ensures KeyOf(u, HashOf(u, m)) == Some(Entry(RegOf(u, m).value.expires, BytesOf(m)))
    {
      if m != n {
        var g := HashOf(s, m);
        assert IsHash(g) && KeyOf(s, g).Some?;
        if g == HashOf(s, n) {
          DigestOwner(s, n, m);
        }
      }
    }
  }

  lemma RewrittenKeepsInv(s: State, u: State, n: string, e: Entry)
    requires Inv(s) && Rewritten(s, u, n, e)
    ensures Inv(u)
  {
    RewrittenKeys(s, u, n, e);
    RewrittenOwners(s, u, n, e);
  }

  lemma ForgottenKeepsInv(s: State, u: State, n: string)
    requires Inv(s) && Forgotten(s, u, n)
    ensures Inv(u)
  {
    forall m | HashOf(u, m) != ""
      ensures KeyOf(u, HashOf(u, m)) == Some(Entry(RegOf(u, m).value.expires, BytesOf(m)))
    {
      var g := HashOf(s, m);
      assert IsHash(g) && m != n;
      if g == HashOf(s, n) {
        DigestOwner(s, n, m);
      }
    }
    forall g | IsHash(g) && KeyOf(u, g).Some?
      ensures StringOf(KeyOf(u, g).value.value) != n
    {
      assert KeyOf(s, g) == KeyOf(u, g);
    }
  }

  /** Nothing changed hands: the same registrations and keys, no new live record. */
  ghost predicate Narrowed(s: State, u: State) {
    && u.now == s.now && Singles(u)
    && (forall m :: RegOf(u, m) == RegOf(s, m))
    && (forall g :: IsHash(g) ==> KeyOf(u, g) == KeyOf(s, g))
    && (forall m, four, r :: LiveIp(u, m, four, r) ==> LiveIp(s, m, four, r))
    && (forall m, r :: LiveChallenge(u, m, r) ==> LiveChallenge(s, m, r))
  }

  lemma NarrowedKeepsInv(s: State, u: State)
    requires Inv(s) && Narrowed(s, u)
    ensures Inv(u)
  {
  }

  // ----- Writing a registration

  function NewEntry(s: State, n: string, hash: string): Entry {
    if RegOf(s, n).None? then Entry(Expiry(s.now, PENDING_TTL), MarshalRegistration(Registration(s.now, s.now, hash)))
    else Entry(Expiry(s.now, REGISTRATION_TTL),
      MarshalRegistration(Registration(Record(RegOf(s, n).value).created, s.now, hash)))
  }

  function NewRecord(s: State, n: string, hash: string): Registration {
    Registration(if RegOf(s, n).None? then s.now else Record(RegOf(s, n).value).created, s.now, hash)
  }

  lemma EntryRecord(e: Entry, r: Registration)
    requires IsByteString(r.hash) && e.value == MarshalRegistration(r)
    ensures UnmarshalRegistration(e.value) == Some(r) && Record(e) == r
  {
    RegistrationRoundTrip(r);
  }

  lemma NewExpiry(s: State, n: string, hash: string)
    requires s.now + REGISTRATION_TTL < WRAP
    ensures NewEntry(s, n, hash).expires as int == s.now + (if RegOf(s, n).None? then PENDING_TTL else REGISTRATION_TTL)
    ensures NewEntry(s, n, hash).value == MarshalRegistration(NewRecord(s, n, hash))
  {
  }

  lemma NewEntryIsGood(s: State, n: string, hash: string)
    requires s.now + REGISTRATION_TTL < WRAP && (hash == "" || IsHash(hash))
    requires RegOf(s, n).Some? ==> GoodRecord(RegOf(s, n).value, s.now)
    ensures var e := NewEntry(s, n, hash);
            && GoodRecord(e, s.now) && Record(e) == NewRecord(s, n, hash) && e.expires > s.now
            && (RegOf(s, n).Some? ==>
              RegOf(s, n).value.expires <= e.expires && e.expires as int == s.now + REGISTRATION_TTL)
  {
    OwnedIsByteString(hash);
    NewExpiry(s, n, hash);
    EntryRecord(NewEntry(s, n, hash), NewRecord(s, n, hash));
  }

  /** What the data store holds after `UpdateRegistration` succeeds. */
  lemma RegistrationWritten(s: State, n: string, hash: string)
    requires s.now + REGISTRATION_TTL < WRAP && Singles(s) && (hash == "" || IsHash(hash))
    requires RegOf(s, n).Some? ==> GoodRecord(RegOf(s, n).value, s.now)
    ensures UpdateRegistration(s.data, hash, n, s.now).Some?
    ensures var u, e := s.(data := UpdateRegistration(s.data, hash, n, s.now).value), NewEntry(s, n, hash);
            && Singles(u)
            && (forall m :: RegOf(u, m) == if m == n then Some(e) else RegOf(s, m))
            && (forall g :: IsHash(g) ==>
              KeyOf(u, g) == if g == hash then Some(Entry(e.expires, BytesOf(n))) else KeyOf(s, g))
            && (forall m, four :: EntriesAt(u.data, Key(Ip(m, four))) == EntriesAt(s.data, Key(Ip(m, four))))
  {
    CurrentIsGet(s.data, Reg(n), s.now);
    var e := NewEntry(s, n, hash);
    var ttl := if RegOf(s, n).None? then PENDING_TTL else REGISTRATION_TTL;
    var d := Put(s.data, Key(Reg(n)), e.value, ttl, s.now);
    SinglesPut(s.data, Key(Reg(n)), e.value, ttl, s.now);
    forall q: Kind | q.Hash? ==> IsHash(q.hash)
      ensures Current(d, q, s.now) == if q == Reg(n) then Some(e) else Current(s.data, q, s.now)
      ensures q != Reg(n) ==> EntriesAt(d, Key(q)) == EntriesAt(s.data, Key(q))
    {
      CurrentPut(s.data, Reg(n), e.value, ttl, s.now, q, s.now);
      KeyInjective(Reg(n), q);
    }
    if hash != "" {
      SinglesPut(d, Key(Hash(hash)), BytesOf(n), ttl, s.now);
      forall q: Kind | q.Hash? ==> IsHash(q.hash)
        ensures Current(Put(d, Key(Hash(hash)), BytesOf(n), ttl, s.now), q, s.now) ==
                if q == Hash(hash) then Some(Entry(e.expires, BytesOf(n))) else Current(d, q, s.now)
        ensures q != Hash(hash) ==>
                  EntriesAt(Put(d, Key(Hash(hash)), BytesOf(n), ttl, s.now), Key(q)) == EntriesAt(d, Key(q))
      {
        CurrentPut(d, Hash(hash), BytesOf(n), ttl, s.now, q, s.now);
        KeyInjective(Hash(hash), q);
      }
    }
  }

  // ----- Each request keeps the invariant

  /** t is s ready for n's registration to be written with this digest: n's old digest, if it
      is another one, names nothing any more, and n's records in t end before the new entry. */
  ghost predicate Ready(s: State, t: State, n: string, hash: string) {
    && t.now == s.now && Singles(t) && IsOwned(n) && (hash == "" || IsHash(hash))
    && (hash == "" || hash == HashOf(s, n) || KeyOf(s, hash).None?)
    && (forall m :: RegOf(t, m) == RegOf(s, m))
    && (forall g :: IsHash(g) && g != hash ==> KeyOf(t, g) == if g == HashOf(s, n) then None else KeyOf(s, g))
    && (forall m, four, r :: LiveIp(t, m, four, r) ==>
      if m == n then r.expires <= NewEntry(s, n, hash).expires else LiveIp(s, m, four, r))
    && (forall m, r :: LiveChallenge(t, m, r) ==>
      if m == n then r.expires <= NewEntry(s, n, hash).expires else LiveChallenge(s, m, r))
  }

  lemma SameEntriesSameIps(t: State, u: State)
    requires u.now == t.now
    requires forall m, four :: EntriesAt(u.data, Key(Ip(m, four))) == EntriesAt(t.data, Key(Ip(m, four)))
    ensures forall m, four, r :: LiveIp(u, m, four, r) <==> LiveIp(t, m, four, r)
  {
  }

  lemma SameChallenges(t: State, u: State)
    requires u.now == t.now && u.chal == t.chal
    ensures forall m, r :: LiveChallenge(u, m, r) <==> LiveChallenge(t, m, r)
  {
  }

  lemma SameData(t: State, u: State)
    requires u.now == t.now && u.data == t.data
    ensures forall m :: RegOf(u, m) == RegOf(t, m)
    ensures forall g :: KeyOf(u, g) == KeyOf(t, g)
    ensures forall m, four, r :: LiveIp(u, m, four, r) <==> LiveIp(t, m, four, r)
  {
  }

  lemma ReadyIsRewritten(s: State, t: State, u: State, n: string, hash: string, e: Entry)
    requires Ready(s, t, n, hash) && e == NewEntry(s, n, hash)
    requires GoodRecord(e, s.now) && Record(e).hash == hash && e.expires > s.now
    requires u.now == s.now && Singles(u)
    requires forall m :: RegOf(u, m) == if m == n then Some(e) else RegOf(t, m)
    requires forall g :: IsHash(g) ==>
               KeyOf(u, g) == if g == hash then Some(Entry(e.expires, BytesOf(n))) else KeyOf(t, g)
    requires forall m, four, r :: LiveIp(u, m, four, r) <==> LiveIp(t, m, four, r)
    requires forall m, r :: LiveChallenge(u, m, r) <==> LiveChallenge(t, m, r)
    ensures Rewritten(s, u, n, e)
  {
  }

  lemma ReadyKeepsInv(s: State, t: State, n: string, hash: string)
    requires Inv(s) && Ready(s, t, n, hash)
    ensures UpdateRegistration(t.data, hash, n, t.now).Some?
    ensures Inv(t.(data := UpdateRegistration(t.data, hash, n, t.now).value))
  {
    NewEntryIsGood(s, n, hash);
    RegistrationWritten(t, n, hash);
    var u, e := t.(data := UpdateRegistration(t.data, hash, n, t.now).value), NewEntry(s, n, hash);
    assert NewEntry(t, n, hash) == e;
    SameEntriesSameIps(t, u);
    SameChallenges(t, u);
    ReadyIsRewritten(s, t, u, n, hash, e);
    RewrittenKeepsInv(s, u, n, e);
  }

  lemma ClaimKeepsInv(s: State, n: string, hash: string)
    requires Inv(s) && IsOwned(n) && RegOf(s, n).None? && IsHash(hash) && KeyOf(s, hash).None?
    ensures UpdateRegistration(s.data, hash, n, s.now).Some?
    ensures Inv(s.(data := UpdateRegistration(s.data, hash, n, s.now).value))
  {
    assert Ready(s, s, n, hash) by {
      assert forall four, r :: LiveIp(s, n, four, r) ==> Outlived(s, n, r);
      assert forall r :: LiveChallenge(s, n, r) ==> Outlived(s, n, r);
    }
    ReadyKeepsInv(s, s, n, hash);
  }

  lemma RegisterKeepsInv(s: State, name: string, verified: bool, hash: string)
    requires Inv(s) && Enabled(s, DoRegister(name, verified, hash))
    ensures Inv(Register(s, name, verified, hash).0)
  {
    var n := Lower(name);
    CurrentIsGet(s.data, Reg(n), s.now);
    if ValidName(name) && RegOf(s, n).None? {
      LoweredName(name);
      ClaimKeepsInv(s, n, hash);
    }
  }

  /** A key that is accepted belongs to the owner of the name it stands for. */
  lemma FoundOwner(s: State, key: Presented)
    requires Inv(s) && IsHash(key.hash) && FindName(s, key).Some?
    ensures var n := FindName(s, key).value; IsOwned(n) && RegOf(s, n).Some? && HashOf(s, n) == key.hash
  {
    CurrentIsGet(s.data, Hash(key.hash), s.now);
  }

  lemma CurrentDrop(m: Contents, keys: set<string>, q: Kind, t: Time)
    ensures Current(m - keys, q, t) == if Key(q) in keys then None else Current(m, q, t)
  {
  }

  lemma SinglesDrop(m: Contents, keys: set<string>)
    requires forall k: Kind :: |EntriesAt(m, Key(k))| <= 1
    ensures forall k: Kind :: |EntriesAt(m - keys, Key(k))| <= 1
  {
  }

  lemma KeyAmong(q: Kind, n: string, reg: bool, hash: string, keys: set<string>)
    requires (hash == "" || IsHash(hash)) && (q.Hash? ==> IsHash(q.hash))
    requires keys == {Key(Ip(n, true)), Key(Ip(n, false))} + (if reg then {Key(Reg(n))} else {})
                     + (if hash == "" then {} else {Key(Hash(hash))})
    ensures Key(q) in keys <==>
              q == Ip(n, true) || q == Ip(n, false) || (reg && q == Reg(n)) || (hash != "" && q == Hash(hash))
  {
    KeyInjective(q, Ip(n, true));
    KeyInjective(q, Ip(n, false));
    KeyInjective(q, Reg(n));
    if hash != "" {
      KeyInjective(q, Hash(hash));
    }
  }

  /** Deleting a name's addresses, and optionally its registration and its digest's key. */
  lemma NameDropped(s: State, n: string, reg: bool, hash: string, keys: set<string>)
    requires Singles(s) && (hash == "" || IsHash(hash))
    requires keys == {Key(Ip(n, true)), Key(Ip(n, false))} + (if reg then {Key(Reg(n))} else {})
                     + (if hash == "" then {} else {Key(Hash(hash))})
    ensures var u := s.(data := s.data - keys);
            && Singles(u)
            && (forall m :: RegOf(u, m) == if reg && m == n then None else RegOf(s, m))
            && (forall g :: IsHash(g) ==> KeyOf(u, g) == if g == hash then None else KeyOf(s, g))
            && (forall m, four, r :: LiveIp(u, m, four, r) <==> m != n && LiveIp(s, m, four, r))
  {
    SinglesDrop(s.data, keys);
    forall q: Kind | q.Hash? ==> IsHash(q.hash)
      ensures Key(q) in keys <==>
                q == Ip(n, true) || q == Ip(n, false) || (reg && q == Reg(n)) || (hash != "" && q == Hash(hash))
    {
      KeyAmong(q, n, reg, hash, keys);
    }
    forall q: Kind
      ensures Current(s.data - keys, q, s.now) == if Key(q) in keys then None else Current(s.data, q, s.now)
    {
      CurrentDrop(s.data, keys, q, s.now);
    }
  }

  lemma ChallengesDropped(s: State, n: string)
    ensures var u := s.(chal := s.chal - {ChallengeKey(n)});
            forall m, r :: LiveChallenge(u, m, r) <==> m != n && LiveChallenge(s, m, r)
  {
    forall m | m != n
      ensures ChallengeKey(m) != ChallengeKey(n)
    {
      PrefixedDiffer(PREFIX, m, n);
    }
  }

  function NameKeys(n: string, hash: string): set<string> {
    {Key(Ip(n, true)), Key(Ip(n, false)), Key(Reg(n))} + (if hash == "" then {} else {Key(Hash(hash))})
  }

  lemma DropNameKeepsInv(s: State, n: string)
    requires Inv(s)
    ensures Inv(State(s.data - NameKeys(n, HashOf(s, n)), s.chal - {ChallengeKey(n)}, s.now))
  {
    var h := HashOf(s, n);
    var keys := NameKeys(n, h);
    var u, t := State(s.data - keys, s.chal - {ChallengeKey(n)}, s.now), s.(data := s.data - keys);
    assert keys == {Key(Ip(n, true)), Key(Ip(n, false))} + {Key(Reg(n))} + (if h == "" then {} else {Key(Hash(h))});
    NameDropped(s, n, true, h, keys);
    ChallengesDropped(s, n);
    SameData(t, u);
    SameChallenges(u, s.(chal := u.chal));
    assert Forgotten(s, u, n);
    ForgottenKeepsInv(s, u, n);
  }

  lemma UnregisterKeepsInv(s: State, key: Presented)
    requires Inv(s) && IsHash(key.hash)
    ensures Inv(Unregister(s, key).0)
  {
    if FindName(s, key).Some? {
      var n := FindName(s, key).value;
      FoundOwner(s, key);
      DropNameKeepsInv(s, n);
      assert {Key(Ip(n, true)), Key(Ip(n, false)), Key(Reg(n)), Key(Hash(key.hash))} == NameKeys(n, key.hash);
    }
  }

  function StrippedOf(s: State, n: string): State {
    var gone := {Key(Ip(n, true)), Key(Ip(n, false))} + (if HashOf(s, n) == "" then {} else {Key(Hash(HashOf(s, n)))});
    s.(data := s.data - gone, chal := s.chal - {ChallengeKey(n)})
  }

  lemma ClearedShape(s: State, n: string)
    requires Inv(s) && RegOf(s, n).Some?
    ensures var t := StrippedOf(s, n);
            && Singles(t)
            && (forall m :: RegOf(t, m) == RegOf(s, m))
            && (forall g :: IsHash(g) ==> KeyOf(t, g) == if g == HashOf(s, n) then None else KeyOf(s, g))
            && (forall m, four, r :: LiveIp(t, m, four, r) <==> m != n && LiveIp(s, m, four, r))
            && (forall m, r :: LiveChallenge(t, m, r) <==> m != n && LiveChallenge(s, m, r))
  {
    var gone := {Key(Ip(n, true)), Key(Ip(n, false))} + (if HashOf(s, n) == "" then {} else {Key(Hash(HashOf(s, n)))});
    NameDropped(s, n, false, HashOf(s, n), gone);
    ChallengesDropped(s, n);
    var t, u := StrippedOf(s, n), s.(data := s.data - gone);
    assert forall m :: RegOf(t, m) == RegOf(u, m);
    assert forall g :: KeyOf(t, g) == KeyOf(u, g);
    assert forall m, four, r :: LiveIp(t, m, four, r) <==> LiveIp(u, m, four, r);
  }

  lemma SuspendKeepsInv(s: State, n: string)
    requires Inv(s) && RegOf(s, n).Some? && n != ""
    ensures Inv(Administer(s, n, true).0)
  {
    CurrentIsGet(s.data, Reg(n), s.now);
    var t := StrippedOf(s, n);
    ClearedShape(s, n);
    assert Ready(s, t, n, "");
    ReadyKeepsInv(s, t, n, "");
    assert Administer(s, n, true).0 == t.(data := UpdateRegistration(t.data, "", n, t.now).value);
  }

  lemma AdminDeleteShape(s: State, n: string)
    requires RegOf(s, n).Some? && n != "" && UnmarshalRegistration(RegOf(s, n).value.value).Some?
    ensures Administer(s, n, false).0 == State(StrippedOf(s, n).data - {Key(Reg(n))}, s.chal - {ChallengeKey(n)}, s.now)
  {
    CurrentIsGet(s.data, Reg(n), s.now);
  }

  lemma StripThenDrop(s: State, n: string)
    ensures StrippedOf(s, n).data - {Key(Reg(n))} == s.data - NameKeys(n, HashOf(s, n))
  {
    var gone := {Key(Ip(n, true)), Key(Ip(n, false))} + (if HashOf(s, n) == "" then {} else {Key(Hash(HashOf(s, n)))});
    assert gone + {Key(Reg(n))} == NameKeys(n, HashOf(s, n));
  }

  lemma AdminDeleteKeepsInv(s: State, n: string)
    requires Inv(s) && RegOf(s, n).Some? && n != ""
    ensures Inv(Administer(s, n, false).0)
  {
    AdminDeleteShape(s, n);
    StripThenDrop(s, n);
    DropNameKeepsInv(s, n);
  }

  lemma AdminKeepsInv(s: State, name: string, suspend: bool)
    requires Inv(s)
    ensures Inv(Administer(s, name, suspend).0)
  {
    CurrentIsGet(s.data, Reg(name), s.now);
    if name != "" && RegOf(s, name).Some? {
      if suspend {
        SuspendKeepsInv(s, name);
      } else {
        AdminDeleteKeepsInv(s, name);
      }
    }
  }

  // ----- Address and challenge updates

  lemma AddressEntry(s: State, n: string, ip: Bytes)
    requires s.now + REGISTRATION_TTL < WRAP && Singles(s)
    ensures var t := s.(data := UpdateIp(s.data, n, ip, s.now));
            && Singles(t)
            && (forall m :: RegOf(t, m) == RegOf(s, m))
            && (forall g :: IsHash(g) ==> KeyOf(t, g) == KeyOf(s, g))
            && (forall m, four, r :: LiveIp(t, m, four, r) ==>
              if m == n && four == To4(ip).Some? then r.expires as int == s.now + ADDRESS_TTL
                else LiveIp(s, m, four, r))
  {
    var k, val := Ip(n, To4(ip).Some?), MarshalAddress(Address(s.now, StoredIp(ip)));
    SinglesPut(s.data, Key(k), val, ADDRESS_TTL, s.now);
    forall q: Kind | q.Hash? ==> IsHash(q.hash)
      ensures q != k ==> Current(Put(s.data, Key(k), val, ADDRESS_TTL, s.now), q, s.now) == Current(s.data, q, s.now)
      ensures q != k ==> EntriesAt(Put(s.data, Key(k), val, ADDRESS_TTL, s.now), Key(q)) == EntriesAt(s.data, Key(q))
    {
      KeyInjective(k, q);
    }
  }

  lemma ChallengeEntry(s: State, n: string, val: Bytes)
    requires s.now + REGISTRATION_TTL < WRAP
    ensures var t := s.(chal := Append(s.chal, ChallengeKey(n), val, CHALLENGE_TTL, s.now));
            forall m, r :: LiveChallenge(t, m, r) ==>
              LiveChallenge(s, m, r) || (m == n && r.expires as int == s.now + CHALLENGE_TTL)
  {
    forall m | m != n
      ensures ChallengeKey(m) != ChallengeKey(n)
    {
      PrefixedDiffer(PREFIX, m, n);
    }
  }

  /** t differs from s only in n's records, which end in time. */
  ghost predicate Extended(s: State, t: State, n: string) {
    && t.now == s.now && Singles(t)
    && (forall m :: RegOf(t, m) == RegOf(s, m))
    && (forall g :: IsHash(g) ==> KeyOf(t, g) == KeyOf(s, g))
    && (forall m, four, r :: LiveIp(t, m, four, r) ==>
      LiveIp(s, m, four, r) || (m == n && r.expires as int <= s.now + REGISTRATION_TTL))
    && (forall m, r :: LiveChallenge(t, m, r) ==>
      LiveChallenge(s, m, r) || (m == n && r.expires as int <= s.now + REGISTRATION_TTL))
  }

  lemma RenewKeepsInv(s: State, t: State, n: string)
    requires Inv(s) && Extended(s, t, n) && RegOf(s, n).Some? && HashOf(s, n) != ""
    ensures UpdateRegistration(t.data, HashOf(s, n), n, t.now).Some?
    ensures Inv(t.(data := UpdateRegistration(t.data, HashOf(s, n), n, t.now).value))
  {
    NewEntryIsGood(s, n, HashOf(s, n));
    assert Ready(s, t, n, HashOf(s, n)) by {
      assert forall four, r :: LiveIp(s, n, four, r) ==> Outlived(s, n, r);
      assert forall r :: LiveChallenge(s, n, r) ==> Outlived(s, n, r);
    }
    ReadyKeepsInv(s, t, n, HashOf(s, n));
  }

  function Touched(s: State, n: string, ip: IpParam, challenge: string): State {
    if ip.GivenIp? then s.(data := UpdateIp(s.data, n, ip.ip, s.now))
    else s.(chal := Append(s.chal, ChallengeKey(n), BytesOf(challenge), CHALLENGE_TTL, s.now))
  }

  lemma TouchedIsExtended(s: State, n: string, ip: IpParam, challenge: string)
    requires Inv(s)
    ensures Extended(s, Touched(s, n, ip, challenge), n)
  {
    var t := Touched(s, n, ip, challenge);
    if ip.GivenIp? {
      AddressEntry(s, n, ip.ip);
      assert forall m, r :: LiveChallenge(t, m, r) <==> LiveChallenge(s, m, r);
    } else {
      ChallengeEntry(s, n, BytesOf(challenge));
      assert forall m :: RegOf(t, m) == RegOf(s, m);
      assert forall g :: KeyOf(t, g) == KeyOf(s, g);
      assert forall m, four, r :: LiveIp(t, m, four, r) <==> LiveIp(s, m, four, r);
    }
  }

  lemma RemoveKeepsInv(s: State, n: string)
    requires Inv(s)
    ensures Inv(s.(data := s.data - {Key(Ip(n, true)), Key(Ip(n, false))}))
  {
    var keys := {Key(Ip(n, true)), Key(Ip(n, false))};
    assert keys == {Key(Ip(n, true)), Key(Ip(n, false))} + {} + {};
    NameDropped(s, n, false, "", keys);
    var u := s.(data := s.data - keys);
    assert forall m, r :: LiveChallenge(u, m, r) <==> LiveChallenge(s, m, r);
    NarrowedKeepsInv(s, u);
  }

  lemma UpdateKeepsInv(s: State, key: Presented, remove: bool, ip: IpParam, challenge: string)
    requires Inv(s) && IsHash(key.hash)
    ensures Inv(Update(s, key, remove, ip, challenge).0)
  {
    if FindName(s, key).Some? {
      var n := FindName(s, key).value;
      FoundOwner(s, key);
      if remove {
        RemoveKeepsInv(s, n);
      } else {
        TouchedIsExtended(s, n, ip, challenge);
        RenewKeepsInv(s, Touched(s, n, ip, challenge), n);
      }
    }
  }

  // ----- Time, pruning and other services

  lemma CurrentLater(m: Contents, k: Kind, now: Time, later: Time)
    requires now <= later && |EntriesAt(m, Key(k))| <= 1
    ensures Current(m, k, later) ==
              if Current(m, k, now).Some? && Current(m, k, now).value.expires > later then Current(m, k, now) else None
  {
  }

  /** u is s later: registrations and keys that have ended are gone, nothing is new. */
  ghost predicate Aged(s: State, u: State) {
    && s.now <= u.now && u.now + REGISTRATION_TTL < WRAP && Singles(u)
    && (forall n :: RegOf(u, n) == if RegOf(s, n).Some? && RegOf(s, n).value.expires > u.now then RegOf(s, n) else None)
    && (forall h :: KeyOf(u, h) == if KeyOf(s, h).Some? && KeyOf(s, h).value.expires > u.now then KeyOf(s, h) else None)
    && (forall m, four, r :: LiveIp(u, m, four, r) ==> LiveIp(s, m, four, r) && r.expires > u.now)
    && (forall m, r :: LiveChallenge(u, m, r) ==> LiveChallenge(s, m, r) && r.expires > u.now)
  }

  lemma AgedKeepsInv(s: State, u: State)
    requires Inv(s) && Aged(s, u)
    ensures Inv(u)
  {
  }

  /** An entry that is read is live. */
  lemma CurrentIsLive(m: Contents, k: Kind, now: Time)
    ensures Current(m, k, now).Some? ==> Current(m, k, now).value.expires > now
  {
    var live := Live(EntriesAt(m, Key(k)), now);
    if live != [] {
      LiveMember(EntriesAt(m, Key(k)), live[0], now);
    }
  }

  lemma TickAges(s: State, to: Time)
    requires Inv(s) && s.now <= to && to + REGISTRATION_TTL < WRAP
    ensures Aged(s, s.(now := to))
  {
    var u := s.(now := to);
    forall n
      ensures RegOf(u, n) == if RegOf(s, n).Some? && RegOf(s, n).value.expires > to then RegOf(s, n) else None
    {
      CurrentLater(s.data, Reg(n), s.now, to);
    }
    forall h
      ensures KeyOf(u, h) == if KeyOf(s, h).Some? && KeyOf(s, h).value.expires > to then KeyOf(s, h) else None
    {
      CurrentLater(s.data, Hash(h), s.now, to);
    }
  }

  lemma TickKeepsInv(s: State, to: Time)
    requires Inv(s) && s.now <= to && to + REGISTRATION_TTL < WRAP
    ensures Inv(s.(now := to))
  {
    TickAges(s, to);
    AgedKeepsInv(s, s.(now := to));
  }

  lemma PrunedEntries(m: Contents, key: string, now: Time)
    ensures Live(EntriesAt(PruneContents(m, now), key), now) == Live(EntriesAt(m, key), now)
    ensures |EntriesAt(PruneContents(m, now), key)| <= |EntriesAt(m, key)|
    ensures forall e :: LiveAt(PruneContents(m, now), key, now, e) <==> LiveAt(m, key, now, e)
  {
    PruneKeepsValues(m, key, now, now);
    forall e
      ensures LiveAt(PruneContents(m, now), key, now, e) <==> LiveAt(m, key, now, e)
    {
      LiveMember(EntriesAt(PruneContents(m, now), key), e, now);
      LiveMember(EntriesAt(m, key), e, now);
    }
  }

  lemma PruneDataKeepsInv(s: State)
    requires Inv(s)
    ensures Inv(s.(data := PruneContents(s.data, s.now)))
  {
    var u := s.(data := PruneContents(s.data, s.now));
    forall key: string
      ensures Live(EntriesAt(u.data, key), s.now) == Live(EntriesAt(s.data, key), s.now)
      ensures |EntriesAt(u.data, key)| <= |EntriesAt(s.data, key)|
      ensures forall e :: LiveAt(u.data, key, s.now, e) <==> LiveAt(s.data, key, s.now, e)
    {
      PrunedEntries(s.data, key, s.now);
    }
    assert forall m :: RegOf(u, m) == RegOf(s, m);
    assert forall g :: KeyOf(u, g) == KeyOf(s, g);
    assert forall m, four, r :: LiveIp(u, m, four, r) <==> LiveIp(s, m, four, r);
    assert forall m, r :: LiveChallenge(u, m, r) <==> LiveChallenge(s, m, r);
    NarrowedKeepsInv(s, u);
  }

  lemma PruneChallengesKeepsInv(s: State)
    requires Inv(s)
    ensures Inv(s.(chal := PruneContents(s.chal, s.now)))
  {
    var u := s.(chal := PruneContents(s.chal, s.now));
    forall m, r
      ensures LiveChallenge(u, m, r) <==> LiveChallenge(s, m, r)
    {
      PrunedEntries(s.chal, ChallengeKey(m), s.now);
    }
    assert forall m :: RegOf(u, m) == RegOf(s, m);
    assert forall g :: KeyOf(u, g) == KeyOf(s, g);
    assert forall m, four, r :: LiveIp(u, m, four, r) <==> LiveIp(s, m, four, r);
    NarrowedKeepsInv(s, u);
  }

  lemma ForeignKeepsInv(s: State, data: Contents, chal: Contents)
    requires Inv(s) && SamePrefixed(s.data, data) && SamePrefixed(s.chal, chal)
    ensures Inv(s.(data := data, chal := chal))
  {
    var u := s.(data := data, chal := chal);
    assert forall k: Kind :: PREFIX <= Key(k);
    assert forall n: string :: PREFIX <= ChallengeKey(n);
    assert forall k: Kind :: EntriesAt(u.data, Key(k)) == EntriesAt(s.data, Key(k));
    assert forall m :: RegOf(u, m) == RegOf(s, m);
    assert forall g :: KeyOf(u, g) == KeyOf(s, g);
    assert forall m, four, r :: LiveIp(u, m, four, r) <==> LiveIp(s, m, four, r);
    assert forall m, r :: LiveChallenge(u, m, r) <==> LiveChallenge(s, m, r);
    NarrowedKeepsInv(s, u);
  }

  // ----- Every run

  lemma StepKeepsInv(s: State, a: Step)
    requires Inv(s) && Enabled(s, a)
    ensures Inv(Next(s, a))
  {
    match a
    case DoRegister(name, verified, hash) => RegisterKeepsInv(s, name, verified, hash);
    case DoUnregister(key) => UnregisterKeepsInv(s, key);
    case DoUpdate(key, remove, ip, challenge) => UpdateKeepsInv(s, key, remove, ip, challenge);
    case DoAdmin(name, suspend) => AdminKeepsInv(s, name, suspend);
    case Tick(to) => TickKeepsInv(s, to);
    case PruneData => PruneDataKeepsInv(s);
    case PruneChallenges => PruneChallengesKeepsInv(s);
    case Foreign(data, chal) => ForeignKeepsInv(s, data, chal);
  }

  lemma {:induction false} RunKeepsInv(s: State, steps: seq<Step>)
    requires Inv(s) && IsRun(s, steps)
    ensures Inv(After(s, steps))
    decreases |steps|
  {
    if steps == [] {
    } else {
      StepKeepsInv(s, steps[0]);
      RunKeepsInv(Next(s, steps[0]), steps[1..]);
    }
  }

  function Initial(now: Time): State {
    State(map[], map[], now)
  }

  /** In every state a run reaches: a live key entry for digest h names a name whose live
      registration has digest h and the same expiry; a name has at most one live key; a
      suspended name has none. */
  lemma OwnershipHolds(start: Time, steps: seq<Step>)
    requires start + REGISTRATION_TTL < WRAP && IsRun(Initial(start), steps)
    ensures var s := After(Initial(start), steps);
            && (forall h :: IsHash(h) && KeyOf(s, h).Some? ==>
                  var n := StringOf(KeyOf(s, h).value.value);
                  && RegOf(s, n).Some? && Record(RegOf(s, n).value).hash == h
                  && RegOf(s, n).value.expires == KeyOf(s, h).value.expires)
            && (forall g, h :: IsHash(g) && IsHash(h) && KeyOf(s, g).Some? && KeyOf(s, h).Some? ==>
                  KeyOf(s, g).value.value == KeyOf(s, h).value.value ==> g == h)
            && (forall n, h :: IsHash(h) && KeyOf(s, h).Some? && RegOf(s, n).Some? ==>
                  Record(RegOf(s, n).value).hash == "" ==> StringOf(KeyOf(s, h).value.value) != n)
  {
    RunKeepsInv(Initial(start), steps);
  }

  /** A registered name cannot be claimed, whatever the letter case. */
  lemma RegisteredNameIsTaken(s: State, name: string, hash: string)
    requires ValidName(name)
    ensures Register(s, name, true, hash) == (s, Conflict) <==> RegOf(s, Lower(name)).Some?
  {
    CurrentIsGet(s.data, Reg(Lower(name)), s.now);
  }

  /** In every state a run reaches, each live address and challenge belongs to a name with a
      live registration that expires no earlier. */
  lemma NoRecordOutlivesRegistration(start: Time, steps: seq<Step>)
    requires start + REGISTRATION_TTL < WRAP && IsRun(Initial(start), steps)
    ensures var s := After(Initial(start), steps);
            && (forall n, four, e :: LiveIp(s, n, four, e) ==>
              RegOf(s, n).Some? && e.expires <= RegOf(s, n).value.expires)
            && (forall n, e :: LiveChallenge(s, n, e) ==> RegOf(s, n).Some? && e.expires <= RegOf(s, n).value.expires)
  {
    RunKeepsInv(Initial(start), steps);
  }

  lemma {:induction false} RunPrefix(s: State, steps: seq<Step>, a: Step)
    requires IsRun(s, steps + [a])
    ensures IsRun(s, steps) && Enabled(After(s, steps), a)
    decreases |steps|
  {
    if steps == [] {
    } else {
      assert (steps + [a])[1..] == steps[1..] + [a];
      RunPrefix(Next(s, steps[0]), steps[1..], a);
    }
  }

  lemma ClaimInheritsNothing(s: State, name: string, hash: string)
    requires Inv(s) && Enabled(s, DoRegister(name, true, hash))
    ensures var (u, reply) := Register(s, name, true, hash);
            reply == Accepted ==>
              (forall four, e :: !LiveIp(u, Lower(name), four, e)) && (forall e :: !LiveChallenge(u, Lower(name), e))
  {
    var n := Lower(name);
    var (u, reply) := Register(s, name, true, hash);
    CurrentIsGet(s.data, Reg(n), s.now);
    if reply == Accepted {
      RegistrationWritten(s, n, hash);
      assert forall four, e :: LiveIp(u, n, four, e) ==> LiveIp(s, n, four, e);
      assert forall e :: LiveChallenge(u, n, e) ==> LiveChallenge(s, n, e);
    }
  }

  /** A successful registration starts with no address and no challenge. */
  lemma NewOwnerInheritsNothing(start: Time, steps: seq<Step>, name: string, hash: string)
    requires start + REGISTRATION_TTL < WRAP && IsRun(Initial(start), steps + [DoRegister(name, true, hash)])
    ensures var s := After(Initial(start), steps);
            var (u, reply) := Register(s, name, true, hash);
            reply == Accepted ==>
              (forall four, e :: !LiveIp(u, Lower(name), four, e)) && (forall e :: !LiveChallenge(u, Lower(name), e))
  {
    RunPrefix(Initial(start), steps, DoRegister(name, true, hash));
    RunKeepsInv(Initial(start), steps);
    ClaimInheritsNothing(After(Initial(start), steps), name, hash);
  }
}
