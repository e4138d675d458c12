/** How a name's registration changes, step by step: which steps write it, that its owner
    keeps it along a run, and when the reported expiry is the store's. */
module MyaddrHistory {
  import opened Text
  import opened Bytes
  import opened Clock
  import opened TtlStore
  import opened AsciiCase
  import opened MyaddrRecords
  import opened Myaddr
  import opened MyaddrOwnership

  // ----- What a step does to a registration

  predicate Claims(s: State, a: Step, n: string) {
    a.DoRegister? && Register(s, a.name, a.verified, a.hash).1 == Accepted && Lower(a.name) == n
  }

  /** An accepted update or suspend of n: the registration is written anew. */
  predicate Renews(s: State, a: Step, n: string) {
    match a
    case DoUpdate(key, remove, ip, challenge) =>
      Update(s, key, remove, ip, challenge).1 == Accepted && !remove && FindName(s, key) == Some(n)
    case DoAdmin(name, suspend) => suspend && name == n && RegOf(s, n).Some?
    case _ => false
  }

  /** An accepted delete of n, by its owner or an administrator. */
  predicate Drops(s: State, a: Step, n: string) {
    match a
    case DoUnregister(key) => FindName(s, key) == Some(n)
    case DoAdmin(name, suspend) => !suspend && name == n && RegOf(s, n).Some?
    case _ => false
  }

  function RenewedHash(a: Step): string {
    if a.DoUpdate? then a.key.hash else ""
  }

  /** What is left of an entry at a later reading. */
  function StillLive(e: Option<Entry>, now: Time): Option<Entry> {
    if e.Some? && e.value.expires > now then e else None
  }

  function ClockAfter(s: State, a: Step): Time {
    if a.Tick? then a.to else s.now
  }

  function Fate(s: State, a: Step, n: string): Option<Entry> {
    if Claims(s, a, n) then Some(NewEntry(s, n, a.hash))
    else if Renews(s, a, n) then Some(NewEntry(s, n, RenewedHash(a)))
    else if Drops(s, a, n) then None
    else StillLive(RegOf(s, n), ClockAfter(s, a))
  }

  lemma LiveNow(s: State, n: string)
    ensures StillLive(RegOf(s, n), s.now) == RegOf(s, n)
  {
    CurrentIsLive(s.data, Reg(n), s.now);
  }

  lemma RegisterFate(s: State, name: string, verified: bool, hash: string, n: string)
    requires Inv(s) && Enabled(s, DoRegister(name, verified, hash))
    ensures var claimed := Register(s, name, verified, hash).1 == Accepted && Lower(name) == n;
            && RegOf(Register(s, name, verified, hash).0, n) ==
               (if claimed then Some(NewEntry(s, n, hash)) else RegOf(s, n))
            && (claimed ==> RegOf(s, n).None?)
  {
    var m := Lower(name);
    CurrentIsGet(s.data, Reg(m), s.now);
    if Register(s, name, verified, hash).1 == Accepted {
      RegistrationWritten(s, m, hash);
    }
  }

  lemma DropFate(s: State, m: string, hash: string, n: string)
    requires Inv(s) && hash == HashOf(s, m)
    ensures RegOf(s.(data := s.data - NameKeys(m, hash)), n) == if n == m then None else RegOf(s, n)
  {
    var keys := NameKeys(m, hash);
    assert keys == {Key(Ip(m, true)), Key(Ip(m, false))} + {Key(Reg(m))}
                   + (if hash == "" then {} else {Key(Hash(hash))});
    NameDropped(s, m, true, hash, keys);
  }

  lemma ForgottenData(s: State, m: string, hash: string)
    requires hash != ""
    ensures Forget(s, m, hash).data == s.data - NameKeys(m, hash) && Forget(s, m, hash).now == s.now
  {
    assert {Key(Ip(m, true)), Key(Ip(m, false)), Key(Reg(m)), Key(Hash(hash))} == NameKeys(m, hash);
  }

  lemma ForgetFate(s: State, m: string, hash: string, n: string)
    requires Inv(s) && hash == HashOf(s, m) != ""
    ensures RegOf(Forget(s, m, hash), n) == if n == m then None else RegOf(s, n)
  {
    ForgottenData(s, m, hash);
    DropFate(s, m, hash, n);
  }

  lemma OutcomeOfUnregister(s: State, key: Presented, u: State, n: string)
    requires Inv(s) && IsHash(key.hash)
    requires u == if FindName(s, key).Some? then Forget(s, FindName(s, key).value, key.hash) else s
    ensures RegOf(u, n) == if FindName(s, key) == Some(n) then None else RegOf(s, n)
  {
    if FindName(s, key).Some? {
      FoundOwner(s, key);
      ForgetFate(s, FindName(s, key).value, key.hash, n);
    }
  }

  lemma UnregisterFate(s: State, key: Presented, n: string)
    requires Inv(s) && IsHash(key.hash)
    ensures RegOf(Unregister(s, key).0, n) == if FindName(s, key) == Some(n) then None else RegOf(s, n)
  {
    OutcomeOfUnregister(s, key, Unregister(s, key).0, n);
  }

  /** Writing m's registration in a state that has the same registrations as s. */
  lemma WriteFate(s: State, t: State, m: string, hash: string, n: string)
    requires Inv(s) && t.now == s.now && Singles(t) && (hash == "" || IsHash(hash))
    requires forall k :: RegOf(t, k) == RegOf(s, k)
    ensures UpdateRegistration(t.data, hash, m, t.now).Some?
    ensures RegOf(t.(data := UpdateRegistration(t.data, hash, m, t.now).value), n) ==
              if n == m then Some(NewEntry(s, m, hash)) else RegOf(s, n)
  {
    RegistrationWritten(t, m, hash);
    assert NewEntry(t, m, hash) == NewEntry(s, m, hash);
  }

  lemma RemoveFate(s: State, m: string, n: string)
    requires Inv(s)
    ensures RegOf(s.(data := s.data - {Key(Ip(m, true)), Key(Ip(m, false))}), n) == RegOf(s, n)
  {
    var keys := {Key(Ip(m, true)), Key(Ip(m, false))};
    assert keys == {Key(Ip(m, true)), Key(Ip(m, false))} + {} + {};
    NameDropped(s, m, false, "", keys);
  }

  function AcceptedUpdate(s: State, m: string, hash: string, remove: bool, ip: IpParam, challenge: string): State {
    if remove then s.(data := s.data - {Key(Ip(m, true)), Key(Ip(m, false))})
    else
      var t := Touched(s, m, ip, challenge);
      match UpdateRegistration(t.data, hash, m, s.now)
      case None => t
      case Some(d) => t.(data := d)
  }

  /** u is what an update request makes of s, with this reply. */
  predicate IsOutcome(s: State, key: Presented, remove: bool, ip: IpParam, challenge: string, u: State, reply: Reply) {
    if reply == Accepted then
      FindName(s, key).Some? && u == AcceptedUpdate(s, FindName(s, key).value, key.hash, remove, ip, challenge)
    else u == s
  }

  /** An update request changes nothing, removes both addresses, or writes and renews. */
  lemma UpdateShapes(s: State, key: Presented, remove: bool, ip: IpParam, challenge: string)
    requires Inv(s) && IsHash(key.hash)
    ensures IsOutcome(s, key, remove, ip, challenge, Update(s, key, remove, ip, challenge).0,
              Update(s, key, remove, ip, challenge).1)
  {
    if FindName(s, key).Some? {
      FoundOwner(s, key);
      TouchedIsExtended(s, FindName(s, key).value, ip, challenge);
      RenewKeepsInv(s, Touched(s, FindName(s, key).value, ip, challenge), FindName(s, key).value);
    }
  }

  lemma AcceptedUpdateFate(s: State, m: string, hash: string, remove: bool, ip: IpParam, challenge: string, n: string)
    requires Inv(s) && IsHash(hash)
    ensures RegOf(AcceptedUpdate(s, m, hash, remove, ip, challenge), n) ==
              if !remove && n == m then Some(NewEntry(s, n, hash)) else RegOf(s, n)
  {
    if remove {
      RemoveFate(s, m, n);
    } else {
      TouchedIsExtended(s, m, ip, challenge);
      WriteFate(s, Touched(s, m, ip, challenge), m, hash, n);
    }
  }

  lemma OutcomeFate(s: State, key: Presented, remove: bool, ip: IpParam, challenge: string, u: State, reply: Reply,
          n: string)
    requires Inv(s) && IsHash(key.hash) && IsOutcome(s, key, remove, ip, challenge, u, reply)
    ensures var renewed := reply == Accepted && !remove && FindName(s, key) == Some(n);
            && RegOf(u, n) == (if renewed then Some(NewEntry(s, n, key.hash)) else RegOf(s, n))
            && (renewed ==> RegOf(s, n).Some? && HashOf(s, n) == key.hash)
  {
    if reply == Accepted {
      FoundOwner(s, key);
      AcceptedUpdateFate(s, FindName(s, key).value, key.hash, remove, ip, challenge, n);
    }
  }

  lemma UpdateFate(s: State, key: Presented, remove: bool, ip: IpParam, challenge: string, n: string)
    requires Inv(s) && IsHash(key.hash)
    ensures var renewed := Update(s, key, remove, ip, challenge).1 == Accepted && !remove
              && FindName(s, key) == Some(n);
            && RegOf(Update(s, key, remove, ip, challenge).0, n) ==
               (if renewed then Some(NewEntry(s, n, key.hash)) else RegOf(s, n))
            && (renewed ==> RegOf(s, n).Some? && HashOf(s, n) == key.hash)
  {
    UpdateShapes(s, key, remove, ip, challenge);
    OutcomeFate(s, key, remove, ip, challenge, Update(s, key, remove, ip, challenge).0,
      Update(s, key, remove, ip, challenge).1, n);
  }

  lemma SuspendFate(s: State, m: string, n: string)
    requires Inv(s) && m != "" && RegOf(s, m).Some?
    ensures Administer(s, m, true).1 == Accepted
    ensures RegOf(Administer(s, m, true).0, n) == if n == m then Some(NewEntry(s, n, "")) else RegOf(s, n)
  {
    CurrentIsGet(s.data, Reg(m), s.now);
    ClearedShape(s, m);
    WriteFate(s, StrippedOf(s, m), m, "", n);
  }

  lemma DeleteFate(s: State, m: string, n: string)
    requires Inv(s) && m != "" && RegOf(s, m).Some?
    ensures Administer(s, m, false).1 == Accepted
    ensures RegOf(Administer(s, m, false).0, n) == if n == m then None else RegOf(s, n)
  {
    CurrentIsGet(s.data, Reg(m), s.now);
    AdminDeleteShape(s, m);
    StripThenDrop(s, m);
    DropFate(s, m, HashOf(s, m), n);
  }

  lemma AdminFate(s: State, name: string, suspend: bool, n: string)
    requires Inv(s)
    ensures RegOf(Administer(s, name, suspend).0, n) ==
            if name != n || RegOf(s, n).None? then RegOf(s, n) else if suspend then Some(NewEntry(s, n, "")) else None
    ensures Administer(s, name, suspend).1 == Accepted <==> RegOf(s, name).Some?
  {
    CurrentIsGet(s.data, Reg(name), s.now);
    if RegOf(s, name).Some? {
      if suspend {
        SuspendFate(s, name, n);
      } else {
        DeleteFate(s, name, n);
      }
    }
  }

  lemma OtherFate(s: State, a: Step, n: string)
    requires Inv(s) && Enabled(s, a) && (a.Tick? || a.PruneData? || a.PruneChallenges? || a.Foreign?)
    ensures RegOf(Next(s, a), n) == StillLive(RegOf(s, n), ClockAfter(s, a))
  {
    LiveNow(s, n);
    match a
    case Tick(to) => CurrentLater(s.data, Reg(n), s.now, to);
    case PruneData => PrunedEntries(s.data, Key(Reg(n)), s.now);
    case PruneChallenges =>
    case Foreign(data, chal) =>
      assert PREFIX <= Key(Reg(n));
  }

  /** A registration changes exactly when its name is claimed, renewed or dropped, or its time ends. */
  lemma StepFate(s: State, a: Step, n: string)
    requires Inv(s) && Enabled(s, a)
    ensures RegOf(Next(s, a), n) == Fate(s, a, n)
    ensures Claims(s, a, n) ==> RegOf(s, n).None?
    ensures Renews(s, a, n) ==> RegOf(s, n).Some? && (a.DoUpdate? ==> HashOf(s, n) == a.key.hash)
  {
    LiveNow(s, n);
    match a
    case DoRegister(name, verified, hash) => RegisterFate(s, name, verified, hash, n);
    case DoUnregister(key) => UnregisterFate(s, key, n);
    case DoUpdate(key, remove, ip, challenge) => UpdateFate(s, key, remove, ip, challenge, n);
    case DoAdmin(name, suspend) => AdminFate(s, name, suspend, n);
    case _ => OtherFate(s, a, n);
  }

  lemma ClockStep(s: State, a: Step)
    ensures Next(s, a).now == ClockAfter(s, a)
  {
  }

  lemma {:induction false} ClockRuns(s: State, steps: seq<Step>)
    requires IsRun(s, steps)
    ensures s.now <= After(s, steps).now
    decreases |steps|
  {
    if steps == [] {
    } else {
      ClockRuns(Next(s, steps[0]), steps[1..]);
    }
  }

  // ----- A name keeps its owner

  /** Neither the owner of the key with digest h nor an administrator touches n. */
  predicate LeavesOwner(steps: seq<Step>, n: string, h: string) {
    forall i :: 0 <= i < |steps| ==>
      !(steps[i].DoUnregister? && steps[i].key.hash == h) && !(steps[i].DoAdmin? && steps[i].name == n)
  }

  lemma OwnerStep(s: State, a: Step, n: string, h: string)
    requires Inv(s) && Enabled(s, a) && IsHash(h) && RegOf(s, n).Some? && HashOf(s, n) == h
    requires LeavesOwner([a], n, h) && Next(s, a).now < RegOf(s, n).value.expires
    ensures RegOf(Next(s, a), n).Some? && HashOf(Next(s, a), n) == h
    ensures RegOf(s, n).value.expires <= RegOf(Next(s, a), n).value.expires
  {
    StepFate(s, a, n);
    ClockStep(s, a);
    assert [a][0] == a;
    if Renews(s, a, n) {
      NewEntryIsGood(s, n, h);
    } else if a.DoUnregister? && FindName(s, a.key) == Some(n) {
      FoundOwner(s, a.key);
    }
  }

  lemma {:induction false} OwnerRun(s: State, steps: seq<Step>, n: string, h: string)
    requires Inv(s) && IsRun(s, steps) && IsHash(h) && RegOf(s, n).Some? && HashOf(s, n) == h
    requires LeavesOwner(steps, n, h) && After(s, steps).now < RegOf(s, n).value.expires
    ensures Inv(After(s, steps))
    ensures RegOf(After(s, steps), n).Some? && HashOf(After(s, steps), n) == h
    decreases |steps|
  {
    if steps == [] {
    } else {
      ClockRuns(Next(s, steps[0]), steps[1..]);
      assert LeavesOwner([steps[0]], n, h);
      OwnerStep(s, steps[0], n, h);
      StepKeepsInv(s, steps[0]);
      OwnerRun(Next(s, steps[0]), steps[1..], n, h);
    }
  }

  /** From any reachable state in which n belongs to the key with digest h: as long as that
      key does not delete it, no administrator touches it and its time has not come, whatever
      else is requested, the key still opens n, and every claim of n is refused. */
  lemma OwnershipPersists(start: Time, before: seq<Step>, steps: seq<Step>, n: string, h: string, name: string,
          hash: string)
    requires start + REGISTRATION_TTL < WRAP && IsRun(Initial(start), before) && IsHash(h)
    requires var s := After(Initial(start), before);
             && RegOf(s, n).Some? && HashOf(s, n) == h && IsRun(s, steps)
             && LeavesOwner(steps, n, h) && After(s, steps).now < RegOf(s, n).value.expires
    requires ValidName(name) && Lower(name) == n
    ensures var t := After(After(Initial(start), before), steps);
            && HashOf(t, n) == h && FindName(t, Presented(64, h)) == Some(n)
            && Register(t, name, true, hash) == (t, Conflict)
  {
    RunKeepsInv(Initial(start), before);
    var s := After(Initial(start), before);
    var t := After(s, steps);
    OwnerRun(s, steps, n, h);
    CurrentIsGet(t.data, Hash(h), t.now);
    OwnedIsByteString(n);
    StringRoundTrip(n);
    RegisteredNameIsTaken(t, name, hash);
  }

  // ----- The reported expiry

  /** Whether the last write of n's registration was a renewal at the reading of its creation. */
  function EarlyStep(s: State, a: Step, n: string, was: bool): bool {
    if Claims(s, a, n) then false
    else if Renews(s, a, n) then RegOf(s, n).Some? && s.now == Record(RegOf(s, n).value).created
    else was
  }

  function RenewedEarly(s: State, steps: seq<Step>, n: string, was: bool): bool
    decreases |steps|
  {
    if steps == [] then was else RenewedEarly(Next(s, steps[0]), steps[1..], n, EarlyStep(s, steps[0], n, was))
  }

  /** What is reported of n: the store's expiry, or after an early renewal 120 days less an hour before it. */
  predicate Told(s: State, n: string, early: bool) {
    RegOf(s, n).Some? ==>
      Expires(Record(RegOf(s, n).value)) as int ==
        RegOf(s, n).value.expires - (if early then REGISTRATION_TTL - PENDING_TTL else 0)
  }

  lemma ExpiresValue(r: Registration)
    requires r.updated + REGISTRATION_TTL < WRAP
    ensures Expires(r) as int == r.updated + (if r.created == r.updated then PENDING_TTL else REGISTRATION_TTL)
  {
  }

  lemma NewEntryTold(s: State, n: string, hash: string)
    requires Inv(s) && (hash == "" || IsHash(hash))
    ensures var e := NewEntry(s, n, hash);
            Expires(Record(e)) as int ==
            e.expires
            - (if RegOf(s, n).Some? && s.now == Record(RegOf(s, n).value).created then REGISTRATION_TTL - PENDING_TTL
               else 0)
  {
    NewEntryIsGood(s, n, hash);
    NewExpiry(s, n, hash);
    ExpiresValue(NewRecord(s, n, hash));
  }

  lemma ToldAfter(s: State, t: State, n: string, hash: string, written: bool, was: bool)
    requires Inv(s) && Told(s, n, was) && (hash == "" || IsHash(hash))
    requires if written then RegOf(t, n) == Some(NewEntry(s, n, hash))
               else RegOf(t, n).None? || RegOf(t, n) == RegOf(s, n)
    ensures Told(t, n, if written then RegOf(s, n).Some? && s.now == Record(RegOf(s, n).value).created else was)
  {
    NewEntryTold(s, n, hash);
  }

  lemma ToldStep(s: State, a: Step, n: string, was: bool)
    requires Inv(s) && Enabled(s, a) && Told(s, n, was)
    ensures Told(Next(s, a), n, EarlyStep(s, a, n, was))
  {
    StepFate(s, a, n);
    if Claims(s, a, n) {
      ToldAfter(s, Next(s, a), n, a.hash, true, was);
    } else if Renews(s, a, n) {
      ToldAfter(s, Next(s, a), n, RenewedHash(a), true, was);
    } else {
      ToldAfter(s, Next(s, a), n, "", false, was);
    }
  }

  lemma {:induction false} ToldRun(s: State, steps: seq<Step>, n: string, was: bool)
    requires Inv(s) && IsRun(s, steps) && Told(s, n, was)
    ensures Told(After(s, steps), n, RenewedEarly(s, steps, n, was))
    decreases |steps|
  {
    if steps == [] {
    } else {
      ToldStep(s, steps[0], n, was);
      StepKeepsInv(s, steps[0]);
      ToldRun(Next(s, steps[0]), steps[1..], n, EarlyStep(s, steps[0], n, was));
    }
  }

  /** In every state a run reaches, the reported expiry of a live registration is never later
      than the store's, and equals it if and only if the last write of the registration was
      not an update or a suspend made at the clock reading of its creation. */
  lemma ReportedExpiryIsSafe(start: Time, steps: seq<Step>, n: string)
    requires start + REGISTRATION_TTL < WRAP && IsRun(Initial(start), steps)
    ensures var s := After(Initial(start), steps);
            RegOf(s, n).Some? ==>
              var e := RegOf(s, n).value;
              && Expires(Record(e)) <= e.expires
              && (Expires(Record(e)) == e.expires <==> !RenewedEarly(Initial(start), steps, n, false))
              && (Expires(Record(e)) != e.expires ==>
                Expires(Record(e)) + REGISTRATION_TTL - PENDING_TTL == e.expires as int)
  {
    ToldRun(Initial(start), steps, n, false);
  }

  /** For one renewal: the report is right afterwards exactly when the clock has moved since
      the creation. */
  lemma RenewalReport(s: State, a: Step, n: string)
    requires Inv(s) && Enabled(s, a) && Renews(s, a, n)
    ensures RegOf(s, n).Some? && RegOf(Next(s, a), n).Some?
    ensures var e := RegOf(Next(s, a), n).value;
            Expires(Record(e)) == e.expires <==> s.now != Record(RegOf(s, n).value).created
  {
    StepFate(s, a, n);
    NewEntryTold(s, n, RenewedHash(a));
  }

  /** The registration and key entries a claim writes. */
  lemma ClaimWrites(s: State, name: string, hash: string)
    requires Inv(s) && Enabled(s, DoRegister(name, true, hash)) && ValidName(name) && RegOf(s, Lower(name)).None?
    ensures var (u, reply) := Register(s, name, true, hash);
            && reply == Accepted && Inv(u) && u.now == s.now
            && FindName(u, Presented(64, hash)) == Some(Lower(name))
  {
    var n := Lower(name);
    var (u, reply) := Register(s, name, true, hash);
    CurrentIsGet(s.data, Reg(n), s.now);
    LoweredName(name);
    RegistrationWritten(s, n, hash);
    RegisterKeepsInv(s, name, true, hash);
    CurrentIsGet(u.data, Hash(hash), u.now);
    OwnedIsByteString(n);
    StringRoundTrip(n);
  }

  lemma RunOfOne(s: State, a: Step)
    ensures (IsRun(s, [a]) <==> Enabled(s, a)) && After(s, [a]) == Next(s, a)
  {
    var none: seq<Step> := [];
    assert [a][1..] == none;
    assert IsRun(Next(s, a), none) && After(Next(s, a), none) == Next(s, a);
  }

  lemma RunOfTwo(s: State, a: Step, b: Step)
    ensures IsRun(s, [a, b]) <==> Enabled(s, a) && Enabled(Next(s, a), b)
    ensures After(s, [a, b]) == Next(Next(s, a), b)
  {
    assert [a, b][1..] == [b];
    RunOfOne(Next(s, a), b);
  }

  lemma EarlyRenewal(s: State, u: State, n: string, hash: string)
    requires Inv(s) && Inv(u) && u.now == s.now && IsHash(hash)
    requires RegOf(s, n).None? && RegOf(u, n) == Some(NewEntry(s, n, hash))
    ensures var e := NewEntry(u, n, hash);
            e.expires as int == s.now + REGISTRATION_TTL && Expires(Record(e)) as int == s.now + PENDING_TTL
  {
    NewEntryIsGood(s, n, hash);
    NewEntryTold(u, n, hash);
    NewExpiry(u, n, hash);
  }

  /** A registration's owner may give it an address at once. */
  lemma OwnerMayUpdate(u: State, key: Presented, n: string, ip: Bytes)
    requires Inv(u) && IsHash(key.hash) && key.length == 64 && FindName(u, key) == Some(n)
    ensures Update(u, key, false, GivenIp(ip), "").1 == Accepted
  {
    FoundOwner(u, key);
    TouchedIsExtended(u, n, GivenIp(ip), "");
    RenewKeepsInv(u, Touched(u, n, GivenIp(ip), ""), n);
  }

  /** Claimed and given an address at one clock reading, in any reachable state: the report
      is then 120 days less an hour ahead of the store. */
  lemma EarlyUpdate(s: State, name: string, hash: string, ip: Bytes)
    requires Inv(s) && Enabled(s, DoRegister(name, true, hash)) && ValidName(name) && RegOf(s, Lower(name)).None?
    ensures var u := Register(s, name, true, hash).0;
            var t := Update(u, Presented(64, hash), false, GivenIp(ip), "").0;
            && RegOf(t, Lower(name)).Some?
            && var e := RegOf(t, Lower(name)).value;
            && e.expires as int == s.now + REGISTRATION_TTL
            && Expires(Record(e)) as int == s.now + PENDING_TTL
  {
    var n, u := Lower(name), Register(s, name, true, hash).0;
    ClaimWrites(s, name, hash);
    RegisterFate(s, name, true, hash, n);
    OwnerMayUpdate(u, Presented(64, hash), n, ip);
    UpdateFate(u, Presented(64, hash), false, GivenIp(ip), "", n);
    EarlyRenewal(s, u, n, hash);
  }

  lemma FirstClaim(start: Time, name: string, hash: string, ip: Bytes)
    requires start + REGISTRATION_TTL < WRAP && IsHash(hash) && ValidName(name)
    ensures var s := Initial(start);
            var t := Update(Register(s, name, true, hash).0, Presented(64, hash), false, GivenIp(ip), "").0;
            && Enabled(s, DoRegister(name, true, hash)) && RegOf(t, Lower(name)).Some?
            && var e := RegOf(t, Lower(name)).value;
            && e.expires as int == start + REGISTRATION_TTL && Expires(Record(e)) as int == start + PENDING_TTL
  {
    EarlyUpdate(Initial(start), name, hash, ip);
  }

  lemma ExampleName()
    ensures ValidName("example") && Lower("example") == "example"
  {
  }

  /** The name "example", claimed and given 192.0.2.1 at reading 1000: the report is 4600,
      the store keeps the registration until 10369000. */
  lemma EarlyUpdateExample(hash: string)
    requires hash == Zeros(64)
    ensures var steps := [DoRegister("example", true, hash),
              DoUpdate(Presented(64, hash), false, GivenIp([192, 0, 2, 1]), "")];
            && IsRun(Initial(1000), steps)
            && RegOf(After(Initial(1000), steps), "example").Some?
            && var e := RegOf(After(Initial(1000), steps), "example").value;
               Expires(Record(e)) == 4600 && e.expires == 10369000
  {
    RunOfTwo(Initial(1000), DoRegister("example", true, hash),
      DoUpdate(Presented(64, hash), false, GivenIp([192, 0, 2, 1]), ""));
    ExampleName();
    FirstClaim(1000, "example", hash, [192, 0, 2, 1]);
  }
}
