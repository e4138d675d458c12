/** Exactly when each myaddr request is accepted, what it leaves behind, and which dates a
    text query lists: stated on what the stores hold, for every state a run can reach. */
module MyaddrRequests {
  import opened Text
  import opened Bytes
  import opened Clock
  import opened TtlStore
  import opened AsciiCase
  import opened MyaddrRecords
  import opened Myaddr
  import opened MyaddrOwnership
  import opened MyaddrHistory
  import opened MyaddrResolve
  import opened MyaddrTxt

  /** A claim is accepted exactly for a valid name, with a verified challenge, that has no live
      registration; it then lasts an hour. */
  lemma ClaimExactly(s: State, name: string, verified: bool, hash: string)
    requires Inv(s) && Enabled(s, DoRegister(name, verified, hash))
    ensures var (u, reply) := Register(s, name, verified, hash);
            var taken := RegOf(s, Lower(name)).Some?;
            && (reply == Accepted <==> ValidName(name) && verified && !taken)
            && (reply == Conflict <==> ValidName(name) && verified && taken)
            && (reply == BadRequest <==> !ValidName(name) || !verified)
            && (reply == Accepted ==>
              && RegOf(u, Lower(name)).Some? && RegOf(u, Lower(name)).value.expires as int == s.now + 3600
              && Record(RegOf(u, Lower(name)).value) == Registration(s.now, s.now, hash))
            && (reply != Accepted ==> u == s)
  {
    var n := Lower(name);
    CurrentIsGet(s.data, Reg(n), s.now);
    RegisterFate(s, name, verified, hash, n);
    if ValidName(name) && RegOf(s, n).None? {
      RegistrationWritten(s, n, hash);
      NewEntryIsGood(s, n, hash);
      NewExpiry(s, n, hash);
    }
  }

  /** A presented key opens exactly the name whose live registration has its digest. */
  lemma KeyOpensExactly(s: State, key: Presented, n: string)
    requires Inv(s) && IsHash(key.hash)
    ensures FindName(s, key) == Some(n) <==> key.length == 64 && HashOf(s, n) == key.hash
  {
    CurrentIsGet(s.data, Hash(key.hash), s.now);
    if FindName(s, key).Some? {
      FoundOwner(s, key);
    }
    if HashOf(s, n) == key.hash {
      OwnedIsByteString(n);
      StringRoundTrip(n);
      if FindName(s, key).Some? {
        DigestOwner(s, n, FindName(s, key).value);
      }
    }
  }

  /** What an update request asks for. */
  predicate IsRemoval(remove: bool, ip: IpParam, challenge: string) {
    remove && ip == NoIp && challenge == ""
  }

  predicate IsAddressUpdate(remove: bool, ip: IpParam, challenge: string) {
    !remove && ip.GivenIp? && challenge == ""
  }

  predicate IsChallengeUpdate(remove: bool, ip: IpParam, challenge: string) {
    !remove && ip == NoIp && ValidChallenge(challenge)
  }

  /** An update is accepted exactly when its key opens a name and it asks for one of the three
      things; any other is a bad request that changes nothing. */
  lemma UpdateExactly(s: State, key: Presented, remove: bool, ip: IpParam, challenge: string)
    requires Inv(s) && IsHash(key.hash)
    ensures var (u, reply) := Update(s, key, remove, ip, challenge);
            && (reply == Accepted <==>
              && key.length == 64 && (exists n :: HashOf(s, n) == key.hash)
              && (IsRemoval(remove, ip, challenge) || IsAddressUpdate(remove, ip, challenge)
                  || IsChallengeUpdate(remove, ip, challenge)))
            && (reply != Accepted ==> reply == BadRequest && u == s)
  {
    if FindName(s, key).Some? {
      var n := FindName(s, key).value;
      KeyOpensExactly(s, key, n);
      TouchedIsExtended(s, n, ip, challenge);
      RenewKeepsInv(s, Touched(s, n, ip, challenge), n);
    } else {
      forall n
        ensures !(key.length == 64 && HashOf(s, n) == key.hash)
      {
        KeyOpensExactly(s, key, n);
      }
    }
  }

  /** An address or challenge update renews the registration for 120 days and keeps its
      creation and its key. */
  lemma UpdateRenews(s: State, key: Presented, ip: IpParam, challenge: string, n: string)
    requires Inv(s) && IsHash(key.hash) && FindName(s, key) == Some(n)
    requires Update(s, key, false, ip, challenge).1 == Accepted
    ensures var u := Update(s, key, false, ip, challenge).0;
            && RegOf(s, n).Some? && RegOf(u, n).Some?
            && RegOf(u, n).value.expires as int == s.now + 120 * 86400
            && Record(RegOf(u, n).value) ==
               Registration(Record(RegOf(s, n).value).created, s.now, Record(RegOf(s, n).value).hash)
  {
    FoundOwner(s, key);
    UpdateFate(s, key, false, ip, challenge, n);
    NewEntryIsGood(s, n, key.hash);
  }

  /** No registration of n, no key with the digest, no address and no challenge of n. */
  ghost predicate IsGone(s: State, n: string, hash: string) {
    && RegOf(s, n).None? && (hash != "" ==> KeyOf(s, hash).None?)
    && (forall four, e :: !LiveIp(s, n, four, e)) && (forall e :: !LiveChallenge(s, n, e))
  }

  lemma ForgetErases(s: State, n: string, hash: string)
    requires Inv(s) && RegOf(s, n).Some? && HashOf(s, n) == hash
    ensures IsGone(State(s.data - NameKeys(n, hash), s.chal - {ChallengeKey(n)}, s.now), n, hash)
  {
    var keys := NameKeys(n, hash);
    var u, t := State(s.data - keys, s.chal - {ChallengeKey(n)}, s.now), s.(data := s.data - keys);
    assert keys == {Key(Ip(n, true)), Key(Ip(n, false))} + {Key(Reg(n))}
                   + (if hash == "" then {} else {Key(Hash(hash))});
    NameDropped(s, n, true, hash, keys);
    ChallengesDropped(s, n);
    SameData(t, u);
    SameChallenges(u, s.(chal := u.chal));
  }

  /** Deleting a name with its key is accepted exactly when the key opens one, and erases it. */
  lemma UnregisterExactly(s: State, key: Presented, n: string)
    requires Inv(s) && IsHash(key.hash)
    ensures var (u, reply) := Unregister(s, key);
            && (reply == Accepted <==> FindName(s, key).Some?)
            && (FindName(s, key) == Some(n) ==> IsGone(u, n, key.hash))
            && (reply != Accepted ==> reply == BadRequest && u == s)
  {
    if FindName(s, key) == Some(n) {
      FoundOwner(s, key);
      ForgetErases(s, n, key.hash);
      assert {Key(Ip(n, true)), Key(Ip(n, false)), Key(Reg(n)), Key(Hash(key.hash))} == NameKeys(n, key.hash);
    }
  }

  lemma DeletedIsGone(s: State, n: string)
    requires Inv(s) && RegOf(s, n).Some?
    ensures Administer(s, n, false).1 == Accepted && IsGone(Administer(s, n, false).0, n, HashOf(s, n))
  {
    DeleteFate(s, n, n);
    AdminDeleteShape(s, n);
    StripThenDrop(s, n);
    ForgetErases(s, n, HashOf(s, n));
  }

  /** A suspended name stays registered for 120 days from then, with no key, address or challenge. */
  ghost predicate IsSuspended(s: State, u: State, n: string) {
    && RegOf(s, n).Some? && RegOf(u, n).Some? && RegOf(u, n).value.expires as int == s.now + 120 * 86400
    && Record(RegOf(u, n).value) == Registration(Record(RegOf(s, n).value).created, s.now, "")
    && (HashOf(s, n) != "" ==> KeyOf(u, HashOf(s, n)).None?)
    && (forall four, e :: !LiveIp(u, n, four, e)) && (forall e :: !LiveChallenge(u, n, e))
  }

  lemma StrippedIsSuspended(s: State, n: string, t: State, u: State)
    requires Inv(s) && RegOf(s, n).Some? && t == StrippedOf(s, n)
    requires UpdateRegistration(t.data, "", n, t.now) == Some(u.data) && u.chal == t.chal && u.now == t.now
    ensures IsSuspended(s, u, n)
  {
    ClearedShape(s, n);
    NewEntryIsGood(s, n, "");
    RegistrationWritten(t, n, "");
    assert NewEntry(t, n, "") == NewEntry(s, n, "");
    SameEntriesSameIps(t, u);
    SameChallenges(t, u);
    assert u == t.(data := u.data);
  }

  lemma SuspendedIsSuspended(s: State, n: string)
    requires Inv(s) && RegOf(s, n).Some?
    ensures Administer(s, n, true).1 == Accepted && IsSuspended(s, Administer(s, n, true).0, n)
  {
    SuspendFate(s, n, n);
    CurrentIsGet(s.data, Reg(n), s.now);
    StrippedIsSuspended(s, n, StrippedOf(s, n), Administer(s, n, true).0);
  }

  /** An administrator's delete or suspend is accepted exactly for a name with a live
      registration, and does what it says. */
  lemma AdministerExactly(s: State, n: string, suspend: bool)
    requires Inv(s)
    ensures var (u, reply) := Administer(s, n, suspend);
            && (reply == Accepted <==> RegOf(s, n).Some?)
            && (reply != Accepted ==> reply == BadRequest && u == s)
            && (reply == Accepted && suspend ==> IsSuspended(s, u, n))
            && (reply == Accepted && !suspend ==> IsGone(u, n, HashOf(s, n)))
  {
    AdminFate(s, n, suspend, n);
    CurrentIsGet(s.data, Reg(n), s.now);
    if RegOf(s, n).Some? {
      if suspend {
        SuspendedIsSuspended(s, n);
      } else {
        DeletedIsGone(s, n);
      }
    }
  }

  // ----- The dates a text query lists

  lemma InfoLinesMeaning(reg: Option<Registration>, four: Option<Address>, six: Option<Address>, time: Time)
    ensures var lines := InfoLines(reg, four, six);
            && lines[0] == Policy
            && (RegisteredAt(time) in lines <==> reg.Some? && reg.value.created == time)
            && (UpdatedAt(true, time) in lines <==> four.Some? && four.value.updated == time)
            && (UpdatedAt(false, time) in lines <==> six.Some? && six.value.updated == time)
  {
    var lines := InfoLines(reg, four, six);
    var head := [Policy];
    var dates := if reg.None? then [] else [RegisteredAt(reg.value.created), ExpiresAt(Expires(reg.value))];
    var last4 := if four.None? then [] else [UpdatedAt(true, four.value.updated)];
    var last6 := if six.None? then [] else [UpdatedAt(false, six.value.updated)];
    assert lines == head + dates + last4 + last6;
    assert forall r :: r in lines <==> r in head || r in dates || r in last4 || r in last6;
  }

  lemma DatesOf(t: State, qname: string, zone: string, n: string, four: bool, time: Time)
    requires Inv(t) && AddressesGood(t) && IsOwned(n) && IsNameQuery(qname, zone, n)
    ensures |zone| <= |qname|
    ensures var answer := Generate(t, qname, TXT, zone);
            && answer.Records? && answer.rrs != [] && answer.rrs[0] == Policy
            && (RegisteredAt(time) in answer.rrs <==>
              RegOf(t, n).Some? && Record(RegOf(t, n).value).created == time)
            && (UpdatedAt(four, time) in answer.rrs <==>
              && IpOf(t, n, four).Some? && UnmarshalAddress(IpOf(t, n, four).value.value).Some?
              && UnmarshalAddress(IpOf(t, n, four).value.value).value.updated == time)
  {
    NameQueryLines(t, qname, zone, n);
    LoadsSucceed(t, n, true);
    LoadsSucceed(t, n, false);
    CurrentIsGet(t.data, Reg(n), t.now);
    CurrentIsGet(t.data, Ip(n, four), t.now);
    InfoLinesMeaning(LoadRegistration(t.data, n, t.now).value, LoadAddress(t.data, n, true, t.now).value,
      LoadAddress(t.data, n, false, t.now).value, time);
  }

  /** In every state a run reaches, a text query for the name itself lists the policy line
      first, the registration's creation, and each stored address's last update. */
  lemma ListedDates(start: Time, steps: seq<Step>, qname: string, zone: string, n: string, four: bool, time: Time)
    requires start + REGISTRATION_TTL < WRAP && IsRun(Initial(start), steps) && ParsedIps(steps)
    requires IsOwned(n) && IsNameQuery(qname, zone, n)
    ensures |zone| <= |qname|
    ensures var t := After(Initial(start), steps);
            var answer := Generate(t, qname, TXT, zone);
            && answer.Records? && answer.rrs != [] && answer.rrs[0] == Policy
            && (RegisteredAt(time) in answer.rrs <==>
              RegOf(t, n).Some? && Record(RegOf(t, n).value).created == time)
            && (UpdatedAt(four, time) in answer.rrs <==>
              && IpOf(t, n, four).Some? && UnmarshalAddress(IpOf(t, n, four).value.value).Some?
              && UnmarshalAddress(IpOf(t, n, four).value.value).value.updated == time)
  {
    RunAddressesGood(Initial(start), steps);
    DatesOf(After(Initial(start), steps), qname, zone, n, four, time);
  }

  lemma WrittenDate(s: State, ip: Bytes)
    requires |ip| == 4 || |ip| == 16
    ensures UnmarshalAddress(WrittenIp(s, ip).value).Some?
    ensures UnmarshalAddress(WrittenIp(s, ip).value).value.updated == s.now
  {
    StoredIpLength(ip);
    AddressRoundTrip(Address(s.now, StoredIp(ip)));
  }

  /** After an accepted address update at s, a later text query for the name itself dates
      that family's address with the clock reading of the update, for 90 days exactly. */
  lemma UpdateThenDate(s: State, key: Presented, ip: Bytes, u: State, n: string, four: bool, steps: seq<Step>,
          qname: string, zone: string, time: Time)
    requires Inv(s) && AddressesGood(s) && IsHash(key.hash) && (|ip| == 4 || |ip| == 16) && four == IsFour(ip)
    requires Update(s, key, false, GivenIp(ip), "") == (u, Accepted) && FindName(s, key) == Some(n)
    requires IsRun(u, steps) && ParsedIps(steps) && Untouched(u, steps, n, four) && IsNameQuery(qname, zone, n)
    ensures |zone| <= |qname|
    ensures var t := After(u, steps);
            var answer := Generate(t, qname, TXT, zone);
            && answer.Records?
            && (UpdatedAt(four, time) in answer.rrs <==> t.now < s.now + 90 * 86400 && time == s.now)
  {
    FoundOwner(s, key);
    StoredIpMeaning(ip);
    UpdateStores(s, key, ip, u, n);
    UpdateKeepsInv(s, key, false, GivenIp(ip), "");
    StepAddressesGood(s, DoUpdate(key, false, GivenIp(ip), ""));
    RunAddressesGood(u, steps);
    RunLeavesOthers(u, steps, n, four);
    WrittenExpiry(s, ip);
    WrittenDate(s, ip);
    DatesOf(After(u, steps), qname, zone, n, four, time);
  }
}
