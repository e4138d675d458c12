/** What text queries list: the challenges an owner has added, and for how long; the dates at
    the name itself; and that no query fails in a state a run reaches. */
module MyaddrTxt {
  import opened Text
  import opened Bytes
  import opened Clock
  import opened TtlStore
  import opened StoreRuns
  import opened AsciiCase
  import opened MyaddrRecords
  import opened Myaddr
  import opened MyaddrOwnership
  import opened MyaddrHistory
  import opened MyaddrResolve

  // ----- The challenges of a name

  function ChallengesOf(s: State, n: string): seq<Entry> {
    EntriesAt(s.chal, ChallengeKey(n))
  }

  /** The owner or an administrator takes all challenges of n away. */
  predicate DropsChallenges(s: State, a: Step, n: string) {
    match a
    case DoUnregister(key) => FindName(s, key) == Some(n)
    case DoAdmin(name, _) => name == n && RegOf(s, n).Some?
    case _ => false
  }

  predicate AddsChallenge(s: State, a: Step, n: string) {
    match a
    case DoUpdate(key, remove, ip, challenge) =>
      Update(s, key, remove, ip, challenge).1 == Accepted && !remove && !ip.GivenIp? && FindName(s, key) == Some(n)
    case _ => false
  }

  function ChallengeEntryOf(challenge: string, now: Time): Entry {
    Entry(Expiry(now, CHALLENGE_TTL), BytesOf(challenge))
  }

  function Added(s: State, a: Step, n: string): seq<Entry> {
    if a.DoUpdate? && AddsChallenge(s, a, n) then [ChallengeEntryOf(a.challenge, s.now)] else []
  }

  predicate KeepsChallenges(s: State, steps: seq<Step>, n: string)
    decreases |steps|
  {
    steps != [] ==> !DropsChallenges(s, steps[0], n) && KeepsChallenges(Next(s, steps[0]), steps[1..], n)
  }

  /** The entries of the accepted challenge updates of n along a run, in order. */
  function AddedAlong(s: State, steps: seq<Step>, n: string): seq<Entry>
    decreases |steps|
  {
    if steps == [] then [] else Added(s, steps[0], n) + AddedAlong(Next(s, steps[0]), steps[1..], n)
  }

  lemma ChallengeKeysDiffer(m: string, n: string)
    ensures ChallengeKey(m) == ChallengeKey(n) <==> m == n
  {
    if m != n {
      PrefixedDiffer(PREFIX, m, n);
    }
  }

  lemma AcceptedUpdateChallenges(s: State, m: string, hash: string, remove: bool, ip: IpParam, challenge: string,
          n: string)
    ensures ChallengesOf(AcceptedUpdate(s, m, hash, remove, ip, challenge), n) ==
            ChallengesOf(s, n) + if !remove && !ip.GivenIp? && m == n then [ChallengeEntryOf(challenge, s.now)] else []
  {
    ChallengeKeysDiffer(m, n);
  }

  lemma OutcomeChallenges(s: State, key: Presented, remove: bool, ip: IpParam, challenge: string, u: State,
          reply: Reply, n: string)
    requires IsOutcome(s, key, remove, ip, challenge, u, reply)
    ensures ChallengesOf(u, n) == ChallengesOf(s, n) +
            if reply == Accepted && !remove && !ip.GivenIp? && FindName(s, key) == Some(n)
            then [ChallengeEntryOf(challenge, s.now)] else []
  {
    if reply == Accepted {
      AcceptedUpdateChallenges(s, FindName(s, key).value, key.hash, remove, ip, challenge, n);
    }
  }

  lemma UpdateChallenges(s: State, key: Presented, remove: bool, ip: IpParam, challenge: string, n: string)
    requires Inv(s) && IsHash(key.hash)
    ensures var (u, reply) := Update(s, key, remove, ip, challenge);
            ChallengesOf(u, n) == ChallengesOf(s, n) +
            if reply == Accepted && !remove && !ip.GivenIp? && FindName(s, key) == Some(n)
            then [ChallengeEntryOf(challenge, s.now)] else []
  {
    UpdateShapes(s, key, remove, ip, challenge);
    OutcomeChallenges(s, key, remove, ip, challenge, Update(s, key, remove, ip, challenge).0,
      Update(s, key, remove, ip, challenge).1, n);
  }

  lemma UnregisterChallenges(s: State, key: Presented, n: string)
    requires FindName(s, key) != Some(n)
    ensures ChallengesOf(Unregister(s, key).0, n) == ChallengesOf(s, n)
  {
    if FindName(s, key).Some? {
      ChallengeKeysDiffer(FindName(s, key).value, n);
    }
  }

  lemma AdminChallenges(s: State, name: string, suspend: bool, n: string)
    requires name != n || RegOf(s, name).None?
    ensures ChallengesOf(Administer(s, name, suspend).0, n) == ChallengesOf(s, n)
  {
    CurrentIsGet(s.data, Reg(name), s.now);
    ChallengeKeysDiffer(name, n);
  }

  /** Seen from any later reading, a step adds exactly its accepted challenge. */
  lemma StepChallenges(s: State, a: Step, n: string, later: Time)
    requires Inv(s) && Enabled(s, a) && !DropsChallenges(s, a, n) && s.now <= later
    ensures Live(ChallengesOf(Next(s, a), n), later) == Live(ChallengesOf(s, n) + Added(s, a, n), later)
  {
    if !a.DoUpdate? {
      assert ChallengesOf(s, n) + Added(s, a, n) == ChallengesOf(s, n);
    }
    match a
    case DoRegister(name, verified, hash) =>
    case DoUnregister(key) => UnregisterChallenges(s, key, n);
    case DoUpdate(key, remove, ip, challenge) => UpdateChallenges(s, key, remove, ip, challenge, n);
    case DoAdmin(name, suspend) => AdminChallenges(s, name, suspend, n);
    case Tick(to) =>
    case PruneData =>
    case PruneChallenges => PruneKeepsValues(s.chal, ChallengeKey(n), s.now, later);
    case Foreign(data, chal) =>
      assert PREFIX <= ChallengeKey(n);
  }

  lemma Associative(a: seq<Entry>, b: seq<Entry>, c: seq<Entry>)
    ensures a + b + c == a + (b + c)
  {
  }

  lemma ChainLive(e0: seq<Entry>, here: seq<Entry>, e1: seq<Entry>, rest: seq<Entry>, e2: seq<Entry>, later: Time)
    requires Live(e1, later) == Live(e0 + here, later) && Live(e2, later) == Live(e1 + rest, later)
    ensures Live(e2, later) == Live(e0 + (here + rest), later)
  {
    Associative(e0, here, rest);
    LiveAppend(e1, rest, later);
    LiveAppend(e0 + here, rest, later);
  }

  lemma {:induction false} RunChallenges(s: State, steps: seq<Step>, n: string, later: Time)
    requires Inv(s) && IsRun(s, steps) && KeepsChallenges(s, steps, n) && After(s, steps).now <= later
    ensures Live(ChallengesOf(After(s, steps), n), later) == Live(ChallengesOf(s, n) + AddedAlong(s, steps, n), later)
    decreases |steps|
  {
    if steps == [] {
      assert ChallengesOf(s, n) + [] == ChallengesOf(s, n);
    } else {
      var t := Next(s, steps[0]);
      ClockRuns(s, steps);
      StepKeepsInv(s, steps[0]);
      StepChallenges(s, steps[0], n, later);
      RunChallenges(t, steps[1..], n, later);
      ChainLive(ChallengesOf(s, n), Added(s, steps[0], n), ChallengesOf(t, n), AddedAlong(t, steps[1..], n),
        ChallengesOf(After(t, steps[1..]), n), later);
    }
  }

  // ----- Text queries

  /** A name that starts with the challenge label and ends in n and the zone, in any letter case. */
  ghost predicate QueriesChallenges(qname: string, zone: string, n: string) {
    QueriesName(qname, zone, n) && HasPrefixFold(qname, "_acme-challenge.")
  }

  lemma NotTheNameItself(qname: string, zone: string, extra: string, leaf: string)
    requires IsQuery(qname, zone, extra, leaf) && HasPrefixFold(qname, "_acme-challenge.") && ValidName(leaf)
    ensures |qname| != |leaf| + 1 + |zone|
  {
    var prefix := "_acme-challenge.";
    assert Lower(qname[..|prefix|])[0] == LowerChar(qname[0]) && Lower(prefix)[0] == '_';
    assert qname[0] != leaf[0];
    assert extra == "" ==> qname == leaf + ("." + zone);
    assert |qname| == |extra| + |leaf| + 1 + |zone|;
  }

  lemma GenerateForTxt(s: State, qname: string, zone: string, leaf: string)
    requires |zone| < |qname| && AfterLastDot(qname[..|qname| - |zone| - 1]) == leaf && ValidName(leaf)
    ensures Generate(s, qname, TXT, zone) == TxtRecords(s, qname, zone, leaf)
  {
  }

  lemma ChallengesListed(s: State, qname: string, zone: string, n: string)
    requires IsOwned(n) && QueriesChallenges(qname, zone, n)
    ensures |zone| <= |qname|
    ensures Generate(s, qname, TXT, zone) == Records(ChallengeLines(ValuesOf(Live(ChallengesOf(s, n), s.now))), true)
  {
    var extra: string, leaf: string :| IsQuery(qname, zone, extra, leaf) && Lower(leaf) == n;
    LoweredBack(leaf);
    QueryLeaf(qname, zone, extra, leaf);
    NotTheNameItself(qname, zone, extra, leaf);
    GenerateForTxt(s, qname, zone, leaf);
  }

  /** Under any other label a text query lists nothing. */
  lemma OtherLabelsListNothing(s: State, qname: string, zone: string, extra: string, leaf: string)
    requires IsQuery(qname, zone, extra, leaf) && IsOwned(Lower(leaf))
    requires extra != "" && !HasPrefixFold(qname, "_acme-challenge.")
    ensures |zone| <= |qname| && Generate(s, qname, TXT, zone) == Records([], true)
  {
    LoweredBack(leaf);
    QueryLeaf(qname, zone, extra, leaf);
    GenerateForTxt(s, qname, zone, leaf);
    assert |qname| == |extra| + |leaf| + 1 + |zone|;
  }

  lemma LinesConcat(a: seq<Entry>, b: seq<Entry>)
    ensures ChallengeLines(ValuesOf(a + b)) == ChallengeLines(ValuesOf(a)) + ChallengeLines(ValuesOf(b))
  {
  }

  lemma OneLine(challenge: string, now: Time, later: Time)
    requires ValidChallenge(challenge) && now + CHALLENGE_TTL < WRAP
    ensures ChallengeLines(ValuesOf(Live([ChallengeEntryOf(challenge, now)], later))) ==
            if later < now + 120 then [Challenge(challenge)] else []
  {
    StringRoundTrip(challenge);
    assert [ChallengeEntryOf(challenge, now)][1..] == [];
  }

  lemma AcceptedChallenge(s: State, key: Presented, challenge: string)
    requires Update(s, key, false, NoIp, challenge).1 == Accepted
    ensures ValidChallenge(challenge)
  {
  }

  /** The lines of a list into which one challenge was added at now. */
  lemma LinesAround(before: seq<Entry>, challenge: string, since: seq<Entry>, now: Time, later: Time)
    requires ValidChallenge(challenge) && now + CHALLENGE_TTL < WRAP
    ensures ChallengeLines(ValuesOf(Live(before + [ChallengeEntryOf(challenge, now)] + since, later))) ==
            ChallengeLines(ValuesOf(Live(before, later)))
            + (if later < now + 120 then [Challenge(challenge)] else [])
            + ChallengeLines(ValuesOf(Live(since, later)))
  {
    var here := [ChallengeEntryOf(challenge, now)];
    LiveAppend(before + here, since, later);
    LiveAppend(before, here, later);
    LinesConcat(Live(before + here, later), Live(since, later));
    LinesConcat(Live(before, later), Live(here, later));
    OneLine(challenge, now, later);
  }

  lemma ChallengesAfter(before: seq<Entry>, now: Time, challenge: string, u: State, n: string, steps: seq<Step>,
          qname: string, zone: string)
    requires Inv(u) && IsOwned(n) && ValidChallenge(challenge) && now + CHALLENGE_TTL < WRAP
    requires ChallengesOf(u, n) == before + [ChallengeEntryOf(challenge, now)]
    requires IsRun(u, steps) && KeepsChallenges(u, steps, n) && QueriesChallenges(qname, zone, n)
    ensures |zone| <= |qname|
    ensures var t := After(u, steps);
            Generate(t, qname, TXT, zone) ==
            Records(ChallengeLines(ValuesOf(Live(before, t.now)))
                    + (if t.now < now + 120 then [Challenge(challenge)] else [])
                    + ChallengeLines(ValuesOf(Live(AddedAlong(u, steps, n), t.now))), true)
  {
    var t := After(u, steps);
    RunChallenges(u, steps, n, t.now);
    LinesAround(before, challenge, AddedAlong(u, steps, n), now, t.now);
    ChallengesListed(t, qname, zone, n);
  }

  /** After an accepted challenge update at s, every later text query for the challenge label
      of the name, in any letter case, under any labels and any zone, lists what was live
      before, then this challenge for exactly 120 seconds, then what was added since, as long
      as neither the owner nor an administrator takes the challenges away. */
  lemma ChallengeThenResolve(s: State, key: Presented, challenge: string, u: State, n: string, steps: seq<Step>,
          qname: string, zone: string)
    requires Inv(s) && IsHash(key.hash)
    requires Update(s, key, false, NoIp, challenge) == (u, Accepted) && FindName(s, key) == Some(n)
    requires IsRun(u, steps) && KeepsChallenges(u, steps, n) && QueriesChallenges(qname, zone, n)
    ensures |zone| <= |qname|
    ensures var t := After(u, steps);
            Generate(t, qname, TXT, zone) ==
            Records(ChallengeLines(ValuesOf(Live(ChallengesOf(s, n), t.now)))
                    + (if t.now < s.now + 120 then [Challenge(challenge)] else [])
                    + ChallengeLines(ValuesOf(Live(AddedAlong(u, steps, n), t.now))), true)
  {
    FoundOwner(s, key);
    AcceptedChallenge(s, key, challenge);
    UpdateChallenges(s, key, false, NoIp, challenge, n);
    UpdateKeepsInv(s, key, false, NoIp, challenge);
    ChallengesAfter(ChallengesOf(s, n), s.now, challenge, u, n, steps, qname, zone);
  }

  /** The name itself under a zone. */
  ghost predicate IsNameQuery(qname: string, zone: string, n: string) {
    exists leaf: string :: qname == leaf + "." + zone && Lower(leaf) == n
  }

  lemma NameQueryLines(s: State, qname: string, zone: string, n: string)
    requires IsOwned(n) && IsNameQuery(qname, zone, n)
    ensures |zone| <= |qname|
    ensures var reg, four, six := LoadRegistration(s.data, n, s.now), LoadAddress(s.data, n, true, s.now),
              LoadAddress(s.data, n, false, s.now);
            Generate(s, qname, TXT, zone) ==
            if reg.None? || four.None? || six.None? then Failed
              else Records(InfoLines(reg.value, four.value, six.value), true)
  {
    var leaf: string :| qname == leaf + "." + zone && Lower(leaf) == n;
    LoweredBack(leaf);
    assert IsQuery(qname, zone, "", leaf);
    QueryLeaf(qname, zone, "", leaf);
    GenerateForTxt(s, qname, zone, leaf);
  }

  lemma NothingLive(es: seq<Entry>, now: Time)
    requires forall e :: e in es ==> e.expires <= now
    ensures Live(es, now) == []
  {
    if Live(es, now) != [] {
      LiveMember(es, Live(es, now)[0], now);
    }
  }

  lemma NoAddressLive(s: State, n: string, four: bool)
    requires forall e :: !LiveIp(s, n, four, e)
    ensures LoadAddress(s.data, n, four, s.now) == Some(None)
  {
    assert forall e :: LiveIp(s, n, four, e) <==> LiveAt(s.data, Key(Ip(n, four)), s.now, e);
    NoLiveEntry(s.data, Ip(n, four), s.now);
    CurrentIsGet(s.data, Ip(n, four), s.now);
  }

  lemma NoChallengeLive(s: State, n: string)
    requires forall e :: !LiveChallenge(s, n, e)
    ensures Live(ChallengesOf(s, n), s.now) == []
  {
    forall e | e in ChallengesOf(s, n)
      ensures e.expires <= s.now
    {
      assert !LiveChallenge(s, n, e);
    }
    NothingLive(ChallengesOf(s, n), s.now);
  }

  /** In every state a run reaches, a name without a live registration lists no challenge. */
  lemma UnregisteredListsNoChallenge(start: Time, steps: seq<Step>, qname: string, zone: string, n: string)
    requires start + REGISTRATION_TTL < WRAP && IsRun(Initial(start), steps)
    requires RegOf(After(Initial(start), steps), n).None? && IsOwned(n) && QueriesChallenges(qname, zone, n)
    ensures |zone| <= |qname| && Generate(After(Initial(start), steps), qname, TXT, zone) == Records([], true)
  {
    NoRecordOutlivesRegistration(start, steps);
    NoChallengeLive(After(Initial(start), steps), n);
    ChallengesListed(After(Initial(start), steps), qname, zone, n);
  }

  /** And at the name itself nothing but the policy. */
  lemma UnregisteredListsPolicy(start: Time, steps: seq<Step>, qname: string, zone: string, n: string)
    requires start + REGISTRATION_TTL < WRAP && IsRun(Initial(start), steps)
    requires RegOf(After(Initial(start), steps), n).None? && IsOwned(n) && IsNameQuery(qname, zone, n)
    ensures |zone| <= |qname| && Generate(After(Initial(start), steps), qname, TXT, zone) == Records([Policy], true)
  {
    var s := After(Initial(start), steps);
    NoRecordOutlivesRegistration(start, steps);
    NameQueryLines(s, qname, zone, n);
    CurrentIsGet(s.data, Reg(n), s.now);
    NoAddressLive(s, n, true);
    NoAddressLive(s, n, false);
  }

  // ----- No query fails

  /** Parsed addresses have 4 or 16 bytes. */
  predicate ParsedIp(a: Step) {
    a.DoUpdate? && a.ip.GivenIp? ==> |a.ip.ip| == 4 || |a.ip.ip| == 16
  }

  predicate ParsedIps(steps: seq<Step>) {
    forall i :: 0 <= i < |steps| ==> ParsedIp(steps[i])
  }

  predicate WritesIp(s: State, a: Step, n: string, four: bool) {
    a.DoUpdate? && !a.remove && Touches(s, a, n, four)
  }

  lemma RemovedAddress(s: State, m: string, keys: set<string>, four: bool)
    requires Key(Ip(m, four)) in keys
    ensures Current(s.data - keys, Ip(m, four), s.now) == None
  {
  }

  lemma AdminRemovesAddress(s: State, n: string, suspend: bool, four: bool)
    requires Inv(s) && RegOf(s, n).Some?
    ensures IpOf(Administer(s, n, suspend).0, n, four) == None
  {
    CurrentIsGet(s.data, Reg(n), s.now);
    var t, h := StrippedOf(s, n), HashOf(s, n);
    RemovedAddress(s, n, {Key(Ip(n, true)), Key(Ip(n, false))} + (if h == "" then {} else {Key(Hash(h))}), four);
    if suspend {
      ClearedShape(s, n);
      WriteFate(s, t, n, "", n);
      RegistrationElsewhere(t.data, "", n, t.now, n, four);
    } else {
      AdminDeleteShape(s, n);
    }
  }

  /** An address changes exactly when it is written or removed, or its time ends. */
  lemma StepAddress(s: State, a: Step, n: string, four: bool)
    requires Inv(s) && Enabled(s, a)
    ensures IpOf(Next(s, a), n, four) ==
            if WritesIp(s, a, n, four) then Some(WrittenIp(s, a.ip.ip))
            else if Touches(s, a, n, four) then None
            else StillLive(IpOf(s, n, four), ClockAfter(s, a))
  {
    if !Touches(s, a, n, four) {
      StepLeavesOthers(s, a, n, four);
    } else if a.DoUpdate? {
      var (u, reply) := Update(s, a.key, a.remove, a.ip, a.challenge);
      if !a.remove {
        assert a.challenge == "";
        UpdateStores(s, a.key, a.ip.ip, u, n);
      }
    } else if a.DoAdmin? {
      AdminRemovesAddress(s, n, a.suspend, four);
    }
  }

  /** An address entry decodes to an address of its family's length. */
  predicate GoodAddress(e: Option<Entry>, four: bool) {
    e.Some? ==>
      var a := UnmarshalAddress(e.value.value);
      a.Some? && |a.value.ip| == if four then 4 else 16
  }

  ghost predicate AddressesGood(s: State) {
    forall n, four :: GoodAddress(IpOf(s, n, four), four)
  }

  lemma WrittenIsGood(s: State, ip: Bytes)
    requires |ip| == 4 || |ip| == 16
    ensures GoodAddress(Some(WrittenIp(s, ip)), To4(ip).Some?)
  {
    StoredIpLength(ip);
    AddressRoundTrip(Address(s.now, StoredIp(ip)));
  }

  lemma StepAddressesGood(s: State, a: Step)
    requires Inv(s) && Enabled(s, a) && ParsedIp(a) && AddressesGood(s)
    ensures AddressesGood(Next(s, a))
  {
    forall n, four
      ensures GoodAddress(IpOf(Next(s, a), n, four), four)
    {
      StepAddress(s, a, n, four);
      assert GoodAddress(IpOf(s, n, four), four);
      if WritesIp(s, a, n, four) {
        WrittenIsGood(s, a.ip.ip);
      }
    }
  }

  lemma {:induction false} RunAddressesGood(s: State, steps: seq<Step>)
    requires Inv(s) && IsRun(s, steps) && ParsedIps(steps) && AddressesGood(s)
    ensures Inv(After(s, steps)) && AddressesGood(After(s, steps))
    decreases |steps|
  {
    if steps == [] {
    } else {
      assert ParsedIp(steps[0]);
      StepAddressesGood(s, steps[0]);
      StepKeepsInv(s, steps[0]);
      RunAddressesGood(Next(s, steps[0]), steps[1..]);
    }
  }

  lemma LoadsSucceed(s: State, n: string, four: bool)
    requires Inv(s) && AddressesGood(s)
    ensures LoadRegistration(s.data, n, s.now).Some? && LoadAddress(s.data, n, four, s.now).Some?
    ensures var a := LoadAddress(s.data, n, four, s.now).value; a.Some? ==> |a.value.ip| == if four then 4 else 16
  {
    CurrentIsGet(s.data, Reg(n), s.now);
    CurrentIsGet(s.data, Ip(n, four), s.now);
    assert RegOf(s, n).Some? ==> GoodRecord(RegOf(s, n).value, s.now);
    assert GoodAddress(IpOf(s, n, four), four);
  }

  lemma AddressAnswers(s: State, qname: string, zone: string, leaf: string, four: bool)
    requires Inv(s) && AddressesGood(s)
    requires |zone| < |qname| && AfterLastDot(qname[..|qname| - |zone| - 1]) == leaf && ValidName(leaf)
    ensures var answer := Generate(s, qname, if four then A else AAAA, zone);
            && answer.Records?
            && (answer.rrs == [] || exists ip: Bytes :: |ip| == (if four then 4 else 16) && answer.rrs == [Addr(ip)])
  {
    LoadsSucceed(s, Lower(leaf), four);
    GenerateForLeaf(s, qname, zone, leaf, four);
  }

  lemma TxtAnswers(s: State, qname: string, zone: string, leaf: string)
    requires Inv(s) && AddressesGood(s)
    ensures TxtRecords(s, qname, zone, leaf).Records?
  {
    LoadsSucceed(s, Lower(leaf), true);
    LoadsSucceed(s, Lower(leaf), false);
  }

  /** In every state a run reaches no query fails, and A and AAAA answers hold at most one
      address, of 4 and 16 bytes. */
  lemma NoQueryFails(start: Time, steps: seq<Step>, qname: string, qtype: Qtype, zone: string)
    requires start + REGISTRATION_TTL < WRAP && IsRun(Initial(start), steps) && ParsedIps(steps) && |zone| <= |qname|
    ensures var answer := Generate(After(Initial(start), steps), qname, qtype, zone);
            && answer.Records?
            && (qtype == A ==> answer.rrs == [] || exists ip: Bytes :: |ip| == 4 && answer.rrs == [Addr(ip)])
            && (qtype == AAAA ==> answer.rrs == [] || exists ip: Bytes :: |ip| == 16 && answer.rrs == [Addr(ip)])
  {
    RunAddressesGood(Initial(start), steps);
    var t := After(Initial(start), steps);
    if |qname| != |zone| {
      var leaf := AfterLastDot(qname[..|qname| - |zone| - 1]);
      if ValidName(leaf) {
        match qtype
        case A => AddressAnswers(t, qname, zone, leaf, true);
        case AAAA => AddressAnswers(t, qname, zone, leaf, false);
        case TXT =>
          TxtAnswers(t, qname, zone, leaf);
          GenerateForTxt(t, qname, zone, leaf);
        case Other =>
      }
    }
  }

  lemma ListedExpiry(reg: Option<Registration>, four: Option<Address>, six: Option<Address>, time: Time)
    ensures ExpiresAt(time) in InfoLines(reg, four, six) <==> reg.Some? && time == Expires(reg.value)
  {
    var lines := InfoLines(reg, four, six);
    if reg.Some? {
      assert lines[2] == ExpiresAt(Expires(reg.value));
    }
  }

  /** An expiry listed at the name itself belongs to a live registration and is not later
      than the store's. */
  lemma ListedExpiryIsSafe(start: Time, steps: seq<Step>, qname: string, zone: string, n: string, time: Time)
    requires start + REGISTRATION_TTL < WRAP && IsRun(Initial(start), steps) && IsOwned(n)
               && IsNameQuery(qname, zone, n)
    ensures |zone| <= |qname|
    ensures var t := After(Initial(start), steps);
            var answer := Generate(t, qname, TXT, zone);
            answer.Records? && ExpiresAt(time) in answer.rrs ==> RegOf(t, n).Some? && time <= RegOf(t, n).value.expires
  {
    var t := After(Initial(start), steps);
    NameQueryLines(t, qname, zone, n);
    CurrentIsGet(t.data, Reg(n), t.now);
    ReportedExpiryIsSafe(start, steps, n);
    if Generate(t, qname, TXT, zone).Records? {
      ListedExpiry(LoadRegistration(t.data, n, t.now).value, LoadAddress(t.data, n, true, t.now).value,
        LoadAddress(t.data, n, false, t.now).value, time);
    }
  }
}
