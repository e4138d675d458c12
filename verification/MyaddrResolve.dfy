/** Answering DNS queries from the stores, and the proof that an accepted address update
    is what later queries return. */
module MyaddrResolve {
  import opened Text
  import opened Bytes
  import opened Clock
  import opened TtlStore
  import opened AsciiCase
  import opened MyaddrRecords
  import opened Myaddr
  import opened MyaddrOwnership
  import opened MyaddrHistory

  datatype Qtype = A | AAAA | TXT | Other

  /** A generated record's data: an address, a policy or date line, or a stored challenge. */
  datatype Rdata =
    | Addr(ip: Bytes)
    | Policy
    | RegisteredAt(time: Time)
    | ExpiresAt(time: Time)
    | UpdatedAt(four: bool, time: Time)
    | Challenge(text: string)

  /** An error is `Failed`; otherwise the records and whether the name is a valid one. */
  datatype Answer = Failed | Records(rrs: seq<Rdata>, validName: bool)

  function LoadAddress(data: Contents, n: string, four: bool, now: Time): Option<Option<Address>> {
    match Get(data, Key(Ip(n, four)), now)
    case None => Some(None)
    case Some(d) => if UnmarshalAddress(d).None? then None else Some(UnmarshalAddress(d))
  }

  function AddressRecords(loaded: Option<Option<Address>>): Answer {
    match loaded
    case None => Failed
    case Some(None) => Records([], true)
    case Some(Some(a)) => Records([Addr(a.ip)], true)
  }

  function InfoLines(reg: Option<Registration>, four: Option<Address>, six: Option<Address>): seq<Rdata> {
    [Policy]
    + (if reg.None? then [] else [RegisteredAt(reg.value.created), ExpiresAt(Expires(reg.value))])
    + (if four.None? then [] else [UpdatedAt(true, four.value.updated)])
    + (if six.None? then [] else [UpdatedAt(false, six.value.updated)])
  }

  function ChallengeLines(vals: seq<Bytes>): seq<Rdata> {
    seq(|vals|, i requires 0 <= i < |vals| => Challenge(StringOf(vals[i])))
  }

  function TxtRecords(s: State, qname: string, zone: string, leaf: string): Answer {
    var n := Lower(leaf);
    if |qname| == |leaf| + 1 + |zone| then
      var reg, four, six := LoadRegistration(s.data, n, s.now), LoadAddress(s.data, n, true, s.now),
        LoadAddress(s.data, n, false, s.now);
      if reg.None? || four.None? || six.None? then Failed
      else Records(InfoLines(reg.value, four.value, six.value), true)
    else if HasPrefixFold(qname, "_acme-challenge.") then
      Records(ChallengeLines(Values(s.chal, ChallengeKey(n), s.now)), true)
    else Records([], true)
  }

  function Generate(s: State, qname: string, qtype: Qtype, zone: string): Answer
    requires |zone| <= |qname|
  {
    if |qname| == |zone| then Records([], false)
    else
      var leaf := AfterLastDot(qname[..|qname| - |zone| - 1]);
      if !ValidName(leaf) then Records([], false)
      else
        match qtype
        case A => AddressRecords(LoadAddress(s.data, Lower(leaf), true, s.now))
        case AAAA => AddressRecords(LoadAddress(s.data, Lower(leaf), false, s.now))
        case TXT => TxtRecords(s, qname, zone, leaf)
        case Other => Records([], true)
  }

  method AppendChallenges(vals: seq<Bytes>) returns (rrs: seq<Rdata>)
    ensures rrs == ChallengeLines(vals)
  {
    rrs := [];
    for i := 0 to |vals|
      invariant rrs == ChallengeLines(vals[..i])
    {
      assert vals[..i + 1] == vals[..i] + [vals[i]];
      rrs := rrs + [Challenge(StringOf(vals[i]))];
    }
    assert vals[..|vals|] == vals;
  }

  method GenerateTxt(data: Contents, chal: Contents, qname: string, leaf: string, zone: string, now: Time)
    returns (answer: Answer)
    ensures answer == TxtRecords(State(data, chal, now), qname, zone, leaf)
  {
    var n := ToLowerAscii(leaf);
    var rrs: seq<Rdata> := [];
    if |qname| == |leaf| + 1 + |zone| {
      rrs := [Policy];
      var reg := LoadRegistration(data, n, now);
      if reg.None? {
        return Failed;
      }
      if reg.value.Some? {
        rrs := rrs + [RegisteredAt(reg.value.value.created), ExpiresAt(Expires(reg.value.value))];
      }
      var four := LoadAddress(data, n, true, now);
      if four.None? {
        return Failed;
      }
      if four.value.Some? {
        rrs := rrs + [UpdatedAt(true, four.value.value.updated)];
      }
      var six := LoadAddress(data, n, false, now);
      if six.None? {
        return Failed;
      }
      if six.value.Some? {
        rrs := rrs + [UpdatedAt(false, six.value.value.updated)];
      }
    } else {
      var acme := HasPrefixAsciiIgnoreCase(qname, "_acme-challenge.");
      if acme {
        rrs := AppendChallenges(Values(chal, ChallengeKey(n), now));
      }
    }
    answer := Records(rrs, true);
  }

  /** Reads the stores as the generator does: cut off the zone, keep the last label, then one
      lookup, or a loop that appends the text records. */
  method GenerateRecords(data: Contents, chal: Contents, qname: string, qtype: Qtype, zone: string, now: Time)
    returns (answer: Answer)
    requires |zone| <= |qname|
    ensures answer == Generate(State(data, chal, now), qname, qtype, zone)
  {
    if |qname| == |zone| {
      return Records([], false);
    }
    var name := LastLabel(qname[..|qname| - |zone| - 1]);
    var valid := IsValidName(name);
    if !valid {
      return Records([], false);
    }
    match qtype {
      case A =>
        var n := ToLowerAscii(name);
        answer := AddressRecords(LoadAddress(data, n, true, now));
      case AAAA =>
        var n := ToLowerAscii(name);
        answer := AddressRecords(LoadAddress(data, n, false, now));
      case Other =>
        answer := Records([], true);
      case TXT =>
        answer := GenerateTxt(data, chal, qname, name, zone, now);
    }
  }

  // ----- Update, then resolve

  /** The step is accepted and writes or deletes the address of this family of n. */
  function Touches(s: State, a: Step, n: string, four: bool): bool {
    match a
    case DoUnregister(key) => FindName(s, key) == Some(n)
    case DoUpdate(key, remove, ip, challenge) =>
      && Update(s, key, remove, ip, challenge).1 == Accepted && FindName(s, key) == Some(n)
      && (remove || (ip.GivenIp? && To4(ip.ip).Some? == four))
    case DoAdmin(name, _) => name == n && RegOf(s, n).Some?
    case _ => false
  }

  predicate Untouched(s: State, steps: seq<Step>, n: string, four: bool)
    decreases |steps|
  {
    steps != [] ==> !Touches(s, steps[0], n, four) && Untouched(Next(s, steps[0]), steps[1..], n, four)
  }

  function IpOf(s: State, n: string, four: bool): Option<Entry> {
    Current(s.data, Ip(n, four), s.now)
  }

  lemma PutElsewhere(m: Contents, k: Kind, val: Bytes, ttl: Time, now: Time, n: string, four: bool, t: Time)
    requires k != Ip(n, four) && (k.Hash? ==> IsHash(k.hash))
    ensures Current(Put(m, Key(k), val, ttl, now), Ip(n, four), t) == Current(m, Ip(n, four), t)
  {
    KeyInjective(k, Ip(n, four));
  }

  lemma RegistrationElsewhere(data: Contents, hash: string, name: string, now: Time, n: string, four: bool)
    requires (hash == "" || IsHash(hash)) && UpdateRegistration(data, hash, name, now).Some?
    ensures Current(UpdateRegistration(data, hash, name, now).value, Ip(n, four), now) ==
              Current(data, Ip(n, four), now)
  {
    var loaded := LoadRegistration(data, name, now).value;
    var val, ttl := MarshalRegistration(UpdatedRecord(loaded, hash, now)), UpdateTtl(loaded);
    PutElsewhere(data, Reg(name), val, ttl, now, n, four, now);
    if hash != "" {
      PutElsewhere(Put(data, Key(Reg(name)), val, ttl, now), Hash(hash), BytesOf(name), ttl, now, n, four, now);
    }
  }

  lemma DropElsewhere(m: Contents, keys: set<string>, n: string, four: bool, t: Time)
    requires Key(Ip(n, four)) !in keys
    ensures Current(m - keys, Ip(n, four), t) == Current(m, Ip(n, four), t)
  {
  }

  lemma IpKeysDiffer(n: string, four: bool, k: Kind)
    requires (k.Hash? ==> IsHash(k.hash)) && k != Ip(n, four)
    ensures Key(k) != Key(Ip(n, four))
  {
    KeyInjective(k, Ip(n, four));
  }

  lemma RegisterLeavesOthers(s: State, name: string, verified: bool, hash: string, n: string, four: bool)
    requires IsHash(hash)
    ensures IpOf(Register(s, name, verified, hash).0, n, four) == IpOf(s, n, four)
  {
    var m := Lower(name);
    if UpdateRegistration(s.data, hash, m, s.now).Some? {
      RegistrationElsewhere(s.data, hash, m, s.now, n, four);
    }
  }

  lemma NameKeysElsewhere(m: string, hash: string, n: string, four: bool)
    requires m != n && (hash == "" || IsHash(hash))
    ensures Key(Ip(n, four)) !in NameKeys(m, hash)
  {
    IpKeysDiffer(n, four, Ip(m, true));
    IpKeysDiffer(n, four, Ip(m, false));
    IpKeysDiffer(n, four, Reg(m));
    if hash != "" {
      IpKeysDiffer(n, four, Hash(hash));
    }
  }

  lemma UnregisterLeavesOthers(s: State, key: Presented, n: string, four: bool)
    requires IsHash(key.hash) && FindName(s, key) != Some(n)
    ensures IpOf(Unregister(s, key).0, n, four) == IpOf(s, n, four)
  {
    if FindName(s, key).Some? {
      var m := FindName(s, key).value;
      var keys := {Key(Ip(m, true)), Key(Ip(m, false)), Key(Reg(m)), Key(Hash(key.hash))};
      NameKeysElsewhere(m, key.hash, n, four);
      assert keys == NameKeys(m, key.hash);
      DropElsewhere(s.data, keys, n, four, s.now);
    }
  }

  lemma StrippedElsewhere(s: State, m: string, n: string, four: bool)
    requires Inv(s) && m != n && RegOf(s, m).Some?
    ensures IpOf(StrippedOf(s, m), n, four) == IpOf(s, n, four)
  {
    var h := HashOf(s, m);
    var gone := {Key(Ip(m, true)), Key(Ip(m, false))} + (if h == "" then {} else {Key(Hash(h))});
    NameKeysElsewhere(m, h, n, four);
    assert gone <= NameKeys(m, h);
    DropElsewhere(s.data, gone, n, four, s.now);
  }

  lemma AdminLeavesOthers(s: State, name: string, suspend: bool, n: string, four: bool)
    requires Inv(s) && (name != n || RegOf(s, name).None?)
    ensures IpOf(Administer(s, name, suspend).0, n, four) == IpOf(s, n, four)
  {
    CurrentIsGet(s.data, Reg(name), s.now);
    if name != "" && RegOf(s, name).Some? {
      var t := StrippedOf(s, name);
      StrippedElsewhere(s, name, n, four);
      if suspend {
        if UpdateRegistration(t.data, "", name, t.now).Some? {
          RegistrationElsewhere(t.data, "", name, t.now, n, four);
        }
      } else {
        IpKeysDiffer(n, four, Reg(name));
        DropElsewhere(t.data, {Key(Reg(name))}, n, four, t.now);
      }
    }
  }

  lemma RemoveElsewhere(s: State, n: string, four: bool, m: string)
    requires m != n
    ensures Current(s.data - {Key(Ip(m, true)), Key(Ip(m, false))}, Ip(n, four), s.now) == IpOf(s, n, four)
  {
    IpKeysDiffer(n, four, Ip(m, true));
    IpKeysDiffer(n, four, Ip(m, false));
    DropElsewhere(s.data, {Key(Ip(m, true)), Key(Ip(m, false))}, n, four, s.now);
  }

  /** The entry an address update writes. */
  function WrittenIp(s: State, ip: Bytes): Entry {
    Entry(Expiry(s.now, ADDRESS_TTL), MarshalAddress(Address(s.now, StoredIp(ip))))
  }

  lemma TouchedElsewhere(s: State, m: string, ip: IpParam, challenge: string, n: string, four: bool)
    ensures m != n || !ip.GivenIp? || To4(ip.ip).Some? != four ==>
              IpOf(Touched(s, m, ip, challenge), n, four) == IpOf(s, n, four)
  {
    if ip.GivenIp? && (m != n || To4(ip.ip).Some? != four) {
      var e := WrittenIp(s, ip.ip);
      PutElsewhere(s.data, Ip(m, To4(ip.ip).Some?), e.value, ADDRESS_TTL, s.now, n, four, s.now);
    }
  }

  lemma RenewElsewhere(s: State, m: string, ip: IpParam, challenge: string, n: string, four: bool)
    requires Inv(s) && RegOf(s, m).Some? && HashOf(s, m) != ""
    ensures var d := UpdateRegistration(Touched(s, m, ip, challenge).data, HashOf(s, m), m, s.now);
            && d.Some?
            && (m != n || !ip.GivenIp? || To4(ip.ip).Some? != four ==>
              Current(d.value, Ip(n, four), s.now) == IpOf(s, n, four))
  {
    TouchedIsExtended(s, m, ip, challenge);
    RenewKeepsInv(s, Touched(s, m, ip, challenge), m);
    TouchedElsewhere(s, m, ip, challenge, n, four);
    RegistrationElsewhere(Touched(s, m, ip, challenge).data, HashOf(s, m), m, s.now, n, four);
  }

  lemma UpdateLeavesOthers(s: State, key: Presented, remove: bool, ip: IpParam, challenge: string, n: string,
          four: bool)
    requires Inv(s) && IsHash(key.hash) && !Touches(s, DoUpdate(key, remove, ip, challenge), n, four)
    ensures IpOf(Update(s, key, remove, ip, challenge).0, n, four) == IpOf(s, n, four)
  {
    var (u, reply) := Update(s, key, remove, ip, challenge);
    UpdateShapes(s, key, remove, ip, challenge);
    if reply == Accepted {
      var m := FindName(s, key).value;
      FoundOwner(s, key);
      if remove {
        RemoveElsewhere(s, n, four, m);
      } else {
        RenewElsewhere(s, m, ip, challenge, n, four);
      }
    }
  }

  lemma AddressLiveNow(s: State, n: string, four: bool)
    ensures StillLive(IpOf(s, n, four), s.now) == IpOf(s, n, four)
  {
    CurrentIsLive(s.data, Ip(n, four), s.now);
  }

  /** A step that does not touch the address leaves it as it is, present or absent, until it expires. */
  lemma StepLeavesOthers(s: State, a: Step, n: string, four: bool)
    requires Inv(s) && Enabled(s, a) && !Touches(s, a, n, four)
    ensures IpOf(Next(s, a), n, four) == StillLive(IpOf(s, n, four), ClockAfter(s, a))
  {
    AddressLiveNow(s, n, four);
    match a
    case DoUpdate(key, remove, ip, challenge) =>
      UpdateLeavesOthers(s, key, remove, ip, challenge, n, four);
    case Tick(to) => CurrentLater(s.data, Ip(n, four), s.now, to);
    case PruneData => PrunedEntries(s.data, Key(Ip(n, four)), s.now);
    case PruneChallenges =>
    case Foreign(data, chal) =>
      assert PREFIX <= Key(Ip(n, four));
    case DoRegister(name, verified, hash) => RegisterLeavesOthers(s, name, verified, hash, n, four);
    case DoUnregister(key) => UnregisterLeavesOthers(s, key, n, four);
    case DoAdmin(name, suspend) => AdminLeavesOthers(s, name, suspend, n, four);
  }

  lemma {:induction false} RunLeavesOthers(s: State, steps: seq<Step>, n: string, four: bool)
    requires Inv(s) && IsRun(s, steps) && Untouched(s, steps, n, four)
    ensures IpOf(After(s, steps), n, four) == StillLive(IpOf(s, n, four), After(s, steps).now)
    decreases |steps|
  {
    if steps == [] {
      AddressLiveNow(s, n, four);
    } else {
      StepKeepsInv(s, steps[0]);
      ClockRuns(Next(s, steps[0]), steps[1..]);
      StepLeavesOthers(s, steps[0], n, four);
      ClockStep(s, steps[0]);
      RunLeavesOthers(Next(s, steps[0]), steps[1..], n, four);
    }
  }

  /** An accepted address update is the address write followed by the registration's. */
  lemma UpdateShape(s: State, key: Presented, ip: Bytes, u: State, n: string)
    requires Update(s, key, false, GivenIp(ip), "") == (u, Accepted) && FindName(s, key) == Some(n)
    ensures var t := Touched(s, n, GivenIp(ip), "");
            UpdateRegistration(t.data, key.hash, n, s.now).Some?
              && u == t.(data := UpdateRegistration(t.data, key.hash, n, s.now).value)
  {
  }

  lemma StoredAfter(s: State, n: string, ip: Bytes, hash: string, d: Contents)
    requires Inv(s) && IsHash(hash)
               && UpdateRegistration(Touched(s, n, GivenIp(ip), "").data, hash, n, s.now) == Some(d)
    ensures Current(d, Ip(n, To4(ip).Some?), s.now) == Some(WrittenIp(s, ip))
  {
    var four, e := To4(ip).Some?, WrittenIp(s, ip);
    var m := Touched(s, n, GivenIp(ip), "").data;
    assert m == Put(s.data, Key(Ip(n, four)), e.value, ADDRESS_TTL, s.now);
    RegistrationElsewhere(m, hash, n, s.now, n, four);
    CurrentPut(s.data, Ip(n, four), e.value, ADDRESS_TTL, s.now, Ip(n, four), s.now);
  }

  /** Right after an accepted address update the entry is there. */
  lemma UpdateStores(s: State, key: Presented, ip: Bytes, u: State, n: string)
    requires Inv(s) && IsHash(key.hash)
    requires Update(s, key, false, GivenIp(ip), "") == (u, Accepted) && FindName(s, key) == Some(n)
    ensures IpOf(u, n, To4(ip).Some?) == Some(WrittenIp(s, ip))
  {
    UpdateShape(s, key, ip, u, n);
    StoredAfter(s, n, ip, key.hash, u.data);
  }

  predicate IsQuery(qname: string, zone: string, extra: string, leaf: string) {
    qname == extra + leaf + "." + zone && (extra == "" || extra[|extra| - 1] == '.')
  }

  /** A query name: any labels, the name in any letter case, the zone. */
  ghost predicate QueriesName(qname: string, zone: string, n: string) {
    exists extra: string, leaf: string :: IsQuery(qname, zone, extra, leaf) && Lower(leaf) == n
  }

  lemma QueryLeaf(qname: string, zone: string, extra: string, leaf: string)
    requires IsQuery(qname, zone, extra, leaf) && '.' !in leaf
    ensures |zone| < |qname| && AfterLastDot(qname[..|qname| - |zone| - 1]) == leaf
  {
    assert qname[..|qname| - |zone| - 1] == extra + leaf;
    AfterLastDotFree(extra, leaf);
  }

  /** A label is a valid name when its lower-case form is. */
  lemma LoweredBack(leaf: string)
    requires ValidName(Lower(leaf))
    ensures ValidName(leaf) && '.' !in leaf
  {
    forall i | 0 <= i < |leaf|
      ensures IsLetterOrDigit(leaf[i]) || leaf[i] == '-'
    {
      assert Lower(leaf)[i] == LowerChar(leaf[i]);
    }
    assert Lower(leaf)[0] == LowerChar(leaf[0]) && Lower(leaf)[|leaf| - 1] == LowerChar(leaf[|leaf| - 1]);
  }

  lemma GenerateForLeaf(s: State, qname: string, zone: string, leaf: string, four: bool)
    requires |zone| < |qname| && AfterLastDot(qname[..|qname| - |zone| - 1]) == leaf && ValidName(leaf)
    ensures Generate(s, qname, if four then A else AAAA, zone) ==
            AddressRecords(LoadAddress(s.data, Lower(leaf), four, s.now))
  {
  }

  lemma FlagForLeaf(s: State, qname: string, qtype: Qtype, zone: string, leaf: string)
    requires |zone| < |qname| && AfterLastDot(qname[..|qname| - |zone| - 1]) == leaf
    ensures var answer := Generate(s, qname, qtype, zone);
            && (answer.Records? ==> (answer.validName <==> ValidName(leaf)))
            && (!ValidName(leaf) ==> answer == Records([], false))
            && (ValidName(leaf) && qtype == Other ==> answer == Records([], true))
  {
  }

  /** An answer says that the name exists exactly when the last label before the zone is a valid
      name; for any other question than A, AAAA and TXT it then has no records. */
  lemma ValidNameFlag(s: State, qname: string, qtype: Qtype, zone: string, extra: string, leaf: string)
    requires IsQuery(qname, zone, extra, leaf) && '.' !in leaf
    ensures |zone| <= |qname|
    ensures var answer := Generate(s, qname, qtype, zone);
            && (answer.Records? ==> (answer.validName <==> ValidName(leaf)))
            && (!ValidName(leaf) ==> answer == Records([], false))
            && (ValidName(leaf) && qtype == Other ==> answer == Records([], true))
    ensures Generate(s, zone, qtype, zone) == Records([], false)
  {
    QueryLeaf(qname, zone, extra, leaf);
    FlagForLeaf(s, qname, qtype, zone, leaf);
  }

  lemma QueryFindsEntry(s: State, qname: string, zone: string, n: string, four: bool)
    requires IsOwned(n) && QueriesName(qname, zone, n)
    ensures |zone| <= |qname|
    ensures Generate(s, qname, if four then A else AAAA, zone) == AddressRecords(LoadAddress(s.data, n, four, s.now))
  {
    var extra: string, leaf: string :| IsQuery(qname, zone, extra, leaf) && Lower(leaf) == n;
    LoweredBack(leaf);
    QueryLeaf(qname, zone, extra, leaf);
    GenerateForLeaf(s, qname, zone, leaf, four);
  }

  lemma StoredIpLength(ip: Bytes)
    requires |ip| == 4 || |ip| == 16
    ensures |StoredIp(ip)| == if To4(ip).Some? then 4 else 16
  {
  }

  lemma LoadWritten(s: State, n: string, four: bool, a: Address, e: Entry)
    requires IpOf(s, n, four) == Some(e) && e.value == MarshalAddress(a) && (|a.ip| == 4 || |a.ip| == 16)
    ensures AddressRecords(LoadAddress(s.data, n, four, s.now)) == Records([Addr(a.ip)], true)
  {
    CurrentIsGet(s.data, Ip(n, four), s.now);
    AddressRoundTrip(a);
  }

  lemma WrittenExpiry(s: State, ip: Bytes)
    requires Inv(s)
    ensures WrittenIp(s, ip).expires as int == s.now + 90 * 86400
  {
  }

  /** The one record is the address itself, or the four bytes that its mapped form stands for. */
  ghost predicate IsAddressAnswer(answer: Answer, ip: Bytes) {
    && (forall b :: MapsTo(ip, b) ==> answer == Records([Addr(b)], true))
    && ((forall b :: !MapsTo(ip, b)) ==> answer == Records([Addr(ip)], true))
  }

  /** What a lookup of the entry an update wrote at `was` gives at a later reading. */
  lemma EntryAnswers(was: State, ip: Bytes, t: State, n: string, four: bool)
    requires Inv(was) && (|ip| == 4 || |ip| == 16)
    requires IpOf(t, n, four) == StillLive(Some(WrittenIp(was, ip)), t.now)
    ensures var answer := AddressRecords(LoadAddress(t.data, n, four, t.now));
            if t.now < was.now + 90 * 86400 then IsAddressAnswer(answer, ip) else answer == Records([], true)
  {
    WrittenExpiry(was, ip);
    StoredIpMeaning(ip);
    StoredIpLength(ip);
    CurrentIsGet(t.data, Ip(n, four), t.now);
    if t.now < was.now + 90 * 86400 {
      LoadWritten(t, n, four, Address(was.now, StoredIp(ip)), WrittenIp(was, ip));
    }
  }

  /** After an accepted address update at s, every later query for the name in that family,
      in any letter case, under any extra labels and any zone, answers with exactly those
      address bytes, for 90 days exactly, as long as no step touches that family of that name. */
  lemma UpdateThenResolve(s: State, key: Presented, ip: Bytes, u: State, n: string, four: bool, steps: seq<Step>,
          qname: string, zone: string)
    requires Inv(s) && IsHash(key.hash) && (|ip| == 4 || |ip| == 16) && four == IsFour(ip)
    requires Update(s, key, false, GivenIp(ip), "") == (u, Accepted) && FindName(s, key) == Some(n)
    requires IsRun(u, steps) && Untouched(u, steps, n, four) && QueriesName(qname, zone, n)
    ensures |zone| <= |qname|
    ensures var answer := Generate(After(u, steps), qname, if four then A else AAAA, zone);
            if After(u, steps).now < s.now + 90 * 86400 then IsAddressAnswer(answer, ip)
            else answer == Records([], true)
  {
    FoundOwner(s, key);
    StoredIpMeaning(ip);
    UpdateStores(s, key, ip, u, n);
    UpdateKeepsInv(s, key, false, GivenIp(ip), "");
    RunLeavesOthers(u, steps, n, four);
    EntryAnswers(s, ip, After(u, steps), n, four);
    QueryFindsEntry(After(u, steps), qname, zone, n, four);
  }

  // ----- From the first claim to the answer

  /** A free valid name can be claimed, and the key handed out updates it at once. */
  lemma RegisteredKeyWorks(s: State, name: string, hash: string, ip: Bytes)
    requires Inv(s) && Enabled(s, DoRegister(name, true, hash)) && ValidName(name) && RegOf(s, Lower(name)).None?
    ensures var (u, reply) := Register(s, name, true, hash);
            && reply == Accepted
            && FindName(u, Presented(64, hash)) == Some(Lower(name))
            && Update(u, Presented(64, hash), false, GivenIp(ip), "").1 == Accepted
  {
    ClaimWrites(s, name, hash);
    var u := Register(s, name, true, hash).0;
    FoundOwner(u, Presented(64, hash));
    TouchedIsExtended(u, Lower(name), GivenIp(ip), "");
    RenewKeepsInv(u, Touched(u, Lower(name), GivenIp(ip), ""), Lower(name));
  }

  /** From any reachable state: claim a free name, update it with the new key, and every later
      query answers with the address, for 90 days exactly, until it is touched. */
  lemma ClaimThenResolve(start: Time, before: seq<Step>, name: string, hash: string, ip: Bytes, w: State,
          steps: seq<Step>, qname: string, zone: string)
    requires start + REGISTRATION_TTL < WRAP && IsRun(Initial(start), before)
    requires var s := After(Initial(start), before);
             && Enabled(s, DoRegister(name, true, hash)) && ValidName(name) && RegOf(s, Lower(name)).None?
             && w == Update(Register(s, name, true, hash).0, Presented(64, hash), false, GivenIp(ip), "").0
    requires |ip| == 4 || |ip| == 16
    requires IsRun(w, steps) && Untouched(w, steps, Lower(name), IsFour(ip)) && QueriesName(qname, zone, Lower(name))
    ensures |zone| <= |qname|
    ensures var answer := Generate(After(w, steps), qname, if IsFour(ip) then A else AAAA, zone);
            if After(w, steps).now < After(Initial(start), before).now + 90 * 86400 then IsAddressAnswer(answer, ip)
            else answer == Records([], true)
  {
    RunKeepsInv(Initial(start), before);
    var s := After(Initial(start), before);
    var u := Register(s, name, true, hash).0;
    ClaimWrites(s, name, hash);
    RegisteredKeyWorks(s, name, hash, ip);
    UpdateThenResolve(u, Presented(64, hash), ip, w, Lower(name), IsFour(ip), steps, qname, zone);
  }

  lemma NoLiveEntry(m: Contents, k: Kind, now: Time)
    requires forall e :: !LiveAt(m, Key(k), now, e)
    ensures Current(m, k, now) == None
  {
    var live := Live(EntriesAt(m, Key(k)), now);
    if live != [] {
      LiveMember(EntriesAt(m, Key(k)), live[0], now);
      assert LiveAt(m, Key(k), now, live[0]);
    }
  }

  /** In every state a run reaches, a name without a live registration, whether it was never
      claimed, deleted or has expired, answers with no address. */
  lemma UnregisteredAnswersNothing(start: Time, steps: seq<Step>, qname: string, zone: string, n: string, four: bool)
    requires start + REGISTRATION_TTL < WRAP && IsRun(Initial(start), steps)
    requires RegOf(After(Initial(start), steps), n).None? && IsOwned(n) && QueriesName(qname, zone, n)
    ensures |zone| <= |qname|
    ensures Generate(After(Initial(start), steps), qname, if four then A else AAAA, zone) == Records([], true)
  {
    var s := After(Initial(start), steps);
    NoRecordOutlivesRegistration(start, steps);
    assert forall e :: LiveIp(s, n, four, e) <==> LiveAt(s.data, Key(Ip(n, four)), s.now, e);
    NoLiveEntry(s.data, Ip(n, four), s.now);
    CurrentIsGet(s.data, Ip(n, four), s.now);
    QueryFindsEntry(s, qname, zone, n, four);
  }
}
