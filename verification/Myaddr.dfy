/** The myaddr request handlers as atomic steps over the data and challenge stores. Each
    request reads the clock once; the two stores are unlimited and their calls succeed. */
module Myaddr {
  import opened Text
  import opened Bytes
  import opened Clock
  import opened TtlStore
  import opened AsciiCase
  import opened MyaddrRecords
  import opened StoreRuns

  datatype State = State(data: Contents, chal: Contents, now: Time)

  datatype Reply = Accepted | BadRequest | Conflict | ServerError

  /** A presented key: its length, and the digest it is looked up under. */
  datatype Presented = Presented(length: nat, hash: string)

  datatype IpParam = NoIp | BadIp | GivenIp(ip: Bytes)

  // ----- Store calls

  function Put(m: Contents, key: string, val: Bytes, ttl: Time, now: Time): Contents {
    m[key := [Entry(Expiry(now, ttl), val)]]
  }

  function Append(m: Contents, key: string, val: Bytes, ttl: Time, now: Time): Contents {
    m[key := EntriesAt(m, key) + [Entry(Expiry(now, ttl), val)]]
  }

  /** These are the calls of a store without a size limit. */
  lemma UnlimitedStore(s: Store, key: string, val: Bytes, ttl: Time, now: Time)
    requires s.maxSize == 0
    ensures DoSet(s, key, val, ttl, now).1 && DoSet(s, key, val, ttl, now).0.m == Put(s.m, key, val, ttl, now)
    ensures DoAdd(s, key, val, ttl, now).1 && DoAdd(s, key, val, ttl, now).0.m == Append(s.m, key, val, ttl, now)
    ensures DoDelete(s, key).m == s.m - {key}
  {
    SetFailure(s, key, val, ttl, now);
    assert key !in s.m ==> s.m - {key} == s.m;
  }

  /** The first live entry of a kind. */
  function Current(m: Contents, k: Kind, now: Time): Option<Entry> {
    var l := Live(EntriesAt(m, Key(k)), now);
    if l == [] then None else Some(l[0])
  }

  lemma CurrentIsGet(m: Contents, k: Kind, now: Time)
    ensures Get(m, Key(k), now) == if Current(m, k, now).None? then None else Some(Current(m, k, now).value.value)
  {
  }

  // ----- Registrations

  /** A missing registration is `Some(None)`, an undecodable one an error. */
  function LoadRegistration(data: Contents, name: string, now: Time): Option<Option<Registration>> {
    match Get(data, Key(Reg(name)), now)
    case None => Some(None)
    case Some(d) => if UnmarshalRegistration(d).None? then None else Some(UnmarshalRegistration(d))
  }

  function UpdatedRecord(was: Option<Registration>, hash: string, now: Time): Registration {
    Registration(if was.None? then now else was.value.created, now, hash)
  }

  function UpdateTtl(was: Option<Registration>): Time {
    if was.None? then PENDING_TTL else REGISTRATION_TTL
  }

  /** The registration is rewritten, and with a non-empty hash so is the key entry. */
  function UpdateRegistration(data: Contents, hash: string, name: string, now: Time): Option<Contents> {
    match LoadRegistration(data, name, now)
    case None => None
    case Some(was) =>
      var d := Put(data, Key(Reg(name)), MarshalRegistration(UpdatedRecord(was, hash, now)), UpdateTtl(was), now);
      Some(if hash == "" then d else Put(d, Key(Hash(hash)), BytesOf(name), UpdateTtl(was), now))
  }

  // ----- Requests

  /** hash is the digest of the freshly drawn key. */
  function Register(s: State, name: string, verified: bool, hash: string): (State, Reply) {
    var n := Lower(name);
    if !ValidName(name) || !verified then (s, BadRequest)
    else if Values(s.data, Key(Reg(n)), s.now) != [] then (s, Conflict)
    else
      match UpdateRegistration(s.data, hash, n, s.now)
      case None => (s, ServerError)
      case Some(d) => (s.(data := d), Accepted)
  }

  /** The name a presented key stands for. */
  function FindName(s: State, key: Presented): Option<string> {
    if key.length != 64 then None
    else
      match Get(s.data, Key(Hash(key.hash)), s.now)
      case None => None
      case Some(b) => Some(StringOf(b))
  }

  function Forget(s: State, n: string, hash: string): State {
    s.(data := s.data - {Key(Ip(n, true)), Key(Ip(n, false)), Key(Reg(n)), Key(Hash(hash))},
      chal := s.chal - {ChallengeKey(n)})
  }

  function Unregister(s: State, key: Presented): (State, Reply) {
    match FindName(s, key)
    case None => (s, BadRequest)
    case Some(n) => (Forget(s, n, key.hash), Accepted)
  }

  /** 1 to 255 letters, digits, hyphens and underscores. */
  predicate ValidChallenge(c: string) {
    1 <= |c| <= 255 && forall i :: 0 <= i < |c| ==> IsLetterOrDigit(c[i]) || c[i] == '-' || c[i] == '_'
  }

  function StoredIp(ip: Bytes): Bytes {
    if To4(ip).Some? then To4(ip).value else ip
  }

  predicate IsChallengeChar(c: char) {
    IsNameChar(c) || c == '_'
  }

  lemma ChallengeMeaning(c: string)
    ensures ValidChallenge(c) <==> 1 <= |c| <= 255 && forall i :: 0 <= i < |c| ==> IsChallengeChar(c[i])
  {
    forall i | 0 <= i < |c|
      ensures IsLetterOrDigit(c[i]) || c[i] == '-' || c[i] == '_' <==> IsChallengeChar(c[i])
    {
      LetterMeaning(c[i]);
    }
  }

  /** What is stored of an address: of a mapped one its four bytes, of any other all of it. */
  lemma StoredIpMeaning(ip: Bytes)
    ensures forall b :: MapsTo(ip, b) ==> StoredIp(ip) == b
    ensures (forall b :: !MapsTo(ip, b)) ==> StoredIp(ip) == ip
    ensures To4(ip).Some? <==> IsFour(ip)
  {
    To4Meaning(ip);
  }

  function UpdateIp(data: Contents, n: string, ip: Bytes, now: Time): Contents {
    Put(data, Key(Ip(n, To4(ip).Some?)), MarshalAddress(Address(now, StoredIp(ip))), ADDRESS_TTL, now)
  }

  function Update(s: State, key: Presented, remove: bool, ip: IpParam, challenge: string): (State, Reply) {
    if key.length != 64 || ip.BadIp? || (challenge != "" && !ValidChallenge(challenge)) then (s, BadRequest)
    else
      match FindName(s, key)
      case None => (s, BadRequest)
      case Some(n) =>
        if remove then
          if ip.GivenIp? || challenge != "" then (s, BadRequest)
          else (s.(data := s.data - {Key(Ip(n, true)), Key(Ip(n, false))}), Accepted)
        else if ip.GivenIp? == (challenge != "") then (s, BadRequest)
        else
          var t := if ip.GivenIp? then s.(data := UpdateIp(s.data, n, ip.ip, s.now))
                   else s.(chal := Append(s.chal, ChallengeKey(n), BytesOf(challenge), CHALLENGE_TTL, s.now));
          match UpdateRegistration(t.data, key.hash, n, s.now)
          case None => (t, ServerError)
          case Some(d) => (t.(data := d), Accepted)
  }

  /** Delete or suspend, for any text an administrator types. */
  function Administer(s: State, name: string, suspend: bool): (State, Reply) {
    if name == "" then (s, BadRequest)
    else
      match LoadRegistration(s.data, name, s.now)
      case None => (s, ServerError)
      case Some(None) => (s, BadRequest)
      case Some(Some(r)) =>
        var gone := {Key(Ip(name, true)), Key(Ip(name, false))} + (if r.hash == "" then {} else {Key(Hash(r.hash))});
        var t := s.(data := s.data - gone, chal := s.chal - {ChallengeKey(name)});
        if !suspend then (t.(data := t.data - {Key(Reg(name))}), Accepted)
        else
          match UpdateRegistration(t.data, "", name, s.now)
          case None => (t, ServerError)
          case Some(d) => (t.(data := d), Accepted)
  }

  // ----- The handlers, store call by store call

  method IsValidChallenge(s: string) returns (r: bool)
    ensures r <==> ValidChallenge(s)
  {
    if |s| < 1 || |s| > 255 {
      return false;
    }
    for i := 0 to |s|
      invariant forall j :: 0 <= j < i ==> IsLetterOrDigit(s[j]) || s[j] == '-' || s[j] == '_'
    {
      var c := s[i];
      if c >= '0' && c <= '9' {
      } else if c >= 'A' && c <= 'Z' {
      } else if c >= 'a' && c <= 'z' {
      } else if c == '-' {
      } else if c == '_' {
      } else {
        return false;
      }
    }
    return true;
  }

  class Service {
    var data: Contents
    var chal: Contents

    constructor ()
      ensures data == map[] && chal == map[]
    {
      data, chal := map[], map[];
    }

    function At(now: Time): State
      reads this
    {
      State(data, chal, now)
    }

    method SetData(key: string, val: Bytes, ttl: Time, now: Time)
      modifies this`data
      ensures data == Put(old(data), key, val, ttl, now)
    {
      data := Put(data, key, val, ttl, now);
    }

    method DeleteData(key: string)
      modifies this`data
      ensures data == old(data) - {key}
    {
      data := data - {key};
    }

    method WriteRegistration(hash: string, name: string, now: Time) returns (ok: bool)
      modifies this`data
      ensures UpdateRegistration(old(data), hash, name, now) == if ok then Some(data) else None
      ensures !ok ==> data == old(data)
    {
      var loaded := LoadRegistration(data, name, now);
      if loaded.None? {
        return false;
      }
      var reg, ttl;
      if loaded.value.None? {
        reg, ttl := Registration(now, now, hash), PENDING_TTL;
      } else {
        reg, ttl := loaded.value.value.(updated := now, hash := hash), REGISTRATION_TTL;
      }
      SetData(Key(Reg(name)), MarshalRegistration(reg), ttl, now);
      if |hash| > 0 {
        SetData(Key(Hash(hash)), BytesOf(name), ttl, now);
      }
      ok := true;
    }

    method HandleRegister(name: string, verified: bool, hash: string, now: Time) returns (reply: Reply)
      modifies this
      ensures (At(now), reply) == Register(old(At(now)), name, verified, hash)
    {
      var valid := IsValidName(name);
      if !valid || !verified {
        return BadRequest;
      }
      var lowered := ToLowerAscii(name);
      if Values(data, Key(Reg(lowered)), now) != [] {
        return Conflict;
      }
      var ok := WriteRegistration(hash, lowered, now);
      reply := if ok then Accepted else ServerError;
    }

    method HandleUnregister(key: Presented, now: Time) returns (reply: Reply)
      modifies this
      ensures (At(now), reply) == Unregister(old(At(now)), key)
    {
      var name := FindName(At(now), key);
      if name.None? {
        return BadRequest;
      }
      ghost var was := data;
      DeleteData(Key(Ip(name.value, true)));
      DeleteData(Key(Ip(name.value, false)));
      DeleteData(Key(Reg(name.value)));
      DeleteData(Key(Hash(key.hash)));
      assert data == was - {Key(Ip(name.value, true)), Key(Ip(name.value, false)), Key(Reg(name.value)),
        Key(Hash(key.hash))};
      chal := chal - {ChallengeKey(name.value)};
      reply := Accepted;
    }

    method WriteIp(name: string, ip: Bytes, now: Time)
      modifies this`data
      ensures data == UpdateIp(old(data), name, ip, now)
    {
      var stored, four := ip, false;
      var ip4 := To4(ip);
      if ip4.Some? {
        stored, four := ip4.value, true;
      }
      SetData(Key(Ip(name, four)), MarshalAddress(Address(now, stored)), ADDRESS_TTL, now);
    }

    method HandleUpdate(key: Presented, remove: bool, ip: IpParam, challenge: string, now: Time) returns (reply: Reply)
      modifies this
      ensures (At(now), reply) == Update(old(At(now)), key, remove, ip, challenge)
    {
      if key.length != 64 || ip.BadIp? {
        return BadRequest;
      }
      if |challenge| > 0 {
        var valid := IsValidChallenge(challenge);
        if !valid {
          return BadRequest;
        }
      }
      var name := FindName(At(now), key);
      if name.None? {
        return BadRequest;
      }
      if remove {
        if ip.GivenIp? || |challenge| > 0 {
          return BadRequest;
        }
        ghost var was := data;
        DeleteData(Key(Ip(name.value, true)));
        DeleteData(Key(Ip(name.value, false)));
        assert data == was - {Key(Ip(name.value, true)), Key(Ip(name.value, false))};
        return Accepted;
      }
      if (!ip.GivenIp? && |challenge| == 0) || (ip.GivenIp? && |challenge| > 0) {
        return BadRequest;
      }
      if ip.GivenIp? {
        WriteIp(name.value, ip.ip, now);
      } else {
        chal := Append(chal, ChallengeKey(name.value), BytesOf(challenge), CHALLENGE_TTL, now);
      }
      var ok := WriteRegistration(key.hash, name.value, now);
      reply := if ok then Accepted else ServerError;
    }

    method HandleAdmin(name: string, suspend: bool, now: Time) returns (reply: Reply)
      modifies this
      ensures (At(now), reply) == Administer(old(At(now)), name, suspend)
    {
      if name == "" {
        return BadRequest;
      }
      var loaded := LoadRegistration(data, name, now);
      if loaded.None? {
        return ServerError;
      }
      if loaded.value.None? {
        return BadRequest;
      }
      var reg := loaded.value.value;
      ghost var was := data;
      if |reg.hash| > 0 {
        DeleteData(Key(Hash(reg.hash)));
      }
      DeleteData(Key(Ip(name, true)));
      DeleteData(Key(Ip(name, false)));
      chal := chal - {ChallengeKey(name)};
      assert data == was - ({Key(Ip(name, true)), Key(Ip(name, false))} + (if reg.hash == "" then {}
        else {Key(Hash(reg.hash))}));
      var ok := true;
      if suspend {
        ok := WriteRegistration("", name, now);
      } else {
        DeleteData(Key(Reg(name)));
      }
      reply := if ok then Accepted else ServerError;
    }
  }
}
