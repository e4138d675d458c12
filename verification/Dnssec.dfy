/** Signing responses and proving non-existence, and the deferred pipeline that every
    answered query goes through. */
module Dnssec {
  import opened Clock
  import opened Text
  import opened AsciiCase

  const A := 1
  const NS := 2
  const SOA := 6
  const HINFO := 13
  const MX := 15
  const TXT := 16
  const AAAA := 28
  const OPT := 41
  const RRSIG := 46
  const NSEC := 47
  const DNSKEY := 48
  const HTTPS := 65
  const NXNAME := 128
  const ANY := 255
  const CLASS_IN := 1

  const SUCCESS := 0
  const FORMAT_ERROR := 1
  const SERVER_FAILURE := 2
  const NAME_ERROR := 3
  const NOT_IMPLEMENTED := 4
  const REFUSED := 5
  const BAD_VERSION := 16

  type Type = t: nat | t < 65536

  /** A signature keeps the records it was made over. */
  datatype RR =
    | Plain(name: string, rrtype: Type, ttl: Time, body: string)
    | Rrsig(name: string, covered: Type, ttl: Time, inception: Time, expiration: Time, over: seq<RR>)
    | Nsec(name: string, ttl: Time, next: string, types: seq<Type>)
  {
    function TypeOf(): Type {
      match this
      case Plain(_, t, _, _) => t
      case Rrsig(_, _, _, _, _, _) => RRSIG
      case Nsec(_, _, _, _) => NSEC
    }
  }

  // ----- Signing a section

  /** The records of a type, in order, signatures left out. */
  function OfType(rrs: seq<RR>, t: Type): seq<RR> {
    if rrs == [] then []
    else
      var rr := rrs[|rrs| - 1];
      OfType(rrs[..|rrs| - 1], t) + (if !rr.Rrsig? && rr.TypeOf() == t then [rr] else [])
  }

  predicate Has(rrs: seq<RR>, t: Type) {
    exists i :: 0 <= i < |rrs| && !rrs[i].Rrsig? && rrs[i].TypeOf() == t
  }

  /** How many signatures in a section cover a type. */
  function Covering(rrs: seq<RR>, t: Type): nat {
    if rrs == [] then 0
    else Covering(rrs[..|rrs| - 1], t) + (if rrs[|rrs| - 1].Rrsig? && rrs[|rrs| - 1].covered == t then 1 else 0)
  }

  predicate NeedsSignature(rrs: seq<RR>, t: Type) {
    Has(rrs, t) && Covering(rrs, t) == 0
  }

  /** The signature made over a group of records of one type. */
  function SigOver(group: seq<RR>, t: Type, validFrom: Time, validTo: Time, now: Time): RR
    requires group != []
  {
    Rrsig(group[0].name, t, group[0].ttl,
          if validFrom == 0 then Wrap(now - 3600) else validFrom,
          if validTo == 0 then Wrap(now + 3600 + group[0].ttl) else validTo,
          group)
  }

  lemma {:induction false} HasOfType(rrs: seq<RR>, t: Type)
    ensures Has(rrs, t) <==> OfType(rrs, t) != []
  {
    if rrs == [] {
    } else {
      var init, last := rrs[..|rrs| - 1], rrs[|rrs| - 1];
      HasOfType(init, t);
      assert forall i :: 0 <= i < |init| ==> init[i] == rrs[i];
    }
  }

  /** Record i of the section is one of a type; signatures do not count. */
  predicate IsOf(rrs: seq<RR>, i: nat, t: Type) {
    i < |rrs| && !rrs[i].Rrsig? && rrs[i].TypeOf() == t
  }

  /** Each record of a type comes behind those of its type that precede it in the section. */
  lemma {:induction false} OfTypeMeaning(rrs: seq<RR>, t: Type, i: nat)
    requires IsOf(rrs, i, t)
    ensures var k := |OfType(rrs[..i], t)|; k < |OfType(rrs, t)| && OfType(rrs, t)[k] == rrs[i]
  {
    var n := |rrs| - 1;
    if i == n {
    } else {
      OfTypeMeaning(rrs[..n], t, i);
      assert rrs[..n][..i] == rrs[..i];
    }
  }

  /** The first record of its type in the section. */
  predicate IsFirstOf(rrs: seq<RR>, i: nat, t: Type) {
    IsOf(rrs, i, t) && forall j :: 0 <= j < i ==> !IsOf(rrs, j, t)
  }

  lemma FirstOfType(rrs: seq<RR>, t: Type) returns (i: nat)
    requires OfType(rrs, t) != []
    ensures IsFirstOf(rrs, i, t) && OfType(rrs, t)[0] == rrs[i]
  {
    HasOfType(rrs, t);
    var k: nat :| k < |rrs| && !rrs[k].Rrsig? && rrs[k].TypeOf() == t;
    i := 0;
    while !IsOf(rrs, i, t)
      invariant i <= k && forall j :: 0 <= j < i ==> !IsOf(rrs, j, t)
      decreases k - i
    {
      i := i + 1;
    }
    HasOfType(rrs[..i], t);
    forall j | 0 <= j < i
      ensures rrs[..i][j].Rrsig? || rrs[..i][j].TypeOf() != t
    {
      assert !IsOf(rrs, j, t);
    }
    OfTypeMeaning(rrs, t, i);
  }

  /** The signature's name and TTL are those of the section's first record of the type it
      covers, and it is over all of them; its validity is as given, or by default from an hour
      before the signing to an hour behind the TTL, in 32 bits. */
  ghost predicate MadeBySigner(rrs: seq<RR>, sig: RR, validFrom: Time, validTo: Time, now: Time) {
    && sig.Rrsig? && sig.over == OfType(rrs, sig.covered)
    && (exists i: nat :: IsFirstOf(rrs, i, sig.covered) && sig.name == rrs[i].name && sig.ttl == rrs[i].ttl)
    && sig.inception == (if validFrom != 0 then validFrom else (now - 3600) % 0x1_0000_0000)
    && sig.expiration == (if validTo != 0 then validTo else (now + 3600 + sig.ttl) % 0x1_0000_0000)
  }

  lemma SigOverIsMade(rrs: seq<RR>, t: Type, validFrom: Time, validTo: Time, now: Time)
    requires OfType(rrs, t) != []
    ensures MadeBySigner(rrs, SigOver(OfType(rrs, t), t, validFrom, validTo, now), validFrom, validTo, now)
  {
    var i := FirstOfType(rrs, t);
  }

  /** Clear of the 32-bit wrap, a signature made with the default validity is valid when it is
      made and for longer than its TTL afterwards. */
  lemma DefaultValidity(rrs: seq<RR>, sig: RR, now: Time)
    requires MadeBySigner(rrs, sig, 0, 0, now) && 3600 <= now && now + 3600 + sig.ttl < 0x1_0000_0000
    ensures sig.inception <= now && now + sig.ttl < sig.expiration
    ensures sig.inception as int == now - 3600 && sig.expiration as int == now + sig.ttl + 3600
  {
  }

  /** One signature for each type that has none yet, over all its records, and no other. */
  ghost predicate IsSigning(rrs: seq<RR>, sigs: seq<RR>, validFrom: Time, validTo: Time, now: Time) {
    && (forall i :: 0 <= i < |sigs| ==> MadeBySigner(rrs, sigs[i], validFrom, validTo, now))
    && (forall t: Type :: Covering(sigs, t) == if NeedsSignature(rrs, t) then 1 else 0)
  }

  lemma {:induction false} CoveringConcat(a: seq<RR>, b: seq<RR>, t: Type)
    ensures Covering(a + b, t) == Covering(a, t) + Covering(b, t)
  {
    if b == [] {
      assert a + b == a;
    } else {
      assert (a + b)[..|a + b| - 1] == a + b[..|b| - 1];
      CoveringConcat(a, b[..|b| - 1], t);
    }
  }

  lemma CoveringSnoc(a: seq<RR>, rr: RR, t: Type)
    ensures Covering(a + [rr], t) == Covering(a, t) + (if rr.Rrsig? && rr.covered == t then 1 else 0)
  {
    assert (a + [rr])[..|a|] == a;
  }

  lemma OfTypeSnoc(a: seq<RR>, rr: RR, t: Type)
    ensures OfType(a + [rr], t) == OfType(a, t) + (if !rr.Rrsig? && rr.TypeOf() == t then [rr] else [])
  {
    assert (a + [rr])[..|a|] == a;
  }

  /** Signatures do not change what a section holds of a type. */
  lemma {:induction false} OfTypeSigned(rrs: seq<RR>, sigs: seq<RR>, t: Type)
    requires forall i :: 0 <= i < |sigs| ==> sigs[i].Rrsig?
    ensures OfType(rrs + sigs, t) == OfType(rrs, t)
  {
    if sigs == [] {
      assert rrs + sigs == rrs;
    } else {
      var init := sigs[..|sigs| - 1];
      assert (rrs + sigs)[..|rrs + sigs| - 1] == rrs + init;
      OfTypeSigned(rrs, init, t);
    }
  }

  /** What the two maps hold of one type after the records seen so far. */
  predicate ClassifiedAt(rrs: seq<RR>, byType: map<Type, seq<RR>>, signed: set<Type>, t: Type) {
    && (t in byType ==> byType[t] != [])
    && OfType(rrs, t) == (if t in byType then byType[t] else [])
    && (t in signed <==> Covering(rrs, t) > 0)
  }

  ghost predicate Classified(rrs: seq<RR>, byType: map<Type, seq<RR>>, signed: set<Type>) {
    forall t: Type :: ClassifiedAt(rrs, byType, signed, t)
  }

  lemma ClassifySignature(rrs: seq<RR>, rr: RR, byType: map<Type, seq<RR>>, signed: set<Type>)
    requires Classified(rrs, byType, signed) && rr.Rrsig?
    ensures Classified(rrs + [rr], byType, signed + {rr.covered})
  {
    forall t: Type
      ensures ClassifiedAt(rrs + [rr], byType, signed + {rr.covered}, t)
    {
      assert ClassifiedAt(rrs, byType, signed, t);
      OfTypeSnoc(rrs, rr, t);
      CoveringSnoc(rrs, rr, t);
    }
  }

  lemma ClassifyRecord(rrs: seq<RR>, rr: RR, byType: map<Type, seq<RR>>, signed: set<Type>)
    requires Classified(rrs, byType, signed) && !rr.Rrsig?
    ensures var t := rr.TypeOf();
            Classified(rrs + [rr], byType[t := (if t in byType then byType[t] else []) + [rr]], signed)
  {
    var u := rr.TypeOf();
    var more := byType[u := (if u in byType then byType[u] else []) + [rr]];
    forall t: Type
      ensures ClassifiedAt(rrs + [rr], more, signed, t)
    {
      assert ClassifiedAt(rrs, byType, signed, t);
      OfTypeSnoc(rrs, rr, t);
      CoveringSnoc(rrs, rr, t);
    }
  }

  /** The two maps the signer builds in its first loop: all the records of each type, in
      order, and the types already signed. */
  method Classify(rrs: seq<RR>) returns (byType: map<Type, seq<RR>>, signed: set<Type>)
    ensures forall t: Type :: t in byType <==> Has(rrs, t)
    ensures forall t: Type :: t in byType ==> byType[t] == OfType(rrs, t) != []
    ensures forall t: Type :: t in signed <==> Covering(rrs, t) > 0
  {
    byType, signed := map[], {};
    for i := 0 to |rrs|
      invariant Classified(rrs[..i], byType, signed)
    {
      var rr := rrs[i];
      assert rrs[..i + 1] == rrs[..i] + [rr];
      if rr.Rrsig? {
        ClassifySignature(rrs[..i], rr, byType, signed);
        signed := signed + {rr.covered};
      } else {
        ClassifyRecord(rrs[..i], rr, byType, signed);
        var t := rr.TypeOf();
        byType := byType[t := (if t in byType then byType[t] else []) + [rr]];
      }
    }
    assert rrs[..|rrs|] == rrs;
    forall t: Type
      ensures t in byType <==> Has(rrs, t)
      ensures t in byType ==> byType[t] == OfType(rrs, t) != []
      ensures t in signed <==> Covering(rrs, t) > 0
    {
      assert ClassifiedAt(rrs, byType, signed, t);
      HasOfType(rrs, t);
    }
  }

  lemma CoveringAdd(sigs: seq<RR>, sig: RR)
    requires sig.Rrsig?
    ensures forall t: Type :: Covering(sigs + [sig], t) == Covering(sigs, t) + (if t == sig.covered then 1 else 0)
  {
    forall t: Type
      ensures Covering(sigs + [sig], t) == Covering(sigs, t) + (if t == sig.covered then 1 else 0)
    {
      CoveringSnoc(sigs, sig, t);
    }
  }

  /** The signer's second loop, over the types in no particular order. */
  method SignTypes(byType: map<Type, seq<RR>>, signed: set<Type>, validFrom: Time, validTo: Time, now: Time,
          broken: set<Type>)
    returns (r: Option<seq<RR>>)
    requires forall t: Type :: t in byType ==> byType[t] != []
    ensures r.Some? <==> forall t: Type :: t in broken && t in byType ==> t in signed
    ensures r.Some? ==> forall t: Type :: Covering(r.value, t) == if t in byType && t !in signed then 1 else 0
    ensures r.Some? ==> (forall i :: 0 <= i < |r.value| ==>
              r.value[i].Rrsig? && r.value[i].covered in byType
              && r.value[i] == SigOver(byType[r.value[i].covered], r.value[i].covered, validFrom, validTo, now))
  {
    var sigs: seq<RR> := [];
    var todo := byType.Keys;
    while todo != {}
      invariant todo <= byType.Keys
      invariant forall i :: 0 <= i < |sigs| ==> (
                  sigs[i].Rrsig? && sigs[i].covered in byType
                  && sigs[i] == SigOver(byType[sigs[i].covered], sigs[i].covered, validFrom, validTo, now))
      invariant forall t: Type :: Covering(sigs, t) == if t in byType && t !in todo && t !in signed then 1 else 0
      invariant forall t: Type :: t in broken && t in byType && t !in todo ==> t in signed
      decreases |todo|
    {
      var t :| t in todo;
      todo := todo - {t};
      if t in signed {
        continue;
      }
      if t in broken {
        return None;
      }
      var sig := SigOver(byType[t], t, validFrom, validTo, now);
      CoveringAdd(sigs, sig);
      sigs := sigs + [sig];
    }
    r := Some(sigs);
  }

  predicate Signable(rrs: seq<RR>, broken: set<Type>) {
    forall t :: t in broken ==> !NeedsSignature(rrs, t)
  }

  /** `broken` lists the types whose signature cannot be made; `None` is the signing error. */
  method Sign(rrs: seq<RR>, validFrom: Time, validTo: Time, now: Time, broken: set<Type>) returns (r: Option<seq<RR>>)
    ensures r.Some? <==> Signable(rrs, broken)
    ensures r.Some? ==> IsSigning(rrs, r.value, validFrom, validTo, now)
  {
    var byType, signed := Classify(rrs);
    r := SignTypes(byType, signed, validFrom, validTo, now, broken);
    forall t: Type | t in byType
      ensures MadeBySigner(rrs, SigOver(byType[t], t, validFrom, validTo, now), validFrom, validTo, now)
    {
      SigOverIsMade(rrs, t, validFrom, validTo, now);
    }
  }

  /** Signing completes a section: each type in it is covered, and a type that was covered
      keeps exactly the signatures it had. */
  lemma SignedSection(rrs: seq<RR>, sigs: seq<RR>, validFrom: Time, validTo: Time, now: Time, t: Type)
    requires IsSigning(rrs, sigs, validFrom, validTo, now)
    ensures OfType(rrs + sigs, t) == OfType(rrs, t) && (Has(rrs + sigs, t) <==> Has(rrs, t))
    ensures Covering(rrs + sigs, t) == if NeedsSignature(rrs, t) then 1 else Covering(rrs, t)
    ensures Has(rrs + sigs, t) ==> Covering(rrs + sigs, t) >= 1
  {
    CoveringConcat(rrs, sigs, t);
    OfTypeSigned(rrs, sigs, t);
    HasOfType(rrs, t);
    HasOfType(rrs + sigs, t);
  }

  // ----- The type list of a proof of non-existence

  predicate Dropped(t: Type, qtype: Type, isApex: bool) {
    t == qtype || (!isApex && (t == NS || t == SOA || t == DNSKEY))
  }

  /** The types that stay, in order. */
  function Kept(types: seq<Type>, qtype: Type, isApex: bool): (r: seq<Type>)
    ensures |r| <= |types|
  {
    if types == [] then []
    else if Dropped(types[0], qtype, isApex) then Kept(types[1..], qtype, isApex)
    else [types[0]] + Kept(types[1..], qtype, isApex)
  }

  /** A type stays exactly when it was listed and is not dropped. */
  lemma {:induction false} KeptMeaning(types: seq<Type>, qtype: Type, isApex: bool, t: Type)
    ensures t in Kept(types, qtype, isApex) <==> t in types && !Dropped(t, qtype, isApex)
  {
    if types == [] {
    } else {
      KeptMeaning(types[1..], qtype, isApex, t);
      assert t in types <==> t == types[0] || t in types[1..];
    }
  }

  predicate Ascending(types: seq<Type>) {
    forall i, j :: 0 <= i < j < |types| ==> types[i] < types[j]
  }

  /** Section 4.1.2 of RFC 4034: a type list in ascending order stays in that order, which
      together with KeptMeaning leaves only one possible list. */
  lemma {:induction false} KeptStaysAscending(types: seq<Type>, qtype: Type, isApex: bool)
    requires Ascending(types)
    ensures Ascending(Kept(types, qtype, isApex))
  {
    if types == [] {
    } else {
      var rest := Kept(types[1..], qtype, isApex);
      KeptStaysAscending(types[1..], qtype, isApex);
      if !Dropped(types[0], qtype, isApex) {
        forall j | 0 <= j < |rest|
          ensures types[0] < rest[j]
        {
          KeptMeaning(types[1..], qtype, isApex, rest[j]);
        }
      }
    }
  }

  const DEFAULT_NSEC_TYPES: seq<Type> := [A, NS, SOA, MX, TXT, AAAA, RRSIG, NSEC, DNSKEY, HTTPS]

  /** The default table, whatever is asked and wherever. */
  lemma DefaultListStaysAscending(qtype: Type, isApex: bool)
    ensures Ascending(Kept(DEFAULT_NSEC_TYPES, qtype, isApex))
  {
    KeptStaysAscending(DEFAULT_NSEC_TYPES, qtype, isApex);
  }

  /** Shift everything after position i one place left. */
  method RemoveAt(a: array<Type>, i: nat, n: nat)
    requires i < n <= a.Length
    modifies a
    ensures a[..n - 1] == old(a[..i]) + old(a[i + 1..n])
  {
    var j := i;
    while j + 1 < n
      invariant i <= j < n
      invariant forall k :: 0 <= k < i ==> a[k] == old(a[k])
      invariant forall k :: i <= k < j ==> a[k] == old(a[k + 1])
      invariant forall k :: j < k < n ==> a[k] == old(a[k])
    {
      a[j] := a[j + 1];
      j := j + 1;
    }
    assert a[..i] == old(a[..i]);
    assert a[i..n - 1] == old(a[i + 1..n]);
    assert a[..n - 1] == a[..i] + a[i..n - 1];
  }

  /** What a filter that has reached position i will leave. */
  function FilteredFrom(types: seq<Type>, i: nat, qtype: Type, isApex: bool): seq<Type>
    requires i <= |types|
  {
    types[..i] + Kept(types[i..], qtype, isApex)
  }

  lemma KeptRound(types: seq<Type>, i: nat, qtype: Type, isApex: bool)
    requires i < |types|
    ensures Dropped(types[i], qtype, isApex) ==>
              FilteredFrom(types[..i] + types[i + 1..], i, qtype, isApex) == FilteredFrom(types, i, qtype, isApex)
    ensures !Dropped(types[i], qtype, isApex) ==>
              FilteredFrom(types, i + 1, qtype, isApex) == FilteredFrom(types, i, qtype, isApex)
  {
    assert types[i..][1..] == types[i + 1..];
    var t, kept := types[..i] + types[i + 1..], Kept(types[i + 1..], qtype, isApex);
    assert t[..i] == types[..i] && t[i..] == types[i + 1..];
    assert types[..i] + ([types[i]] + kept) == types[..i + 1] + kept;
  }

  /** One round of the filter: the entry at i goes or stays. */
  method FilterOne(a: array<Type>, i: nat, n: nat, qtype: Type, isApex: bool) returns (i2: nat, n2: nat)
    requires i < n <= a.Length
    modifies a
    ensures i2 <= n2 <= n && n2 - i2 == n - i - 1
    ensures FilteredFrom(a[..n2], i2, qtype, isApex) == FilteredFrom(old(a[..n]), i, qtype, isApex)
  {
    ghost var types := a[..n];
    KeptRound(types, i, qtype, isApex);
    if a[i] == qtype || (!isApex && (a[i] == NS || a[i] == SOA || a[i] == DNSKEY)) {
      RemoveAt(a, i, n);
      i2, n2 := i, n - 1;
      assert a[..n2] == types[..i] + types[i + 1..];
    } else {
      i2, n2 := i + 1, n;
    }
  }

  /** Filters a list in place; the first n places hold the result. */
  method Filter(a: array<Type>, qtype: Type, isApex: bool) returns (n: nat)
    modifies a
    ensures n <= a.Length && a[..n] == Kept(old(a[..]), qtype, isApex)
  {
    var i := 0;
    n := a.Length;
    assert a[..n] == a[..] && a[..n][0..] == a[..];
    while i < n
      invariant 0 <= i <= n <= a.Length
      invariant FilteredFrom(a[..n], i, qtype, isApex) == Kept(old(a[..]), qtype, isApex)
      decreases n - i
    {
      i, n := FilterOne(a, i, n, qtype, isApex);
    }
    assert a[..n][..i] + [] == a[..n];
  }

  /** Filters a copy of the shared table. The method may modify nothing that existed before
      the call, so the shared table keeps its contents. */
  method NsecTypes(shared: array<Type>, qtype: Type, isApex: bool) returns (types: seq<Type>)
    ensures types == Kept(shared[..], qtype, isApex)
  {
    var a := new Type[shared.Length];
    forall i | 0 <= i < shared.Length {
      a[i] := shared[i];
    }
    assert a[..] == shared[..];
    var n := Filter(a, qtype, isApex);
    types := a[..n];
  }

  // ----- Proving a response

  datatype Edns = Edns(version: nat, wantsDnssec: bool, compact: bool)

  datatype Query = Query(isQuery: bool, name: string, qtype: Type, qclass: nat, edns: Option<Edns>)

  datatype Response = Response(rcode: nat, answer: seq<RR>, ns: seq<RR>)

  /** A zone's signer: its key's owner and TTL, and the types that cannot be signed. */
  datatype Signer = Signer(keyName: string, keyTtl: Time, hasPrivateKey: bool, broken: set<Type>)

  predicate WantsProof(q: Query, resp: Response, signer: Option<Signer>) {
    && signer.Some? && signer.value.hasPrivateKey
    && (resp.rcode == SUCCESS || resp.rcode == NAME_ERROR)
    && q.qclass == CLASS_IN && q.edns.Some? && q.edns.value.wantsDnssec
  }

  function NsecRecord(q: Query, signer: Signer, types: seq<Type>): RR {
    Nsec(q.name, signer.keyTtl, "\\000." + Lower(q.name), types)
  }

  predicate IsApex(q: Query, signer: Signer) {
    Lower(q.name) == Lower(signer.keyName)
  }

  /** The sections before they are signed: with an empty answer, the proof is added and a
      name error is turned into success unless the client asked for compact answers. */
  function WithNsec(q: Query, resp: Response, signer: Signer, types: seq<Type>): Response {
    if resp.answer != [] then resp
    else if resp.rcode == NAME_ERROR then
      Response(if q.edns.Some? && q.edns.value.compact then NAME_ERROR else SUCCESS, [],
               resp.ns + [NsecRecord(q, signer, [RRSIG, NSEC, NXNAME])])
    else Response(resp.rcode, [], resp.ns + [NsecRecord(q, signer, Kept(types, q.qtype, IsApex(q, signer)))])
  }

  ghost predicate IsSignedCopy(a: seq<RR>, b: seq<RR>, now: Time) {
    exists sigs :: IsSigning(a, sigs, 0, 0, now) && b == a + sigs
  }

  /** u is the form of t signed at this time. */
  ghost predicate IsSignedResponse(t: Response, u: Response, now: Time) {
    u.rcode == t.rcode && IsSignedCopy(t.answer, u.answer, now) && IsSignedCopy(t.ns, u.ns, now)
  }

  lemma EmptySigned(now: Time)
    ensures IsSignedCopy([], [], now)
  {
    var e: seq<RR> := [];
    assert IsSigning(e, e, 0, 0, now);
    assert e == e + e;
  }

  /** `None` is a signing error. */
  method Prove(q: Query, resp: Response, signer: Option<Signer>, types: array<Type>, now: Time)
          returns (r: Option<Response>)
    ensures !WantsProof(q, resp, signer) ==> r == Some(resp)
    ensures WantsProof(q, resp, signer) ==>
              var t := WithNsec(q, resp, signer.value, types[..]);
              && (r.Some? <==> Signable(t.answer, signer.value.broken) && Signable(t.ns, signer.value.broken))
              && (r.Some? ==> IsSignedResponse(t, r.value, now))
  {
    if !WantsProof(q, resp, signer) {
      return Some(resp);
    }
    var s := signer.value;
    var u := resp;
    if |resp.answer| == 0 {
      var kept: seq<Type>;
      if resp.rcode == NAME_ERROR {
        if !q.edns.value.compact {
          u := u.(rcode := SUCCESS);
        }
        kept := [RRSIG, NSEC, NXNAME];
      } else {
        var apex := EqualsAsciiIgnoreCase(q.name, s.keyName);
        kept := NsecTypes(types, q.qtype, apex);
      }
      u := u.(ns := u.ns + [NsecRecord(q, s, kept)]);
      assert u == WithNsec(q, resp, s, types[..]);
      EmptySigned(now);
    } else {
      var sigs := Sign(u.answer, 0, 0, now, s.broken);
      if sigs.None? {
        return None;
      }
      assert IsSignedCopy(resp.answer, u.answer + sigs.value, now);
      u := u.(answer := u.answer + sigs.value);
    }
    if |u.ns| > 0 {
      var sigs := Sign(u.ns, 0, 0, now, s.broken);
      if sigs.None? {
        return None;
      }
      assert IsSignedCopy(WithNsec(q, resp, s, types[..]).ns, u.ns + sigs.value, now);
      u := u.(ns := u.ns + sigs.value);
    } else {
      EmptySigned(now);
    }
    r := Some(u);
  }

  // ----- The pipeline

  /** A zone: its SOA record, the SOA's stored signature, its name servers and signer. */
  datatype Zone = Zone(name: string, soaBody: string, soaSig: Option<RR>, nameServers: seq<string>,
          signer: Option<Signer>)

  /** What the static table and the generator give for the question. */
  datatype Source = Source(staticRecords: seq<RR>, staticValid: bool, generatorFails: bool, generated: seq<RR>,
          generatedValid: bool)

  /** The zone's own spelling of its name at the end of the query name. */
  function ApexName(q: Query, z: Zone): string {
    if |q.name| < |z.name| then q.name else q.name[|q.name| - |z.name|..]
  }

  function Renamed(rr: RR, name: string): RR {
    match rr
    case Plain(_, t, ttl, body) => Plain(name, t, ttl, body)
    case Rrsig(_, t, ttl, inception, expiration, over) => Rrsig(name, t, ttl, inception, expiration, over)
    case Nsec(_, ttl, next, types) => Nsec(name, ttl, next, types)
  }

  function SoaRecords(q: Query, z: Zone): seq<RR> {
    [Plain(ApexName(q, z), SOA, 1800, z.soaBody)]
    + (if q.edns.Some? && q.edns.value.wantsDnssec && z.soaSig.Some? then [Renamed(z.soaSig.value, ApexName(q, z))]
      else [])
  }

  function NameServerRecords(q: Query, servers: seq<string>): seq<RR> {
    seq(|servers|, i requires 0 <= i < |servers| => Plain(q.name, NS, 1800, servers[i]))
  }

  /** Refusals before the deferred steps are set up; `None` lets the query through. */
  function Refusal(q: Query): Option<nat> {
    if !q.isQuery then Some(NOT_IMPLEMENTED)
    else if q.edns.Some? && q.edns.value.version != 0 then Some(BAD_VERSION)
    else if q.qclass != CLASS_IN then Some(NOT_IMPLEMENTED)
    else if q.qtype == OPT || q.qtype == NXNAME then Some(FORMAT_ERROR)
    else if q.qtype == RRSIG || q.qtype == NSEC then Some(REFUSED)
    else if q.qtype != ANY && q.qtype / 128 % 2 == 1 then Some(NOT_IMPLEMENTED)
    else None
  }

  predicate ProvidesKeys(q: Query, z: Zone) {
    z.signer.Some? && q.qclass == CLASS_IN && q.qtype == DNSKEY && Lower(q.name) == Lower(z.signer.value.keyName)
  }

  /** The record-answer stage: apex records, static records, generated records. */
  function Answered(q: Query, z: Zone, src: Source): Response {
    var apex := |q.name| == |z.name|;
    var apexRecords := if !apex then [] else if q.qtype == SOA then SoaRecords(q, z)
                       else if q.qtype == NS then NameServerRecords(q, z.nameServers) else [];
    if src.generatorFails then Response(SERVER_FAILURE, [], [])
    else Response(if apex || src.staticValid || src.generatedValid then SUCCESS else NAME_ERROR,
                  apexRecords + src.staticRecords + src.generated, [])
  }

  /** The deferred default answer to ANY. */
  function WithAny(q: Query, resp: Response): Response {
    if q.qtype == ANY && resp.rcode == SUCCESS && resp.answer == []
    then resp.(answer := [Plain(q.name, HINFO, 1800, "RFC8482")]) else resp
  }

  /** The deferred SOA of a response without answers. */
  function WithSoa(q: Query, z: Zone, resp: Response): Response {
    if (resp.rcode == SUCCESS && resp.answer == []) || resp.rcode == NAME_ERROR
    then resp.(ns := resp.ns + SoaRecords(q, z)) else resp
  }

  function Failure(): Response {
    Response(SERVER_FAILURE, [], [])
  }

  /** The deferred proof turns resp into r: unchanged, proved and signed, or failed. */
  ghost predicate ProvedAs(q: Query, z: Zone, resp: Response, types: seq<Type>, now: Time, r: Response) {
    if !WantsProof(q, resp, z.signer) then r == resp
    else
      var t := WithNsec(q, resp, z.signer.value, types);
      if Signable(t.answer, z.signer.value.broken) && Signable(t.ns, z.signer.value.broken)
      then IsSignedResponse(t, r, now) else r == Failure()
  }

  /** The calls the handler defers. */
  datatype Deferred = Send | AddProof | AddSoa | AddAny

  /** Running a stack of deferred calls, the last one pushed first, sends this response. */
  ghost predicate Unwinds(q: Query, z: Zone, types: seq<Type>, now: Time, stack: seq<Deferred>, resp: Response,
          sent: Response)
    decreases |stack|
  {
    if stack == [] then false
    else
      var rest := stack[..|stack| - 1];
      match stack[|stack| - 1]
      case Send => rest == [] && sent == resp
      case AddProof => exists r :: ProvedAs(q, z, resp, types, now, r) && Unwinds(q, z, types, now, rest, r, sent)
      case AddSoa => Unwinds(q, z, types, now, rest, WithSoa(q, z, resp), sent)
      case AddAny => Unwinds(q, z, types, now, rest, WithAny(q, resp), sent)
  }

  /** Only the call that sends is deferred first. */
  predicate WellStacked(stack: seq<Deferred>) {
    stack != [] && forall i :: 0 <= i < |stack| ==> (stack[i] == Send <==> i == 0)
  }

  /** Runs the deferred calls. */
  method Unwind(stack: seq<Deferred>, q: Query, z: Zone, types: array<Type>, now: Time, resp: Response)
          returns (sent: Response)
    requires WellStacked(stack)
    ensures Unwinds(q, z, types[..], now, stack, resp, sent)
    decreases |stack|
  {
    var rest := stack[..|stack| - 1];
    match stack[|stack| - 1] {
      case Send =>
        sent := resp;
      case AddProof =>
        var proved := Prove(q, resp, z.signer, types, now);
        var r := if proved.Some? then proved.value else Failure();
        assert ProvedAs(q, z, resp, types[..], now, r);
        sent := Unwind(rest, q, z, types, now, r);
      case AddSoa =>
        sent := Unwind(rest, q, z, types, now, WithSoa(q, z, resp));
      case AddAny =>
        sent := Unwind(rest, q, z, types, now, WithAny(q, resp));
    }
  }

  method ListNameServers(q: Query, servers: seq<string>) returns (rrs: seq<RR>)
    ensures rrs == NameServerRecords(q, servers)
  {
    rrs := [];
    for i := 0 to |servers|
      invariant rrs == NameServerRecords(q, servers[..i])
    {
      rrs := rrs + [Plain(q.name, NS, 1800, servers[i])];
    }
    assert servers[..|servers|] == servers;
  }

  /** The body of the handler between deferring its calls and returning. */
  method AnswerRecords(q: Query, z: Zone, src: Source) returns (resp: Response)
    ensures resp == Answered(q, z, src)
  {
    resp := Response(NAME_ERROR, [], []);
    if |q.name| == |z.name| {
      resp := resp.(rcode := SUCCESS);
      if q.qtype == SOA {
        resp := resp.(answer := SoaRecords(q, z));
      } else if q.qtype == NS {
        var rrs := ListNameServers(q, z.nameServers);
        resp := resp.(answer := rrs);
      }
    }
    if |src.staticRecords| > 0 {
      resp := resp.(answer := resp.answer + src.staticRecords);
    }
    if src.staticValid {
      resp := resp.(rcode := SUCCESS);
    }
    if src.generatorFails {
      return Failure();
    }
    if |src.generated| > 0 {
      resp := resp.(answer := resp.answer + src.generated);
    }
    if src.generatedValid {
      resp := resp.(rcode := SUCCESS);
    }
  }

  /** The SOA of a query that ends in the zone's name carries that part of the query's own
      spelling, and comes with its stored signature, under the same name, exactly for a DNSSEC
      query when there is one. */
  lemma SoaExactly(q: Query, z: Zone, front: string, tail: string)
    requires q.name == front + tail && |tail| == |z.name|
    ensures var rrs := SoaRecords(q, z);
            && rrs != [] && rrs[0] == Plain(tail, 6, 1800, z.soaBody)
            && (|rrs| == 1 <==> q.edns.None? || !q.edns.value.wantsDnssec || z.soaSig.None?)
            && (|rrs| != 1 ==> |rrs| == 2 && rrs[1] == Renamed(z.soaSig.value, tail) && rrs[1].name == tail)
  {
    assert q.name[|front|..] == tail;
  }

  /** The records of a name in order: at the apex the SOA or the name servers when asked for,
      then the static table's, then the generator's. */
  lemma AnswerOrder(q: Query, z: Zone, src: Source) returns (apex: seq<RR>)
    ensures var resp := Answered(q, z, src);
            && resp.ns == []
            && (src.generatorFails ==> resp.rcode == 2 && resp.answer == [])
            && (!src.generatorFails ==> resp.answer == apex + src.staticRecords + src.generated)
            && (!src.generatorFails ==>
              resp.rcode == if |q.name| == |z.name| || src.staticValid || src.generatedValid then 0 else 3)
    ensures |q.name| != |z.name| || (q.qtype != 6 && q.qtype != 2) ==> apex == []
    ensures |q.name| == |z.name| && q.qtype == 6 ==> apex != [] && apex[0] == Plain(q.name, 6, 1800, z.soaBody)
    ensures |q.name| == |z.name| && q.qtype == 2 ==>
              && |apex| == |z.nameServers|
              && forall i :: 0 <= i < |apex| ==> apex[i] == Plain(q.name, 2, 1800, z.nameServers[i])
  {
    apex := if |q.name| != |z.name| then [] else if q.qtype == SOA then SoaRecords(q, z)
            else if q.qtype == NS then NameServerRecords(q, z.nameServers) else [];
  }

  function KeyResponse(q: Query, signer: Signer): Response {
    Response(SUCCESS, [Plain(q.name, DNSKEY, signer.keyTtl, "")], [])
  }

  /** What the proof is given once the calls above it on the stack have run. */
  function BeforeProof(q: Query, z: Zone, src: Source): Response {
    if ProvidesKeys(q, z) then KeyResponse(q, z.signer.value) else WithSoa(q, z, WithAny(q, Answered(q, z, src)))
  }

  /** What the stack holds, and the response as the body leaves it, when the body returns. */
  function StackOf(q: Query, z: Zone): seq<Deferred> {
    if Refusal(q).Some? then [Send]
    else if ProvidesKeys(q, z) then [Send, AddProof]
    else [Send, AddProof, AddSoa, AddAny]
  }

  function BodyResponse(q: Query, z: Zone, src: Source): Response {
    if Refusal(q).Some? then Response(Refusal(q).value, [], [])
    else if ProvidesKeys(q, z) then KeyResponse(q, z.signer.value)
    else Answered(q, z, src)
  }

  lemma UnwindsSend(q: Query, z: Zone, types: seq<Type>, now: Time, resp: Response, sent: Response)
    ensures Unwinds(q, z, types, now, [Send], resp, sent) <==> sent == resp
  {
    assert [Send][..0] == [];
  }

  lemma UnwindsProof(q: Query, z: Zone, types: seq<Type>, now: Time, resp: Response, sent: Response)
    ensures Unwinds(q, z, types, now, [Send, AddProof], resp, sent) <==> ProvedAs(q, z, resp, types, now, sent)
  {
    assert [Send, AddProof][..1] == [Send];
    forall r
      ensures Unwinds(q, z, types, now, [Send], r, sent) <==> sent == r
    {
      UnwindsSend(q, z, types, now, r, sent);
    }
  }

  /** Last in, first out: a refusal is sent as it is, keys are proved and sent, and every
      other answer gets the ANY default, then the SOA, then the proof, and is sent last. */
  lemma DeferredOrder(q: Query, z: Zone, src: Source, types: seq<Type>, now: Time, sent: Response)
    ensures Unwinds(q, z, types, now, StackOf(q, z), BodyResponse(q, z, src), sent) <==>
            if Refusal(q).Some? then sent == Response(Refusal(q).value, [], [])
            else ProvedAs(q, z, BeforeProof(q, z, src), types, now, sent)
  {
    if Refusal(q).Some? {
      UnwindsSend(q, z, types, now, BodyResponse(q, z, src), sent);
    } else {
      UnwindsProof(q, z, types, now, BeforeProof(q, z, src), sent);
      if !ProvidesKeys(q, z) {
        var stack := StackOf(q, z);
        assert stack[..3] == [Send, AddProof, AddSoa];
        assert [Send, AddProof, AddSoa][..2] == [Send, AddProof];
        assert Unwinds(q, z, types, now, stack, Answered(q, z, src), sent) ==
               Unwinds(q, z, types, now, [Send, AddProof, AddSoa], WithAny(q, Answered(q, z, src)), sent);
      }
    }
  }

  /** The checks between deferring the sending and deferring the proof. */
  method CheckQuestion(q: Query) returns (refusal: Option<nat>)
    requires q.isQuery
    ensures refusal == Refusal(q)
  {
    if q.edns.Some? {
      if q.edns.value.version != 0 {
        return Some(BAD_VERSION);
      }
    }
    if q.qclass != CLASS_IN {
      return Some(NOT_IMPLEMENTED);
    }
    if q.qtype == OPT || q.qtype == NXNAME {
      return Some(FORMAT_ERROR);
    }
    if q.qtype == RRSIG || q.qtype == NSEC {
      return Some(REFUSED);
    }
    if q.qtype != ANY {
      if q.qtype / 128 % 2 == 1 {
        return Some(NOT_IMPLEMENTED);
      }
    }
    refusal := None;
  }

  /** Which questions are refused, and with which code: not a query, an unknown EDNS version,
      another class, a type that cannot be asked for, a signature or proof type, and a type
      reserved for queries. */
  lemma RefusedExactly(q: Query)
    ensures var version := if q.edns.Some? then q.edns.value.version else 0;
            && (Refusal(q).None? <==>
              && q.isQuery && version == 0 && q.qclass == 1 && q.qtype != 41 && q.qtype != 46 && q.qtype != 47
              && (q.qtype == 255 || q.qtype % 256 < 128))
            && (Refusal(q) == Some(16) <==> q.isQuery && version != 0)
            && (Refusal(q) == Some(1) <==>
              q.isQuery && version == 0 && q.qclass == 1 && (q.qtype == 41 || q.qtype == 128))
            && (Refusal(q) == Some(5) <==>
              q.isQuery && version == 0 && q.qclass == 1 && (q.qtype == 46 || q.qtype == 47))
            && (Refusal(q).Some? ==> Refusal(q).value in {1, 4, 5, 16})
  {
    assert q.qtype / 128 % 2 == 1 <==> q.qtype % 256 >= 128;
  }

  /** The response before it is resized for the transport: the body pushes the calls it
      defers, and they run when it returns. */
  method Serve(q: Query, z: Zone, src: Source, types: array<Type>, now: Time) returns (resp: Response)
    ensures Refusal(q).Some? ==> resp == Response(Refusal(q).value, [], [])
    ensures Refusal(q).None? ==> ProvedAs(q, z, BeforeProof(q, z, src), types[..], now, resp)
  {
    if !q.isQuery {
      return Response(NOT_IMPLEMENTED, [], []);
    }
    var deferred := [Send];
    var refusal := CheckQuestion(q);
    var body: Response;
    if refusal.Some? {
      body := Response(refusal.value, [], []);
    } else {
      deferred := deferred + [AddProof];
      if ProvidesKeys(q, z) {
        body := KeyResponse(q, z.signer.value);
      } else {
        deferred := deferred + [AddSoa];
        deferred := deferred + [AddAny];
        body := AnswerRecords(q, z, src);
      }
    }
    assert deferred == StackOf(q, z) && body == BodyResponse(q, z, src);
    resp := Unwind(deferred, q, z, types, now, body);
    DeferredOrder(q, z, src, types[..], now, resp);
  }

  /** So a successful ANY query has an answer before the SOA is considered, the SOA is there
      exactly for an answerless success or a name error, and nothing is added to a failure. */
  lemma DeferredEffects(q: Query, z: Zone, src: Source)
    ensures var resp := BeforeProof(q, z, src);
            && (q.qtype == ANY && resp.rcode == SUCCESS ==> resp.answer != [] && resp.ns == [])
            && (Has(resp.ns, SOA) <==> resp.ns != [])
            && (resp.ns != [] <==> resp.rcode == NAME_ERROR || (resp.rcode == SUCCESS && resp.answer == []))
            && (resp.rcode == SERVER_FAILURE <==> !ProvidesKeys(q, z) && src.generatorFails)
            && (resp.rcode == SERVER_FAILURE ==> resp == Failure())
            && (resp.ns != [] ==> resp.ns[0] == Plain(ApexName(q, z), 6, 1800, z.soaBody))
            && (q.qtype == 255 && Answered(q, z, src) == Response(0, [], []) ==>
              resp.answer == [Plain(q.name, 13, 1800, "RFC8482")])
  {
    var resp := BeforeProof(q, z, src);
    if resp.ns != [] {
      assert resp.ns == [] + SoaRecords(q, z);
      assert resp.ns[0] == SoaRecords(q, z)[0];
    }
  }

  /** The signer's keys are given exactly for a DNSKEY question at its own name, in any letter
      case; every other question that is not refused goes through the record stages. */
  lemma KeysExactly(q: Query, z: Zone, src: Source)
    ensures BeforeProof(q, z, src) ==
            if z.signer.Some? && q.qclass == 1 && q.qtype == 48 && Lower(q.name) == Lower(z.signer.value.keyName)
            then Response(0, [Plain(q.name, 48, z.signer.value.keyTtl, "")], [])
            else WithSoa(q, z, WithAny(q, Answered(q, z, src)))
  {
  }

  /** A client that does not ask for DNSSEC, or a zone without a private key, gets neither proof
      nor signatures, and nothing is added to a failure. */
  lemma PlainResponse(q: Query, z: Zone, src: Source, types: seq<Type>, now: Time, resp: Response)
    requires ProvedAs(q, z, BeforeProof(q, z, src), types, now, resp)
    requires || q.edns.None? || !q.edns.value.wantsDnssec || z.signer.None? || !z.signer.value.hasPrivateKey
             || BeforeProof(q, z, src).rcode == 2
    ensures resp == BeforeProof(q, z, src)
  {
  }

  // ----- What a DNSSEC client receives

  /** Clear of the 32-bit wrap the signature is valid now and for longer than its TTL. */
  predicate IsValidNow(sig: RR, now: Time) {
    sig.Rrsig? && (3600 <= now && now + 3600 + sig.ttl < 0x1_0000_0000 ==>
      sig.inception <= now && now + sig.ttl < sig.expiration)
  }

  /** Every record type present is covered, by one signature if it was not covered before,
      and every new signature is over all the records of its type in the section, and valid. */
  ghost predicate FullySigned(before: seq<RR>, after: seq<RR>, now: Time) {
    && before <= after
    && (forall t: Type ::
          && OfType(after, t) == OfType(before, t)
          && (Has(after, t) ==> Covering(after, t) >= 1)
          && Covering(after, t) == if NeedsSignature(before, t) then 1 else Covering(before, t))
    && (forall i :: |before| <= i < |after| ==>
          MadeBySigner(after, after[i], 0, 0, now) && IsValidNow(after[i], now))
  }

  lemma MadeInCopy(a: seq<RR>, sigs: seq<RR>, sig: RR, now: Time)
    requires MadeBySigner(a, sig, 0, 0, now) && forall i :: 0 <= i < |sigs| ==> sigs[i].Rrsig?
    ensures MadeBySigner(a + sigs, sig, 0, 0, now) && IsValidNow(sig, now)
  {
    OfTypeSigned(a, sigs, sig.covered);
    var i: nat :| IsFirstOf(a, i, sig.covered) && sig.name == a[i].name && sig.ttl == a[i].ttl;
    assert forall j :: 0 <= j <= i ==> (IsOf(a + sigs, j, sig.covered) <==> IsOf(a, j, sig.covered));
    assert IsFirstOf(a + sigs, i, sig.covered);
    if 3600 <= now && now + 3600 + sig.ttl < 0x1_0000_0000 {
      DefaultValidity(a, sig, now);
    }
  }

  lemma SignedCopyIsFullySigned(a: seq<RR>, b: seq<RR>, now: Time)
    requires IsSignedCopy(a, b, now)
    ensures FullySigned(a, b, now)
  {
    var sigs :| IsSigning(a, sigs, 0, 0, now) && b == a + sigs;
    forall t: Type
      ensures OfType(b, t) == OfType(a, t) && (Has(b, t) ==> Covering(b, t) >= 1)
      ensures Covering(b, t) == if NeedsSignature(a, t) then 1 else Covering(a, t)
    {
      SignedSection(a, sigs, 0, 0, now, t);
    }
    forall i | |a| <= i < |b|
      ensures MadeBySigner(b, b[i], 0, 0, now) && IsValidNow(b[i], now)
    {
      assert b[i] == sigs[i - |a|];
      MadeInCopy(a, sigs, b[i], now);
    }
  }

  lemma LastCovers(sigs: seq<RR>)
    ensures sigs != [] && (forall i :: 0 <= i < |sigs| ==> sigs[i].Rrsig?) ==> exists t: Type :: Covering(sigs, t) >= 1
  {
    assert sigs != [] && sigs[|sigs| - 1].Rrsig? ==> Covering(sigs, sigs[|sigs| - 1].covered) >= 1;
  }

  lemma NothingToSign(sigs: seq<RR>, now: Time)
    requires IsSigning([], sigs, 0, 0, now)
    ensures sigs == []
  {
    LastCovers(sigs);
  }

  /** The proof for a name covers it up to its first possible successor. It is minimal for a
      name that does not exist, and otherwise lists exactly the table's types other than the
      asked one and, off the apex, NS, SOA and DNSKEY. */
  ghost predicate IsProof(proof: RR, q: Query, rcode: nat, signer: Signer, types: seq<Type>) {
    && proof.Nsec? && proof.name == q.name && proof.ttl == signer.keyTtl
    && proof.next == "\\000." + Lower(q.name)
    && (rcode == 3 ==> proof.types == [46, 47, 128])
    && (rcode != 3 ==>
          forall t: Type :: t in proof.types <==>
            && t in types && t != q.qtype
            && (t == 2 || t == 6 || t == 48 ==> Lower(q.name) == Lower(signer.keyName)))
    && (rcode != 3 && Ascending(types) ==> Ascending(proof.types))
  }

  lemma NsecIsProof(q: Query, resp: Response, signer: Signer, types: seq<Type>)
    requires resp.answer == []
    ensures var ns := WithNsec(q, resp, signer, types).ns;
            IsProof(ns[|ns| - 1], q, resp.rcode, signer, types)
  {
    forall t: Type
      ensures t in Kept(types, q.qtype, IsApex(q, signer)) <==> t in types && !Dropped(t, q.qtype, IsApex(q, signer))
    {
      KeptMeaning(types, q.qtype, IsApex(q, signer), t);
    }
    if Ascending(types) {
      KeptStaysAscending(types, q.qtype, IsApex(q, signer));
    }
  }

  /** For a DNSSEC query that gets past the refusals and the generator, with a working
      signer: both sections are fully signed, and a query without records is answered with
      an empty answer section, the SOA and a proof. */
  lemma DnssecResponse(q: Query, z: Zone, src: Source, types: seq<Type>, now: Time, resp: Response)
    requires Refusal(q).None? && q.edns.Some? && q.edns.value.wantsDnssec && !src.generatorFails
    requires z.signer.Some? && z.signer.value.hasPrivateKey
    requires IsSignedResponse(WithNsec(q, BeforeProof(q, z, src), z.signer.value, types), resp, now)
    ensures WantsProof(q, BeforeProof(q, z, src), z.signer)
    ensures var before := BeforeProof(q, z, src);
            resp.rcode == if before.answer == [] && before.rcode == 3 && !q.edns.value.compact then 0 else before.rcode
    ensures FullySigned(BeforeProof(q, z, src).answer, resp.answer, now)
    ensures FullySigned(WithNsec(q, BeforeProof(q, z, src), z.signer.value, types).ns, resp.ns, now)
    ensures BeforeProof(q, z, src).answer == [] ==>
              && resp.answer == [] && Has(resp.ns, SOA)
              && exists proof ::
                   proof in resp.ns && IsProof(proof, q, BeforeProof(q, z, src).rcode, z.signer.value, types)
  {
    var before := BeforeProof(q, z, src);
    var t := WithNsec(q, before, z.signer.value, types);
    SignedCopyIsFullySigned(t.answer, resp.answer, now);
    SignedCopyIsFullySigned(t.ns, resp.ns, now);
    if before.answer == [] {
      var sigs :| IsSigning(t.answer, sigs, 0, 0, now) && resp.answer == t.answer + sigs;
      NothingToSign(sigs, now);
      assert before.ns == [] + SoaRecords(q, z);
      assert t.ns[0] == SoaRecords(q, z)[0];
      assert Has(t.ns, SOA);
      NsecIsProof(q, before, z.signer.value, types);
      assert resp.ns[|t.ns| - 1] == t.ns[|t.ns| - 1];
    }
  }
}
