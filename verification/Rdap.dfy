/** Choosing an RDAP service from the bootstrap lists: section 5 of RFC 9224 asks for the
    most specific network, section 4 for the longest matching domain. */
module Rdap {
  import opened Bits
  import opened Text
  import opened IpAddr
  import opened IpRange
  import opened StableSort
  import opened AsciiCase

  /** One `[keys, urls]` pair of a bootstrap file. */
  datatype Service = Service(keys: seq<string>, urls: seq<string>)

  function HttpsUrl(urls: seq<string>): Option<string> {
    Find(urls, (u: string) => "https:" <= u)
  }

  /** url is the first of the URLs that starts with "https:". */
  ghost predicate IsServiceUrl(urls: seq<string>, url: string) {
    exists j :: 0 <= j < |urls| && urls[j] == url && "https:" <= url && forall i :: 0 <= i < j ==>
      !("https:" <= urls[i])
  }

  lemma HttpsUrlMeaning(urls: seq<string>, url: string)
    ensures HttpsUrl(urls) == Some(url) <==> IsServiceUrl(urls, url)
  {
    var j := FindMeaning(urls, (u: string) => "https:" <= u);
    if HttpsUrl(urls).Some? {
      assert forall i :: 0 <= i < j ==> !("https:" <= urls[i]);
    }
  }

  /** The bootstrap lists the key under the first https URL of one of its services. */
  ghost predicate Lists(services: seq<Service>, key: string, url: string) {
    exists i :: 0 <= i < |services| && key in services[i].keys && IsServiceUrl(services[i].urls, url)
  }

  lemma ListsFirst(services: seq<Service>, key: string, url: string)
    requires services != []
    ensures Lists(services, key, url) <==>
            (key in services[0].keys && HttpsUrl(services[0].urls) == Some(url)) || Lists(services[1..], key, url)
  {
    HttpsUrlMeaning(services[0].urls, url);
    assert forall i :: 0 < i < |services| ==> services[i] == services[1..][i - 1];
    assert forall i :: 0 <= i < |services[1..]| ==> services[1..][i] == services[i + 1];
  }

  // ----- Networks

  datatype Network = Network(range: Range, url: string)

  /** The networks of one service, or nothing when a CIDR text does not parse. */
  function NetworksOf(cidrs: seq<string>, url: string): Option<seq<Network>> {
    if cidrs == [] then Some([])
    else
      var rest := NetworksOf(cidrs[1..], url);
      if RangeOf(cidrs[0]).None? || rest.None? then None
      else Some([Network(RangeOf(cidrs[0]).value, url)] + rest.value)
  }

  /** Services without an https URL are skipped; one bad CIDR text rejects the whole table. */
  function AllNetworks(services: seq<Service>): Option<seq<Network>> {
    if services == [] then Some([])
    else
      var url := HttpsUrl(services[0].urls);
      var rest := AllNetworks(services[1..]);
      if url.None? then rest
      else
        var here := NetworksOf(services[0].keys, url.value);
        if here.None? || rest.None? then None else Some(here.value + rest.value)
  }

  /** n stands for a listed CIDR text. */
  ghost predicate IsListed(services: seq<Service>, n: Network) {
    exists key :: Lists(services, key, n.url) && RangeOf(key) == Some(n.range)
  }

  lemma {:induction false} NetworksOfKeys(cidrs: seq<string>, url: string, n: Network)
    ensures NetworksOf(cidrs, url).None? <==> exists key :: key in cidrs && RangeOf(key).None?
    ensures NetworksOf(cidrs, url).Some? ==>
              (n in NetworksOf(cidrs, url).value <==>
                n.url == url && exists key :: key in cidrs && RangeOf(key) == Some(n.range))
  {
    if cidrs == [] {
    } else {
      NetworksOfKeys(cidrs[1..], url, n);
      assert forall key :: key in cidrs <==> key == cidrs[0] || key in cidrs[1..];
    }
  }

  /** One more service in front. */
  lemma TableStep(services: seq<Service>, n: Network)
    requires services != []
    ensures (exists key, url :: Lists(services, key, url) && RangeOf(key).None?) <==>
            || (HttpsUrl(services[0].urls).Some? && exists key :: key in services[0].keys && RangeOf(key).None?)
            || (exists key, url :: Lists(services[1..], key, url) && RangeOf(key).None?)
    ensures IsListed(services, n) <==>
            || (&& HttpsUrl(services[0].urls) == Some(n.url)
                && exists key :: key in services[0].keys && RangeOf(key) == Some(n.range))
            || IsListed(services[1..], n)
  {
    forall key, url
      ensures Lists(services, key, url) <==>
              (key in services[0].keys && HttpsUrl(services[0].urls) == Some(url)) || Lists(services[1..], key, url)
    {
      ListsFirst(services, key, url);
    }
  }

  /** The table is rejected exactly when a listed text does not parse, and otherwise holds
      exactly what the bootstrap lists. */
  lemma {:induction false} TableMeaning(services: seq<Service>, n: Network)
    ensures AllNetworks(services).None? <==> exists key, url :: Lists(services, key, url) && RangeOf(key).None?
    ensures AllNetworks(services).Some? ==> (n in AllNetworks(services).value <==> IsListed(services, n))
  {
    if services == [] {
    } else {
      TableStep(services, n);
      TableMeaning(services[1..], n);
      var url := HttpsUrl(services[0].urls);
      if url.Some? {
        NetworksOfKeys(services[0].keys, url.value, n);
      }
    }
  }

  /** Start address descending, then end address ascending. */
  function CompareNetworks(a: Network, b: Network): int {
    if a.range.start > b.range.start then -1
    else if a.range.start < b.range.start then 1
    else if a.range.end < b.range.end then -1
    else if a.range.end > b.range.end then 1
    else 0
  }

  predicate NetworkBefore(a: Network, b: Network) {
    CompareNetworks(a, b) < 0
  }

  lemma NetworkOrder()
    ensures StrictWeakOrder(NetworkBefore)
  {
  }

  function QueryOf(s: string): Option<Query> {
    if '/' in s then
      (match RangeOf(s)
       case None => None
       case Some(r) => Some(Span(r)))
    else
      (match AddressOf(s)
       case None => None
       case Some(a) => Some(Single(a)))
  }

  function SelectNetwork(networks: seq<Network>, q: Query): Option<Network> {
    Find(Sort(NetworkBefore, networks), (n: Network) => Contains(n.range, q))
  }

  predicate ValidQuery(q: Query) {
    q.Span? ==> q.range.start <= q.range.end
  }

  predicate Within(inner: Range, outer: Range) {
    outer.start <= inner.start && inner.end <= outer.end
  }

  predicate AllCidr(networks: seq<Network>) {
    forall i :: 0 <= i < |networks| ==> IsCidr(networks[i].range)
  }

  lemma {:induction false} NetworksAreCidr(cidrs: seq<string>, url: string)
    requires NetworksOf(cidrs, url).Some?
    ensures AllCidr(NetworksOf(cidrs, url).value)
  {
    if cidrs == [] {
    } else {
      NetworksAreCidr(cidrs[1..], url);
      ParsedIsCidr(cidrs[0]);
    }
  }

  lemma {:induction false} TableIsCidr(services: seq<Service>)
    requires AllNetworks(services).Some?
    ensures AllCidr(AllNetworks(services).value)
  {
    if services == [] {
    } else {
      TableIsCidr(services[1..]);
      var url := HttpsUrl(services[0].urls);
      if url.Some? {
        NetworksAreCidr(services[0].keys, url.value);
      }
    }
  }

  lemma CidrIsBlock(r: Range) returns (k: nat)
    requires IsCidr(r)
    ensures IsBlock(r.start, r.end, k)
  {
    k := BitLength(Xor(r.start, r.end));
    CidrMeaning(r, Xor(r.start, r.end), k);
  }

  lemma SmallerBlockWithin(a: Range, b: Range, j: nat, k: nat, q: Query)
    requires j <= k && IsBlock(a.start, a.end, j) && IsBlock(b.start, b.end, k)
    requires ValidQuery(q) && Contains(a, q) && Contains(b, q)
    ensures Within(a, b)
  {
    NestedOrDisjoint(a.start, b.start, j, k);
  }

  /** Blocks that share a query are nested. */
  lemma CidrNested(a: Range, b: Range, q: Query)
    requires IsCidr(a) && IsCidr(b) && ValidQuery(q) && Contains(a, q) && Contains(b, q)
    ensures Within(a, b) || Within(b, a)
  {
    var j := CidrIsBlock(a);
    var k := CidrIsBlock(b);
    if j <= k {
      SmallerBlockWithin(a, b, j, k, q);
    } else {
      SmallerBlockWithin(b, a, k, j, q);
    }
  }

  /** n is the first listed of the smallest networks that contain q. */
  ghost predicate MostSpecific(networks: seq<Network>, q: Query, n: Network) {
    && Contains(n.range, q)
    && (forall j :: 0 <= j < |networks| && Contains(networks[j].range, q) ==> Within(n.range, networks[j].range))
    && exists i :: 0 <= i < |networks| && networks[i] == n
                   && forall j :: 0 <= j < i && Contains(networks[j].range, q) ==> networks[j].range != n.range
  }

  /** Sorting and taking the first containing network is longest-prefix match: what is
      found lies within every network that contains the query, it is the first listed of
      its bounds, and nothing is found exactly when no network contains the query. */
  lemma LongestPrefixMatch(networks: seq<Network>, q: Query)
    requires AllCidr(networks) && ValidQuery(q)
    ensures SelectNetwork(networks, q).None? <==> forall i :: 0 <= i < |networks| ==> !Contains(networks[i].range, q)
    ensures SelectNetwork(networks, q).Some? ==> MostSpecific(networks, q, SelectNetwork(networks, q).value)
  {
    var p := (n: Network) => Contains(n.range, q);
    NetworkOrder();
    SortThenFind(NetworkBefore, networks, p);
    var i := BestMeaning(NetworkBefore, networks, p);
    if SelectNetwork(networks, q).Some? {
      var n := SelectNetwork(networks, q).value;
      assert p(networks[i]);
      forall j | 0 <= j < |networks| && Contains(networks[j].range, q)
        ensures Within(n.range, networks[j].range)
      {
        assert p(networks[j]);
        CidrNested(n.range, networks[j].range, q);
      }
      forall j | 0 <= j < i && Contains(networks[j].range, q)
        ensures networks[j].range != n.range
      {
        assert p(networks[j]);
      }
    }
  }

  datatype Outcome = Found(url: string) | ServiceNotFound | BadQuery | BadBootstrap

  /** `lookupIP` up to the choice of service; IPv4 and IPv6 bootstrap files are concatenated. */
  function LookupIP(services4: seq<Service>, services6: seq<Service>, text: string): Outcome {
    if QueryOf(text).None? then BadQuery
    else if AllNetworks(services4 + services6).None? then BadBootstrap
    else
      match SelectNetwork(AllNetworks(services4 + services6).value, QueryOf(text).value)
      case None => ServiceNotFound
      case Some(n) => Found(n.url)
  }

  lemma ParsedQueryIsValid(text: string)
    requires QueryOf(text).Some?
    ensures ValidQuery(QueryOf(text).value)
  {
    if '/' in text {
      var k := ParsedBlock(text);
    }
  }

  /** For every bootstrap content and every query text: the URL found is that of the most
      specific listed network, and "not found" means that no listed network contains the query. */
  lemma LookupIPIsMostSpecific(services4: seq<Service>, services6: seq<Service>, text: string)
    ensures match LookupIP(services4, services6, text)
            case Found(url) =>
              exists n :: MostSpecific(AllNetworks(services4 + services6).value, QueryOf(text).value, n) && n.url == url
            case ServiceNotFound =>
              forall n :: n in AllNetworks(services4 + services6).value ==> !Contains(n.range, QueryOf(text).value)
            case BadQuery => QueryOf(text).None?
            case BadBootstrap => AllNetworks(services4 + services6).None?
  {
    if QueryOf(text).Some? && AllNetworks(services4 + services6).Some? {
      ParsedQueryIsValid(text);
      TableIsCidr(services4 + services6);
      LongestPrefixMatch(AllNetworks(services4 + services6).value, QueryOf(text).value);
    }
  }

  // ----- In terms of the bootstrap lists alone

  /** The query text asks about the address: with a slash in it all of its range, otherwise
      the one address. */
  ghost predicate Asked(text: string, a: Address) {
    if '/' in text then exists r :: RangeOf(text) == Some(r) && r.start <= a <= r.end
    else AddressOf(text) == Some(a)
  }

  /** The network contains every address asked about. */
  ghost predicate HoldsAll(n: Network, text: string) {
    forall a: Address :: Asked(text, a) ==> n.range.start <= a <= n.range.end
  }

  lemma HoldsAllMeaning(n: Network, text: string)
    requires QueryOf(text).Some?
    ensures Contains(n.range, QueryOf(text).value) <==> HoldsAll(n, text)
    ensures exists a :: Asked(text, a)
  {
    ParsedQueryIsValid(text);
    if '/' in text {
      var r := RangeOf(text).value;
      assert Asked(text, r.start) && Asked(text, r.end);
    } else {
      assert Asked(text, AddressOf(text).value);
    }
  }

  lemma TableFromBootstrap(services: seq<Service>)
    ensures AllNetworks(services).None? <==> exists key, url :: Lists(services, key, url) && RangeOf(key).None?
    ensures AllNetworks(services).Some? ==>
              forall n :: n in AllNetworks(services).value <==> IsListed(services, n)
  {
    TableMeaning(services, Network(Range(0, 0), ""));
    forall n: Network
      ensures AllNetworks(services).Some? ==> (n in AllNetworks(services).value <==> IsListed(services, n))
    {
      TableMeaning(services, n);
    }
  }

  ghost predicate ListsRange(service: Service, r: Range) {
    exists key, url :: key in service.keys && RangeOf(key) == Some(r) && IsServiceUrl(service.urls, url)
  }

  ghost predicate FirstServiceAt(services: seq<Service>, n: Network, i: nat) {
    && i < |services| && ListsRange(services[i], n.range) && IsServiceUrl(services[i].urls, n.url)
    && forall j :: 0 <= j < i ==> !ListsRange(services[j], n.range)
  }

  /** The network's URL is that of the first service that lists its range. */
  ghost predicate FromFirstService(services: seq<Service>, n: Network) {
    exists i: nat :: FirstServiceAt(services, n, i)
  }

  /** What one service adds to the table, when its texts parse. */
  function Contribution(service: Service): Option<seq<Network>> {
    if HttpsUrl(service.urls).None? then Some([]) else NetworksOf(service.keys, HttpsUrl(service.urls).value)
  }

  lemma Contributed(service: Service, n: Network)
    requires Contribution(service).Some? && n in Contribution(service).value
    ensures ListsRange(service, n.range) && IsServiceUrl(service.urls, n.url)
  {
    HttpsUrlMeaning(service.urls, n.url);
    NetworksOfKeys(service.keys, HttpsUrl(service.urls).value, n);
  }

  lemma KeyContributes(service: Service, key: string, n: Network)
    requires Contribution(service).Some? && HttpsUrl(service.urls) == Some(n.url)
    requires key in service.keys && RangeOf(key) == Some(n.range)
    ensures n in Contribution(service).value
  {
    NetworksOfKeys(service.keys, n.url, n);
  }

  /** The service adds no network of the range. */
  predicate AddsNone(service: Service, r: Range) {
    Contribution(service).Some? && forall m :: m in Contribution(service).value ==> m.range != r
  }

  lemma NotContributed(service: Service, r: Range)
    requires AddsNone(service, r)
    ensures !ListsRange(service, r)
  {
    if ListsRange(service, r) {
      var key, u :| key in service.keys && RangeOf(key) == Some(r) && IsServiceUrl(service.urls, u);
      HttpsUrlMeaning(service.urls, u);
      KeyContributes(service, key, Network(r, u));
    }
  }

  /** n is the first network of its range, at place k. */
  ghost predicate FirstOfRange(networks: seq<Network>, n: Network, k: nat) {
    k < |networks| && networks[k] == n && forall j :: 0 <= j < k ==> networks[j].range != n.range
  }

  predicate NoneOf(part: seq<Network>, r: Range) {
    forall j :: 0 <= j < |part| ==> part[j].range != r
  }

  lemma FirstInRest(here: seq<Network>, rest: seq<Network>, n: Network, k: nat)
    requires FirstOfRange(here + rest, n, k)
    ensures k < |here| ==> n in here
    ensures k >= |here| ==> NoneOf(here, n.range) && FirstOfRange(rest, n, k - |here|)
  {
    if k >= |here| {
      assert forall j :: 0 <= j < |here| ==> here[j] == (here + rest)[j];
      assert forall j :: 0 <= j < k - |here| ==> rest[j] == (here + rest)[j + |here|];
    }
  }

  function Flatten(parts: seq<seq<Network>>): seq<Network> {
    if parts == [] then [] else parts[0] + Flatten(parts[1..])
  }

  lemma {:induction false} FirstInParts(parts: seq<seq<Network>>, n: Network, k: nat) returns (i: nat)
    requires FirstOfRange(Flatten(parts), n, k)
    ensures i < |parts| && n in parts[i] && forall j :: 0 <= j < i ==> NoneOf(parts[j], n.range)
  {
    var rest := parts[1..];
    FirstInRest(parts[0], Flatten(rest), n, k);
    if k < |parts[0]| {
      i := 0;
    } else {
      var l := FirstInParts(rest, n, k - |parts[0]|);
      assert forall j :: 0 < j < |parts| ==> parts[j] == rest[j - 1];
      i := l + 1;
    }
  }

  /** The parts are what the services add to the table. */
  predicate AreParts(services: seq<Service>, parts: seq<seq<Network>>) {
    |parts| == |services| && forall i :: 0 <= i < |parts| ==> Contribution(services[i]) == Some(parts[i])
  }

  lemma {:induction false} TableIsFlat(services: seq<Service>) returns (parts: seq<seq<Network>>)
    requires AllNetworks(services).Some?
    ensures AreParts(services, parts) && AllNetworks(services).value == Flatten(parts)
  {
    if services == [] {
      parts := [];
    } else {
      var rest := TableIsFlat(services[1..]);
      parts := [Contribution(services[0]).value] + rest;
      assert parts[1..] == rest;
      assert forall i :: 0 < i < |parts| ==> parts[i] == rest[i - 1] && services[i] == services[1..][i - 1];
    }
  }

  /** Of the networks with one range, the first in the table is the first service's that lists it. */
  lemma FirstInTable(services: seq<Service>, n: Network, k: nat)
    requires AllNetworks(services).Some? && FirstOfRange(AllNetworks(services).value, n, k)
    ensures FromFirstService(services, n)
  {
    var parts := TableIsFlat(services);
    var i := FirstInParts(parts, n, k);
    Contributed(services[i], n);
    forall j | 0 <= j < i
      ensures !ListsRange(services[j], n.range)
    {
      assert NoneOf(parts[j], n.range);
      NotContributed(services[j], n.range);
    }
    assert FirstServiceAt(services, n, i);
  }

  /** n is listed, contains what is asked, lies within every other listed network that does,
      and is named by the first service that lists it. */
  ghost predicate IsBestListed(services: seq<Service>, text: string, n: Network) {
    && IsListed(services, n) && HoldsAll(n, text) && FromFirstService(services, n)
    && forall m :: IsListed(services, m) && HoldsAll(m, text) ==>
      m.range.start <= n.range.start && n.range.end <= m.range.end
  }

  lemma BestIsListed(services: seq<Service>, networks: seq<Network>, text: string, n: Network)
    requires AllNetworks(services) == Some(networks) && QueryOf(text).Some?
    requires MostSpecific(networks, QueryOf(text).value, n)
    ensures IsBestListed(services, text, n)
  {
    TableFromBootstrap(services);
    HoldsAllMeaning(n, text);
    var i :| && 0 <= i < |networks| && networks[i] == n
             && forall j :: 0 <= j < i && Contains(networks[j].range, QueryOf(text).value) ==>
               networks[j].range != n.range;
    FirstInTable(services, n, i);
    forall m | IsListed(services, m) && HoldsAll(m, text)
      ensures m.range.start <= n.range.start && n.range.end <= m.range.end
    {
      HoldsAllMeaning(m, text);
      var j :| 0 <= j < |networks| && networks[j] == m;
    }
  }

  /** What the lookup gives for every bootstrap content and every query text, with no mention
      of table, sort or scan. */
  lemma LookupIPFromBootstrap(services4: seq<Service>, services6: seq<Service>, text: string)
    ensures var services := services4 + services6;
            var asked := exists a :: Asked(text, a);
            var good := forall key, url :: Lists(services, key, url) ==> RangeOf(key).Some?;
            match LookupIP(services4, services6, text)
            case Found(url) => asked && good && exists n :: IsBestListed(services, text, n) && n.url == url
            case ServiceNotFound => asked && good && forall n :: IsListed(services, n) ==> !HoldsAll(n, text)
            case BadQuery => !asked
            case BadBootstrap => asked && !good
  {
    var services := services4 + services6;
    LookupIPIsMostSpecific(services4, services6, text);
    TableFromBootstrap(services);
    if QueryOf(text).Some? {
      forall n: Network
        ensures Contains(n.range, QueryOf(text).value) <==> HoldsAll(n, text)
      {
        HoldsAllMeaning(n, text);
      }
      HoldsAllMeaning(Network(Range(0, 0), ""), text);
      if LookupIP(services4, services6, text).Found? {
        var n :| && MostSpecific(AllNetworks(services).value, QueryOf(text).value, n)
                 && n.url == LookupIP(services4, services6, text).url;
        BestIsListed(services, AllNetworks(services).value, text, n);
      }
    }
  }

  // ----- Domains

  datatype Domain = Domain(suffix: string, url: string)

  /** The domains one service contributes. */
  function DomainsHere(service: Service): seq<Domain> {
    var url := HttpsUrl(service.urls);
    if url.None? then []
    else seq(|service.keys|, i requires 0 <= i < |service.keys| => Domain("." + Lower(service.keys[i]), url.value))
  }

  function DomainsOf(services: seq<Service>): seq<Domain> {
    if services == [] then []
    else DomainsHere(services[0]) + DomainsOf(services[1..])
  }

  /** Longer suffix first. */
  predicate DomainBefore(a: Domain, b: Domain) {
    |b.suffix| - |a.suffix| < 0
  }

  predicate EndsWith(s: string, suffix: string) {
    |suffix| <= |s| && s[|s| - |suffix|..] == suffix
  }

  function SelectDomain(domains: seq<Domain>, domain: string): Option<Domain> {
    Find(Sort(DomainBefore, domains), (d: Domain) => EndsWith(domain, d.suffix))
  }

  lemma DomainOrder()
    ensures StrictWeakOrder(DomainBefore)
  {
  }

  /** Every matching suffix is a suffix of the one found, which is the first listed of its text. */
  lemma LongestSuffixMatch(domains: seq<Domain>, domain: string)
    ensures SelectDomain(domains, domain).None? <==>
              forall i :: 0 <= i < |domains| ==> !EndsWith(domain, domains[i].suffix)
    ensures SelectDomain(domains, domain).Some? ==>
              var d := SelectDomain(domains, domain).value;
              && EndsWith(domain, d.suffix)
              && (forall i :: 0 <= i < |domains| && EndsWith(domain, domains[i].suffix) ==>
                EndsWith(d.suffix, domains[i].suffix))
              && exists i :: 0 <= i < |domains| && domains[i] == d && forall j :: 0 <= j < i ==>
                domains[j].suffix != d.suffix
  {
    var p := (d: Domain) => EndsWith(domain, d.suffix);
    DomainOrder();
    SortThenFind(DomainBefore, domains, p);
    var k := BestMeaning(DomainBefore, domains, p);
    if SelectDomain(domains, domain).Some? {
      var d := SelectDomain(domains, domain).value;
      forall i | 0 <= i < |domains| && EndsWith(domain, domains[i].suffix)
        ensures EndsWith(d.suffix, domains[i].suffix)
      {
        assert p(domains[i]);
        var t := domains[i].suffix;
        assert |t| <= |d.suffix|;
        assert d.suffix == domain[|domain| - |d.suffix|..];
        assert d.suffix[|d.suffix| - |t|..] == domain[|domain| - |t|..];
      }
      forall j | 0 <= j < k
        ensures domains[j].suffix != d.suffix
      {
        assert p(domains[j]) ==> DomainBefore(d, domains[j]);
      }
    }
  }

  function LookupDomain(services: seq<Service>, text: string): Option<string> {
    match SelectDomain(DomainsOf(services), Lower(text))
    case None => None
    case Some(d) => Some(d.url)
  }

  lemma HereMeaning(service: Service, d: Domain)
    ensures d in DomainsHere(service) <==>
            exists key :: key in service.keys && HttpsUrl(service.urls) == Some(d.url) && d.suffix == "." + Lower(key)
  {
    if exists key :: key in service.keys && HttpsUrl(service.urls) == Some(d.url) && d.suffix == "." + Lower(key) {
      var key :| key in service.keys && HttpsUrl(service.urls) == Some(d.url) && d.suffix == "." + Lower(key);
      var i :| 0 <= i < |service.keys| && service.keys[i] == key;
      assert DomainsHere(service)[i] == d;
    }
  }

  lemma {:induction false} DomainsMeaning(services: seq<Service>, d: Domain)
    ensures d in DomainsOf(services) <==> exists key :: Lists(services, key, d.url) && d.suffix == "." + Lower(key)
  {
    if services == [] {
    } else {
      forall key
        ensures Lists(services, key, d.url) <==>
                (key in services[0].keys && HttpsUrl(services[0].urls) == Some(d.url))
                  || Lists(services[1..], key, d.url)
      {
        ListsFirst(services, key, d.url);
      }
      DomainsMeaning(services[1..], d);
      HereMeaning(services[0], d);
    }
  }

  /** The name ends in a dot and the key, whatever the letter case of either. */
  ghost predicate Under(text: string, key: string) {
    exists front :: Lower(text) == front + "." + Lower(key)
  }

  lemma UnderMeaning(text: string, key: string)
    ensures Under(text, key) <==> EndsWith(Lower(text), "." + Lower(key))
  {
    var s, suffix := Lower(text), "." + Lower(key);
    if EndsWith(s, suffix) {
      assert s == s[..|s| - |suffix|] + "." + Lower(key);
    }
    forall front | s == front + "." + Lower(key)
      ensures EndsWith(s, suffix)
    {
      assert s == front + suffix;
    }
  }

  ghost predicate ListsSuffix(service: Service, suffix: string) {
    exists key, url :: key in service.keys && "." + Lower(key) == suffix && IsServiceUrl(service.urls, url)
  }

  /** The URL is that of the first service that lists the suffix. */
  ghost predicate SuffixFromFirst(services: seq<Service>, d: Domain) {
    && services != []
    && if ListsSuffix(services[0], d.suffix) then IsServiceUrl(services[0].urls, d.url)
       else SuffixFromFirst(services[1..], d)
  }

  lemma ListsSuffixHere(service: Service, d: Domain)
    ensures HttpsUrl(service.urls).None? ==> !ListsSuffix(service, d.suffix)
    ensures HttpsUrl(service.urls).Some? ==>
              (ListsSuffix(service, d.suffix) <==>
                Domain(d.suffix, HttpsUrl(service.urls).value) in DomainsHere(service))
  {
    var url := HttpsUrl(service.urls);
    forall u
      ensures url == Some(u) <==> IsServiceUrl(service.urls, u)
    {
      HttpsUrlMeaning(service.urls, u);
    }
    if url.Some? {
      HereMeaning(service, Domain(d.suffix, url.value));
    }
  }

  lemma SuffixInRest(here: seq<Domain>, rest: seq<Domain>, domains: seq<Domain>, k: nat)
    requires domains == here + rest && k < |domains|
    requires forall j :: 0 <= j < k ==> domains[j].suffix != domains[k].suffix
    ensures k < |here| ==> domains[k] in here
    ensures k >= |here| ==>
              && (forall m :: m in here ==> m.suffix != domains[k].suffix)
              && rest[k - |here|] == domains[k]
              && forall j :: 0 <= j < k - |here| ==> rest[j].suffix != rest[k - |here|].suffix
  {
    if k >= |here| {
      assert forall j :: 0 <= j < |here| ==> here[j] == domains[j];
      assert forall j :: 0 <= j < k - |here| ==> rest[j] == domains[j + |here|];
    }
  }

  /** Of the domains with one suffix, the first comes from the first service listing it. */
  lemma {:induction false} FirstInDomains(services: seq<Service>, k: nat)
    requires k < |DomainsOf(services)|
    requires forall j :: 0 <= j < k ==> DomainsOf(services)[j].suffix != DomainsOf(services)[k].suffix
    ensures SuffixFromFirst(services, DomainsOf(services)[k])
  {
    var domains, here := DomainsOf(services), DomainsHere(services[0]);
    var d := domains[k];
    ListsSuffixHere(services[0], d);
    SuffixInRest(here, DomainsOf(services[1..]), domains, k);
    if k < |here| {
      HereMeaning(services[0], d);
      HttpsUrlMeaning(services[0].urls, d.url);
    } else {
      FirstInDomains(services[1..], k - |here|);
    }
  }

  /** A key the name lies under, no listed one of these longer, and the URL of the first
      service that lists it in some letter case. */
  ghost predicate IsBestKey(services: seq<Service>, text: string, key: string, url: string) {
    && Lists(services, key, url) && Under(text, key) && SuffixFromFirst(services, Domain("." + Lower(key), url))
    && forall k, u :: Lists(services, k, u) && Under(text, k) ==> |k| <= |key|
  }

  /** For every bootstrap content and every name: the URL found is that of the longest key
      the name lies under, and nothing is found exactly when it lies under no listed key. */
  lemma LookupDomainFromBootstrap(services: seq<Service>, text: string)
    ensures LookupDomain(services, text).None? <==> forall key, url :: Lists(services, key, url) ==> !Under(text, key)
    ensures LookupDomain(services, text).Some? ==>
              exists key :: IsBestKey(services, text, key, LookupDomain(services, text).value)
  {
    var domains := DomainsOf(services);
    LongestSuffixMatch(domains, Lower(text));
    forall key, url | Lists(services, key, url) && Under(text, key)
      ensures SelectDomain(domains, Lower(text)).Some? && |key| + 1 <= |SelectDomain(domains, Lower(text)).value.suffix|
    {
      var d := Domain("." + Lower(key), url);
      UnderMeaning(text, key);
      DomainsMeaning(services, d);
      var i :| 0 <= i < |domains| && domains[i] == d;
    }
    if SelectDomain(domains, Lower(text)).Some? {
      var d := SelectDomain(domains, Lower(text)).value;
      var k :| 0 <= k < |domains| && domains[k] == d && forall j :: 0 <= j < k ==> domains[j].suffix != d.suffix;
      FirstInDomains(services, k);
      DomainsMeaning(services, d);
      var key :| Lists(services, key, d.url) && d.suffix == "." + Lower(key);
      UnderMeaning(text, key);
      assert IsBestKey(services, text, key, d.url);
    }
  }
}
