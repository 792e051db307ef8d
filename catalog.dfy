/**
 * The category records of the rule compiler and the two catalogs it writes:
 * `create_geosite_entry`, `create_geoip_entry` and the list assembly of
 * `build_geosite_dat` / `build_geoip_dat` in scripts/build_dat.py. The
 * records are the GeoSite and GeoIP messages of the v2ray `routercommon`
 * format as plain values; their wire encoding is not modelled.
 */
module Catalog {
  import opened Wrappers
  import opened FileTree
  import opened IpText
  import opened Cidr
  import RuleFile
  import Includes

  /** `Domain.Type` of the record format. */
  datatype DomainType = Plain | Regex | RootDomain | Full

  /** One `Domain` of a GeoSite record. */
  datatype DomainRecord = DomainRecord(kind: DomainType, value: string)

  /** One `CIDR` of a GeoIP record: the base address as bytes in network order, and the prefix length. */
  datatype CidrRecord = CidrRecord(ip: seq<nat>, prefix: nat)

  datatype GeoSite = GeoSite(countryCode: string, code: string, domains: seq<DomainRecord>)

  datatype GeoIp = GeoIp(countryCode: string, code: string, cidrs: seq<CidrRecord>)

  /** The rule tag a record type comes from. */
  function TagOf(d: DomainType): RuleFile.Tag {
    match d
    case Plain => RuleFile.Keyword
    case Regex => RuleFile.Regexp
    case RootDomain => RuleFile.Domain
    case Full => RuleFile.Full
  }

  /** The record type of a rule tag: full, regexp and keyword by name, and every other tag a root domain. */
  function TypeOf(tag: RuleFile.Tag): (d: DomainType)
    ensures TagOf(d) == tag
    ensures tag == RuleFile.Domain <==> d == RootDomain
  {
    match tag
    case Full => DomainType.Full
    case Regexp => Regex
    case Keyword => Plain
    case _ => RootDomain
  }

  function DomainOf(r: RuleFile.Rule): DomainRecord {
    DomainRecord(TypeOf(r.tag), r.value)
  }

  /** The GeoSite record `create_geosite_entry(name, rules)` builds. */
  function GeoSiteOf(name: string, rules: seq<RuleFile.Rule>): GeoSite {
    GeoSite(name, name, seq(|rules|, i requires 0 <= i < |rules| => DomainOf(rules[i])))
  }

  /** The rules a GeoSite record holds, read back from its domains. */
  function SiteRules(site: GeoSite): seq<RuleFile.Rule> {
    seq(|site.domains|, i requires 0 <= i < |site.domains| => RuleFile.Rule(TagOf(site.domains[i].kind), site.domains[i].value))
  }

  /**
   * A GeoSite record is named by its category in both name fields and loses
   * nothing: its domains give back the rules, one per rule and in order.
   */
  lemma GeoSiteRoundTrip(name: string, rules: seq<RuleFile.Rule>)
    ensures GeoSiteOf(name, rules).code == name && GeoSiteOf(name, rules).countryCode == name
    ensures SiteRules(GeoSiteOf(name, rules)) == rules
  {
    var site := GeoSiteOf(name, rules);
    forall i | 0 <= i < |rules|
      ensures SiteRules(site)[i] == rules[i]
    {
      assert site.domains[i] == DomainOf(rules[i]);
    }
  }

  /** `create_geosite_entry`: one domain record per rule, in order. */
  method CreateGeoSiteEntry(name: string, rules: seq<RuleFile.Rule>) returns (entry: GeoSite)
    ensures entry == GeoSiteOf(name, rules)
  {
    var domains: seq<DomainRecord> := [];
    for i := 0 to |rules|
      invariant |domains| == i
      invariant forall k :: 0 <= k < i ==> domains[k] == DomainOf(rules[k])
    {
      var kind := Plain;
      var tag := rules[i].tag;
      if tag == RuleFile.Full {
        kind := DomainType.Full;
      } else if tag == RuleFile.Regexp {
        kind := Regex;
      } else if tag == RuleFile.Keyword {
        kind := Plain;
      } else {
        kind := RootDomain;
      }
      domains := domains + [DomainRecord(kind, rules[i].value)];
    }
    entry := GeoSite(name, name, domains);
  }

  /** `network.network_address.packed` and `network.prefixlen`. */
  function RecordOf(n: Network): CidrRecord {
    CidrRecord(Bytes(n.base, Size(n.family)), n.prefix)
  }

  /** The network a CIDR record stands for: four bytes are an IPv4 address, anything else IPv6. */
  function RecordNetwork(c: CidrRecord): Network {
    Network(if |c.ip| == 4 then V4 else V6, Value(c.ip), c.prefix)
  }

  /** The record of a canonical network holds 4 or 16 bytes and gives the network back. */
  lemma RecordRoundTrip(n: Network)
    requires Canonical(n)
    ensures |RecordOf(n).ip| == Size(n.family) && IsBytes(RecordOf(n).ip)
    ensures RecordNetwork(RecordOf(n)) == n
  {
    if n.family == V4 {
      V4Bytes();
    } else {
      V6Bytes();
    }
    ValueOfBytes(n.base, Size(n.family));
  }

  /** The record one CIDR text gives, if `ip_network(text, strict=False)` accepts it. */
  function CidrRecordOf(t: string): Option<CidrRecord> {
    match ParseNetwork(t)
    case None => None
    case Some(n) => Some(RecordOf(n))
  }

  /** The records of the texts read so far, in order; a text that is not a network is skipped. */
  function CidrRecords(cidrs: seq<string>): (r: seq<CidrRecord>)
    ensures |r| <= |cidrs|
  {
    Present(Mapped(cidrs, CidrRecordOf))
  }

  /** The GeoIP record `create_geoip_entry(name, cidrs)` builds. */
  function GeoIpOf(name: string, cidrs: seq<string>): GeoIp {
    GeoIp(name, name, CidrRecords(cidrs))
  }

  lemma CidrRecordsNext(cidrs: seq<string>, i: nat)
    requires i < |cidrs|
    ensures CidrRecords(cidrs[..i + 1])
         == CidrRecords(cidrs[..i]) + (if CidrRecordOf(cidrs[i]).Some? then [CidrRecordOf(cidrs[i]).value] else [])
  {
    MappedNext(cidrs, CidrRecordOf, i);
  }

  /** `create_geoip_entry`: one record per text that is a network, in order. */
  method CreateGeoIpEntry(name: string, cidrs: seq<string>) returns (entry: GeoIp)
    ensures entry == GeoIpOf(name, cidrs)
  {
    var records: seq<CidrRecord> := [];
    for i := 0 to |cidrs|
      invariant records == CidrRecords(cidrs[..i])
    {
      CidrRecordsNext(cidrs, i);
      var network := ParseNetwork(cidrs[i]);
      if network.Some? {
        records := records + [RecordOf(network.value)];
      }
    }
    assert cidrs[..|cidrs|] == cidrs;
    entry := GeoIp(name, name, records);
  }

  /** Texts that are all networks lose nothing: one record each, in order. */
  lemma AllNetworks(cidrs: seq<string>)
    requires forall t :: t in cidrs ==> ParseNetwork(t).Some?
    ensures |CidrRecords(cidrs)| == |cidrs|
    ensures forall i :: 0 <= i < |cidrs| ==> CidrRecords(cidrs)[i] == RecordOf(ParseNetwork(cidrs[i]).value)
  {
    var es := Mapped(cidrs, CidrRecordOf);
    forall i | 0 <= i < |cidrs|
      ensures es[i] == Some(RecordOf(ParseNetwork(cidrs[i]).value))
    {
      MappedAt(cidrs, CidrRecordOf, i);
      assert cidrs[i] in cidrs;
    }
    PresentAll(es);
  }


  /**
   * The whitelist GeoIP record of a directory holds one record per line that
   * `load_ips_from_directory` kept, in order, and each record writes back as
   * exactly that line's CIDR text: `create_geoip_entry` skips nothing there.
   */
  lemma WhitelistRecords(fs: Tree, root: Path, walk: seq<Path>)
    ensures var cidrs := DirectoryIps(fs, root, walk);
      var records := GeoIpOf("whitelist", cidrs).cidrs;
      |records| == |cidrs|
      && forall i :: 0 <= i < |cidrs| ==>
        Canonical(RecordNetwork(records[i])) && FormatNetwork(RecordNetwork(records[i])) == cidrs[i]
  {
    var cidrs := DirectoryIps(fs, root, walk);
    DirectoryIpsReadBack(fs, root, walk);
    AllNetworks(cidrs);
    var records := CidrRecords(cidrs);
    forall i | 0 <= i < |cidrs|
      ensures Canonical(RecordNetwork(records[i])) && FormatNetwork(RecordNetwork(records[i])) == cidrs[i]
    {
      assert cidrs[i] in cidrs;
      RecordRoundTrip(ParseNetwork(cidrs[i]).value);
    }
  }

  /** The upstream entries of the extracted file: none when the file does not exist. */
  function Upstream<T>(extracted: Option<seq<T>>): seq<T> {
    if extracted.Some? then extracted.value else []
  }

  /** The named record when its content is not empty, else nothing. */
  function Optional<T>(content: seq<T>, record: GeoSite): seq<GeoSite> {
    if content != [] then [record] else []
  }

  /**
   * The GeoSite list `build_geosite_dat` writes: the upstream entries
   * unchanged and in order, then the whitelist record exactly when there are
   * whitelist rules, then the whitelist-ads record exactly when there are
   * whitelist-ads rules.
   */
  function SiteCatalog(extracted: Option<seq<GeoSite>>, whitelist: seq<RuleFile.Rule>, ads: seq<RuleFile.Rule>): (r: seq<GeoSite>)
    ensures var up := Upstream(extracted);
      |r| == |up| + (if whitelist != [] then 1 else 0) + (if ads != [] then 1 else 0)
      && r[..|up|] == up
      && (whitelist != [] ==> r[|up|] == GeoSiteOf("whitelist", whitelist))
      && (ads != [] ==> r[|r| - 1] == GeoSiteOf("whitelist-ads", ads))
  {
    var up := Upstream(extracted);
    var w := Optional(whitelist, GeoSiteOf("whitelist", whitelist));
    var r := up + w + Optional(ads, GeoSiteOf("whitelist-ads", ads));
    assert r[..|up|] == up;
    assert whitelist != [] ==> r[|up|] == w[0];
    r
  }

  /**
   * No name check is made: an upstream category spelled "whitelist" stays in
   * the list next to the local whitelist record.
   */
  lemma SameNameKept(extracted: Option<seq<GeoSite>>, whitelist: seq<RuleFile.Rule>, ads: seq<RuleFile.Rule>, i: nat)
    requires i < |Upstream(extracted)| && Upstream(extracted)[i].countryCode == "whitelist"
    requires whitelist != []
    ensures var r := SiteCatalog(extracted, whitelist, ads);
      exists j, k :: 0 <= j < k < |r| && r[j].countryCode == "whitelist" && r[k].countryCode == "whitelist"
  {
    var up := Upstream(extracted);
    var r := SiteCatalog(extracted, whitelist, ads);
    assert r[i] == up[i];
    assert r[|up|].countryCode == "whitelist";
  }

  /**
   * `build_geosite_dat` up to the write: the extracted entries (if the file
   * exists), then the whitelist and whitelist-ads directories each loaded
   * with `load_domains_from_directory` under the walk order given for it.
   */
  method BuildGeoSiteList(
    extracted: Option<seq<GeoSite>>, fs: Tree,
    whitelistRoot: Path, whitelistWalk: seq<Path>, adsRoot: Path, adsWalk: seq<Path>)
    returns (list: seq<GeoSite>)
    ensures list == SiteCatalog(extracted,
                                Includes.DirectoryWalk(fs, whitelistRoot, whitelistWalk).rules,
                                Includes.DirectoryWalk(fs, adsRoot, adsWalk).rules)
  {
    list := [];
    if extracted.Some? {
      for i := 0 to |extracted.value|
        invariant list == extracted.value[..i]
      {
        list := list + [extracted.value[i]];
      }
    }
    var whitelist := Includes.LoadDomainsFromDirectory(fs, whitelistRoot, whitelistWalk);
    if whitelist != [] {
      var entry := CreateGeoSiteEntry("whitelist", whitelist);
      list := list + [entry];
    }
    var ads := Includes.LoadDomainsFromDirectory(fs, adsRoot, adsWalk);
    if ads != [] {
      var entry := CreateGeoSiteEntry("whitelist-ads", ads);
      list := list + [entry];
    }
  }

  /**
   * The GeoIP list `build_geoip_dat` writes: the upstream entries unchanged
   * and in order, then the whitelist record of the CIDRs exactly when there
   * are any.
   */
  function IpCatalog(extracted: Option<seq<GeoIp>>, cidrs: seq<string>): (r: seq<GeoIp>)
    ensures var up := Upstream(extracted);
      |r| == |up| + (if cidrs != [] then 1 else 0)
      && r[..|up|] == up
      && (cidrs != [] ==> r[|up|] == GeoIpOf("whitelist", cidrs))
  {
    var up := Upstream(extracted);
    var r := up + (if cidrs != [] then [GeoIpOf("whitelist", cidrs)] else []);
    assert r[..|up|] == up;
    r
  }

  /**
   * The GeoIP list holds the upstream entries unchanged and in order, then the
   * whitelist record exactly when the directory gave any CIDR, holding one
   * record per CIDR.
   */
  lemma IpCatalogLayout(extracted: Option<seq<GeoIp>>, fs: Tree, root: Path, walk: seq<Path>)
    ensures var up, cidrs := Upstream(extracted), DirectoryIps(fs, root, walk);
      var r := IpCatalog(extracted, cidrs);
      |r| == |up| + (if cidrs != [] then 1 else 0)
      && r[..|up|] == up
      && (cidrs != [] ==> r[|up|].code == "whitelist" && |r[|up|].cidrs| == |cidrs|)
  {
    var up, cidrs := Upstream(extracted), DirectoryIps(fs, root, walk);
    var r := IpCatalog(extracted, cidrs);
    assert r[..|up|] == up;
    if cidrs != [] {
      WhitelistRecords(fs, root, walk);
      assert r[|up|] == GeoIpOf("whitelist", cidrs);
    }
  }

  /** `build_geoip_dat` up to the write: the extracted entries, then the whitelist directory's CIDRs. */
  method BuildGeoIpList(extracted: Option<seq<GeoIp>>, fs: Tree, root: Path, walk: seq<Path>)
    returns (list: seq<GeoIp>)
    ensures list == IpCatalog(extracted, DirectoryIps(fs, root, walk))
  {
    list := [];
    if extracted.Some? {
      for i := 0 to |extracted.value|
        invariant list == extracted.value[..i]
      {
        list := list + [extracted.value[i]];
      }
    }
    var cidrs := LoadIpsFromDirectory(fs, root, walk);
    if cidrs != [] {
      var entry := CreateGeoIpEntry("whitelist", cidrs);
      list := list + [entry];
    }
  }
}
