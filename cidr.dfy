/**
 * The CIDR normaliser of the rule compiler: `ipaddress.ip_network(s,
 * strict=False)` over the text forms of `IpText`, the reading of IP list
 * files, and the networks it writes out (CIDR notation as in section 3.1 of
 * RFC 4632: a base address, "/", a prefix length).
 */
module Cidr {
  import opened Wrappers
  import opened Text
  import opened FileTree
  import opened IpText

  /** The number of addresses of a family. */
  function Limit(f: Family): nat {
    if f == V4 then V4Size else V6Size
  }

  datatype Address = Address(family: Family, value: nat)

  /** A network as its first address and its prefix length. */
  datatype Network = Network(family: Family, base: nat, prefix: nat)

  /** A network whose prefix fits the family and whose base has no host bits set. */
  predicate Canonical(n: Network) {
    n.prefix <= Width(n.family) && n.base < Limit(n.family)
    && ClearLow(n.base, Width(n.family) - n.prefix) == n.base
  }

  /** `a` with its low `k` bits cleared: `int(address) & int(netmask)` for `k = width - prefix`. */
  function ClearLow(a: nat, k: nat): nat {
    if k == 0 then a else 2 * ClearLow(a / 2, k - 1)
  }

  /**
   * Clearing the low `k` bits lowers `a` by less than 2^k, and clearing them
   * again changes nothing: `a` lies in the network whose base is the result.
   */
  lemma {:induction false} ClearLowFacts(a: nat, k: nat)
    ensures ClearLow(a, k) <= a < ClearLow(a, k) + Pow2(k)
    ensures ClearLow(ClearLow(a, k), k) == ClearLow(a, k)
  {
    if k > 0 {
      ClearLowFacts(a / 2, k - 1);
      var c := ClearLow(a / 2, k - 1);
      assert (2 * c) / 2 == c;
    }
  }

  /**
   * The network of prefix length `p` that contains `a` (what `strict=False`
   * makes of an address with host bits set): canonical, and `a` lies in it.
   */
  function NetworkOf(f: Family, a: nat, p: nat): (n: Network)
    requires a < Limit(f) && p <= Width(f)
    ensures Canonical(n) && n.family == f && n.prefix == p
    ensures n.base <= a < n.base + Pow2(Width(f) - p)
  {
    ClearLowFacts(a, Width(f) - p);
    Network(f, ClearLow(a, Width(f) - p), p)
  }

  /** `IPv4Network(s, strict=False)` over the one or two pieces of `s` around '/'. */
  function V4Network(parts: seq<string>): (r: Option<Network>)
    requires 1 <= |parts| <= 2
    ensures r.Some? ==> Canonical(r.value) && r.value.family == V4
  {
    match ParseV4Address(parts[0])
    case None => None
    case Some(a) =>
      var mask := if |parts| == 1 then Some(32) else ParseV4Mask(parts[1]);
      match mask
      case None => None
      case Some(p) =>
        Some(NetworkOf(V4, a, p))
  }

  /** `IPv6Network(s, strict=False)`: the prefix length is decimal digits only. */
  function V6Network(parts: seq<string>): (r: Option<Network>)
    requires 1 <= |parts| <= 2
    ensures r.Some? ==> Canonical(r.value) && r.value.family == V6
  {
    match ParseV6Address(parts[0])
    case None => None
    case Some(a) =>
      var mask := if |parts| == 1 then Some(128) else PrefixDigits(parts[1], 128);
      match mask
      case None => None
      case Some(p) =>
        Some(NetworkOf(V6, a, p))
  }

  /** `ipaddress.ip_network(s, strict=False)`: at most one '/', then IPv4, else IPv6. */
  function ParseNetwork(s: string): (r: Option<Network>)
    ensures r.Some? ==> Canonical(r.value)
  {
    var parts := Split(s, "/");
    if |parts| > 2 then None
    else
      match V4Network(parts)
      case Some(n) => Some(n)
      case None => V6Network(parts)
  }

  /** `ipaddress.ip_address(s)`: IPv4, else IPv6. */
  function ParseAddress(s: string): (r: Option<Address>)
    ensures r.Some? ==> r.value.value < Limit(r.value.family)
  {
    match ParseV4Address(s)
    case Some(a) => Some(Address(V4, a))
    case None =>
      match ParseV6Address(s)
      case Some(a) => Some(Address(V6, a))
      case None => None
  }

  function FormatAddress(f: Family, a: nat): string
    requires a < Limit(f)
  {
    if f == V4 then FormatV4(a) else FormatV6(a)
  }

  /** `str(network)`: the base address, '/', the prefix length in decimal; it reads back as the same network. */
  function FormatNetwork(n: Network): (r: string)
    requires Canonical(n)
    ensures ParseNetwork(r) == Some(n)
  {
    assert NetworkOf(n.family, n.base, n.prefix) == n;
    NetworkText(n.family, n.base, n.prefix);
    FormatAddress(n.family, n.base) + "/" + DecimalText(n.prefix)
  }

  /** The text of an address holds no '/'; an IPv6 text holds no '.'. */
  lemma AddressTextFree(f: Family, a: nat)
    requires a < Limit(f)
    ensures '/' !in FormatAddress(f, a)
    ensures f == V6 ==> '.' !in FormatAddress(f, a)
  {
    if f == V6 {
      V6TextFree(a, '/');
      V6TextFree(a, '.');
    }
  }

  /** An IPv6 text is never an IPv4 address. */
  lemma V6TextNotV4(a: nat)
    requires a < V6Size
    ensures ParseV4Address(FormatV6(a)).None?
  {
    V6TextFree(a, '.');
    SplitFree(FormatV6(a), '.');
  }

  /** The address text of either family reads back as that address. */
  lemma AddressRoundTrip(f: Family, a: nat)
    requires a < Limit(f)
    ensures ParseAddress(FormatAddress(f, a)) == Some(Address(f, a))
  {
    AddressTextFree(f, a);
    OccursIn('/', FormatAddress(f, a));
    if f == V6 {
      V6TextNotV4(a);
      V6RoundTrip(a);
    }
  }

  /**
   * Whatever `ip_address` accepts, `ip_network` accepts too, as the network
   * of that single address: the `ip_address` fallback for texts that
   * `ip_network` refuses can never produce anything.
   */
  lemma AddressIsNetwork(s: string)
    requires ParseAddress(s).Some?
    ensures ParseNetwork(s) == Some(Network(ParseAddress(s).value.family, ParseAddress(s).value.value, Width(ParseAddress(s).value.family)))
  {
    var addr := ParseAddress(s).value;
    assert !Occurs('/', s);
    OccursIn('/', s);
    SplitFree(s, '/');
    assert Split(s, "/") == [s];
  }

  lemma V4Parts(a: nat, p: nat)
    requires a < V4Size && p <= 32
    ensures V4Network([FormatV4(a), DecimalText(p)]) == Some(NetworkOf(V4, a, p))
  {
    OccursIn('/', FormatV4(a));
    PrefixText(p, 32);
  }

  lemma V6Parts(a: nat, p: nat)
    requires a < V6Size && p <= 128
    ensures V4Network([FormatV6(a), DecimalText(p)]).None?
    ensures V6Network([FormatV6(a), DecimalText(p)]) == Some(NetworkOf(V6, a, p))
  {
    V6TextNotV4(a);
    V6RoundTrip(a);
    PrefixText(p, 128);
  }

  /**
   * `ip_network("<address>/<prefix>", strict=False)` is the network of that
   * prefix length containing the address: host bits cleared, prefix kept.
   */
  lemma NetworkText(f: Family, a: nat, p: nat)
    requires a < Limit(f) && p <= Width(f)
    ensures ParseNetwork(FormatAddress(f, a) + "/" + DecimalText(p)) == Some(NetworkOf(f, a, p))
  {
    var addr := FormatAddress(f, a);
    var dec := DecimalText(p);
    assert Split(addr + "/" + dec, "/") == [addr, dec] by {
      AddressTextFree(f, a);
      DigitsFree(dec, '/');
      SplitAfterPiece(addr, '/', dec);
      SplitFree(dec, '/');
    }
    if f == V4 {
      V4Parts(a, p);
    } else {
      V6Parts(a, p);
    }
  }

  /** A bare address reads as the network of that one address: /32 or /128. */
  lemma BareAddress(f: Family, a: nat)
    requires a < Limit(f)
    ensures ParseNetwork(FormatAddress(f, a)) == Some(Network(f, a, Width(f)))
  {
    AddressRoundTrip(f, a);
    AddressIsNetwork(FormatAddress(f, a));
  }

  /** The text of one IP list line: stripped, cut at the first '#', stripped again. */
  function LineText(raw: string): string {
    Strip(Split(Strip(raw), "#")[0])
  }

  /**
   * What one line adds to `cidrs`: nothing for a blank line, the network's
   * text for a network, the line with "/32" or "/128" for a bare address that
   * only `ip_address` accepts, and nothing (a warning) for anything else.
   * Since `ip_network` accepts every bare address, every line that adds
   * something adds the text of the network its text denotes, and that text
   * reads back as the same network.
   */
  function LineEntry(raw: string): (r: Option<string>)
    ensures LineText(raw) == [] ==> r.None?
    ensures r.Some? <==> ParseNetwork(LineText(raw)).Some?
    ensures r.Some? ==> r.value == FormatNetwork(ParseNetwork(LineText(raw)).value)
    ensures r.Some? ==> ParseNetwork(r.value) == ParseNetwork(LineText(raw))
  {
    var line := LineText(raw);
    if line == [] then EmptyNoNetwork(); None
    else
      match ParseNetwork(line)
      case Some(n) => Some(FormatNetwork(n))
      case None =>
        match ParseAddress(line)
        case Some(addr) =>
          AddressIsNetwork(line);
          assert false;
          Some(line + (if addr.family == V4 then "/32" else "/128"))
        case None => None
  }

  /** The empty text is no network. */
  lemma EmptyNoNetwork()
    ensures ParseNetwork([]).None?
  {
    assert Split([], "/") == [[]];
    assert ParseV4Address([]).None?;
    assert ParseV6Address([]).None?;
  }

  /** A file all of whose lines are networks keeps one entry per line, each that line's network text, in order. */
  lemma ValidLinesKept(lines: seq<string>)
    requires forall i :: 0 <= i < |lines| ==> ParseNetwork(LineText(lines[i])).Some?
    ensures |LinesEntries(lines)| == |lines|
    ensures forall i :: 0 <= i < |lines| ==>
      LinesEntries(lines)[i] == FormatNetwork(ParseNetwork(LineText(lines[i])).value)
  {
    var es := Entries(lines);
    forall i | 0 <= i < |lines|
      ensures es[i] == Some(FormatNetwork(ParseNetwork(LineText(lines[i])).value))
    {
      EntriesAt(lines, i);
    }
    PresentAll(es);
  }

  /** What each line adds, line by line. */
  function Entries(lines: seq<string>): (es: seq<Option<string>>)
    ensures |es| == |lines|
  {
    Mapped(lines, LineEntry)
  }

  lemma EntriesAt(lines: seq<string>, i: nat)
    requires i < |lines|
    ensures Entries(lines)[i] == LineEntry(lines[i])
  {
    MappedAt(lines, LineEntry, i);
  }

  /** What the lines of one file add to `cidrs`, in order. */
  function LinesEntries(lines: seq<string>): seq<string> {
    Present(Entries(lines))
  }

  /** A line that adds nothing (blank or invalid) leaves the entries of the lines after it in place. */
  lemma SkippedLine(es: seq<Option<string>>, i: nat)
    requires i < |es| && es[i].None?
    ensures Present(es) == Present(es[..i]) + Present(es[i + 1..])
  {
    var before, line, after := es[..i], [es[i]], es[i + 1..];
    assert Present(es) == Present(before + line) + Present(after) by {
      assert es == before + line + after;
      PresentAppend(before + line, after);
    }
    assert Present(before + line) == Present(before) by {
      PresentAppend(before, line);
      assert line[..0] == [];
      assert Present(line) == [];
    }
  }

  /** Reading one more line adds that line's entry, if any. */
  lemma LinesEntriesNext(lines: seq<string>, j: nat)
    requires j < |lines|
    ensures LinesEntries(lines[..j + 1])
         == LinesEntries(lines[..j]) + (if LineEntry(lines[j]).Some? then [LineEntry(lines[j]).value] else [])
  {
    var prefix := lines[..j + 1];
    assert prefix[..j] == lines[..j];
    MappedNext(lines, LineEntry, j);
  }

  /** The loop over the lines of one ".txt" file in `load_ips_from_directory`. */
  method ReadIpFile(lines: seq<string>) returns (cidrs: seq<string>)
    ensures cidrs == LinesEntries(lines)
  {
    cidrs := [];
    var j := 0;
    while j < |lines|
      invariant 0 <= j <= |lines|
      invariant cidrs == LinesEntries(lines[..j])
    {
      LinesEntriesNext(lines, j);
      var entry := LineEntry(lines[j]);
      if entry.Some? {
        cidrs := cidrs + [entry.value];
      }
      j := j + 1;
    }
    assert lines[..j] == lines;
  }

  /** Every entry is the text of a canonical network and reads back as that network. */
  lemma EntriesReadBack(lines: seq<string>)
    ensures forall t :: t in LinesEntries(lines) ==> ParseNetwork(t).Some? && t == FormatNetwork(ParseNetwork(t).value)
  {
    var es := Entries(lines);
    forall t | t in LinesEntries(lines)
      ensures ParseNetwork(t).Some? && t == FormatNetwork(ParseNetwork(t).value)
    {
      PresentFrom(es, t);
      var i :| 0 <= i < |es| && es[i] == Some(t);
      EntriesAt(lines, i);
    }
  }

  /** A file the IP walk reads: a file (not a directory) whose name ends in ".txt". */
  predicate ListFile(fs: Tree, q: Path) {
    IsFile(fs, q) && EndsWith(Name(q), ".txt")
  }

  /** The entries of the files `walk` lists, in order. */
  function WalkEntries(fs: Tree, walk: seq<Path>): seq<string> {
    if walk == [] then []
    else
      var q := walk[|walk| - 1];
      WalkEntries(fs, walk[..|walk| - 1]) + (if ListFile(fs, q) then LinesEntries(fs[q].lines) else [])
  }

  lemma WalkEntriesNext(fs: Tree, walk: seq<Path>, i: nat)
    requires i < |walk|
    ensures WalkEntries(fs, walk[..i + 1])
         == WalkEntries(fs, walk[..i]) + (if ListFile(fs, walk[i]) then LinesEntries(fs[walk[i]].lines) else [])
  {
    assert walk[..i + 1][..i] == walk[..i];
  }

  /**
   * What `load_ips_from_directory(root)` returns: nothing when `root` does
   * not exist, nothing for a plain file, and for a directory the entries of
   * the ".txt" files in the order `walk` lists what lies under it.
   */
  function DirectoryIps(fs: Tree, root: Path, walk: seq<Path>): seq<string> {
    if root in fs && fs[root].Dir? then WalkEntries(fs, walk) else []
  }

  /** Every entry of the walk is the text of a canonical network and reads back as that network. */
  lemma {:induction false} WalkEntriesReadBack(fs: Tree, walk: seq<Path>)
    ensures forall t :: t in WalkEntries(fs, walk) ==> ParseNetwork(t).Some? && t == FormatNetwork(ParseNetwork(t).value)
  {
    if walk != [] {
      var q := walk[|walk| - 1];
      WalkEntriesReadBack(fs, walk[..|walk| - 1]);
      if ListFile(fs, q) {
        EntriesReadBack(fs[q].lines);
      }
    }
  }

  /** What `load_ips_from_directory` returns reads back, entry by entry, as the network it was written from. */
  lemma DirectoryIpsReadBack(fs: Tree, root: Path, walk: seq<Path>)
    ensures forall t :: t in DirectoryIps(fs, root, walk) ==> ParseNetwork(t).Some? && t == FormatNetwork(ParseNetwork(t).value)
  {
    WalkEntriesReadBack(fs, walk);
  }

  /** `load_ips_from_directory`; `walk` is the order in which `rglob('*.txt')` lists what lies under `root`. */
  method LoadIpsFromDirectory(fs: Tree, root: Path, walk: seq<Path>) returns (cidrs: seq<string>)
    ensures cidrs == DirectoryIps(fs, root, walk)
  {
    cidrs := [];
    if root !in fs {
      return;
    }
    if fs[root].Dir? {
      var i := 0;
      while i < |walk|
        invariant 0 <= i <= |walk|
        invariant cidrs == WalkEntries(fs, walk[..i])
      {
        WalkEntriesNext(fs, walk, i);
        var q := walk[i];
        if IsFile(fs, q) && EndsWith(Name(q), ".txt") {
          var found := ReadIpFile(fs[q].lines);
          cidrs := cidrs + found;
        }
        i := i + 1;
      }
      assert walk[..i] == walk;
    }
  }
}
