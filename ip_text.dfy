/**
 * The text forms of IP addresses, as Python's `ipaddress` module reads and
 * writes them (Python 3.9.5 or later, where an IPv4 octet may not carry a
 * leading zero). Addresses are numbers below 2^32 or 2^128.
 */
module IpText {
  import opened Wrappers
  import opened Text

  datatype Family = V4 | V6

  /** `max_prefixlen`: the width of an address in bits. */
  function Width(f: Family): nat {
    if f == V4 then 32 else 128
  }

  /** 256^n: the number of values `n` bytes can hold. */
  function Power(n: nat): (r: nat)
    ensures r >= 1
  {
    if n == 0 then 1 else Power(n - 1) * 256
  }

  /** The number of IPv4 and IPv6 addresses. */
  const V4Size: nat := 0x1_0000_0000
  const V6Size: nat := 0x1_0000_0000_0000_0000_0000_0000_0000_0000

  lemma V4Bytes()
    ensures Power(4) == V4Size
  {
    assert Power(2) == 0x1_0000;
  }

  lemma V6Bytes()
    ensures Power(16) == V6Size
  {
    assert Power(2) == 0x1_0000;
    assert Power(4) == 0x1_0000_0000;
    assert Power(6) == 0x1_0000_0000_0000;
    assert Power(8) == 0x1_0000_0000_0000_0000;
    assert Power(10) == 0x1_0000_0000_0000_0000_0000;
    assert Power(12) == 0x1_0000_0000_0000_0000_0000_0000;
    assert Power(14) == 0x1_0000_0000_0000_0000_0000_0000_0000;
  }

  /** The number of bytes in an address: its width is eight times this. */
  function Size(f: Family): nat {
    if f == V4 then 4 else 16
  }

  predicate IsBytes(bs: seq<nat>) {
    forall i :: 0 <= i < |bs| ==> bs[i] < 256
  }

  /** `a.to_bytes(n, 'big')`: the last `n` bytes of `a`, most significant first. */
  function Bytes(a: nat, n: nat): (bs: seq<nat>)
    ensures |bs| == n && IsBytes(bs)
  {
    if n == 0 then [] else Bytes(a / 256, n - 1) + [a % 256]
  }

  /** `int.from_bytes(bs, 'big')`. */
  function Value(bs: seq<nat>): nat {
    if bs == [] then 0 else Value(bs[..|bs| - 1]) * 256 + bs[|bs| - 1]
  }

  /** `n` bytes hold a number below 256^n. */
  lemma {:induction false} ValueBound(bs: seq<nat>)
    requires IsBytes(bs)
    ensures Value(bs) < Power(|bs|)
  {
    if bs != [] {
      ValueBound(bs[..|bs| - 1]);
    }
  }

  /** Reading back the bytes of a number that fits in them gives the number. */
  lemma {:induction false} ValueOfBytes(a: nat, n: nat)
    requires a < Power(n)
    ensures Value(Bytes(a, n)) == a
  {
    if n > 0 {
      ValueOfBytes(a / 256, n - 1);
      assert Bytes(a, n)[..n - 1] == Bytes(a / 256, n - 1);
    }
  }

  /** Writing the value of a byte string back as that many bytes gives the byte string. */
  lemma {:induction false} BytesOfValue(bs: seq<nat>)
    requires IsBytes(bs)
    ensures Bytes(Value(bs), |bs|) == bs
  {
    if bs != [] {
      BytesOfValue(bs[..|bs| - 1]);
    }
  }

  function Pow2(n: nat): (r: nat)
    ensures r >= 1
  {
    if n == 0 then 1 else 2 * Pow2(n - 1)
  }

  lemma {:induction false} Pow2Less(a: nat, b: nat)
    requires a < b
    ensures Pow2(a) < Pow2(b)
  {
    if a + 1 < b {
      Pow2Less(a, b - 1);
    }
  }

  /** 2^(8k) is 256^k. */
  lemma {:induction false} Pow2Bytes(k: nat)
    ensures Pow2(8 * k) == Power(k)
  {
    if k > 0 {
      Pow2Bytes(k - 1);
      var n := 8 * (k - 1);
      assert 8 * k == n + 8;
      assert Pow2(n + 2) == 4 * Pow2(n);
      assert Pow2(n + 4) == 16 * Pow2(n);
      assert Pow2(n + 6) == 64 * Pow2(n);
      assert Pow2(n + 8) == 256 * Pow2(n);
    }
  }

  /** Reading every piece with `parse`; the first piece it refuses makes the whole reading fail. */
  function ParseEach(parts: seq<string>, parse: string -> Option<nat>): (r: Option<seq<nat>>)
    ensures r.Some? <==> forall i :: 0 <= i < |parts| ==> parse(parts[i]).Some?
    ensures r.Some? ==> |r.value| == |parts|
    ensures r.Some? ==> forall i :: 0 <= i < |parts| ==> parse(parts[i]) == Some(r.value[i])
  {
    if parts == [] then Some([])
    else
      match ParseEach(parts[..|parts| - 1], parse)
      case None => None
      case Some(vs) =>
        match parse(parts[|parts| - 1])
        case None => None
        case Some(v) => Some(vs + [v])
  }

  /** Pieces that each read as the matching value read together as those values. */
  lemma {:induction false} ParseEachAll(parts: seq<string>, parse: string -> Option<nat>, vs: seq<nat>)
    requires |vs| == |parts|
    requires forall i :: 0 <= i < |parts| ==> parse(parts[i]) == Some(vs[i])
    ensures ParseEach(parts, parse) == Some(vs)
  {
    if parts != [] {
      var n := |parts| - 1;
      ParseEachAll(parts[..n], parse, vs[..n]);
      assert vs == vs[..n] + [vs[n]];
    }
  }

  /** `IPv4Address._parse_octet`: one to three ASCII digits, no leading zero, at most 255. */
  function ParseOctet(s: string): (r: Option<nat>)
    ensures r.Some? ==> r.value < 256
  {
    if s == [] || !AllDigits(s) || |s| > 3 then None
    else if s != "0" && s[0] == '0' then None
    else if DecimalValue(s) > 255 then None
    else Some(DecimalValue(s))
  }

  /** `IPv4Address._ip_int_from_string`: exactly four dot-separated octets, read as four bytes. */
  function ParseV4(s: string): (r: Option<nat>)
    ensures r.Some? ==> r.value < V4Size
  {
    if s == [] then None
    else
      var parts := Split(s, ".");
      if |parts| != 4 then None
      else
        match ParseEach(parts, ParseOctet)
        case None => None
        case Some(os) =>
          ValueBound(os);
          V4Bytes();
          Some(Value(os))
  }

  /** `IPv4Address(s)`: a '/' is refused before the octets are read. */
  function ParseV4Address(s: string): (r: Option<nat>)
    ensures r.Some? ==> !Occurs('/', s) && r.value < V4Size
  {
    if Occurs('/', s) then None else ParseV4(s)
  }

  function DecimalTexts(ds: seq<nat>): (ts: seq<string>)
    ensures |ts| == |ds|
    ensures forall i :: 0 <= i < |ts| ==> ts[i] == DecimalText(ds[i])
  {
    if ds == [] then [] else [DecimalText(ds[0])] + DecimalTexts(ds[1..])
  }

  /** `str(IPv4Address(a))`: the four bytes in decimal, joined by dots. */
  function FormatV4(a: nat): (r: string)
    requires a < V4Size
    ensures ParseV4(r) == Some(a)
    ensures ':' !in r && '/' !in r && '%' !in r
  {
    DottedRead(a);
    DottedFree(a);
    Join(DecimalTexts(Bytes(a, 4)), ".")
  }

  /** The four bytes of an address in decimal, joined by dots, read back as the address. */
  lemma DottedRead(a: nat)
    requires a < V4Size
    ensures ParseV4(Join(DecimalTexts(Bytes(a, 4)), ".")) == Some(a)
  {
    var bs := Bytes(a, 4);
    var ts := DecimalTexts(bs);
    forall i | 0 <= i < 4
      ensures '.' !in ts[i] && ParseOctet(ts[i]) == Some(bs[i])
    {
      DigitsFree(ts[i], '.');
      OctetText(bs[i]);
    }
    SplitJoin(ts, '.');
    assert Split(Join(ts, "."), ".") == ts;
    ParseEachAll(ts, ParseOctet, bs);
    V4Bytes();
    ValueOfBytes(a, 4);
  }

  /** Decimal pieces joined by dots hold no ':', '/' or '%'. */
  lemma DottedFree(a: nat)
    requires a < V4Size
    ensures var r := Join(DecimalTexts(Bytes(a, 4)), "."); ':' !in r && '/' !in r && '%' !in r
  {
    var ts := DecimalTexts(Bytes(a, 4));
    forall i, c | 0 <= i < 4 && c in ":/%"
      ensures c !in ts[i]
    {
      DigitsFree(ts[i], c);
    }
    JoinFree(ts, '.', ':');
    JoinFree(ts, '.', '/');
    JoinFree(ts, '.', '%');
  }

  lemma DigitsFree(s: string, c: char)
    requires AllDigits(s) && !IsDigit(c)
    ensures c !in s
  {
  }

  lemma HexFree(s: string, c: char)
    requires AllHexDigits(s) && !IsHexDigit(c)
    ensures c !in s
  {
  }

  /** A character in no piece and not the separator is not in the joined text. */
  lemma {:induction false} JoinFree(parts: seq<string>, sep: char, c: char)
    requires |parts| >= 1 && c != sep
    requires forall i :: 0 <= i < |parts| ==> c !in parts[i]
    ensures c !in Join(parts, [sep])
  {
    if |parts| > 1 {
      JoinFree(parts[1..], sep, c);
      assert c !in parts[0];
    }
  }

  /** Every value a byte can hold is read back from its decimal text. */
  lemma OctetText(d: nat)
    requires d < 256
    ensures ParseOctet(DecimalText(d)) == Some(d)
  {
    DecimalTextShort(d);
    DecimalRoundTrip(d);
  }

  /** Up to four hexadecimal digits hold a number below 0x10000. */
  lemma {:induction false} HexBound(s: string)
    requires AllHexDigits(s) && |s| <= 4
    ensures HexValue(s) < 0x1_0000
    ensures |s| <= 3 ==> HexValue(s) < 0x1000
    ensures |s| <= 2 ==> HexValue(s) < 0x100
    ensures |s| <= 1 ==> HexValue(s) < 0x10
  {
    if s != [] {
      HexBound(s[..|s| - 1]);
    }
  }

  /** `IPv6Address._parse_hextet`: one to four hexadecimal digits. */
  function ParseHextet(s: string): (r: Option<nat>)
    ensures r.Some? ==> r.value < 0x1_0000
  {
    if s == [] || !AllHexDigits(s) || |s| > 4 then None
    else
      HexBound(s);
      Some(HexValue(s))
  }

  /** Hextets as the two bytes each stands for. */
  function HextetBytes(hs: seq<nat>): (bs: seq<nat>)
    requires forall i :: 0 <= i < |hs| ==> hs[i] < 0x1_0000
    ensures |bs| == 2 * |hs| && IsBytes(bs)
  {
    if hs == [] then [] else [hs[0] / 256, hs[0] % 256] + HextetBytes(hs[1..])
  }

  /** Bytes paired into hextets. */
  function Hextets(bs: seq<nat>): (hs: seq<nat>)
    requires IsBytes(bs) && |bs| % 2 == 0
    ensures |hs| == |bs| / 2
    ensures forall i :: 0 <= i < |hs| ==> hs[i] < 0x1_0000
  {
    if bs == [] then [] else [bs[0] * 256 + bs[1]] + Hextets(bs[2..])
  }

  lemma PairBytes(x: nat, y: nat)
    requires x < 256 && y < 256
    ensures (x * 256 + y) / 256 == x && (x * 256 + y) % 256 == y
  {
  }

  /** Pairing bytes into hextets and splitting them again gives the bytes back. */
  lemma {:induction false} HextetsBytes(bs: seq<nat>)
    requires IsBytes(bs) && |bs| % 2 == 0
    ensures HextetBytes(Hextets(bs)) == bs
  {
    if bs != [] {
      HextetsBytes(bs[2..]);
      PairBytes(bs[0], bs[1]);
      var hs := Hextets(bs);
      assert hs[1..] == Hextets(bs[2..]);
      assert bs == [bs[0], bs[1]] + bs[2..];
    }
  }

  /** The address that hextets spell, most significant first. */
  function HextetValue(hs: seq<nat>): (a: nat)
    requires |hs| == 8
    requires forall i :: 0 <= i < 8 ==> hs[i] < 0x1_0000
    ensures a < V6Size
  {
    ValueBound(HextetBytes(hs));
    V6Bytes();
    Value(HextetBytes(hs))
  }

  /** The indices `j` with `i <= j < |parts| - 1` whose piece is empty. */
  function EmptyInner(parts: seq<string>, i: nat): (r: seq<nat>)
    ensures forall j :: 0 <= j < |r| ==> i <= r[j] < |parts| - 1 && parts[r[j]] == []
    ensures r == [] <==> forall j :: i <= j < |parts| - 1 ==> parts[j] != []
    decreases |parts| - i
  {
    if i + 1 >= |parts| then []
    else (if parts[i] == [] then [i] else []) + EmptyInner(parts, i + 1)
  }

  /**
   * The value of hextet pieces around the one "::" at index `k`: the pieces
   * before it, zero hextets up to eight, then the pieces after it. An empty
   * first (last) piece is allowed only when the "::" starts (ends) the text.
   */
  function Compressed(parts: seq<string>, k: nat): (r: Option<nat>)
    requires 1 <= k < |parts| - 1
    ensures r.Some? ==> r.value < V6Size
  {
    var hi0 := k;
    var lo0 := |parts| - k - 1;
    if parts[0] == [] && hi0 - 1 != 0 then None
    else if parts[|parts| - 1] == [] && lo0 - 1 != 0 then None
    else
      var hi := if parts[0] == [] then 0 else hi0;
      var lo := if parts[|parts| - 1] == [] then 0 else lo0;
      if 8 - (hi + lo) < 1 then None
      else
        match (ParseEach(parts[..hi], ParseHextet), ParseEach(parts[|parts| - lo..], ParseHextet))
        case (Some(high), Some(low)) =>
          Some(HextetValue(Spliced(high, low)))
        case _ => None
  }

  /** The hextets before a "::", zeros up to eight hextets, then the hextets after it. */
  function Spliced(high: seq<nat>, low: seq<nat>): (hs: seq<nat>)
    requires |high| + |low| < 8
    requires forall i :: 0 <= i < |high| ==> high[i] < 0x1_0000
    requires forall i :: 0 <= i < |low| ==> low[i] < 0x1_0000
    ensures |hs| == 8 && hs[..|high|] == high && hs[8 - |low|..] == low
    ensures forall i :: |high| <= i < 8 - |low| ==> hs[i] == 0
    ensures forall i :: 0 <= i < 8 ==> hs[i] < 0x1_0000
  {
    high + seq(8 - |high| - |low|, _ => 0) + low
  }

  /** The pieces of an IPv6 text once a trailing dotted IPv4 piece is replaced by two hextets. */
  function EmbedV4(parts: seq<string>): Option<seq<string>>
    requires |parts| >= 1
  {
    var last := parts[|parts| - 1];
    if !Occurs('.', last) then Some(parts)
    else
      match ParseV4Address(last)
      case None => None
      case Some(v) => Some(parts[..|parts| - 1] + [HexText(v / 0x1_0000 % 0x1_0000), HexText(v % 0x1_0000)])
  }

  /** The value of (at most nine) hextet pieces holding at most one "::". */
  function HextetPieces(parts: seq<string>): (r: Option<nat>)
    requires |parts| >= 1
    ensures r.Some? ==> r.value < V6Size
  {
    if |parts| > 9 then None
    else
      var skips := EmptyInner(parts, 1);
      if |skips| > 1 then None
      else if |skips| == 1 then Compressed(parts, skips[0])
      else if |parts| != 8 || parts[0] == [] || parts[7] == [] then None
      else
        match ParseEach(parts, ParseHextet)
        case None => None
        case Some(hs) => Some(HextetValue(hs))
  }

  /** `IPv6Address._ip_int_from_string`: at least three ':'-separated pieces. */
  function ParseV6Body(s: string): (r: Option<nat>)
    ensures r.Some? ==> r.value < V6Size
  {
    if s == [] then None
    else
      var parts := Split(s, ":");
      if |parts| < 3 then None
      else
        match EmbedV4(parts)
        case None => None
        case Some(ps) => HextetPieces(ps)
  }

  /**
   * `IPv6Address(s)`: a '/' is refused; a scope after the first '%' is set
   * aside and must be non-empty and free of '%'; it does not change the value.
   */
  function ParseV6Address(s: string): (r: Option<nat>)
    ensures r.Some? ==> r.value < V6Size
  {
    if Occurs('/', s) then None
    else
      var pieces := Split(s, "%");
      if |pieces| > 2 || (|pieces| == 2 && pieces[1] == []) then None
      else ParseV6Body(pieces[0])
  }

  function HexTexts(ds: seq<nat>): (ts: seq<string>)
    ensures |ts| == |ds|
    ensures forall i :: 0 <= i < |ts| ==> ts[i] == HexText(ds[i])
  {
    if ds == [] then [] else [HexText(ds[0])] + HexTexts(ds[1..])
  }

  /** Hextets in hexadecimal, joined by ':'. */
  function HextetsText(hs: seq<nat>): string
    requires |hs| >= 1
  {
    Join(HexTexts(hs), ":")
  }

  /** An IPv6 address as its eight hextets in hexadecimal, joined by ':' (without "::" compression). */
  function FormatV6(a: nat): string
    requires a < V6Size
  {
    HextetsText(Hextets(Bytes(a, 16)))
  }

  lemma HextetText(d: nat)
    requires d < 0x1_0000
    ensures ParseHextet(HexText(d)) == Some(d)
  {
    HexTextShort(d);
    HexRoundTrip(d);
  }

  /** Hextet text holds no '.', '/' or '%'. */
  lemma HextetsTextFree(hs: seq<nat>, c: char)
    requires |hs| >= 1
    requires c == '.' || c == '/' || c == '%'
    ensures c !in HextetsText(hs)
  {
    var ts := HexTexts(hs);
    forall i | 0 <= i < |ts|
      ensures c !in ts[i]
    {
      HexFree(ts[i], c);
    }
    JoinFree(ts, ':', c);
  }

  /** Eight hextet texts, read as pieces, are the address the hextets spell. */
  lemma HextetGroups(hs: seq<nat>)
    requires |hs| == 8 && forall i :: 0 <= i < 8 ==> hs[i] < 0x1_0000
    ensures HextetPieces(HexTexts(hs)) == Some(HextetValue(hs))
  {
    var ts := HexTexts(hs);
    forall i | 0 <= i < 8
      ensures ts[i] != [] && ParseHextet(ts[i]) == Some(hs[i])
    {
      HextetText(hs[i]);
    }
    assert EmptyInner(ts, 1) == [];
    ParseEachAll(ts, ParseHextet, hs);
  }

  /** Eight hextets written out read back as the address they spell. */
  lemma HextetsTextRead(hs: seq<nat>)
    requires |hs| == 8 && forall i :: 0 <= i < 8 ==> hs[i] < 0x1_0000
    ensures ParseV6Address(HextetsText(hs)) == Some(HextetValue(hs))
  {
    var ts := HexTexts(hs);
    var text := HextetsText(hs);
    forall i | 0 <= i < 8
      ensures ':' !in ts[i] && '.' !in ts[i]
    {
      HexFree(ts[i], ':');
      HexFree(ts[i], '.');
    }
    HextetsTextFree(hs, '/');
    HextetsTextFree(hs, '%');
    OccursIn('/', text);
    SplitFree(text, '%');
    SplitJoin(ts, ':');
    OccursIn('.', ts[7]);
    assert EmbedV4(ts) == Some(ts);
    HextetGroups(hs);
  }

  /** Reading an address back from its eight-group text gives the address. */
  lemma V6RoundTrip(a: nat)
    requires a < V6Size
    ensures ParseV6Address(FormatV6(a)) == Some(a)
  {
    var bs := Bytes(a, 16);
    var hs := Hextets(bs);
    HextetsTextRead(hs);
    HextetsBytes(bs);
    V6Bytes();
    ValueOfBytes(a, 16);
  }

  /** The eight-group text of an address holds no '.', '/' or '%'. */
  lemma V6TextFree(a: nat, c: char)
    requires a < V6Size
    requires c == '.' || c == '/' || c == '%'
    ensures c !in FormatV6(a)
  {
    HextetsTextFree(Hextets(Bytes(a, 16)), c);
  }

  /** The netmask of prefix length `p`: `p` one bits followed by `w - p` zero bits. */
  function MaskValue(w: nat, p: nat): (m: nat)
    requires p <= w
    ensures m < Pow2(w)
  {
    if p > 0 then
      Pow2Less(w - p, w);
      Pow2(w) - Pow2(w - p)
    else
      0
  }

  /** Longer prefixes give strictly larger masks. */
  lemma MaskIncreasing(w: nat, p: nat, q: nat)
    requires p < q <= w
    ensures MaskValue(w, p) < MaskValue(w, q)
  {
    Pow2Less(w - q, w - p);
  }

  /** `_prefix_from_ip_int`: the prefix in `from..w` whose mask is `m`, if any. */
  function MaskPrefix(m: nat, w: nat, from: nat): (r: Option<nat>)
    requires from <= w + 1
    ensures r.Some? ==> from <= r.value <= w && MaskValue(w, r.value) == m
    decreases w + 1 - from
  {
    if from > w then None
    else if MaskValue(w, from) == m then Some(from)
    else MaskPrefix(m, w, from + 1)
  }

  /** A number is the netmask of at most one prefix length, and the search finds it. */
  lemma {:induction false} MaskPrefixFinds(m: nat, w: nat, from: nat, p: nat)
    requires from <= p <= w
    ensures MaskPrefix(m, w, from) == Some(p) <==> MaskValue(w, p) == m
    decreases w + 1 - from
  {
    if MaskValue(w, from) == m {
      if from < p {
        MaskIncreasing(w, from, p);
      }
    } else if from < p {
      MaskPrefixFinds(m, w, from + 1, p);
    }
  }

  /** `_prefix_from_prefix_string`: ASCII decimal digits naming a length from 0 to `w`. */
  function PrefixDigits(s: string, w: nat): (r: Option<nat>)
    ensures r.Some? ==> r.value <= w
  {
    if s != [] && AllDigits(s) && DecimalValue(s) <= w then Some(DecimalValue(s)) else None
  }

  /**
   * `IPv4Network._make_netmask` for a text: a prefix length, else a dotted
   * netmask, else a dotted host mask (the netmask with every bit inverted).
   */
  function ParseV4Mask(s: string): (r: Option<nat>)
    ensures r.Some? ==> r.value <= 32
  {
    match PrefixDigits(s, 32)
    case Some(p) => Some(p)
    case None =>
      match ParseV4(s)
      case None => None
      case Some(m) => V4MaskPrefix(m)
  }

  /** The prefix length of a dotted IPv4 mask: as a netmask, else as a host mask. */
  function V4MaskPrefix(m: nat): (r: Option<nat>)
    requires m <= 0xFFFF_FFFF
    ensures r.Some? ==> r.value <= 32
  {
    match MaskPrefix(m, 32, 0)
    case Some(p) => Some(p)
    case None => MaskPrefix(0xFFFF_FFFF - m, 32, 0)
  }

  /** The decimal text of a prefix length reads as that length. */
  lemma PrefixText(p: nat, w: nat)
    requires p <= w
    ensures PrefixDigits(DecimalText(p), w) == Some(p)
  {
    DecimalRoundTrip(p);
  }

  /** 2^32 is the number of IPv4 addresses, so every IPv4 netmask is an IPv4 address. */
  lemma V4MaskFits(p: nat)
    requires p <= 32
    ensures Pow2(32) == V4Size && MaskValue(32, p) < V4Size
  {
    Pow2Bytes(4);
    V4Bytes();
  }

  /**
   * A dotted netmask reads as its prefix length; so does a dotted host mask,
   * except the two that are netmasks themselves ("0.0.0.0" and
   * "255.255.255.255" read as /0 and /32).
   */
  lemma V4MaskText(p: nat)
    requires p <= 32
    ensures MaskValue(32, p) < V4Size && ParseV4Mask(FormatV4(MaskValue(32, p))) == Some(p)
  {
    V4MaskFits(p);
    var m := MaskValue(32, p);
    NotDigits(m);
    MaskPrefixFinds(m, 32, 0, p);
  }

  lemma V4HostmaskText(p: nat)
    requires 0 < p < 32
    ensures MaskValue(32, p) < V4Size && ParseV4Mask(FormatV4(0xFFFF_FFFF - MaskValue(32, p))) == Some(p)
  {
    V4MaskFits(p);
    var m := MaskValue(32, p);
    HostmaskPrefix(p, m, 0xFFFF_FFFF - m);
    HostmaskTextOf(0xFFFF_FFFF - m, p);
  }

  /** The hostmask of a prefix strictly inside (0, 32) is no netmask, and its complement is the netmask of that prefix. */
  lemma HostmaskPrefix(p: nat, m: nat, h: nat)
    requires 0 < p < 32 && m == MaskValue(32, p) && Pow2(32) == V4Size && h == 0xFFFF_FFFF - m
    ensures MaskPrefix(h, 32, 0).None? && MaskPrefix(0xFFFF_FFFF - h, 32, 0) == Some(p)
  {
    HostmaskNotNetmask(32, p);
    MaskPrefixFinds(m, 32, 0, p);
  }

  /** The dotted text of a number that is a hostmask but no netmask reads as the hostmask's prefix. */
  lemma HostmaskTextOf(h: nat, p: nat)
    requires h < V4Size && MaskPrefix(h, 32, 0).None? && MaskPrefix(0xFFFF_FFFF - h, 32, 0) == Some(p)
    ensures ParseV4Mask(FormatV4(h)) == Some(p)
  {
    NotDigits(h);
    HostmaskRead(FormatV4(h), h, p);
  }

  lemma HostmaskRead(s: string, h: nat, p: nat)
    requires h < V4Size && PrefixDigits(s, 32).None? && ParseV4(s) == Some(h)
    requires MaskPrefix(h, 32, 0).None? && MaskPrefix(0xFFFF_FFFF - h, 32, 0) == Some(p)
    ensures ParseV4Mask(s) == Some(p)
  {
  }

  /** A dotted-decimal text is never a plain prefix length. */
  lemma NotDigits(a: nat)
    requires a < V4Size
    ensures PrefixDigits(FormatV4(a), 32).None?
  {
    var ts := DecimalTexts(Bytes(a, 4));
    assert FormatV4(a) == ts[0] + "." + Join(ts[1..], ".");
    assert FormatV4(a)[|ts[0]|] == '.';
  }

  lemma {:induction false} Pow2Even(n: nat)
    requires n >= 1
    ensures Pow2(n) % 2 == 0
  {
  }

  /** A netmask of a prefix shorter than `w` is even. */
  lemma MaskEven(w: nat, q: nat)
    requires q < w
    ensures MaskValue(w, q) % 2 == 0
  {
    if q > 0 {
      Pow2Even(w - q);
      Pow2Even(w);
    }
  }

  /** The host mask of a prefix strictly between 0 and `w` is odd, so no netmask equals it. */
  lemma HostmaskNotNetmask(w: nat, p: nat)
    requires 0 < p < w
    ensures MaskPrefix(Pow2(w) - 1 - MaskValue(w, p), w, 0).None?
  {
    var h := Pow2(w) - 1 - MaskValue(w, p);
    assert h % 2 == 1 by {
      MaskEven(w, p);
      Pow2Even(w);
    }
    if MaskPrefix(h, w, 0).Some? {
      var q := MaskPrefix(h, w, 0).value;
      assert MaskValue(w, q) == h;
      if q < w {
        MaskEven(w, q);
      } else {
        Pow2Less(w - p, w);
      }
    }
  }

}
