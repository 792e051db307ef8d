/**
 * The few Python `str` operations the rule tools are built from: `strip`,
 * `lstrip`, `split(sep)`, `split()`, `startswith`, ASCII `lower`, and
 * decimal/hexadecimal digit strings.
 */
module Text {
  import opened Wrappers

  /** `str.isspace()` for one character: the characters Python's `strip()` and `split()` remove. */
  predicate IsSpace(c: char) {
    || c == ' ' || ('\t' <= c <= '\r') || ('\U{1C}' <= c <= '\U{1F}')
    || c == '\U{85}' || c == '\U{A0}' || c == '\U{1680}' || ('\U{2000}' <= c <= '\U{200A}')
    || c == '\U{2028}' || c == '\U{2029}' || c == '\U{202F}' || c == '\U{205F}' || c == '\U{3000}'
  }

  predicate AllSpace(s: string) {
    forall i :: 0 <= i < |s| ==> IsSpace(s[i])
  }

  predicate NoSpace(s: string) {
    forall i :: 0 <= i < |s| ==> !IsSpace(s[i])
  }

  predicate StartsWith(s: string, prefix: string) {
    |prefix| <= |s| && s[..|prefix|] == prefix
  }

  predicate EndsWith(s: string, suffix: string) {
    |suffix| <= |s| && s[|s| - |suffix|..] == suffix
  }

  /** `c in s`, written as a recursion over the text. */
  predicate Occurs(c: char, s: string)
    decreases |s|
  {
    s != [] && (s[0] == c || Occurs(c, s[1..]))
  }

  lemma {:induction false} OccursIn(c: char, s: string)
    ensures Occurs(c, s) <==> c in s
    decreases |s|
  {
    if s != [] {
      OccursIn(c, s[1..]);
      assert s == [s[0]] + s[1..];
    }
  }

  /** The number of whitespace characters `s` starts with. */
  function LeadingSpace(s: string): (n: nat)
    ensures n <= |s| && AllSpace(s[..n])
    ensures n == |s| || !IsSpace(s[n])
  {
    if s != [] && IsSpace(s[0]) then 1 + LeadingSpace(s[1..]) else 0
  }

  /** The number of whitespace characters `s` ends with. */
  function TrailingSpace(s: string): (n: nat)
    ensures n <= |s| && AllSpace(s[|s| - n..])
    ensures n == |s| || !IsSpace(s[|s| - n - 1])
  {
    if s != [] && IsSpace(s[|s| - 1]) then 1 + TrailingSpace(s[..|s| - 1]) else 0
  }

  /** `s.lstrip()`: the suffix of `s` left after dropping its leading whitespace. */
  function LStrip(s: string): (r: string)
    ensures r == [] || !IsSpace(r[0])
  {
    s[LeadingSpace(s)..]
  }

  /** `s.rstrip()`: the prefix of `s` left after dropping its trailing whitespace. */
  function RStrip(s: string): (r: string)
    ensures r == [] || !IsSpace(r[|r| - 1])
  {
    s[..|s| - TrailingSpace(s)]
  }

  /** `s.strip()`. */
  function Strip(s: string): (r: string)
    ensures r == [] || (!IsSpace(r[0]) && !IsSpace(r[|r| - 1]))
  {
    RStripFirst(LStrip(s));
    RStrip(LStrip(s))
  }

  /** Leading whitespace followed by a text that does not start with whitespace: `lstrip` keeps exactly that text. */
  lemma {:induction false} LStripUnique(w: string, t: string)
    requires AllSpace(w)
    requires t == [] || !IsSpace(t[0])
    ensures LeadingSpace(w + t) == |w|
    ensures LStrip(w + t) == t
  {
    if w != [] {
      assert (w + t)[1..] == w[1..] + t;
      LStripUnique(w[1..], t);
    } else {
      assert w + t == t;
    }
  }

  /** A text that does not end in whitespace followed by whitespace: `rstrip` keeps exactly that text. */
  lemma {:induction false} RStripUnique(t: string, w: string)
    requires AllSpace(w)
    requires t == [] || !IsSpace(t[|t| - 1])
    ensures TrailingSpace(t + w) == |w|
    ensures RStrip(t + w) == t
  {
    if w != [] {
      assert (t + w)[..|t + w| - 1] == t + w[..|w| - 1];
      RStripUnique(t, w[..|w| - 1]);
    } else {
      assert t + w == t;
    }
  }

  /** Stripping a text that neither starts nor ends with whitespace changes nothing. */
  lemma StripNoop(s: string)
    requires s == [] || (!IsSpace(s[0]) && !IsSpace(s[|s| - 1]))
    ensures LStrip(s) == s && RStrip(s) == s && Strip(s) == s
  {
    LStripUnique([], s);
    assert [] + s == s;
    RStripUnique(s, []);
    assert s + [] == s;
  }

  /** Stripping a text without whitespace keeps it free of whitespace and of any character it lacked. */
  /** Stripping twice strips nothing more. */
  lemma StripTwice(s: string)
    ensures Strip(Strip(s)) == Strip(s)
  {
    StripNoop(Strip(s));
  }

  lemma StripNoSpace(s: string, c: char)
    requires NoSpace(s) && c !in s
    ensures NoSpace(Strip(s)) && c !in Strip(s)
  {
    if s != [] {
      StripNoop(s);
    } else {
      LStripUnique([], []);
      RStripUnique([], []);
    }
  }

  /** Whitespace appended after a text that ends in something else is exactly what `rstrip` removes. */
  lemma RStripAppend(a: string, b: string)
    requires a != [] && !IsSpace(a[|a| - 1])
    ensures RStrip(a + b) == a + RStrip(b)
  {
    var rb := RStrip(b);
    var w := b[|rb|..];
    assert b == rb + w;
    assert AllSpace(w);
    assert a + b == (a + rb) + w;
    RStripUnique(a + rb, w);
  }

  /** Text appended after a line that is not all whitespace is kept whole by `lstrip`. */
  lemma LStripAppend(l: string, s: string)
    requires LStrip(l) != []
    ensures LStrip(l + s) == LStrip(l) + s
  {
    var n := LeadingSpace(l);
    assert l + s == l[..n] + (l[n..] + s);
    LStripUnique(l[..n], l[n..] + s);
  }

  /** `rstrip` keeps the first character of a text it does not empty. */
  lemma RStripFirst(x: string)
    ensures RStrip(x) == [] || RStrip(x)[0] == x[0]
  {
  }

  /**
   * Text appended after a non-blank line, when it starts with whitespace,
   * leaves the stripped line in front, followed by nothing or by whitespace.
   */
  lemma StripAppend(l: string, s: string) returns (z: string)
    requires Strip(l) != []
    requires s == [] || IsSpace(s[0])
    ensures Strip(l + s) == Strip(l) + z
    ensures z == [] || IsSpace(z[0])
  {
    var L := LStrip(l);
    var t := RStrip(L);
    var w := L[|t|..];
    LStripAppend(l, s);
    assert L + s == t + (w + s);
    RStripAppend(t, w + s);
    z := RStrip(w + s);
    RStripFirst(w + s);
    if z != [] && w != [] {
      assert w[0] == L[|t|];
      assert AllSpace(L[|L| - TrailingSpace(L)..]);
    }
  }

  /**
   * `s.split(sep)` for a non-empty separator: the pieces between the
   * non-overlapping occurrences of `sep`, found left to right.
   */
  function Split(s: string, sep: string): (parts: seq<string>)
    requires sep != []
    ensures |parts| >= 1
    decreases |s|
  {
    if |s| < |sep| then [s]
    else if s[..|sep|] == sep then [""] + Split(s[|sep|..], sep)
    else
      var rest := Split(s[1..], sep);
      [[s[0]] + rest[0]] + rest[1..]
  }

  /** `sep.join(parts)`. */
  function Join(parts: seq<string>, sep: string): string
    requires |parts| >= 1
  {
    if |parts| == 1 then parts[0] else parts[0] + sep + Join(parts[1..], sep)
  }

  /** Splitting loses nothing: joining the pieces with the separator gives the text back. */
  lemma {:induction false} JoinSplit(s: string, sep: string)
    requires sep != []
    ensures Join(Split(s, sep), sep) == s
    decreases |s|
  {
    if |s| < |sep| {
    } else if s[..|sep|] == sep {
      var rest := Split(s[|sep|..], sep);
      JoinSplit(s[|sep|..], sep);
      assert Join([""] + rest, sep) == "" + sep + Join(rest, sep);
      assert s == sep + s[|sep|..];
    } else {
      var rest := Split(s[1..], sep);
      JoinSplit(s[1..], sep);
      JoinCons(s[0], rest, sep);
      assert s == [s[0]] + s[1..];
    }
  }

  /** Putting a character in front of the first piece puts it in front of the joined text. */
  lemma JoinCons(c: char, rest: seq<string>, sep: string)
    requires |rest| >= 1
    ensures Join([[c] + rest[0]] + rest[1..], sep) == [c] + Join(rest, sep)
  {
    var parts := [[c] + rest[0]] + rest[1..];
    if |rest| > 1 {
      assert parts[1..] == rest[1..];
      assert ([c] + rest[0]) + sep + Join(rest[1..], sep) == [c] + (rest[0] + sep + Join(rest[1..], sep));
    }
  }

  /** The first piece of a split is a prefix of the text. */
  lemma {:induction false} SplitFirstIsPrefix(s: string, sep: string)
    requires sep != []
    ensures StartsWith(s, Split(s, sep)[0])
    decreases |s|
  {
    if |s| >= |sep| && s[..|sep|] != sep {
      var rest := Split(s[1..], sep);
      SplitFirstIsPrefix(s[1..], sep);
      var first := [s[0]] + rest[0];
      assert Split(s, sep)[0] == first;
      assert s[..|first|] == [s[0]] + s[1..][..|rest[0]|];
    }
  }


  /** The first piece of a text without whitespace has none either. */
  lemma SplitFirstNoSpace(s: string, sep: string)
    requires sep != [] && NoSpace(s)
    ensures NoSpace(Split(s, sep)[0])
  {
    SplitFirstIsPrefix(s, sep);
    var p := Split(s, sep)[0];
    forall i | 0 <= i < |p|
      ensures !IsSpace(p[i])
    {
      assert p[i] == s[..|p|][i];
    }
  }

  /** Splitting on one character leaves that character in none of the pieces. */
  lemma {:induction false} SplitCharFree(s: string, c: char)
    ensures forall i :: 0 <= i < |Split(s, [c])| ==> c !in Split(s, [c])[i]
    decreases |s|
  {
    if |s| >= 1 {
      SplitCharFree(s[1..], c);
    }
  }

  /** A text free of the separator character is a single piece. */
  lemma {:induction false} SplitFree(a: string, c: char)
    requires c !in a
    ensures Split(a, [c]) == [a]
    decreases |a|
  {
    if |a| >= 1 {
      SplitFree(a[1..], c);
      assert [a[0]] + a[1..] == a;
    }
  }

  /** A separator-free text followed by the separator is split off as the first piece. */
  lemma {:induction false} SplitAfterPiece(a: string, c: char, t: string)
    requires c !in a
    ensures Split(a + [c] + t, [c]) == [a] + Split(t, [c])
    decreases |a|
  {
    var s := a + [c] + t;
    if a == [] {
      assert s[..1] == [c] && s[1..] == t;
    } else {
      assert s[0] == a[0] && s[..1] == [a[0]] && a[0] != c;
      assert s[1..] == a[1..] + [c] + t;
      SplitAfterPiece(a[1..], c, t);
      assert [a[0]] + a[1..] == a;
    }
  }

  /** Joining separator-free pieces and splitting again gives the pieces back. */
  lemma {:induction false} SplitJoin(parts: seq<string>, c: char)
    requires |parts| >= 1
    requires forall i :: 0 <= i < |parts| ==> c !in parts[i]
    ensures Split(Join(parts, [c]), [c]) == parts
  {
    if |parts| == 1 {
      SplitFree(parts[0], c);
    } else {
      SplitJoin(parts[1..], c);
      SplitAfterPiece(parts[0], c, Join(parts[1..], [c]));
      assert [parts[0]] + parts[1..] == parts;
    }
  }

  /** A text in which the separator's first character never occurs is a single piece. */
  lemma {:induction false} SplitMissing(s: string, sep: string)
    requires sep != [] && sep[0] !in s
    ensures Split(s, sep) == [s]
    decreases |s|
  {
    if |s| >= |sep| {
      assert s[..|sep|][0] == s[0];
      SplitMissing(s[1..], sep);
      assert [s[0]] + s[1..] == s;
    }
  }

  /** A character missing from a text is missing from every piece of its split. */
  lemma {:induction false} SplitPiecesFree(s: string, sep: string, c: char)
    requires sep != [] && c !in s
    ensures forall i :: 0 <= i < |Split(s, sep)| ==> c !in Split(s, sep)[i]
    decreases |s|
  {
    if |s| >= |sep| {
      if s[..|sep|] == sep {
        SplitPiecesFree(s[|sep|..], sep, c);
      } else {
        SplitPiecesFree(s[1..], sep, c);
      }
    }
  }

  /** A prefix free of the separator character stays at the head of the first piece. */
  lemma {:induction false} SplitFirstPrefix(a: string, c: char, t: string)
    requires c !in a
    ensures Split(a + t, [c])[0] == a + Split(t, [c])[0]
    decreases |a|
  {
    if a == [] {
      assert a + t == t;
    } else {
      var s := a + t;
      assert s[0] == a[0] && s[..1] == [a[0]] && s[1..] == a[1..] + t;
      SplitFirstPrefix(a[1..], c, t);
      assert [a[0]] + (a[1..] + Split(t, [c])[0]) == a + Split(t, [c])[0];
    }
  }

  /** A text that is empty or starts with the separator character has an empty first piece. */
  lemma SplitFirstEmpty(t: string, c: char)
    requires t == [] || t[0] == c
    ensures Split(t, [c])[0] == []
  {
    if t != [] {
      assert t[..1] == [c];
    }
  }

  /** `sep` occurs nowhere in `s`. */
  predicate Lacks(s: string, sep: string)
    decreases |s|
  {
    |s| < |sep| || (s[..|sep|] != sep && Lacks(s[1..], sep))
  }

  /** A text in which the separator occurs nowhere is a single piece. */
  lemma {:induction false} SplitLacking(s: string, sep: string)
    requires sep != [] && Lacks(s, sep)
    ensures Split(s, sep) == [s]
    decreases |s|
  {
    if |s| >= |sep| {
      SplitLacking(s[1..], sep);
      assert [s[0]] + s[1..] == s;
    }
  }

  /** Stripping removes characters and adds none. */
  lemma StripFree(s: string, c: char)
    requires c !in s
    ensures c !in LStrip(s) && c !in Strip(s)
  {
    var l := LStrip(s);
    assert forall i :: 0 <= i < |l| ==> l[i] == s[LeadingSpace(s) + i];
    var r := RStrip(l);
    assert forall i :: 0 <= i < |r| ==> r[i] == l[i];
  }

  /** The longest prefix of `s` that holds no whitespace. */
  function TakeToken(s: string): (t: string)
    ensures |t| <= |s| && NoSpace(t)
    ensures |t| == |s| || IsSpace(s[|t|])
  {
    if s == [] || IsSpace(s[0]) then [] else [s[0]] + TakeToken(s[1..])
  }

  /** `s.split()[0]`, or `None` where Python raises `IndexError` because `s` is all whitespace. */
  function FirstToken(s: string): (r: Option<string>)
    ensures r.None? <==> AllSpace(s)
    ensures r.Some? ==> r.value != [] && NoSpace(r.value)
  {
    var t := LStrip(s);
    if t == [] then None else Some(TakeToken(t))
  }

  /** The token is where the text starts. */
  lemma {:induction false} TakeTokenPrefix(s: string)
    ensures s == TakeToken(s) + s[|TakeToken(s)|..]
  {
    if s != [] && !IsSpace(s[0]) {
      TakeTokenPrefix(s[1..]);
      assert s == [s[0]] + s[1..];
    }
  }

  /** A token followed by nothing or by whitespace is the token `TakeToken` reads. */
  lemma {:induction false} TakeTokenOf(t: string, z: string)
    requires NoSpace(t)
    requires z == [] || IsSpace(z[0])
    ensures TakeToken(t + z) == t
    decreases |t|
  {
    if t == [] {
      assert t + z == z;
    } else {
      assert (t + z)[1..] == t[1..] + z;
      TakeTokenOf(t[1..], z);
      assert [t[0]] + t[1..] == t;
    }
  }

  /** Whitespace and more after a text leave its first token unchanged. */
  lemma FirstTokenAppend(t: string, z: string)
    requires t != [] && !IsSpace(t[0])
    requires z == [] || IsSpace(z[0])
    ensures FirstToken(t + z) == FirstToken(t)
  {
    assert (t + z)[0] == t[0];
    LStripUnique([], t + z);
    assert [] + (t + z) == t + z;
    LStripUnique([], t);
    assert [] + t == t;
    var u := TakeToken(t);
    var t2 := t[|u|..];
    TakeTokenPrefix(t);
    TakeTokenOf(u, t2);
    assert t + z == u + (t2 + z);
    assert t2 + z == [] || IsSpace((t2 + z)[0]) by {
      if t2 != [] {
        assert (t2 + z)[0] == t2[0];
      } else {
        assert t2 + z == z;
      }
    }
    TakeTokenOf(u, t2 + z);
  }

  predicate IsUpper(c: char) {
    'A' <= c <= 'Z'
  }

  /** `str.lower()` on one character, restricted to ASCII letters. */
  function LowerChar(c: char): (d: char)
    ensures !IsUpper(d)
    ensures !IsUpper(c) ==> d == c
  {
    if IsUpper(c) then (c as int + 32) as char else c
  }

  /** `s.lower()` (ASCII letters only): the same text with every capital replaced by its small letter. */
  function Lower(s: string): (r: string)
    ensures |r| == |s|
    ensures forall i :: 0 <= i < |s| ==> r[i] == LowerChar(s[i])
  {
    if s == [] then [] else [LowerChar(s[0])] + Lower(s[1..])
  }

  /** Lowercasing creates no character other than a small letter. */
  lemma LowerFree(s: string, c: char)
    requires c !in s && !('a' <= c <= 'z')
    ensures c !in Lower(s)
  {
    var r := Lower(s);
    forall i | 0 <= i < |r|
      ensures r[i] != c
    {
      assert r[i] == LowerChar(s[i]);
    }
  }

  /** A text without capitals is its own lowercase. */
  lemma LowerNoUpper(s: string)
    requires forall i :: 0 <= i < |s| ==> !IsUpper(s[i])
    ensures Lower(s) == s
  {
  }

  predicate IsDigit(c: char) {
    '0' <= c <= '9'
  }

  predicate AllDigits(s: string) {
    forall i :: 0 <= i < |s| ==> IsDigit(s[i])
  }

  function DigitChar(d: nat): (c: char)
    requires d < 10
    ensures IsDigit(c)
  {
    ('0' as int + d) as char
  }

  /** `int(s)` for a string of ASCII decimal digits (an empty string reads as 0; callers reject it first). */
  function DecimalValue(s: string): nat
    requires AllDigits(s)
  {
    if s == [] then 0 else DecimalValue(s[..|s| - 1]) * 10 + (s[|s| - 1] as int - '0' as int)
  }

  /** `str(n)`: the decimal digits of `n`, without leading zeros. */
  function DecimalText(n: nat): (s: string)
    ensures s != [] && AllDigits(s)
    ensures s[0] == '0' ==> n == 0 && s == "0"
  {
    if n < 10 then [DigitChar(n)] else DecimalText(n / 10) + [DigitChar(n % 10)]
  }

  /** `int(str(n)) == n`. */
  lemma {:induction false} DecimalRoundTrip(n: nat)
    ensures DecimalValue(DecimalText(n)) == n
  {
    if n >= 10 {
      var s := DecimalText(n);
      assert s[..|s| - 1] == DecimalText(n / 10);
      DecimalRoundTrip(n / 10);
    }
  }

  /** Numbers below 1000 are written with at most three digits. */
  lemma DecimalTextShort(n: nat)
    requires n < 1000
    ensures |DecimalText(n)| <= 3
  {
    if n >= 10 {
      assert |DecimalText(n)| == |DecimalText(n / 10)| + 1;
      if n / 10 >= 10 {
        assert |DecimalText(n / 10)| == |DecimalText(n / 100)| + 1;
      }
    }
  }

  predicate IsHexDigit(c: char) {
    IsDigit(c) || 'a' <= c <= 'f' || 'A' <= c <= 'F'
  }

  predicate AllHexDigits(s: string) {
    forall i :: 0 <= i < |s| ==> IsHexDigit(s[i])
  }

  function HexDigitValue(c: char): (v: nat)
    requires IsHexDigit(c)
    ensures v < 16
  {
    if IsDigit(c) then c as int - '0' as int
    else if 'a' <= c <= 'f' then c as int - 'a' as int + 10
    else c as int - 'A' as int + 10
  }

  function HexDigitChar(d: nat): (c: char)
    requires d < 16
    ensures IsHexDigit(c) && HexDigitValue(c) == d
  {
    if d < 10 then ('0' as int + d) as char else ('a' as int + d - 10) as char
  }

  /** `int(s, 16)` for a string of hexadecimal digits. */
  function HexValue(s: string): nat
    requires AllHexDigits(s)
  {
    if s == [] then 0 else HexValue(s[..|s| - 1]) * 16 + HexDigitValue(s[|s| - 1])
  }

  /** `'%x' % n`: lower-case hexadecimal digits without leading zeros. */
  function HexText(n: nat): (s: string)
    ensures s != [] && AllHexDigits(s)
  {
    if n < 16 then [HexDigitChar(n)] else HexText(n / 16) + [HexDigitChar(n % 16)]
  }

  /** `int('%x' % n, 16) == n`. */
  lemma {:induction false} HexRoundTrip(n: nat)
    ensures HexValue(HexText(n)) == n
  {
    if n >= 16 {
      var s := HexText(n);
      assert s[..|s| - 1] == HexText(n / 16);
      HexRoundTrip(n / 16);
    }
  }

  /** Numbers below 65536 are written with at most four hexadecimal digits. */
  lemma HexTextShort(n: nat)
    requires n < 0x1_0000
    ensures |HexText(n)| <= 4
  {
    if n >= 16 {
      assert |HexText(n)| == |HexText(n / 16)| + 1;
      if n / 16 >= 16 {
        assert |HexText(n / 16)| == |HexText(n / 256)| + 1;
        if n / 256 >= 16 {
          assert n / 256 / 16 == n / 4096;
          assert |HexText(n / 256)| == |HexText(n / 4096)| + 1;
        }
      }
    }
  }
}
