/**
 * One line of a domain list and one file of them: the line classification of
 * `load_domains_from_file` and `process_file` in scripts/build_dat.py.
 */
module RuleFile {
  import opened Wrappers
  import opened Text
  import opened FileTree

  /** The four kinds of domain rule, decided once when the line is read. */
  datatype Tag = Full | Domain | Regexp | Keyword

  /** A rule entry: its kind and the text it matches. */
  datatype Rule = Rule(tag: Tag, value: string)

  /** What one line contributes: nothing, an include directive, one rule, or an `IndexError`. */
  datatype LineKind = Skip | Include(name: string) | Emit(rule: Rule) | Fail

  const IncludePrefix: string := "include:"

  /** The directive each kind of rule is written with. */
  function Prefix(tag: Tag): string {
    match tag
    case Full => "full:"
    case Domain => "domain:"
    case Regexp => "regexp:"
    case Keyword => "keyword:"
  }

  /** Blank after stripping, or a full-line comment. */
  predicate IsBlankOrComment(raw: string) {
    var line := Strip(raw);
    line == [] || line[0] == '#'
  }

  /** A line that is none of the directives and no comment: a bare domain literal. */
  predicate IsBare(raw: string) {
    IsBareText(Strip(raw))
  }

  /** A stripped line that is none of the directives and no comment. */
  predicate IsBareText(line: string) {
    && line != [] && line[0] != '#'
    && !StartsWith(line, IncludePrefix) && DirectiveOf(line).None?
  }

  /** The directive a line begins with, tried in the order `full:`, `domain:`, `regexp:`, `keyword:`. */
  function DirectiveOf(line: string): (t: Option<Tag>)
    ensures t.Some? ==> StartsWith(line, Prefix(t.value))
  {
    if StartsWith(line, Prefix(Full)) then Some(Full)
    else if StartsWith(line, Prefix(Domain)) then Some(Domain)
    else if StartsWith(line, Prefix(Regexp)) then Some(Regexp)
    else if StartsWith(line, Prefix(Keyword)) then Some(Keyword)
    else None
  }

  /** The first character of a line decides which directive, if any, it begins with. */
  lemma DirectiveOfPrefix(line: string, tag: Tag)
    requires StartsWith(line, Prefix(tag))
    ensures DirectiveOf(line) == Some(tag)
    ensures line[0] != '#' && !StartsWith(line, IncludePrefix)
  {
    assert line[0] == Prefix(tag)[0];
    assert !StartsWith(line, IncludePrefix) by {
      assert IncludePrefix[0] != line[0];
    }
    match tag
    case Full =>
    case Domain =>
      assert !StartsWith(line, Prefix(Full));
    case Regexp =>
      assert !StartsWith(line, Prefix(Full)) && !StartsWith(line, Prefix(Domain));
    case Keyword =>
      assert !StartsWith(line, Prefix(Full)) && !StartsWith(line, Prefix(Domain));
      assert !StartsWith(line, Prefix(Regexp));
  }

  /** A stripped text that ends in something other than whitespace is not blank. */
  lemma NotAllSpace(s: string)
    requires s != [] && !IsSpace(s[|s| - 1])
    ensures !AllSpace(Strip(s))
  {
    var l := LStrip(s);
    assert l != [] && l[|l| - 1] == s[|s| - 1];
    StripNoop(l);
  }

  /** `line[k:].strip().split()[0]` for a directive of kind `tag`. */
  function Tagged(tag: Tag, rest: string): (k: LineKind)
    ensures k.Fail? <==> AllSpace(Strip(rest))
    ensures k.Emit? ==> k.rule.tag == tag && k.rule.value != [] && NoSpace(k.rule.value)
  {
    match FirstToken(Strip(rest))
    case None => Fail
    case Some(v) => Emit(Rule(tag, v))
  }

  /** `line.split()[0].split('#')[0].strip()`, kept only when non-empty and holding a dot. */
  function Bare(line: string): (k: LineKind)
    requires line != [] && !IsSpace(line[0])
    ensures k.Emit? ==> k.rule.tag == Domain && Occurs('.', k.rule.value) && '#' !in k.rule.value
    ensures k.Emit? ==> k.rule.value != [] && NoSpace(k.rule.value)
    ensures k.Skip? || k.Emit?
  {
    assert !AllSpace(line);
    var token := FirstToken(line).value;
    SplitCharFree(token, '#');
    var piece := Split(token, "#")[0];
    SplitFirstNoSpace(token, "#");
    StripNoSpace(piece, '#');
    var d := Strip(piece);
    if d != [] && Occurs('.', d) then Emit(Rule(Domain, d)) else Skip
  }

  /**
   * The classification both readers of scripts/build_dat.py apply to a line:
   * blank and comment lines contribute nothing and every rule value is a
   * non-empty whitespace-free token.
   */
  function ParseLine(raw: string): (k: LineKind)
    ensures IsBlankOrComment(raw) ==> k == Skip
    ensures k.Emit? ==> k.rule.value != [] && NoSpace(k.rule.value)
    ensures k.Include? ==> StartsWith(Strip(raw), IncludePrefix)
  {
    Classify(Strip(raw))
  }

  /** The classification of a line that is already stripped. */
  function Classify(line: string): (k: LineKind)
    requires line == [] || !IsSpace(line[0])
    ensures line == [] || line[0] == '#' ==> k == Skip
    ensures k.Emit? ==> k.rule.value != [] && NoSpace(k.rule.value)
    ensures k.Include? ==> StartsWith(line, IncludePrefix)
  {
    if line == [] || line[0] == '#' then Skip
    else if StartsWith(line, IncludePrefix) then Include(Strip(line[|IncludePrefix|..]))
    else match DirectiveOf(line)
      case Some(tag) => Tagged(tag, line[|Prefix(tag)|..])
      case None => Bare(line)
  }

  /** A directive whose value part is empty fails, one with anything after it does not. */
  lemma DirectiveTail(line: string, tag: Tag)
    requires StartsWith(line, Prefix(tag))
    requires !IsSpace(line[|line| - 1])
    ensures Tagged(tag, line[|Prefix(tag)|..]).Fail? <==> line == Prefix(tag)
  {
    var rest := line[|Prefix(tag)|..];
    if rest != [] {
      assert rest[|rest| - 1] == line[|line| - 1];
      NotAllSpace(rest);
    } else {
      assert line == Prefix(tag);
    }
  }

  /** A line holding only a directive, with no value after it. */
  predicate IsEmptyDirective(line: string) {
    line == Prefix(Full) || line == Prefix(Domain) || line == Prefix(Regexp) || line == Prefix(Keyword)
  }

  /** A line that begins with one directive is not another directive on its own. */
  lemma OnlyThisDirective(line: string, tag: Tag)
    requires StartsWith(line, Prefix(tag))
    ensures IsEmptyDirective(line) <==> line == Prefix(tag)
    ensures line[0] != '#' && !StartsWith(line, IncludePrefix)
  {
    assert line[0] == Prefix(tag)[0];
    forall t: Tag | t != tag
      ensures line != Prefix(t)
    {
      assert Prefix(t)[0] != line[0];
    }
  }

  /** A line that begins with none of the directives is none of them. */
  lemma NoDirectiveNotEmpty(line: string)
    requires !StartsWith(line, Prefix(Full)) && !StartsWith(line, Prefix(Domain))
    requires !StartsWith(line, Prefix(Regexp)) && !StartsWith(line, Prefix(Keyword))
    ensures !IsEmptyDirective(line)
  {
    assert line[..|line|] == line;
  }

  /**
   * A line raises `IndexError` (and so ends the reading of its file) exactly
   * when, stripped, it is one of the four directives with nothing after it.
   */
  lemma FailIffEmptyDirective(raw: string)
    ensures ParseLine(raw).Fail? <==> IsEmptyDirective(Strip(raw))
  {
    ClassifyFail(Strip(raw));
  }

  lemma ClassifyFail(line: string)
    requires line == [] || (!IsSpace(line[0]) && !IsSpace(line[|line| - 1]))
    ensures Classify(line).Fail? <==> IsEmptyDirective(line)
  {
    if line == [] || line[0] == '#' {
      assert !IsEmptyDirective(line);
    } else if StartsWith(line, IncludePrefix) {
      assert line[0] == 'i';
      assert !IsEmptyDirective(line);
    } else {
      match DirectiveOf(line)
      case Some(tag) =>
        DirectiveTail(line, tag);
        OnlyThisDirective(line, tag);
      case None =>
        NoDirectiveNotEmpty(line);
    }
  }

  /** A stripped line that begins with a directive is read by that directive. */
  lemma ClassifyDirective(line: string, tag: Tag)
    requires StartsWith(line, Prefix(tag))
    ensures Classify(line) == Tagged(tag, line[|Prefix(tag)|..])
  {
    DirectiveOfPrefix(line, tag);
  }

  /** A token followed by nothing or by whitespace (and ending without whitespace) is the value a directive reads. */
  lemma TaggedToken(tag: Tag, v: string, z: string)
    requires v != [] && NoSpace(v)
    requires z == [] || (IsSpace(z[0]) && !IsSpace(z[|z| - 1]))
    ensures Tagged(tag, v + z) == Emit(Rule(tag, v))
  {
    var t := v + z;
    assert t[0] == v[0];
    assert !IsSpace(t[|t| - 1]) by {
      if z == [] {
        assert t[|t| - 1] == v[|v| - 1];
      } else {
        assert t[|t| - 1] == z[|z| - 1];
      }
    }
    StripNoop(t);
    LStripUnique([], t);
    assert [] + t == t;
    TakeTokenOf(v, z);
  }

  /** Leading whitespace before a text with no whitespace at either end: stripping leaves that text. */
  lemma StripLeading(lead: string, t: string)
    requires AllSpace(lead) && t != [] && !IsSpace(t[0]) && !IsSpace(t[|t| - 1])
    ensures Strip(lead + t) == t
  {
    LStripUnique(lead, t);
    RStripUnique(t, []);
    assert t + [] == t;
  }

  /** Stripping a directive line leaves the directive, its value and whatever trails it after whitespace. */
  lemma StrippedPrefixed(lead: string, P: string, v: string, rest: string) returns (z: string)
    requires AllSpace(lead) && NoSpace(P)
    requires v != [] && NoSpace(v)
    requires rest == [] || IsSpace(rest[0])
    ensures Strip(lead + P + v + rest) == P + v + z
    ensures z == [] || (IsSpace(z[0]) && !IsSpace(z[|z| - 1]))
  {
    var pv := P + v;
    NoSpaceEnds(P, v);
    assert lead + P + v == lead + pv;
    StripLeading(lead, pv);
    z := StripAppend(lead + pv, rest);
    if z != [] {
      LastOfAppend(pv, z);
    }
  }

  /** A text without whitespace followed by a non-empty one: neither end is whitespace. */
  lemma NoSpaceEnds(P: string, v: string)
    requires NoSpace(P) && v != [] && NoSpace(v)
    ensures !IsSpace((P + v)[0]) && !IsSpace((P + v)[|P + v| - 1])
  {
    if P == [] {
      assert (P + v)[0] == v[0];
    } else {
      assert (P + v)[0] == P[0];
    }
    assert (P + v)[|P + v| - 1] == v[|v| - 1];
  }

  /** The last element of `a + z`, for a non-empty `z`, is the last of `z`. */
  lemma LastOfAppend(a: string, z: string)
    requires z != []
    ensures (a + z)[|a + z| - 1] == z[|z| - 1]
  {
  }

  /** A directive, a value and a tail put together split back into those parts. */
  lemma DirectiveParts(tag: Tag, v: string, z: string)
    ensures StartsWith(Prefix(tag) + v + z, Prefix(tag))
    ensures (Prefix(tag) + v + z)[|Prefix(tag)|..] == v + z
  {
    var P := Prefix(tag);
    assert (P + v + z)[..|P|] == P;
    assert (P + v + z)[|P|..] == v + z;
  }

  /** A stripped directive line yields one rule of its kind, valued by its first token. */
  lemma ClassifyPrefixed(tag: Tag, v: string, z: string)
    requires v != [] && NoSpace(v)
    requires z == [] || (IsSpace(z[0]) && !IsSpace(z[|z| - 1]))
    ensures Classify(Prefix(tag) + v + z) == Emit(Rule(tag, v))
  {
    DirectiveParts(tag, v, z);
    ClassifyDirective(Prefix(tag) + v + z, tag);
    TaggedToken(tag, v, z);
  }

  /**
   * `full:`, `domain:`, `regexp:` and `keyword:` lines: whatever whitespace
   * surrounds them and whatever follows the value after whitespace, the line
   * yields exactly one rule of its kind whose value is the first token.
   */
  lemma PrefixedLine(tag: Tag, lead: string, v: string, rest: string)
    requires AllSpace(lead)
    requires v != [] && NoSpace(v)
    requires rest == [] || IsSpace(rest[0])
    ensures ParseLine(lead + Prefix(tag) + v + rest) == Emit(Rule(tag, v))
  {
    assert NoSpace(Prefix(tag));
    var z := StrippedPrefixed(lead, Prefix(tag), v, rest);
    ClassifyPrefixed(tag, v, z);
  }

  /** A text beginning with whitespace cannot complete a directive the line does not already start with. */
  lemma NoPrefixAcrossSpace(t: string, z: string, P: string)
    requires NoSpace(P)
    requires !StartsWith(t, P)
    requires z == [] || IsSpace(z[0])
    ensures !StartsWith(t + z, P)
  {
    if |P| <= |t| {
      assert (t + z)[..|P|] == t[..|P|];
    } else if |P| <= |t + z| {
      assert (t + z)[|t|] == z[0];
      assert !IsSpace(P[|t|]);
    }
  }

  /** A bare line's reading depends only on its first token. */
  lemma BareToken(t: string, z: string)
    requires t != [] && !IsSpace(t[0])
    requires z == [] || IsSpace(z[0])
    ensures Bare(t + z) == Bare(t)
  {
    assert (t + z)[0] == t[0];
    FirstTokenAppend(t, z);
  }

  /** A bare line followed by whitespace and more is still bare. */
  lemma BareAcrossSpace(t: string, z: string)
    requires IsBareText(t)
    requires z == [] || IsSpace(z[0])
    ensures IsBareText(t + z)
  {
    assert (t + z)[0] == t[0];
    assert NoSpace(IncludePrefix) && NoSpace(Prefix(Full)) && NoSpace(Prefix(Domain));
    assert NoSpace(Prefix(Regexp)) && NoSpace(Prefix(Keyword));
    NoPrefixAcrossSpace(t, z, IncludePrefix);
    NoPrefixAcrossSpace(t, z, Prefix(Full));
    NoPrefixAcrossSpace(t, z, Prefix(Domain));
    NoPrefixAcrossSpace(t, z, Prefix(Regexp));
    NoPrefixAcrossSpace(t, z, Prefix(Keyword));
  }

  /** Stripping a bare line followed by whitespace and more. */
  lemma StrippedBare(raw: string, s: string) returns (z: string)
    requires IsBare(raw)
    requires s == [] || IsSpace(s[0])
    ensures IsBare(raw + s)
    ensures Strip(raw + s) == Strip(raw) + z
    ensures z == [] || IsSpace(z[0])
  {
    z := StripAppend(raw, s);
    BareAcrossSpace(Strip(raw), z);
  }

  /** A stripped bare line is read as a bare domain. */
  lemma ClassifyBare(raw: string)
    requires IsBare(raw)
    ensures Classify(Strip(raw)) == Bare(Strip(raw))
  {
  }

  /**
   * A bare domain line keeps its classification whatever follows it after
   * whitespace: an `@attr` suffix, a comment or any other words change nothing.
   */
  lemma BareSuffix(raw: string, s: string)
    requires IsBare(raw)
    requires s == [] || IsSpace(s[0])
    ensures IsBare(raw + s)
    ensures ParseLine(raw + s) == ParseLine(raw)
  {
    var z := StrippedBare(raw, s);
    ClassifyBare(raw);
    ClassifyBare(raw + s);
    BareToken(Strip(raw), z);
  }

  /** Whitespace on both sides of a text with no whitespace at either end: stripping leaves that text. */
  lemma StripBetween(lead: string, t: string, trail: string)
    requires AllSpace(lead) && AllSpace(trail)
    requires t == [] || (!IsSpace(t[0]) && !IsSpace(t[|t| - 1]))
    ensures Strip(lead + t + trail) == t
  {
    if t == [] {
      assert lead + t + trail == (lead + trail) + [];
      LStripUnique(lead + trail, []);
      RStripUnique([], []);
    } else {
      assert (t + trail)[0] == t[0];
      assert lead + t + trail == lead + (t + trail);
      LStripUnique(lead, t + trail);
      RStripUnique(t, trail);
    }
  }

  /**
   * `include:` lines: whatever whitespace surrounds the directive and the
   * name, the line names exactly the text between them (`line[8:].strip()`).
   */
  lemma IncludeLine(lead: string, w: string, name: string, trail: string)
    requires AllSpace(lead) && AllSpace(w) && AllSpace(trail)
    requires name == [] || (!IsSpace(name[0]) && !IsSpace(name[|name| - 1]))
    ensures ParseLine(lead + IncludePrefix + w + name + trail) == Include(name)
  {
    StrippedInclude(lead, w, name, trail);
    ClassifyInclude(w, name);
  }

  /** The stripped text of an `include:` line. */
  lemma StrippedInclude(lead: string, w: string, name: string, trail: string)
    requires AllSpace(lead) && AllSpace(w) && AllSpace(trail)
    requires name == [] || (!IsSpace(name[0]) && !IsSpace(name[|name| - 1]))
    ensures Strip(lead + IncludePrefix + w + name + trail)
         == if name == [] then IncludePrefix else IncludePrefix + w + name
  {
    var raw := lead + IncludePrefix + w + name + trail;
    if name == [] {
      assert raw == lead + IncludePrefix + (w + trail);
      StripBetween(lead, IncludePrefix, w + trail);
    } else {
      var line := IncludePrefix + w + name;
      assert raw == lead + line + trail;
      assert line[0] == 'i';
      assert line[|line| - 1] == name[|name| - 1];
      StripBetween(lead, line, trail);
    }
  }

  /** A stripped `include:` line names the stripped text after the directive. */
  lemma ClassifyInclude(w: string, name: string)
    requires AllSpace(w)
    requires name == [] || (!IsSpace(name[0]) && !IsSpace(name[|name| - 1]))
    ensures Classify(if name == [] then IncludePrefix else IncludePrefix + w + name) == Include(name)
  {
    var line := if name == [] then IncludePrefix else IncludePrefix + w + name;
    assert line[0] == 'i';
    assert line[..|IncludePrefix|] == IncludePrefix;
    if name == [] {
      assert line[|IncludePrefix|..] == [] + [] + [];
      StripBetween([], [], []);
    } else {
      assert line[|IncludePrefix|..] == w + name + [];
      StripBetween(w, name, []);
    }
  }

  /** The part of a token before its first `#`. */
  lemma HashPiece(d: string, c: string)
    requires '#' !in d
    requires c == [] || c[0] == '#'
    ensures Split(d + c, "#")[0] == d
  {
    if c == [] {
      assert d + c == d;
      SplitFree(d, '#');
    } else {
      assert d + c == d + ['#'] + c[1..];
      SplitAfterPiece(d, '#', c[1..]);
    }
  }

  /** A `#` cannot complete a directive the text does not already start with. */
  lemma NoPrefixAcrossHash(d: string, c: string, P: string)
    requires '#' !in P && !StartsWith(d, P)
    requires c == [] || c[0] == '#'
    ensures !StartsWith(d + c, P)
  {
    if |P| <= |d| {
      assert (d + c)[..|P|] == d[..|P|];
    } else if |P| <= |d + c| {
      assert (d + c)[|d|] == c[0];
      assert P[|d|] in P;
    }
  }

  /** A bare text followed by a `#`-led, whitespace-free tail is still bare. */
  lemma BareAcrossHash(d: string, c: string)
    requires IsBareText(d)
    requires c == [] || c[0] == '#'
    ensures IsBareText(d + c)
  {
    assert (d + c)[0] == d[0];
    NoPrefixAcrossHash(d, c, IncludePrefix);
    NoPrefixAcrossHash(d, c, Prefix(Full));
    NoPrefixAcrossHash(d, c, Prefix(Domain));
    NoPrefixAcrossHash(d, c, Prefix(Regexp));
    NoPrefixAcrossHash(d, c, Prefix(Keyword));
  }

  /** A bare token whose part before the first `#` is `d`: the reading keeps `d` exactly when it holds a dot. */
  lemma BareOf(d: string, c: string)
    requires d != [] && NoSpace(d) && '#' !in d
    requires c == [] || (c[0] == '#' && NoSpace(c))
    ensures Bare(d + c) == if Occurs('.', d) then Emit(Rule(Domain, d)) else Skip
  {
    var t := d + c;
    assert t[0] == d[0];
    assert NoSpace(t);
    LStripUnique([], t);
    assert [] + t == t;
    TakeTokenOf(t, []);
    assert t + [] == t;
    HashPiece(d, c);
    StripNoop(d);
  }

  /**
   * Bare domain lines: whatever whitespace surrounds the first token, whatever
   * follows a `#` inside it and whatever follows it after whitespace, the line
   * yields `d`, the token's part before `#`, as a `domain` rule when `d`
   * holds a dot, and nothing when it does not.
   */
  lemma BareLine(lead: string, d: string, c: string, rest: string)
    requires AllSpace(lead)
    requires d != [] && NoSpace(d) && '#' !in d && IsBareText(d)
    requires c == [] || (c[0] == '#' && NoSpace(c))
    requires rest == [] || IsSpace(rest[0])
    ensures ParseLine(lead + d + c + rest) == if Occurs('.', d) then Emit(Rule(Domain, d)) else Skip
  {
    var z := StrippedBareLine(lead, d, c, rest);
    ClassifyBareToken(d, c, z);
  }

  /** Stripping a bare line leaves its first token and whatever trails it after whitespace. */
  lemma StrippedBareLine(lead: string, d: string, c: string, rest: string) returns (z: string)
    requires AllSpace(lead)
    requires d != [] && NoSpace(d) && NoSpace(c)
    requires rest == [] || IsSpace(rest[0])
    ensures Strip(lead + d + c + rest) == d + c + z
    ensures z == [] || IsSpace(z[0])
  {
    var t := d + c;
    assert t[0] == d[0];
    if c == [] {
      assert t[|t| - 1] == d[|d| - 1];
    } else {
      LastOfAppend(d, c);
    }
    assert lead + d + c == lead + t;
    StripLeading(lead, t);
    z := StripAppend(lead + t, rest);
  }

  /** A stripped bare line is read from the part of its first token before `#`. */
  lemma ClassifyBareToken(d: string, c: string, z: string)
    requires d != [] && NoSpace(d) && '#' !in d && IsBareText(d)
    requires c == [] || (c[0] == '#' && NoSpace(c))
    requires z == [] || IsSpace(z[0])
    ensures Classify(d + c + z) == if Occurs('.', d) then Emit(Rule(Domain, d)) else Skip
  {
    var t := d + c;
    BareAcrossHash(d, c);
    BareAcrossSpace(t, z);
    assert t[0] == d[0];
    BareToken(t, z);
    BareOf(d, c);
  }

  /** The classification of each line of a file, in order. */
  function Kinds(lines: seq<string>): (ks: seq<LineKind>)
    ensures |ks| == |lines|
  {
    seq(|lines|, i requires 0 <= i < |lines| => ParseLine(lines[i]))
  }

  /** Each line's entry is that line's classification. */
  lemma KindsAt(lines: seq<string>, i: nat)
    requires i < |lines|
    ensures Kinds(lines)[i] == ParseLine(lines[i])
  {
  }

  /** Classifying a prefix of the lines gives a prefix of the classifications. */
  lemma KindsPrefix(lines: seq<string>, k: nat)
    requires k <= |lines|
    ensures Kinds(lines[..k]) == Kinds(lines)[..k]
  {
  }

  /** Reading a file's lines in order: the rules so far, and whether an error ended the reading. */
  datatype Scan = Scan(rules: seq<Rule>, halted: bool)

  /** The loop of `load_domains_from_file` over the classified lines read so far. */
  function ScanKinds(ks: seq<LineKind>): Scan
  {
    if ks == [] then Scan([], false)
    else
      var s := ScanKinds(ks[..|ks| - 1]);
      if s.halted then s
      else match ks[|ks| - 1]
        case Emit(r) => Scan(s.rules + [r], false)
        case Fail => Scan(s.rules, true)
        case _ => s
  }

  /** The reading of a file's lines. */
  function OwnScan(lines: seq<string>): Scan {
    ScanKinds(Kinds(lines))
  }

  /** The rules `load_domains_from_file` returns for a path: a missing path or a directory gives none. */
  function OwnRules(fs: Tree, p: Path): seq<Rule> {
    if IsFile(fs, p) then OwnScan(fs[p].lines).rules else []
  }

  /** The index of the first line that raises, or the number of lines. */
  function FirstFailure(ks: seq<LineKind>): (n: nat)
    ensures n <= |ks|
    ensures n < |ks| ==> ks[n].Fail?
  {
    if ks == [] then 0
    else if ks[0].Fail? then 0
    else 1 + FirstFailure(ks[1..])
  }

  /** No line before the first failure raises. */
  lemma {:induction false} BeforeFirstFailure(ks: seq<LineKind>, i: nat)
    requires i < FirstFailure(ks)
    ensures !ks[i].Fail?
  {
    if i > 0 {
      assert ks[1..][i - 1] == ks[i];
      BeforeFirstFailure(ks[1..], i - 1);
    }
  }

  /** The rules of all rule lines, include and blank lines giving none. */
  function EmittedRules(ks: seq<LineKind>): seq<Rule> {
    if ks == [] then []
    else (if ks[0].Emit? then [ks[0].rule] else []) + EmittedRules(ks[1..])
  }

  lemma {:induction false} EmittedRulesSnoc(a: seq<LineKind>, k: LineKind)
    ensures EmittedRules(a + [k]) == EmittedRules(a) + (if k.Emit? then [k.rule] else [])
  {
    if a != [] {
      assert (a + [k])[1..] == a[1..] + [k];
      EmittedRulesSnoc(a[1..], k);
    } else {
      assert [k][1..] == [];
    }
  }

  lemma {:induction false} FirstFailureSnoc(a: seq<LineKind>, k: LineKind)
    ensures FirstFailure(a + [k]) ==
      if FirstFailure(a) < |a| then FirstFailure(a)
      else if k.Fail? then |a| else |a| + 1
  {
    if a != [] {
      assert (a + [k])[0] == a[0];
      assert (a + [k])[1..] == a[1..] + [k];
      FirstFailureSnoc(a[1..], k);
    } else {
      assert [k][1..] == [];
    }
  }

  /**
   * What `load_domains_from_file` returns, described without its loop: the
   * rules of the rule lines before the first line that raises; the reading
   * stops exactly when such a line exists.
   */
  lemma {:induction false} ScanUpToFirstFailure(ks: seq<LineKind>)
    ensures ScanKinds(ks).rules == EmittedRules(ks[..FirstFailure(ks)])
    ensures ScanKinds(ks).halted <==> FirstFailure(ks) < |ks|
  {
    if ks != [] {
      var pre := ks[..|ks| - 1];
      var k := ks[|ks| - 1];
      assert ks == pre + [k];
      ScanUpToFirstFailure(pre);
      FirstFailureSnoc(pre, k);
      var n := FirstFailure(pre);
      if n < |pre| {
        assert ks[..n] == pre[..n];
      } else {
        assert pre[..n] == pre;
        if !k.Fail? {
          assert ks[..|ks|] == pre + [k];
          EmittedRulesSnoc(pre, k);
        } else {
          assert ks[..|pre|] == pre;
        }
      }
    }
  }

  /** Once a line has raised, the lines after it change nothing. */
  lemma {:induction false} HaltedScanStays(ks: seq<LineKind>, n: nat)
    requires n <= |ks|
    requires ScanKinds(ks[..n]).halted
    ensures ScanKinds(ks) == ScanKinds(ks[..n])
    decreases |ks| - n
  {
    if n < |ks| {
      assert ks[..n + 1][..n] == ks[..n];
      HaltedScanStays(ks, n + 1);
    } else {
      assert ks[..n] == ks;
    }
  }

  /** `load_domains_from_file` of scripts/build_dat.py: include lines are skipped, an `IndexError` ends the file. */
  method LoadRuleFile(fs: Tree, p: Path) returns (rules: seq<Rule>)
    ensures rules == OwnRules(fs, p)
  {
    rules := [];
    if p !in fs {
      return;
    }
    match fs[p] {
      case Dir =>
        // opening a directory raises, and the handler returns the empty list
        return;
      case File(lines) =>
        var i := 0;
        while i < |lines|
          invariant 0 <= i <= |lines|
          invariant ScanKinds(Kinds(lines)[..i]) == Scan(rules, false)
        {
          KindsAt(lines, i);
          assert Kinds(lines)[..i + 1][..i] == Kinds(lines)[..i];
          match ParseLine(lines[i]) {
            case Fail =>
              HaltedScanStays(Kinds(lines), i + 1);
              return;
            case Emit(r) =>
              rules := rules + [r];
            case _ =>
          }
          i := i + 1;
        }
        assert Kinds(lines)[..i] == Kinds(lines);
    }
  }
}
