/**
 * The line handling of the liveness checker (check-domains.py): the host a
 * line names, the reading of a domain file under UTF-8 or cp1251, the
 * first-file-wins map of the domain folder, and the commenting out of the
 * first live line that names a dead host. The probes themselves (ping, TCP
 * connect, the thread pool) are not part of this model; IDNA encoding is the
 * parameter `idna`, which fails with `None`.
 */
module Liveness {
  import opened Wrappers
  import opened Text
  import opened FileTree

  /** The file names the checker never reads. */
  const ExcludeFiles: set<string> := {"category-ru", "private", "gov"}

  /**
   * What a path of the domain folder names: a file, given as the lines each
   * codec decodes its bytes to (`None` when that decoding fails), or a folder.
   */
  datatype Item = TextFile(utf8: Option<seq<string>>, cp1251: Option<seq<string>>) | Folder

  type Files = map<Path, Item>

  /** `line.split('#')[0].strip()`: the live part of a line. */
  function Content(line: string): string {
    Strip(Split(line, "#")[0])
  }

  /** The text after the last "://" (all of it when there is none). */
  function AfterScheme(content: string): string {
    var pieces := Split(content, "://");
    pieces[|pieces| - 1]
  }

  /** The text before the first '/', then before the first ':'. */
  function HostPart(s: string): string {
    Split(Split(s, "/")[0], ":")[0]
  }

  /** `temp_domain`: after the last "://", before the first '/', before the first ':', stripped and lowercased. */
  function HostText(content: string): (r: string)
    ensures '/' !in r && ':' !in r
    ensures '#' !in content ==> '#' !in r
  {
    var t := Lower(Strip(HostPart(AfterScheme(content))));
    assert '/' !in t && ':' !in t && ('#' !in content ==> '#' !in t) by {
      var a := AfterScheme(content);
      var b := HostPart(a);
      var c := Strip(b);
      HostPartFree(a);
      if '#' !in content {
        AfterSchemeFree(content, '#');
        HostPartFree(a);
        StripFree(b, '#');
        LowerFree(c, '#');
      }
      StripFree(b, '/');
      StripFree(b, ':');
      LowerFree(c, '/');
      LowerFree(c, ':');
    }
    t
  }

  lemma AfterSchemeFree(content: string, c: char)
    requires c !in content
    ensures c !in AfterScheme(content)
  {
    SplitPiecesFree(content, "://", c);
  }

  /** The host part holds no '/' or ':', and no '#' unless the text did. */
  lemma HostPartFree(s: string)
    ensures '/' !in HostPart(s) && ':' !in HostPart(s)
    ensures '#' !in s ==> '#' !in HostPart(s)
  {
    var a := Split(s, "/")[0];
    assert '/' !in a by {
      SplitCharFree(s, '/');
    }
    SplitCharFree(a, ':');
    SplitPiecesFree(a, ":", '/');
    if '#' !in s {
      SplitPiecesFree(s, "/", '#');
      SplitPiecesFree(a, ":", '#');
    }
  }

  lemma ContentFree(line: string)
    ensures '#' !in Content(line)
  {
    var p := Split(line, "#")[0];
    SplitCharFree(line, '#');
    StripFree(p, '#');
  }

  /** The host a line names before IDNA encoding: only a non-empty one holding a dot. */
  function Candidate(line: string): (r: Option<string>)
    ensures r.Some? ==> r.value != [] && Occurs('.', r.value)
  {
    var content := Content(line);
    if content == [] then None
    else
      var host := HostText(content);
      if host != [] && Occurs('.', host) then Some(host) else None
  }

  /** The domain a line adds to the ones to check: its host, IDNA-encoded; `None` when encoding fails. */
  function Host(line: string, idna: string -> Option<string>): (r: Option<string>)
    ensures Candidate(line).None? ==> r.None?
    ensures Candidate(line).Some? ==> r == idna(Candidate(line).value)
    ensures StartsWith(LStrip(line), "#") ==> r.None?
  {
    assert StartsWith(LStrip(line), "#") ==> Candidate(line).None? by {
      if StartsWith(LStrip(line), "#") {
        CommentedNoHost(line);
      }
    }
    match Candidate(line)
    case None => None
    case Some(t) => idna(t)
  }

  /** A host never holds '#', '/' or ':'. */
  lemma CandidateFree(line: string)
    requires Candidate(line).Some?
    ensures '#' !in Candidate(line).value && '/' !in Candidate(line).value && ':' !in Candidate(line).value
  {
    ContentFree(line);
  }

  /** A line whose text starts with '#' after its leading whitespace has no live part and names no host. */
  lemma CommentedNoHost(line: string)
    requires StartsWith(LStrip(line), "#")
    ensures Content(line) == [] && Candidate(line) == None
  {
    var n := LeadingSpace(line);
    var w, rest := line[..n], line[n + 1..];
    assert line == w + ['#'] + rest;
    assert '#' !in w by {
      assert AllSpace(w);
      assert !IsSpace('#');
    }
    SplitAfterPiece(w, '#', rest);
    LStripUnique(w, []);
    assert w + [] == w;
  }

  /** A line of whitespace only names no host. */
  lemma BlankNoHost(line: string)
    requires AllSpace(line)
    ensures Content(line) == [] && Candidate(line) == None
  {
    assert '#' !in line by {
      assert !IsSpace('#');
    }
    SplitFree(line, '#');
    LStripUnique(line, []);
    assert line + [] == line;
  }

  /** The host function of the checker, for the IDNA encoder `idna`. */
  function HostOf(idna: string -> Option<string>): string -> Option<string> {
    line => Host(line, idna)
  }

  /** A bare lowercase host name with a dot and none of '#', '/', ':' or whitespace. */
  predicate PlainHost(d: string) {
    d != [] && '.' in d && '#' !in d && '/' !in d && ':' !in d
    && NoSpace(d) && forall i :: 0 <= i < |d| ==> !IsUpper(d[i])
  }

  /**
   * A line holding a plain host, then whitespace (the line end), then
   * optionally a comment, names exactly that host.
   */
  lemma PlainLine(d: string, w: string, comment: string)
    requires PlainHost(d) && AllSpace(w)
    requires comment == [] || comment[0] == '#'
    ensures Candidate(d + w + comment) == Some(d)
  {
    PlainContent(d, w, comment);
    PlainHostText(d);
    OccursIn('.', d);
  }

  lemma PlainContent(d: string, w: string, comment: string)
    requires PlainHost(d) && AllSpace(w)
    requires comment == [] || comment[0] == '#'
    ensures Content(d + w + comment) == d
  {
    LiveContent(d, w, comment);
  }

  /** A `#`-free text without whitespace, then whitespace, then optionally a comment: the live part is that text. */
  lemma LiveContent(d: string, w: string, comment: string)
    requires d != [] && NoSpace(d) && '#' !in d && AllSpace(w)
    requires comment == [] || comment[0] == '#'
    ensures Content(d + w + comment) == d
  {
    var line := d + w + comment;
    assert '#' !in d + w by {
      assert !IsSpace('#');
    }
    assert Split(line, "#")[0] == d + w by {
      if comment == [] {
        assert line == d + w;
        SplitFree(d + w, '#');
      } else {
        assert line == (d + w) + ['#'] + comment[1..];
        SplitAfterPiece(d + w, '#', comment[1..]);
      }
    }
    assert LStrip(d + w) == d + w by {
      LStripUnique([], d + w);
      assert [] + (d + w) == d + w;
    }
    RStripUnique(d, w);
  }

  lemma PlainHostText(d: string)
    requires PlainHost(d)
    ensures HostText(d) == d
  {
    assert AfterScheme(d) == d by {
      SplitMissing(d, "://");
    }
    assert HostPart(d) == d by {
      SplitFree(d, '/');
      SplitFree(d, ':');
    }
    StripNoop(d);
    LowerNoUpper(d);
  }

  /**
   * A line holding a URL: a scheme, "://", a plain host, then a path or a
   * port, then optionally whitespace and a comment, names exactly that host.
   */
  lemma SchemeLine(s: string, h: string, tail: string, w: string, comment: string)
    requires ':' !in s && '#' !in s && NoSpace(s)
    requires PlainHost(h)
    requires tail == [] || tail[0] == '/' || tail[0] == ':'
    requires '#' !in tail && NoSpace(tail) && Lacks(tail, "://")
    requires AllSpace(w)
    requires comment == [] || comment[0] == '#'
    ensures Candidate(s + "://" + h + tail + w + comment) == Some(h)
  {
    var x := SchemeText(s, h, tail);
    assert x + w + comment == s + "://" + h + tail + w + comment;
    LiveContent(x, w, comment);
    SchemeHostText(s, h, tail);
    OccursIn('.', h);
  }

  /** The URL text of `SchemeLine` is a `#`-free text without whitespace. */
  lemma SchemeText(s: string, h: string, tail: string) returns (x: string)
    requires '#' !in s && NoSpace(s) && PlainHost(h) && '#' !in tail && NoSpace(tail)
    ensures x == s + "://" + h + tail
    ensures x != [] && NoSpace(x) && '#' !in x
  {
    x := s + "://" + h + tail;
    assert !IsSpace(':') && !IsSpace('/');
    forall i | 0 <= i < |x|
      ensures !IsSpace(x[i]) && x[i] != '#'
    {
      if i < |s| {
        assert x[i] == s[i];
      } else if i < |s| + 3 {
        assert x[i] == "://"[i - |s|];
      } else if i < |s| + 3 + |h| {
        assert x[i] == h[i - |s| - 3];
      } else {
        assert x[i] == tail[i - |s| - 3 - |h|];
      }
    }
  }

  /** A scheme free of ':' followed by "://" is split off as the first piece. */
  lemma {:induction false} SchemePiece(s: string, x: string)
    requires ':' !in s
    ensures Split(s + "://" + x, "://") == [s] + Split(x, "://")
    decreases |s|
  {
    var l := s + "://" + x;
    if s == [] {
      assert l[..3] == "://" && l[3..] == x;
    } else {
      assert l[0] == s[0];
      assert l[..3] != "://" by {
        assert l[..3][0] == s[0];
      }
      assert l[1..] == s[1..] + "://" + x;
      SchemePiece(s[1..], x);
      assert [s[0]] + s[1..] == s;
    }
  }

  /** A host without ':' followed by a tail without "://" holds no "://". */
  lemma {:induction false} LacksAfterHost(h: string, tail: string)
    requires ':' !in h && Lacks(tail, "://")
    ensures Lacks(h + tail, "://")
    decreases |h|
  {
    var x := h + tail;
    if h == [] {
      assert x == tail;
    } else if |x| >= 3 {
      assert x[..3][0] == h[0];
      assert x[1..] == h[1..] + tail;
      LacksAfterHost(h[1..], tail);
    }
  }

  /** The host part of a host followed by a path or a port is the host. */
  lemma HostPartOf(h: string, tail: string)
    requires '/' !in h && ':' !in h
    requires tail == [] || tail[0] == '/' || tail[0] == ':'
    ensures HostPart(h + tail) == h
  {
    SplitFirstPrefix(h, '/', tail);
    var q := Split(tail, "/")[0];
    assert q == [] || q[0] == ':' by {
      if tail != [] && tail[0] == ':' {
        assert tail[..1] != "/";
      } else {
        SplitFirstEmpty(tail, '/');
      }
    }
    SplitFirstPrefix(h, ':', q);
    SplitFirstEmpty(q, ':');
  }

  /** The host text of a URL is its host. */
  lemma SchemeHostText(s: string, h: string, tail: string)
    requires ':' !in s && PlainHost(h)
    requires tail == [] || tail[0] == '/' || tail[0] == ':'
    requires Lacks(tail, "://")
    ensures HostText(s + "://" + h + tail) == h
  {
    assert s + "://" + h + tail == s + "://" + (h + tail);
    SchemePiece(s, h + tail);
    LacksAfterHost(h, tail);
    SplitLacking(h + tail, "://");
    assert AfterScheme(s + "://" + h + tail) == h + tail;
    HostPartOf(h, tail);
    StripNoop(h);
    LowerNoUpper(h);
  }

  /** `domains_to_check` after the loop over `lines`. */
  function Hosts(lines: seq<string>, hostOf: string -> Option<string>): seq<string> {
    Present(Mapped(lines, hostOf))
  }

  lemma HostsNext(lines: seq<string>, hostOf: string -> Option<string>, i: nat)
    requires i < |lines|
    ensures Hosts(lines[..i + 1], hostOf)
         == Hosts(lines[..i], hostOf) + (if hostOf(lines[i]).Some? then [hostOf(lines[i]).value] else [])
  {
    var prefix := lines[..i + 1];
    assert prefix[..i] == lines[..i];
    MappedNext(lines, hostOf, i);
  }

  /** Every domain to check is the host of one of the lines: no line adds anything else. */
  lemma HostsFromLines(lines: seq<string>, hostOf: string -> Option<string>, d: string)
    requires d in Hosts(lines, hostOf)
    ensures exists i :: 0 <= i < |lines| && hostOf(lines[i]) == Some(d)
  {
    PresentFrom(Mapped(lines, hostOf), d);
    var i :| 0 <= i < |lines| && Mapped(lines, hostOf)[i] == Some(d);
    MappedAt(lines, hostOf, i);
  }

  /** The loop of `load_domains_from_file` over the lines one codec decoded. */
  method ScanLines(lines: seq<string>, hostOf: string -> Option<string>) returns (domains: seq<string>, original: seq<string>)
    ensures domains == Hosts(lines, hostOf)
    ensures original == lines
  {
    domains, original := [], [];
    for i := 0 to |lines|
      invariant domains == Hosts(lines[..i], hostOf)
      invariant original == lines[..i]
    {
      HostsNext(lines, hostOf, i);
      original := original + [lines[i]];
      var host := hostOf(lines[i]);
      if host.Some? {
        domains := domains + [host.value];
      }
    }
    assert lines[..|lines|] == lines;
  }

  /** The two lists `load_domains_from_file` returns. */
  datatype FileLines = FileLines(domains: seq<string>, original: seq<string>)

  /**
   * What `load_domains_from_file(p)` returns: the UTF-8 lines when they
   * decode, else the cp1251 lines, else (as for a path that is not a
   * readable file) two empty lists.
   */
  function ReadFile(fs: Files, p: Path, hostOf: string -> Option<string>): FileLines {
    if p !in fs || fs[p].Folder? then FileLines([], [])
    else if fs[p].utf8.Some? then FileLines(Hosts(fs[p].utf8.value, hostOf), fs[p].utf8.value)
    else if fs[p].cp1251.Some? then FileLines(Hosts(fs[p].cp1251.value, hostOf), fs[p].cp1251.value)
    else FileLines([], [])
  }

  /** `load_domains_from_file`. */
  method LoadDomainsFromFile(fs: Files, p: Path, hostOf: string -> Option<string>)
    returns (domains: seq<string>, original: seq<string>)
    ensures FileLines(domains, original) == ReadFile(fs, p, hostOf)
  {
    domains, original := [], [];
    if p !in fs || fs[p].Folder? {
      return;
    }
    if fs[p].utf8.Some? {
      domains, original := ScanLines(fs[p].utf8.value, hostOf);
    } else if fs[p].cp1251.Some? {
      domains, original := ScanLines(fs[p].cp1251.value, hostOf);
    }
  }

  /** Index of the last '.' in `s`, if any: `s.rfind('.')`. */
  function LastDot(s: string): (r: Option<nat>)
    ensures r.Some? ==> r.value < |s| && s[r.value] == '.' && forall j :: r.value < j < |s| ==> s[j] != '.'
    ensures r.None? ==> forall j :: 0 <= j < |s| ==> s[j] != '.'
  {
    if s == [] then None
    else if s[|s| - 1] == '.' then Some(|s| - 1)
    else LastDot(s[..|s| - 1])
  }

  /** `PurePath.suffix` of a name: from its last dot on, unless that dot is its first or last character. */
  function Suffix(name: string): string {
    match LastDot(name)
    case Some(i) => if 0 < i < |name| - 1 then name[i..] else ""
    case None => ""
  }

  /** A name has no suffix exactly when it ends in a dot or has no dot after its first character. */
  lemma SuffixEmpty(name: string)
    ensures Suffix(name) == ""
        <==> (name != [] && name[|name| - 1] == '.') || forall i :: 0 < i < |name| ==> name[i] != '.'
  {
    match LastDot(name)
    case None =>
    case Some(k) =>
      if 0 < k < |name| - 1 {
        assert name[k..][0] == '.';
      }
  }

  /** A file the checker reads: a file with no suffix whose name is not excluded. */
  predicate Checked(fs: Files, f: Path) {
    f in fs && fs[f].TextFile? && Suffix(Name(f)) == "" && Name(f) !in ExcludeFiles
  }

  /** `domain_files`: the listed paths that are checked files, in listing order. */
  function DomainFiles(fs: Files, listing: seq<Path>): (files: seq<Path>)
    ensures |files| <= |listing|
  {
    if listing == [] then []
    else
      var f := listing[|listing| - 1];
      DomainFiles(fs, listing[..|listing| - 1]) + (if Checked(fs, f) then [f] else [])
  }

  /** The checked files are exactly the listed paths that pass the filter. */
  lemma {:induction false} DomainFilesExact(fs: Files, listing: seq<Path>, f: Path)
    ensures f in DomainFiles(fs, listing) <==> f in listing && Checked(fs, f)
  {
    if listing != [] {
      var n := |listing| - 1;
      DomainFilesExact(fs, listing[..n], f);
      assert listing == listing[..n] + [listing[n]];
    }
  }

  /** The domains of each checked file, in file order. */
  function Batches(fs: Files, files: seq<Path>, hostOf: string -> Option<string>): (bs: seq<seq<string>>)
    ensures |bs| == |files|
  {
    seq(|files|, i requires 0 <= i < |files| => ReadFile(fs, files[i], hostOf).domains)
  }

  /** The inner loop of `load_domains` over the domains `ds` of file `f`: a domain not yet mapped maps to `f`. */
  function Assign(m: map<string, Path>, ds: seq<string>, f: Path): map<string, Path> {
    if ds == [] then m
    else
      var r := Assign(m, ds[..|ds| - 1], f);
      var d := ds[|ds| - 1];
      if d in r then r else r[d := f]
  }

  /** Assigning keeps every mapping already made and maps each new domain to `f`. */
  lemma {:induction false} AssignFacts(m: map<string, Path>, ds: seq<string>, f: Path)
    ensures Assign(m, ds, f).Keys == m.Keys + Elements(ds)
    ensures forall d :: d in m ==> Assign(m, ds, f)[d] == m[d]
    ensures forall d :: d in Assign(m, ds, f) && d !in m ==> Assign(m, ds, f)[d] == f
  {
    if ds != [] {
      var n := |ds| - 1;
      AssignFacts(m, ds[..n], f);
      assert ds == ds[..n] + [ds[n]];
    }
  }

  /** `domain_to_file_map` after the files `files` with domains `batches`. */
  function FileMap(files: seq<Path>, batches: seq<seq<string>>): map<string, Path>
    requires |files| == |batches|
  {
    if files == [] then map[]
    else
      var n := |files| - 1;
      Assign(FileMap(files[..n], batches[..n]), batches[n], files[n])
  }

  /** The domains of a batch, as a set. */
  function Elements(ds: seq<string>): (r: set<string>)
    ensures forall d :: d in r <==> d in ds
  {
    set i | 0 <= i < |ds| :: ds[i]
  }

  /** `unique_domains` after the batches. */
  function Unique(batches: seq<seq<string>>): set<string> {
    if batches == [] then {}
    else Unique(batches[..|batches| - 1]) + Elements(batches[|batches| - 1])
  }

  /** Batch `i` is the first to hold `d`. */
  predicate FirstBatch(batches: seq<seq<string>>, d: string, i: int) {
    0 <= i < |batches| && d in batches[i] && forall j :: 0 <= j < i ==> d !in batches[j]
  }

  /**
   * The map's domains are exactly the unique domains, and each maps to the
   * first file that holds it.
   */
  lemma {:induction false} FileMapFirst(files: seq<Path>, batches: seq<seq<string>>)
    requires |files| == |batches|
    ensures FileMap(files, batches).Keys == Unique(batches)
    ensures forall d :: d in FileMap(files, batches) ==>
      exists i :: FirstBatch(batches, d, i) && FileMap(files, batches)[d] == files[i]
  {
    if files != [] {
      var n := |files| - 1;
      var fp, bp := files[..n], batches[..n];
      FileMapFirst(fp, bp);
      var m := FileMap(fp, bp);
      AssignFacts(m, batches[n], files[n]);
      forall d | d in FileMap(files, batches)
        ensures exists i :: FirstBatch(batches, d, i) && FileMap(files, batches)[d] == files[i]
      {
        if d in m {
          var i :| FirstBatch(bp, d, i) && m[d] == fp[i];
          assert batches[i] == bp[i] && files[i] == fp[i];
          forall j | 0 <= j < i
            ensures d !in batches[j]
          {
            assert batches[j] == bp[j];
          }
          assert FirstBatch(batches, d, i);
        } else {
          assert d !in Unique(bp);
          forall j | 0 <= j < n
            ensures d !in batches[j]
          {
            assert batches[j] == bp[j];
            if d in bp[j] {
              UniqueHas(bp, j, d);
            }
          }
          assert FirstBatch(batches, d, n);
        }
      }
    }
  }

  /** Each domain of each batch is among the unique domains. */
  lemma {:induction false} UniqueHas(batches: seq<seq<string>>, j: nat, d: string)
    requires j < |batches| && d in batches[j]
    ensures d in Unique(batches)
  {
    var n := |batches| - 1;
    if j < n {
      UniqueHas(batches[..n], j, d);
    }
  }

  /** How `load_domains` ends: it exits with a status, fails on a root that is a file, or returns its results. */
  datatype Loaded = Exit(status: nat) | NotADirectory | Domains(fileOf: map<string, Path>, unique: set<string>)

  /**
   * What `load_domains` does for the domain folder `root`, whose children
   * `iterdir` lists in the order `listing`.
   */
  function LoadOutcome(fs: Files, root: Path, listing: seq<Path>, hostOf: string -> Option<string>): Loaded {
    if root !in fs then Exit(1)
    else if fs[root].TextFile? then NotADirectory
    else
      var files := DomainFiles(fs, listing);
      if files == [] then Exit(0)
      else
        var batches := Batches(fs, files, hostOf);
        if Unique(batches) == {} then Exit(0)
        else Domains(FileMap(files, batches), Unique(batches))
  }

  /** The inner loop of `load_domains` over the domains of file `f`. */
  method AddDomains(fileOf: map<string, Path>, unique: set<string>, domains: seq<string>, f: Path)
    returns (fileOf': map<string, Path>, unique': set<string>)
    ensures fileOf' == Assign(fileOf, domains, f)
    ensures unique' == unique + Elements(domains)
  {
    fileOf', unique' := fileOf, unique;
    for k := 0 to |domains|
      invariant fileOf' == Assign(fileOf, domains[..k], f)
      invariant unique' == unique + Elements(domains[..k])
    {
      assert domains[..k + 1][..k] == domains[..k];
      assert domains[..k + 1] == domains[..k] + [domains[k]];
      if domains[k] !in fileOf' {
        fileOf' := fileOf'[domains[k] := f];
      }
      unique' := unique' + {domains[k]};
    }
    assert domains[..|domains|] == domains;
  }

  lemma FileMapNext(files: seq<Path>, batches: seq<seq<string>>, i: nat)
    requires |files| == |batches| && i < |files|
    ensures FileMap(files[..i + 1], batches[..i + 1]) == Assign(FileMap(files[..i], batches[..i]), batches[i], files[i])
    ensures Unique(batches[..i + 1]) == Unique(batches[..i]) + Elements(batches[i])
  {
    assert files[..i + 1][..i] == files[..i] && batches[..i + 1][..i] == batches[..i];
  }

  /** The loop of `load_domains` over the checked files. */
  method MapFiles(fs: Files, files: seq<Path>, hostOf: string -> Option<string>)
    returns (fileOf: map<string, Path>, unique: set<string>)
    ensures fileOf == FileMap(files, Batches(fs, files, hostOf))
    ensures unique == Unique(Batches(fs, files, hostOf))
  {
    ghost var batches := Batches(fs, files, hostOf);
    fileOf, unique := map[], {};
    for i := 0 to |files|
      invariant fileOf == FileMap(files[..i], batches[..i])
      invariant unique == Unique(batches[..i])
    {
      var domains, lines := LoadDomainsFromFile(fs, files[i], hostOf);
      assert domains == batches[i];
      FileMapNext(files, batches, i);
      fileOf, unique := AddDomains(fileOf, unique, domains, files[i]);
    }
    assert files[..|files|] == files && batches[..|batches|] == batches;
  }

  /** `load_domains`. */
  method LoadDomains(fs: Files, root: Path, listing: seq<Path>, hostOf: string -> Option<string>)
    returns (outcome: Loaded)
    ensures outcome == LoadOutcome(fs, root, listing, hostOf)
  {
    if root !in fs {
      return Exit(1);
    }
    if fs[root].TextFile? {
      return NotADirectory;
    }
    var files := DomainFiles(fs, listing);
    if files == [] {
      return Exit(0);
    }
    var fileOf, unique := MapFiles(fs, files, hostOf);
    if unique == {} {
      return Exit(0);
    }
    return Domains(fileOf, unique);
  }


  /**
   * When `load_domains` returns, every domain to check maps to a checked
   * file of the listing, the first in listing order whose lines name it.
   */
  lemma LoadedFirstFile(fs: Files, root: Path, listing: seq<Path>, hostOf: string -> Option<string>)
    requires LoadOutcome(fs, root, listing, hostOf).Domains?
    ensures var r := LoadOutcome(fs, root, listing, hostOf);
      var files := DomainFiles(fs, listing);
      r.fileOf.Keys == r.unique
      && forall d :: d in r.fileOf ==>
        Checked(fs, r.fileOf[d]) && r.fileOf[d] in listing
        && exists i :: FirstBatch(Batches(fs, files, hostOf), d, i) && r.fileOf[d] == files[i]
  {
    var files := DomainFiles(fs, listing);
    var batches := Batches(fs, files, hostOf);
    FileMapFirst(files, batches);
    forall d | d in FileMap(files, batches)
      ensures Checked(fs, FileMap(files, batches)[d]) && FileMap(files, batches)[d] in listing
    {
      var i :| FirstBatch(batches, d, i) && FileMap(files, batches)[d] == files[i];
      DomainFilesExact(fs, listing, files[i]);
    }
  }

  /** The line `comment_out_domain_in_file` writes in place of a matching one. */
  function CommentLine(line: string): (r: string)
    ensures StartsWith(LStrip(r), "#") && StartsWith(Strip(r), "#")
  {
    HashLed("# " + LStrip(line));
    "# " + LStrip(line)
  }

  /** A text that starts with '#' still does once stripped. */
  lemma HashLed(c: string)
    requires c != [] && c[0] == '#'
    ensures StartsWith(LStrip(c), "#") && StartsWith(Strip(c), "#")
  {
    assert LStrip(c) == c by {
      LStripUnique([], c);
      assert [] + c == c;
    }
    RStripFirst(c);
  }

  /** A line the loop comments out for `target`: its host is `target` and its stripped text does not start with '#'. */
  predicate Matches(line: string, target: string, hostOf: string -> Option<string>) {
    hostOf(line) == Some(target) && !StartsWith(Strip(line), "#")
  }

  /** The second test of the loop is implied by the first: a line that names a host is never a comment line. */
  lemma HostNotCommented(line: string)
    requires Candidate(line).Some?
    ensures !StartsWith(Strip(line), "#")
  {
    var l := LStrip(line);
    if StartsWith(Strip(line), "#") {
      RStripFirst(l);
      assert l[0] == '#';
      CommentedNoHost(line);
    }
  }

  /** A commented-out line names no host and starts with '#' once stripped, so it never matches again. */
  lemma CommentLineQuiet(line: string, target: string, hostOf: string -> Option<string>)
    ensures Candidate(CommentLine(line)) == None
    ensures !Matches(CommentLine(line), target, hostOf)
  {
    CommentedNoHost(CommentLine(line));
  }

  /** Which lines match, in order. */
  function MatchFlags(lines: seq<string>, target: string, hostOf: string -> Option<string>): (flags: seq<bool>)
    ensures |flags| == |lines|
  {
    seq(|lines|, i requires 0 <= i < |lines| => Matches(lines[i], target, hostOf))
  }

  /** The index of the first `true`. */
  function FirstTrue(flags: seq<bool>): (r: Option<nat>)
    ensures r.Some? ==> r.value < |flags| && flags[r.value] && forall j :: 0 <= j < r.value ==> !flags[j]
    ensures r.None? ==> forall j :: 0 <= j < |flags| ==> !flags[j]
  {
    if flags == [] then None
    else if flags[0] then Some(0)
    else
      match FirstTrue(flags[1..])
      case None => None
      case Some(i) => Some(i + 1)
  }

  /** Past every earlier position, the first `true` is at `i` exactly when flag `i` is set. */
  lemma FirstTrueAt(flags: seq<bool>, i: nat)
    requires i < |flags|
    requires FirstTrue(flags).None? || FirstTrue(flags).value >= i
    ensures FirstTrue(flags) == Some(i) <==> flags[i]
  {
  }

  /** The lines with line `at`, if any, commented out. */
  function Commented(lines: seq<string>, at: Option<nat>): (r: seq<string>)
    ensures |r| == |lines|
  {
    if at.Some? && at.value < |lines| then lines[at.value := CommentLine(lines[at.value])] else lines
  }

  /** The number of `true` flags. */
  function Count(flags: seq<bool>): nat {
    if flags == [] then 0 else Count(flags[..|flags| - 1]) + (if flags[|flags| - 1] then 1 else 0)
  }

  lemma {:induction false} CountDrop(flags: seq<bool>, i: nat)
    requires i < |flags| && flags[i]
    ensures Count(flags[i := false]) + 1 == Count(flags)
  {
    var n := |flags| - 1;
    var g := flags[i := false];
    assert g[..n] == if i < n then flags[..n][i := false] else flags[..n];
    if i < n {
      CountDrop(flags[..n], i);
    }
  }

  /**
   * Commenting out changes only the first matching line; after it, exactly
   * one matching line fewer is left.
   */
  lemma CommentedOneFewer(lines: seq<string>, target: string, hostOf: string -> Option<string>)
    requires FirstTrue(MatchFlags(lines, target, hostOf)).Some?
    ensures var i := FirstTrue(MatchFlags(lines, target, hostOf)).value;
      var out := Commented(lines, Some(i));
      (forall j :: 0 <= j < |lines| && j != i ==> out[j] == lines[j])
      && Count(MatchFlags(out, target, hostOf)) + 1 == Count(MatchFlags(lines, target, hostOf))
  {
    var flags := MatchFlags(lines, target, hostOf);
    var i := FirstTrue(flags).value;
    var out := Commented(lines, Some(i));
    var after := MatchFlags(out, target, hostOf);
    assert after == flags[i := false] by {
      forall j | 0 <= j < |lines|
        ensures after[j] == flags[i := false][j]
      {
        if j == i {
          assert StartsWith(Strip(CommentLine(lines[i])), "#");
        }
      }
    }
    CountDrop(flags, i);
  }

  /**
   * The loop of `comment_out_domain_in_file` over the lines read: the first
   * matching line is commented out, every other line is kept as it is.
   */
  method CommentOut(lines: seq<string>, target: string, hostOf: string -> Option<string>)
    returns (out: seq<string>, found: bool)
    ensures found == FirstTrue(MatchFlags(lines, target, hostOf)).Some?
    ensures out == Commented(lines, FirstTrue(MatchFlags(lines, target, hostOf)))
  {
    ghost var flags := MatchFlags(lines, target, hostOf);
    ghost var at := FirstTrue(flags);
    ghost var expected := Commented(lines, at);
    out, found := [], false;
    for i := 0 to |lines|
      invariant found <==> at.Some? && at.value < i
      invariant out == expected[..i]
    {
      var line := lines[i];
      assert expected[..i + 1] == expected[..i] + [expected[i]];
      if found {
        out := out + [line];
      } else {
        FirstTrueAt(flags, i);
        assert flags[i] == (hostOf(line) == Some(target) && !StartsWith(Strip(line), "#"));
        if hostOf(line) == Some(target) && !StartsWith(Strip(line), "#") {
          out := out + [CommentLine(line)];
          found := true;
        } else {
          out := out + [line];
        }
      }
    }
    assert expected[..|lines|] == expected;
  }

  /**
   * What `comment_out_domain_in_file` writes back to the file: nothing when
   * the file reads as no lines, or when no line matched; else the lines with
   * the first matching one commented out.
   */
  function CommentWrite(fs: Files, p: Path, target: string, hostOf: string -> Option<string>): Option<seq<string>> {
    var lines := ReadFile(fs, p, hostOf).original;
    var at := FirstTrue(MatchFlags(lines, target, hostOf));
    if lines == [] || at.None? then None else Some(Commented(lines, at))
  }

  /** `comment_out_domain_in_file`; the result is the new content of the file, `None` when it is not rewritten. */
  method CommentOutDomainInFile(fs: Files, p: Path, target: string, hostOf: string -> Option<string>)
    returns (write: Option<seq<string>>)
    ensures write == CommentWrite(fs, p, target, hostOf)
  {
    var domains, original := LoadDomainsFromFile(fs, p, hostOf);
    if original == [] {
      return None;
    }
    var out, found := CommentOut(original, target, hostOf);
    if found {
      write := Some(out);
    } else {
      write := None;
    }
  }
}
