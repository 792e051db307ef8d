/**
 * `load_domains_from_directory` of scripts/build_dat.py: `include:` lines are
 * expanded depth-first, relative to the including file's directory, and one
 * set of processed paths, shared by the whole call, makes every path read at
 * most once, so that cycles end and a file included twice contributes once.
 */
module Includes {
  import opened Text
  import opened FileTree
  import opened RuleFile

  /**
   * The state of the expansion after some lines: the rules so far, the
   * processed paths, the files whose lines were read (in the order they were
   * opened) and whether an error ended the current file.
   */
  datatype Walk = Walk(rules: seq<Rule>, visited: set<Path>, read: seq<Path>, halted: bool)

  /** `process_file(p)` with the processed paths `V`. */
  function Resolve(fs: Tree, p: Path, V: set<Path>): (w: Walk)
    ensures V <= w.visited && p in w.visited && !w.halted
    ensures p in V ==> w.rules == [] && w.visited == V
    decreases fs.Keys - V, 0, 0
  {
    if p in V then Walk([], V, [], false)
    else if !IsFile(fs, p) then
      // a missing path is reported; opening a directory raises and is caught: both give nothing
      Walk([], V + {p}, [], false)
    else
      var w := ResolveLines(fs, p, Kinds(fs[p].lines), V + {p});
      Walk(w.rules, w.visited, [p] + w.read, false)
  }

  /** The loop of `process_file` over the classified lines `ks` of `file`, read so far. */
  function ResolveLines(fs: Tree, file: Path, ks: seq<LineKind>, V: set<Path>): (w: Walk)
    ensures V <= w.visited
    decreases fs.Keys - V, 1, |ks|
  {
    if ks == [] then Walk([], V, [], false)
    else
      var w := ResolveLines(fs, file, ks[..|ks| - 1], V);
      if w.halted then w
      else match ks[|ks| - 1]
        case Include(name) =>
          var c := Resolve(fs, JoinPath(Parent(file), name), w.visited);
          Walk(w.rules + c.rules, c.visited, w.read + c.read, false)
        case Emit(r) => Walk(w.rules + [r], w.visited, w.read, false)
        case Fail => Walk(w.rules, w.visited, w.read, true)
        case Skip => w
  }

  /** One more line, while the current file has not raised: the loop's step. */
  lemma ResolveLinesNext(fs: Tree, file: Path, ks: seq<LineKind>, i: nat, V: set<Path>)
    requires i < |ks| && !ResolveLines(fs, file, ks[..i], V).halted
    ensures var w := ResolveLines(fs, file, ks[..i], V);
      ResolveLines(fs, file, ks[..i + 1], V)
      == match ks[i]
        case Include(name) =>
          var c := Resolve(fs, JoinPath(Parent(file), name), w.visited);
          Walk(w.rules + c.rules, c.visited, w.read + c.read, false)
        case Emit(r) => Walk(w.rules + [r], w.visited, w.read, false)
        case Fail => Walk(w.rules, w.visited, w.read, true)
        case Skip => w
  {
    assert ks[..i + 1][..i] == ks[..i];
  }

  /** Once a line of the current file has raised, its later lines change nothing. */
  lemma {:induction false} HaltedWalkStays(fs: Tree, file: Path, ks: seq<LineKind>, n: nat, V: set<Path>)
    requires n <= |ks|
    requires ResolveLines(fs, file, ks[..n], V).halted
    ensures ResolveLines(fs, file, ks, V) == ResolveLines(fs, file, ks[..n], V)
    decreases |ks| - n
  {
    if n < |ks| {
      assert ks[..n + 1][..n] == ks[..n];
      HaltedWalkStays(fs, file, ks, n + 1, V);
    } else {
      assert ks[..n] == ks;
    }
  }

  /** The shared `processed_files` set and the recursive `process_file` that uses it. */
  class IncludeResolver {
    const fs: Tree
    var processed: set<Path>

    constructor (fs: Tree)
      ensures this.fs == fs && processed == {}
    {
      this.fs := fs;
      processed := {};
    }

    /** `process_file`: the rules of `p` with its includes spliced in where they stand. */
    method ProcessFile(p: Path) returns (rules: seq<Rule>)
      modifies this
      ensures rules == Resolve(fs, p, old(processed)).rules
      ensures processed == Resolve(fs, p, old(processed)).visited
      decreases fs.Keys - processed
    {
      if p in processed {
        return [];
      }
      processed := processed + {p};
      rules := [];
      if p !in fs {
        return;
      }
      match fs[p] {
        case Dir =>
          // opening a directory raises, and the handler returns the empty list
          return;
        case File(lines) =>
          ghost var V0 := processed;
          ghost var ks := Kinds(lines);
          var i := 0;
          while i < |lines|
            invariant 0 <= i <= |lines|
            invariant V0 <= processed
            invariant ResolveLines(fs, p, ks[..i], V0).rules == rules
            invariant ResolveLines(fs, p, ks[..i], V0).visited == processed
            invariant !ResolveLines(fs, p, ks[..i], V0).halted
          {
            KindsAt(lines, i);
            ResolveLinesNext(fs, p, ks, i, V0);
            match ParseLine(lines[i]) {
              case Include(name) =>
                var child := ProcessFile(JoinPath(Parent(p), name));
                rules := rules + child;
              case Emit(r) =>
                rules := rules + [r];
              case Fail =>
                HaltedWalkStays(fs, p, ks, i + 1, V0);
                return;
              case Skip =>
            }
            i := i + 1;
          }
          assert ks[..i] == ks;
      }
    }
  }

  /** The files the directory walk hands to `process_file`: files whose name does not start with a dot. */
  predicate Listed(fs: Tree, q: Path) {
    IsFile(fs, q) && !StartsWith(Name(q), ".")
  }

  /** The loop over the walk of the directory, in walk order, sharing the processed paths. */
  function ResolveEach(fs: Tree, walk: seq<Path>, V: set<Path>): (w: Walk)
    ensures V <= w.visited && !w.halted
  {
    if walk == [] then Walk([], V, [], false)
    else
      var w := ResolveEach(fs, walk[..|walk| - 1], V);
      var q := walk[|walk| - 1];
      if Listed(fs, q) then
        var c := Resolve(fs, q, w.visited);
        Walk(w.rules + c.rules, c.visited, w.read + c.read, false)
      else w
  }

  /** One more walked path: a listed file has its expansion spliced in, anything else changes nothing. */
  lemma ResolveEachNext(fs: Tree, walk: seq<Path>, i: nat, V: set<Path>)
    requires i < |walk|
    ensures var w := ResolveEach(fs, walk[..i], V);
      ResolveEach(fs, walk[..i + 1], V)
      == if Listed(fs, walk[i]) then
           var c := Resolve(fs, walk[i], w.visited);
           Walk(w.rules + c.rules, c.visited, w.read + c.read, false)
         else w
  {
    assert walk[..i + 1][..i] == walk[..i];
  }

  /**
   * What `load_domains_from_directory(root)` returns: a file is expanded on
   * its own, a directory file by file in the order `walk` lists its
   * descendants, and anything else gives nothing.
   */
  function DirectoryWalk(fs: Tree, root: Path, walk: seq<Path>): Walk {
    if IsFile(fs, root) then Resolve(fs, root, {})
    else if root in fs then ResolveEach(fs, walk, {})
    else Walk([], {}, [], false)
  }

  /** `load_domains_from_directory`; `walk` is the order in which `rglob('*')` lists what lies under `root`. */
  method LoadDomainsFromDirectory(fs: Tree, root: Path, walk: seq<Path>) returns (rules: seq<Rule>)
    ensures rules == DirectoryWalk(fs, root, walk).rules
  {
    var resolver := new IncludeResolver(fs);
    rules := [];
    if IsFile(fs, root) {
      rules := resolver.ProcessFile(root);
    } else if root in fs {
      var i := 0;
      while i < |walk|
        invariant 0 <= i <= |walk|
        invariant resolver.fs == fs
        invariant ResolveEach(fs, walk[..i], {}).rules == rules
        invariant ResolveEach(fs, walk[..i], {}).visited == resolver.processed
      {
        ResolveEachNext(fs, walk, i, {});
        var q := walk[i];
        if IsFile(fs, q) && !StartsWith(Name(q), ".") {
          var more := resolver.ProcessFile(q);
          rules := rules + more;
        }
        i := i + 1;
      }
      assert walk[..i] == walk;
    }
  }

  /** No path occurs twice. */
  predicate Distinct(s: seq<Path>) {
    forall i, j :: 0 <= i < j < |s| ==> s[i] != s[j]
  }

  lemma DistinctAppend(a: seq<Path>, b: seq<Path>)
    requires Distinct(a) && Distinct(b)
    requires forall q :: q in a ==> q !in b
    ensures Distinct(a + b)
  {
    forall i, j | 0 <= i < j < |a + b|
      ensures (a + b)[i] != (a + b)[j]
    {
      if j < |a| {
        assert (a + b)[i] == a[i] && (a + b)[j] == a[j];
      } else if i >= |a| {
        assert (a + b)[i] == b[i - |a|] && (a + b)[j] == b[j - |a|];
      } else {
        assert (a + b)[i] == a[i] && (a + b)[j] == b[j - |a|];
        assert a[i] in a;
      }
    }
  }

  /** The rules the files `qs` contribute of their own lines, as a multiset. */
  function Contributions(fs: Tree, qs: seq<Path>): multiset<Rule> {
    if qs == [] then multiset{} else multiset(OwnRules(fs, qs[0])) + Contributions(fs, qs[1..])
  }

  lemma {:induction false} ContributionsAppend(fs: Tree, a: seq<Path>, b: seq<Path>)
    ensures Contributions(fs, a + b) == Contributions(fs, a) + Contributions(fs, b)
  {
    if a != [] {
      assert (a + b)[0] == a[0];
      assert (a + b)[1..] == a[1..] + b;
      ContributionsAppend(fs, a[1..], b);
    } else {
      assert a + b == b;
    }
  }

  /**
   * What a walk that started from the processed paths `V` has read: exactly
   * the files it newly processed, each once.
   */
  predicate ReadsExactly(fs: Tree, w: Walk, V: set<Path>) {
    && Distinct(w.read)
    && (forall q :: q in w.read ==> q !in V && q in w.visited && IsFile(fs, q))
    && (forall q :: q in w.visited && q !in V && IsFile(fs, q) ==> q in w.read)
  }

  /**
   * `process_file` reads exactly the files it newly processes, each once,
   * and its result is, as a multiset, exactly the own rules of those files:
   * no file's entries are lost and none appear twice, however the includes
   * repeat or cycle.
   */
  lemma {:induction false} ResolveReadsOnce(fs: Tree, p: Path, V: set<Path>)
    ensures ReadsExactly(fs, Resolve(fs, p, V), V)
    ensures multiset(Resolve(fs, p, V).rules) == Contributions(fs, Resolve(fs, p, V).read)
    decreases fs.Keys - V, 0, 0, 0
  {
    if p !in V && IsFile(fs, p) {
      var ks := Kinds(fs[p].lines);
      var w := ResolveLines(fs, p, ks, V + {p});
      ResolveLinesReadsOnce(fs, p, ks, V + {p});
      DistinctAppend([p], w.read);
      assert ([p] + w.read)[0] == p && ([p] + w.read)[1..] == w.read;
      assert OwnRules(fs, p) == ScanKinds(ks).rules;
    }
  }

  /** The loop over one file's lines stops exactly where the include-free reader stops. */
  lemma {:induction false} ResolveLinesHalted(fs: Tree, file: Path, ks: seq<LineKind>, V: set<Path>)
    ensures ResolveLines(fs, file, ks, V).halted == ScanKinds(ks).halted
  {
    if ks != [] {
      var n := |ks| - 1;
      ResolveLinesHalted(fs, file, ks[..n], V);
    }
  }

  /**
   * The loop over one file's lines: its rules are the include-free reader's
   * rules plus the own rules of every file it read through includes, each
   * once.
   */
  lemma {:induction false} ResolveLinesReadsOnce(fs: Tree, file: Path, ks: seq<LineKind>, V: set<Path>)
    ensures ReadsExactly(fs, ResolveLines(fs, file, ks, V), V)
    ensures multiset(ResolveLines(fs, file, ks, V).rules)
      == multiset(ScanKinds(ks).rules) + Contributions(fs, ResolveLines(fs, file, ks, V).read)
    decreases fs.Keys - V, 1, |ks|, 1
  {
    if ks != [] {
      var pre := ks[..|ks| - 1];
      ResolveLinesReadsOnce(fs, file, pre, V);
      ResolveLinesHalted(fs, file, pre, V);
      if ks[|ks| - 1].Include? {
        IncludeReadsOnce(fs, file, ks, V);
      } else {
        LineReadsOnce(fs, file, ks, V);
      }
    }
  }

  /** The step of the loop over a line that is not an include, from the facts about the lines before it. */
  lemma LineReadsOnce(fs: Tree, file: Path, ks: seq<LineKind>, V: set<Path>)
    requires ks != [] && !ks[|ks| - 1].Include?
    requires var w := ResolveLines(fs, file, ks[..|ks| - 1], V);
      && ReadsExactly(fs, w, V) && w.halted == ScanKinds(ks[..|ks| - 1]).halted
      && multiset(w.rules) == multiset(ScanKinds(ks[..|ks| - 1]).rules) + Contributions(fs, w.read)
    ensures ReadsExactly(fs, ResolveLines(fs, file, ks, V), V)
    ensures multiset(ResolveLines(fs, file, ks, V).rules)
      == multiset(ScanKinds(ks).rules) + Contributions(fs, ResolveLines(fs, file, ks, V).read)
  {
    var w := ResolveLines(fs, file, ks[..|ks| - 1], V);
    var s := ScanKinds(ks[..|ks| - 1]);
    var W := ResolveLines(fs, file, ks, V);
    var S := ScanKinds(ks);
    assert W.read == w.read && W.visited == w.visited
      && multiset(W.rules) == multiset(S.rules) + Contributions(fs, w.read) by {
      if !w.halted {
        match ks[|ks| - 1]
        case Emit(r) =>
          assert W == Walk(w.rules + [r], w.visited, w.read, false);
          assert S == Scan(s.rules + [r], false);
        case Fail =>
          assert W == Walk(w.rules, w.visited, w.read, true);
          assert S == Scan(s.rules, true);
        case Skip =>
          assert W == w && S == s;
      } else {
        assert W == w && S == s;
      }
    }
    SameReads(fs, w, W, V);
  }

  /** Whether a walk's reads are fresh depends only on what it read and visited. */
  lemma SameReads(fs: Tree, w: Walk, W: Walk, V: set<Path>)
    requires ReadsExactly(fs, w, V) && W.read == w.read && W.visited == w.visited
    ensures ReadsExactly(fs, W, V)
  {
  }

  /** The step of the loop over an include line: the included file's walk is spliced in. */
  lemma {:induction false} IncludeReadsOnce(fs: Tree, file: Path, ks: seq<LineKind>, V: set<Path>)
    requires ks != [] && ks[|ks| - 1].Include?
    requires var w := ResolveLines(fs, file, ks[..|ks| - 1], V);
      && ReadsExactly(fs, w, V) && w.halted == ScanKinds(ks[..|ks| - 1]).halted
      && multiset(w.rules) == multiset(ScanKinds(ks[..|ks| - 1]).rules) + Contributions(fs, w.read)
    ensures ReadsExactly(fs, ResolveLines(fs, file, ks, V), V)
    ensures multiset(ResolveLines(fs, file, ks, V).rules)
      == multiset(ScanKinds(ks).rules) + Contributions(fs, ResolveLines(fs, file, ks, V).read)
    decreases fs.Keys - V, 1, |ks|, 0
  {
    var w := ResolveLines(fs, file, ks[..|ks| - 1], V);
    var s := ScanKinds(ks[..|ks| - 1]);
    if !w.halted {
      var child := JoinPath(Parent(file), ks[|ks| - 1].name);
      var c := Resolve(fs, child, w.visited);
      assert ResolveLines(fs, file, ks, V) == Walk(w.rules + c.rules, c.visited, w.read + c.read, false);
      assert ScanKinds(ks) == s;
      ResolveReadsOnce(fs, child, w.visited);
      SpliceReadsOnce(fs, w, c, V);
    } else {
      assert ResolveLines(fs, file, ks, V) == w;
      assert ScanKinds(ks) == s;
    }
  }

  /** Splicing an included file's walk after the lines read so far keeps the reads fresh and adds the child's rules. */
  lemma SpliceReadsOnce(fs: Tree, w: Walk, c: Walk, V: set<Path>)
    requires ReadsExactly(fs, w, V) && ReadsExactly(fs, c, w.visited)
    requires V <= w.visited <= c.visited
    ensures ReadsExactly(fs, Walk(w.rules + c.rules, c.visited, w.read + c.read, false), V)
    ensures Contributions(fs, w.read + c.read) == Contributions(fs, w.read) + Contributions(fs, c.read)
  {
    DistinctAppend(w.read, c.read);
    ContributionsAppend(fs, w.read, c.read);
  }

  /** The walk over a directory reads exactly the files it newly processes, each once, and its rules are exactly their own rules. */
  lemma {:induction false} ResolveEachReadsOnce(fs: Tree, walk: seq<Path>, V: set<Path>)
    ensures ReadsExactly(fs, ResolveEach(fs, walk, V), V)
    ensures multiset(ResolveEach(fs, walk, V).rules) == Contributions(fs, ResolveEach(fs, walk, V).read)
  {
    if walk != [] {
      var w := ResolveEach(fs, walk[..|walk| - 1], V);
      var q := walk[|walk| - 1];
      ResolveEachReadsOnce(fs, walk[..|walk| - 1], V);
      if Listed(fs, q) {
        var c := Resolve(fs, q, w.visited);
        assert ResolveEach(fs, walk, V) == Walk(w.rules + c.rules, c.visited, w.read + c.read, false);
        ResolveReadsOnce(fs, q, w.visited);
        SpliceReadsOnce(fs, w, c, V);
      }
    }
  }

  /**
   * One `load_domains_from_directory` call: no file is read twice, a file
   * root and every listed file under a directory root are read, and the
   * result holds each read file's own rules exactly once.
   */
  lemma DirectoryReadsOnce(fs: Tree, root: Path, walk: seq<Path>)
    ensures Distinct(DirectoryWalk(fs, root, walk).read)
    ensures multiset(DirectoryWalk(fs, root, walk).rules) == Contributions(fs, DirectoryWalk(fs, root, walk).read)
    ensures IsFile(fs, root) ==> root in DirectoryWalk(fs, root, walk).read
    ensures root in fs && !IsFile(fs, root) ==>
      forall i :: 0 <= i < |walk| && Listed(fs, walk[i]) ==> walk[i] in DirectoryWalk(fs, root, walk).read
  {
    if IsFile(fs, root) {
      ResolveReadsOnce(fs, root, {});
    } else if root in fs {
      ResolveEachReadsOnce(fs, walk, {});
      ListedVisited(fs, walk, {});
    }
  }

  /** Every file the directory walk lists is processed by the end of the loop over the walk. */
  lemma {:induction false} ListedVisited(fs: Tree, walk: seq<Path>, V: set<Path>)
    ensures forall i :: 0 <= i < |walk| && Listed(fs, walk[i]) ==> walk[i] in ResolveEach(fs, walk, V).visited
  {
    if walk != [] {
      var n := |walk| - 1;
      ListedVisited(fs, walk[..n], V);
      forall i | 0 <= i < |walk| && Listed(fs, walk[i])
        ensures walk[i] in ResolveEach(fs, walk, V).visited
      {
        if i < n {
          assert walk[..n][i] == walk[i];
        }
      }
    }
  }

  /** Line `i` of a file is reached: no line before it raised. */
  predicate Reached(ks: seq<LineKind>, i: int) {
    0 <= i < |ks| && !ScanKinds(ks[..i]).halted
  }

  /** A line before the last is reached in the whole file exactly when it is reached in the lines before the last. */
  lemma ReachedPrefix(ks: seq<LineKind>, i: int)
    requires 0 <= i < |ks| - 1
    ensures Reached(ks, i) <==> Reached(ks[..|ks| - 1], i)
    ensures ks[..|ks| - 1][i] == ks[i]
  {
    assert ks[..|ks| - 1][..i] == ks[..i];
  }

  /**
   * The target of every include line the loop reaches is processed, so (by
   * `ResolveLinesReadsOnce`) a target that is a file is read unless it was
   * processed before the loop began.
   */
  lemma {:induction false} IncludesVisited(fs: Tree, file: Path, ks: seq<LineKind>, V: set<Path>)
    ensures forall i :: Reached(ks, i) && ks[i].Include? ==>
      JoinPath(Parent(file), ks[i].name) in ResolveLines(fs, file, ks, V).visited
  {
    if ks != [] {
      var n := |ks| - 1;
      IncludesVisited(fs, file, ks[..n], V);
      ResolveLinesHalted(fs, file, ks[..n], V);
      VisitedStep(fs, file, ks, V);
      forall i | Reached(ks, i) && ks[i].Include?
        ensures JoinPath(Parent(file), ks[i].name) in ResolveLines(fs, file, ks, V).visited
      {
        if i < n {
          ReachedPrefix(ks, i);
        }
      }
    }
  }

  /** One more line keeps every processed path processed, and a reached include adds its target. */
  lemma VisitedStep(fs: Tree, file: Path, ks: seq<LineKind>, V: set<Path>)
    requires ks != []
    ensures var w := ResolveLines(fs, file, ks[..|ks| - 1], V);
      var W := ResolveLines(fs, file, ks, V);
      && w.visited <= W.visited
      && (!w.halted && ks[|ks| - 1].Include? ==> JoinPath(Parent(file), ks[|ks| - 1].name) in W.visited)
  {
  }

  /** Every include among `ks`, taken relative to the directory of `file`, names a path in `T`. */
  predicate IncludesWithin(file: Path, ks: seq<LineKind>, T: set<Path>) {
    forall i :: 0 <= i < |ks| && ks[i].Include? ==> JoinPath(Parent(file), ks[i].name) in T
  }

  /** The loop reaches some include line of `ks`. */
  ghost predicate ReachesInclude(ks: seq<LineKind>) {
    exists i :: Reached(ks, i) && ks[i].Include?
  }

  /** Lines whose includes all name processed paths read no file and give what the include-free reader gives. */
  lemma {:induction false} ProcessedIncludes(fs: Tree, file: Path, ks: seq<LineKind>, V: set<Path>)
    requires IncludesWithin(file, ks, V)
    ensures ResolveLines(fs, file, ks, V) == Walk(ScanKinds(ks).rules, V, [], ScanKinds(ks).halted)
  {
    if ks != [] {
      var n := |ks| - 1;
      assert IncludesWithin(file, ks[..n], V) by {
        forall i | 0 <= i < n
          ensures ks[..n][i] == ks[i]
        {
        }
      }
      ProcessedIncludes(fs, file, ks[..n], V);
    }
  }

  /** An include is reached in `ks` when one is reached before its last line, or its last line is a reached include. */
  lemma ReachesIncludeSnoc(ks: seq<LineKind>)
    requires ks != []
    ensures ReachesInclude(ks)
      <==> ReachesInclude(ks[..|ks| - 1]) || (Reached(ks, |ks| - 1) && ks[|ks| - 1].Include?)
  {
    var n := |ks| - 1;
    if ReachesInclude(ks[..n]) {
      var i :| Reached(ks[..n], i) && ks[..n][i].Include?;
      ReachedPrefix(ks, i);
    }
    if ReachesInclude(ks) {
      var i :| Reached(ks, i) && ks[i].Include?;
      if i < n {
        ReachedPrefix(ks, i);
      }
    }
  }

  /**
   * What the loop over the lines `ks` of `A` has done, in the two-file cycle
   * of `A` and `B`, given whether it has reached an include (`met`): nothing
   * beyond `A` before, and `B` processed and read once after.
   */
  predicate CycleWalk(fs: Tree, A: Path, B: Path, ks: seq<LineKind>, w: Walk, met: bool) {
    && w.visited == (if met then {A, B} else {A})
    && w.read == (if met then [B] else [])
    && multiset(w.rules)
      == multiset(ScanKinds(ks).rules) + (if met then multiset(OwnRules(fs, B)) else multiset{})
  }

  /** `B`, whose includes name only `A` or itself, expanded after `A`: its own rules, and it alone read. */
  lemma ReadOther(fs: Tree, A: Path, B: Path)
    requires A != B && IsFile(fs, B)
    requires IncludesWithin(B, Kinds(fs[B].lines), {A, B})
    ensures Resolve(fs, B, {A}) == Walk(OwnRules(fs, B), {A, B}, [B], false)
  {
    assert {A} + {B} == {A, B};
    ProcessedIncludes(fs, B, Kinds(fs[B].lines), {A, B});
  }

  /** The step of `CycleLines` over a last line that is not a reached include: `B` is not read there. */
  lemma CycleQuietStep(fs: Tree, A: Path, B: Path, ks: seq<LineKind>, met: bool)
    requires ks != [] && (ScanKinds(ks[..|ks| - 1]).halted || !ks[|ks| - 1].Include?)
    requires var w := ResolveLines(fs, A, ks[..|ks| - 1], {A});
      CycleWalk(fs, A, B, ks[..|ks| - 1], w, met) && w.halted == ScanKinds(ks[..|ks| - 1]).halted
    ensures CycleWalk(fs, A, B, ks, ResolveLines(fs, A, ks, {A}), met)
  {
    var n := |ks| - 1;
    var w := ResolveLines(fs, A, ks[..n], {A});
    var s := ScanKinds(ks[..n]);
    var W := ResolveLines(fs, A, ks, {A});
    var S := ScanKinds(ks);
    if w.halted {
      assert W == w && S == s;
    } else {
      match ks[n]
      case Emit(r) =>
        assert W == Walk(w.rules + [r], w.visited, w.read, false);
        assert S == Scan(s.rules + [r], false);
      case Fail =>
        assert W == Walk(w.rules, w.visited, w.read, true);
        assert S == Scan(s.rules, true);
      case Skip =>
        assert W == w && S == s;
    }
  }

  /** The step of `CycleLines` over a reached include of `B`: `B` is read the first time only. */
  lemma CycleIncludeStep(fs: Tree, A: Path, B: Path, ks: seq<LineKind>, met: bool)
    requires ks != [] && A != B && IsFile(fs, B)
    requires !ScanKinds(ks[..|ks| - 1]).halted && ks[|ks| - 1].Include?
    requires JoinPath(Parent(A), ks[|ks| - 1].name) == B
    requires IncludesWithin(B, Kinds(fs[B].lines), {A, B})
    requires var w := ResolveLines(fs, A, ks[..|ks| - 1], {A});
      CycleWalk(fs, A, B, ks[..|ks| - 1], w, met) && w.halted == ScanKinds(ks[..|ks| - 1]).halted
    ensures CycleWalk(fs, A, B, ks, ResolveLines(fs, A, ks, {A}), true)
  {
    var n := |ks| - 1;
    var w := ResolveLines(fs, A, ks[..n], {A});
    var c := Resolve(fs, B, w.visited);
    assert ScanKinds(ks) == ScanKinds(ks[..n]);
    ResolveLinesNext(fs, A, ks, n, {A});
    assert ks[..n + 1] == ks;
    if met {
      RevisitGivesNothing(fs, B, w.visited);
    } else {
      ReadOther(fs, A, B);
    }
    CycleSplice(fs, A, B, ks[..n], w, c, met);
  }

  /** Splicing `B`'s walk into `A`'s: `B`'s own rules the first time, nothing after. */
  lemma CycleSplice(fs: Tree, A: Path, B: Path, ks: seq<LineKind>, w: Walk, c: Walk, met: bool)
    requires CycleWalk(fs, A, B, ks, w, met)
    requires c == if met then Walk([], w.visited, [], false) else Walk(OwnRules(fs, B), {A, B}, [B], false)
    ensures CycleWalk(fs, A, B, ks, Walk(w.rules + c.rules, c.visited, w.read + c.read, false), true)
  {
    assert multiset(w.rules + c.rules) == multiset(w.rules) + multiset(c.rules);
  }

  /**
   * The lines `ks` of a file `A` whose includes all name `B`, where `B`
   * includes only `A` or itself: `B` is read once, at the first include the
   * loop reaches, and its later includes add nothing.
   */
  lemma {:induction false} CycleLines(fs: Tree, A: Path, B: Path, ks: seq<LineKind>)
    requires A != B && IsFile(fs, B)
    requires IncludesWithin(A, ks, {B})
    requires IncludesWithin(B, Kinds(fs[B].lines), {A, B})
    ensures CycleWalk(fs, A, B, ks, ResolveLines(fs, A, ks, {A}), ReachesInclude(ks))
  {
    if ks != [] {
      var n := |ks| - 1;
      assert IncludesWithin(A, ks[..n], {B}) by {
        forall i | 0 <= i < n
          ensures ks[..n][i] == ks[i]
        {
        }
      }
      CycleLines(fs, A, B, ks[..n]);
      ResolveLinesHalted(fs, A, ks[..n], {A});
      if ScanKinds(ks[..n]).halted || !ks[n].Include? {
        CycleQuietStep(fs, A, B, ks, ReachesInclude(ks[..n]));
      } else {
        CycleIncludeStep(fs, A, B, ks, ReachesInclude(ks[..n]));
      }
      ReachesIncludeSnoc(ks);
      assert ks[..n] == ks[..|ks| - 1];
    }
  }

  /**
   * Two files that include each other: `A` includes only `B`, and `B` only
   * `A` or itself. Expanding `A` reads `A` and then `B`, once each, ends, and
   * gives the own rules of both, each once.
   */
  lemma IncludeCycle(fs: Tree, A: Path, B: Path)
    requires A != B && IsFile(fs, A) && IsFile(fs, B)
    requires IncludesWithin(A, Kinds(fs[A].lines), {B}) && ReachesInclude(Kinds(fs[A].lines))
    requires IncludesWithin(B, Kinds(fs[B].lines), {A, B})
    ensures Resolve(fs, A, {}).read == [A, B] && Resolve(fs, A, {}).visited == {A, B}
    ensures multiset(Resolve(fs, A, {}).rules) == multiset(OwnRules(fs, A)) + multiset(OwnRules(fs, B))
  {
    var ks := Kinds(fs[A].lines);
    assert {} + {A} == {A};
    ResolveFile(fs, A, {});
    CycleLines(fs, A, B, ks);
    CycleClosed(fs, A, B, ks, ResolveLines(fs, A, ks, {A}));
  }

  /** The expansion of a file not yet processed: the file is read first, then its lines are expanded. */
  lemma ResolveFile(fs: Tree, p: Path, V: set<Path>)
    requires p !in V && IsFile(fs, p)
    ensures var w := ResolveLines(fs, p, Kinds(fs[p].lines), V + {p});
      Resolve(fs, p, V) == Walk(w.rules, w.visited, [p] + w.read, false)
  {
  }

  /** The end of `IncludeCycle`: `A` read before `B`, and the own rules of both. */
  lemma CycleClosed(fs: Tree, A: Path, B: Path, ks: seq<LineKind>, w: Walk)
    requires IsFile(fs, A) && ks == Kinds(fs[A].lines) && CycleWalk(fs, A, B, ks, w, true)
    ensures [A] + w.read == [A, B] && w.visited == {A, B}
    ensures multiset(w.rules) == multiset(OwnRules(fs, A)) + multiset(OwnRules(fs, B))
  {
  }

  /** A file without include lines gives what `load_domains_from_file` gives, and reads no other file. */
  lemma {:induction false} IncludeFreeLines(fs: Tree, file: Path, ks: seq<LineKind>, V: set<Path>)
    requires forall i :: 0 <= i < |ks| ==> !ks[i].Include?
    ensures ResolveLines(fs, file, ks, V) == Walk(ScanKinds(ks).rules, V, [], ScanKinds(ks).halted)
  {
    if ks != [] {
      IncludeFreeLines(fs, file, ks[..|ks| - 1], V);
    }
  }

  /** A file reached again, through a cycle or a second include, contributes nothing and changes nothing. */
  lemma RevisitGivesNothing(fs: Tree, p: Path, V: set<Path>)
    requires p in V
    ensures Resolve(fs, p, V) == Walk([], V, [], false)
  {
  }

  /**
   * An include of a missing path: the path is still marked processed, it
   * contributes nothing, and the including file goes on with its next line.
   */
  lemma MissingInclude(fs: Tree, file: Path, ks: seq<LineKind>, name: string, V: set<Path>)
    requires !ResolveLines(fs, file, ks, V).halted
    requires JoinPath(Parent(file), name) !in fs
    ensures var w := ResolveLines(fs, file, ks, V);
      ResolveLines(fs, file, ks + [Include(name)], V)
        == Walk(w.rules, w.visited + {JoinPath(Parent(file), name)}, w.read, false)
  {
    assert (ks + [Include(name)])[..|ks|] == ks;
  }
}
