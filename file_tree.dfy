/**
 * The part of the file system the rule compiler sees: paths as their
 * components (what `pathlib.PurePath.parts` gives), compared syntactically as
 * the code never resolves them, and files as their decoded lines.
 */
module FileTree {
  import opened Text

  /** A path as its components; an absolute path starts with its root, "/" or "//". */
  type Path = seq<string>

  /**
   * A root alone. POSIX leaves the meaning of exactly two leading slashes to
   * the system, so `pathlib` keeps them as a root "//" of its own; one slash,
   * or three and more, give the root "/".
   */
  predicate IsRoot(p: Path) {
    p == ["/"] || p == ["//"]
  }

  /**
   * What a path names. Python's text reader decodes in blocks of about 8 KB,
   * and a block with an invalid byte yields none of its lines, so a file
   * whose decoding fails is the file of the lines decoded before the failing
   * block (none at all for a small file): the failure only ends the reading
   * of that file.
   */
  datatype Node = File(lines: seq<string>) | Dir

  type Tree = map<Path, Node>

  predicate IsFile(fs: Tree, p: Path) {
    p in fs && fs[p].File?
  }

  /** `path.parent`: a root and the empty relative path are their own parent. */
  function Parent(p: Path): (q: Path)
    ensures |q| <= |p|
    ensures p != [] && !IsRoot(p) ==> p == q + [p[|p| - 1]]
    ensures p == [] || IsRoot(p) ==> q == p
  {
    if p == [] || IsRoot(p) then p else p[..|p| - 1]
  }

  /** `path.name`: the last component, or "" for a root and the empty relative path. */
  function Name(p: Path): string {
    if p == [] || IsRoot(p) then "" else p[|p| - 1]
  }

  /** The pieces of a relative name that `pathlib` keeps: empty pieces and "." are dropped. */
  function Components(pieces: seq<string>): (r: seq<string>)
    ensures forall i :: 0 <= i < |r| ==> r[i] != "" && r[i] != "."
    ensures |r| <= |pieces|
  {
    if pieces == [] then []
    else if pieces[0] == "" || pieces[0] == "." then Components(pieces[1..])
    else [pieces[0]] + Components(pieces[1..])
  }

  /** The root `pathlib` gives a name: "//" for exactly two leading slashes, "/" for one or more than two, "" for none. */
  function RootOf(name: string): string {
    if StartsWith(name, "//") && !StartsWith(name, "///") then "//"
    else if StartsWith(name, "/") then "/"
    else ""
  }

  /**
   * `dir / name`: an absolute name replaces the directory by its own root, a
   * relative one is appended to it; either way only non-empty pieces other
   * than "." follow.
   */
  function JoinPath(dir: Path, name: string): (r: Path)
    ensures StartsWith(name, "/") ==> r != [] && IsRoot(r[..1])
    ensures !StartsWith(name, "/") ==> |dir| <= |r| && r[..|dir|] == dir
    ensures forall i :: (if StartsWith(name, "/") then 1 else |dir|) <= i < |r| ==> r[i] != "" && r[i] != "."
  {
    var parts := Components(Split(name, "/"));
    var root := RootOf(name);
    if root == "" then dir + parts else [root] + parts
  }

  /** A plain file name (no slash, not empty, not ".") names a child of the directory: its parent is that directory. */
  lemma JoinPlainName(dir: Path, name: string)
    requires '/' !in name && name != "" && name != "."
    ensures JoinPath(dir, name) == dir + [name]
    ensures Parent(JoinPath(dir, name)) == dir && Name(JoinPath(dir, name)) == name
  {
    SplitFree(name, '/');
    assert Split(name, "/") == [name];
    assert !StartsWith(name, "/") by {
      assert name[0] != '/';
    }
    assert RootOf(name) == "";
    assert Components([name]) == [name];
  }

  /**
   * Exactly two leading slashes keep a root of their own: `//x` and `/x` are
   * different paths, while `///x` is `/x`.
   */
  lemma DoubleSlashRoot(dir: Path, x: string)
    requires '/' !in x && x != "" && x != "."
    ensures JoinPath(dir, "//" + x) == ["//", x]
    ensures JoinPath(dir, "/" + x) == ["/", x]
    ensures JoinPath(dir, "///" + x) == ["/", x]
  {
    SplitFree(x, '/');
    assert x[0] != '/';
    SlashPiece(x);
    SlashPiece("/" + x);
    SlashPiece("//" + x);
    assert "/" + ("/" + x) == "//" + x && "/" + ("//" + x) == "///" + x;
    assert Components([x]) == [x];
    assert Components(["", x]) == [x];
    assert Components(["", "", x]) == [x];
    assert Components(["", "", "", x]) == [x];
    assert ("/" + x)[1] == x[0] && ("//" + x)[2] == x[0] && ("///" + x)[3] == x[0];
    assert Split("//" + x, "/") == ["", "", x];
    assert RootOf("//" + x) == "//";
    assert RootOf("/" + x) == "/";
    assert RootOf("///" + x) == "/";
  }

  /** A leading slash splits off as an empty piece. */
  lemma SlashPiece(t: string)
    ensures Split("/" + t, "/") == [""] + Split(t, "/")
  {
    assert ("/" + t)[..1] == "/" && ("/" + t)[1..] == t;
  }
}
