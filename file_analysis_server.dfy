/** The pure logic of the file-analysis server: the allow-list of root
    directories read from MCP_FILE_ROOTS, the path-confinement gate
    `safe_path` that every tool and resource calls before it touches the
    filesystem, the listing of matched file names, and the choice of size unit.
    The environment variable, the working directory and HOME are parameters. */
module FileAnalysisServer {
  import opened Wrappers
  import opened Strings
  import opened PosixPath

  /** The `ValueError` that `safe_path` raises; its message names the requested
      path as given and the configured roots in their configured order. */
  datatype PathError = OutsideRoots(path: string, roots: seq<string>)

  // ---------------------------------------------------------------------------
  // The allow-list

  /** The separator between roots in MCP_FILE_ROOTS. */
  const RootSep: char := ':'

  /** `~/Documents` and `~/Downloads`, expanded against `home`. */
  function DefaultRoots(home: string): seq<string>
  {
    [ExpandUser("~/Documents", home), ExpandUser("~/Downloads", home)]
  }

  /** SAFE_ROOTS: the value of MCP_FILE_ROOTS (`None` when it is not set), or
      the defaults joined with `:`, split on `:`. */
  function SafeRoots(env: Option<string>, home: string): seq<string>
  {
    Split(env.GetOr(Join(DefaultRoots(home), RootSep)), RootSep)
  }

  /** `~/d` expands to HOME without trailing separators, then `/d`. */
  lemma ExpandHomeChild(d: string, home: string)
    ensures ExpandUser("~/" + d, home) == RStrip(home, Sep) + "/" + d
  {
    var p := "~/" + d;
    assert p[..1] == "~" && p[1] == Sep;
    assert p[1..] == "/" + d;
    ExpandUserHomeForm(p, home);
  }

  lemma DocumentsExpanded(home: string)
    ensures ExpandUser("~/Documents", home) == RStrip(home, Sep) + "/Documents"
  {
    assert "~/Documents" == "~/" + "Documents";
    ExpandHomeChild("Documents", home);
  }

  lemma DownloadsExpanded(home: string)
    ensures ExpandUser("~/Downloads", home) == RStrip(home, Sep) + "/Downloads"
  {
    assert "~/Downloads" == "~/" + "Downloads";
    ExpandHomeChild("Downloads", home);
  }

  /** The defaults are HOME without trailing separators, followed by
      `/Documents` and by `/Downloads`. */
  lemma DefaultRootsExpanded(home: string)
    ensures DefaultRoots(home) == [RStrip(home, Sep) + "/Documents", RStrip(home, Sep) + "/Downloads"]
  {
    DocumentsExpanded(home);
    DownloadsExpanded(home);
  }

  /** The default directory names hold no `:` (separate steps, so the lemma
      below reasons about one text at a time). */
  lemma NoRootSepInDocuments(h: string)
    requires RootSep !in h
    ensures RootSep !in h + "/Documents"
  {
  }

  lemma NoRootSepInDownloads(h: string)
    requires RootSep !in h
    ensures RootSep !in h + "/Downloads"
  {
  }

  /** With MCP_FILE_ROOTS unset, the roots are the two defaults, provided HOME
      holds no `:` (otherwise the split would cut it apart). */
  lemma SafeRootsDefault(home: string)
    requires RootSep !in home
    ensures SafeRoots(None, home) == DefaultRoots(home)
    ensures SafeRoots(None, home) == [RStrip(home, Sep) + "/Documents", RStrip(home, Sep) + "/Downloads"]
  {
    var h := RStrip(home, Sep);
    var docs, downloads := h + "/Documents", h + "/Downloads";
    DefaultRootsExpanded(home);
    RStripKeepsAbsent(home, Sep, RootSep);
    NoRootSepInDocuments(h);
    NoRootSepInDownloads(h);
    SplitJoinPair(docs, downloads, RootSep);
    assert SafeRoots(None, home) == Split(Join([docs, downloads], RootSep), RootSep);
  }

  /** A configured value is cut at every `:`: no root holds a `:` and joining
      the roots with `:` gives the value back. An empty value, or `::` inside
      one, gives an empty root. */
  lemma SafeRootsFromValue(v: string, home: string)
    ensures var roots := SafeRoots(Some(v), home);
      |roots| >= 1 && Join(roots, RootSep) == v &&
      forall i :: 0 <= i < |roots| ==> RootSep !in roots[i]
    ensures v == "" ==> SafeRoots(Some(v), home) == [""]
  {
    JoinSplit(v, RootSep);
  }

  /** A doubled `:` produces an empty entry right after the text before it. */
  lemma DoubledSepGivesEmptyRoot(a: string, b: string, home: string)
    requires RootSep !in a
    ensures var roots := SafeRoots(Some(a + [RootSep, RootSep] + b), home);
      |roots| >= 2 && roots[0] == a && roots[1] == ""
  {
    assert a + [RootSep, RootSep] + b == a + [RootSep] + ([RootSep] + b);
    SplitAtSep(a, [RootSep] + b, RootSep);
    SplitLeadingSep(b, RootSep);
  }

  // ---------------------------------------------------------------------------
  // The gate

  /** `os.path.abspath(os.path.expanduser(p))`, the form in which both the
      requested path and every root are compared. */
  function ResolvedPath(p: string, cwd: string, home: string): string
  {
    AbsPath(ExpandUser(p, home), cwd)
  }

  /** Some root, resolved, is a plain string prefix of `absPath` (the
      `startswith` test, with no separator boundary). */
  predicate Admitted(absPath: string, roots: seq<string>, cwd: string, home: string)
  {
    exists root :: root in roots && ResolvedPath(root, cwd, home) <= absPath
  }

  /** What `safe_path` returns or raises, as a value. */
  function Confine(path: string, roots: seq<string>, cwd: string, home: string): Result<string, PathError>
  {
    var absPath := ResolvedPath(path, cwd, home);
    if Admitted(absPath, roots, cwd, home) then Ok(absPath) else Err(OutsideRoots(path, roots))
  }

  /** `safe_path`: try the roots in order and return the resolved path at the
      first root that is a prefix of it; fail naming the path and all roots
      when none is. */
  method SafePath(path: string, roots: seq<string>, cwd: string, home: string)
    returns (r: Result<string, PathError>)
    ensures r.Ok? <==> exists root :: root in roots && ResolvedPath(root, cwd, home) <= ResolvedPath(path, cwd, home)
    ensures r.Ok? ==> r.value == ResolvedPath(path, cwd, home)
    ensures r.Err? ==> r.error == OutsideRoots(path, roots)
    ensures r == Confine(path, roots, cwd, home)
  {
    var absPath := ResolvedPath(path, cwd, home);
    for i := 0 to |roots|
      invariant !Admitted(absPath, roots[..i], cwd, home)
    {
      var rootPath := ResolvedPath(roots[i], cwd, home);
      if rootPath <= absPath {
        assert roots[i] in roots;
        return Ok(absPath);
      }
      AdmittedExtend(absPath, roots, i, cwd, home);
    }
    assert roots[..|roots|] == roots;
    return Err(OutsideRoots(path, roots));
  }

  /** One more root that is not a prefix leaves the decision as it was. */
  lemma AdmittedExtend(absPath: string, roots: seq<string>, i: nat, cwd: string, home: string)
    requires i < |roots|
    requires !Admitted(absPath, roots[..i], cwd, home)
    requires !(ResolvedPath(roots[i], cwd, home) <= absPath)
    ensures !Admitted(absPath, roots[..i + 1], cwd, home)
  {
    assert roots[..i + 1] == roots[..i] + [roots[i]];
  }

  /** Resolving is idempotent and yields a canonical absolute path: resolving
      what came out of it, for any HOME, gives it back. */
  lemma ResolvedPathCanonical(p: string, cwd: string, home: string, home': string)
    requires IsAbs(cwd)
    ensures IsCanonical(ResolvedPath(p, cwd, home))
    ensures ResolvedPath(ResolvedPath(p, cwd, home), cwd, home') == ResolvedPath(p, cwd, home)
  {
    var o := ResolvedPath(p, cwd, home);
    AbsPathCanonical(ExpandUser(p, home), cwd);
    AbsPathOfCanonical(o, cwd);
  }

  /** An accepted path is canonical (absolute, with no `.` or `..` segment and
      no empty segment apart from a start of exactly two slashes), is its own
      resolved form, and starts with some resolved root. */
  lemma ConfinedPathShape(path: string, roots: seq<string>, cwd: string, home: string)
    requires IsAbs(cwd)
    ensures var r := Confine(path, roots, cwd, home);
      r.Ok? ==>
        IsCanonical(r.value) && ResolvedPath(r.value, cwd, home) == r.value &&
        exists root :: root in roots && ResolvedPath(root, cwd, home) <= r.value
  {
    ResolvedPathCanonical(path, cwd, home, home);
  }

  /** The gate is idempotent: a path it accepted is accepted again, unchanged. */
  lemma ConfineIdempotent(path: string, roots: seq<string>, cwd: string, home: string)
    requires IsAbs(cwd)
    requires Confine(path, roots, cwd, home).Ok?
    ensures Confine(Confine(path, roots, cwd, home).value, roots, cwd, home) == Confine(path, roots, cwd, home)
  {
    ResolvedPathCanonical(path, cwd, home, home);
  }

  /** Only the set of roots matters to the decision and to the returned path:
      reordering or repeating roots changes neither (only the error message,
      which lists the roots as configured). */
  lemma RootOrderIrrelevant(path: string, roots1: seq<string>, roots2: seq<string>, cwd: string, home: string)
    requires forall root :: root in roots1 <==> root in roots2
    ensures Confine(path, roots1, cwd, home).Ok? == Confine(path, roots2, cwd, home).Ok?
    ensures Confine(path, roots1, cwd, home).Ok? ==>
      Confine(path, roots1, cwd, home).value == Confine(path, roots2, cwd, home).value
  {
  }

  /** A path that resolves to the same place as a root is accepted. */
  lemma RootItselfAccepted(path: string, root: string, roots: seq<string>, cwd: string, home: string)
    requires root in roots
    requires ResolvedPath(root, cwd, home) == ResolvedPath(path, cwd, home)
    ensures Confine(path, roots, cwd, home) == Ok(ResolvedPath(path, cwd, home))
  {
  }

  /** A canonical path is accepted as soon as some resolved root is a string
      prefix of it, whether or not a separator follows that prefix. */
  lemma PrefixSuffices(p: string, root: string, roots: seq<string>, cwd: string, home: string)
    requires IsCanonical(p) && root in roots
    requires ResolvedPath(root, cwd, home) <= p
    ensures Confine(p, roots, cwd, home) == Ok(p)
  {
    NormPathOfCanonical(p);
    assert !IsHomeForm(p);
  }

  /** An empty root (an empty MCP_FILE_ROOTS, or `::` in it) stands for the
      working directory. */
  lemma EmptyRootIsWorkingDirectory(cwd: string, home: string)
    ensures ResolvedPath("", cwd, home) == NormPath(cwd)
  {
    AbsPathOfEmpty(cwd);
  }

  /** The root `/` admits every path; so does an empty root when the server
      runs in `/`. */
  lemma RootDirectoryAdmitsAll(path: string, roots: seq<string>, cwd: string, home: string)
    requires IsAbs(cwd)
    requires "/" in roots || (cwd == "/" && "" in roots)
    ensures Confine(path, roots, cwd, home).Ok?
  {
    var slashParts := Split("/", Sep);
    SplitLeadingSep("", Sep);
    assert slashParts == [[], []];
    assert slashParts[..1] == [[]];
    assert LeadingSlashes("/") == 1;
    assert Collapse(1, [], slashParts) == [];
    assert NormPath("/") == "/";
    EmptyRootIsWorkingDirectory(cwd, home);
    assert ResolvedPath("/", cwd, home) == "/";
    ResolvedPathCanonical(path, cwd, home, home);
    if "/" in roots {
      assert ResolvedPath("/", cwd, home) <= ResolvedPath(path, cwd, home);
    } else {
      assert ResolvedPath("", cwd, home) <= ResolvedPath(path, cwd, home);
    }
  }

  // ---------------------------------------------------------------------------
  // The boundary the bare prefix test does not draw

  /** Descent in the directory tree: `p` is `root` itself or lies below it.
      Below a root that already ends in a separator (`/`, or `//`) is every
      path that starts with the root's text. */
  predicate DescendsFrom(root: string, p: string)
  {
    p == root || root + [Sep] <= p || (root != [] && root[|root| - 1] == Sep && root <= p)
  }

  /** Every path that descends from a root passes the prefix test, so the
      test admits at least the intended paths. */
  lemma DescendantAdmitted(p: string, root: string, roots: seq<string>, cwd: string, home: string)
    requires IsCanonical(p) && root in roots
    requires DescendsFrom(ResolvedPath(root, cwd, home), p)
    ensures Confine(p, roots, cwd, home) == Ok(p)
  {
    var rp := ResolvedPath(root, cwd, home);
    if p != rp && rp + [Sep] <= p {
      assert rp == (rp + [Sep])[..|rp|];
      assert rp <= p;
    }
    PrefixSuffices(p, root, roots, cwd, home);
  }

  /** The absolute path with the given segments. */
  function PathOf(segs: seq<string>): string
  {
    [Sep] + Join(segs, Sep)
  }

  /** An absolute path made of names is canonical, and so is its own resolved form. */
  lemma NamesCanonical(names: seq<string>, cwd: string, home: string)
    requires |names| >= 1 && AllNames(names)
    ensures IsCanonical(PathOf(names))
    ensures ResolvedPath(PathOf(names), cwd, home) == PathOf(names)
  {
    var o := PathOf(names);
    JoinStartsWithFirst(names, Sep);
    assert o[1] == names[0][0];
    assert LeadingSlashes(o) == 1;
    assert o[1..] == Join(names, Sep);
    SplitJoin(names, Sep);
    NormPathOfCanonical(o);
    assert !IsHomeForm(o);
  }

  lemma ExampleRootText()
    ensures "/home/alice/Documents" == PathOf(["home", "alice", "Documents"])
  {
    Join3("home", "alice", "Documents", Sep);
  }

  lemma ExampleRootResolved(cwd: string, home: string)
    ensures ResolvedPath("/home/alice/Documents", cwd, home) == "/home/alice/Documents"
  {
    ExampleRootText();
    NamesCanonical(["home", "alice", "Documents"], cwd, home);
  }

  lemma ExampleSiblingText()
    ensures "/home/alice/Documents-evil/x" == PathOf(["home", "alice", "Documents-evil", "x"])
  {
    Join4("home", "alice", "Documents-evil", "x", Sep);
  }

  lemma ExampleSiblingResolved(cwd: string, home: string)
    ensures ResolvedPath("/home/alice/Documents-evil/x", cwd, home) == "/home/alice/Documents-evil/x"
  {
    ExampleSiblingText();
    NamesCanonical(["home", "alice", "Documents-evil", "x"], cwd, home);
  }

  lemma ExampleClimbText()
    ensures Join(["..", "..", "etc", "passwd"], Sep) == "../../etc/passwd"
  {
    Join4("..", "..", "etc", "passwd", Sep);
  }

  /** Appending segments to a path of segments puts one separator between them. */
  lemma PathOfAppend(xs: seq<string>, ys: seq<string>)
    requires |xs| >= 1 && |ys| >= 1
    ensures PathOf(xs + ys) == PathOf(xs) + [Sep] + Join(ys, Sep)
  {
    var a, b := Join(xs, Sep), Join(ys, Sep);
    JoinTail(xs, ys, Sep);
    SeqAssoc([Sep], a + [Sep], b);
    SeqAssoc([Sep], a, [Sep]);
  }

  /** The text fact on its own, so that the lemma below does not combine it
      with the joins. */
  lemma ExampleTraversalConcat()
    ensures "/home/alice/Documents/../../etc/passwd" == "/home/alice/Documents" + [Sep] + "../../etc/passwd"
  {
  }

  lemma ExampleTraversalText()
    ensures "/home/alice/Documents/../../etc/passwd"
      == PathOf(["home", "alice", "Documents"] + ["..", "..", "etc", "passwd"])
  {
    PathOfAppend(["home", "alice", "Documents"], ["..", "..", "etc", "passwd"]);
    ExampleClimbText();
    ExampleRootText();
    ExampleTraversalConcat();
  }

  lemma ExampleEscapeText()
    ensures "/home/etc/passwd" == PathOf(["home", "etc", "passwd"])
  {
    Join3("home", "etc", "passwd", Sep);
  }

  lemma ExampleSiblingPrefix()
    ensures "/home/alice/Documents" <= "/home/alice/Documents-evil/x"
  {
    assert "/home/alice/Documents-evil/x" == "/home/alice/Documents" + "-evil/x";
  }

  /** A sibling directory that shares the root's name as a prefix is admitted:
      with the only root `/home/alice/Documents`, the request
      `/home/alice/Documents-evil/x` is accepted. */
  lemma SiblingAdmitted(cwd: string, home: string)
    ensures Confine("/home/alice/Documents-evil/x", ["/home/alice/Documents"], cwd, home)
      == Ok("/home/alice/Documents-evil/x")
  {
    ExampleRootResolved(cwd, home);
    ExampleSiblingResolved(cwd, home);
    ExampleSiblingPrefix();
    assert "/home/alice/Documents" in ["/home/alice/Documents"];
  }

  lemma ExampleSiblingNotBelow()
    ensures "/home/alice/Documents-evil/x" != "/home/alice/Documents"
    ensures !("/home/alice/Documents" + [Sep] <= "/home/alice/Documents-evil/x")
    ensures var root := "/home/alice/Documents"; root[|root| - 1] != Sep
  {
    assert "/home/alice/Documents-evil/x"[21] == '-';
  }

  /** The admitted sibling does not descend from the root: the root does not
      end in a separator, and the character after the root's text is `-`, not
      a separator. */
  lemma SiblingNotDescendant(cwd: string, home: string)
    ensures !DescendsFrom(ResolvedPath("/home/alice/Documents", cwd, home), "/home/alice/Documents-evil/x")
  {
    ExampleRootResolved(cwd, home);
    ExampleSiblingNotBelow();
  }

  /** In an absolute path, `..` pops the last kept name. */
  lemma UpPops(kept: seq<string>)
    requires |kept| >= 1 && AllNames(kept)
    ensures Collapse(1, kept, [".."]) == kept[..|kept| - 1]
  {
    var up: seq<string> := [".."];
    assert up[..0] == [];
    assert Collapse(1, kept, up[..0]) == kept;
    assert kept[|kept| - 1] != "..";
  }

  /** Two `..` pop the last two kept names. */
  lemma TwoUpsPop(kept: seq<string>)
    requires |kept| >= 2 && AllNames(kept)
    ensures Collapse(1, kept, ["..", ".."]) == kept[..|kept| - 2]
  {
    var ups: seq<string> := ["..", ".."];
    var once := kept[..|kept| - 1];
    assert ups[..1] == [".."];
    UpPops(kept);
    assert Collapse(1, kept, ups) == Push(1, once, "..");
    assert once[|once| - 1] == kept[|kept| - 2];
    assert once[..|once| - 1] == kept[..|kept| - 2];
  }

  /** `..` segments pop names and the names after them are pushed. */
  lemma TraversalCollapse(names: seq<string>, tail: seq<string>)
    requires |names| >= 2 && AllNames(names) && AllNames(tail)
    ensures Collapse(1, [], [[]] + (names + (["..", ".."] + tail))) == names[..|names| - 2] + tail
  {
    var ups := ["..", ".."];
    var comps := names + (ups + tail);
    CollapseAfterEmpties(1, comps);
    CollapseAppend(1, [], names, ups + tail);
    CollapseNames(1, [], names);
    assert [] + names == names;
    CollapseAppend(1, names, ups, tail);
    TwoUpsPop(names);
    CollapseNames(1, names[..|names| - 2], tail);
  }

  /** Normalising an absolute path of names followed by two `..` and more
      names drops the last two names. */
  lemma TwoUpsResolved(names: seq<string>, tail: seq<string>, cwd: string, home: string)
    requires |names| >= 2 && |tail| >= 1 && AllNames(names) && AllNames(tail)
    ensures ResolvedPath(PathOf(names + (["..", ".."] + tail)), cwd, home) == PathOf(names[..|names| - 2] + tail)
  {
    var comps := names + (["..", ".."] + tail);
    var p := PathOf(comps);
    assert forall i :: 0 <= i < |comps| ==> Sep !in comps[i];
    SplitLeadingSep(Join(comps, Sep), Sep);
    SplitJoin(comps, Sep);
    TraversalCollapse(names, tail);
    JoinStartsWithFirst(comps, Sep);
    assert p[1] == names[0][0];
    assert LeadingSlashes(p) == 1;
    assert !IsHomeForm(p);
  }

  /** Normalising happens before the prefix test, so `..` cannot climb out:
      with the only root `/home/alice/Documents`, the request
      `/home/alice/Documents/../../etc/passwd` resolves to `/home/etc/passwd`
      and is refused. */
  lemma TraversalRejected(cwd: string, home: string)
    ensures ResolvedPath("/home/alice/Documents/../../etc/passwd", cwd, home) == "/home/etc/passwd"
    ensures Confine("/home/alice/Documents/../../etc/passwd", ["/home/alice/Documents"], cwd, home)
      == Err(OutsideRoots("/home/alice/Documents/../../etc/passwd", ["/home/alice/Documents"]))
  {
    TraversalResolved(cwd, home);
    ExampleRootResolved(cwd, home);
    assert |"/home/alice/Documents"| > |"/home/etc/passwd"|;
  }

  lemma TraversalResolved(cwd: string, home: string)
    ensures ResolvedPath("/home/alice/Documents/../../etc/passwd", cwd, home) == "/home/etc/passwd"
  {
    var names := ["home", "alice", "Documents"];
    ExampleTraversalText();
    ExampleEscapeText();
    assert ["..", ".."] + ["etc", "passwd"] == ["..", "..", "etc", "passwd"];
    TwoUpsResolved(names, ["etc", "passwd"], cwd, home);
    assert names[..1] + ["etc", "passwd"] == ["home", "etc", "passwd"];
  }

  // ---------------------------------------------------------------------------
  // Listing matched files

  /** The base names of the matched paths, in the order glob returned them. */
  function BaseNames(matches: seq<string>): (names: seq<string>)
    ensures |names| == |matches|
    ensures forall i :: 0 <= i < |names| ==> Sep !in names[i]
  {
    if matches == [] then [] else [Basename(matches[0])] + BaseNames(matches[1..])
  }

  /** The entries of a directory, each joined to the directory path as glob does. */
  function JoinedEntries(dir: string, entries: seq<string>): seq<string>
  {
    if entries == [] then [] else [JoinPath(dir, entries[0])] + JoinedEntries(dir, entries[1..])
  }

  /** Listing a directory's matches recovers the matched entry names. */
  lemma {:induction false} BaseNamesOfEntries(dir: string, entries: seq<string>)
    requires forall i :: 0 <= i < |entries| ==> Sep !in entries[i]
    ensures BaseNames(JoinedEntries(dir, entries)) == entries
  {
    if entries != [] {
      var js := JoinedEntries(dir, entries);
      assert js[0] == JoinPath(dir, entries[0]);
      assert js[1..] == JoinedEntries(dir, entries[1..]);
      BasenameOfJoin(dir, entries[0]);
      BaseNamesOfEntries(dir, entries[1..]);
      assert BaseNames(js) == [Basename(js[0])] + BaseNames(js[1..]);
      assert entries == [entries[0]] + entries[1..];
    }
  }

  /** The `file_list` text: one base name per line. */
  function FileList(matches: seq<string>): string
  {
    Join(BaseNames(matches), '\n')
  }

  /** The listing can be read back line by line when there is a match and no
      name holds a line break (POSIX allows one in a file name). */
  lemma FileListLines(matches: seq<string>)
    requires |matches| >= 1
    requires forall i :: 0 <= i < |matches| ==> '\n' !in Basename(matches[i])
    ensures Split(FileList(matches), '\n') == BaseNames(matches)
  {
    var names := BaseNames(matches);
    forall i | 0 <= i < |names|
      ensures '\n' !in names[i]
    {
      BaseNameAt(matches, i);
    }
    SplitJoin(names, '\n');
  }

  lemma {:induction false} BaseNameAt(matches: seq<string>, i: nat)
    requires i < |matches|
    ensures BaseNames(matches)[i] == Basename(matches[i])
  {
    if i > 0 {
      BaseNameAt(matches[1..], i - 1);
    }
  }

  // ---------------------------------------------------------------------------
  // Size units

  /** The unit `file_info` and the directory resource report a size in. */
  datatype SizeUnit = Bytes | Kilobytes | Megabytes

  /** The `if`/`elif`/`else` on the size: below 1024 bytes, below 1024 * 1024
      bytes, or more. */
  function SizeTier(size: int): (u: SizeUnit)
    ensures u == Bytes <==> size < 1024
    ensures u == Kilobytes <==> 1024 <= size < 1048576
    ensures u == Megabytes <==> 1048576 <= size
  {
    if size < 1024 then Bytes
    else if size < 1024 * 1024 then Kilobytes
    else Megabytes
  }

  function UnitRank(u: SizeUnit): nat
  {
    match u
    case Bytes => 0
    case Kilobytes => 1
    case Megabytes => 2
  }

  /** A larger size never gets a smaller unit, and in the scaled units the
      whole part of the exact quotient (`size / 1024` for KB, `size / 1048576`
      for MB, taken before the `:.2f`/`:.1f` rounding) is at least 1, and from
      1 to 1023 for KB. */
  lemma SizeTierMonotone(s1: int, s2: int)
    requires s1 <= s2
    ensures UnitRank(SizeTier(s1)) <= UnitRank(SizeTier(s2))
    ensures SizeTier(s1) == Kilobytes ==> 1 <= s1 / 1024 < 1024
    ensures SizeTier(s1) == Megabytes ==> 1 <= s1 / 1048576
  {
  }

  /** The text of a size in the bytes unit: `f"{size} bytes"`. */
  function BytesLabel(size: int): string
    requires SizeTier(size) == Bytes
  {
    IntText(size) + " bytes"
  }

  /** The bytes label is the exact decimal size followed by " bytes". */
  lemma BytesLabelExact(size: int)
    requires SizeTier(size) == Bytes
    ensures var s := BytesLabel(size); var n := s[..|s| - 6];
      |s| > 6 && s[|s| - 6..] == " bytes" &&
      ((|n| >= 1 && n[0] == '-' && AllDigits(n[1..])) || AllDigits(n)) && ParseInt(n) == size
  {
    var s := BytesLabel(size);
    assert s[..|s| - 6] == IntText(size);
    IntTextRoundTrip(size);
  }
}
