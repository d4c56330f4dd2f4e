/** The purely lexical POSIX path functions of Python's `os.path` (the
    `posixpath` module) that the server calls: `isabs`, `expanduser` for the
    `~` and `~/...` forms, `join` with two arguments, `normpath`, `abspath` and
    `basename`. The working directory and the home directory are parameters;
    nothing here looks at a filesystem, so symbolic links are not resolved,
    exactly as in `abspath`. */
module PosixPath {
  import opened Strings

  const Sep: char := '/'

  /** `os.path.isabs`: the path starts with a slash. */
  predicate IsAbs(p: string) { "/" <= p }

  /** A path segment that names a directory entry: neither empty, nor `.`,
      nor `..`, and free of separators. */
  predicate IsName(c: string) { c != "" && c != "." && c != ".." && Sep !in c }

  predicate AllNames(cs: seq<string>) { forall i :: 0 <= i < |cs| ==> IsName(cs[i]) }

  // ---------------------------------------------------------------------------
  // expanduser

  /** The forms `expanduser` resolves from the HOME variable: `~` alone, or
      `~` followed by a separator. */
  predicate IsHomeForm(p: string) { "~" <= p && (|p| == 1 || p[1] == Sep) }

  /** `os.path.expanduser` with HOME set to `home`. A home form has its `~`
      replaced by `home` without trailing separators, or becomes `/` if that
      leaves nothing. Every other path, `~user` included, is returned as it is. */
  function ExpandUser(path: string, home: string): (r: string)
    ensures !IsHomeForm(path) ==> r == path
    ensures IsHomeForm(path) && IsAbs(home) ==> IsAbs(r)
  {
    if !IsHomeForm(path) then path
    else
      var expanded := RStrip(home, Sep) + path[1..];
      if expanded == [] then "/" else expanded
  }

  /** A home form expands to HOME without its trailing separators, followed by
      what came after the `~`; only `~` alone with a HOME made of separators
      (or empty) falls back to `/`, where the expansion itself would be empty. */
  lemma ExpandUserHomeForm(path: string, home: string)
    requires IsHomeForm(path)
    ensures RStrip(home, Sep) == [] && path == "~" ==> ExpandUser(path, home) == "/"
    ensures !(RStrip(home, Sep) == [] && path == "~") ==> ExpandUser(path, home) == RStrip(home, Sep) + path[1..]
  {
    if path[1..] == [] {
      assert path == "~";
    }
  }

  // ---------------------------------------------------------------------------
  // join

  /** `os.path.join(a, b)`: an absolute `b` replaces `a`; otherwise a separator
      is put between them unless `a` is empty or already ends in one. */
  function JoinPath(a: string, b: string): (r: string)
    ensures IsAbs(b) ==> r == b
    ensures !IsAbs(b) && IsAbs(a) ==> IsAbs(r)
  {
    if IsAbs(b) then b
    else if a == [] || a[|a| - 1] == Sep then a + b
    else a + [Sep] + b
  }

  /** Joining a relative `b` puts `a` in front and `b` last, with exactly one
      separator between them unless `a` is empty or already ends in one. */
  lemma JoinPathRelative(a: string, b: string)
    requires !IsAbs(b)
    ensures (a == [] || a[|a| - 1] == Sep) ==> JoinPath(a, b) == a + b
    ensures !(a == [] || a[|a| - 1] == Sep) ==> JoinPath(a, b) == a + [Sep] + b
  {
  }

  // ---------------------------------------------------------------------------
  // normpath

  /** The leading separators `normpath` keeps: two stay two (POSIX leaves the
      meaning of exactly two to the implementation), one or three and more
      become one. */
  function LeadingSlashes(p: string): (k: nat)
    ensures k <= 2 && k <= |p|
    ensures IsAbs(p) <==> k >= 1
    ensures k == 2 <==> |p| >= 2 && p[0] == Sep && p[1] == Sep && (|p| == 2 || p[2] != Sep)
    ensures p[..k] == Slashes(k)
  {
    if "//" <= p && !("///" <= p) then 2 else if "/" <= p then 1 else 0
  }

  function Slashes(k: nat): string
    requires k <= 2
  {
    if k == 2 then "//" else if k == 1 then "/" else ""
  }

  /** One step of `normpath`'s loop over the segments: skip empty segments and
      `.`; let `..` remove the segment before it, except that a relative path
      keeps `..` that cannot be removed and an absolute path drops it at the
      top; keep every other segment. `k` is the number of leading separators. */
  function Push(k: nat, kept: seq<string>, comp: string): seq<string>
  {
    if comp == "" || comp == "." then kept
    else if comp != ".." || (k == 0 && kept == []) || (kept != [] && kept[|kept| - 1] == "..") then kept + [comp]
    else if kept != [] then kept[..|kept| - 1]
    else kept
  }

  /** `normpath`'s loop: the segments `comps` pushed onto `kept` from left to right. */
  function Collapse(k: nat, kept: seq<string>, comps: seq<string>): seq<string>
    decreases |comps|
  {
    if comps == [] then kept
    else Push(k, Collapse(k, kept, comps[..|comps| - 1]), comps[|comps| - 1])
  }

  /** `os.path.normpath`: the kept leading separators followed by the collapsed
      segments joined by separators, or `.` when that is empty. */
  function NormPath(p: string): string
  {
    if p == "" then "."
    else
      var k := LeadingSlashes(p);
      var r := Slashes(k) + Join(Collapse(k, [], Split(p, Sep)), Sep);
      if r == "" then "." else r
  }

  /** `os.path.abspath` with the working directory `cwd`: a relative path is
      joined to `cwd` first, then the result is normalised. */
  function AbsPath(p: string, cwd: string): string
  {
    NormPath(if IsAbs(p) then p else JoinPath(cwd, p))
  }

  /** The shape of a normalised absolute path: it starts with one separator, or
      with exactly two, and after them comes nothing or a separator-joined list
      of names (no empty segment, no `.`, no `..`). */
  predicate IsCanonical(o: string)
  {
    IsAbs(o) &&
    var rest := o[LeadingSlashes(o)..];
    rest == [] || AllNames(Split(rest, Sep))
  }

  // ---------------------------------------------------------------------------
  // Lemmas about normpath

  /** With a leading separator, `..` never survives and every kept segment is a name. */
  lemma {:induction false} CollapseKeepsNames(k: nat, kept: seq<string>, comps: seq<string>)
    requires k > 0 && AllNames(kept)
    requires forall i :: 0 <= i < |comps| ==> Sep !in comps[i]
    ensures AllNames(Collapse(k, kept, comps))
  {
    if comps != [] {
      CollapseKeepsNames(k, kept, comps[..|comps| - 1]);
    }
  }

  /** Names are pushed as they are. */
  lemma {:induction false} CollapseNames(k: nat, kept: seq<string>, names: seq<string>)
    requires AllNames(names)
    ensures Collapse(k, kept, names) == kept + names
  {
    if names != [] {
      var n := |names|;
      CollapseNames(k, kept, names[..n - 1]);
      assert names[..n - 1] + [names[n - 1]] == names;
    }
  }

  /** The loop over a concatenation is the loop over the second part, started
      where the first part left off. */
  lemma {:induction false} CollapseAppend(k: nat, kept: seq<string>, xs: seq<string>, ys: seq<string>)
    ensures Collapse(k, kept, xs + ys) == Collapse(k, Collapse(k, kept, xs), ys)
  {
    if ys == [] {
      assert xs + ys == xs;
    } else {
      var n := |ys|;
      assert (xs + ys)[..|xs + ys| - 1] == xs + ys[..n - 1];
      CollapseAppend(k, kept, xs, ys[..n - 1]);
    }
  }

  /** A leading empty segment changes nothing. */
  lemma CollapseAfterEmpties(k: nat, comps: seq<string>)
    ensures Collapse(k, [], [[]] + comps) == Collapse(k, [], comps)
  {
    CollapseAppend(k, [], [[]], comps);
    var e: seq<string> := [[]];
    assert e[..0] == [];
  }

  lemma JoinStartsWithFirst(parts: seq<string>, sep: char)
    requires |parts| >= 1
    ensures parts[0] <= Join(parts, sep)
  {
  }

  /** Normalising an absolute path gives a canonical path. */
  lemma NormPathCanonical(p: string)
    requires IsAbs(p)
    ensures IsCanonical(NormPath(p))
  {
    var k := LeadingSlashes(p);
    var kept := Collapse(k, [], Split(p, Sep));
    CollapseKeepsNames(k, [], Split(p, Sep));
    var j := Join(kept, Sep);
    var o := Slashes(k) + j;
    assert NormPath(p) == o;
    if kept == [] {
      assert j == [];
    } else {
      JoinStartsWithFirst(kept, Sep);
      assert o[k] == kept[0][0];
      assert LeadingSlashes(o) == k;
      assert o[k..] == j;
      SplitJoin(kept, Sep);
    }
  }

  /** A leading separator contributes an empty segment, which the loop skips. */
  lemma CollapseAfterSlash(k: nat, rest: string)
    ensures Collapse(k, [], Split([Sep] + rest, Sep)) == Collapse(k, [], Split(rest, Sep))
  {
    SplitLeadingSep(rest, Sep);
    CollapseAfterEmpties(k, Split(rest, Sep));
  }

  /** So do the one or two separators `normpath` keeps. */
  lemma CollapseAfterSlashes(k: nat, rest: string)
    requires 1 <= k <= 2
    ensures Collapse(k, [], Split(Slashes(k) + rest, Sep)) == Collapse(k, [], Split(rest, Sep))
  {
    CollapseAfterSlash(k, rest);
    if k == 2 {
      assert Slashes(k) + rest == [Sep] + ([Sep] + rest);
      CollapseAfterSlash(k, [Sep] + rest);
    }
  }

  /** So only the text after a canonical path's leading separators matters. */
  lemma CollapseOfCanonical(o: string)
    requires IsCanonical(o)
    ensures var k := LeadingSlashes(o);
      Collapse(k, [], Split(o, Sep)) == Collapse(k, [], Split(o[k..], Sep))
  {
    var k := LeadingSlashes(o);
    assert o == Slashes(k) + o[k..];
    CollapseAfterSlashes(k, o[k..]);
  }

  /** Joining the segments a canonical path keeps gives back its text after
      the leading separators. */
  lemma JoinOfCanonical(o: string)
    requires IsCanonical(o)
    ensures var k := LeadingSlashes(o);
      Join(Collapse(k, [], Split(o, Sep)), Sep) == o[k..]
  {
    var k := LeadingSlashes(o);
    var rest := o[k..];
    var parts := Split(rest, Sep);
    CollapseOfCanonical(o);
    if rest == [] {
      assert parts == [[]];
      assert Collapse(k, [], parts) == [];
    } else {
      CollapseNames(k, [], parts);
      assert [] + parts == parts;
      JoinSplit(rest, Sep);
    }
  }

  /** A canonical path is its own normal form. */
  lemma NormPathOfCanonical(o: string)
    requires IsCanonical(o)
    ensures NormPath(o) == o
  {
    var k := LeadingSlashes(o);
    JoinOfCanonical(o);
    assert o == Slashes(k) + o[k..];
  }

  /** Canonical paths are exactly the absolute paths that normalisation leaves alone. */
  lemma CanonicalIffFixedPoint(o: string)
    ensures IsCanonical(o) <==> IsAbs(o) && NormPath(o) == o
  {
    if IsCanonical(o) {
      NormPathOfCanonical(o);
    }
    if IsAbs(o) && NormPath(o) == o {
      NormPathCanonical(o);
    }
  }

  /** Normalising an absolute path twice is normalising it once. */
  lemma NormPathIdempotent(p: string)
    requires IsAbs(p)
    ensures NormPath(NormPath(p)) == NormPath(p)
  {
    NormPathCanonical(p);
    NormPathOfCanonical(NormPath(p));
  }

  /** A trailing separator after a non-empty path does not change its normal form. */
  lemma NormPathTrailingSep(p: string)
    requires p != [] && p[|p| - 1] != Sep
    ensures NormPath(p + [Sep]) == NormPath(p)
  {
    var q := p + [Sep];
    assert LeadingSlashes(q) == LeadingSlashes(p) by {
      if |p| >= 3 {
        assert q[..3] == p[..3];
      } else if |p| == 2 {
        assert q[1] == p[1];
      }
    }
    var k := LeadingSlashes(p);
    SplitTrailingSep(p, Sep);
    var parts := Split(p, Sep);
    assert (parts + [[]])[..|parts + [[]]| - 1] == parts;
    assert Collapse(k, [], Split(q, Sep)) == Collapse(k, [], parts);
  }

  // ---------------------------------------------------------------------------
  // Lemmas about abspath

  /** With an absolute working directory, `abspath` always yields a canonical path. */
  lemma AbsPathCanonical(p: string, cwd: string)
    requires IsAbs(cwd)
    ensures IsCanonical(AbsPath(p, cwd))
  {
    NormPathCanonical(if IsAbs(p) then p else JoinPath(cwd, p));
  }

  /** `abspath` leaves a canonical path alone, whatever the working directory. */
  lemma AbsPathOfCanonical(o: string, cwd: string)
    requires IsCanonical(o)
    ensures AbsPath(o, cwd) == o
  {
    NormPathOfCanonical(o);
  }

  /** The empty path names the working directory. */
  lemma AbsPathOfEmpty(cwd: string)
    ensures AbsPath("", cwd) == NormPath(cwd)
  {
    if cwd != [] && cwd[|cwd| - 1] != Sep {
      assert JoinPath(cwd, "") == cwd + [Sep];
      NormPathTrailingSep(cwd);
    } else {
      assert JoinPath(cwd, "") == cwd;
    }
  }

  // ---------------------------------------------------------------------------
  // basename

  /** The position just after the last separator, or 0 if there is none. */
  function LastSepEnd(p: string): (i: nat)
    ensures i <= |p|
    ensures i == 0 || p[i - 1] == Sep
    ensures Sep !in p[i..]
  {
    if p == [] then 0
    else if p[|p| - 1] == Sep then |p|
    else
      var i := LastSepEnd(p[..|p| - 1]);
      assert p[i..] == p[..|p| - 1][i..] + [p[|p| - 1]];
      i
  }

  /** `os.path.basename`: the longest suffix without a separator. */
  function Basename(p: string): (r: string)
    ensures Sep !in r
    ensures |r| <= |p| && p[|p| - |r|..] == r
    ensures |r| == |p| || p[|p| - |r| - 1] == Sep
  {
    p[LastSepEnd(p)..]
  }

  /** After a separator (or at the start), a text without separators is the
      last component. */
  lemma {:induction false} LastSepEndOfTail(x: string, name: string)
    requires x == [] || x[|x| - 1] == Sep
    requires Sep !in name
    ensures LastSepEnd(x + name) == |x|
  {
    if name == [] {
      assert x + name == x;
    } else {
      var q := x + name;
      var init := name[..|name| - 1];
      assert q[|q| - 1] == name[|name| - 1];
      assert name[|name| - 1] in name;
      assert q[..|q| - 1] == x + init;
      LastSepEndOfTail(x, init);
    }
  }

  /** The base name of a directory joined with an entry name is the entry name. */
  lemma BasenameOfJoin(dir: string, name: string)
    requires Sep !in name
    ensures Basename(JoinPath(dir, name)) == name
  {
    var q := JoinPath(dir, name);
    assert !IsAbs(name) by {
      if name != [] {
        assert name[0] in name;
      }
    }
    JoinPathRelative(dir, name);
    var x := if dir == [] || dir[|dir| - 1] == Sep then dir else dir + [Sep];
    assert q == x + name;
    LastSepEndOfTail(x, name);
    assert q[|x|..] == name;
  }
}
