# File-analysis server: the path-confinement gate

`file_analysis_server.py` is a small MCP server. Its tools and resources read,
write, list and stat files on behalf of a calling agent. Every one of them
first passes the requested file or directory path through `safe_path`. That gate expands a
leading `~`, makes the path absolute and normalised with
`os.path.abspath(os.path.expanduser(path))`, and does the same to each
configured root. It accepts the path when it starts with some resolved root
(a plain `str.startswith`) and otherwise raises a `ValueError` that names the
path and the roots. The roots come from the `MCP_FILE_ROOTS` environment
variable, split on `:`; by default they are `~/Documents` and `~/Downloads`.

This project models that gate and the pure pieces around it, and proves what
they do:

- `wrappers.dfy` (`Wrappers`): the `Option` and `Result` values that stand for
  an unset environment variable and for the raised `ValueError`.
- `strings.dfy` (`Strings`): `str.split` and `str.join` with a one-character
  separator, `str.rstrip`, and the decimal text of an `int`, each with its
  inverse or reference reading.
- `posix_path.dfy` (`PosixPath`): the lexical `posixpath` functions the gate
  needs (`isabs`, `expanduser` for `~` and `~/…`, two-argument `join`,
  `normpath`, `abspath`, `basename`), with the working directory and HOME as
  parameters.
- `file_analysis_server.dfy` (`FileAnalysisServer`): the root list, the gate
  itself (a loop method `SafePath` proved equal to the specification function
  `Confine`), its properties, the listing of matched names and the size
  tiers.

`safe_path` reads the module-level list `SAFE_ROOTS`; in the model the list is
a parameter and `SafeRoots` computes it from the environment value. The
working directory and HOME are parameters too.

### What the prefix test admits

The docstring of `safe_path` (line 22 of `file_analysis_server.py`) promises to
"ensure a path is within allowed directories". A directory whose name merely
starts with a root's name is not within that root: `/home/alice/Documents-evil`
is a sibling of `/home/alice/Documents`, not inside it. The code does not draw
that line: line 27 is a bare `startswith`, with no separator required after
the root. The model follows the code: `Admitted` is Dafny's sequence-prefix
test. `SiblingAdmitted` proves that `/home/alice/Documents-evil/x` is accepted
under the only root `/home/alice/Documents`, and `SiblingNotDescendant` proves
that this path is neither the root nor below it. `DescendsFrom` states the
"within" relation: the root itself, the root followed by `/`, or, for a root
that already ends in `/` (the roots `/` and `//`), any path starting with the
root. `DescendantAdmitted` proves that the bare test admits every path within
a root.

The request `/home/alice/Documents/../../etc/passwd` normalises to
`/home/etc/passwd`: the two `..` climb out of `Documents` and `alice` only.
Under the only root `/home/alice/Documents` it is refused, and
`TraversalRejected` proves both the resolved form and the refusal.

## Model

| member | source | states |
|---|---|---|
| `FileAnalysisServer.DefaultRoots` | file_analysis_server.py:14 | Models `DEFAULT_ROOTS`: `~/Documents` and `~/Downloads`, each expanded against HOME; the closed form is stated by `DefaultRootsExpanded`. |
| `FileAnalysisServer.SafeRoots` | file_analysis_server.py:15 | Models `SAFE_ROOTS`: the `MCP_FILE_ROOTS` value, or the defaults joined with `:`, split on `:`; its meaning is stated by `SafeRootsDefault`, `SafeRootsFromValue` and `DoubledSepGivesEmptyRoot`. |
| `FileAnalysisServer.ResolvedPath` | file_analysis_server.py:23-26 | Models `os.path.abspath(os.path.expanduser(p))`, applied to the request at line 23 and to each root at line 26; `ResolvedPathCanonical` states that its output is canonical and a fixed point. |
| `FileAnalysisServer.Admitted` | file_analysis_server.py:27 | Models the `startswith` test against some root: some resolved root is a string prefix of the resolved path, with no separator boundary. |
| `FileAnalysisServer.Confine` | file_analysis_server.py:21-30 | The value `safe_path` returns or raises: `Ok` of the resolved path when `Admitted`, otherwise the error naming the raw path and the roots; `SafePath` is proved equal to it, and the gate lemmas below are stated about it. |
| `FileAnalysisServer.SafePath` | file_analysis_server.py:21-30 | The loop over the roots returns `Ok` exactly when some root, expanded and made absolute, is a string prefix of the expanded absolute path; on success the value is that resolved path, whichever root matched; otherwise the error names the path as given and all roots; the result equals the reference function `Confine`. |
| `FileAnalysisServer.ConfinedPathShape` | file_analysis_server.py:23-28 | With an absolute working directory, an accepted path is canonical: absolute, with no `.` or `..` segment and no empty segment apart from a start of exactly two slashes. Resolving it again leaves it unchanged, and some resolved root is a prefix of it. |
| `FileAnalysisServer.ResolvedPathCanonical` | file_analysis_server.py:23-26 | `abspath(expanduser(p))` always gives a canonical path. Resolving that output again gives it back, whatever HOME is. |
| `FileAnalysisServer.ConfineIdempotent` | file_analysis_server.py:23-28 | Passing a path the gate accepted through the gate again returns the same accepted path. |
| `FileAnalysisServer.RootOrderIrrelevant` | file_analysis_server.py:25-28 | Two root lists with the same members, in any order and with repeats, give the same decision and the same returned path. |
| `FileAnalysisServer.RootItselfAccepted` | file_analysis_server.py:25-28 | A path that resolves to the same place as a configured root is accepted, and the resolved path is returned. |
| `FileAnalysisServer.PrefixSuffices` | file_analysis_server.py:27-28 | A canonical path is accepted and returned unchanged as soon as one resolved root is a string prefix of it. |
| `FileAnalysisServer.DescendantAdmitted` | file_analysis_server.py:27 | Every canonical path that is a root or lies below it (root followed by `/`, or any extension of a root that ends in `/`) is accepted, so the bare test admits at least the intended paths. |
| `FileAnalysisServer.SiblingAdmitted` | file_analysis_server.py:27-28 | With the only root `/home/alice/Documents`, the request `/home/alice/Documents-evil/x` is accepted and returned as it is. |
| `FileAnalysisServer.SiblingNotDescendant` | file_analysis_server.py:27 | That accepted sibling is neither the root nor below it: the character after the root's text is `-`, not `/`. |
| `FileAnalysisServer.TraversalRejected` | file_analysis_server.py:23-30 | With the only root `/home/alice/Documents`, the request `/home/alice/Documents/../../etc/passwd` resolves to `/home/etc/passwd` before the prefix test, and is refused with the path and root list in the error. |
| `FileAnalysisServer.TwoUpsResolved` | file_analysis_server.py:23 | For an absolute path of two or more names, two `..` segments and one or more names, resolving drops the last two names before the `..`. |
| `FileAnalysisServer.EmptyRootIsWorkingDirectory` | file_analysis_server.py:26 | An empty root resolves to the normalised working directory. |
| `FileAnalysisServer.RootDirectoryAdmitsAll` | file_analysis_server.py:25-28 | With an absolute working directory, a root `/` admits every path. So does an empty root when the working directory is `/`. |
| `FileAnalysisServer.ExpandHomeChild` | file_analysis_server.py:14 | `~/d` expands to HOME without its trailing slashes, then `/d`. |
| `FileAnalysisServer.DefaultRootsExpanded` | file_analysis_server.py:14 | The two defaults are HOME (trailing slashes stripped) followed by `/Documents` and by `/Downloads`. |
| `FileAnalysisServer.SafeRootsDefault` | file_analysis_server.py:14-15 | With `MCP_FILE_ROOTS` unset and no `:` in HOME, joining the defaults with `:` and splitting again gives back exactly the two expanded defaults. |
| `FileAnalysisServer.SafeRootsFromValue` | file_analysis_server.py:15 | A configured value is cut at every `:`. There is at least one root, no root holds a `:`, and joining the roots with `:` gives the value back. An empty value gives the single root `""`. |
| `FileAnalysisServer.DoubledSepGivesEmptyRoot` | file_analysis_server.py:15 | A doubled `::` after a `:`-free prefix yields an empty entry right after that prefix. |
| `FileAnalysisServer.FileList` | file_analysis_server.py:106 | Models the `"\n".join` of the base names of the matches; `FileListLines` states that it splits back into those names. |
| `FileAnalysisServer.BaseNames` | file_analysis_server.py:106 | The list comprehension keeps one name per match, and no name contains `/`. |
| `FileAnalysisServer.BaseNameAt` | file_analysis_server.py:106 | The name at each position is the base name of the match at that position, so the order of the matches is kept. |
| `FileAnalysisServer.BaseNamesOfEntries` | file_analysis_server.py:101-106 | For entry names without `/` joined to a directory, as glob produces them, the base names are exactly those entry names. |
| `FileAnalysisServer.FileListLines` | file_analysis_server.py:106 | When there is at least one match and no base name holds a line break, splitting the `"\n".join` text on line breaks gives back the base names. |
| `FileAnalysisServer.SizeTier` | file_analysis_server.py:135-140 | Returns bytes exactly when the size is below 1024, KB exactly when it is from 1024 to below 1048576, and MB exactly from 1048576 on. So the tiers are disjoint and exhaustive; the directory resource uses the same thresholds at lines 197-202. |
| `FileAnalysisServer.SizeTierMonotone` | file_analysis_server.py:197-202 | A larger size never gets a smaller unit. In the KB tier the whole part of the exact quotient `size/1024` is from 1 to 1023; in the MB tier the whole part of `size/1048576` is at least 1 (both before the float rounding of the shown text). |
| `FileAnalysisServer.BytesLabel` | file_analysis_server.py:136 | Models `f"{size_bytes} bytes"` in the bytes tier; `BytesLabelExact` states its exact shape and that the number reads back. |
| `FileAnalysisServer.BytesLabelExact` | file_analysis_server.py:136 | The bytes text is the decimal size (with a `-` for a negative one), which parses back to the size, followed by exactly `" bytes"`. |
| `PosixPath.ExpandUser` | file_analysis_server.py:23 | A path that is not `~` or `~/…` is returned unchanged. Expanding a home form against an absolute HOME gives an absolute path. |
| `PosixPath.ExpandUserHomeForm` | file_analysis_server.py:14 | `~` alone with an empty or all-slash HOME falls back to `/`; every other home form gives HOME without trailing slashes followed by the text after `~`. |
| `PosixPath.JoinPath` | file_analysis_server.py:101 | An absolute second part replaces the first. A relative part joined to an absolute directory gives an absolute path. |
| `PosixPath.JoinPathRelative` | file_analysis_server.py:101 | Joining a relative part to a directory that is empty or ends in `/` gives the directory followed directly by the part. Joining it to any other directory gives the directory, one `/`, then the part. |
| `PosixPath.LeadingSlashes` | file_analysis_server.py:23 | `normpath` keeps two leading slashes exactly when the path starts with two slashes not followed by a third. It keeps one for any other absolute path and none for a relative path, and the kept slashes are the path's own first characters. |
| `PosixPath.NormPath` | file_analysis_server.py:23 | Models `os.path.normpath`: keep the leading slashes `LeadingSlashes` chooses, and run the segment loop `Collapse`, one `Push` per segment. `Push` drops empty and `.` segments. A `..` pops the name before it. At the top of an absolute path the `..` is dropped, while a relative path keeps a `..` that has nothing to pop or follows another `..` (`../..` stays `../..`). The kept segments are joined with `/`, and an empty result gives `.`; its properties are the `NormPath…` and `CanonicalIffFixedPoint` lemmas. |
| `PosixPath.AbsPath` | file_analysis_server.py:23 | Models `os.path.abspath`: a path that `IsAbs` rejects (one not starting with `/`, as `os.path.isabs` decides) is joined to the working directory, then the result is normalised; its properties are the `AbsPath…` lemmas. |
| `PosixPath.NormPathCanonical` | file_analysis_server.py:23 | Normalising an absolute path yields a canonical path. |
| `PosixPath.NormPathOfCanonical` | file_analysis_server.py:26 | A canonical path is its own normal form. |
| `PosixPath.CanonicalIffFixedPoint` | file_analysis_server.py:23 | Canonical paths are exactly the absolute paths that `normpath` leaves unchanged, in both directions. |
| `PosixPath.NormPathIdempotent` | file_analysis_server.py:23 | Normalising an absolute path twice gives the same result as normalising it once. |
| `PosixPath.NormPathTrailingSep` | file_analysis_server.py:23 | A trailing `/` after a non-empty path that does not already end in `/` does not change its normal form. |
| `PosixPath.AbsPathCanonical` | file_analysis_server.py:23 | With an absolute working directory, `abspath` of any path is canonical. |
| `PosixPath.AbsPathOfCanonical` | file_analysis_server.py:26 | `abspath` leaves a canonical path unchanged, whatever the working directory. |
| `PosixPath.AbsPathOfEmpty` | file_analysis_server.py:26 | `abspath("")` is the normalised working directory. |
| `PosixPath.Basename` | file_analysis_server.py:106 | The base name contains no `/` and is a suffix of the path. It is either the whole path or is preceded by a `/`. |
| `PosixPath.BasenameOfJoin` | file_analysis_server.py:101-106 | The base name of a directory joined with a `/`-free entry name is that entry name. |
| `Strings.Join` | file_analysis_server.py:15 | Models `":".join(DEFAULT_ROOTS)` and `"\n".join(...)` at line 106; `JoinSplit` and `SplitJoin` state that it and `Split` undo each other. |
| `Strings.Split` | file_analysis_server.py:15 | `str.split` with one separator always yields at least one part, and no part holds the separator. |
| `Strings.JoinSplit` | file_analysis_server.py:15 | Joining what a split produced gives the text back. |
| `Strings.SplitJoin` | file_analysis_server.py:15 | Splitting the join of a non-empty list of separator-free parts gives the parts back. |
| `Strings.RStrip` | file_analysis_server.py:14 | `rstrip` returns a prefix of the text that does not end in the stripped character, and everything it removed is that character. |
| `Strings.IntText` | file_analysis_server.py:136 | Models the decimal text of an `int` in an f-string: a `-` before the `NatText` of a negative number; `IntTextRoundTrip` states that it reads back. |
| `Strings.NatText` | file_analysis_server.py:136 | The decimal text of a non-negative number is non-empty, all digits, and starts with `0` only for zero itself (no leading zeros); `NatTextRoundTrip` states that it reads back. |
| `Strings.NatTextRoundTrip` | file_analysis_server.py:136 | The decimal text of a natural number reads back as that number. |
| `Strings.IntTextRoundTrip` | file_analysis_server.py:198 | The decimal text of any `int` is an optional `-` followed by digits, and it reads back as that `int`. |

## Left out

- Tool, resource and prompt registration, the server object and its run loop (lines 8-11, 33, 147, 170, 210, 227-229): these are calls into the FastMCP framework.
- File contents, writing, `makedirs`, `exists`, `isdir`, `stat`, `getsize`, `listdir` and `glob.glob` (lines 47-52, 73-76, 98-101, 126-133, 162-166, 185-196): these are filesystem I/O. `JoinedEntries` stands in for the paths glob returns for the entries of a directory, and the pattern language of glob is not modelled. The `pattern` argument of `list_files` (line 101) is never passed through `safe_path`: an absolute pattern such as `/etc/*` replaces the confined directory in `os.path.join` (the first `ensures` of `JoinPath`), and glob does not normalise a `..` in the pattern, so `list_files` can list names outside every root.
- Symbolic links: `abspath` is purely lexical, and so is the model. A link inside a root that points outside it is admitted by the code and by the model.
- `~user` expansion needs the password database. `ExpandUser` returns such a path unchanged, which Python does only when the user is unknown.
- The fallback to the password database when HOME is unset: HOME is always a given parameter.
- Windows path semantics (`ntpath`).
- The KB and MB texts use floating-point division with `:.2f` and `:.1f` (lines 138, 140, 200, 202). That rounding can show a number the integer bounds of `SizeTierMonotone` do not: a size of 1048575 bytes prints as `1024.00 KB` at line 138, and every size from 1048525 to 1048575 prints as `1024.0 KB` at line 200. The creation and modification times (lines 131-132) are clock and locale behaviour. Only the choice of tier and the exact bytes text are modelled.
- The stderr logging (lines 18, 44, 68, 94, 122, 158, 181) and the fixed prompt text of `organize_files`.
- How exceptions travel: `ValueError` is the `Err` value of `SafePath`, and the caught-exception strings of each tool are not modelled. In particular, `read_file` calls `safe_path` outside its `try` (line 45), so there the error propagates instead of being converted to text.
- The per-entry lines and icons of the directory resource (lines 190-205); only its size tier is modelled.
- The header line and the no-match message of `list_files` (lines 103-107); `FileList` models the joined names only.
