# IDesignSpec comparison: a Dafny model of `comp.py`

`comp.py` compares two trees of generated HTML register documentation, a
*golden* tree and a *target* tree. Each document is read into a `Table`: the
rows of the last `<table>` in the file, without the header row, with five text
columns (S.No., Names, Size, Address, Description) and a `Link` column that
points to a child document. Two tables are equal when they agree on the five
text columns; links are ignored. `dfs` walks both trees in lockstep from their
roots with an explicit stack of (golden path, target path) pairs. It parses
every fresh pair, compares the two tables and pushes their children paired by
position. In fast mode (`'fast'` or `'f'`) it stops at the first difference;
in any other mode it collects every differing pair.

The model has five modules:

- `Results` (results.dfy): `Option` and `Result`.
- `Text` (text.dfy): Python's `str.strip()` with no argument, over the
  characters for which `str.isspace()` holds, and the prefix
  `href.split('.htm')[0]`.
- `PosixPath` (posix_path.dfy): `os.path.dirname` and `os.path.join` as POSIX
  `posixpath` defines them.
- `Tables` (tables.dfy): rows, tables, `__eq__`/`__ne__`, `paths()` and the
  construction of a table from a file (`Table.__init__`). The HTML parser is
  abstracted: a `FileSystem` maps every existing file to its `<table>`
  elements, each a sequence of `<tr>` rows, each a sequence of `<td>` cells
  that carry their text and their first `<a>` anchor. `Parse` is the
  constructor as a function; `ExtractData` and `ParseTable` are its loop as a
  method, proved equal to it.
- `Compare` and `CompareProperties` (compare.dfy): `dfs`. `Walk` is the loop
  as a function over the loop's variables (stack, visited set, `same`,
  `diff`); it also returns the pairs it took off the stack and parsed, in
  order, so that the lemmas can talk about them. The methods `Dfs` and
  `Explore` are the loop itself; they are proved to return the outcome
  `DfsRun` returns and to parse, in order, the pairs it lists (a ghost
  out-parameter records them). The lemmas about the
  walk are stated over a `Library` (each path with the table or error that
  parsing it gives); `LibraryOf` builds it from a file system and
  `LoadIsParse` connects the two.

Three behaviours of the code are kept as written:

- The two root paths are never added to the visited set, so a child link back
  to a root is parsed once more.
- A root mismatch reports the flat list `[t1.id, t2.id]` (two `Doc` entries);
  a child mismatch appends the pair `[t1_child.id, t2_child.id]` (one
  `DocPair` entry).
- A parse error inside `dfs` is not caught: it leaves `dfs` as the `Raised`
  outcome, never as a report with `err` set.

## Model

| member | source | states |
|---|---|---|
| Tables.EqualIff | comp.py:96-103 | two tables are equal exactly when they have the same number of rows and each row agrees with the row at the same position on S.No., Names, Size, Address and Description |
| Tables.LinksIgnored | comp.py:100-103 | tables whose rows differ only in the `Link` column compare equal |
| Tables.EqualityLaws | comp.py:96-106 | `==` is reflexive, symmetric and transitive, and `!=` is exactly its negation |
| Text.StripSlice | comp.py:72-76 | `strip()` returns the slice of the text between its leading and trailing whitespace; what it removes is whitespace and the result neither starts nor ends with whitespace |
| Text.StripIdempotent | comp.py:72-76 | stripping a stripped text changes nothing |
| Text.FirstHtmSpec | comp.py:70 | the cut point of `split('.htm')[0]` is the first occurrence of `.htm`, or the end of the href when there is none |
| Tables.LinkTextSpec | comp.py:69-70 | a Names cell without an anchor gives the link `''`; an anchor without `href` raises; otherwise the link is the href up to its first `.htm`, followed by `.htm` |
| PosixPath.DirnameSpec | comp.py:51 | the folder of a path is a prefix of it that ends at or before its last `/`: the part before the last `/` with trailing slashes removed, or that whole part when it is all slashes; it is empty exactly when the path has no `/` |
| PosixPath.JoinSpec | comp.py:77 | joining a folder and a link gives the link when it is absolute, and otherwise the folder, one `/` when the folder does not already end in one, and the link |
| Tables.KeptSpec | comp.py:66-68 | every kept body row has five cells and every five-cell body row is kept |
| Tables.KeptFilters | comp.py:66-68 | keeping rows works row by row and in order: a single row is kept exactly when it has five cells, and the rows kept from two consecutive runs of rows are those of the first run followed by those of the second |
| Tables.ExtractRowsFails | comp.py:66-78 | extracting the rows fails exactly when some five-cell row has an anchor without `href`; rows of other widths are skipped |
| Tables.ExtractRowsContents | comp.py:63-78 | the k-th extracted row holds the stripped texts of the k-th five-cell body row and its link text joined to the file's folder |
| Tables.Parse | comp.py:48-60 | a missing file raises `FileNotFound`, a file without tables `NoTablesFound`, and a parsed table is named by its own path |
| Tables.ParsedPaths | comp.py:63-94 | `paths()` of a parsed table gives one link per five-cell body row of the last table, in row order, each the row's link text joined to the file's folder |
| Tables.ExtractData | comp.py:64-78 | the row loop returns exactly the rows (or the error) the extraction function describes |
| Tables.ParseTable | comp.py:44-84 | constructing a table from a file returns exactly `Parse` of that file |
| Compare.ZipSpec | comp.py:147 | the pairs pushed for two tables are their links paired by position, as many as the shorter list has |
| Compare.LoadIsParse | comp.py:165-166 | loading a path from the library of a file system is parsing that file, and the table carries its path as its name |
| Compare.Dfs | comp.py:141-175 | the loop returns exactly the outcome of the walk and parses exactly the pairs the walk parses, in order; a root mismatch returns `same = false` with the flat diff of the two root names and parses nothing |
| Compare.Explore | comp.py:147-175 | the stack loop, started from the zipped children of the roots with nothing visited, returns the outcome of the walk from that state and parses the same pairs in the same order |
| CompareProperties.WalkSameIffNoDiff | comp.py:142-175 | along the walk `same` stays true exactly while `diff` is empty, and `err` stays false |
| CompareProperties.WalkVisitsOnce | comp.py:159-166 | no path is parsed twice or after it was visited, every parsed pair but the last names existing paths, and the walk parses at most one pair per unvisited existing path plus one failing pair |
| CompareProperties.WalkDiffs | comp.py:165-173 | a returning walk parsed every pair it took and reports exactly the differing ones, in the order taken, after the entries it started with |
| CompareProperties.WalkErrors | comp.py:165-166 | a raising walk stops at the last pair it took, with the error of the first of its two files that fails to parse, and every earlier pair parsed |
| CompareProperties.WalkFast | comp.py:168-171 | in fast mode no pair before the last one taken differs, and at most that one entry is added |
| CompareProperties.WalkFastPrefixOfFull | comp.py:168-173 | fast mode takes a prefix of the pairs full mode takes, raises only what full mode raises, and returns full mode's verdict with its first entry |
| CompareProperties.WalkExplores | comp.py:159-173 | a full-mode walk that returns leaves no pair behind: every pair of its starting stack and every child pair of every pair it parsed has a file that was visited before or parsed by the walk |
| CompareProperties.WalkTakesTop | comp.py:149-160 | the first pair a walk parses is the last pair of its stack whose two files are unvisited, every pair after it has a visited file, and the walk parses nothing exactly when every pair has one |
| CompareProperties.WalkDescends | comp.py:153-173 | last pushed, first popped: after a fresh pair that parses and does not stop the walk, that pair is the first parsed, and the rest of the walk starts at the last pair, with both files unvisited, of the remaining stack followed by the pair's children, so a pair's children are taken before any older pair |
| CompareProperties.WalkDiagonal | comp.py:159-173 | a walk over pairs that name the same file on both sides finds no difference |
| CompareProperties.DfsSameIffNoDiff | comp.py:141-175 | a returned report has `same` exactly when `diff` is empty, and `err` false |
| CompareProperties.DfsRootMismatch | comp.py:144-145 | roots that differ give `same = false` and the diff `[t1.id, t2.id]` in every mode, and no child is parsed |
| CompareProperties.DfsVisitsOnce | comp.py:141-173 | no path is parsed twice, and at most one pair per existing path plus a failing one is parsed, so the walk ends on any finite set of paths |
| CompareProperties.DfsDiffs | comp.py:147-175 | when the roots agree, the diff lists exactly the differing pairs parsed, in the order they were popped; an error is the parse error of the last pair popped |
| CompareProperties.DfsFastStopsAtFirst | comp.py:168-171 | in fast mode at most one pair is reported, the last one parsed, and no pair parsed before it differs |
| CompareProperties.DfsModesAgree | comp.py:168-175 | fast and full mode agree on `same`; fast mode parses a prefix of what full mode parses and reports the first of its entries |
| CompareProperties.DfsExplores | comp.py:147-175 | in full mode, when the roots agree and no error is raised, every child pair of the roots and of every parsed pair has a file that was parsed |
| CompareProperties.DfsFirstPair | comp.py:147-160 | when the roots agree, the first pair parsed is the last zipped child pair of the roots, and nothing is parsed exactly when the roots have no child pairs |
| CompareProperties.DfsReflexive | comp.py:141-175 | comparing a tree with itself returns `same` with an empty diff, or raises a parse error |

## Left out

- The HTML parser (BeautifulSoup with lxml) and file reading: a file is given
  by the `<table>`, `<tr>` and `<td>` elements the parser finds in it, and a
  cell by its text and its first anchor.
- `os.path.exists`, `os.path.dirname` and `os.path.join` follow POSIX paths;
  Windows paths, symbolic links and a file that disappears between the
  existence check and `open` are not modelled.
- The pandas `DataFrame` is modelled as a sequence of rows; `equals` is
  compared on string cells only, so dtypes and NaN handling play no part.
- `__eq__` on a value that is not a `Table` returns `NotImplemented`; the model
  only compares tables.
- `__str__`, `__repr__` and `as_df` only render or expose the data frame.
- `run_with_timeout`: threads and wall-clock time are not modelled.
- `show_in_table`, `firefox`, the command-line block and the `DEBUG`/`VERBOSE`
  printing: output and external programs only.
- Files are keys of the file system, compared as exact path strings.
  `os.path.dirname` and `os.path.join` never normalise `.` or `..`, while
  `os.path.exists` and `open` resolve them, so in the program two spellings
  of one file (`G/a.htm` and `G/sub/../a.htm`) are different entries of
  `visited`. A link cycle through `../` then yields ever longer paths to the
  same files and is not stopped by `visited`; the model, whose paths are
  distinct keys of a finite map, does not capture this.
- A five-cell row whose Names cell has no anchor gets the link `''`. When
  the file has a folder, the row's path is that folder followed by `/`, a
  directory: `os.path.exists` holds for it and `open` raises
  `IsADirectoryError`. The model has no directories: loading that path
  raises `FileNotFound` unless the file system lists it as a file. Both end
  `dfs` with a raised error; only the kind of error differs. When the file
  has no folder the path is `''`, which does not exist, and both raise
  `FileNotFound`.
- `dfs` defaults its mode to `'fast'`; `Dfs` always takes the mode as an
  argument, so that default has no counterpart.
- The command line reads `result['diff'][0]` after `dfs`; that step is not
  modelled.
