/**
  The comparison engine `dfs`: starting from the root tables of a golden tree
  and a target tree, it walks both trees in lockstep with an explicit stack of
  (golden path, target path) pairs, parses each fresh pair, compares the two
  tables and pushes their children paired by position. One visited set is
  shared by both sides. In fast mode the walk stops at the first differing
  pair; in any other mode it collects every differing pair.
*/
module Compare {
  import opened Results
  import opened PosixPath
  import opened Tables

  /** What `dfs` can learn about each file: the table built from it, or the
      error building it raises. A path that is not a key names a missing file. */
  type Library = map<Path, Result<Table, ParseError>>

  /** `Table(path)` against a library. */
  function Load(lib: Library, p: Path): (r: Result<Table, ParseError>)
    ensures r.Success? ==> p in lib
  {
    if p in lib then lib[p] else Failure(FileNotFound(p))
  }

  /** The library of a file system: every existing file with its parse. */
  function LibraryOf(fs: FileSystem): (lib: Library)
    ensures lib.Keys == fs.Keys
  {
    map p | p in fs :: Parse(fs, p)
  }

  /** Loading from the library of a file system is parsing the file, and a
      table loaded from it carries its own path as its name. */
  lemma LoadIsParse(fs: FileSystem, p: Path)
    ensures Load(LibraryOf(fs), p) == Parse(fs, p)
    ensures Load(LibraryOf(fs), p).Success? ==> Load(LibraryOf(fs), p).value.id == p
  {
  }

  /** A golden path and the target path paired with it. */
  type Pair = (Path, Path)

  /** One entry of the `diff` list: a bare file name (a root mismatch is
      reported as the flat list `[t1.id, t2.id]`) or a golden/target pair. */
  datatype DiffItem = Doc(path: Path) | DocPair(golden: Path, target: Path)

  /** The dictionary `dfs` returns: `same`, `diff` and `err`. */
  datatype Report = Report(same: bool, diff: seq<DiffItem>, err: bool)

  /** `dfs` either returns a report or lets a parse error propagate. */
  datatype Outcome = Returned(report: Report) | Raised(error: ParseError)

  /** The local variables of the loop of `dfs`. */
  datatype State = State(stack: seq<Pair>, visited: set<Path>, same: bool, diff: seq<DiffItem>)

  /** How a walk ends, and the pairs it took off the stack and parsed, in order. */
  datatype Run = Run(outcome: Outcome, processed: seq<Pair>)

  /** Only `'fast'` and `'f'` select fast mode; every other mode is full mode. */
  predicate IsFast(mode: string) {
    mode == "fast" || mode == "f"
  }

  /** Python's `zip` of two lists: pairs by position, as long as the shorter. */
  function Zip<A, B>(xs: seq<A>, ys: seq<B>): seq<(A, B)> {
    if xs == [] || ys == [] then [] else [(xs[0], ys[0])] + Zip(xs[1..], ys[1..])
  }

  /** `zip` truncates to the shorter list and pairs the elements at each position. */
  lemma {:induction false} ZipSpec<A, B>(xs: seq<A>, ys: seq<B>)
    ensures var r := Zip(xs, ys);
      |r| == (if |xs| <= |ys| then |xs| else |ys|) &&
      forall i :: 0 <= i < |r| ==> r[i] == (xs[i], ys[i])
  {
    if xs != [] && ys != [] {
      ZipSpec(xs[1..], ys[1..]);
    }
  }

  /** The pairs pushed after comparing `ta` with `tb`. */
  function Children(ta: Table, tb: Table): seq<Pair> {
    Zip(Paths(ta), Paths(tb))
  }

  /** Both files of the pair parse. */
  predicate ParsesOk(lib: Library, p: Pair) {
    Load(lib, p.0).Success? && Load(lib, p.1).Success?
  }

  /** Both files of the pair parse and their tables differ. */
  predicate Differs(lib: Library, p: Pair) {
    ParsesOk(lib, p) && NotEqual(Load(lib, p.0).value, Load(lib, p.1).value)
  }

  /** The diff entry for a pair whose files both parse: the names of its tables. */
  function EntryOf(lib: Library, p: Pair): DiffItem
    requires ParsesOk(lib, p)
  {
    DocPair(Load(lib, p.0).value.id, Load(lib, p.1).value.id)
  }

  /** The error that parsing the pair raises first: the golden file is parsed first. */
  function PairError(lib: Library, p: Pair): ParseError
    requires !ParsesOk(lib, p)
  {
    if Load(lib, p.0).Failure? then Load(lib, p.0).error else Load(lib, p.1).error
  }

  /** The diff entries for the differing pairs of `ps`, in order. */
  function DiffsOf(lib: Library, ps: seq<Pair>): seq<DiffItem> {
    if ps == [] then []
    else (if Differs(lib, ps[0]) then [EntryOf(lib, ps[0])] else []) + DiffsOf(lib, ps[1..])
  }

  /** The files of no pair of `ps` appear in `visited` or in a later pair. */
  predicate VisitedOnce(ps: seq<Pair>, visited: set<Path>) {
    (forall i :: 0 <= i < |ps| ==> ps[i].0 !in visited && ps[i].1 !in visited) &&
    (forall i, j :: 0 <= i < j < |ps| ==> {ps[i].0, ps[i].1} !! {ps[j].0, ps[j].1})
  }

  /** Marking a fresh existing file visited leaves fewer unvisited files. */
  lemma UnvisitedShrinks(keys: set<Path>, visited: set<Path>, a: Path, b: Path)
    requires a in keys && a !in visited
    ensures |keys - (visited + {a, b})| < |keys - visited|
  {
    var before, after := keys - visited, keys - (visited + {a, b});
    assert after <= before - {a};
    assert |before - {a}| == |before| - 1;
    SubsetNoLarger(after, before - {a});
  }

  lemma {:induction false} SubsetNoLarger(x: set<Path>, y: set<Path>)
    requires x <= y
    ensures |x| <= |y|
    decreases |y|
  {
    if x != {} {
      var e :| e in x;
      SubsetNoLarger(x - {e}, y - {e});
    }
  }

  /** The state after the top pair `(a, b)` of `s` was popped, found fresh,
      parsed into `ta` and `tb` and compared: the pair is marked visited, a
      difference is recorded, and the children are pushed in every case. */
  function Advance(s: State, ta: Table, tb: Table): State
    requires s.stack != []
  {
    var (a, b) := s.stack[|s.stack| - 1];
    var differ := NotEqual(ta, tb);
    State(s.stack[..|s.stack| - 1] + Children(ta, tb), s.visited + {a, b},
          if differ then false else s.same,
          if differ then s.diff + [DocPair(ta.id, tb.id)] else s.diff)
  }

  /** The pair on top of the stack, which `stack.pop()` takes. */
  function Top(s: State): Pair
    requires s.stack != []
  {
    s.stack[|s.stack| - 1]
  }

  /** The state with the top pair popped. */
  function Pop(s: State): State
    requires s.stack != []
  {
    s.(stack := s.stack[..|s.stack| - 1])
  }

  /** Neither file of the top pair was visited. */
  predicate Fresh(s: State)
    requires s.stack != []
  {
    Top(s).0 !in s.visited && Top(s).1 !in s.visited
  }

  /** The state after the fresh top pair of `s`, whose files both parse, was
      handled by a loop iteration that does not stop. */
  function Next(lib: Library, s: State): State
    requires s.stack != [] && ParsesOk(lib, Top(s))
  {
    Advance(s, Load(lib, Top(s).0).value, Load(lib, Top(s).1).value)
  }

  /** The loop of `dfs` from state `s` on, as a function. */
  function Walk(lib: Library, fast: bool, s: State): Run
    decreases |lib.Keys - s.visited|, |s.stack|
  {
    if s.stack == [] then Run(Returned(Report(s.same, s.diff, false)), [])
    else if !Fresh(s) then Walk(lib, fast, Pop(s))
    else if !ParsesOk(lib, Top(s)) then Run(Raised(PairError(lib, Top(s))), [Top(s)])
    else if fast && Differs(lib, Top(s)) then
      Run(Returned(Report(false, s.diff + [EntryOf(lib, Top(s))], false)), [Top(s)])
    else
      UnvisitedShrinks(lib.Keys, s.visited, Top(s).0, Top(s).1);
      var next := Walk(lib, fast, Next(lib, s));
      Run(next.outcome, [Top(s)] + next.processed)
  }

  // One iteration of the loop, case by case.

  /** A top pair with a visited file is dropped. */
  lemma WalkSkips(lib: Library, fast: bool, s: State)
    requires s.stack != [] && !Fresh(s)
    ensures Walk(lib, fast, s) == Walk(lib, fast, Pop(s))
  {
  }

  /** A fresh top pair whose files do not both parse raises. */
  lemma WalkRaises(lib: Library, fast: bool, s: State)
    requires s.stack != [] && Fresh(s) && !ParsesOk(lib, Top(s))
    ensures Walk(lib, fast, s) == Run(Raised(PairError(lib, Top(s))), [Top(s)])
  {
  }

  /** A fresh top pair that differs ends a fast walk. */
  lemma WalkStopsFast(lib: Library, fast: bool, s: State)
    requires s.stack != [] && Fresh(s) && ParsesOk(lib, Top(s)) && fast && Differs(lib, Top(s))
    ensures Walk(lib, fast, s) == Run(Returned(Report(false, s.diff + [EntryOf(lib, Top(s))], false)), [Top(s)])
  {
  }

  /** Otherwise the walk goes on from the next state. */
  lemma WalkContinues(lib: Library, fast: bool, s: State)
    requires s.stack != [] && Fresh(s) && ParsesOk(lib, Top(s)) && !(fast && Differs(lib, Top(s)))
    ensures Walk(lib, fast, s) == Run(Walk(lib, fast, Next(lib, s)).outcome, [Top(s)] + Walk(lib, fast, Next(lib, s)).processed)
  {
  }

  /** After parsing the pairs `done`, the loop is at state `s`, from which it
      goes on to end as `goal` ends. */
  predicate Reaches(lib: Library, fast: bool, s: State, done: seq<Pair>, goal: Run) {
    var r := Walk(lib, fast, s);
    r.outcome == goal.outcome && done + r.processed == goal.processed
  }

  lemma ReachesStart(lib: Library, fast: bool, s: State)
    ensures Reaches(lib, fast, s, [], Walk(lib, fast, s))
  {
    assert [] + Walk(lib, fast, s).processed == Walk(lib, fast, s).processed;
  }

  lemma ReachesSkip(lib: Library, fast: bool, s: State, done: seq<Pair>, goal: Run)
    requires s.stack != [] && !Fresh(s) && Reaches(lib, fast, s, done, goal)
    ensures Reaches(lib, fast, Pop(s), done, goal)
  {
    WalkSkips(lib, fast, s);
  }

  lemma ReachesRaise(lib: Library, fast: bool, s: State, done: seq<Pair>, goal: Run)
    requires s.stack != [] && Fresh(s) && !ParsesOk(lib, Top(s)) && Reaches(lib, fast, s, done, goal)
    ensures goal == Run(Raised(PairError(lib, Top(s))), done + [Top(s)])
  {
    WalkRaises(lib, fast, s);
  }

  lemma ReachesStop(lib: Library, fast: bool, s: State, done: seq<Pair>, goal: Run)
    requires s.stack != [] && Fresh(s) && ParsesOk(lib, Top(s)) && fast && Differs(lib, Top(s))
    requires Reaches(lib, fast, s, done, goal)
    ensures goal == Run(Returned(Report(false, s.diff + [EntryOf(lib, Top(s))], false)), done + [Top(s)])
  {
    WalkStopsFast(lib, fast, s);
  }

  lemma ReachesNext(lib: Library, fast: bool, s: State, done: seq<Pair>, goal: Run)
    requires s.stack != [] && Fresh(s) && ParsesOk(lib, Top(s)) && !(fast && Differs(lib, Top(s)))
    requires Reaches(lib, fast, s, done, goal)
    ensures Reaches(lib, fast, Next(lib, s), done + [Top(s)], goal)
  {
    WalkContinues(lib, fast, s);
    var rest := Walk(lib, fast, Next(lib, s)).processed;
    assert (done + [Top(s)]) + rest == done + ([Top(s)] + rest);
  }

  lemma ReachesEnd(lib: Library, fast: bool, s: State, done: seq<Pair>, goal: Run)
    requires s.stack == [] && Reaches(lib, fast, s, done, goal)
    ensures goal == Run(Returned(Report(s.same, s.diff, false)), done)
  {
    assert done + [] == done;
  }

  /** `dfs(t1, t2, MODE=mode)` with the pairs it parsed: a root mismatch
      returns at once with the flat diff `[t1.id, t2.id]`; otherwise the walk
      starts from the zipped children of the roots with nothing visited. */
  function DfsRun(lib: Library, t1: Table, t2: Table, mode: string): Run {
    if NotEqual(t1, t2) then Run(Returned(Report(false, [Doc(t1.id), Doc(t2.id)], false)), [])
    else Walk(lib, IsFast(mode), State(Children(t1, t2), {}, true, []))
  }

  // ---------------------------------------------------------------------------
  // The loop itself

  /** `Table(path)` inside `dfs`: parsing a file of `fs` gives the entry of
      its library. */
  method LoadTable(fs: FileSystem, p: Path) returns (r: Result<Table, ParseError>)
    ensures r == Load(LibraryOf(fs), p)
    ensures r.Success? ==> p in fs && r.value.id == p
  {
    LoadIsParse(fs, p);
    r := ParseTable(fs, p);
  }

  /** `dfs`: a root mismatch returns at once; otherwise the loop walks the
      zipped children of the roots. Parse errors propagate as `Raised`.
      `parsed` records, in order, the pairs whose files the loop parses. */
  method Dfs(fs: FileSystem, t1: Table, t2: Table, mode: string) returns (outcome: Outcome, ghost parsed: seq<Pair>)
    ensures outcome == DfsRun(LibraryOf(fs), t1, t2, mode).outcome
    ensures parsed == DfsRun(LibraryOf(fs), t1, t2, mode).processed
    ensures NotEqual(t1, t2) ==> outcome == Returned(Report(false, [Doc(t1.id), Doc(t2.id)], false)) && parsed == []
  {
    if NotEqual(t1, t2) {
      return Returned(Report(false, [Doc(t1.id), Doc(t2.id)], false)), [];
    }
    outcome, parsed := Explore(fs, IsFast(mode), Children(t1, t2));
  }

  /** The loop of `dfs` from the stack `start`, with nothing visited yet,
      `same` true and `diff` empty. */
  method Explore(fs: FileSystem, fast: bool, start: seq<Pair>) returns (outcome: Outcome, ghost parsed: seq<Pair>)
    ensures outcome == Walk(LibraryOf(fs), fast, State(start, {}, true, [])).outcome
    ensures parsed == Walk(LibraryOf(fs), fast, State(start, {}, true, [])).processed
  {
    parsed := [];
    var stack := start;
    var visited: set<Path> := {};
    var same := true;
    var diff: seq<DiffItem> := [];
    ghost var lib := LibraryOf(fs);
    ghost var goal := Walk(lib, fast, State(stack, visited, same, diff));
    ReachesStart(lib, fast, State(stack, visited, same, diff));
    while stack != []
      invariant Reaches(lib, fast, State(stack, visited, same, diff), parsed, goal)
      decreases |fs.Keys - visited|, |stack|
    {
      ghost var s := State(stack, visited, same, diff);
      var (a, b) := stack[|stack| - 1];
      stack := stack[..|stack| - 1];
      if a in visited || b in visited {
        ReachesSkip(lib, fast, s, parsed, goal);
        assert State(stack, visited, same, diff) == Pop(s);
        continue;
      }
      visited := visited + {a, b};
      ghost var before := parsed;
      parsed := parsed + [(a, b)];
      var r1 := LoadTable(fs, a);
      if r1.Failure? {
        ReachesRaise(lib, fast, s, before, goal);
        return Raised(r1.error), parsed;
      }
      var r2 := LoadTable(fs, b);
      if r2.Failure? {
        ReachesRaise(lib, fast, s, before, goal);
        return Raised(r2.error), parsed;
      }
      var ta, tb := r1.value, r2.value;
      if NotEqual(ta, tb) {
        same := false;
        diff := diff + [DocPair(ta.id, tb.id)];
        if fast {
          ReachesStop(lib, fast, s, before, goal);
          return Returned(Report(same, diff, false)), parsed;
        }
      }
      stack := stack + Children(ta, tb);
      ReachesNext(lib, fast, s, before, goal);
      assert State(stack, visited, same, diff) == Next(lib, s);
      UnvisitedShrinks(fs.Keys, s.visited, a, b);
    }
    ReachesEnd(lib, fast, State(stack, visited, same, diff), parsed, goal);
    return Returned(Report(same, diff, false)), parsed;
  }
}

module CompareProperties {
  import opened PosixPath
  import opened Tables
  import opened Compare

  // ---------------------------------------------------------------------------
  // Facts about the pairs a walk takes

  /** All pairs of `ps` but the last. */
  function Butlast(ps: seq<Pair>): seq<Pair> {
    if ps == [] then [] else ps[..|ps| - 1]
  }

  /** Both files of every pair of `ps` parse. */
  predicate AllParse(lib: Library, ps: seq<Pair>) {
    forall i :: 0 <= i < |ps| ==> ParsesOk(lib, ps[i])
  }

  /** Both files of every pair of `ps` exist. */
  predicate AllExist(lib: Library, ps: seq<Pair>) {
    forall i :: 0 <= i < |ps| ==> ps[i].0 in lib && ps[i].1 in lib
  }

  /** No pair of `ps` differs. */
  predicate NoneDiffers(lib: Library, ps: seq<Pair>) {
    forall i :: 0 <= i < |ps| ==> !Differs(lib, ps[i])
  }

  lemma ButlastCons(pr: Pair, q: seq<Pair>)
    ensures Butlast([pr] + q) == if q == [] then [] else [pr] + Butlast(q)
  {
    if q != [] {
      assert ([pr] + q)[..|q|] == [pr] + q[..|q| - 1];
    }
  }

  lemma AllParseCons(lib: Library, pr: Pair, q: seq<Pair>)
    ensures AllParse(lib, [pr] + q) <==> ParsesOk(lib, pr) && AllParse(lib, q)
  {
    var p := [pr] + q;
    if ParsesOk(lib, pr) && AllParse(lib, q) {
      forall i | 1 <= i < |p| ensures ParsesOk(lib, p[i]) {
        assert p[i] == q[i - 1];
      }
    }
    if AllParse(lib, p) {
      assert p[0] == pr;
      forall i | 0 <= i < |q| ensures ParsesOk(lib, q[i]) {
        assert q[i] == p[i + 1];
      }
    }
  }

  lemma AllExistCons(lib: Library, pr: Pair, q: seq<Pair>)
    requires pr.0 in lib && pr.1 in lib && AllExist(lib, q)
    ensures AllExist(lib, [pr] + q)
  {
    var p := [pr] + q;
    forall i | 1 <= i < |p| ensures p[i].0 in lib && p[i].1 in lib {
      assert p[i] == q[i - 1];
    }
  }

  lemma NoneDiffersCons(lib: Library, pr: Pair, q: seq<Pair>)
    requires !Differs(lib, pr) && NoneDiffers(lib, q)
    ensures NoneDiffers(lib, [pr] + q)
  {
    var p := [pr] + q;
    forall i | 1 <= i < |p| ensures !Differs(lib, p[i]) {
      assert p[i] == q[i - 1];
    }
  }

  lemma VisitedOnceCons(pr: Pair, q: seq<Pair>, visited: set<Path>)
    requires pr.0 !in visited && pr.1 !in visited
    requires VisitedOnce(q, visited + {pr.0, pr.1})
    ensures VisitedOnce([pr] + q, visited)
  {
    var p := [pr] + q;
    forall i, j | 0 <= i < j < |p| ensures {p[i].0, p[i].1} !! {p[j].0, p[j].1} {
      assert p[j] == q[j - 1];
      if i > 0 { assert p[i] == q[i - 1]; }
    }
    forall i | 1 <= i < |p| ensures p[i].0 !in visited && p[i].1 !in visited {
      assert p[i] == q[i - 1];
    }
  }

  lemma DiffsOfCons(lib: Library, pr: Pair, q: seq<Pair>)
    ensures DiffsOf(lib, [pr] + q) == (if Differs(lib, pr) then [EntryOf(lib, pr)] else []) + DiffsOf(lib, q)
  {
    assert ([pr] + q)[1..] == q;
  }

  /** The last pair of `[pr] + q`. */
  lemma LastCons(pr: Pair, q: seq<Pair>)
    ensures var p := [pr] + q; p[|p| - 1] == if q == [] then pr else q[|q| - 1]
  {
  }

  // ---------------------------------------------------------------------------
  // Properties of one walk, by induction along it

  /** The walk keeps `same` true exactly while `diff` is empty, and never sets `err`. */
  lemma {:induction false} WalkSameIffNoDiff(lib: Library, fast: bool, s: State)
    requires s.same <==> s.diff == []
    ensures var o := Walk(lib, fast, s).outcome;
      o.Returned? ==> !o.report.err && (o.report.same <==> o.report.diff == [])
    decreases |lib.Keys - s.visited|, |s.stack|
  {
    if s.stack != [] {
      if !Fresh(s) {
        WalkSameIffNoDiff(lib, fast, Pop(s));
      } else if ParsesOk(lib, Top(s)) && !(fast && Differs(lib, Top(s))) {
        UnvisitedShrinks(lib.Keys, s.visited, Top(s).0, Top(s).1);
        WalkSameIffNoDiff(lib, fast, Next(lib, s));
      }
    }
  }

  /** No file is parsed in two different iterations and none that was already
      visited is parsed again; every parsed pair but the last names existing
      files, so the number of parsed pairs is bounded by the number of
      unvisited files (plus a last one that fails). */
  lemma {:induction false} WalkVisitsOnce(lib: Library, fast: bool, s: State)
    ensures var p := Walk(lib, fast, s).processed;
      VisitedOnce(p, s.visited) && AllExist(lib, Butlast(p)) && |p| <= |lib.Keys - s.visited| + 1
    decreases |lib.Keys - s.visited|, |s.stack|
  {
    if s.stack != [] {
      if !Fresh(s) {
        WalkVisitsOnce(lib, fast, Pop(s));
      } else if ParsesOk(lib, Top(s)) && !(fast && Differs(lib, Top(s))) {
        var s' := Next(lib, s);
        UnvisitedShrinks(lib.Keys, s.visited, Top(s).0, Top(s).1);
        WalkVisitsOnce(lib, fast, s');
        var q := Walk(lib, fast, s').processed;
        VisitedOnceCons(Top(s), q, s.visited);
        ButlastCons(Top(s), q);
        if q != [] {
          AllExistCons(lib, Top(s), Butlast(q));
        }
      }
    }
  }

  /** The entries of a walk that goes on from `Next(lib, s)`, seen from `s`. */
  lemma DiffsStep(lib: Library, s: State, q: seq<Pair>, d: seq<DiffItem>)
    requires s.stack != [] && ParsesOk(lib, Top(s)) && AllParse(lib, q)
    requires d == Next(lib, s).diff + DiffsOf(lib, q)
    ensures AllParse(lib, [Top(s)] + q) && d == s.diff + DiffsOf(lib, [Top(s)] + q)
  {
    var e := if Differs(lib, Top(s)) then [EntryOf(lib, Top(s))] else [];
    DiffsOfCons(lib, Top(s), q);
    AllParseCons(lib, Top(s), q);
    assert Next(lib, s).diff == s.diff + e;
    assert d == s.diff + (e + DiffsOf(lib, q));
  }

  /** A walk that returns parsed every pair it took and reports exactly the
      differing ones, in the order it took them, after the entries it started
      with. */
  lemma {:induction false} WalkDiffs(lib: Library, fast: bool, s: State)
    ensures var r := Walk(lib, fast, s);
      r.outcome.Returned? ==>
        AllParse(lib, r.processed) && r.outcome.report.diff == s.diff + DiffsOf(lib, r.processed)
    decreases |lib.Keys - s.visited|, |s.stack|
  {
    if s.stack != [] {
      if !Fresh(s) {
        WalkSkips(lib, fast, s);
        WalkDiffs(lib, fast, Pop(s));
      } else if ParsesOk(lib, Top(s)) {
        if fast && Differs(lib, Top(s)) {
          WalkStopsFast(lib, fast, s);
          DiffsOfCons(lib, Top(s), []);
          AllParseCons(lib, Top(s), []);
        } else {
          var s' := Next(lib, s);
          UnvisitedShrinks(lib.Keys, s.visited, Top(s).0, Top(s).1);
          WalkContinues(lib, fast, s);
          WalkDiffs(lib, fast, s');
          var r := Walk(lib, fast, s');
          if r.outcome.Returned? {
            DiffsStep(lib, s, r.processed, r.outcome.report.diff);
          }
        }
      }
    }
  }

  /** A walk that raises does so at the last pair it took, with the error of
      the first of its two files that fails to parse; every pair before it
      parsed. */
  lemma {:induction false} WalkErrors(lib: Library, fast: bool, s: State)
    ensures var r := Walk(lib, fast, s);
      var p := r.processed;
      r.outcome.Raised? ==>
        p != [] && AllParse(lib, Butlast(p)) &&
        !ParsesOk(lib, p[|p| - 1]) && r.outcome.error == PairError(lib, p[|p| - 1])
    decreases |lib.Keys - s.visited|, |s.stack|
  {
    if s.stack != [] {
      if !Fresh(s) {
        WalkSkips(lib, fast, s);
        WalkErrors(lib, fast, Pop(s));
      } else if !ParsesOk(lib, Top(s)) {
        WalkRaises(lib, fast, s);
      } else if !(fast && Differs(lib, Top(s))) {
        var s' := Next(lib, s);
        UnvisitedShrinks(lib.Keys, s.visited, Top(s).0, Top(s).1);
        WalkContinues(lib, fast, s);
        WalkErrors(lib, fast, s');
        var q := Walk(lib, fast, s').processed;
        ButlastCons(Top(s), q);
        LastCons(Top(s), q);
        if q != [] {
          AllParseCons(lib, Top(s), Butlast(q));
        }
      }
    }
  }

  /** In fast mode the walk stops at the first differing pair: no pair before
      the last one it took differs, and it adds at most that one entry. */
  lemma {:induction false} WalkFast(lib: Library, s: State)
    ensures var r := Walk(lib, true, s);
      var p := r.processed;
      NoneDiffers(lib, Butlast(p)) &&
      (r.outcome.Returned? ==>
        r.outcome.report.diff == s.diff ||
        (p != [] && Differs(lib, p[|p| - 1]) &&
         r.outcome.report.diff == s.diff + [EntryOf(lib, p[|p| - 1])]))
    decreases |lib.Keys - s.visited|, |s.stack|
  {
    if s.stack != [] {
      if !Fresh(s) {
        WalkFast(lib, Pop(s));
      } else if ParsesOk(lib, Top(s)) && !Differs(lib, Top(s)) {
        var s' := Next(lib, s);
        assert s'.diff == s.diff;
        UnvisitedShrinks(lib.Keys, s.visited, Top(s).0, Top(s).1);
        WalkFast(lib, s');
        var q := Walk(lib, true, s').processed;
        ButlastCons(Top(s), q);
        LastCons(Top(s), q);
        if q != [] {
          NoneDiffersCons(lib, Top(s), Butlast(q));
        }
      }
    }
  }

  /** From a state with no difference yet, fast mode takes a prefix of the
      pairs full mode takes; it raises only with the error full mode raises,
      and whenever full mode returns, fast mode returns the same verdict with
      the first of full mode's entries. */
  lemma {:induction false} WalkFastPrefixOfFull(lib: Library, s: State)
    requires s.same && s.diff == []
    ensures var f, g := Walk(lib, true, s), Walk(lib, false, s);
      f.processed <= g.processed &&
      (f.outcome.Raised? ==> g.outcome == f.outcome) &&
      (g.outcome.Returned? ==>
        f.outcome.Returned? && f.outcome.report.same == g.outcome.report.same &&
        f.outcome.report.diff == g.outcome.report.diff[..if g.outcome.report.diff == [] then 0 else 1])
    decreases |lib.Keys - s.visited|, |s.stack|
  {
    if s.stack != [] {
      if !Fresh(s) {
        WalkFastPrefixOfFull(lib, Pop(s));
      } else if ParsesOk(lib, Top(s)) {
        var s' := Next(lib, s);
        UnvisitedShrinks(lib.Keys, s.visited, Top(s).0, Top(s).1);
        if Differs(lib, Top(s)) {
          WalkDiffs(lib, false, s');
          WalkSameIffNoDiff(lib, false, s');
        } else {
          WalkFastPrefixOfFull(lib, s');
        }
      }
    }
  }

  /** Every pair on the stack names the same file on both sides. */
  predicate Diagonal(stack: seq<Pair>) {
    forall i :: 0 <= i < |stack| ==> stack[i].0 == stack[i].1
  }

  lemma DiagonalNext(lib: Library, s: State)
    requires s.stack != [] && Diagonal(s.stack) && ParsesOk(lib, Top(s))
    ensures Diagonal(Next(lib, s).stack)
  {
    var t := Load(lib, Top(s).0).value;
    ZipSpec(Paths(t), Paths(t));
    var popped: seq<Pair>, kids: seq<Pair> := s.stack[..|s.stack| - 1], Children(t, t);
    var next: seq<Pair> := popped + kids;
    forall i | 0 <= i < |next| ensures next[i].0 == next[i].1 {
      if i < |popped| {
        assert next[i] == s.stack[i];
      } else {
        assert next[i] == kids[i - |popped|];
      }
    }
    assert Next(lib, s).stack == next;
  }

  /** A walk over pairs that name the same file on both sides never finds a
      difference: it returns `same` with no entries, or raises. */
  lemma {:induction false} WalkDiagonal(lib: Library, fast: bool, s: State)
    requires Diagonal(s.stack)
    requires s.same && s.diff == []
    ensures var o := Walk(lib, fast, s).outcome;
      o.Raised? || o == Returned(Report(true, [], false))
    decreases |lib.Keys - s.visited|, |s.stack|
  {
    if s.stack != [] {
      if !Fresh(s) {
        WalkDiagonal(lib, fast, Pop(s));
      } else if ParsesOk(lib, Top(s)) {
        var t := Load(lib, Top(s).0).value;
        EqualityLaws(t, t, t);
        assert !Differs(lib, Top(s));
        DiagonalNext(lib, s);
        UnvisitedShrinks(lib.Keys, s.visited, Top(s).0, Top(s).1);
        WalkDiagonal(lib, fast, Next(lib, s));
      }
    }
  }

  /** The files of the pairs of `ps`. */
  function Files(ps: seq<Pair>): set<Path> {
    if ps == [] then {} else {ps[0].0, ps[0].1} + Files(ps[1..])
  }

  /** Every pair of `ps` has a file in `seen`, so the loop would skip it. */
  predicate Covered(ps: seq<Pair>, seen: set<Path>) {
    forall i :: 0 <= i < |ps| ==> ps[i].0 in seen || ps[i].1 in seen
  }

  /** The pairs pushed after the pair `p`, whose files both parse. */
  function KidsOf(lib: Library, p: Pair): seq<Pair>
    requires ParsesOk(lib, p)
  {
    Children(Load(lib, p.0).value, Load(lib, p.1).value)
  }

  /** Every pair of `ps` parses and all its children have a file in `seen`. */
  predicate KidsCovered(lib: Library, ps: seq<Pair>, seen: set<Path>) {
    forall i :: 0 <= i < |ps| ==> ParsesOk(lib, ps[i]) && Covered(KidsOf(lib, ps[i]), seen)
  }

  lemma FilesCons(pr: Pair, q: seq<Pair>)
    ensures Files([pr] + q) == {pr.0, pr.1} + Files(q)
  {
    assert ([pr] + q)[1..] == q;
  }

  lemma CoveredConcat(x: seq<Pair>, y: seq<Pair>, seen: set<Path>)
    ensures Covered(x + y, seen) <==> Covered(x, seen) && Covered(y, seen)
  {
    if Covered(x, seen) && Covered(y, seen) {
      forall i | 0 <= i < |x + y| ensures (x + y)[i].0 in seen || (x + y)[i].1 in seen {
        if i < |x| { assert (x + y)[i] == x[i]; } else { assert (x + y)[i] == y[i - |x|]; }
      }
    }
    if Covered(x + y, seen) {
      forall i | 0 <= i < |y| ensures y[i].0 in seen || y[i].1 in seen {
        assert y[i] == (x + y)[|x| + i];
      }
      forall i | 0 <= i < |x| ensures x[i].0 in seen || x[i].1 in seen {
        assert x[i] == (x + y)[i];
      }
    }
  }

  lemma KidsCoveredCons(lib: Library, pr: Pair, q: seq<Pair>, seen: set<Path>)
    requires ParsesOk(lib, pr) && Covered(KidsOf(lib, pr), seen) && KidsCovered(lib, q, seen)
    ensures KidsCovered(lib, [pr] + q, seen)
  {
    var p := [pr] + q;
    forall i | 1 <= i < |p| ensures ParsesOk(lib, p[i]) && Covered(KidsOf(lib, p[i]), seen) {
      assert p[i] == q[i - 1];
    }
  }

  /** The skipped top pair has a visited file, so it is covered too. */
  lemma ExploresSkip(s: State, files: set<Path>)
    requires s.stack != [] && !Fresh(s) && Covered(Pop(s).stack, Pop(s).visited + files)
    ensures Covered(s.stack, s.visited + files)
  {
    assert s.stack == Pop(s).stack + [Top(s)];
    CoveredConcat(Pop(s).stack, [Top(s)], s.visited + files);
  }

  /** What the rest of the walk `q` explores from the next state, with the
      parsed top pair, covers the stack and the children of the top pair. */
  lemma ExploresStep(lib: Library, s: State, q: seq<Pair>)
    requires s.stack != [] && ParsesOk(lib, Top(s))
    requires var s' := Next(lib, s);
      Covered(s'.stack, s'.visited + Files(q)) && KidsCovered(lib, q, s'.visited + Files(q))
    ensures var seen := s.visited + Files([Top(s)] + q);
      Covered(s.stack, seen) && KidsCovered(lib, [Top(s)] + q, seen)
  {
    var s', pop := Next(lib, s), Pop(s).stack;
    FilesCons(Top(s), q);
    var seen := s.visited + Files([Top(s)] + q);
    assert s'.visited + Files(q) == seen;
    assert s'.stack == pop + KidsOf(lib, Top(s));
    CoveredConcat(pop, KidsOf(lib, Top(s)), seen);
    assert s.stack == pop + [Top(s)];
    CoveredConcat(pop, [Top(s)], seen);
    KidsCoveredCons(lib, Top(s), q, seen);
  }

  /** In full mode a walk that returns leaves nothing unexplored: every pair
      it started with, and every child of every pair it parsed, has a file
      that was visited before or parsed by the walk. So a differing pair does
      not stop the walk, its children are pushed, and every fresh pair popped
      is parsed. */
  lemma {:induction false} WalkExplores(lib: Library, s: State)
    ensures var r := Walk(lib, false, s);
      var seen := s.visited + Files(r.processed);
      r.outcome.Returned? ==> Covered(s.stack, seen) && KidsCovered(lib, r.processed, seen)
    decreases |lib.Keys - s.visited|, |s.stack|
  {
    if s.stack != [] {
      if !Fresh(s) {
        WalkSkips(lib, false, s);
        WalkExplores(lib, Pop(s));
        var r := Walk(lib, false, Pop(s));
        if r.outcome.Returned? {
          ExploresSkip(s, Files(r.processed));
        }
      } else if ParsesOk(lib, Top(s)) {
        UnvisitedShrinks(lib.Keys, s.visited, Top(s).0, Top(s).1);
        WalkContinues(lib, false, s);
        WalkExplores(lib, Next(lib, s));
        var r := Walk(lib, false, Next(lib, s));
        if r.outcome.Returned? {
          ExploresStep(lib, s, r.processed);
        }
      }
    }
  }

  /** `p` starts with the last pair of `stack` that has no file in `visited`,
      and is empty exactly when there is no such pair. */
  predicate StartsAtLastFresh(stack: seq<Pair>, visited: set<Path>, p: seq<Pair>) {
    (p == [] <==> Covered(stack, visited)) &&
    (p != [] ==>
      exists j :: 0 <= j < |stack| && stack[j] == p[0] &&
        p[0].0 !in visited && p[0].1 !in visited && Covered(stack[j + 1..], visited))
  }

  lemma StartsAtLastFreshSkip(stack: seq<Pair>, visited: set<Path>, p: seq<Pair>)
    requires stack != [] && (stack[|stack| - 1].0 in visited || stack[|stack| - 1].1 in visited)
    requires StartsAtLastFresh(stack[..|stack| - 1], visited, p)
    ensures StartsAtLastFresh(stack, visited, p)
  {
    var pop, top := stack[..|stack| - 1], stack[|stack| - 1];
    assert stack == pop + [top];
    CoveredConcat(pop, [top], visited);
    if p != [] {
      var j :| 0 <= j < |pop| && pop[j] == p[0] &&
        p[0].0 !in visited && p[0].1 !in visited && Covered(pop[j + 1..], visited);
      assert stack[j] == pop[j];
      assert stack[j + 1..] == pop[j + 1..] + [top];
      CoveredConcat(pop[j + 1..], [top], visited);
    }
  }

  lemma StartsAtLastFreshTop(stack: seq<Pair>, visited: set<Path>, p: seq<Pair>)
    requires stack != [] && stack[|stack| - 1].0 !in visited && stack[|stack| - 1].1 !in visited
    requires p != [] && p[0] == stack[|stack| - 1]
    ensures StartsAtLastFresh(stack, visited, p)
  {
    var j := |stack| - 1;
    assert stack[j + 1..] == [];
    assert !(stack[j].0 in visited || stack[j].1 in visited);
  }

  /** The first pair a walk parses is the last pair of its stack with no
      visited file: the stack is popped from its end, skipping the pairs with
      a visited file, and the walk parses nothing only when every pair has
      one. */
  lemma {:induction false} WalkTakesTop(lib: Library, fast: bool, s: State)
    ensures StartsAtLastFresh(s.stack, s.visited, Walk(lib, fast, s).processed)
    decreases |s.stack|
  {
    if s.stack != [] {
      if !Fresh(s) {
        WalkSkips(lib, fast, s);
        WalkTakesTop(lib, fast, Pop(s));
        StartsAtLastFreshSkip(s.stack, s.visited, Walk(lib, fast, s).processed);
      } else {
        if !ParsesOk(lib, Top(s)) {
          WalkRaises(lib, fast, s);
        } else if fast && Differs(lib, Top(s)) {
          WalkStopsFast(lib, fast, s);
        } else {
          WalkContinues(lib, fast, s);
        }
        StartsAtLastFreshTop(s.stack, s.visited, Walk(lib, fast, s).processed);
      }
    }
  }

  /** Last pushed, first popped: after a fresh pair that parses and does not
      stop the walk, the children of that pair go on top of the rest of the
      stack, so the next pair parsed is the last child pair with both files
      unvisited, and the walk reaches the older pairs below only once every
      child pair has a visited file. */
  lemma WalkDescends(lib: Library, fast: bool, s: State)
    requires s.stack != [] && Fresh(s) && ParsesOk(lib, Top(s)) && !(fast && Differs(lib, Top(s)))
    ensures var p := Walk(lib, fast, s).processed;
      p != [] && p[0] == Top(s) &&
      StartsAtLastFresh(s.stack[..|s.stack| - 1] + KidsOf(lib, Top(s)), s.visited + {Top(s).0, Top(s).1}, p[1..])
  {
    WalkContinues(lib, fast, s);
    WalkTakesTop(lib, fast, Next(lib, s));
    var q := Walk(lib, fast, Next(lib, s)).processed;
    assert ([Top(s)] + q)[1..] == q;
  }

  // ---------------------------------------------------------------------------
  // Properties of `dfs`

  /** On a normal return `same` holds exactly when `diff` is empty, and `err`
      is false. */
  lemma DfsSameIffNoDiff(lib: Library, t1: Table, t2: Table, mode: string)
    ensures var o := DfsRun(lib, t1, t2, mode).outcome;
      o.Returned? ==> !o.report.err && (o.report.same <==> o.report.diff == [])
  {
    if !NotEqual(t1, t2) {
      WalkSameIffNoDiff(lib, IsFast(mode), State(Children(t1, t2), {}, true, []));
    }
  }

  /** Roots whose tables differ are reported as the flat list of their two
      file names, in either mode, and no child is parsed. */
  lemma DfsRootMismatch(lib: Library, t1: Table, t2: Table, mode: string)
    requires NotEqual(t1, t2)
    ensures DfsRun(lib, t1, t2, mode) == Run(Returned(Report(false, [Doc(t1.id), Doc(t2.id)], false)), [])
  {
  }

  /** No path is parsed in two different iterations, and at most one pair per
      existing path, plus a failing one, is parsed: the walk terminates on
      any finite set of paths. */
  lemma DfsVisitsOnce(lib: Library, t1: Table, t2: Table, mode: string)
    ensures var p := DfsRun(lib, t1, t2, mode).processed;
      VisitedOnce(p, {}) && |p| <= |lib.Keys| + 1
  {
    if !NotEqual(t1, t2) {
      WalkVisitsOnce(lib, IsFast(mode), State(Children(t1, t2), {}, true, []));
      assert lib.Keys - {} == lib.Keys;
    }
  }

  /** When the roots agree, a normal return lists exactly the differing pairs
      the walk parsed, in the order it took them; an error return is the
      parse error of the last pair taken, never a `same = false`. */
  lemma DfsDiffs(lib: Library, t1: Table, t2: Table, mode: string)
    requires Equal(t1, t2)
    ensures var r := DfsRun(lib, t1, t2, mode);
      var p := r.processed;
      (r.outcome.Returned? ==>
        AllParse(lib, p) && r.outcome.report.diff == DiffsOf(lib, p)) &&
      (r.outcome.Raised? ==>
        p != [] && !ParsesOk(lib, p[|p| - 1]) && r.outcome.error == PairError(lib, p[|p| - 1]))
  {
    var s := State(Children(t1, t2), {}, true, []);
    WalkDiffs(lib, IsFast(mode), s);
    WalkErrors(lib, IsFast(mode), s);
    assert s.diff + DiffsOf(lib, DfsRun(lib, t1, t2, mode).processed) == DiffsOf(lib, DfsRun(lib, t1, t2, mode).processed);
  }

  /** In fast mode, when the roots agree, at most one pair is reported: the
      last one parsed, and no pair parsed before it differs. */
  lemma DfsFastStopsAtFirst(lib: Library, t1: Table, t2: Table, mode: string)
    requires IsFast(mode) && Equal(t1, t2)
    ensures var r := DfsRun(lib, t1, t2, mode);
      var p := r.processed;
      NoneDiffers(lib, Butlast(p)) &&
      (r.outcome.Returned? ==>
        r.outcome.report.diff == [] ||
        (p != [] && Differs(lib, p[|p| - 1]) && r.outcome.report.diff == [EntryOf(lib, p[|p| - 1])]))
  {
    WalkFast(lib, State(Children(t1, t2), {}, true, []));
  }

  /** Fast and full mode agree on the verdict: fast mode parses a prefix of
      what full mode parses, and whenever full mode returns, fast mode
      returns the same `same` and the first of full mode's entries (the
      whole flat pair on a root mismatch). */
  lemma DfsModesAgree(lib: Library, t1: Table, t2: Table, fastMode: string, fullMode: string)
    requires IsFast(fastMode) && !IsFast(fullMode)
    ensures var f, g := DfsRun(lib, t1, t2, fastMode), DfsRun(lib, t1, t2, fullMode);
      f.processed <= g.processed &&
      (f.outcome.Raised? ==> g.outcome == f.outcome) &&
      (g.outcome.Returned? ==>
        f.outcome.Returned? && f.outcome.report.same == g.outcome.report.same &&
        (NotEqual(t1, t2) ==> f.outcome == g.outcome) &&
        (Equal(t1, t2) ==>
          f.outcome.report.diff == g.outcome.report.diff[..if g.outcome.report.diff == [] then 0 else 1]))
  {
    if !NotEqual(t1, t2) {
      WalkFastPrefixOfFull(lib, State(Children(t1, t2), {}, true, []));
    }
  }

  /** Comparing a tree with itself never reports a difference: `dfs` returns
      `same` with an empty diff, or raises a parse error. */
  lemma DfsReflexive(lib: Library, t: Table, mode: string)
    ensures var o := DfsRun(lib, t, t, mode).outcome;
      o.Raised? || o == Returned(Report(true, [], false))
  {
    EqualityLaws(t, t, t);
    ZipSpec(Paths(t), Paths(t));
    assert Diagonal(Children(t, t));
    WalkDiagonal(lib, IsFast(mode), State(Children(t, t), {}, true, []));
  }

  lemma CoveredNothing(ps: seq<Pair>)
    ensures Covered(ps, {}) <==> ps == []
  {
    if ps != [] {
      assert !(ps[0].0 in {} || ps[0].1 in {});
    }
  }

  /** In full mode, when the roots agree and the walk returns, every child
      pair of the roots and every child pair of every parsed pair has a file
      the walk parsed. */
  lemma DfsExplores(lib: Library, t1: Table, t2: Table, mode: string)
    requires !IsFast(mode) && Equal(t1, t2)
    ensures var r := DfsRun(lib, t1, t2, mode);
      var seen := Files(r.processed);
      r.outcome.Returned? ==> Covered(Children(t1, t2), seen) && KidsCovered(lib, r.processed, seen)
  {
    var s := State(Children(t1, t2), {}, true, []);
    WalkExplores(lib, s);
    assert {} + Files(Walk(lib, false, s).processed) == Files(Walk(lib, false, s).processed);
  }

  /** When the roots agree, the first pair parsed is the last pair of the
      zipped children of the roots (the stack pops from its end), and nothing
      is parsed only when the roots have no children in common position. */
  lemma DfsFirstPair(lib: Library, t1: Table, t2: Table, mode: string)
    requires Equal(t1, t2)
    ensures var p, kids := DfsRun(lib, t1, t2, mode).processed, Children(t1, t2);
      (p == [] <==> kids == []) && (p != [] ==> p[0] == kids[|kids| - 1])
  {
    var s := State(Children(t1, t2), {}, true, []);
    WalkTakesTop(lib, IsFast(mode), s);
    var p := Walk(lib, IsFast(mode), s).processed;
    if s.stack != [] {
      assert !(s.stack[|s.stack| - 1].0 in s.visited || s.stack[|s.stack| - 1].1 in s.visited);
    }
    if p != [] {
      var j :| 0 <= j < |s.stack| && s.stack[j] == p[0] && Covered(s.stack[j + 1..], {});
      CoveredNothing(s.stack[j + 1..]);
    }
  }
}
