/**
  The two path operations a table uses to resolve a row's link against the
  folder of its own file: `os.path.dirname` and two-argument `os.path.join`,
  with their POSIX meaning (separator `/`).
*/
module PosixPath {

  type Path = string

  const Sep := '/'

  /** The length of `p` up to and including its last separator, 0 when it has
      none: `p.rfind('/') + 1`. */
  function AfterLastSep(p: Path): (n: nat)
    ensures n <= |p|
  {
    if p == [] then 0
    else if p[|p| - 1] == Sep then |p|
    else AfterLastSep(p[..|p| - 1])
  }

  /** `s.rstrip('/')`. */
  function TrimTrailingSeps(s: Path): (r: Path)
    ensures |r| <= |s|
  {
    if s == [] || s[|s| - 1] != Sep then s else TrimTrailingSeps(s[..|s| - 1])
  }

  predicate AllSeps(s: Path) {
    forall k :: 0 <= k < |s| ==> s[k] == Sep
  }

  /** `os.path.dirname(p)`. */
  function Dirname(p: Path): Path {
    var head := p[..AfterLastSep(p)];
    if head != [] && !AllSeps(head) then TrimTrailingSeps(head) else head
  }

  /** `os.path.join(a, b)`. */
  function Join(a: Path, b: Path): Path {
    if |b| > 0 && b[0] == Sep then b
    else if a == [] || a[|a| - 1] == Sep then a + b
    else a + [Sep] + b
  }

  /** `AfterLastSep` stops just after the last separator of `p`. */
  lemma {:induction false} AfterLastSepSpec(p: Path)
    ensures var n := AfterLastSep(p);
      (n > 0 ==> p[n - 1] == Sep) && (forall k :: n <= k < |p| ==> p[k] != Sep)
  {
    if p != [] && p[|p| - 1] != Sep {
      AfterLastSepSpec(p[..|p| - 1]);
      var n := AfterLastSep(p[..|p| - 1]);
      forall k | n <= k < |p| - 1 ensures p[k] != Sep {
        assert p[k] == p[..|p| - 1][k];
      }
    }
  }

  /** `rstrip('/')` removes exactly the separators that end `s`. */
  lemma {:induction false} TrimTrailingSepsSpec(s: Path)
    ensures var r := TrimTrailingSeps(s);
      r == s[..|r|] && (forall k :: |r| <= k < |s| ==> s[k] == Sep) && (r == [] || r[|r| - 1] != Sep)
  {
    if s != [] && s[|s| - 1] == Sep {
      TrimTrailingSepsSpec(s[..|s| - 1]);
      var r := TrimTrailingSeps(s[..|s| - 1]);
      assert s[..|s| - 1][..|r|] == s[..|r|];
      forall k | |r| <= k < |s| - 1 ensures s[k] == Sep {
        assert s[k] == s[..|s| - 1][k];
      }
    }
  }

  /** The folder of `p` is a prefix of `p` that ends at or before its last
      separator: empty exactly when `p` has no separator; the whole head up to
      the last separator when that head is all separators (the root);
      ending in a separator only when it is all separators; and what follows
      it up to the last separator is separators. */
  lemma DirnameSpec(p: Path)
    ensures var r, n := Dirname(p), AfterLastSep(p);
      |r| <= n && r == p[..|r|] &&
      (AllSeps(p[..n]) ==> r == p[..n]) &&
      (Sep !in p <==> r == []) &&
      (r != [] && r[|r| - 1] == Sep ==> AllSeps(r)) &&
      (forall k :: |r| <= k < AfterLastSep(p) ==> p[k] == Sep)
  {
    AfterLastSepSpec(p);
    var head := p[..AfterLastSep(p)];
    assert Sep in p ==> head != [] by {
      if Sep in p {
        var k :| 0 <= k < |p| && p[k] == Sep;
      }
    }
    if head != [] && !AllSeps(head) {
      TrimTrailingSepsSpec(head);
      var r := TrimTrailingSeps(head);
      assert r != [];
      assert p[|head| - 1] == Sep;
      assert r == p[..|r|];
    }
  }

  /** Joining keeps an absolute `b` alone; otherwise it is `a`, then one
      separator exactly when `a` is non-empty and does not already end with
      one, then `b`. */
  lemma JoinSpec(a: Path, b: Path)
    ensures var r := Join(a, b);
      (|b| > 0 && b[0] == Sep ==> r == b) &&
      (!(|b| > 0 && b[0] == Sep) ==>
        |a| <= |r| - |b| <= |a| + 1 && r[..|a|] == a && r[|r| - |b|..] == b &&
        (|r| - |b| == |a| + 1 <==> a != [] && a[|a| - 1] != Sep) &&
        (|r| - |b| == |a| + 1 ==> r[|a|] == Sep))
  {
  }
}
