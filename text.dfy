/**
  The string operations that turn the text of a table cell and the href of an
  anchor into the fields of a table row: Python's `str.strip()` with no
  argument, and the prefix `href.split('.htm')[0]`.
*/
module Text {

  /** The characters for which Python's `str.isspace()` holds: Unicode
      White_Space plus the information separators U+001C..U+001F. */
  const Whitespace: set<char> := {
    '\U{0009}', '\U{000A}', '\U{000B}', '\U{000C}', '\U{000D}', '\U{001C}', '\U{001D}',
    '\U{001E}', '\U{001F}', '\U{0020}', '\U{0085}', '\U{00A0}', '\U{1680}', '\U{2000}',
    '\U{2001}', '\U{2002}', '\U{2003}', '\U{2004}', '\U{2005}', '\U{2006}', '\U{2007}',
    '\U{2008}', '\U{2009}', '\U{200A}', '\U{2028}', '\U{2029}', '\U{202F}', '\U{205F}',
    '\U{3000}'
  }

  predicate IsSpace(c: char) {
    c in Whitespace
  }

  /** `s.lstrip()`. */
  function TrimStart(s: string): (r: string)
    ensures |r| <= |s|
  {
    if s == [] || !IsSpace(s[0]) then s else TrimStart(s[1..])
  }

  /** `s.rstrip()`. */
  function TrimEnd(s: string): (r: string)
    ensures |r| <= |s|
  {
    if s == [] || !IsSpace(s[|s| - 1]) then s else TrimEnd(s[..|s| - 1])
  }

  /** `s.strip()`. */
  function Strip(s: string): string {
    TrimEnd(TrimStart(s))
  }

  /** `lstrip` keeps the longest suffix that does not start with whitespace. */
  lemma {:induction false} TrimStartSpec(s: string)
    ensures var r := TrimStart(s);
      |r| <= |s| && r == s[|s| - |r|..] &&
      (forall k :: 0 <= k < |s| - |r| ==> IsSpace(s[k])) &&
      (r == [] || !IsSpace(r[0]))
  {
    if s != [] && IsSpace(s[0]) {
      TrimStartSpec(s[1..]);
      var r := TrimStart(s[1..]);
      assert s[1..][|s| - 1 - |r|..] == s[|s| - |r|..];
      forall k | 1 <= k < |s| - |r| ensures IsSpace(s[k]) {
        assert s[k] == s[1..][k - 1];
      }
    }
  }

  /** `rstrip` keeps the longest prefix that does not end with whitespace. */
  lemma {:induction false} TrimEndSpec(s: string)
    ensures var r := TrimEnd(s);
      |r| <= |s| && r == s[..|r|] &&
      (forall k :: |r| <= k < |s| ==> IsSpace(s[k])) &&
      (r == [] || !IsSpace(r[|r| - 1]))
  {
    if s != [] && IsSpace(s[|s| - 1]) {
      TrimEndSpec(s[..|s| - 1]);
      var r := TrimEnd(s[..|s| - 1]);
      assert s[..|s| - 1][..|r|] == s[..|r|];
      forall k | |r| <= k < |s| - 1 ensures IsSpace(s[k]) {
        assert s[k] == s[..|s| - 1][k];
      }
    }
  }

  /** What `Strip` removes is whitespace on both ends and nothing else: the
      result is the slice of `s` that starts after its leading whitespace, and
      it neither starts nor ends with whitespace. */
  lemma StripSlice(s: string)
    ensures var r, i := Strip(s), |s| - |TrimStart(s)|;
      i + |r| <= |s| && r == s[i..i + |r|] &&
      (forall k :: 0 <= k < i ==> IsSpace(s[k])) &&
      (forall k :: i + |r| <= k < |s| ==> IsSpace(s[k])) &&
      (r == [] || (!IsSpace(r[0]) && !IsSpace(r[|r| - 1])))
  {
    TrimStartSpec(s);
    TrimEndSpec(TrimStart(s));
    StripKeepsMiddle(s);
    StripEnds(s);
    StripDropsTrailingSpace(s);
  }

  lemma StripKeepsMiddle(s: string)
    ensures var r, i := Strip(s), |s| - |TrimStart(s)|; i + |r| <= |s| && r == s[i..i + |r|]
  {
    TrimStartSpec(s);
    var t := TrimStart(s);
    TrimEndSpec(t);
    var r := TrimEnd(t);
    var i := |s| - |t|;
    assert t == s[i..] && r == t[..|r|];
  }

  lemma StripEnds(s: string)
    ensures var r := Strip(s); r == [] || (!IsSpace(r[0]) && !IsSpace(r[|r| - 1]))
  {
    TrimStartSpec(s);
    var t := TrimStart(s);
    TrimEndSpec(t);
    var r := TrimEnd(t);
    assert r != [] ==> r[0] == t[0];
  }

  lemma StripDropsTrailingSpace(s: string)
    ensures var r, i := Strip(s), |s| - |TrimStart(s)|; forall k :: i + |r| <= k < |s| ==> IsSpace(s[k])
  {
    TrimStartSpec(s);
    var t := TrimStart(s);
    TrimEndSpec(t);
    var r := TrimEnd(t);
    var i := |s| - |t|;
    forall k | i + |r| <= k < |s| ensures IsSpace(s[k]) {
      assert s[k] == t[k - i];
    }
  }

  /** Stripping twice is stripping once. */
  lemma StripIdempotent(s: string)
    ensures Strip(Strip(s)) == Strip(s)
  {
    var r := Strip(s);
    StripEnds(s);
    if r != [] {
      assert TrimStart(r) == r;
      assert TrimEnd(r) == r;
    }
  }

  /** The marker that ends a link to another document. */
  const Htm := ".htm"

  /** `".htm"` occurs in `s` at index `k`. */
  predicate HtmAt(s: string, k: int) {
    0 <= k && k + 4 <= |s| && s[k] == '.' && s[k + 1] == 'h' && s[k + 2] == 't' && s[k + 3] == 'm'
  }

  /** The index of the first `".htm"` in `s`, or `|s|` if there is none. */
  function FirstHtm(s: string): (n: nat)
    ensures n <= |s|
  {
    if |s| < |Htm| then |s|
    else if HtmAt(s, 0) then 0
    else 1 + FirstHtm(s[1..])
  }

  /** `FirstHtm` finds the first occurrence, so `s[..FirstHtm(s)]` is
      `s.split('.htm')[0]`: all of `s` when it holds no `".htm"`. */
  lemma {:induction false} FirstHtmSpec(s: string)
    ensures var n := FirstHtm(s);
      n <= |s| && (n < |s| ==> HtmAt(s, n)) && (forall k :: 0 <= k < n ==> !HtmAt(s, k))
  {
    if |s| >= |Htm| && !HtmAt(s, 0) {
      FirstHtmSpec(s[1..]);
      var m := FirstHtm(s[1..]);
      assert forall k :: 1 <= k <= m ==> (HtmAt(s, k) <==> HtmAt(s[1..], k - 1));
    }
  }
}
