/**
 * The file-name sanitiser of `rename-release-confirmations.py`: each field
 * read from a release confirmation is turned into a token that is safe in
 * a file name, and three such tokens make the new name
 * `<award date>-<award number>-<release date>.pdf`.
 */
module ReleaseNames {
  import opened Wrappers
  import opened Text

  /** The characters the pattern `[^A-Za-z0-9._-]` does not match. */
  predicate IsSafeChar(c: char) {
    ('A' <= c <= 'Z') || ('a' <= c <= 'z') || ('0' <= c <= '9') || c == '.' || c == '_' || c == '-'
  }

  predicate IsUnsafeChar(c: char) {
    !IsSafeChar(c)
  }

  predicate IsDash(c: char) {
    c == '-'
  }

  /** The characters `strip("-._")` removes from both ends. */
  predicate IsEdgeChar(c: char) {
    c == '-' || c == '.' || c == '_'
  }

  predicate IsAlnum(c: char) {
    ('A' <= c <= 'Z') || ('a' <= c <= 'z') || ('0' <= c <= '9')
  }

  predicate AllSafe(s: string) {
    forall i :: 0 <= i < |s| ==> IsSafeChar(s[i])
  }

  predicate NoDoubleDash(s: string) {
    forall i :: 0 <= i < |s| - 1 ==> !(s[i] == '-' && s[i + 1] == '-')
  }

  /** What a sanitised field looks like when it is not the fallback. */
  predicate IsSafeToken(s: string) {
    s != [] && AllSafe(s) && NoDoubleDash(s) && !IsEdgeChar(s[0]) && !IsEdgeChar(s[|s| - 1])
  }

  /** `SAFE_CHARS_RE.sub("-", s)`: every maximal run of unsafe characters becomes one '-'. */
  function ReplaceUnsafeRuns(s: string): (r: string)
    ensures AllSafe(r)
    ensures |r| <= |s|
    ensures r == [] <==> s == []
    decreases |s|
  {
    if s == [] then []
    else if IsSafeChar(s[0]) then [s[0]] + ReplaceUnsafeRuns(s[1..])
    else "-" + ReplaceUnsafeRuns(s[LeadingRun(s, IsUnsafeChar)..])
  }

  /** `re.sub(r"-{2,}", "-", s)`: every run of two or more '-' becomes one. */
  function CollapseDashes(s: string): (r: string)
    ensures NoDoubleDash(r)
    ensures AllSafe(s) ==> AllSafe(r)
    ensures |r| <= |s|
    ensures r == [] <==> s == []
    ensures r != [] ==> (r[0] == '-' <==> s[0] == '-')
    decreases |s|
  {
    if s == [] then []
    else if s[0] == '-' then
      var rest := s[LeadingRun(s, IsDash)..];
      "-" + CollapseDashes(rest)
    else
      [s[0]] + CollapseDashes(s[1..])
  }

  /** The steps of `safe_part` after the blank check: separators, unsafe runs, dash runs, edges. */
  function Sanitize(s: string): string {
    Trim(CollapseDashes(ReplaceUnsafeRuns(ReplaceChar(ReplaceChar(s, '/', '-'), '\\', '-'))), IsEdgeChar)
  }

  /** `safe_part(s, fallback)`. */
  function SafePart(s: Option<string>, fallback: string): (r: string)
    ensures s.None? ==> r == fallback
    ensures s.Some? && Strip(s.value) == [] ==> r == fallback
    ensures r == fallback || IsSafeToken(r)
    ensures fallback != [] ==> r != []
  {
    if s.None? then fallback
    else
      var t := Strip(s.value);
      if t == [] then fallback
      else
        var u := Sanitize(t);
        SanitizeIsSafe(t);
        if u == [] then fallback else u
  }

  lemma SanitizeIsSafe(s: string)
    ensures Sanitize(s) == [] || IsSafeToken(Sanitize(s))
  {
    var c := CollapseDashes(ReplaceUnsafeRuns(ReplaceChar(ReplaceChar(s, '/', '-'), '\\', '-')));
    SliceKeepsSafety(c);
  }

  /** Trimming the edge characters of safe text without "--" gives nothing or a safe token. */
  lemma SliceKeepsSafety(c: string)
    requires AllSafe(c) && NoDoubleDash(c)
    ensures Trim(c, IsEdgeChar) == [] || IsSafeToken(Trim(c, IsEdgeChar))
  {
    var r := Trim(c, IsEdgeChar);
    var a := TrimIsSlice(c, IsEdgeChar);
    forall i | 0 <= i < |r|
      ensures IsSafeChar(r[i])
    {
      assert r[i] == c[a + i];
    }
    forall i | 0 <= i < |r| - 1
      ensures !(r[i] == '-' && r[i + 1] == '-')
    {
      assert r[i] == c[a + i] && r[i + 1] == c[a + i + 1];
    }
  }

  /** A result that is not the fallback contains neither '/' nor '\' and is neither "." nor "..". */
  lemma NoPathSeparators(s: Option<string>, fallback: string)
    requires SafePart(s, fallback) != fallback
    ensures forall i :: 0 <= i < |SafePart(s, fallback)| ==> SafePart(s, fallback)[i] != '/' && SafePart(s, fallback)[i] != '\\'
    ensures SafePart(s, fallback) != "." && SafePart(s, fallback) != ".."
  {
    var r := SafePart(s, fallback);
    assert IsSafeToken(r);
    assert !IsEdgeChar(r[0]);
  }

  // ---------------------------------------------------------------------
  // A token that is already safe passes through unchanged.
  // ---------------------------------------------------------------------

  lemma {:induction false} SafeRunsUnchanged(s: string)
    requires AllSafe(s)
    ensures ReplaceUnsafeRuns(s) == s
    decreases |s|
  {
    if s != [] {
      SafeRunsUnchanged(s[1..]);
    }
  }

  lemma {:induction false} SingleDashesUnchanged(s: string)
    requires NoDoubleDash(s)
    ensures CollapseDashes(s) == s
    decreases |s|
  {
    if s != [] {
      if s[0] == '-' {
        assert LeadingRun(s, IsDash) == 1 by {
          assert |s| > 1 ==> s[1] != '-';
        }
      }
      SingleDashesUnchanged(s[1..]);
    }
  }

  /** `safe_part` leaves a safe token as it is: it is a fixed point. */
  lemma SafeTokenIsFixedPoint(t: string, fallback: string)
    requires IsSafeToken(t)
    ensures SafePart(Some(t), fallback) == t
  {
    StripOfToken(t);
    SanitizeOfToken(t);
  }

  /** The rewrite chain finds nothing to change in a safe token. */
  lemma SanitizeOfToken(t: string)
    requires IsSafeToken(t)
    ensures Sanitize(t) == t
  {
    ReplaceAbsent(t, '/', '-');
    ReplaceAbsent(t, '\\', '-');
    SafeRunsUnchanged(t);
    SingleDashesUnchanged(t);
    assert Trim(t, IsEdgeChar) == t;
  }

  /** A safe token has no whitespace at its ends, so `strip()` keeps it whole. */
  lemma StripOfToken(t: string)
    requires IsSafeToken(t)
    ensures Strip(t) == t
  {
    assert !IsSpace(t[0]) && !IsSpace(t[|t| - 1]);
  }

  /** `replace` of a character that does not occur changes nothing. */
  lemma ReplaceAbsent(s: string, from: char, to: char)
    requires forall i :: 0 <= i < |s| ==> s[i] != from
    ensures ReplaceChar(s, from, to) == s
  {
  }

  /** Sanitising a sanitised field again changes nothing, when the fallback is itself safe. */
  lemma SafePartIdempotent(s: Option<string>, fallback: string)
    requires IsSafeToken(fallback)
    ensures SafePart(Some(SafePart(s, fallback)), fallback) == SafePart(s, fallback)
  {
    SafeTokenIsFixedPoint(SafePart(s, fallback), fallback);
  }

  // ---------------------------------------------------------------------
  // The defining steps of the two run rewrites.
  // ---------------------------------------------------------------------

  /** `k` dashes. */
  function Dashes(k: nat): (r: string)
    ensures |r| == k
    ensures forall i :: 0 <= i < k ==> r[i] == '-'
  {
    if k == 0 then [] else "-" + Dashes(k - 1)
  }

  /**
   * The leading run of `u + y` ends inside `u` when `y` starts with a
   * character `drop` refuses, and covers all of `u` when `drop` accepts all of it.
   */
  lemma {:induction false} LeadingRunStops(u: string, y: string, drop: char -> bool)
    requires y == [] || !drop(y[0])
    ensures LeadingRun(u + y, drop) <= |u|
    ensures (forall i :: 0 <= i < |u| ==> drop(u[i])) ==> LeadingRun(u + y, drop) == |u|
    decreases |u|
  {
    if u == [] {
      assert u + y == y;
    } else {
      assert (u + y)[0] == u[0] && (u + y)[1..] == u[1..] + y;
      LeadingRunStops(u[1..], y, drop);
    }
  }

  /** Safe characters are copied one by one by `SAFE_CHARS_RE.sub`. */
  lemma {:induction false} SafePrefixCopied(x: string, rest: string)
    requires AllSafe(x)
    ensures ReplaceUnsafeRuns(x + rest) == x + ReplaceUnsafeRuns(rest)
    decreases |x|
  {
    if x == [] {
      assert x + rest == rest;
    } else {
      assert (x + rest)[0] == x[0] && (x + rest)[1..] == x[1..] + rest;
      SafePrefixCopied(x[1..], rest);
      assert x == [x[0]] + x[1..];
    }
  }

  /** One maximal run of unsafe characters after safe text becomes a single '-'. */
  lemma ReplaceUnsafeRunsStep(x: string, u: string, y: string)
    requires AllSafe(x)
    requires u != [] && forall i :: 0 <= i < |u| ==> IsUnsafeChar(u[i])
    requires y == [] || IsSafeChar(y[0])
    ensures ReplaceUnsafeRuns(x + u + y) == x + "-" + ReplaceUnsafeRuns(y)
  {
    var r := u + y;
    assert x + u + y == x + r;
    SafePrefixCopied(x, r);
    UnsafeRunHead(u, y);
    var c := ReplaceUnsafeRuns(y);
    Regroup(x, "-", c);
  }

  /** A block of unsafe characters before a safe one is the whole first run. */
  lemma UnsafeRunHead(u: string, y: string)
    requires u != [] && forall i :: 0 <= i < |u| ==> IsUnsafeChar(u[i])
    requires y == [] || IsSafeChar(y[0])
    ensures ReplaceUnsafeRuns(u + y) == "-" + ReplaceUnsafeRuns(y)
  {
    LeadingRunStops(u, y, IsUnsafeChar);
    assert (u + y)[0] == u[0];
    assert (u + y)[|u|..] == y;
  }

  /**
   * A non-empty stretch of unsafe characters and dashes before a safe
   * character other than '-' comes out as dashes only.
   */
  lemma {:induction false} MixedRunBecomesDashes(v: string, y: string) returns (k: nat)
    requires v != [] && forall i :: 0 <= i < |v| ==> v[i] == '-' || IsUnsafeChar(v[i])
    requires y == [] || (IsSafeChar(y[0]) && y[0] != '-')
    ensures k >= 1 && ReplaceUnsafeRuns(v + y) == Dashes(k) + ReplaceUnsafeRuns(y)
    decreases |v|
  {
    var n := MixedRunHead(v, y);
    if n == |v| {
      assert v[n..] + y == y;
      k := 1;
      assert Dashes(k) == "-";
    } else {
      var w := v[n..];
      assert forall i :: 0 <= i < |w| ==> w[i] == v[n + i];
      var k' := MixedRunBecomesDashes(w, y);
      k := k' + 1;
      assert Dashes(k) == "-" + Dashes(k');
      Regroup("-", Dashes(k'), ReplaceUnsafeRuns(y));
    }
  }

  /** The first '-' or unsafe run of such a stretch gives one '-' and ends inside the stretch. */
  lemma MixedRunHead(v: string, y: string) returns (n: nat)
    requires v != [] && (v[0] == '-' || IsUnsafeChar(v[0]))
    requires y == [] || IsSafeChar(y[0])
    ensures 1 <= n <= |v|
    ensures ReplaceUnsafeRuns(v + y) == "-" + ReplaceUnsafeRuns(v[n..] + y)
  {
    var s := v + y;
    assert s[0] == v[0];
    LeadingRunStops(v, y, IsUnsafeChar);
    n := if v[0] == '-' then 1 else LeadingRun(s, IsUnsafeChar);
    assert ReplaceUnsafeRuns(s) == "-" + ReplaceUnsafeRuns(s[n..]);
    assert s[n..] == v[n..] + y;
  }

  /** A single '-' is kept by `re.sub(r"-{2,}", "-", s)`. */
  lemma CollapseSingleDash(s: string)
    requires |s| >= 2 && s[0] == '-' && s[1] != '-'
    ensures CollapseDashes(s) == "-" + CollapseDashes(s[1..])
  {
    LeadingRunStops([s[0]], s[1..], IsDash);
    assert [s[0]] + s[1..] == s;
  }

  /** Text without "--" that does not end in '-' is copied by `re.sub(r"-{2,}", "-", s)`. */
  lemma {:induction false} CollapsePrefixCopied(x: string, rest: string)
    requires NoDoubleDash(x) && (x == [] || x[|x| - 1] != '-')
    ensures CollapseDashes(x + rest) == x + CollapseDashes(rest)
    decreases |x|
  {
    if x == [] {
      assert x + rest == rest;
    } else {
      var s := x + rest;
      var t := x[1..];
      assert s[0] == x[0] && s[1..] == t + rest;
      if x[0] == '-' {
        assert s[1] == x[1];
        CollapseSingleDash(s);
      }
      assert CollapseDashes(s) == [x[0]] + CollapseDashes(t + rest);
      assert NoDoubleDash(t) by {
        forall i | 0 <= i < |t| - 1
          ensures !(t[i] == '-' && t[i + 1] == '-')
        {
          assert t[i] == x[i + 1] && t[i + 1] == x[i + 2];
        }
      }
      CollapsePrefixCopied(t, rest);
      assert x == [x[0]] + t;
    }
  }

  /** One or more dashes before a character other than '-' become a single '-'. */
  lemma CollapseDashRun(k: nat, y: string)
    requires k >= 1
    requires y == [] || y[0] != '-'
    ensures CollapseDashes(Dashes(k) + y) == "-" + CollapseDashes(y)
  {
    var s := Dashes(k) + y;
    LeadingRunStops(Dashes(k), y, IsDash);
    assert s[0] == '-';
    assert s[k..] == y;
  }

  /** A run of one or more dashes after text without "--" becomes a single '-'. */
  lemma CollapseDashesStep(x: string, k: nat, y: string)
    requires NoDoubleDash(x) && (x == [] || x[|x| - 1] != '-')
    requires k >= 1
    requires y == [] || y[0] != '-'
    ensures CollapseDashes(x + Dashes(k) + y) == x + "-" + CollapseDashes(y)
  {
    var r := Dashes(k) + y;
    assert x + Dashes(k) + y == x + r;
    CollapsePrefixCopied(x, r);
    CollapseDashRun(k, y);
    var c := CollapseDashes(y);
    Regroup(x, "-", c);
  }

  /** Concatenation regrouped, kept apart so that the steps above stay cheap to check. */
  lemma Regroup(a: string, b: string, c: string)
    ensures a + (b + c) == a + b + c
  {
  }

  /** `replace` acts on each part of a concatenation separately. */
  lemma ReplaceAppend(a: string, b: string, from: char, to: char)
    ensures ReplaceChar(a + b, from, to) == ReplaceChar(a, from, to) + ReplaceChar(b, from, to)
  {
  }

  /** Both separator replacements leave safe text alone. */
  lemma SeparatorsAround(x: string, u: string, y: string)
    requires AllSafe(x) && AllSafe(y)
    ensures ReplaceChar(ReplaceChar(x + u + y, '/', '-'), '\\', '-')
            == x + ReplaceChar(ReplaceChar(u, '/', '-'), '\\', '-') + y
  {
    var u1 := ReplaceChar(u, '/', '-');
    ReplaceAppend(x + u, y, '/', '-');
    ReplaceAppend(x, u, '/', '-');
    ReplaceAbsent(x, '/', '-');
    ReplaceAbsent(y, '/', '-');
    ReplaceAppend(x + u1, y, '\\', '-');
    ReplaceAppend(x, u1, '\\', '-');
    ReplaceAbsent(x, '\\', '-');
    ReplaceAbsent(y, '\\', '-');
  }

  /**
   * Two safe tokens separated by any run of unsafe characters (spaces,
   * slashes, punctuation) come out joined by exactly one '-'.
   */
  lemma SafePartJoinsTokens(x: string, u: string, y: string, fallback: string)
    requires IsSafeToken(x) && IsSafeToken(y)
    requires u != [] && forall i :: 0 <= i < |u| ==> IsUnsafeChar(u[i])
    ensures SafePart(Some(x + u + y), fallback) == x + "-" + y
  {
    var s := x + u + y;
    assert s[0] == x[0] && s[|s| - 1] == y[|y| - 1];
    assert Strip(s) == s;
    SanitizeJoinsTokens(x, u, y);
  }

  /** The rewrite chain turns the unsafe run between two safe tokens into one '-'. */
  lemma SanitizeJoinsTokens(x: string, u: string, y: string)
    requires IsSafeToken(x) && IsSafeToken(y)
    requires u != [] && forall i :: 0 <= i < |u| ==> IsUnsafeChar(u[i])
    ensures Sanitize(x + u + y) == x + "-" + y
  {
    var k := UnsafeRunsBetweenTokens(x, u, y);
    CollapseDashesStep(x, k, y);
    SingleDashesUnchanged(y);
    var j := x + "-" + y;
    assert j[0] == x[0] && j[|j| - 1] == y[|y| - 1];
    assert Trim(j, IsEdgeChar) == j;
  }

  /** After the separator replacements, the unsafe run between two safe tokens becomes dashes only. */
  lemma UnsafeRunsBetweenTokens(x: string, u: string, y: string) returns (k: nat)
    requires IsSafeToken(x) && IsSafeToken(y)
    requires u != [] && forall i :: 0 <= i < |u| ==> IsUnsafeChar(u[i])
    ensures k >= 1
    ensures ReplaceUnsafeRuns(ReplaceChar(ReplaceChar(x + u + y, '/', '-'), '\\', '-')) == x + Dashes(k) + y
  {
    var v := SeparatorsInRun(u);
    SeparatorsAround(x, u, y);
    k := MixedRunBecomesDashes(v, y);
    var r := v + y;
    Regroup(x, v, y);
    SafePrefixCopied(x, r);
    SafeRunsUnchanged(y);
    Regroup(x, Dashes(k), y);
  }

  /** Replacing '/' and '\' in a run of unsafe characters leaves a run of unsafe characters and dashes. */
  lemma SeparatorsInRun(u: string) returns (v: string)
    requires u != [] && forall i :: 0 <= i < |u| ==> IsUnsafeChar(u[i])
    ensures v == ReplaceChar(ReplaceChar(u, '/', '-'), '\\', '-')
    ensures v != [] && forall i :: 0 <= i < |v| ==> v[i] == '-' || IsUnsafeChar(v[i])
  {
    v := ReplaceChar(ReplaceChar(u, '/', '-'), '\\', '-');
  }

  // ---------------------------------------------------------------------
  // The letters and digits of the field survive, in order.
  // ---------------------------------------------------------------------

  /** The ASCII letters and digits of `s`, in order. */
  function Alnums(s: string): string {
    if s == [] then [] else (if IsAlnum(s[0]) then [s[0]] else []) + Alnums(s[1..])
  }

  lemma {:induction false} AlnumsAppend(a: string, b: string)
    ensures Alnums(a + b) == Alnums(a) + Alnums(b)
    decreases |a|
  {
    if a != [] {
      var head := if IsAlnum(a[0]) then [a[0]] else [];
      assert (a + b)[0] == a[0] && (a + b)[1..] == a[1..] + b;
      assert Alnums(a + b) == head + Alnums(a[1..] + b);
      AlnumsAppend(a[1..], b);
      assert Alnums(a) == head + Alnums(a[1..]);
    } else {
      assert a + b == b;
    }
  }

  lemma {:induction false} AlnumsOfNone(s: string)
    requires forall i :: 0 <= i < |s| ==> !IsAlnum(s[i])
    ensures Alnums(s) == []
    decreases |s|
  {
    if s != [] {
      AlnumsOfNone(s[1..]);
    }
  }

  lemma SplitThree(s: string, a: nat, n: nat)
    requires a + n <= |s|
    ensures s == s[..a] + (s[a..a + n] + s[a + n..])
  {
  }

  /** Trimming characters that are not letters or digits keeps every letter and digit. */
  lemma TrimKeepsAlnums(s: string, drop: char -> bool)
    requires forall i :: 0 <= i < |s| && drop(s[i]) ==> !IsAlnum(s[i])
    ensures Alnums(Trim(s, drop)) == Alnums(s)
  {
    var a := TrimIsSlice(s, drop);
    var n := |Trim(s, drop)|;
    SplitThree(s, a, n);
    PaddingHasNoAlnums(s, a, n, drop);
  }

  /** Letters and digits of `s` all lie in the middle piece `s[a..a + n]`. */
  lemma PaddingHasNoAlnums(s: string, a: nat, n: nat, drop: char -> bool)
    requires a + n <= |s| && s == s[..a] + (s[a..a + n] + s[a + n..])
    requires forall i :: 0 <= i < a ==> drop(s[i])
    requires forall i :: a + n <= i < |s| ==> drop(s[i])
    requires forall i :: 0 <= i < |s| && drop(s[i]) ==> !IsAlnum(s[i])
    ensures Alnums(s) == Alnums(s[a..a + n])
  {
    var pre, mid, post := s[..a], s[a..a + n], s[a + n..];
    forall i | 0 <= i < |pre| ensures !IsAlnum(pre[i]) {
      assert pre[i] == s[i];
    }
    forall i | 0 <= i < |post| ensures !IsAlnum(post[i]) {
      assert post[i] == s[a + n + i];
    }
    AlnumsOfNone(pre);
    AlnumsOfNone(post);
    AlnumsAppend(pre, mid + post);
    AlnumsAppend(mid, post);
  }

  lemma {:induction false} ReplaceKeepsAlnums(s: string, from: char, to: char)
    requires !IsAlnum(from) && !IsAlnum(to)
    ensures Alnums(ReplaceChar(s, from, to)) == Alnums(s)
    decreases |s|
  {
    if s != [] {
      assert ReplaceChar(s, from, to)[1..] == ReplaceChar(s[1..], from, to);
      ReplaceKeepsAlnums(s[1..], from, to);
    }
  }

  lemma {:induction false} UnsafeRunsKeepAlnums(s: string)
    ensures Alnums(ReplaceUnsafeRuns(s)) == Alnums(s)
    decreases |s|
  {
    if s != [] {
      if IsSafeChar(s[0]) {
        UnsafeRunsKeepAlnums(s[1..]);
      } else {
        var n := LeadingRun(s, IsUnsafeChar);
        UnsafeRunsKeepAlnums(s[n..]);
        assert s == s[..n] + s[n..];
        AlnumsAppend(s[..n], s[n..]);
        AlnumsOfNone(s[..n]);
        AlnumsAppend("-", ReplaceUnsafeRuns(s[n..]));
      }
    }
  }

  lemma {:induction false} CollapseKeepsAlnums(s: string)
    ensures Alnums(CollapseDashes(s)) == Alnums(s)
    decreases |s|
  {
    if s != [] {
      if s[0] == '-' {
        var n := LeadingRun(s, IsDash);
        CollapseKeepsAlnums(s[n..]);
        assert s == s[..n] + s[n..];
        AlnumsAppend(s[..n], s[n..]);
        AlnumsOfNone(s[..n]);
        AlnumsAppend("-", CollapseDashes(s[n..]));
      } else {
        CollapseKeepsAlnums(s[1..]);
      }
    }
  }

  /**
   * A field with at least one ASCII letter or digit is never replaced by the
   * fallback: its sanitised form keeps every letter and digit, in order, and adds none.
   */
  lemma SafePartKeepsAlnums(s: string, fallback: string)
    requires Alnums(s) != []
    ensures Alnums(SafePart(Some(s), fallback)) == Alnums(s)
  {
    TrimKeepsAlnums(s, IsSpace);
    assert Strip(s) != [];
    SanitizeKeepsAlnums(Strip(s));
    assert Sanitize(Strip(s)) != [];
  }

  /**
   * A field with no ASCII letter or digit (only spaces, punctuation or other
   * characters) always gives the fallback: the rewrite chain leaves nothing of it.
   */
  lemma SafePartNoAlnumFallsBack(s: string, fallback: string)
    requires Alnums(s) == []
    ensures SafePart(Some(s), fallback) == fallback
  {
    TrimKeepsAlnums(s, IsSpace);
    var t := Strip(s);
    if t != [] {
      SanitizeKeepsAlnums(t);
      SanitizeIsSafe(t);
      var u := Sanitize(t);
      if u != [] {
        TokenHasAlnum(u);
      }
    }
  }

  /** A safe token starts with a letter or digit, so it has one. */
  lemma TokenHasAlnum(r: string)
    requires IsSafeToken(r)
    ensures Alnums(r) != []
  {
    assert IsAlnum(r[0]);
  }

  /** Each step of the rewrite chain keeps the letters and digits. */
  lemma SanitizeKeepsAlnums(t: string)
    ensures Alnums(Sanitize(t)) == Alnums(t)
  {
    var r1 := ReplaceChar(t, '/', '-');
    ReplaceKeepsAlnums(t, '/', '-');
    var r2 := ReplaceChar(r1, '\\', '-');
    ReplaceKeepsAlnums(r1, '\\', '-');
    var r3 := ReplaceUnsafeRuns(r2);
    UnsafeRunsKeepAlnums(r2);
    var r4 := CollapseDashes(r3);
    CollapseKeepsAlnums(r3);
    TrimKeepsAlnums(r4, IsEdgeChar);
  }


  // ---------------------------------------------------------------------
  // The target name.
  // ---------------------------------------------------------------------

  /** The metadata `parse_pdf` returns: a field may be missing or hold None. */
  type Meta = map<string, Option<string>>

  /** `meta.get(key)`. */
  function Get(meta: Meta, key: string): Option<string> {
    if key in meta then meta[key] else None
  }

  /** `str(x or "")` for a text field. */
  function TextOrEmpty(v: Option<string>): string {
    if v.Some? then v.value else ""
  }

  /** The three fixed fallbacks are safe tokens themselves. */
  lemma FallbacksAreSafe()
    ensures IsSafeToken("unknown-awarddate") && IsSafeToken("unknown-awardnum") && IsSafeToken("unknown-releasedate")
  {
  }

  /** Safe tokens joined by '-' with a ".pdf" suffix keep every character safe. */
  lemma JoinedTokensAreSafe(x: string, y: string, z: string)
    requires IsSafeToken(x) && IsSafeToken(y) && IsSafeToken(z)
    ensures AllSafe(Joined(x, y, z))
  {
    var name := Joined(x, y, z);
    forall i | 0 <= i < |name|
      ensures IsSafeChar(name[i])
    {
      if i < |x| {
        assert name[i] == x[i];
      } else if i == |x| || i == |x| + 1 + |y| {
        assert name[i] == '-';
      } else if i < |x| + 1 + |y| {
        assert name[i] == y[i - |x| - 1];
      } else if i < |x| + 2 + |y| + |z| {
        assert name[i] == z[i - |x| - 2 - |y|];
      } else {
        assert name[i] == ".pdf"[i - |x| - 2 - |y| - |z|];
      }
    }
  }

  /** The f-string `{award_date}-{award_num}-{release_dt}.pdf`. */
  function Joined(x: string, y: string, z: string): string {
    x + "-" + y + "-" + z + ".pdf"
  }

  /** `build_target_name`. */
  function BuildTargetName(meta: Meta): (name: string)
    ensures |name| > 4 && name[|name| - 4..] == ".pdf"
    ensures AllSafe(name)
    ensures !IsEdgeChar(name[0])
  {
    var awardDate := SafePart(Get(meta, "Award Date"), "unknown-awarddate");
    var awardNum := SafePart(Some(TextOrEmpty(Get(meta, "Award Number"))), "unknown-awardnum");
    var releaseDate := SafePart(Get(meta, "Release Date"), "unknown-releasedate");
    FallbacksAreSafe();
    JoinedTokensAreSafe(awardDate, awardNum, releaseDate);
    var name := Joined(awardDate, awardNum, releaseDate);
    assert name[0] == awardDate[0];
    assert name[|name| - 4..] == ".pdf";
    name
  }

  /**
   * When each of the three fields holds a letter or digit, the name holds
   * exactly the letters and digits of the three fields, in order, then "pdf".
   */
  lemma TargetNameKeepsFieldText(meta: Meta)
    requires Get(meta, "Award Date").Some? && Alnums(Get(meta, "Award Date").value) != []
    requires Get(meta, "Award Number").Some? && Alnums(Get(meta, "Award Number").value) != []
    requires Get(meta, "Release Date").Some? && Alnums(Get(meta, "Release Date").value) != []
    ensures Alnums(BuildTargetName(meta))
            == Alnums(Get(meta, "Award Date").value) + Alnums(Get(meta, "Award Number").value)
               + Alnums(Get(meta, "Release Date").value) + "pdf"
  {
    var d, n, r := Get(meta, "Award Date").value, Get(meta, "Award Number").value, Get(meta, "Release Date").value;
    assert TextOrEmpty(Get(meta, "Award Number")) == n;
    var x, y, z := SafePart(Some(d), "unknown-awarddate"), SafePart(Some(n), "unknown-awardnum"),
                   SafePart(Some(r), "unknown-releasedate");
    SafePartKeepsAlnums(d, "unknown-awarddate");
    SafePartKeepsAlnums(n, "unknown-awardnum");
    SafePartKeepsAlnums(r, "unknown-releasedate");
    assert BuildTargetName(meta) == Joined(x, y, z);
    AlnumsOfJoined(x, y, z);
  }

  /** The separators of the name add no letters or digits; the suffix adds "pdf". */
  lemma AlnumsOfJoined(x: string, y: string, z: string)
    ensures Alnums(Joined(x, y, z)) == Alnums(x) + Alnums(y) + Alnums(z) + "pdf"
  {
    var a, b, c := x + "-", x + "-" + y, x + "-" + y + "-";
    AlnumsOfSeparators();
    AlnumsAppend(x, "-");
    AlnumsAppend(a, y);
    AlnumsAppend(b, "-");
    AlnumsAppend(c, z);
    AlnumsAppend(c + z, ".pdf");
  }

  lemma AlnumsOfSeparators()
    ensures Alnums("-") == [] && Alnums(".pdf") == "pdf"
  {
    assert ".pdf"[1..] == "pdf" && "pdf"[1..] == "df" && "df"[1..] == "f" && "f"[1..] == [];
  }

  /** Well-formed fields come through untouched, so the name spells them out. */
  lemma NameOfWellFormedFields()
    ensures BuildTargetName(map["Award Date" := Some("2023-01-10"), "Award Number" := Some("R12345"),
                                "Release Date" := Some("2024-03-15")])
            == Joined("2023-01-10", "R12345", "2024-03-15")
  {
    var meta := map["Award Date" := Some("2023-01-10"), "Award Number" := Some("R12345"),
                    "Release Date" := Some("2024-03-15")];
    assert Get(meta, "Award Date") == Some("2023-01-10");
    assert Get(meta, "Award Number") == Some("R12345");
    assert Get(meta, "Release Date") == Some("2024-03-15");
    assert IsSafeToken("2023-01-10") && IsSafeToken("R12345") && IsSafeToken("2024-03-15");
    SafeTokenIsFixedPoint("2023-01-10", "unknown-awarddate");
    SafeTokenIsFixedPoint("R12345", "unknown-awardnum");
    SafeTokenIsFixedPoint("2024-03-15", "unknown-releasedate");
  }

  /** Missing or blank fields fall back to their fixed placeholders. */
  lemma NameOfEmptyMetadata(meta: Meta)
    requires "Award Date" !in meta && "Release Date" !in meta
    requires "Award Number" in meta ==> meta["Award Number"] == None || meta["Award Number"] == Some("")
    ensures BuildTargetName(meta) == Joined("unknown-awarddate", "unknown-awardnum", "unknown-releasedate")
  {
    assert TextOrEmpty(Get(meta, "Award Number")) == "";
    assert Strip("") == "";
    assert SafePart(Get(meta, "Award Date"), "unknown-awarddate") == "unknown-awarddate";
    assert SafePart(Some(""), "unknown-awardnum") == "unknown-awardnum";
    assert SafePart(Get(meta, "Release Date"), "unknown-releasedate") == "unknown-releasedate";
  }
}
