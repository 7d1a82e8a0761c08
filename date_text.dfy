/**
 * The text side of `parse_date_ymd`: surrounding whitespace is removed and
 * every '/' becomes '-', so that "2024/03/15" and " 2024-03-15 " reach the
 * `%Y-%m-%d` parser in the same form. The same '/' to '-' replacement is
 * applied earlier to the date columns of both input files.
 */
module DateText {
  import opened Text

  /** The string `parse_date_ymd` hands to the date parser. */
  function NormalizeYmd(s: string): string {
    ReplaceChar(Strip(s), '/', '-')
  }

  /** The normalised text has no '/' and no surrounding whitespace, and otherwise keeps the stripped text. */
  lemma NormalizedShape(s: string)
    ensures forall i :: 0 <= i < |NormalizeYmd(s)| ==> NormalizeYmd(s)[i] != '/'
    ensures NormalizeYmd(s) == [] || (!IsSpace(NormalizeYmd(s)[0]) && !IsSpace(NormalizeYmd(s)[|NormalizeYmd(s)| - 1]))
    ensures |NormalizeYmd(s)| == |Strip(s)|
    ensures forall i :: 0 <= i < |Strip(s)| ==> NormalizeYmd(s)[i] == if Strip(s)[i] == '/' then '-' else Strip(s)[i]
  {
    var t := Strip(s);
    if t != [] {
      assert !IsSpace(t[0]) && !IsSpace(t[|t| - 1]);
    }
  }

  /** Normalising twice gives what normalising once gives. */
  lemma NormalizeIdempotent(s: string)
    ensures NormalizeYmd(NormalizeYmd(s)) == NormalizeYmd(s)
  {
    var n := NormalizeYmd(s);
    NormalizedShape(s);
    assert Strip(n) == n;
    assert ReplaceChar(n, '/', '-') == n;
  }

  /** Replacing '/' while loading a file changes nothing the date parser sees. */
  lemma ColumnReplaceIsRedundant(s: string)
    ensures NormalizeYmd(ReplaceChar(s, '/', '-')) == NormalizeYmd(s)
  {
    StripCommutesWithReplace(s);
    ReplaceTwice(Strip(s), '/', '-');
  }

  /** Stripping and replacing '/' by '-' can be done in either order. */
  lemma StripCommutesWithReplace(s: string)
    ensures Strip(ReplaceChar(s, '/', '-')) == ReplaceChar(Strip(s), '/', '-')
  {
    var r := ReplaceChar(s, '/', '-');
    LeadingRunsAgree(s, r);
    var a := LeadingRun(s, IsSpace);
    ReplaceSuffix(s, a);
    var sa, ra := s[a..], r[a..];
    TrailingRunsAgree(sa, ra);
    var n := |sa| - TrailingRun(sa, IsSpace);
    ReplacePrefix(sa, n);
  }

  /** Replacing commutes with dropping a prefix. */
  lemma ReplaceSuffix(s: string, a: nat)
    requires a <= |s|
    ensures ReplaceChar(s, '/', '-')[a..] == ReplaceChar(s[a..], '/', '-')
  {
  }

  /** Replacing commutes with keeping a prefix. */
  lemma ReplacePrefix(s: string, n: nat)
    requires n <= |s|
    ensures ReplaceChar(s, '/', '-')[..n] == ReplaceChar(s[..n], '/', '-')
  {
  }

  /** Replacing a character a second time changes nothing. */
  lemma ReplaceTwice(s: string, from: char, to: char)
    ensures ReplaceChar(ReplaceChar(s, from, to), from, to) == ReplaceChar(s, from, to)
  {
  }

  /** Replacing '/' by '-' keeps exactly the same leading whitespace. */
  lemma {:induction false} LeadingRunsAgree(s: string, r: string)
    requires r == ReplaceChar(s, '/', '-')
    ensures LeadingRun(r, IsSpace) == LeadingRun(s, IsSpace)
    decreases |s|
  {
    if s != [] {
      assert IsSpace(r[0]) <==> IsSpace(s[0]);
      if IsSpace(s[0]) {
        ReplaceSuffix(s, 1);
        LeadingRunsAgree(s[1..], r[1..]);
      }
    }
  }

  /** Replacing '/' by '-' keeps exactly the same trailing whitespace. */
  lemma {:induction false} TrailingRunsAgree(s: string, r: string)
    requires r == ReplaceChar(s, '/', '-')
    ensures TrailingRun(r, IsSpace) == TrailingRun(s, IsSpace)
    decreases |s|
  {
    if s != [] {
      var n := |s| - 1;
      assert IsSpace(r[n]) <==> IsSpace(s[n]);
      if IsSpace(s[n]) {
        ReplacePrefix(s, n);
        TrailingRunsAgree(s[..n], r[..n]);
      }
    }
  }
}
