/**
 * The few pieces of Python's `str` behaviour the scripts rely on:
 * `strip`, `lower`, `replace` of one character, and the `in` substring test.
 * Strings are sequences of characters; `lower` is modelled on ASCII only.
 */
module Text {

  /** `str.isspace()` for one character: the characters `str.strip()` removes. */
  predicate IsSpace(c: char) {
    c == ' ' || ('\t' <= c <= '\r') || ('\U{1C}' <= c <= '\U{1F}')
    || c == '\U{85}' || c == '\U{A0}' || c == '\U{1680}' || ('\U{2000}' <= c <= '\U{200A}')
    || c == '\U{2028}' || c == '\U{2029}' || c == '\U{202F}' || c == '\U{205F}' || c == '\U{3000}'
  }

  /** Number of leading characters of `s` that `drop` accepts. */
  function LeadingRun(s: string, drop: char -> bool): (n: nat)
    ensures n <= |s|
    ensures forall i :: 0 <= i < n ==> drop(s[i])
    ensures n < |s| ==> !drop(s[n])
  {
    if s == [] || !drop(s[0]) then 0 else 1 + LeadingRun(s[1..], drop)
  }

  /** Number of trailing characters of `s` that `drop` accepts. */
  function TrailingRun(s: string, drop: char -> bool): (n: nat)
    ensures n <= |s|
    ensures forall i :: |s| - n <= i < |s| ==> drop(s[i])
    ensures n < |s| ==> !drop(s[|s| - 1 - n])
  {
    if s == [] || !drop(s[|s| - 1]) then 0 else 1 + TrailingRun(s[..|s| - 1], drop)
  }

  /**
   * `s.strip(chars)`: removes the longest prefix and then the longest suffix
   * made of characters that `drop` accepts.
   */
  function Trim(s: string, drop: char -> bool): (r: string)
    ensures |r| <= |s|
    ensures r == [] || (!drop(r[0]) && !drop(r[|r| - 1]))
    ensures r == [] <==> forall i :: 0 <= i < |s| ==> drop(s[i])
    ensures s == [] || (!drop(s[0]) && !drop(s[|s| - 1])) ==> r == s
  {
    var t := s[LeadingRun(s, drop)..];
    t[..|t| - TrailingRun(t, drop)]
  }

  /** What `Trim` keeps is one contiguous piece of `s`, with only dropped characters around it. */
  lemma TrimIsSlice(s: string, drop: char -> bool) returns (a: nat)
    ensures a + |Trim(s, drop)| <= |s|
    ensures Trim(s, drop) == s[a..a + |Trim(s, drop)|]
    ensures forall i :: 0 <= i < a ==> drop(s[i])
    ensures forall i :: a + |Trim(s, drop)| <= i < |s| ==> drop(s[i])
  {
    a := LeadingRun(s, drop);
    var t := s[a..];
    var n := |t| - TrailingRun(t, drop);
    assert Trim(s, drop) == t[..n] == s[a..a + n];
    forall i | a + n <= i < |s|
      ensures drop(s[i])
    {
      assert s[i] == t[i - a];
    }
  }

  /** `s.strip()` with no argument. */
  function Strip(s: string): string {
    Trim(s, IsSpace)
  }

  /** `c.lower()` for ASCII letters. */
  function LowerChar(c: char): char {
    if 'A' <= c <= 'Z' then (c as int + 32) as char else c
  }

  /** `s.lower()`. */
  function Lower(s: string): (r: string)
    ensures |r| == |s|
    ensures forall i :: 0 <= i < |s| ==> r[i] == LowerChar(s[i])
  {
    seq(|s|, i requires 0 <= i < |s| => LowerChar(s[i]))
  }

  /** `s.replace(from, to)` for single characters. */
  function ReplaceChar(s: string, from: char, to: char): (r: string)
    ensures |r| == |s|
    ensures forall i :: 0 <= i < |s| ==> r[i] == if s[i] == from then to else s[i]
  {
    seq(|s|, i requires 0 <= i < |s| => if s[i] == from then to else s[i])
  }

  /** Python's `needle in hay` on strings: `needle` occurs contiguously in `hay`. */
  predicate Contains(hay: string, needle: string)
    decreases |hay|
  {
    needle <= hay || (hay != [] && Contains(hay[1..], needle))
  }

  /** An occurrence of `needle` at position `i` of `hay` witnesses `needle in hay`. */
  lemma {:induction false} ContainsAt(hay: string, needle: string, i: nat)
    requires i + |needle| <= |hay| && hay[i..i + |needle|] == needle
    ensures Contains(hay, needle)
    decreases i
  {
    if i == 0 {
      assert needle <= hay;
    } else {
      assert hay[1..][i - 1..i - 1 + |needle|] == needle;
      ContainsAt(hay[1..], needle, i - 1);
    }
  }

  /** Every `needle in hay` has a position where it occurs. */
  lemma {:induction false} ContainsWitness(hay: string, needle: string) returns (i: nat)
    requires Contains(hay, needle)
    ensures i + |needle| <= |hay| && hay[i..i + |needle|] == needle
    decreases |hay|
  {
    if needle <= hay {
      i := 0;
    } else {
      var j := ContainsWitness(hay[1..], needle);
      assert hay[1..][j..j + |needle|] == hay[j + 1..j + 1 + |needle|];
      i := j + 1;
    }
  }

  /** The substring relation is transitive: a part of a part of `hay` is a part of `hay`. */
  lemma ContainsTransitive(hay: string, mid: string, needle: string)
    requires Contains(hay, mid) && Contains(mid, needle)
    ensures Contains(hay, needle)
  {
    var i := ContainsWitness(hay, mid);
    var j := ContainsWitness(mid, needle);
    assert mid == hay[i..i + |mid|];
    forall k | 0 <= k < |needle|
      ensures hay[i + j..i + j + |needle|][k] == needle[k]
    {
      assert needle[k] == mid[j + k] == hay[i + j + k];
    }
    assert hay[i + j..i + j + |needle|] == needle;
    ContainsAt(hay, needle, i + j);
  }
}
