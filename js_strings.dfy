/** The JavaScript string operations the core relies on: `trim`, the leading
    white-space skip of `parseInt`/`parseFloat`, `toLowerCase` and `includes`. */
module JsStrings {

  /** ECMAScript WhiteSpace and LineTerminator code points: TAB, VT, FF,
      ZWNBSP (U+FEFF), the Unicode space separators (category Zs), LF, CR,
      LINE SEPARATOR and PARAGRAPH SEPARATOR. */
  predicate IsWhitespace(c: char) {
    var n := c as int;
    n == 0x09 || n == 0x0A || n == 0x0B || n == 0x0C || n == 0x0D
    || n == 0x20 || n == 0xA0 || n == 0x1680
    || (0x2000 <= n <= 0x200A)
    || n == 0x2028 || n == 0x2029 || n == 0x202F || n == 0x205F
    || n == 0x3000 || n == 0xFEFF
  }

  predicate AllWhitespace(s: string) {
    forall i :: 0 <= i < |s| ==> IsWhitespace(s[i])
  }

  /** The number of white-space characters at the start of `s`. */
  function LeadingWhitespace(s: string): (n: nat)
    ensures n <= |s|
    ensures forall k :: 0 <= k < n ==> IsWhitespace(s[k])
    ensures n < |s| ==> !IsWhitespace(s[n])
  {
    if |s| > 0 && IsWhitespace(s[0]) then 1 + LeadingWhitespace(s[1..]) else 0
  }

  /** The number of white-space characters at the end of `s`. */
  function TrailingWhitespace(s: string): (n: nat)
    ensures n <= |s|
    ensures forall k :: |s| - n <= k < |s| ==> IsWhitespace(s[k])
    ensures n < |s| ==> !IsWhitespace(s[|s| - n - 1])
  {
    if |s| > 0 && IsWhitespace(s[|s| - 1]) then 1 + TrailingWhitespace(s[..|s| - 1]) else 0
  }

  /** `s` without its leading white space (`trimStart`, and the first step
      of `parseInt` and `parseFloat`): a suffix of `s` preceded by white
      space only, which does not start with white space. */
  function TrimStart(s: string): (r: string)
    ensures var i := LeadingWhitespace(s);
            r == s[i..] && AllWhitespace(s[..i]) && (|r| > 0 ==> !IsWhitespace(r[0]))
  {
    s[LeadingWhitespace(s)..]
  }

  /** `s` without its trailing white space (`trimEnd`): a prefix of `s`
      followed by white space only, which does not end with white space. */
  function TrimEnd(s: string): (r: string)
    ensures var j := TrailingWhitespace(s);
            r == s[..|s| - j] && AllWhitespace(s[|s| - j..])
            && (|r| > 0 ==> !IsWhitespace(r[|r| - 1]))
  {
    s[..|s| - TrailingWhitespace(s)]
  }

  /** `String.prototype.trim`: what is left of `s` once the white space at
      both ends is gone. It is a slice of `s`, everything outside the slice
      is white space, and it neither starts nor ends with white space. */
  function Trim(s: string): (r: string)
    ensures var i := LeadingWhitespace(s);
            i + |r| <= |s| && r == s[i..i + |r|]
            && AllWhitespace(s[..i]) && AllWhitespace(s[i + |r|..])
    ensures |r| > 0 ==> !IsWhitespace(r[0]) && !IsWhitespace(r[|r| - 1])
  {
    var t := TrimStart(s);
    var r := TrimEnd(t);
    assert r == s[LeadingWhitespace(s)..LeadingWhitespace(s) + |r|];
    assert t[|r|..] == s[LeadingWhitespace(s) + |r|..];
    assert |r| > 0 ==> r[0] == t[0];
    r
  }

  /** `s.trim() === ''` exactly when every character of `s` is white space. */
  lemma TrimEmptyIffAllWhitespace(s: string)
    ensures Trim(s) == "" <==> AllWhitespace(s)
  {
    if AllWhitespace(s) {
      LeadingAllWhitespace(s);
    }
    if Trim(s) == "" {
      assert s[..|s|] == s;
    }
  }

  lemma {:induction false} LeadingAllWhitespace(s: string)
    requires AllWhitespace(s)
    ensures LeadingWhitespace(s) == |s|
  {
    if |s| > 0 {
      LeadingAllWhitespace(s[1..]);
    }
  }

  /** `toLowerCase` on the ASCII letters A-Z; every other character is kept. */
  function LowerChar(c: char): (d: char)
    ensures 'A' <= c <= 'Z' ==> d as int == c as int + 32 && 'a' <= d <= 'z'
    ensures !('A' <= c <= 'Z') ==> d == c
  {
    if 'A' <= c <= 'Z' then (c as int + 32) as char else c
  }

  function ToLower(s: string): (r: string)
    ensures |r| == |s|
    ensures forall i :: 0 <= i < |s| ==> r[i] == LowerChar(s[i])
  {
    seq(|s|, i requires 0 <= i < |s| => LowerChar(s[i]))
  }

  /** `needle` occurs in `hay` starting at position `i`. */
  ghost predicate OccursAt(hay: string, needle: string, i: nat) {
    i + |needle| <= |hay| && hay[i..i + |needle|] == needle
  }

  /** `String.prototype.includes`: `needle` is a prefix of `hay` or of one of
      its suffixes. */
  predicate Includes(hay: string, needle: string)
    ensures Includes(hay, needle) ==> |needle| <= |hay|
    decreases |hay|
  {
    needle <= hay || (|hay| > 0 && Includes(hay[1..], needle))
  }

  /** `Includes` holds exactly when `needle` occurs at some position of `hay`. */
  lemma {:induction false} IncludesIffOccurs(hay: string, needle: string)
    ensures Includes(hay, needle) <==> exists i: nat :: OccursAt(hay, needle, i)
    decreases |hay|
  {
    if needle <= hay {
      assert OccursAt(hay, needle, 0);
    } else if |hay| > 0 {
      IncludesIffOccurs(hay[1..], needle);
      if Includes(hay[1..], needle) {
        var i: nat :| OccursAt(hay[1..], needle, i);
        SliceOfTail(hay, i, |needle|);
        assert OccursAt(hay, needle, i + 1);
      }
      if i: nat :| OccursAt(hay, needle, i) {
        assert i != 0;
        SliceOfTail(hay, i - 1, |needle|);
        assert OccursAt(hay[1..], needle, i - 1);
      }
    }
  }

  lemma SliceOfTail(hay: string, i: nat, n: nat)
    requires 0 < |hay| && i + n < |hay|
    ensures hay[1..][i..i + n] == hay[i + 1..i + 1 + n]
  {
  }

  /** Every string includes the empty string. */
  lemma IncludesEmpty(hay: string)
    ensures Includes(hay, "")
  {
    assert OccursAt(hay, "", 0);
    IncludesIffOccurs(hay, "");
  }

  /** Whatever a string includes, it still includes with text appended. */
  lemma IncludesExtend(hay: string, more: string, needle: string)
    requires Includes(hay, needle)
    ensures Includes(hay + more, needle)
  {
    IncludesIffOccurs(hay, needle);
    var i: nat :| OccursAt(hay, needle, i);
    assert (hay + more)[i..i + |needle|] == hay[i..i + |needle|];
    assert OccursAt(hay + more, needle, i);
    IncludesIffOccurs(hay + more, needle);
  }

  /** A string includes every piece it is concatenated from. */
  lemma IncludesMiddle(a: string, b: string, c: string)
    ensures Includes(a + b + c, b)
  {
    assert (a + b + c)[|a|..|a| + |b|] == b;
    assert OccursAt(a + b + c, b, |a|);
    IncludesIffOccurs(a + b + c, b);
  }
}
