/** `String.prototype.trim`: removal of leading and trailing white space and
    line terminators, as ECMAScript defines them. */
module Whitespace {

  /** The characters `trim` removes: the ECMAScript WhiteSpace code points
      (tab, vertical tab, form feed, the byte order mark and every space
      separator of category Zs) and the LineTerminator code points (line
      feed, carriage return, line and paragraph separators). */
  const WhitespaceChars: set<char> := {
    '\t', '\U{000B}', '\U{000C}', ' ', '\U{00A0}', '\U{FEFF}',
    '\U{1680}', '\U{2000}', '\U{2001}', '\U{2002}', '\U{2003}', '\U{2004}',
    '\U{2005}', '\U{2006}', '\U{2007}', '\U{2008}', '\U{2009}', '\U{200A}',
    '\U{202F}', '\U{205F}', '\U{3000}',
    '\n', '\r', '\U{2028}', '\U{2029}'
  }

  predicate IsWhitespace(c: char)
  {
    c in WhitespaceChars
  }

  /** Every character of `s` from index `lo` up to `hi` is white space. */
  predicate WhitespaceBetween(s: string, lo: nat, hi: nat)
    requires lo <= hi <= |s|
  {
    forall i :: lo <= i < hi ==> IsWhitespace(s[i])
  }

  /** Neither the first nor the last character of `s` is white space. */
  predicate Trimmed(s: string)
  {
    |s| == 0 || (!IsWhitespace(s[0]) && !IsWhitespace(s[|s| - 1]))
  }

  /** The visible ASCII characters, from '!' to '~', are not white space. */
  lemma VisibleAsciiNotWhitespace(c: char)
    requires '!' <= c <= '~'
    ensures !IsWhitespace(c)
  {
  }

  /** The index of the first character at or after `i` that is not white
      space, or `|s|` if there is none. */
  function SkipForward(s: string, i: nat): (k: nat)
    requires i <= |s|
    ensures i <= k <= |s|
    ensures WhitespaceBetween(s, i, k)
    ensures k == |s| || !IsWhitespace(s[k])
    decreases |s| - i
  {
    if i == |s| || !IsWhitespace(s[i]) then i else SkipForward(s, i + 1)
  }

  /** The index just after the last character before `j` that is not white
      space, or 0 if there is none. */
  function SkipBackward(s: string, j: nat): (k: nat)
    requires j <= |s|
    ensures k <= j
    ensures WhitespaceBetween(s, k, j)
    ensures k == 0 || !IsWhitespace(s[k - 1])
    decreases j
  {
    if j == 0 || !IsWhitespace(s[j - 1]) then j else SkipBackward(s, j - 1)
  }

  /** `s` with its leading white space removed. */
  function TrimStart(s: string): (r: string)
    ensures |r| <= |s| && r == s[|s| - |r|..]
    ensures WhitespaceBetween(s, 0, |s| - |r|)
    ensures |r| == 0 || !IsWhitespace(r[0])
  {
    s[SkipForward(s, 0)..]
  }

  /** `s` with its trailing white space removed. */
  function TrimEnd(s: string): (r: string)
    ensures |r| <= |s| && r == s[..|r|]
    ensures WhitespaceBetween(s, |r|, |s|)
    ensures |r| == 0 || !IsWhitespace(r[|r| - 1])
  {
    s[..SkipBackward(s, |s|)]
  }

  /** `s` with white space removed from both ends. */
  function Trim(s: string): (r: string)
    ensures |r| <= |s|
    ensures Trimmed(r)
  {
    var front := TrimStart(s);
    var r := TrimEnd(front);
    assert |r| > 0 ==> r[0] == front[0];
    r
  }

  /** Where the trimmed string lies in `s`: it is the infix `s[a..b]`, and
      only white space lies before `a` and after `b`. */
  lemma TrimBounds(s: string) returns (a: nat, b: nat)
    ensures a <= b <= |s|
    ensures Trim(s) == s[a..b]
    ensures WhitespaceBetween(s, 0, a) && WhitespaceBetween(s, b, |s|)
  {
    a := SkipForward(s, 0);
    var front := s[a..];
    var e := SkipBackward(front, |front|);
    b := a + e;
    assert Trim(s) == front[..e];
    assert front[..e] == s[a..b];
    forall i | b <= i < |s| ensures IsWhitespace(s[i]) {
      assert s[i] == front[i - a];
    }
  }

  /** `SkipForward` stops at the first character that is not white space. */
  lemma {:induction false} SkipForwardAt(s: string, i: nat, a: nat)
    requires i <= a <= |s| && WhitespaceBetween(s, i, a)
    requires a == |s| || !IsWhitespace(s[a])
    ensures SkipForward(s, i) == a
    decreases a - i
  {
    if i < a {
      assert IsWhitespace(s[i]);
      SkipForwardAt(s, i + 1, a);
    }
  }

  /** `SkipBackward` stops after the last character that is not white
      space. */
  lemma {:induction false} SkipBackwardAt(s: string, j: nat, b: nat)
    requires b <= j <= |s| && WhitespaceBetween(s, b, j)
    requires b == 0 || !IsWhitespace(s[b - 1])
    ensures SkipBackward(s, j) == b
    decreases j - b
  {
    if b < j {
      assert IsWhitespace(s[j - 1]);
      SkipBackwardAt(s, j - 1, b);
    }
  }

  /** The characterisation of `Trim` is unique: any infix of `s` cut off only
      white space and not itself beginning or ending with white space is the
      trimmed string. When `s` is all white space that infix is empty. */
  lemma TrimUnique(s: string, a: nat, b: nat)
    requires a <= b <= |s|
    requires WhitespaceBetween(s, 0, a) && WhitespaceBetween(s, b, |s|)
    requires Trimmed(s[a..b])
    ensures Trim(s) == s[a..b]
  {
    if a < b {
      assert s[a] == s[a..b][0] && s[b - 1] == s[a..b][b - a - 1];
      SkipForwardAt(s, 0, a);
      var front := s[a..];
      forall i | b - a <= i < |front| ensures IsWhitespace(front[i]) {
        assert front[i] == s[i + a];
      }
      assert front[b - a - 1] == s[b - 1];
      SkipBackwardAt(front, |front|, b - a);
      assert front[..b - a] == s[a..b];
    } else {
      forall i | 0 <= i < |s| ensures IsWhitespace(s[i]) {
        if i < a { assert WhitespaceBetween(s, 0, a); } else { assert WhitespaceBetween(s, b, |s|); }
      }
      SkipForwardAt(s, 0, |s|);
    }
  }

  /** A string that neither begins nor ends with white space is left alone. */
  lemma TrimKeepsTrimmed(s: string)
    requires Trimmed(s)
    ensures Trim(s) == s
  {
    if |s| > 0 {
      assert s[..0] == [] && s[|s|..] == [];
      TrimUnique(s, 0, |s|);
      assert s[0..|s|] == s;
    }
  }

  /** Trimming twice is trimming once. */
  lemma TrimIdempotent(s: string)
    ensures Trim(Trim(s)) == Trim(s)
  {
    TrimKeepsTrimmed(Trim(s));
  }
}
