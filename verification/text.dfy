/** White space and `String.prototype.trim`. */
module Text {

  /** The characters ECMAScript counts as white space: the WhiteSpace and
      LineTerminator productions (tab, vertical tab, form feed, space,
      no-break space, byte order mark, the Unicode space separators, line
      feed, carriage return, line and paragraph separators). `trim` strips
      exactly these, and the regular-expression class `\s` matches exactly
      these. */
  predicate IsWs(c: char)
  {
    || c == '\t' || c == '\n' || c == '\U{B}' || c == '\U{C}' || c == '\r'
    || c == ' ' || c == '\U{A0}' || c == '\U{1680}'
    || ('\U{2000}' <= c <= '\U{200A}')
    || c == '\U{2028}' || c == '\U{2029}' || c == '\U{202F}' || c == '\U{205F}'
    || c == '\U{3000}' || c == '\U{FEFF}'
  }

  predicate AllWs(s: string)
  {
    forall k :: 0 <= k < |s| ==> IsWs(s[k])
  }

  /** `s` with its leading white space removed: a suffix of `s`, everything
      removed is white space, and what remains does not start with white
      space. */
  function DropLeadingWs(s: string): (r: string)
    ensures |r| <= |s| && r == s[|s| - |r|..]
    ensures AllWs(s[..|s| - |r|])
    ensures |r| > 0 ==> !IsWs(r[0])
    decreases |s|
  {
    if |s| > 0 && IsWs(s[0]) then DropLeadingWs(s[1..]) else s
  }

  /** `s` with its trailing white space removed: a prefix of `s`, everything
      removed is white space, and what remains does not end with white
      space. */
  function DropTrailingWs(s: string): (r: string)
    ensures |r| <= |s| && r == s[..|r|]
    ensures AllWs(s[|r|..])
    ensures |r| > 0 ==> !IsWs(r[|r| - 1])
    decreases |s|
  {
    if |s| > 0 && IsWs(s[|s| - 1]) then DropTrailingWs(s[..|s| - 1]) else s
  }

  /** `s.trim()`: a contiguous slice of `s` that neither starts nor ends with
      white space, with only white space cut away on either side. */
  function Trim(s: string): (r: string)
    ensures exists a, b :: 0 <= a <= b <= |s| && r == s[a..b] && AllWs(s[..a]) && AllWs(s[b..])
    ensures |r| > 0 ==> !IsWs(r[0]) && !IsWs(r[|r| - 1])
  {
    var t := DropLeadingWs(s);
    var r := DropTrailingWs(t);
    var a := |s| - |t|;
    assert s[a..a + |r|] == r;
    assert s[a + |r|..] == t[|r|..];
    r
  }

  /** The trimmed string is empty exactly when the whole string is white
      space, which is when the script's `!field.value.trim()` holds. */
  lemma TrimEmptyIffAllWs(s: string)
    ensures Trim(s) == "" <==> AllWs(s)
  {
    var r := Trim(s);
    var a, b :| 0 <= a <= b <= |s| && r == s[a..b] && AllWs(s[..a]) && AllWs(s[b..]);
    if r == "" {
      forall k | 0 <= k < |s|
        ensures IsWs(s[k])
      {
        if k < a {
          assert s[k] == s[..a][k];
        } else {
          assert s[k] == s[b..][k - b];
        }
      }
    } else {
      assert s[a] == r[0];
    }
  }

  /** Trimming twice is trimming once. */
  lemma TrimIdempotent(s: string)
    ensures Trim(Trim(s)) == Trim(s)
  {
    var r := Trim(s);
    if |r| > 0 {
      assert DropLeadingWs(r) == r;
      assert DropTrailingWs(r) == r;
    }
  }
}
