/** The e-mail check of the form validator, the regular expression
    `^[^\s@]+@[^\s@]+\.[^\s@]+$`, stated over characters. It is a loose
    shape check, not the address syntax of RFC 5322. */
module Email {
  import opened Text

  /** A character the class `[^\s@]` admits. */
  predicate Plain(c: char)
  {
    !IsWs(c) && c != '@'
  }

  predicate AllPlain(t: string)
  {
    forall k :: 0 <= k < |t| ==> Plain(t[k])
  }

  /** What the regular expression accepts: the whole string splits as a
      non-empty plain run, `@`, a non-empty plain run, `.`, and a non-empty
      plain run. The `.` is any one of the dots after the `@` that has a
      plain character on either side, which is how the greedy middle run
      backtracks. */
  predicate PatternMatches(s: string)
  {
    exists i, j | 0 < i && i + 1 < j && j + 1 < |s| ::
      && s[i] == '@' && s[j] == '.'
      && AllPlain(s[..i]) && AllPlain(s[i + 1..j]) && AllPlain(s[j + 1..])
  }

  /** How many times `c` occurs in `s`. */
  function Count(s: string, c: char): (r: nat)
    ensures r <= |s|
    decreases |s|
  {
    if |s| == 0 then 0 else (if s[0] == c then 1 else 0) + Count(s[1..], c)
  }

  /** The position of the first `c` in `s`, `|s|` when there is none. */
  function FirstIndex(s: string, c: char): (r: nat)
    ensures r <= |s|
    ensures r < |s| ==> s[r] == c
    ensures forall k :: 0 <= k < r ==> s[k] != c
    decreases |s|
  {
    if |s| == 0 then 0 else if s[0] == c then 0 else 1 + FirstIndex(s[1..], c)
  }

  /** A `.` that is neither the first nor the last character of `d`. */
  predicate InnerDot(d: string)
  {
    exists p :: 0 < p < |d| - 1 && d[p] == '.'
  }

  /** The pattern in plain words: no white space, exactly one `@`, something
      before it, and after it a `.` that is neither the first nor the last
      character of the part after the `@`. */
  predicate LooseAddress(s: string)
  {
    && (forall k :: 0 <= k < |s| ==> !IsWs(s[k]))
    && Count(s, '@') == 1
    && var at := FirstIndex(s, '@');
       0 < at < |s| && InnerDot(s[at + 1..])
  }

  lemma {:induction false} CountAppend(a: string, b: string, c: char)
    ensures Count(a + b, c) == Count(a, c) + Count(b, c)
    decreases |a|
  {
    if |a| == 0 {
      assert a + b == b;
    } else {
      assert (a + b)[1..] == a[1..] + b;
      CountAppend(a[1..], b, c);
    }
  }

  lemma {:induction false} CountZero(s: string, c: char)
    ensures Count(s, c) == 0 <==> forall k :: 0 <= k < |s| ==> s[k] != c
    decreases |s|
  {
    if |s| > 0 {
      CountZero(s[1..], c);
      if Count(s, c) == 0 {
        forall k | 0 <= k < |s|
          ensures s[k] != c
        {
          if k > 0 {
            assert s[k] == s[1..][k - 1];
          }
        }
      }
    }
  }

  /** `c` occurs exactly once in `s`, at `i`, when it is at `i` and nowhere
      else. */
  lemma CountOnce(s: string, c: char, i: nat)
    requires i < |s| && s[i] == c
    ensures Count(s, c) == 1 <==> forall k :: 0 <= k < |s| && k != i ==> s[k] != c
  {
    assert s == s[..i] + [s[i]] + s[i + 1..];
    CountAppend(s[..i] + [s[i]], s[i + 1..], c);
    CountAppend(s[..i], [s[i]], c);
    assert Count([s[i]], c) == 1;
    CountZero(s[..i], c);
    CountZero(s[i + 1..], c);
    if forall k :: 0 <= k < |s| && k != i ==> s[k] != c {
      assert forall k :: 0 <= k < i ==> s[..i][k] != c;
      var rest := s[i + 1..];
      forall k | 0 <= k < |rest|
        ensures rest[k] != c
      {
        assert rest[k] == s[i + 1 + k];
      }
    } else {
      var k :| 0 <= k < |s| && k != i && s[k] == c;
      if k < i {
        assert s[..i][k] == c;
      } else {
        assert s[i + 1..][k - i - 1] == c;
      }
    }
  }

  /** The regular expression accepts a string exactly when it has the loose
      address shape. */
  lemma PatternIffLooseAddress(s: string)
    ensures PatternMatches(s) <==> LooseAddress(s)
  {
    if PatternMatches(s) {
      PatternIsLooseAddress(s);
    }
    if LooseAddress(s) {
      LooseAddressMatches(s);
    }
  }

  lemma PatternIsLooseAddress(s: string)
    requires PatternMatches(s)
    ensures LooseAddress(s)
  {
    var i, j :| 0 < i && i + 1 < j && j + 1 < |s|
                && s[i] == '@' && s[j] == '.'
                && AllPlain(s[..i]) && AllPlain(s[i + 1..j]) && AllPlain(s[j + 1..]);
    forall k | 0 <= k < |s| && k != i
      ensures Plain(s[k])
    {
      if k < i {
        assert s[k] == s[..i][k];
      } else if k < j {
        assert s[k] == s[i + 1..j][k - i - 1];
      } else if k > j {
        assert s[k] == s[j + 1..][k - j - 1];
      }
    }
    CountOnce(s, '@', i);
    assert FirstIndex(s, '@') == i;
    assert s[i + 1..][j - i - 1] == '.';
  }

  lemma LooseAddressMatches(s: string)
    requires LooseAddress(s)
    ensures PatternMatches(s)
  {
    var i := FirstIndex(s, '@');
    var d := s[i + 1..];
    var p :| 0 < p < |d| - 1 && d[p] == '.';
    var j := i + 1 + p;
    CountOnce(s, '@', i);
    assert s[j] == '.';
    assert forall k :: 0 <= k < |s| && k != i ==> Plain(s[k]);
    assert AllPlain(s[..i]);
    assert AllPlain(s[i + 1..j]);
    assert AllPlain(s[j + 1..]);
  }

  /** `emailRegex.test(s)` as one left-to-right pass: it records whether
      white space occurs, how many `@` there are, where the first `@` is,
      and where the first `.` more than one place after it is. The answer
      is the regular expression's. */
  method Test(s: string) returns (m: bool)
    ensures m <==> PatternMatches(s)
  {
    var sawWs := false;
    var ats := 0;
    var at: nat := |s|;
    var dot: nat := |s|;
    for i := 0 to |s|
      invariant sawWs <==> exists k :: 0 <= k < i && IsWs(s[k])
      invariant ats == Count(s[..i], '@')
      invariant at <= |s| && (at < |s| ==> at < i && s[at] == '@')
      invariant forall k :: 0 <= k < i && k < at ==> s[k] != '@'
      invariant dot <= |s| && (dot < |s| ==> at + 1 < dot < i && s[dot] == '.')
      invariant at < |s| ==> forall k :: at + 1 < k < i && k < dot ==> s[k] != '.'
    {
      var c := s[i];
      assert s[..i + 1] == s[..i] + [c];
      CountAppend(s[..i], [c], '@');
      if IsWs(c) {
        sawWs := true;
      }
      if c == '@' {
        ats := ats + 1;
        if at == |s| {
          at := i;
        }
      }
      if c == '.' && at < |s| && at + 1 < i && dot == |s| {
        dot := i;
      }
    }
    assert s[..|s|] == s;
    assert FirstIndex(s, '@') == at;
    m := !sawWs && ats == 1 && 0 < at < |s| && dot < |s| - 1;
    if 0 < at < |s| {
      var d := s[at + 1..];
      if dot < |s| - 1 {
        assert d[dot - at - 1] == '.';
      }
      if InnerDot(d) {
        var p :| 0 < p < |d| - 1 && d[p] == '.';
        assert s[at + 1 + p] == '.';
      }
    }
    PatternIffLooseAddress(s);
  }

  /** Two strings from the form's point of view: a plain word is rejected,
      a minimal address is accepted. */
  lemma Samples()
    ensures !PatternMatches("not-an-email")
    ensures PatternMatches("a@b.c")
  {
    var s := "a@b.c";
    assert s[1] == '@' && s[3] == '.';
    assert AllPlain(s[..1]) && AllPlain(s[2..3]) && AllPlain(s[4..]);
    var w := "not-an-email";
    assert forall k :: 0 <= k < |w| ==> w[k] != '@';
  }
}
