/** The address format check: `isEmail`, a search for the regular expression
    `[\w\d\.-]+@[\w\d\.-]+\.[\w\d\.-]+` anywhere in the candidate text. */
module Email {

  /** `\w` without the Unicode flag: ASCII letters, digits and underscore. */
  predicate IsWordChar(c: char) {
    'A' <= c <= 'Z' || 'a' <= c <= 'z' || '0' <= c <= '9' || c == '_'
  }

  /** `\d`: an ASCII digit (already inside `\w`). */
  predicate IsDigit(c: char) {
    '0' <= c <= '9'
  }

  /** The bracket class `[\w\d\.-]` that each of the pattern's three runs repeats. */
  predicate InClass(c: char) {
    IsWordChar(c) || IsDigit(c) || c == '.' || c == '-'
  }

  predicate AllInClass(t: string) {
    forall k | 0 <= k < |t| :: InClass(t[k])
  }

  // What the pattern means, written as a reference definition.

  /** The whole of `t` is `class+ '@' class+ '.' class+`, with the '@' at
      index `a` and the literal '.' at index `b`. */
  ghost predicate SplitsAsEmail(t: string, a: int, b: int) {
    0 < a && a + 1 < b && b + 1 < |t|
    && AllInClass(t[..a]) && t[a] == '@'
    && AllInClass(t[a + 1..b]) && t[b] == '.'
    && AllInClass(t[b + 1..])
  }

  /** `t` is in the language of the pattern (an anchored match). */
  ghost predicate MatchesPattern(t: string) {
    exists a, b :: SplitsAsEmail(t, a, b)
  }

  /** The slice `s[i..j]` is in the language of the pattern. */
  ghost predicate MatchesAt(s: string, i: int, j: int) {
    0 <= i <= j <= |s| && MatchesPattern(s[i..j])
  }

  /** RegExp.prototype.test on a pattern without `^` or `$`: some slice of
      `s` matches. */
  ghost predicate PatternFoundIn(s: string) {
    exists i, j :: MatchesAt(s, i, j)
  }

  // The check itself, as a scan.

  /** From index `i` on, a run of class characters reaches a '.' that is
      followed by one more class character. */
  predicate DotFollowsFrom(s: string, i: nat)
    decreases |s| - i
  {
    i < |s| && InClass(s[i])
    && ((s[i] == '.' && i + 1 < |s| && InClass(s[i + 1])) || DotFollowsFrom(s, i + 1))
  }

  /** `isEmail`: some '@' has a class character on each side and the run of
      class characters after it reaches a '.' with a class character after it. */
  predicate IsEmail(s: string) {
    exists a | 1 <= a && a + 1 < |s| ::
      s[a] == '@' && InClass(s[a - 1]) && InClass(s[a + 1]) && DotFollowsFrom(s, a + 2)
  }

  /** A '.' at `b >= i`, followed by a class character, with only class
      characters from `i` up to it. */
  ghost predicate DotAt(s: string, i: int, b: int) {
    0 <= i <= b && b + 1 < |s| && s[b] == '.' && InClass(s[b + 1])
    && forall k | i <= k < b :: InClass(s[k])
  }

  lemma {:induction false} DotFollowsFromSound(s: string, i: nat) returns (b: int)
    requires DotFollowsFrom(s, i)
    ensures DotAt(s, i, b)
    decreases |s| - i
  {
    if s[i] == '.' && i + 1 < |s| && InClass(s[i + 1]) {
      b := i;
    } else {
      b := DotFollowsFromSound(s, i + 1);
    }
  }

  lemma {:induction false} DotFollowsFromComplete(s: string, i: nat, b: int)
    requires DotAt(s, i, b)
    ensures DotFollowsFrom(s, i)
    decreases b - i
  {
    if i < b {
      DotFollowsFromComplete(s, i + 1, b);
    }
  }

  /** An '@' that the scan accepts yields a slice the pattern matches. */
  lemma ScanSound(s: string, a: int)
    requires 1 <= a && a + 1 < |s| && s[a] == '@' && InClass(s[a - 1])
    requires InClass(s[a + 1]) && DotFollowsFrom(s, a + 2)
    ensures PatternFoundIn(s)
  {
    var b := DotFollowsFromSound(s, a + 2);
    var t := s[a - 1..b + 2];
    assert |t| == b - a + 3;
    var l, d, tld := t[..1], t[2..b - a + 1], t[b - a + 2..];
    assert AllInClass(l) by {
      assert |l| == 1 && l[0] == s[a - 1];
    }
    assert AllInClass(d) by {
      forall k | 0 <= k < |d| ensures InClass(d[k]) {
        assert 2 + k < |t|;
        assert d[k] == t[2 + k];
        assert t[2 + k] == s[a + 1 + k];
        if k > 0 {
          assert a + 2 <= a + 1 + k < b;
        }
      }
    }
    assert AllInClass(tld) by {
      assert |tld| == 1 && tld[0] == s[b + 1];
    }
    assert t[1] == '@' && t[b - a + 1] == '.';
    assert SplitsAsEmail(t, 1, b - a + 1);
    assert MatchesAt(s, a - 1, b + 2);
  }

  /** A slice the pattern matches yields an '@' that the scan accepts. */
  lemma ScanComplete(s: string, i: int, j: int, a': int, b': int)
    requires 0 <= i <= j <= |s| && SplitsAsEmail(s[i..j], a', b')
    ensures IsEmail(s)
  {
    var t := s[i..j];
    var a, b := i + a', i + b';
    assert s[a - 1] == t[..a'][a' - 1];
    assert s[a + 1] == t[a' + 1..b'][0];
    forall k | a + 2 <= k < b ensures InClass(s[k]) {
      assert s[k] == t[a' + 1..b'][k - a - 1];
    }
    assert s[b + 1] == t[b' + 1..][0];
    DotFollowsFromComplete(s, a + 2, b);
    assert s[a] == '@';
  }

  /** The scan accepts exactly the texts in which the regular expression
      finds a match. */
  lemma IsEmailIffPatternFound(s: string)
    ensures IsEmail(s) <==> PatternFoundIn(s)
  {
    if IsEmail(s) {
      var a :| 1 <= a && a + 1 < |s| && s[a] == '@' && InClass(s[a - 1])
               && InClass(s[a + 1]) && DotFollowsFrom(s, a + 2);
      ScanSound(s, a);
    }
    if PatternFoundIn(s) {
      var i, j :| MatchesAt(s, i, j);
      var a', b' :| SplitsAsEmail(s[i..j], a', b');
      ScanComplete(s, i, j, a', b');
    }
  }

  /** Text around an address does not stop it from being accepted. */
  lemma IsEmailUnanchored(before: string, t: string, after: string)
    requires IsEmail(t)
    ensures IsEmail(before + t + after)
  {
    var s := before + t + after;
    IsEmailIffPatternFound(t);
    var i, j :| MatchesAt(t, i, j);
    assert s[|before| + i..|before| + j] == t[i..j];
    assert MatchesAt(s, |before| + i, |before| + j);
    IsEmailIffPatternFound(s);
  }
}
