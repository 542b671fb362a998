/** The e-mail pattern `^[^\s@]+@[^\s@]+\.[^\s@]+$` that both the registration route and
    the client's form apply, as a string predicate. */
module EmailPattern {
  import opened Strings

  /** A character of the class `[^\s@]`. */
  predicate EmailChar(c: char) {
    !IsSpace(c) && c != '@'
  }

  /** Every character of `s` is in `[^\s@]`. */
  predicate AllEmailChars(s: string) {
    forall k | 0 <= k < |s| :: EmailChar(s[k])
  }

  /** `s` splits as `a@b.c` at the `@` in position `i` and the `.` in position `j`, with
      `a`, `b` and `c` non-empty runs of `[^\s@]`: one way the regular expression can match. */
  ghost predicate MatchesAt(s: string, i: nat, j: nat) {
    && 0 < i && i + 1 < j && j + 1 < |s|
    && s[i] == '@' && s[j] == '.'
    && AllEmailChars(s[..i]) && AllEmailChars(s[i + 1..j]) && AllEmailChars(s[j + 1..])
  }

  /** The language of the regular expression: some split of `s` matches it. */
  ghost predicate MatchesRegex(s: string) {
    exists i: nat, j: nat :: MatchesAt(s, i, j)
  }

  /** The position of the first `c` in `s`, or `|s|` if there is none. */
  function IndexOf(s: string, c: char): (i: nat)
    ensures i <= |s|
    ensures i < |s| ==> s[i] == c
    ensures forall k | 0 <= k < i :: s[k] != c
  {
    if s == [] then 0 else if s[0] == c then 0 else 1 + IndexOf(s[1..], c)
  }

  /** The executable test: one `@` after a non-empty local part, no white space or second
      `@` anywhere, and a `.` in the domain that is neither its first nor its last character. */
  predicate IsEmail(s: string): (b: bool)
    ensures b ==> |s| >= 5 && 0 < IndexOf(s, '@') < |s| - 3
    ensures b ==> forall k | 0 <= k < |s| :: !IsSpace(s[k]) && (s[k] == '@' <==> k == IndexOf(s, '@'))
  {
    var i := IndexOf(s, '@');
    var b := && 0 < i && i + 3 < |s|
             && AllEmailChars(s[..i]) && AllEmailChars(s[i + 1..])
             && '.' in s[i + 2..|s| - 1];
    assert b ==> forall k | 0 <= k < |s| :: !IsSpace(s[k]) && (s[k] == '@' <==> k == i) by {
      if b {
        forall k | 0 <= k < |s| ensures !IsSpace(s[k]) && (s[k] == '@' <==> k == i) {
          if k < i {
            assert s[k] == s[..i][k];
          } else if k > i {
            assert s[k] == s[i + 1..][k - i - 1];
          }
        }
      }
    }
    b
  }

  /** The executable test accepts exactly the strings the regular expression matches. */
  lemma IsEmailIff(s: string)
    ensures IsEmail(s) <==> MatchesRegex(s)
  {
    var i := IndexOf(s, '@');
    if IsEmail(s) {
      var d := s[i + 2..|s| - 1];
      var k :| 0 <= k < |d| && d[k] == '.';
      var j := i + 2 + k;
      assert d[k] == s[j];
      assert s[i + 1..j] == s[i + 1..][..j - i - 1];
      assert s[j + 1..] == s[i + 1..][j - i..];
      assert MatchesAt(s, i, j);
    }
    if MatchesRegex(s) {
      var i': nat, j: nat :| MatchesAt(s, i', j);
      assert i == i';
      forall k | i + 1 <= k < |s| ensures EmailChar(s[k]) {
        if k < j {
          assert s[k] == s[i + 1..j][k - i - 1];
        } else if k > j {
          assert s[k] == s[j + 1..][k - j - 1];
        }
      }
      assert AllEmailChars(s[i + 1..]);
      assert s[i + 2..|s| - 1][j - i - 2] == '.';
    }
  }
}
