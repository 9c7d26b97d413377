/**
 * The object-name grammar the proxy route tests before fetching anything
 * (server.js:122): `^\d{9,}[-A-Za-z0-9_\-.]*\.[A-Za-z0-9]+$`, that is at
 * least nine ASCII digits, any run of name characters, a `.`, and at least
 * one ASCII letter or digit up to the end of the segment.
 */
module ObjectName {
  import opened JsText
  import opened NodePath

  /** The bracket class `[-A-Za-z0-9_\-.]`. */
  predicate InNameClass(c: char)
  {
    IsAlnum(c) || c == '_' || c == '-' || c == '.'
  }

  predicate AllInNameClass(s: string)
  {
    forall i :: 0 <= i < |s| ==> InNameClass(s[i])
  }

  /**
   * One way the regular expression can match `s`: `\d{9,}` takes `s[..i]`,
   * the bracket class takes `s[i..j]`, `\.` takes `s[j]` and
   * `[A-Za-z0-9]+` takes the rest.
   */
  ghost predicate SplitsAt(s: string, i: nat, j: nat)
  {
    && 9 <= i <= j < |s| - 1
    && AllDigits(s[..i])
    && AllInNameClass(s[i..j])
    && s[j] == '.'
    && AllAlnum(s[j + 1..])
  }

  /** The regular expression accepts `s` when some split fits it. */
  ghost predicate RegexAccepts(s: string)
    ensures RegexAccepts(s) ==> |s| >= 11 && s[|s| - 1] != '.'
  {
    exists i: nat, j: nat :: SplitsAt(s, i, j)
  }

  /**
   * The test as the route performs it, without backtracking: the `.` of the
   * grammar must be the last `.` of the segment, since no `.` can follow it.
   */
  function IsObjectName(s: string): (r: bool)
    ensures r ==> |s| >= 11 && AllDigits(s[..9]) && AllInNameClass(s)
    ensures r ==> exists j :: 9 <= j < |s| - 1 && s[j] == '.' && AllAlnum(s[j + 1..])
  {
    match LastIndexOf(s, '.')
    case None => false
    case Some(j) =>
      if 9 <= j < |s| - 1 && AllDigits(s[..9]) && AllInNameClass(s[9..j]) && AllAlnum(s[j + 1..]) then
        WholeInNameClass(s, j);
        true
      else false
  }

  lemma WholeInNameClass(s: string, j: nat)
    requires 9 <= j < |s| - 1 && s[j] == '.'
    requires AllDigits(s[..9]) && AllInNameClass(s[9..j]) && AllAlnum(s[j + 1..])
    ensures AllInNameClass(s)
  {
    forall k | 0 <= k < |s| ensures InNameClass(s[k]) {
      if k < 9 { assert s[k] == s[..9][k]; }
      else if k < j { assert s[k] == s[9..j][k - 9]; }
      else if k > j { assert s[k] == s[j + 1..][k - j - 1]; }
    }
  }

  /** The direct test agrees with the regular expression on every string. */
  lemma IsObjectNameMatchesRegex(s: string)
    ensures IsObjectName(s) <==> RegexAccepts(s)
  {
    if IsObjectName(s) {
      var j := LastIndexOf(s, '.').value;
      assert SplitsAt(s, 9, j);
    }
    if RegexAccepts(s) {
      var i: nat, j: nat :| SplitsAt(s, i, j);
      var tail := s[j + 1..];
      assert '.' !in tail by {
        forall k | 0 <= k < |tail| ensures tail[k] != '.' { assert IsAlnum(tail[k]); }
      }
      LastIndexOfAt(s, '.', j);
      assert AllDigits(s[..9]) by {
        forall k | 0 <= k < 9 ensures IsDigit(s[..9][k]) { assert s[..9][k] == s[..i][k]; }
      }
      assert AllInNameClass(s[9..j]) by {
        forall k | 0 <= k < j - 9 ensures InNameClass(s[9..j][k]) {
          if 9 + k < i { assert s[9..j][k] == s[..i][9 + k]; }
          else { assert s[9..j][k] == s[i..j][9 + k - i]; }
        }
      }
    }
  }

  /**
   * Every accepted segment starts with nine ASCII digits, holds only name
   * characters, is at least eleven characters long and ends with `.` and at
   * least one letter or digit.
   */
  lemma AcceptedShape(s: string)
    requires RegexAccepts(s)
    ensures |s| >= 11 && AllDigits(s[..9]) && AllInNameClass(s)
    ensures forall k :: 0 <= k < 9 ==> IsDigit(s[k])
    ensures '.' in s && '/' !in s && IsAlnum(s[|s| - 1])
  {
    IsObjectNameMatchesRegex(s);
    var j :| 9 <= j < |s| - 1 && s[j] == '.' && AllAlnum(s[j + 1..]);
    assert s[|s| - 1] == s[j + 1..][|s| - j - 2];
    forall k | 0 <= k < 9 ensures IsDigit(s[k]) { assert s[k] == s[..9][k]; }
    forall k | 0 <= k < |s| ensures s[k] != '/' { assert InNameClass(s[k]); }
  }

  /** A segment holding a `/` never matches. */
  lemma SlashNeverAccepted(s: string)
    requires '/' in s
    ensures !RegexAccepts(s)
  {
    if RegexAccepts(s) {
      AcceptedShape(s);
    }
  }

  /** A segment without a `.` never matches. */
  lemma DotlessNeverAccepted(s: string)
    requires '.' !in s
    ensures !RegexAccepts(s)
  {
    if RegexAccepts(s) { AcceptedShape(s); }
  }

  /** A segment that does not start with nine digits never matches, so `abc.txt` falls through. */
  lemma ShortDigitPrefixNeverAccepted(s: string, k: nat)
    requires k < 9 && k < |s| && !IsDigit(s[k])
    ensures !RegexAccepts(s)
  {
    if RegexAccepts(s) {
      AcceptedShape(s);
    }
  }

  lemma PlainTextNameRejected()
    ensures !RegexAccepts("abc.txt")
  {
    ShortDigitPrefixNeverAccepted("abc.txt", 0);
  }

  /**
   * The name shape the upload route aims at: a timestamp of nine or more
   * digits, `-`, a base of name characters, `.` and an alphanumeric
   * extension is accepted.
   */
  lemma ComposedNameAccepted(d: string, b: string, x: string)
    requires |d| >= 9 && AllDigits(d)
    requires AllInNameClass(b)
    requires x != [] && AllAlnum(x)
    ensures RegexAccepts(d + "-" + b + "." + x)
  {
    var s := d + "-" + b + "." + x;
    var i, j := |d|, |d| + 1 + |b|;
    assert s[..i] == d;
    assert s[i..j] == "-" + b;
    assert s[j] == '.';
    assert s[j + 1..] == x;
    assert AllInNameClass(s[i..j]) by {
      forall k | 0 <= k < j - i ensures InNameClass(s[i..j][k]) {
        if k > 0 { assert s[i..j][k] == b[k - 1]; }
      }
    }
    assert SplitsAt(s, i, j);
  }
}
