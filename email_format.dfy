/**
 * The syntactic e-mail check of App.js (`validateEmail`) and the
 * `String.prototype.trim` that `addEmail` applies before it.
 *
 * A string is a sequence of Unicode characters. The regular expression
 * `^[^\s@]+@[^\s@]+\.[^\s@]+$` is modelled by `ValidEmail`, an executable
 * predicate that follows the way the pattern must match: the greedy first
 * `[^\s@]+` stops at the first space or `@`, that character must be `@`, and
 * the rest must be a `[^\s@]+\.[^\s@]+` domain. `ValidEmailIffShape` proves
 * it equal to the declarative reading "s splits as L '@' D '.' T".
 */
module EmailFormat {

  /** JavaScript's `\s`, which is also the set `trim` removes: the ECMAScript
      WhiteSpace and LineTerminator characters. */
  predicate IsSpace(c: char)
    ensures IsSpace(c) ==> c != '@' && c != '.'
  {
    || c == '\t' || c == '\n' || c == '\U{000B}' || c == '\U{000C}' || c == '\r'
    || c == ' ' || c == '\U{00A0}' || c == '\U{1680}'
    || ('\U{2000}' <= c <= '\U{200A}')
    || c == '\U{2028}' || c == '\U{2029}' || c == '\U{202F}' || c == '\U{205F}'
    || c == '\U{3000}' || c == '\U{FEFF}'
  }

  /** A character of the class `[^\s@]`. */
  predicate AtomChar(c: char) {
    !IsSpace(c) && c != '@'
  }

  /** Every character of `s` is in `[^\s@]` (so `s` matches `[^\s@]*`). */
  predicate Clean(s: string) {
    forall k :: 0 <= k < |s| ==> AtomChar(s[k])
  }

  /** `s` matches `[^\s@]+`. */
  predicate Atom(s: string) {
    |s| > 0 && Clean(s)
  }

  predicate AllSpace(s: string) {
    forall k :: 0 <= k < |s| ==> IsSpace(s[k])
  }

  // ---------------------------------------------------------------------
  // trim

  /** `s` without its leading white space. */
  function TrimStart(s: string): (r: string)
    ensures |r| <= |s| && r == s[|s| - |r|..]
    ensures AllSpace(s[..|s| - |r|])
    ensures r == [] || !IsSpace(r[0])
  {
    if |s| > 0 && IsSpace(s[0]) then TrimStart(s[1..]) else s
  }

  /** `s` without its trailing white space. */
  function TrimEnd(s: string): (r: string)
    ensures |r| <= |s| && r == s[..|r|]
    ensures AllSpace(s[|r|..])
    ensures r == [] || !IsSpace(r[|r| - 1])
  {
    if |s| > 0 && IsSpace(s[|s| - 1]) then
      var r := TrimEnd(s[..|s| - 1]);
      assert s[|r|..] == s[..|s| - 1][|r|..] + [s[|s| - 1]];
      r
    else
      s
  }

  /** `String.prototype.trim`: no longer than `s`, and with no white space
      left at either end. */
  function Trim(s: string): (r: string)
    ensures |r| <= |s|
    ensures r == [] || (!IsSpace(r[0]) && !IsSpace(r[|r| - 1]))
  {
    var t := TrimStart(s);
    var r := TrimEnd(t);
    assert r != [] ==> r[0] == t[0];
    r
  }

  /** `r` is `s` with white space removed from both ends and nowhere else:
      a middle slice of `s`, only white space cut off around it, and no white
      space left at either end of it. */
  ghost predicate IsTrimOf(r: string, s: string) {
    exists i, j :: TrimmedAt(r, s, i, j)
  }

  ghost predicate TrimmedAt(r: string, s: string, i: int, j: int) {
    && 0 <= i <= j <= |s|
    && r == s[i..j]
    && AllSpace(s[..i]) && AllSpace(s[j..])
    && (r == [] || (!IsSpace(r[0]) && !IsSpace(r[|r| - 1])))
  }

  /** `Trim` meets the description of trimming. */
  lemma TrimIsTrimOf(s: string)
    ensures IsTrimOf(Trim(s), s)
  {
    var t := TrimStart(s);
    TrimmedFromParts(s, t, TrimEnd(t));
  }

  /** Cutting a white-space prefix and then a white-space suffix, each up to
      a non-space character, trims. */
  lemma TrimmedFromParts(s: string, t: string, r: string)
    requires |t| <= |s| && t == s[|s| - |t|..] && AllSpace(s[..|s| - |t|])
    requires t == [] || !IsSpace(t[0])
    requires |r| <= |t| && r == t[..|r|] && AllSpace(t[|r|..])
    requires r == [] || !IsSpace(r[|r| - 1])
    ensures IsTrimOf(r, s)
  {
    var i := |s| - |t|;
    var j := i + |r|;
    assert s[i..j] == r;
    assert s[j..] == t[|r|..];
    assert r != [] ==> r[0] == t[0];
    assert TrimmedAt(r, s, i, j);
  }

  /** What a decomposition says about the characters of `s`. */
  lemma TrimmedAtFacts(r: string, s: string, i: int, j: int)
    requires TrimmedAt(r, s, i, j)
    ensures forall k :: 0 <= k < i ==> IsSpace(s[k])
    ensures forall k :: j <= k < |s| ==> IsSpace(s[k])
    ensures r == [] ==> i == j
    ensures r != [] ==> !IsSpace(s[i]) && !IsSpace(s[j - 1])
  {
    assert forall k :: 0 <= k < i ==> s[..i][k] == s[k];
    assert forall k :: j <= k < |s| ==> s[j..][k - j] == s[k];
  }

  /** There is only one way to trim a string, so `Trim` is the trim. */
  lemma TrimOfUnique(r1: string, r2: string, s: string)
    requires IsTrimOf(r1, s) && IsTrimOf(r2, s)
    ensures r1 == r2
  {
    var i1, j1 :| TrimmedAt(r1, s, i1, j1);
    var i2, j2 :| TrimmedAt(r2, s, i2, j2);
    TrimmedAtFacts(r1, s, i1, j1);
    TrimmedAtFacts(r2, s, i2, j2);
  }

  /** Trimming twice is trimming once. */
  lemma TrimIdempotent(s: string)
    ensures Trim(Trim(s)) == Trim(s)
  {
    var r := Trim(s);
    TrimIsTrimOf(s);
    TrimIsTrimOf(r);
    assert TrimmedAt(r, r, 0, |r|);
    TrimOfUnique(Trim(r), r, r);
  }

  /** The trimmed input is empty (falsy) exactly when the input is blank. */
  lemma TrimEmptyIffBlank(s: string)
    ensures Trim(s) == [] <==> AllSpace(s)
  {
    TrimIsTrimOf(s);
    var i, j :| TrimmedAt(Trim(s), s, i, j);
    TrimmedAtFacts(Trim(s), s, i, j);
  }

  /** A string without white space at its ends is its own trim. */
  lemma TrimKeepsUnpadded(s: string)
    requires s == [] || (!IsSpace(s[0]) && !IsSpace(s[|s| - 1]))
    ensures Trim(s) == s
  {
    TrimIsTrimOf(s);
    assert TrimmedAt(s, s, 0, |s|);
    TrimOfUnique(Trim(s), s, s);
  }

  // ---------------------------------------------------------------------
  // validateEmail

  /** Length of the longest prefix of `s` in `[^\s@]*`: how far the greedy
      first `[^\s@]+` of the pattern reaches. */
  function AtomPrefix(s: string): (n: nat)
    ensures n <= |s| && Clean(s[..n])
    ensures n < |s| ==> !AtomChar(s[n])
  {
    if |s| == 0 || !AtomChar(s[0]) then 0 else 1 + AtomPrefix(s[1..])
  }

  /** `d` matches `[^\s@]+\.[^\s@]+` (anchored at both ends). */
  predicate ValidDomain(d: string) {
    Clean(d) && exists j :: 1 <= j < |d| - 1 && d[j] == '.'
  }

  /** `validateEmail`: `s` matches `^[^\s@]+@[^\s@]+\.[^\s@]+$`. An
      accepted string has at least five characters, among them an `@` and a
      later `.`. */
  predicate ValidEmail(s: string)
    ensures ValidEmail(s) ==> |s| >= 5 && '@' in s && '.' in s
  {
    var n := AtomPrefix(s);
    0 < n < |s| && s[n] == '@' && ValidDomain(s[n + 1..])
  }

  /** `s` is `L '@' D '.' T` with the `@` at `i` and the `.` at `j`, and
      `L`, `D` and `T` non-empty and in `[^\s@]*`. */
  ghost predicate SplitAt(s: string, i: int, j: int) {
    && 0 < i && i + 1 < j && j + 1 < |s|
    && s[i] == '@' && s[j] == '.'
    && Clean(s[..i]) && Clean(s[i + 1..j]) && Clean(s[j + 1..])
  }

  ghost predicate EmailShape(s: string) {
    exists i, j :: SplitAt(s, i, j)
  }

  /** The greedy prefix ends at the first character outside `[^\s@]`. */
  lemma AtomPrefixStops(s: string, i: nat)
    requires i < |s| && Clean(s[..i]) && !AtomChar(s[i])
    ensures AtomPrefix(s) == i
  {
    var n := AtomPrefix(s);
    assert forall k :: 0 <= k < i ==> s[..i][k] == s[k];
    assert forall k :: 0 <= k < n ==> s[..n][k] == s[k];
  }

  /** The executable check accepts exactly the strings of the form
      `L '@' D '.' T`. */
  lemma ValidEmailIffShape(s: string)
    ensures ValidEmail(s) <==> EmailShape(s)
  {
    if ValidEmail(s) {
      var i := AtomPrefix(s);
      var d := s[i + 1..];
      var k :| 1 <= k < |d| - 1 && d[k] == '.';
      var j := i + 1 + k;
      assert s[i + 1..j] == d[..k];
      assert s[j + 1..] == d[k + 1..];
      assert SplitAt(s, i, j);
    }
    if EmailShape(s) {
      var i, j :| SplitAt(s, i, j);
      assert !AtomChar(s[i]);
      AtomPrefixStops(s, i);
      var d := s[i + 1..];
      assert d[j - i - 1] == '.';
      assert Clean(d) by {
        forall k | 0 <= k < |d| ensures AtomChar(d[k]) {
          if k < j - i - 1 {
            assert d[k] == s[i + 1..j][k];
          } else if k > j - i - 1 {
            assert d[k] == s[j + 1..][k - (j - i)];
          }
        }
      }
    }
  }

  /** An accepted address splits into its three parts. */
  lemma DecomposeValid(s: string) returns (l: string, d: string, t: string)
    requires ValidEmail(s)
    ensures Atom(l) && Atom(d) && Atom(t)
    ensures s == l + "@" + d + "." + t
  {
    ValidEmailIffShape(s);
    var i, j :| SplitAt(s, i, j);
    l, d, t := s[..i], s[i + 1..j], s[j + 1..];
    assert s == l + "@" + d + "." + t;
  }

  /** Any three parts of the right form make an accepted address. */
  lemma ComposeValid(l: string, d: string, t: string)
    requires Atom(l) && Atom(d) && Atom(t)
    ensures ValidEmail(l + "@" + d + "." + t)
  {
    var s := l + "@" + d + "." + t;
    var i, j := |l|, |l| + 1 + |d|;
    assert s[..i] == l && s[i + 1..j] == d && s[j + 1..] == t;
    assert SplitAt(s, i, j);
    ValidEmailIffShape(s);
  }

  /** What acceptance implies: one `@`, no white space, and a `.` after the
      `@` that is neither right after it nor the last character. */
  lemma ValidEmailFacts(s: string)
    requires ValidEmail(s)
    ensures multiset(s)['@'] == 1
    ensures forall k :: 0 <= k < |s| ==> !IsSpace(s[k])
    ensures exists i, j :: 0 < i < j - 1 && j < |s| - 1 && s[i] == '@' && s[j] == '.'
  {
    var l, d, t := DecomposeValid(s);
    assert '@' !in l && '@' !in d && '@' !in t;
    assert s == l + ['@'] + d + ['.'] + t;
    assert multiset(s) == multiset(l) + multiset{'@'} + multiset(d) + multiset{'.'} + multiset(t);
    forall k | 0 <= k < |s| ensures !IsSpace(s[k]) {
      if k < |l| { assert s[k] == l[k]; }
      else if k == |l| { }
      else if k < |l| + 1 + |d| { assert s[k] == d[k - |l| - 1]; }
      else if k == |l| + 1 + |d| { }
      else { assert s[k] == t[k - |l| - 2 - |d|]; }
    }
    assert s[|l|] == '@' && s[|l| + 1 + |d|] == '.';
  }

  /** An accepted address has nothing for `trim` to remove. */
  lemma ValidEmailIsTrimmed(s: string)
    requires ValidEmail(s)
    ensures Trim(s) == s
  {
    ValidEmailFacts(s);
    TrimKeepsUnpadded(s);
  }

  /** The address the component's tests store, `test@example.com`, is
      accepted: it is `test`, `@`, `example`, `.` and `com`. */
  lemma ValidEmailExample()
    ensures ValidEmail("test@example.com")
  {
    var l, d, t := "test", "example", "com";
    ComposeValid(l, d, t);
    assert l + "@" + d + "." + t == "test@example.com";
  }

  /** The address the component's tests refuse is refused: it has no `@`. */
  lemma InvalidEmailExample()
    ensures !ValidEmail("invalid-email")
  {
    var s := "invalid-email";
    assert '@' !in s;
    if ValidEmail(s) {
      ValidEmailFacts(s);
      assert false;
    }
  }
}
