/**
 * The two regular expressions the sign-up path tests its input with, as languages over strings.
 * Both the server and the browser form use the same two literals:
 *   email:    ^\w+([\.-]?\w+)*@\w+([\.-]?\w+)*(\.\w{2,3})+$
 *   password: ^(?=.*\d)(?=.*[a-z])(?=.*[A-Z]).{6,20}$
 * Each is first written piece by piece the way the regular expression is built, and then
 * shown equal to a character-level description that is easier to reason about.
 */
module Patterns {
  import opened Text

  // ---------------------------------------------------------------------------
  // Character classes (JavaScript regular expressions without the `u` flag)

  /** `\w`: ASCII letters, ASCII digits and `_`. */
  predicate IsWordChar(c: char) {
    ('a' <= c <= 'z') || ('A' <= c <= 'Z') || ('0' <= c <= '9') || c == '_'
  }

  /** `[\.-]` */
  predicate IsSeparator(c: char) {
    c == '.' || c == '-'
  }

  /** The characters `.` does not match: line feed, carriage return, U+2028, U+2029. */
  predicate IsLineTerminator(c: char) {
    c == '\n' || c == '\r' || c == '\U{2028}' || c == '\U{2029}'
  }

  /** `\d`, `[a-z]` and `[A-Z]`, the classes the three look-aheads search for. */
  datatype CharClass = Digit | Lower | Upper

  predicate InClass(c: char, k: CharClass) {
    match k
    case Digit => '0' <= c <= '9'
    case Lower => 'a' <= c <= 'z'
    case Upper => 'A' <= c <= 'Z'
  }

  // ---------------------------------------------------------------------------
  // The email expression, piece by piece

  /** `\w+` */
  predicate IsWordRun(s: string) {
    |s| > 0 && forall i :: 0 <= i < |s| ==> IsWordChar(s[i])
  }

  /** `[\.-]?\w+` */
  predicate IsSegment(s: string) {
    IsWordRun(s) || (|s| > 1 && IsSeparator(s[0]) && IsWordRun(s[1..]))
  }

  /** `([\.-]?\w+)*` */
  predicate IsSegments(s: string)
    decreases |s|
  {
    s == [] || exists k :: 0 < k <= |s| && IsSegment(s[..k]) && IsSegments(s[k..])
  }

  /** `\w+([\.-]?\w+)*`: the local part, and the leading part of the domain */
  predicate IsDotted(s: string) {
    exists k :: 0 < k <= |s| && IsWordRun(s[..k]) && IsSegments(s[k..])
  }

  /** `\.\w{2,3}` */
  predicate IsTldGroup(s: string) {
    (|s| == 3 || |s| == 4) && s[0] == '.' && IsWordRun(s[1..])
  }

  /** `(\.\w{2,3})+` */
  predicate IsTldGroups(s: string)
    decreases |s|
  {
    exists k :: 3 <= k <= |s| && k <= 4 && IsTldGroup(s[..k]) && (k == |s| || IsTldGroups(s[k..]))
  }

  /** `^\w+([\.-]?\w+)*@\w+([\.-]?\w+)*(\.\w{2,3})+$` accepts `s` (emailRegex.test). */
  predicate IsEmail(s: string)
    ensures IsEmail(s) ==> 6 <= |s| && IsWordChar(s[0]) && '@' in s
  {
    EmailFacts(s);
    exists i, j :: 0 <= i < j <= |s| && s[i] == '@' && IsDotted(s[..i]) && IsDotted(s[i + 1..j]) && IsTldGroups(s[j..])
  }

  lemma EmailFacts(s: string)
    ensures (exists i, j :: 0 <= i < j <= |s| && s[i] == '@' && IsDotted(s[..i]) && IsDotted(s[i + 1..j]) && IsTldGroups(s[j..]))
            ==> 6 <= |s| && IsWordChar(s[0]) && '@' in s
  {
    if i, j :| 0 <= i < j <= |s| && s[i] == '@' && IsDotted(s[..i]) && IsDotted(s[i + 1..j]) && IsTldGroups(s[j..]) {
      var k :| 0 < k <= i && IsWordRun(s[..i][..k]) && IsSegments(s[..i][k..]);
      assert s[..i][..k][0] == s[0];
      var m :| 0 < m <= j - i - 1 && IsWordRun(s[i + 1..j][..m]) && IsSegments(s[i + 1..j][m..]);
      var t :| 3 <= t <= |s[j..]| && t <= 4 && IsTldGroup(s[j..][..t]) && (t == |s[j..]| || IsTldGroups(s[j..][t..]));
    }
  }

  // ---------------------------------------------------------------------------
  // The password expression, piece by piece

  /** `(?=.*X)`: a character of class `k` is reached from the start without crossing a line terminator. */
  predicate LookaheadFinds(s: string, k: CharClass) {
    exists i :: 0 <= i < |s| && InClass(s[i], k) && forall j :: 0 <= j < i ==> !IsLineTerminator(s[j])
  }

  /** `^(?=.*\d)(?=.*[a-z])(?=.*[A-Z]).{6,20}$` accepts `s` (passwordRegex.test). */
  predicate IsStrongPassword(s: string)
    ensures IsStrongPassword(s) ==> Contains(s, Digit) && Contains(s, Lower) && Contains(s, Upper)
  {
    && LookaheadFinds(s, Digit)
    && LookaheadFinds(s, Lower)
    && LookaheadFinds(s, Upper)
    && 6 <= |s| <= 20
    && forall i :: 0 <= i < |s| ==> !IsLineTerminator(s[i])
  }

  // ---------------------------------------------------------------------------
  // Character-level descriptions

  /** Every character is a word character, or a separator followed by a word character. */
  predicate IsJoined(s: string) {
    forall i {:trigger s[i]} :: 0 <= i < |s| ==> IsWordChar(s[i]) || (IsSeparator(s[i]) && i + 1 < |s| && IsWordChar(s[i + 1]))
  }

  /** Word runs joined by single `.` or `-`: starts with a word character, no two separators in a row, none at the end. */
  predicate IsDottedShape(s: string) {
    |s| > 0 && IsWordChar(s[0]) && IsJoined(s)
  }

  /** A dotted name whose last `n + 1` characters are `.` and `n` word characters. */
  predicate EndsInTld(d: string, n: nat) {
    n + 2 <= |d| && d[|d| - n - 1] == '.' && IsWordRun(d[|d| - n..]) && IsDottedShape(d[..|d| - n - 1])
  }

  /** The domain: a dotted name ending in `.` and 2 or 3 word characters. */
  predicate IsDomainShape(d: string) {
    EndsInTld(d, 2) || EndsInTld(d, 3)
  }

  /** An email: a dotted local part, the first `@`, then a domain. */
  predicate IsEmailShape(s: string) {
    '@' in s && IsDottedShape(s[..FirstIndex(s, '@')]) && IsDomainShape(s[FirstIndex(s, '@') + 1..])
  }

  /** `s` has a character of class `k` somewhere. */
  predicate Contains(s: string, k: CharClass) {
    exists i :: 0 <= i < |s| && InClass(s[i], k)
  }

  // ---------------------------------------------------------------------------
  // Lemmas: joined strings

  lemma JoinedConcat(a: string, b: string)
    requires IsJoined(a) && IsJoined(b)
    ensures IsJoined(a + b)
  {
    forall i | 0 <= i < |a + b|
      ensures IsWordChar((a + b)[i]) || (IsSeparator((a + b)[i]) && i + 1 < |a + b| && IsWordChar((a + b)[i + 1]))
    {
      if i < |a| {
        assert (a + b)[i] == a[i];
        if !IsWordChar(a[i]) {
          assert (a + b)[i + 1] == a[i + 1];
        }
      } else {
        assert (a + b)[i] == b[i - |a|];
        if !IsWordChar(b[i - |a|]) {
          assert (a + b)[i + 1] == b[i - |a| + 1];
        }
      }
    }
  }

  lemma JoinedSuffix(s: string, k: nat)
    requires IsJoined(s) && k <= |s|
    ensures IsJoined(s[k..])
  {
    forall i | 0 <= i < |s[k..]|
      ensures IsWordChar(s[k..][i]) || (IsSeparator(s[k..][i]) && i + 1 < |s[k..]| && IsWordChar(s[k..][i + 1]))
    {
      var j := k + i;
      assert s[k..][i] == s[j];
      assert IsWordChar(s[j]) || (IsSeparator(s[j]) && j + 1 < |s| && IsWordChar(s[j + 1]));
      if !IsWordChar(s[j]) {
        assert s[k..][i + 1] == s[j + 1];
      }
    }
  }

  lemma {:induction false} SegmentsAreJoined(s: string)
    requires IsSegments(s)
    ensures IsJoined(s)
    decreases |s|
  {
    if s != [] {
      var k :| 0 < k <= |s| && IsSegment(s[..k]) && IsSegments(s[k..]);
      SegmentsAreJoined(s[k..]);
      JoinedConcat(s[..k], s[k..]);
      assert s[..k] + s[k..] == s;
    }
  }

  lemma {:induction false} JoinedAreSegments(s: string)
    requires IsJoined(s)
    ensures IsSegments(s)
    decreases |s|
  {
    if s != [] {
      assert IsWordChar(s[0]) || (IsSeparator(s[0]) && 1 < |s| && IsWordChar(s[1]));
      var k := if IsWordChar(s[0]) then 1 else 2;
      assert IsSegment(s[..k]) by {
        if k == 2 {
          assert s[..k][1..] == [s[1]];
        }
      }
      JoinedSuffix(s, k);
      JoinedAreSegments(s[k..]);
    }
  }

  /** `\w+([\.-]?\w+)*` matches exactly the dotted shapes. */
  lemma DottedIff(s: string)
    ensures IsDotted(s) <==> IsDottedShape(s)
  {
    if IsDotted(s) {
      var k :| 0 < k <= |s| && IsWordRun(s[..k]) && IsSegments(s[k..]);
      SegmentsAreJoined(s[k..]);
      JoinedConcat(s[..k], s[k..]);
      assert s[..k] + s[k..] == s;
      assert s[0] == s[..k][0];
    }
    if IsDottedShape(s) {
      JoinedSuffix(s, 1);
      JoinedAreSegments(s[1..]);
      assert IsWordRun(s[..1]);
    }
  }

  // ---------------------------------------------------------------------------
  // Lemmas: the domain

  /** A dotted name followed by one more `.` and a word run is still a dotted name. */
  lemma DottedExtend(p: string, g: string)
    requires IsDottedShape(p) && IsTldGroup(g)
    ensures IsDottedShape(p + g)
  {
    assert IsJoined(g) by {
      forall i | 0 <= i < |g|
        ensures IsWordChar(g[i]) || (IsSeparator(g[i]) && i + 1 < |g| && IsWordChar(g[i + 1]))
      {
        if i > 0 {
          assert g[i] == g[1..][i - 1];
        } else {
          assert g[1] == g[1..][0];
        }
      }
    }
    JoinedConcat(p, g);
    assert (p + g)[0] == p[0];
  }

  /** A dotted name followed by `(\.\w{2,3})+` is a domain shape. */
  lemma {:induction false} DomainCollapse(p: string, t: string)
    requires IsDottedShape(p) && IsTldGroups(t)
    ensures IsDomainShape(p + t)
    decreases |t|
  {
    var k :| 3 <= k <= |t| && k <= 4 && IsTldGroup(t[..k]) && (k == |t| || IsTldGroups(t[k..]));
    if k == |t| {
      assert t[..k] == t;
      LastGroupDomain(p, t);
    } else {
      DottedExtend(p, t[..k]);
      DomainCollapse(p + t[..k], t[k..]);
      assert (p + t[..k]) + t[k..] == p + t;
    }
  }

  /** A dotted name followed by one `\.\w{2,3}` group is a domain shape. */
  lemma LastGroupDomain(p: string, g: string)
    requires IsDottedShape(p) && IsTldGroup(g)
    ensures IsDomainShape(p + g)
  {
    var d := p + g;
    var n := |g| - 1;
    assert d[..|d| - n - 1] == p;
    assert d[|d| - n - 1] == g[0];
    assert d[|d| - n..] == g[1..];
    assert EndsInTld(d, n);
  }

  /** `\w+([\.-]?\w+)*(\.\w{2,3})+` matches `d` exactly when `d` has the domain shape. */
  lemma DomainIff(d: string)
    ensures (exists j :: 0 < j <= |d| && IsDotted(d[..j]) && IsTldGroups(d[j..])) <==> IsDomainShape(d)
  {
    if j :| 0 < j <= |d| && IsDotted(d[..j]) && IsTldGroups(d[j..]) {
      DottedIff(d[..j]);
      DomainCollapse(d[..j], d[j..]);
      assert d[..j] + d[j..] == d;
    }
    if IsDomainShape(d) {
      var n := if EndsInTld(d, 2) then 2 else 3;
      var j := |d| - n - 1;
      DottedIff(d[..j]);
      assert d[j..][..n + 1] == d[j..];
      assert d[j..][1..] == d[|d| - n..];
      assert IsTldGroup(d[j..]);
      assert IsTldGroups(d[j..]);
    }
  }

  // ---------------------------------------------------------------------------
  // Lemmas: the whole email

  lemma DottedHasNoAt(s: string)
    requires IsDottedShape(s)
    ensures '@' !in s
  {
    forall i | 0 <= i < |s|
      ensures s[i] != '@'
    {
      assert IsWordChar(s[i]) || IsSeparator(s[i]);
    }
  }

  lemma DomainHasNoAt(d: string)
    requires IsDomainShape(d)
    ensures '@' !in d
  {
    var n := if EndsInTld(d, 2) then 2 else 3;
    var j := |d| - n - 1;
    DottedHasNoAt(d[..j]);
    forall i | 0 <= i < |d|
      ensures d[i] != '@'
    {
      if i < j {
        assert d[..j][i] == d[i];
      } else if i > j {
        assert d[|d| - n..][i - (|d| - n)] == d[i];
      }
    }
  }

  /** The local part and the domain of an accepted email, split at the first `@`. */
  lemma EmailToShape(s: string)
    requires IsEmail(s)
    ensures IsEmailShape(s)
  {
    var i, j :| 0 <= i < j <= |s| && s[i] == '@' && IsDotted(s[..i]) && IsDotted(s[i + 1..j]) && IsTldGroups(s[j..]);
    DottedIff(s[..i]);
    DottedHasNoAt(s[..i]);
    var f := FirstIndex(s, '@');
    assert f == i;
    var d := s[i + 1..];
    assert d[..j - i - 1] == s[i + 1..j];
    assert d[j - i - 1..] == s[j..];
    DomainIff(d);
  }

  lemma ShapeToEmail(s: string)
    requires IsEmailShape(s)
    ensures IsEmail(s)
  {
    var i := FirstIndex(s, '@');
    var d := s[i + 1..];
    DottedIff(s[..i]);
    DomainIff(d);
    var j' :| 0 < j' <= |d| && IsDotted(d[..j']) && IsTldGroups(d[j'..]);
    var j := i + 1 + j';
    assert s[i + 1..j] == d[..j'];
    assert s[j..] == d[j'..];
  }

  /** emailRegex.test accepts exactly the strings with a dotted local part, one `@` and a domain. */
  lemma EmailIff(s: string)
    ensures IsEmail(s) <==> IsEmailShape(s)
  {
    if IsEmail(s) {
      EmailToShape(s);
    }
    if IsEmailShape(s) {
      ShapeToEmail(s);
    }
  }

  lemma ShapeHasOneAt(s: string)
    requires IsEmailShape(s)
    ensures forall k :: 0 <= k < |s| && s[k] == '@' ==> k == FirstIndex(s, '@')
    ensures FirstIndex(s, '@') > 0
  {
    var i := FirstIndex(s, '@');
    DomainHasNoAt(s[i + 1..]);
    DottedHasNoAt(s[..i]);
    forall k | 0 <= k < |s| && k != i
      ensures s[k] != '@'
    {
      if k > i {
        assert s[i + 1..][k - i - 1] == s[k];
      } else {
        assert s[..i][k] == s[k];
      }
    }
  }

  /** An accepted email holds exactly one `@`, preceded by a non-empty local part. */
  lemma EmailHasOneAt(s: string)
    requires IsEmail(s)
    ensures '@' in s
    ensures forall k :: 0 <= k < |s| && s[k] == '@' ==> k == FirstIndex(s, '@')
    ensures FirstIndex(s, '@') > 0
  {
    EmailToShape(s);
    ShapeHasOneAt(s);
  }

  // ---------------------------------------------------------------------------
  // Lemmas: the password

  /** passwordRegex.test accepts exactly the strings of 6 to 20 characters, none a line terminator, with a digit, a lower-case and an upper-case ASCII letter. */
  lemma StrongPasswordIff(s: string)
    ensures IsStrongPassword(s) <==>
      && 6 <= |s| <= 20
      && (forall i :: 0 <= i < |s| ==> !IsLineTerminator(s[i]))
      && Contains(s, Digit) && Contains(s, Lower) && Contains(s, Upper)
  {
  }

  // ---------------------------------------------------------------------------
  // Examples

  /** `local@host.tld` is accepted whenever the three parts are word runs and the last has 2 or 3 characters. */
  lemma SimpleEmailAccepted(local: string, host: string, tld: string)
    requires IsWordRun(local) && IsWordRun(host) && IsWordRun(tld) && 2 <= |tld| <= 3
    ensures IsEmail(local + "@" + host + "." + tld)
  {
    var s := local + "@" + host + "." + tld;
    var i, j := |local|, |local| + 1 + |host|;
    assert s[..i] == local && s[i] == '@' && s[i + 1..j] == host && s[j..] == "." + tld;
    assert local[..|local|] == local && local[|local|..] == [];
    assert host[..|host|] == host && host[|host|..] == [];
    assert IsDotted(local) && IsDotted(host);
    var g := "." + tld;
    assert g[..|g|] == g && g[1..] == tld;
    assert IsTldGroup(g);
    assert IsTldGroups(g);
  }

  /** `alice@<host>.com` is accepted for a one-letter host. */
  lemma AliceAccepted(host: char)
    requires 'a' <= host <= 'z'
    ensures IsEmail("alice@" + [host] + ".com")
  {
    assert IsWordRun("alice") by {
      forall i | 0 <= i < 5 ensures IsWordChar("alice"[i]) { }
    }
    assert IsWordRun("com") by {
      forall i | 0 <= i < 3 ensures IsWordChar("com"[i]) { }
    }
    SimpleEmailAccepted("alice", [host], "com");
    assert "alice" + "@" + [host] + "." + "com" == "alice@" + [host] + ".com";
  }

  /** A string without `@` is refused. */
  lemma NotAnEmailRefused()
    ensures !IsEmail("not-an-email")
  {
    var bad := "not-an-email";
    forall i | 0 <= i < |bad|
      ensures bad[i] != '@'
    {
    }
  }

  /** A password the expression accepts. */
  lemma PasswordAccepted()
    ensures IsStrongPassword("Secret1")
  {
    var good := "Secret1";
    assert forall j :: 0 <= j < |good| ==> !IsLineTerminator(good[j]);
    assert InClass(good[6], Digit) && InClass(good[1], Lower) && InClass(good[0], Upper);
  }

  /** Passwords the expression refuses: no upper-case letter, and empty. */
  lemma PasswordsRefused()
    ensures !IsStrongPassword("alllowercase1")
    ensures !IsStrongPassword("")
  {
    var weak := "alllowercase1";
    forall i | 0 <= i < |weak|
      ensures !InClass(weak[i], Upper)
    {
    }
  }
}
