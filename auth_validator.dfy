/** The login and signup schemas (src/validator/auth.validator.ts). Each schema reports
    every failed check, in the order the checks are declared. */
module AuthValidator {

  datatype Issue = PasswordTooShort | PasswordTooLong | PasswordPattern | NameTooShort | NameTooLong

  predicate IsLower(c: char) { 'a' <= c <= 'z' }
  predicate IsUpper(c: char) { 'A' <= c <= 'Z' }
  /** `\d` of a regular expression without the `u` flag: ASCII digits only. */
  predicate IsDigit(c: char) { '0' <= c <= '9' }
  /** `[\W_]`: anything that is not an ASCII letter or digit. */
  predicate IsSpecial(c: char) { !IsLower(c) && !IsUpper(c) && !IsDigit(c) }
  /** The characters `.` does not match (no `s` flag). */
  predicate IsLineTerminator(c: char) {
    c == '\n' || c == '\r' || c == '\U{2028}' || c == '\U{2029}'
  }

  /** The lookahead `(?=.*[C])` at the start of `p`: some character of class C is
      preceded only by characters `.` matches. */
  ghost predicate LookaheadFinds(p: string, inClass: char -> bool) {
    exists j :: 0 <= j < |p| && inClass(p[j]) && forall k :: 0 <= k < j ==> !IsLineTerminator(p[k])
  }

  /** The strings `^(?=.*[a-z])(?=.*[A-Z])(?=.*\d)(?=.*[\W_]).+$` matches. */
  ghost predicate PatternAccepts(p: string) {
    && LookaheadFinds(p, IsLower)
    && LookaheadFinds(p, IsUpper)
    && LookaheadFinds(p, IsDigit)
    && LookaheadFinds(p, IsSpecial)
    && |p| >= 1
    && forall k :: 0 <= k < |p| ==> !IsLineTerminator(p[k])
  }

  /** Which character classes occur in a string. */
  datatype Seen = Seen(lower: bool, upper: bool, digit: bool, special: bool, lineBreak: bool)

  /** Whether some character of the class occurs in `p`, found by a scan from the left. */
  function Occurs(p: string, inClass: char -> bool): (b: bool)
    ensures b <==> exists j :: 0 <= j < |p| && inClass(p[j])
  {
    if p == [] then false
    else if inClass(p[0]) then true
    else
      var b := Occurs(p[1..], inClass);
      assert forall j :: 0 < j < |p| ==> p[j] == p[1..][j - 1];
      b
  }

  /** The classes met in the string. */
  function Scan(p: string): (s: Seen)
    ensures s.lower <==> exists j :: 0 <= j < |p| && IsLower(p[j])
    ensures s.upper <==> exists j :: 0 <= j < |p| && IsUpper(p[j])
    ensures s.digit <==> exists j :: 0 <= j < |p| && IsDigit(p[j])
    ensures s.special <==> exists j :: 0 <= j < |p| && IsSpecial(p[j])
    ensures s.lineBreak <==> exists j :: 0 <= j < |p| && IsLineTerminator(p[j])
  {
    Seen(Occurs(p, IsLower), Occurs(p, IsUpper), Occurs(p, IsDigit), Occurs(p, IsSpecial),
      Occurs(p, IsLineTerminator))
  }

  /** The pattern test performed with character scans instead of lookaheads. */
  predicate PatternHolds(p: string) {
    var s := Scan(p);
    |p| >= 1 && s.lower && s.upper && s.digit && s.special && !s.lineBreak
  }

  /** The scan-based test accepts exactly what the regular expression accepts. */
  lemma PatternHoldsIffAccepts(p: string)
    ensures PatternHolds(p) <==> PatternAccepts(p)
  {
    var s := Scan(p);
    if PatternHolds(p) {
      var a :| 0 <= a < |p| && IsLower(p[a]);
      var b :| 0 <= b < |p| && IsUpper(p[b]);
      var c :| 0 <= c < |p| && IsDigit(p[c]);
      var d :| 0 <= d < |p| && IsSpecial(p[d]);
      assert forall k :: 0 <= k < |p| ==> !IsLineTerminator(p[k]);
      assert IsLower(p[a]) && forall k :: 0 <= k < a ==> !IsLineTerminator(p[k]);
      assert IsUpper(p[b]) && forall k :: 0 <= k < b ==> !IsLineTerminator(p[k]);
      assert IsDigit(p[c]) && forall k :: 0 <= k < c ==> !IsLineTerminator(p[k]);
      assert IsSpecial(p[d]) && forall k :: 0 <= k < d ==> !IsLineTerminator(p[k]);
    }
  }

  /** loginSchema's password checks: `.min(8)`, `.max(16)` and the pattern. */
  function PasswordIssues(p: string): (r: seq<Issue>)
    ensures PasswordTooShort in r <==> |p| < 8
    ensures PasswordTooLong in r <==> |p| > 16
    ensures PasswordPattern in r <==> !PatternAccepts(p)
    ensures NameTooShort !in r && NameTooLong !in r
  {
    PatternHoldsIffAccepts(p);
    (if |p| < 8 then [PasswordTooShort] else [])
    + (if |p| > 16 then [PasswordTooLong] else [])
    + (if !PatternHolds(p) then [PasswordPattern] else [])
  }

  /** signupSchema's own check on `name`: `.min(7)` and `.max(60)`. */
  function NameIssues(name: string): (r: seq<Issue>)
    ensures NameTooShort in r <==> |name| < 7
    ensures NameTooLong in r <==> |name| > 60
    ensures r == [] <==> 7 <= |name| <= 60
  {
    (if |name| < 7 then [NameTooShort] else [])
    + (if |name| > 60 then [NameTooLong] else [])
  }

  /** signupSchema extends loginSchema: the login checks, then the name checks. Any
      input signupSchema accepts also passes every loginSchema check on the password. */
  function SignupIssues(name: string, password: string): (r: seq<Issue>)
    ensures r == [] <==> PasswordIssues(password) == [] && 7 <= |name| <= 60
    ensures forall x :: x in r <==> x in PasswordIssues(password) || x in NameIssues(name)
  {
    PasswordIssues(password) + NameIssues(name)
  }

  /** A password passes loginSchema exactly when it has 8 to 16 characters, no line
      break, and at least one lowercase letter, one uppercase letter, one digit and one
      character that is not an ASCII letter or digit. */
  lemma PasswordAcceptedIff(p: string)
    ensures PasswordIssues(p) == [] <==>
      && 8 <= |p| <= 16
      && (forall k :: 0 <= k < |p| ==> !IsLineTerminator(p[k]))
      && (exists j :: 0 <= j < |p| && IsLower(p[j]))
      && (exists j :: 0 <= j < |p| && IsUpper(p[j]))
      && (exists j :: 0 <= j < |p| && IsDigit(p[j]))
      && (exists j :: 0 <= j < |p| && IsSpecial(p[j]))
  {
    PatternHoldsIffAccepts(p);
    var r := PasswordIssues(p);
    if r != [] {
      assert r[0] in r;
    }
  }

  /** An underscore meets the special-character requirement on its own. */
  lemma UnderscoreCountsAsSpecial(p: string, u: nat)
    requires 8 <= |p| <= 16 && u < |p| && p[u] == '_'
    requires forall k :: 0 <= k < |p| ==> !IsLineTerminator(p[k])
    requires exists j :: 0 <= j < |p| && IsLower(p[j])
    requires exists j :: 0 <= j < |p| && IsUpper(p[j])
    requires exists j :: 0 <= j < |p| && IsDigit(p[j])
    ensures PasswordIssues(p) == []
  {
    PasswordAcceptedIff(p);
    assert IsSpecial(p[u]);
  }
}
