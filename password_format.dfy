/** The password format of the "Falha de Seguranca" solution: the regular
    expression `^[a-z][a-z0-9]{0,9}$`, tested with `RegExp.prototype.test`.
    Without the `m` flag `^` and `$` anchor at the true start and end of the
    string, so the test accepts exactly the strings that match as a whole. */
module PasswordFormat {

  /** The character class `[a-z]`: a lowercase unaccented ASCII letter. */
  predicate IsLowerLetter(c: char) {
    'a' <= c <= 'z'
  }

  /** The character class `[a-z0-9]`. */
  predicate IsLowerAlnum(c: char) {
    IsLowerLetter(c) || '0' <= c <= '9'
  }

  /** Longest password the pattern accepts: one letter and at most nine more. */
  const MaxPasswordLength: nat := 10

  /** The format rule stated character by character: length 1 to 10, a letter
      first, letters or digits after it. */
  predicate IsValidPassword(s: string) {
    1 <= |s| <= MaxPasswordLength &&
    IsLowerLetter(s[0]) &&
    forall k :: 1 <= k < |s| ==> IsLowerAlnum(s[k])
  }

  /** `[a-z0-9]{0,budget}$` on the rest `t` of the input, matched greedily:
      the end anchor succeeds only on an exhausted input, and each repetition
      consumes one character of the class while budget remains. Giving back
      characters cannot reach the end either, so greed loses no match. */
  function TailMatches(t: string, budget: nat): (r: bool)
    ensures r <==> |t| <= budget && forall k :: 0 <= k < |t| ==> IsLowerAlnum(t[k])
  {
    if t == [] then true
    else if budget == 0 then false
    else IsLowerAlnum(t[0]) && TailMatches(t[1..], budget - 1)
  }

  /** `verificarPadraoSenha`: the anchored pattern `^[a-z][a-z0-9]{0,9}$`. */
  function PatternTest(s: string): (r: bool)
    ensures r <==> IsValidPassword(s)
    ensures s == [] ==> !r
    ensures (exists k :: 0 <= k < |s| && 'A' <= s[k] <= 'Z') ==> !r
  {
    |s| >= 1 && IsLowerLetter(s[0]) && TailMatches(s[1..], MaxPasswordLength - 1)
  }
}
