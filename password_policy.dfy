/**
 * The password rule of sign_up_backend.py (`MDP_valide`): at least eight
 * characters, at least one upper-case letter and at least one digit; any
 * violation raises the one exception MDPInvalide. Python's `str.isupper` and
 * `str.isdigit` are approximated by the ASCII ranges 'A'..'Z' and '0'..'9'.
 */
module PasswordPolicy {
  import opened Common

  const MinLength := 8

  /** The single exception `MDP_valide` raises, whichever rule failed. */
  datatype PolicyError = MdpInvalide

  predicate IsUpper(c: char)
  {
    'A' <= c <= 'Z'
  }

  predicate IsDigit(c: char)
  {
    '0' <= c <= '9'
  }

  /**
   * `MDP_valide`: returns normally exactly when the password is long enough,
   * holds an upper-case letter and holds a digit.
   */
  function MdpValide(mdp: string): (r: Outcome<PolicyError>)
    ensures r.Fail? ==> r.error == MdpInvalide
    ensures r == Pass <==> |mdp| >= MinLength &&
                           (exists i :: 0 <= i < |mdp| && IsUpper(mdp[i])) &&
                           (exists i :: 0 <= i < |mdp| && IsDigit(mdp[i]))
  {
    if |mdp| < MinLength then
      Fail(MdpInvalide)
    else
      var maj := Filter(mdp, IsUpper);
      var numb := Filter(mdp, IsDigit);
      assert |maj| >= 1 ==> maj[0] in mdp && IsUpper(maj[0]);
      assert |numb| >= 1 ==> numb[0] in mdp && IsDigit(numb[0]);
      if |maj| < 1 || |numb| < 1 then Fail(MdpInvalide) else Pass
  }

  /** Each rule on its own rejects: too short, no upper-case letter, no digit. */
  lemma {:induction false} EachRuleRejects(mdp: string)
    ensures |mdp| < MinLength ==> MdpValide(mdp) == Fail(MdpInvalide)
    ensures (forall i :: 0 <= i < |mdp| ==> !IsUpper(mdp[i])) ==> MdpValide(mdp) == Fail(MdpInvalide)
    ensures (forall i :: 0 <= i < |mdp| ==> !IsDigit(mdp[i])) ==> MdpValide(mdp) == Fail(MdpInvalide)
  {
  }

  /** The passwords of the account tests are accepted, and a seven-character one is not. */
  lemma {:induction false} Examples()
    ensures MdpValide("Paass123") == Pass
    ensures MdpValide("Mypassword8") == Pass
    ensures MdpValide("Paass12") == Fail(MdpInvalide)
    ensures MdpValide("paass123") == Fail(MdpInvalide)
  {
    assert IsUpper("Paass123"[0]) && IsDigit("Paass123"[5]);
    assert IsUpper("Mypassword8"[0]) && IsDigit("Mypassword8"[10]);
  }
}
