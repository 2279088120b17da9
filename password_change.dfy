/**
 * The POST of `alterar_senha` (app.py:108-124): three checks in a fixed
 * order decide the single message shown, and only when all three pass is the
 * user's stored hash replaced. `verificar_senha` (bcrypt) is a parameter:
 * any predicate over (stored hash, typed password).
 */
module PasswordChange {
  import opened Wrappers

  /** Why a password change is refused. */
  datatype PasswordError = WrongCurrent | TooShort | Mismatch

  /** The shortest new password accepted. */
  const MinLength: nat := 6

  /** The message the page shows: the error, or the success text when there is none. */
  function PasswordMessage(r: Option<PasswordError>): string {
    match r
    case None => "Senha alterada com sucesso!"
    case Some(WrongCurrent) => "Senha atual incorreta."
    case Some(TooShort) => "Nova senha deve ter pelo menos 6 caracteres."
    case Some(Mismatch) => "Nova senha e confirmação não coincidem."
  }

  /**
   * The if/elif chain: the current password must verify, then the new one
   * must have at least six characters, then it must equal its confirmation.
   * None means the change is accepted.
   */
  function Validate(currentOk: bool, nova: string, confirma: string): (r: Option<PasswordError>)
    ensures r.None? <==> currentOk && |nova| >= MinLength && nova == confirma
  {
    if !currentOk then Some(WrongCurrent)
    else if |nova| < MinLength then Some(TooShort)
    else if nova != confirma then Some(Mismatch)
    else None
  }

  /** The checks in the order they are made, each with the error it raises. */
  function Checks(currentOk: bool, nova: string, confirma: string): seq<(bool, PasswordError)> {
    [(currentOk, WrongCurrent), (|nova| >= MinLength, TooShort), (nova == confirma, Mismatch)]
  }

  /** The error of the first check that fails; None when all pass. */
  function FirstFailure(checks: seq<(bool, PasswordError)>): Option<PasswordError> {
    if checks == [] then None
    else if !checks[0].0 then Some(checks[0].1)
    else FirstFailure(checks[1..])
  }

  /** The chain reports exactly the first failing check, so a later check never masks an earlier one. */
  lemma ValidateReportsFirstFailure(currentOk: bool, nova: string, confirma: string)
    ensures Validate(currentOk, nova, confirma) == FirstFailure(Checks(currentOk, nova, confirma))
    ensures Validate(currentOk, nova, confirma) == Some(TooShort) ==> currentOk
    ensures Validate(currentOk, nova, confirma) == Some(Mismatch) ==> currentOk && |nova| >= MinLength
  {
    var cs := Checks(currentOk, nova, confirma);
    assert cs[1..] == [(|nova| >= MinLength, TooShort), (nova == confirma, Mismatch)];
    assert cs[1..][1..] == [(nova == confirma, Mismatch)];
    assert cs[1..][1..][1..] == [];
    assert FirstFailure(cs[1..][1..]) == if nova == confirma then None else Some(Mismatch);
    assert FirstFailure(cs[1..]) == if |nova| < MinLength then Some(TooShort) else FirstFailure(cs[1..][1..]);
  }

  /** The users of the configuration file with their stored password hashes. */
  class Accounts {
    var senhas: map<string, string>

    constructor (senhas: map<string, string>)
      ensures this.senhas == senhas
    {
      this.senhas := senhas;
    }

    /**
     * Changes the password of `usuario` (who must be a configured user, as
     * the session guarantees). `novoHash` stands for the fresh bcrypt hash of
     * `nova`. On any error the stored hashes are unchanged.
     */
    method ChangePassword(usuario: string, atual: string, nova: string, confirma: string,
                          verifica: (string, string) -> bool, novoHash: string)
      returns (r: Option<PasswordError>)
      requires usuario in senhas
      modifies this
      ensures r == Validate(verifica(old(senhas)[usuario], atual), nova, confirma)
      ensures senhas == if r.None? then old(senhas)[usuario := novoHash] else old(senhas)
    {
      var hashAtual := senhas[usuario];
      r := Validate(verifica(hashAtual, atual), nova, confirma);
      if r.None? {
        senhas := senhas[usuario := novoHash];
      }
    }
  }
}
