/** The validation helper shared by the domain constructors. */
module DomainCommon {

  import opened Error

  /**
   `validate_fn`: the supplied error, untouched, when the check fails, and
   `Ok(())` when it passes. The check is a pure closure, so only its value
   matters.
   */
  function ValidateFn(isFailed: () -> bool, e: VortoError): (r: VortoResult<()>)
    ensures r.Err? <==> isFailed()
    ensures r.Err? ==> r.error == e
    ensures r.Ok? ==> r == Ok(())
  {
    if isFailed() then Err(e) else Ok(())
  }

  /** Two checks with the same value give the same outcome. */
  lemma ValidateFnDependsOnValue(f: () -> bool, g: () -> bool, e: VortoError)
    requires f() == g()
    ensures ValidateFn(f, e) == ValidateFn(g, e)
  {
  }
}
