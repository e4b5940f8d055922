/** The two privileged server roles and their lookup by name. */
module Roles {
  import opened Wrappers
  import opened Text

  datatype Role = Founder | Administrators

  /** `ValueError(f"Invalid role: {role_str}")` */
  datatype RoleError = ValueError(input: string)

  /** The enum member's name. */
  function Name(r: Role): string {
    match r
    case Founder => "FOUNDER"
    case Administrators => "ADMINISTRATORS"
  }

  /** The enum member's value: the role's snowflake id on the server. */
  function ToInt(r: Role): int {
    match r
    case Founder => 1284871184198008894
    case Administrators => 1284866415748321321
  }

  /** `Role.from_string`: the member whose name is the upper-cased input. */
  function FromString(s: string): (r: Result<Role, RoleError>)
    ensures r.Success? <==> Upper(s) == "FOUNDER" || Upper(s) == "ADMINISTRATORS"
    ensures r.Success? ==> Name(r.value) == Upper(s)
    ensures r.Failure? ==> r.error == ValueError(s)
  {
    if Upper(s) == "FOUNDER" then Success(Founder)
    else if Upper(s) == "ADMINISTRATORS" then Success(Administrators)
    else Failure(ValueError(s))
  }

  // ---------------------------------------------------------------------------
  // Lemmas

  /** Every member is found again from its own name. */
  lemma NameRoundTrip(r: Role)
    ensures FromString(Name(r)) == Success(r)
  {
    assert Upper(Name(r)) == Name(r);
  }

  /** The lookup ignores case: a lower-cased input finds the same member, or fails alike. */
  lemma FromStringIgnoresCase(s: string)
    ensures FromString(Lower(s)).Success? == FromString(s).Success?
    ensures FromString(s).Success? ==> FromString(Lower(s)).value == FromString(s).value
  {
    forall i | 0 <= i < |s|
      ensures Upper(Lower(s))[i] == Upper(s)[i]
    {
      LowerChange(s[i]);
    }
    assert Upper(Lower(s)) == Upper(s);
  }

  /** The two ids differ, so `to_int` tells the roles apart. */
  lemma ToIntInjective(a: Role, b: Role)
    requires ToInt(a) == ToInt(b)
    ensures a == b
  {
  }
}
