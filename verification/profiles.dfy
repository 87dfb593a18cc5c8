/** The user profile (usuarios/models.py): a role code stored as text, an
    optional zone and a score, attached one-to-one to an account. */
module Profiles {
  import opened Optional
  import opened Text

  /** The three role choices of the profile. */
  datatype Role = Persona | Consorcio | Oficio

  /** The code a role is stored under. */
  function RoleCode(r: Role): string {
    match r
    case Persona => "PERSONA"
    case Consorcio => "CONSORCIO"
    case Oficio => "OFICIO"
  }

  /** The label a role is shown with. */
  function RoleLabel(r: Role): string {
    match r
    case Persona => "Persona"
    case Consorcio => "Consorcio"
    case Oficio => "Oficio"
  }

  /** Reads a stored code back; anything that is not one of the three
      codes is no role. */
  function ParseRole(s: string): (r: Option<Role>)
    ensures r.Some? ==> RoleCode(r.value) == s
  {
    if s == "PERSONA" then Some(Persona)
    else if s == "CONSORCIO" then Some(Consorcio)
    else if s == "OFICIO" then Some(Oficio)
    else None
  }

  /** Parsing is exactly the inverse of the code table. */
  lemma ParseRoleIff(s: string, r: Role)
    ensures ParseRole(s) == Some(r) <==> s == RoleCode(r)
  {
    if s == RoleCode(r) {
      match r
      case Persona =>
      case Consorcio =>
      case Oficio =>
    }
  }

  /** No role code is blank, so a stored role always counts as set. */
  lemma RoleCodeNotBlank(r: Role)
    ensures !AllSpace(RoleCode(r))
  {
    assert !IsSpace(RoleCode(r)[0]);
  }

  /** The role a profile gets when it is created without one. */
  const DefaultRoleCode: string := "PERSONA"

  /** The account a profile hangs off. */
  datatype Account = Account(username: string, firstName: string, lastName: string, email: string)

  /** A profile: the stored role text, the zone and the score (a float in
      the program, a real here). */
  datatype Profile = Profile(tipoRol: string, zona: Option<string>, puntuacion: real)

  /** A freshly created profile with the given role text and the field
      defaults for the rest. */
  function NewProfile(tipoRol: string): (p: Profile)
    ensures p.tipoRol == tipoRol && p.zona == None && p.puntuacion == 0.0 && ScoreErrors(p.puntuacion) == []
  {
    Profile(tipoRol, None, 0.0)
  }

  /** The two validators of the score field. */
  datatype ScoreError = BelowMinimum | AboveMaximum

  /** The errors the score validators report; both can never fire together. */
  function ScoreErrors(x: real): (r: seq<ScoreError>)
    ensures r == [] <==> 0.0 <= x <= 5.0
    ensures |r| <= 1
  {
    (if x < 0.0 then [BelowMinimum] else []) + (if x > 5.0 then [AboveMaximum] else [])
  }

  /** The account's full name: first and last name joined by a space,
      with surrounding whitespace removed. */
  function FullName(a: Account): string {
    Strip(a.firstName + " " + a.lastName)
  }

  /** The display name: the full name, or the username when the full name
      is empty. */
  function NombreCompleto(a: Account): (r: string)
    ensures AllSpace(a.firstName + " " + a.lastName) ==> r == a.username
    ensures !AllSpace(a.firstName + " " + a.lastName) ==> r == FullName(a) && r != [] && !IsSpace(r[0])
  {
    StripEmptyIff(a.firstName + " " + a.lastName);
    var full := FullName(a);
    if full == [] then a.username else full
  }

  /** The display name is empty only when both the names are blank and the
      username is empty. */
  lemma NombreCompletoEmptyIff(a: Account)
    ensures NombreCompleto(a) == [] <==> AllSpace(a.firstName) && AllSpace(a.lastName) && a.username == []
  {
    var joined := a.firstName + " " + a.lastName;
    if AllSpace(a.firstName) && AllSpace(a.lastName) {
      assert AllSpace(joined) by {
        forall k | 0 <= k < |joined| ensures IsSpace(joined[k]) {
          if k < |a.firstName| {
            assert joined[k] == a.firstName[k];
          } else if k > |a.firstName| {
            assert joined[k] == a.lastName[k - |a.firstName| - 1];
          }
        }
      }
    } else if AllSpace(joined) {
      forall k | 0 <= k < |a.firstName| ensures IsSpace(a.firstName[k]) {
        assert a.firstName[k] == joined[k];
      }
      forall k | 0 <= k < |a.lastName| ensures IsSpace(a.lastName[k]) {
        assert a.lastName[k] == joined[|a.firstName| + 1 + k];
      }
    }
  }

  /** How a stored role text is shown: the label of a known code, the raw
      text otherwise. */
  function RoleDisplay(tipoRol: string): (r: string)
    ensures ParseRole(tipoRol).None? ==> r == tipoRol
  {
    match ParseRole(tipoRol)
    case Some(role) => RoleLabel(role)
    case None => tipoRol
  }

  /** A known role is shown by its label, which differs from its code. */
  lemma RoleDisplayOfCode(r: Role)
    ensures RoleDisplay(RoleCode(r)) == RoleLabel(r) != RoleCode(r)
  {
    ParseRoleIff(RoleCode(r), r);
    assert RoleLabel(r)[1] != RoleCode(r)[1];
  }
}
