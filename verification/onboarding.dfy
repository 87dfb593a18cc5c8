/** Onboarding routing (usuarios/middleware.py, usuarios/views.py): the
    request filter that sends signed-in users without a role to the role
    selection page, the dashboard's own check, and the role form. The
    account's profile is an Option: None when it has none yet. */
module Onboarding {
  import opened Optional
  import opened Text
  import opened Profiles

  /** Path prefixes the filter never looks at: administration, accounts
      and assets. */
  const SkippedPrefixes: seq<string> := ["/admin/", "/accounts/", "/static/", "/media/"]

  /** Path prefixes of the onboarding pages themselves and of logging out. */
  const ExemptPrefixes: seq<string> := ["/role-selection/", "/onboarding-form/", "/logout/"]

  /** Whether the path starts with one of the prefixes. */
  predicate AnyPrefix(path: string, prefixes: seq<string>) {
    exists i :: 0 <= i < |prefixes| && StartsWith(path, prefixes[i])
  }

  /** Whether the filter lets the path through without consulting the
      profile. */
  predicate PassesUnchecked(path: string) {
    AnyPrefix(path, SkippedPrefixes) || AnyPrefix(path, ExemptPrefixes)
  }

  /** A role text counts as set when it has a non-whitespace character. */
  predicate RoleSet(p: Option<Profile>) {
    p.Some? && !AllSpace(p.value.tipoRol)
  }

  /** What the filter does: redirect to the role selection, or hand the
      request on, with the profile as it is afterwards. */
  datatype Gate = Gate(redirect: bool, profile: Option<Profile>)

  /** The request filter. A signed-in user on a checked path gets a profile
      with an empty role if they had none, and is redirected when the
      role, stripped of whitespace, is empty. */
  function Middleware(authenticated: bool, path: string, p: Option<Profile>): (r: Gate)
    ensures r.redirect <==> authenticated && !PassesUnchecked(path) && !RoleSet(p)
    ensures r.profile.Some?
      ==> (authenticated && !PassesUnchecked(path)) || r.profile == p
    ensures r.profile != p ==> p.None? && r.profile == Some(NewProfile(""))
  {
    if !authenticated || PassesUnchecked(path) then Gate(false, p)
    else
      var profile := if p.Some? then p.value else NewProfile("");
      StripEmptyIff(profile.tipoRol);
      Gate(Strip(profile.tipoRol) == "", Some(profile))
  }

  /** Signed-out requests, and requests to skipped or exempt paths, pass
      untouched. */
  lemma UncheckedRequestsPass(authenticated: bool, path: string, p: Option<Profile>)
    requires !authenticated || PassesUnchecked(path)
    ensures Middleware(authenticated, path, p) == Gate(false, p)
  {
  }

  /** An account without a profile is always redirected on a checked path,
      and ends up with a profile whose role is empty. */
  lemma MissingProfileRedirects(path: string)
    requires !PassesUnchecked(path)
    ensures Middleware(true, path, None) == Gate(true, Some(NewProfile("")))
  {
  }

  /** What the dashboard does: redirect to the role form, or show the
      page, with the profile it read. */
  datatype DashboardView = DashboardView(redirect: bool, profile: Profile)

  /** The dashboard creates a missing profile with the default role and
      redirects only when the role text is empty. */
  function Dashboard(p: Option<Profile>): (r: DashboardView)
    ensures r.redirect <==> p.Some? && p.value.tipoRol == []
    ensures p.Some? ==> r.profile == p.value
    ensures p.None? ==> r.profile.tipoRol == DefaultRoleCode
  {
    var profile := if p.Some? then p.value else NewProfile(DefaultRoleCode);
    DashboardView(profile.tipoRol == "", profile)
  }

  /** Whenever the dashboard would redirect, the filter in front of it has
      already redirected. */
  lemma DashboardRedirectImpliesMiddleware(path: string, p: Option<Profile>)
    requires !PassesUnchecked(path)
    requires Dashboard(p).redirect
    ensures Middleware(true, path, p).redirect
  {
  }

  /** The converse fails: a whitespace-only role is unset for the filter
      but set for the dashboard. */
  lemma WhitespaceRoleDisagrees(path: string)
    requires !PassesUnchecked(path)
    ensures Middleware(true, path, Some(NewProfile(" "))).redirect
    ensures !Dashboard(Some(NewProfile(" "))).redirect
  {
    assert IsSpace(" "[0]);
  }

  /** The two create a missing profile differently: the filter with an
      empty role, which redirects, the dashboard with the default role,
      which does not. */
  lemma MissingProfileCreatedDifferently(path: string)
    requires !PassesUnchecked(path)
    ensures Middleware(true, path, None).profile.value.tipoRol == ""
    ensures Dashboard(None).profile.tipoRol == DefaultRoleCode
    ensures !Dashboard(None).redirect
  {
  }

  /** The answer of the role form. */
  datatype FormReply = Saved | RoleRejected | FormShown

  /** The result of the role form: its answer and the profile afterwards. */
  datatype FormOutcome = FormOutcome(reply: FormReply, profile: Profile)

  /** The role form. A missing profile is created with the default role
      first. A POST carrying one of the three role codes stores it, and
      stores the zone too when a non-empty one came with it; any other
      role leaves the profile as it was. A missing zone field reads as
      empty. */
  function OnboardingRol(p: Option<Profile>, post: bool, tipoRol: Option<string>, zona: Option<string>): (r: FormOutcome)
    ensures r.reply == Saved <==> post && tipoRol.Some? && ParseRole(tipoRol.value).Some?
    ensures r.reply == RoleRejected <==> post && (tipoRol.None? || ParseRole(tipoRol.value).None?)
    ensures r.reply == Saved ==> r.profile.tipoRol == tipoRol.value
    ensures r.reply == Saved && zona.Some? && zona.value != [] ==> r.profile.zona == zona
    ensures r.reply == Saved && (zona.None? || zona.value == []) && p.Some? ==> r.profile.zona == p.value.zona
    ensures p.Some? ==> r.profile.puntuacion == p.value.puntuacion
    ensures p.None? ==> r.profile.puntuacion == 0.0
    ensures r.reply == Saved && (zona.None? || zona.value == []) && p.None? ==> r.profile.zona == None
    ensures r.reply != Saved && p.Some? ==> r.profile == p.value
    ensures r.reply != Saved && p.None? ==> r.profile == NewProfile(DefaultRoleCode)
  {
    var profile := if p.Some? then p.value else NewProfile(DefaultRoleCode);
    if !post then FormOutcome(FormShown, profile)
    else if tipoRol.Some? && tipoRol.value in ["PERSONA", "CONSORCIO", "OFICIO"] then
      var zone := if zona.Some? then zona.value else "";
      var updated := profile.(tipoRol := tipoRol.value);
      FormOutcome(Saved, if zone != "" then updated.(zona := Some(zone)) else updated)
    else FormOutcome(RoleRejected, profile)
  }

  /** Once the form has saved a role, neither the filter nor the dashboard
      redirects that account again. */
  lemma SavedRoleStopsRedirects(p: Option<Profile>, tipoRol: Option<string>, zona: Option<string>, authenticated: bool, path: string)
    requires OnboardingRol(p, true, tipoRol, zona).reply == Saved
    ensures !Middleware(authenticated, path, Some(OnboardingRol(p, true, tipoRol, zona).profile)).redirect
    ensures !Dashboard(Some(OnboardingRol(p, true, tipoRol, zona).profile)).redirect
  {
    var role := ParseRole(tipoRol.value).value;
    RoleCodeNotBlank(role);
  }

  /** Running the filter again on the profile it left behind gives the
      same answer and the same profile. */
  lemma MiddlewareIdempotent(authenticated: bool, path: string, p: Option<Profile>)
    ensures Middleware(authenticated, path, Middleware(authenticated, path, p).profile)
         == Middleware(authenticated, path, p)
  {
  }
}
