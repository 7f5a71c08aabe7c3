/** AuthorizationRequestResolver: the request an authorization callback judges.
    While impersonating, it is a copy whose user is the original user, so the
    callback decides about the person who started the impersonation. */
module AuthorizationRequestResolver {
  import opened Laravel
  import opened SessionImpersonator
  import UserProvider

  /** The original user the resolver looks up: the stored identifier (not the
      marker), found through the configured user model. Unlike the user
      provider, the resolver neither consults isEnabled() nor asks for an
      Authenticatable. */
  function OriginalUser(s: SessionState, config: Config, classes: Classes): (r: Option<User>)
    ensures r.Some? <==>
              && s.IsImpersonating() && s.GetOriginalUserId().Some?
              && UserProvider.GetUserModelClass(config, classes).Some?
              && s.GetOriginalUserId().value in classes[UserProvider.GetUserModelClass(config, classes).value].find
    ensures r.Some? ==>
              r.value == classes[UserProvider.GetUserModelClass(config, classes).value].find[s.GetOriginalUserId().value]
  {
    if !s.IsImpersonating() then None
    else
      match s.GetOriginalUserId()
      case None => None
      case Some(original) =>
        match UserProvider.GetUserModelClass(config, classes)
        case None => None
        case Some(name) =>
          if original in classes[name].find then Some(classes[name].find[original]) else None
  }

  /** What the request returned by getRequestForAuthorization() looks like. */
  function AuthorizationView(view: RequestView, s: SessionState, config: Config, classes: Classes): (v: RequestView)
    ensures v.url == view.url && v.input == view.input
    ensures OriginalUser(s, config, classes).None? ==> v == view
    ensures OriginalUser(s, config, classes).Some? ==> v.user == Resolved(OriginalUser(s, config, classes).value)
  {
    match OriginalUser(s, config, classes)
    case None => view
    case Some(u) => view.(user := Resolved(u))
  }

  /** getRequestForAuthorization(): the request itself unless the original user
      is found; then a clone whose user resolver returns that user. */
  method GetRequestForAuthorization(request: Request, imp: Impersonator, classes: Classes) returns (r: Request)
    ensures r.View() == AuthorizationView(request.View(), imp.State(), imp.config, classes)
    ensures OriginalUser(imp.State(), imp.config, classes).None? ==> r == request
    ensures OriginalUser(imp.State(), imp.config, classes).Some? ==> fresh(r)
  {
    var s := imp.State();
    if !s.IsImpersonating() {
      return request;
    }
    var originalId := s.GetOriginalUserId();
    if originalId.None? {
      return request;
    }
    var modelClass := UserProvider.GetUserModelClass(imp.config, classes);
    if modelClass.None? {
      return request;
    }
    var model := classes[modelClass.value];
    if originalId.value !in model.find {
      return request;
    }
    r := request.Clone();
    r.SetUserResolver(model.find[originalId.value]);
  }

  // ---------------------------------------------------------------- properties

  /** A user logged in as `original` who then makes any sequence of
      impersonate() calls is still the one an authorization callback sees:
      either nothing is anchored and `original` is still the current user, or
      the request handed to the callback resolves to that user's record. */
  lemma CallbackSeesOriginalUser(s: SessionState, logins: Logins, calls: seq<Call>,
                                 config: Config, classes: Classes, view: RequestView)
    requires !s.IsImpersonating() && s.auth.Some? && s.auth != Some(NoOriginalUser)
    requires UserProvider.GetUserModelClass(config, classes).Some?
    requires s.auth.value in classes[UserProvider.GetUserModelClass(config, classes).value].find
    ensures var t := ImpersonatedAll(s, logins, calls);
            || (!t.IsImpersonating() && t.auth == s.auth && AuthorizationView(view, t, config, classes) == view)
            || AuthorizationView(view, t, config, classes).user ==
               Resolved(classes[UserProvider.GetUserModelClass(config, classes).value].find[s.auth.value])
  {
    ImpersonatedAllKeepsRecoverable(s, logins, calls);
  }

  /** When each record is found under its own identifier, the user a callback
      reads from the request ($request->user()?->id) is the user who was logged
      in before the impersonate() calls, whether or not one is under way. */
  lemma CallbackJudgesStartingUser(s: SessionState, logins: Logins, calls: seq<Call>,
                                   config: Config, classes: Classes, view: RequestView)
    requires view.user.AuthGuard?
    requires !s.IsImpersonating() && s.auth.Some? && s.auth != Some(NoOriginalUser)
    requires UserProvider.GetUserModelClass(config, classes).Some?
    requires UserProvider.KeyedByIdentifier(classes[UserProvider.GetUserModelClass(config, classes).value])
    requires s.auth.value in classes[UserProvider.GetUserModelClass(config, classes).value].find
    ensures var t := ImpersonatedAll(s, logins, calls);
            RequestUserId(AuthorizationView(view, t, config, classes), t.auth) == s.auth
  {
    CallbackSeesOriginalUser(s, logins, calls, config, classes, view);
  }

  /** Impersonation that began logged out leaves the request as it is: the
      callback sees the impersonated user. */
  lemma LoggedOutStartKeepsRequest(s: SessionState, logins: Logins, calls: seq<Call>,
                                   config: Config, classes: Classes, view: RequestView)
    requires !s.IsImpersonating() && s.auth.None?
    ensures AuthorizationView(view, ImpersonatedAll(s, logins, calls), config, classes) == view
  {
    ImpersonatedAllKeepsRecoverable(s, logins, calls);
  }
}
