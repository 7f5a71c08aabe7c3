/** HandleUserSwitcherMiddleware: acts on the _switch_user request parameter. */
module HandleUserSwitcher {
  import opened Laravel
  import opened SessionImpersonator
  import opened AuthorizationRequestResolver
  import ConfigHelper

  const SwitchParameter := "_switch_user"
  const StopValue := "_stop"
  const ErrorPrefix := "Invalid user identifier: "
  const LocalEnvironment := "local"

  /** What handle() produces: the next handler's response, a redirect to the
      request's URL (with an 'error' flash message or not), or the exception
      rethrown. */
  datatype Outcome = PassedOn | Redirect(url: string, error: Option<string>) | Rethrown(message: string)

  /** What the parameter asks for: '_stop', an identifier (a string or an int),
      or, for any other value, nothing. */
  datatype Directive = Stop | SwitchTo(identifier: Id) | Nothing

  function DirectiveOf(v: Value): (d: Directive)
    ensures d.Stop? <==> v == Text(StopValue)
    ensures d.SwitchTo? && d.identifier.Str? <==> v.Text? && v != Text(StopValue)
    ensures d.SwitchTo? && d.identifier.Str? ==> d.identifier.s == v.s
    ensures d.SwitchTo? && d.identifier.Int? <==> v.Integer?
    ensures d.SwitchTo? && d.identifier.Int? ==> d.identifier.i == v.i
  {
    match v
    case Text(s) => if s == StopValue then Stop else SwitchTo(Str(s))
    case Integer(i) => SwitchTo(Int(i))
    case _ => Nothing
  }

  /** canSwitchUser(): the callback, cast to bool, on the authorization
      request when a callback is configured; otherwise isEnabled(). */
  function SwitchGate(view: RequestView, s: SessionState, config: Config, classes: Classes): bool {
    match config.callback
    case Some(callback) => Truthy(callback(AuthorizationView(view, s, config, classes), s.auth))
    case None => ConfigHelper.IsEnabled(config)
  }

  method CanSwitchUser(request: Request, imp: Impersonator, classes: Classes) returns (allowed: bool)
    ensures allowed == SwitchGate(request.View(), imp.State(), imp.config, classes)
  {
    if imp.config.callback.Some? {
      var authorizationRequest := GetRequestForAuthorization(request, imp, classes);
      return Truthy(imp.config.callback.value(authorizationRequest.View(), imp.auth));
    }
    return ConfigHelper.IsEnabled(imp.config);
  }

  /** The outcome of a request together with the session state it leaves. */
  datatype Handled = Handled(outcome: Outcome, state: SessionState)

  /** What handle() does to a request seen as `view` in state `s`. */
  function HandleSpec(view: RequestView, s: SessionState, config: Config, classes: Classes, logins: Logins): (h: Handled)
    ensures h.outcome.PassedOn? <==> SwitchParameter !in view.input || !SwitchGate(view, s, config, classes)
    ensures h.outcome.PassedOn? ==> h.state == s
    ensures h.outcome.Redirect? ==> h.outcome.url == view.url
    ensures h.outcome.Redirect? && h.outcome.error.Some? ==>
              config.appEnv != LocalEnvironment &&
              ErrorPrefix <= h.outcome.error.value && h.state == s
    ensures h.outcome.Rethrown? ==> config.appEnv == LocalEnvironment && h.state == s
    ensures SwitchParameter in view.input && SwitchGate(view, s, config, classes) ==>
              match DirectiveOf(view.input[SwitchParameter])
              case Stop => h == Handled(Redirect(view.url, None), Stopped(s, logins))
              case Nothing => h == Handled(Redirect(view.url, None), s)
              case SwitchTo(identifier) =>
                var t := Impersonated(s, ConfigHelper.IsEnabled(config), logins, identifier);
                && h.state == t.state
                && (h.outcome == Redirect(view.url, None) <==> t.error.None?)
                && (t.error.Some? ==>
                      h.outcome == if config.appEnv == LocalEnvironment then Rethrown(t.error.value)
                                   else Redirect(view.url, Some(ErrorPrefix + t.error.value)))
  {
    if SwitchParameter !in view.input || !SwitchGate(view, s, config, classes) then Handled(PassedOn, s)
    else
      match DirectiveOf(view.input[SwitchParameter])
      case Stop => Handled(Redirect(view.url, None), Stopped(s, logins))
      case Nothing => Handled(Redirect(view.url, None), s)
      case SwitchTo(identifier) =>
        var t := Impersonated(s, ConfigHelper.IsEnabled(config), logins, identifier);
        match t.error
        case None => Handled(Redirect(view.url, None), t.state)
        case Some(message) =>
          if config.appEnv == LocalEnvironment then Handled(Rethrown(message), t.state)
          else Handled(Redirect(view.url, Some(ErrorPrefix + message)), t.state)
  }

  /** handle($request, $next) */
  method Handle(request: Request, imp: Impersonator, classes: Classes, logins: Logins) returns (outcome: Outcome)
    requires imp.Valid() && NoSentinelLogin(logins)
    modifies imp
    ensures imp.Valid()
    ensures Handled(outcome, imp.State()) ==
            HandleSpec(request.View(), old(imp.State()), imp.config, classes, logins)
  {
    if SwitchParameter !in request.input {
      return PassedOn;
    }
    var allowed := CanSwitchUser(request, imp, classes);
    if !allowed {
      return PassedOn;
    }
    match DirectiveOf(request.input[SwitchParameter]) {
      case Stop =>
        imp.StopImpersonating(logins);
      case Nothing =>
      case SwitchTo(identifier) =>
        var error := imp.Impersonate(identifier, logins);
        if error.Some? {
          if imp.config.appEnv == LocalEnvironment {
            return Rethrown(error.value);
          }
          return Redirect(request.url, Some(ErrorPrefix + error.value));
        }
    }
    return Redirect(request.url, None);
  }

  // ---------------------------------------------------------------- properties

  /** A configured callback alone decides: the enabled flag and the
      environments list do not take part. */
  lemma CallbackOverridesConfiguration(view: RequestView, s: SessionState, config: Config, classes: Classes,
                                       enabled: Option<Value>, environments: Option<Value>)
    requires config.callback.Some?
    ensures SwitchGate(view, s, config.(enabled := enabled, environments := environments), classes) ==
            SwitchGate(view, s, config, classes)
  {
  }

  /** A callback cannot switch users where isEnabled() is false: the request is
      redirected and nobody is impersonated. Stopping is not gated that way. */
  lemma DisabledSwitchChangesNothing(view: RequestView, s: SessionState, config: Config, classes: Classes, logins: Logins)
    requires !ConfigHelper.IsEnabled(config)
    requires SwitchParameter in view.input && DirectiveOf(view.input[SwitchParameter]).SwitchTo?
    ensures HandleSpec(view, s, config, classes, logins).state == s
    ensures SwitchGate(view, s, config, classes) ==> HandleSpec(view, s, config, classes, logins).outcome == Redirect(view.url, None)
  {
  }

  lemma StopIgnoresIsEnabled(view: RequestView, s: SessionState, config: Config, classes: Classes, logins: Logins)
    requires SwitchParameter in view.input && view.input[SwitchParameter] == Text(StopValue)
    requires SwitchGate(view, s, config, classes)
    ensures HandleSpec(view, s, config, classes, logins) == Handled(Redirect(view.url, None), Stopped(s, logins))
  {
  }

  /** Outside the local environment an unknown user is reported in the flash
      message and the session is left alone; locally the exception propagates. */
  lemma UnknownUserReported(view: RequestView, s: SessionState, config: Config, classes: Classes, logins: Logins, id: int)
    requires ConfigHelper.IsEnabled(config) && SwitchGate(view, s, config, classes)
    requires SwitchParameter in view.input && view.input[SwitchParameter] == Integer(id)
    requires Int(id) !in logins
    ensures config.appEnv != LocalEnvironment ==>
              HandleSpec(view, s, config, classes, logins) ==
              Handled(Redirect(view.url, Some(ErrorPrefix + NotFoundMessage(Int(id)))), s)
    ensures config.appEnv == LocalEnvironment ==>
              HandleSpec(view, s, config, classes, logins) == Handled(Rethrown(NotFoundMessage(Int(id))), s)
  {
  }

  /** An allowed request naming a user the guard can log in switches to that
      user and redirects back, without an error. */
  lemma AllowedSwitchLogsIn(view: RequestView, s: SessionState, config: Config, classes: Classes,
                            logins: Logins, identifier: Id)
    requires ConfigHelper.IsEnabled(config) && SwitchGate(view, s, config, classes)
    requires SwitchParameter in view.input && DirectiveOf(view.input[SwitchParameter]) == SwitchTo(identifier)
    requires ValidationError(identifier).None? && Normalized(identifier) in logins
    ensures var h := HandleSpec(view, s, config, classes, logins);
            && h.outcome == Redirect(view.url, None)
            && h.state.auth == Some(logins[Normalized(identifier)])
            && h.state.IsImpersonating() && h.state.sessionId != s.sessionId
            && (s.slot.None? ==> h.state.slot == Some(AnchorFor(s.auth)))
  {
  }

  /** The session after a sequence of requests. */
  function HandledAll(s: SessionState, config: Config, classes: Classes, logins: Logins, views: seq<RequestView>): SessionState {
    if views == [] then s
    else HandleSpec(views[|views| - 1], HandledAll(s, config, classes, logins, views[..|views| - 1]), config, classes, logins).state
  }

  lemma HandleKeepsRecoverable(view: RequestView, t: SessionState, original: Option<Id>,
                               config: Config, classes: Classes, logins: Logins)
    requires Recoverable(t, original) && original != Some(NoOriginalUser) && Restorable(logins, original)
    ensures Recoverable(HandleSpec(view, t, config, classes, logins).state, original)
  {
    if SwitchParameter in view.input && SwitchGate(view, t, config, classes) {
      match DirectiveOf(view.input[SwitchParameter])
      case Stop => StoppedRestores(t, original, logins);
      case Nothing =>
      case SwitchTo(identifier) =>
        ImpersonatedKeepsRecoverable(t, original, ConfigHelper.IsEnabled(config), logins, identifier);
    }
  }

  lemma {:induction false} HandledAllKeepsRecoverable(s: SessionState, config: Config, classes: Classes,
                                                     logins: Logins, views: seq<RequestView>)
    requires !s.IsImpersonating() && s.auth != Some(NoOriginalUser) && Restorable(logins, s.auth)
    ensures Recoverable(HandledAll(s, config, classes, logins, views), s.auth)
  {
    if views != [] {
      HandledAllKeepsRecoverable(s, config, classes, logins, views[..|views| - 1]);
      HandleKeepsRecoverable(views[|views| - 1], HandledAll(s, config, classes, logins, views[..|views| - 1]),
                             s.auth, config, classes, logins);
    }
  }

  /** After any sequence of requests (switches, failed switches, stops, nested
      switches), an allowed '_switch_user=_stop' request brings back the user
      who was logged in before the first of them, or the logged-out state. */
  lemma StopRequestRestoresStartingUser(s: SessionState, config: Config, classes: Classes, logins: Logins,
                                        views: seq<RequestView>, stop: RequestView)
    requires !s.IsImpersonating() && s.auth != Some(NoOriginalUser) && Restorable(logins, s.auth)
    requires SwitchParameter in stop.input && stop.input[SwitchParameter] == Text(StopValue)
    requires SwitchGate(stop, HandledAll(s, config, classes, logins, views), config, classes)
    ensures var h := HandleSpec(stop, HandledAll(s, config, classes, logins, views), config, classes, logins);
            h.outcome == Redirect(stop.url, None) && h.state.auth == s.auth && !h.state.IsImpersonating()
  {
    HandledAllKeepsRecoverable(s, config, classes, logins, views);
    StoppedRestores(HandledAll(s, config, classes, logins, views), s.auth, logins);
  }
}
