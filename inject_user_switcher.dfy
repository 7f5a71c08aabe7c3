/** InjectUserSwitcherMiddleware: puts the rendered widget in front of every
    '</body>' of an HTML response. */
module InjectUserSwitcher {
  import opened Laravel
  import opened PhpStrings
  import opened SessionImpersonator
  import opened AuthorizationRequestResolver
  import ConfigHelper

  const BodyClose := "</body>"

  /** user-switcher.auto_inject, which defaults to true. */
  function AutoInjectSetting(config: Config): Value {
    Setting(config.autoInject, Bool(true))
  }

  /** canInjectWidget(): the callback, cast to bool, on the authorization
      request when one is configured; otherwise the enabled flag must be truthy
      and, when the environments setting is a string other than '*', the
      application environment must be one of its comma-separated items, taken
      as they are (not trimmed). Any non-string setting allows injection. */
  function InjectGate(view: RequestView, s: SessionState, config: Config, classes: Classes): bool {
    match config.callback
    case Some(callback) => Truthy(callback(AuthorizationView(view, s, config, classes), s.auth))
    case None =>
      var environments := ConfigHelper.EnvironmentsSetting(config);
      if !Truthy(ConfigHelper.EnabledSetting(config)) then false
      else if environments != Text("*") && environments.Text? && config.appEnv !in Explode(",", environments.s) then false
      else true
  }

  /** empty($widget) for a string: the string is falsy. */
  predicate EmptyWidget(widget: string)
    ensures EmptyWidget(widget) <==> !Truthy(Text(widget))
  {
    widget == "" || widget == "0"
  }

  /** The response content handle() leaves, given the content the next handler
      produced and the renderer, which receives the current user's id. */
  function Injection(view: RequestView, s: SessionState, config: Config, classes: Classes,
                     isHttpResponse: bool, content: Option<string>, render: Option<Id> -> string): (r: Option<string>)
    ensures r != content ==>
              && Truthy(AutoInjectSetting(config)) && InjectGate(view, s, config, classes) && isHttpResponse
              && content.Some? && Contains(content.value, BodyClose) && !EmptyWidget(render(s.auth))
    ensures r != content ==>
              && r.Some?
              && r.value == Implode(render(s.auth) + BodyClose, Explode(BodyClose, content.value))
              && content.value == Implode(BodyClose, Explode(BodyClose, content.value))
    ensures && Truthy(AutoInjectSetting(config)) && InjectGate(view, s, config, classes) && isHttpResponse
            && content.Some? && Contains(content.value, BodyClose) && !EmptyWidget(render(s.auth))
            ==> r == Some(Implode(render(s.auth) + BodyClose, Explode(BodyClose, content.value)))
  {
    if !Truthy(AutoInjectSetting(config)) || !InjectGate(view, s, config, classes) || !isHttpResponse then content
    else if content.None? || !Contains(content.value, BodyClose) then content
    else
      var widget := render(s.auth);
      if EmptyWidget(widget) then content
      else
        ReplaceAllIsImplodeOfExplode(content.value, BodyClose, widget + BodyClose);
        ImplodeOfExplode(BodyClose, content.value);
        Some(ReplaceAll(content.value, BodyClose, widget + BodyClose))
  }

  /** '</body>' cannot overlap itself: two occurrences are at least its
      length apart, so the leftmost non-overlapping occurrences that explode()
      and str_replace() use are all of them. */
  lemma BodyCloseDoesNotOverlap(s: string, i: int, j: int)
    requires OccursAt(s, BodyClose, i) && OccursAt(s, BodyClose, j) && i < j
    ensures i + |BodyClose| <= j
  {
    assert s[j] == s[j..j + |BodyClose|][0];
  }

  /** canInjectWidget($request) */
  method CanInjectWidget(request: Request, imp: Impersonator, classes: Classes) returns (allowed: bool)
    ensures allowed == InjectGate(request.View(), imp.State(), imp.config, classes)
  {
    if imp.config.callback.Some? {
      var authorizationRequest := GetRequestForAuthorization(request, imp, classes);
      return Truthy(imp.config.callback.value(authorizationRequest.View(), imp.auth));
    }
    if !Truthy(ConfigHelper.EnabledSetting(imp.config)) {
      return false;
    }
    var environments := ConfigHelper.EnvironmentsSetting(imp.config);
    if environments != Text("*") && environments.Text? && imp.config.appEnv !in Explode(",", environments.s) {
      return false;
    }
    return true;
  }

  /** handle($request, $next), where `response` is what $next returned. */
  method Handle(request: Request, response: Response, imp: Impersonator, classes: Classes,
                render: Option<Id> -> string) returns (result: Response)
    modifies response
    ensures result == response
    ensures response.content ==
            Injection(request.View(), imp.State(), imp.config, classes,
                      response.isHttpResponse, old(response.content), render)
  {
    result := response;
    if !Truthy(AutoInjectSetting(imp.config)) {
      return;
    }
    var allowed := CanInjectWidget(request, imp, classes);
    if !allowed || !response.isHttpResponse {
      return;
    }
    var content := response.content;
    if content.None? || !Contains(content.value, BodyClose) {
      return;
    }
    var widget := render(imp.auth);
    if EmptyWidget(widget) {
      return;
    }
    response.SetContent(ReplaceAll(content.value, BodyClose, widget + BodyClose));
  }

  // ---------------------------------------------------------------- properties

  /** With a callback configured, the widget is shown exactly where switching is allowed. */
  lemma GatesAgreeWithCallback(view: RequestView, s: SessionState, config: Config, classes: Classes)
    requires config.callback.Some?
    ensures InjectGate(view, s, config, classes) ==
            Truthy(config.callback.value(AuthorizationView(view, s, config, classes), s.auth))
  {
  }

  /** Without a callback, the two gates agree on a string list whose items carry
      no surrounding whitespace. */
  lemma GatesAgreeOnTidyList(view: RequestView, s: SessionState, config: Config, classes: Classes)
    requires config.callback.None?
    requires ConfigHelper.EnvironmentsSetting(config).Text?
    requires forall k :: 0 <= k < |Explode(",", ConfigHelper.EnvironmentsSetting(config).s)| ==>
               Unpadded(Explode(",", ConfigHelper.EnvironmentsSetting(config).s)[k])
    ensures InjectGate(view, s, config, classes) == ConfigHelper.IsEnabled(config)
  {
    var pieces := Explode(",", ConfigHelper.EnvironmentsSetting(config).s);
    forall k | 0 <= k < |pieces|
      ensures Trim(pieces[k]) == pieces[k]
    {
      TrimUnpadded(pieces[k]);
    }
    assert TrimAll(pieces) == pieces;
  }

  /** A list with one comma splits into the text before and after it. */
  lemma SplitAtOnlyComma(first: string, rest: string)
    requires ',' !in first && ',' !in rest
    ensures Explode(",", first + [','] + rest) == [first, rest]
  {
    ExplodeAtFirstSeparator(',', first, rest);
    NotContainsChar(rest, ',');
    ExplodeWithoutSeparator([','], rest);
  }

  /** The gates differ elsewhere: in a list such as 'local, testing' the item
      after the comma keeps its leading whitespace, so isEnabled() allows
      'testing' while the widget stays hidden ... */
  lemma PaddedItemHidesWidget(view: RequestView, s: SessionState, config: Config, classes: Classes,
                              first: string, padding: string, name: string)
    requires config.callback.None? && Truthy(ConfigHelper.EnabledSetting(config))
    requires ',' !in first && ',' !in padding + name
    requires padding != [] && AllTrimChars(padding) && Unpadded(name)
    requires config.environments == Some(Text(first + [','] + (padding + name)))
    requires config.appEnv == name && first != name
    ensures ConfigHelper.IsEnabled(config) && !InjectGate(view, s, config, classes)
  {
    var list := first + [','] + (padding + name);
    assert |list| >= 2 && list != "*";
    SplitAtOnlyComma(first, padding + name);
    PaddedItemTrimmed(first, padding, name);
    assert |padding + name| != |name|;
  }

  lemma PaddedItemTrimmed(first: string, padding: string, name: string)
    requires ',' !in first && ',' !in padding + name
    requires AllTrimChars(padding) && Unpadded(name)
    ensures name in ConfigHelper.AllowedEnvironments(first + [','] + (padding + name))
  {
    SplitAtOnlyComma(first, padding + name);
    TrimOfPadded(padding, name, []);
    assert padding + name + [] == padding + name;
    assert ConfigHelper.AllowedEnvironments(first + [','] + (padding + name))[1] == name;
  }

  /** ... and an array of environments never hides the widget, even where
      isEnabled() denies switching. */
  lemma ArrayListShowsWidget(view: RequestView, s: SessionState, config: Config, classes: Classes)
    requires config.callback.None? && Truthy(ConfigHelper.EnabledSetting(config))
    requires ConfigHelper.EnvironmentsSetting(config).Array?
    ensures InjectGate(view, s, config, classes)
    ensures ConfigHelper.IsEnabled(config) <==> Text(config.appEnv) in ConfigHelper.EnvironmentsSetting(config).items
  {
  }

  /** Content without '</body>', or a response that is not an HTML response,
      is left as it is. */
  lemma OnlyHtmlWithBodyChanges(view: RequestView, s: SessionState, config: Config, classes: Classes,
                                isHttpResponse: bool, content: string, render: Option<Id> -> string)
    requires !isHttpResponse || !Contains(content, BodyClose)
    ensures Injection(view, s, config, classes, isHttpResponse, Some(content), render) == Some(content)
  {
  }

  /** The widget is rendered for the user the guard currently authenticates:
      after a switch, the impersonated one. */
  lemma WidgetRendersCurrentUser(view: RequestView, s: SessionState, config: Config, classes: Classes,
                                 logins: Logins, identifier: Id, content: string, render: Option<Id> -> string)
    requires ConfigHelper.IsEnabled(config) && Impersonated(s, true, logins, identifier).error.None?
    requires Truthy(AutoInjectSetting(config)) && InjectGate(view, Impersonated(s, true, logins, identifier).state, config, classes)
    requires Contains(content, BodyClose) && !EmptyWidget(render(Some(logins[Normalized(identifier)])))
    ensures var widget := render(Some(logins[Normalized(identifier)]));
            Injection(view, Impersonated(s, true, logins, identifier).state, config, classes, true, Some(content), render) ==
            Some(Implode(widget + BodyClose, Explode(BodyClose, content)))
  {
    ReplaceAllIsImplodeOfExplode(content, BodyClose, render(Some(logins[Normalized(identifier)])) + BodyClose);
  }
}
