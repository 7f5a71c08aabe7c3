/** ConfigHelper::isEnabled(): the configuration gate for impersonation. */
module ConfigHelper {
  import opened Laravel
  import opened PhpStrings

  /** user-switcher.enabled, which defaults to true. */
  function EnabledSetting(config: Config): Value {
    Setting(config.enabled, Bool(true))
  }

  /** user-switcher.environments, which defaults to '*'. */
  function EnvironmentsSetting(config: Config): Value {
    Setting(config.environments, Text("*"))
  }

  /** The environment names a comma-separated list allows: explode(',') then trim() each. */
  function AllowedEnvironments(list: string): seq<string> {
    TrimAll(Explode(",", list))
  }

  /** isEnabled(): the enabled flag must be truthy; then '*' allows every
      environment, a string is a comma-separated list of names, an array is a
      list of names, and any other value denies. */
  function IsEnabled(config: Config): (r: bool)
    ensures r ==> Truthy(EnabledSetting(config))
    ensures Truthy(EnabledSetting(config)) && EnvironmentsSetting(config) == Text("*") ==> r
    ensures !EnvironmentsSetting(config).Text? && !EnvironmentsSetting(config).Array? ==> !r
  {
    var environments := EnvironmentsSetting(config);
    if !Truthy(EnabledSetting(config)) then false
    else if environments == Text("*") then true
    else if environments.Text? then config.appEnv in AllowedEnvironments(environments.s)
    else if environments.Array? then Text(config.appEnv) in environments.items
    else false
  }

  /** A list written out as the names joined by commas allows exactly those
      names, provided each name is already trimmed and has no comma. */
  lemma CommaListAllowsExactlyItsNames(config: Config, names: seq<string>)
    requires |names| >= 1
    requires forall k :: 0 <= k < |names| ==> ',' !in names[k] && Unpadded(names[k])
    requires Implode(",", names) != "*"
    requires Truthy(EnabledSetting(config))
    requires config.environments == Some(Text(Implode(",", names)))
    ensures IsEnabled(config) <==> config.appEnv in names
  {
    ExplodeOfImplode(',', names);
    forall k | 0 <= k < |names|
      ensures Trim(names[k]) == names[k]
    {
      TrimUnpadded(names[k]);
    }
    assert AllowedEnvironments(Implode(",", names)) == names;
  }

  /** The array holding the given names. */
  function TextItems(names: seq<string>): (items: seq<Value>)
    ensures |items| == |names|
    ensures forall k :: 0 <= k < |items| ==> items[k] == Text(names[k])
  {
    seq(|names|, k requires 0 <= k < |names| => Text(names[k]))
  }

  /** A string list decides exactly as the array of its trimmed items would. */
  lemma StringListActsAsTrimmedArray(config: Config, list: string)
    requires list != "*"
    requires config.environments == Some(Text(list))
    ensures IsEnabled(config) ==
            IsEnabled(config.(environments := Some(Array(TextItems(AllowedEnvironments(list))))))
  {
    var names := AllowedEnvironments(list);
    var items := TextItems(names);
    assert config.appEnv in names ==> Text(config.appEnv) in items;
    assert Text(config.appEnv) in items ==> config.appEnv in names;
  }

  /** Surrounding whitespace in a list item does not matter. */
  lemma PaddedNameIsAllowed(config: Config, before: string, name: string, after: string)
    requires AllTrimChars(before) && AllTrimChars(after)
    requires ',' !in before && ',' !in name && ',' !in after
    requires Unpadded(name) && before + name + after != "*"
    requires Truthy(EnabledSetting(config))
    requires config.environments == Some(Text(before + name + after))
    ensures IsEnabled(config) <==> config.appEnv == name
  {
    var list := before + name + after;
    assert forall k :: 0 <= k < |list| ==> list[k] != ',' by {
      forall k | 0 <= k < |list| ensures list[k] != ',' {
        if k < |before| { assert list[k] == before[k]; }
        else if k < |before| + |name| { assert list[k] == name[k - |before|]; }
        else { assert list[k] == after[k - |before| - |name|]; }
      }
    }
    NotContainsChar(list, ',');
    ExplodeWithoutSeparator(",", list);
    TrimOfPadded(before, name, after);
    assert AllowedEnvironments(list) == [name];
  }
}
