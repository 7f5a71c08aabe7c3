/** LaravelUserProviderService: the users offered for switching, read from the
    configured Eloquent user model. */
module UserProvider {
  import opened Laravel
  import opened UserAdapter
  import ConfigHelper

  /** The model used when user-switcher.user_model is not configured. */
  const DefaultUserModel := "App\\Models\\User"

  /** user-switcher.user_model, which defaults to App\Models\User. */
  function UserModelSetting(config: Config): Value {
    Setting(config.userModel, Text(DefaultUserModel))
  }

  /** getUserModelClass(): the configured class name, when it is a string
      naming a class that exists. */
  function GetUserModelClass(config: Config, classes: Classes): (r: Option<string>)
    ensures r.Some? <==> UserModelSetting(config).Text? && UserModelSetting(config).s in classes
    ensures r.Some? ==> r == Some(UserModelSetting(config).s)
    ensures config.userModel.None? && DefaultUserModel in classes ==> r == Some(DefaultUserModel)
  {
    var name := UserModelSetting(config);
    if name.Text? && name.s in classes then Some(name.s) else None
  }

  /** What getUsers() produces: the list, or the TypeError the adapter's
      constructor raises for a record that is not Authenticatable. */
  datatype Listing = Listed(adapters: seq<Adapter>) | TypeError

  /** Adapters over the given users, in order. */
  function Adapters(users: seq<User>): (r: seq<Adapter>)
    ensures |r| == |users|
    ensures forall k :: 0 <= k < |r| ==> r[k] == Adapter(users[k])
  {
    seq(|users|, k requires 0 <= k < |users| => Adapter(users[k]))
  }

  /** getUsers(): nothing when disabled or without a user model class;
      otherwise every record of Model::all(), in order, wrapped in an adapter. */
  function GetUsers(config: Config, classes: Classes): (r: Listing)
    ensures !ConfigHelper.IsEnabled(config) || GetUserModelClass(config, classes).None? ==> r == Listed([])
    ensures r.TypeError? <==>
              && ConfigHelper.IsEnabled(config) && GetUserModelClass(config, classes).Some?
              && !classes[GetUserModelClass(config, classes).value].authenticatable
              && classes[GetUserModelClass(config, classes).value].all != []
    ensures ConfigHelper.IsEnabled(config) && GetUserModelClass(config, classes).Some? && r.Listed? ==>
              var all := classes[GetUserModelClass(config, classes).value].all;
              |r.adapters| == |all| && forall k :: 0 <= k < |all| ==> r.adapters[k].GetOriginalUser() == all[k]
  {
    if !ConfigHelper.IsEnabled(config) then Listed([])
    else
      match GetUserModelClass(config, classes)
      case None => Listed([])
      case Some(name) =>
        var model := classes[name];
        if !model.authenticatable && model.all != [] then TypeError
        else Listed(Adapters(model.all))
  }

  /** findUserById(): the record Model::find() returns, wrapped, when impersonation
      is enabled, the model class exists and the record is Authenticatable. */
  function FindUserById(config: Config, classes: Classes, identifier: Id): (r: Option<Adapter>)
    ensures r.Some? <==>
              && ConfigHelper.IsEnabled(config) && GetUserModelClass(config, classes).Some?
              && identifier in classes[GetUserModelClass(config, classes).value].find
              && classes[GetUserModelClass(config, classes).value].authenticatable
    ensures r.Some? ==> r.value.GetOriginalUser() == classes[GetUserModelClass(config, classes).value].find[identifier]
  {
    if !ConfigHelper.IsEnabled(config) then None
    else
      match GetUserModelClass(config, classes)
      case None => None
      case Some(name) =>
        var model := classes[name];
        if identifier in model.find && model.authenticatable then Some(Adapter(model.find[identifier]))
        else None
  }

  /** A model whose find() returns each record of all() under its own key. */
  predicate FindsEveryRecord(model: Model) {
    forall k :: 0 <= k < |model.all| ==> model.all[k].key in model.find && model.find[model.all[k].key] == model.all[k]
  }

  /** Every user getUsers() lists can be looked up again by its identifier. */
  lemma ListedUsersAreFound(config: Config, classes: Classes, k: nat)
    requires GetUserModelClass(config, classes).Some?
    requires FindsEveryRecord(classes[GetUserModelClass(config, classes).value])
    requires GetUsers(config, classes).Listed? && k < |GetUsers(config, classes).adapters|
    ensures var a := GetUsers(config, classes).adapters[k];
            FindUserById(config, classes, a.GetIdentifier()) == Some(a)
  {
    var model := classes[GetUserModelClass(config, classes).value];
    assert model.all != [] ==> model.authenticatable;
  }

  /** A model whose find() only returns a record under that record's own key,
      as a strictly typed primary key lookup does. */
  predicate KeyedByIdentifier(model: Model) {
    forall id :: id in model.find ==> model.find[id].key == id
  }

  /** findUserById() then hands back an adapter for the requested identifier. */
  lemma FoundUserHasRequestedId(config: Config, classes: Classes, identifier: Id)
    requires GetUserModelClass(config, classes).Some?
    requires KeyedByIdentifier(classes[GetUserModelClass(config, classes).value])
    requires FindUserById(config, classes, identifier).Some?
    ensures FindUserById(config, classes, identifier).value.GetIdentifier() == identifier
  {
  }

  /** The provider and the impersonator share one gate: when it is closed the
      provider lists and finds nobody. */
  lemma DisabledProviderIsEmpty(config: Config, classes: Classes, identifier: Id)
    requires !ConfigHelper.IsEnabled(config)
    ensures GetUsers(config, classes) == Listed([])
    ensures FindUserById(config, classes, identifier).None?
  {
  }

  /** A user model setting that is not a string never names a class. */
  lemma NonStringModelSettingIgnored(config: Config, classes: Classes, identifier: Id)
    requires config.userModel.Some? && !config.userModel.value.Text?
    ensures GetUsers(config, classes) == Listed([])
    ensures FindUserById(config, classes, identifier).None?
  {
  }
}
