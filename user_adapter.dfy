/** LaravelUserAdapterService: an authenticatable user seen through the
    switcher's user interface. */
module UserAdapter {
  import opened Laravel
  import opened PhpStrings

  /** The attributes tried, in this order, when the user class has no getDisplayName(). */
  const DisplayAttributes: seq<string> := ["name", "username", "email"]

  /** The adapter around one user: getIdentifier() is the user's auth
      identifier and getOriginalUser() the user itself. */
  datatype Adapter = Adapter(user: User) {
    function GetIdentifier(): Id {
      user.key
    }

    function GetOriginalUser(): User {
      user
    }
  }

  /** The adapter hands back exactly what it wraps. */
  lemma AdapterWrapsUser(u: User)
    ensures Adapter(u).GetOriginalUser() == u
    ensures Adapter(u).GetIdentifier() == u.key
  {
  }

  /** normalizeDisplayName(): scalars and Stringables are cast to string,
      anything else becomes the empty string. */
  function NormalizeDisplayName(v: Value): (r: string)
    ensures v.Text? ==> r == v.s
    ensures v.Stringable? ==> r == v.text
    ensures v.Integer? ==> CanonicalInt(r) && ParseInt(r) == v.i
    ensures v.Bool? ==> (r == "1" <==> v.b) && (r == "" <==> !v.b)
    ensures v.Null? || v.Array? || v.Object? ==> r == ""
  {
    match v
    case Text(s) => s
    case Stringable(text) => text
    case Integer(i) => IntToString(i)
    case Bool(b) => if b then "1" else ""
    case _ => ""
  }

  /** isset($user->$attribute): the attribute is present and not null. */
  predicate IsSet(attributes: map<string, Value>, name: string) {
    name in attributes && attributes[name] != Null
  }

  /** The position of the first name that is set, or |names| when none is. */
  function FirstSetIndex(attributes: map<string, Value>, names: seq<string>): (i: nat)
    ensures i <= |names|
    ensures forall j :: 0 <= j < i ==> !IsSet(attributes, names[j])
    ensures i < |names| ==> IsSet(attributes, names[i])
  {
    if names == [] then 0
    else if IsSet(attributes, names[0]) then 0
    else 1 + FirstSetIndex(attributes, names[1..])
  }

  /** What getDisplayName() returns for `u`. */
  function DisplayName(u: User): string {
    if u.displayNameMethod.Some? then NormalizeDisplayName(u.displayNameMethod.value)
    else
      var i := FirstSetIndex(u.attributes, DisplayAttributes);
      if i < |DisplayAttributes| then NormalizeDisplayName(u.attributes[DisplayAttributes[i]])
      else IdToString(u.key)
  }

  /** getDisplayName(): the user's own getDisplayName() when its class has one;
      otherwise the first of name, username, email that is set; otherwise the
      identifier cast to string. */
  method GetDisplayName(adapter: Adapter) returns (name: string)
    ensures name == DisplayName(adapter.user)
  {
    var user := adapter.user;
    if user.displayNameMethod.Some? {
      return NormalizeDisplayName(user.displayNameMethod.value);
    }
    for k := 0 to |DisplayAttributes|
      invariant forall j :: 0 <= j < k ==> !IsSet(user.attributes, DisplayAttributes[j])
    {
      var attribute := DisplayAttributes[k];
      if IsSet(user.attributes, attribute) {
        return NormalizeDisplayName(user.attributes[attribute]);
      }
    }
    return IdToString(adapter.GetIdentifier());
  }

  // ---------------------------------------------------------------- properties

  /** A getDisplayName() of the user's class takes precedence over every attribute. */
  lemma OwnMethodWins(u: User, attributes: map<string, Value>)
    requires u.displayNameMethod.Some?
    ensures DisplayName(u.(attributes := attributes)) == DisplayName(u)
    ensures DisplayName(u) == NormalizeDisplayName(u.displayNameMethod.value)
  {
  }

  /** A set name attribute is used whatever username and email hold. */
  lemma NameAttributeWins(u: User)
    requires u.displayNameMethod.None? && IsSet(u.attributes, "name")
    ensures DisplayName(u) == NormalizeDisplayName(u.attributes["name"])
  {
  }

  /** Without name, username is used, ahead of email. */
  lemma UsernameBeforeEmail(u: User)
    requires u.displayNameMethod.None? && !IsSet(u.attributes, "name") && IsSet(u.attributes, "username")
    ensures DisplayName(u) == NormalizeDisplayName(u.attributes["username"])
  {
    assert DisplayAttributes[0] == "name" && DisplayAttributes[1] == "username";
  }

  /** Email is used only when neither name nor username is set. */
  lemma EmailOnlyAsLastAttribute(u: User)
    requires u.displayNameMethod.None?
    requires !IsSet(u.attributes, "name") && !IsSet(u.attributes, "username") && IsSet(u.attributes, "email")
    ensures DisplayName(u) == NormalizeDisplayName(u.attributes["email"])
  {
    assert DisplayAttributes[0] == "name" && DisplayAttributes[1] == "username" && DisplayAttributes[2] == "email";
  }

  /** With none of the attributes set (absent or null), the display name is the
      identifier as a string; an int identifier reads back as itself. */
  lemma FallsBackToIdentifier(u: User)
    requires u.displayNameMethod.None?
    requires !IsSet(u.attributes, "name") && !IsSet(u.attributes, "username") && !IsSet(u.attributes, "email")
    ensures DisplayName(u) == IdToString(u.key)
    ensures u.key.Int? ==> CanonicalInt(DisplayName(u)) && ParseInt(DisplayName(u)) == u.key.i
  {
    assert DisplayAttributes[0] == "name" && DisplayAttributes[1] == "username" && DisplayAttributes[2] == "email";
  }

  /** The adapter's own examples: id 123 with name 'John Doe', and with only
      an email ... */
  lemma AdapterExamples()
    ensures DisplayName(User(Int(123), None, map["id" := Integer(123), "name" := Text("John Doe")])) == "John Doe"
    ensures DisplayName(User(Int(123), None, map["id" := Integer(123), "email" := Text("john@example.com")])) == "john@example.com"
  {
    EmailOnlyAsLastAttribute(User(Int(123), None, map["id" := Integer(123), "email" := Text("john@example.com")]));
  }

  /** ... and with nothing but its id, the string '123'. */
  lemma IdentifierExample()
    ensures DisplayName(User(Int(123), None, map["id" := Integer(123)])) == "123"
  {
    FallsBackToIdentifier(User(Int(123), None, map["id" := Integer(123)]));
    DecimalOf123();
  }

  lemma DecimalOf123()
    ensures IntToString(123) == "123"
  {
    assert NatToString(1) == "1";
    assert NatToString(12) == "12";
    assert NatToString(123) == "123";
  }
}
