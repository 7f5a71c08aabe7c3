/** The framework collaborators of the user switcher, reduced to the values the
    core reads and writes: PHP values, the user-switcher configuration, Eloquent
    user models, and the request and response objects. */
module Laravel {
  import opened PhpStrings

  datatype Option<T> = None | Some(value: T)

  /** A user identifier, PHP's string|int; compared strictly. */
  datatype Id = Str(s: string) | Int(i: int)

  /** (string) of an identifier, as sprintf('%s') and the cast print it. */
  function IdToString(id: Id): (r: string)
    ensures id.Str? ==> r == id.s
    ensures id.Int? ==> CanonicalInt(r) && ParseInt(r) == id.i
  {
    match id
    case Str(s) => s
    case Int(i) => IntToString(i)
  }

  /** A PHP value as found in configuration, request input or a model attribute
      (floats are not modelled). */
  datatype Value =
    | Null
    | Bool(b: bool)
    | Integer(i: int)
    | Text(s: string)
    | Stringable(text: string)  // an object with __toString(), which returns `text`
    | Array(items: seq<Value>)
    | Object                    // any other object

  /** PHP's conversion of a value to bool: false for exactly the listed values
      (floats aside). */
  predicate Truthy(v: Value)
    ensures Truthy(v) <==> v !in {Null, Bool(false), Integer(0), Text(""), Text("0"), Array([])}
  {
    match v
    case Null => false
    case Bool(b) => b
    case Integer(i) => i != 0
    case Text(s) => s != "" && s != "0"
    case Stringable(_) => true
    case Array(items) => items != []
    case Object => true
  }

  /** config($key, $default): the stored value, or the default when the key is missing. */
  function Setting(stored: Option<Value>, default: Value): Value {
    if stored.Some? then stored.value else default
  }

  /** An authenticatable user record: its auth identifier, what its own
      getDisplayName() returns when its class has that method, and its attributes. */
  datatype User = User(key: Id, displayNameMethod: Option<Value>, attributes: map<string, Value>)

  /** An Eloquent model class: whether it implements Authenticatable, what
      Model::all() returns (in order) and what Model::find($id) finds. */
  datatype Model = Model(authenticatable: bool, all: seq<User>, find: map<Id, User>)

  /** The classes that exist (class_exists), by fully qualified name. */
  type Classes = map<string, Model>

  /** What $request->user() resolves to: the default guard's user, or a user
      fixed with setUserResolver(). */
  datatype UserResolver = AuthGuard | Resolved(user: User)

  /** What an authorization callback can observe of a request. */
  datatype RequestView = RequestView(url: string, input: map<string, Value>, user: UserResolver)

  /** The id of $request->user(), given the id the default guard currently
      authenticates: the fixed user's key, or the guard's user. */
  function RequestUserId(view: RequestView, current: Option<Id>): Option<Id> {
    match view.user
    case AuthGuard => current
    case Resolved(u) => Some(u.key)
  }

  /** The configuration repository as the core reads it. A missing key is None;
      `callback` is user-switcher.authorization_callback when is_callable() holds
      of it; it sees the request and, through the default guard, Auth::id().
      `appEnv` is the application environment. */
  datatype Config = Config(
    enabled: Option<Value>,
    environments: Option<Value>,
    autoInject: Option<Value>,
    userModel: Option<Value>,
    callback: Option<(RequestView, Option<Id>) -> Value>,
    appEnv: string)

  /** An incoming request: its URL and input parameters, and its user resolver. */
  class Request {
    const url: string
    const input: map<string, Value>
    var userResolver: UserResolver

    constructor (url: string, input: map<string, Value>, userResolver: UserResolver)
      ensures View() == RequestView(url, input, userResolver)
    {
      this.url := url;
      this.input := input;
      this.userResolver := userResolver;
    }

    function View(): RequestView
      reads this
    {
      RequestView(url, input, userResolver)
    }

    /** clone $request */
    method Clone() returns (copy: Request)
      ensures fresh(copy) && copy.View() == View()
    {
      copy := new Request(url, input, userResolver);
    }

    /** $request->setUserResolver(fn() => $user) */
    method SetUserResolver(user: User)
      modifies this
      ensures View() == old(View()).(user := Resolved(user))
    {
      userResolver := Resolved(user);
    }
  }

  /** A response produced by the rest of the application. `isHttpResponse` says
      whether it is an Illuminate\Http\Response (as opposed to a redirect, JSON or
      streamed response); `content` is what getContent() returns, None for false. */
  class Response {
    const isHttpResponse: bool
    var content: Option<string>

    constructor (isHttpResponse: bool, content: Option<string>)
      ensures this.isHttpResponse == isHttpResponse && this.content == content
    {
      this.isHttpResponse := isHttpResponse;
      this.content := content;
    }

    /** $response->setContent($content) */
    method SetContent(content: string)
      modifies this
      ensures this.content == Some(content)
    {
      this.content := Some(content);
    }
  }
}
