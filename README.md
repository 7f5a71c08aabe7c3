# laravel-user-switcher, modelled in Dafny

This project models the core of the Laravel user switcher (`cdoebler/laravel-user-switcher`).
The package lets an authorised operator take on another user's identity within a web session
and later return to their own identity. It also injects a user-picker widget into HTML responses.

The model covers:

- the session impersonator: the `original_user_id` slot, the logged-out marker
  `__no_original_user__`, the authenticated user and session id regeneration;
- the `_switch_user` middleware and its authorization gate;
- `ConfigHelper::isEnabled()`;
- the resolver that hands the authorization callback a request acting as the original user;
- the widget-injection middleware and its own gate;
- the user adapter (display-name resolution);
- the user provider (listing and lookup).

Modules follow the source files:

- `php_strings.dfy` (module `PhpStrings`): the PHP built-ins the code relies on: `trim`, `strlen` over UTF-8, `explode`/`implode`, `str_contains`, `str_replace`, integer casts
- `laravel.dfy` (module `Laravel`): framework values: identifiers, PHP values and truthiness, the configuration, users and models, `Request` and `Response` objects
- `config_helper.dfy` (module `ConfigHelper`): `src/Helpers/ConfigHelper.php`
- `session_impersonator.dfy` (module `SessionImpersonator`): `src/Services/LaravelSessionImpersonatorService.php`
- `user_adapter.dfy` (module `UserAdapter`): `src/Services/LaravelUserAdapterService.php`
- `user_provider.dfy` (module `UserProvider`): `src/Services/LaravelUserProviderService.php`
- `authorization_request_resolver.dfy` (module `AuthorizationRequestResolver`): `src/Services/AuthorizationRequestResolver.php`
- `handle_user_switcher.dfy` (module `HandleUserSwitcher`): `src/Http/Middleware/HandleUserSwitcherMiddleware.php`
- `inject_user_switcher.dfy` (module `InjectUserSwitcher`): `src/Http/Middleware/InjectUserSwitcherMiddleware.php`

## How the framework is represented

- Session and Auth:
  - The `Impersonator` class holds three fields: the slot (`None` when the key is absent), `Auth::id()`, and a session-id counter that `regenerate()` increments.
  - Each method is specified by a pure transition on `SessionState`: `Impersonated` and `Stopped`.
- `Auth::loginUsingId`:
  - It goes through a map `Logins` from the identifier the guard resolves to the auth id of the user it finds.
  - A login succeeds exactly when the identifier is a key of the map.
  - `NoSentinelLogin` requires that no real user has the marker as its id, and `Impersonator.Valid()` keeps the current id away from the marker.
- Configuration:
  - `user-switcher.*` settings are `Option<Value>`, where `None` means the key is missing.
  - The authorization callback is an opaque total function to a PHP value. Its arguments are the request it is given and `Auth::id()`, which `$request->user()` returns through the default guard (`RequestUserId`).
  - A missing key falls back to the default the code passes to `config()`: `enabled` true, `environments` `'*'`, `auto_inject` true, `user_model` `App\Models\User`. These are not the values the published configuration file sets (`enabled` false, `environments` `'local,testing'`); a configuration built from that file is a `Config` whose keys are all present.
  - `appEnv` is the application environment.
- Eloquent: a model class is `Model(authenticatable, all, find)`, and `class_exists` is membership in a `Classes` map.
- Requests and responses:
  - `Request` and `Response` are classes: `clone` gives a fresh object, and `setUserResolver` and `setContent` update a field.
  - The next handler's response is a parameter.
  - A middleware's result is an `Outcome`: passed on, a redirect (with an optional flash error), or the exception rethrown.
- The widget renderer is a parameter: a function from `current_user_id` to the rendered string.

## Where the code departs from its own comments and messages, and other behaviour worth noting

- The rollback in `impersonate()` forgets the slot on every failed login, although its comment says it removes the key "we just set". This is the one place where the model does not follow the code.
  - `ImpersonatedAsWritten` models the code as written.
  - `Impersonated`, the corrected version, is what the `Impersonator` class, the middleware and the resolver are built on.
  - See "## Findings", and the lines under "## Left out" that name the members this affects.

The model follows the code in each of the remaining cases.

- The 255 limit counts bytes (`strlen`), although the message speaks of characters. `Utf8Length` counts UTF-8 bytes; `LongIdentifierRejected` and `AsciiIdentifierAccepted` state the limit.
- `handle()` passes any string, including the empty one, to `impersonate()`. The empty string then fails validation.
- `canInjectWidget()` is not `ConfigHelper::isEnabled()`:
  - It does not trim the comma-separated items.
  - It does not check array lists at all.
  - `GatesAgreeOnTidyList`, `PaddedItemHidesWidget` and `ArrayListShowsWidget` pin down where the two gates agree and where they differ.
- Unlike the user provider, the resolver looks the original user up without checking `isEnabled()` or `Authenticatable`.
- When `stopImpersonating()` cannot log the stored user back in, it still forgets the slot. The current user then stays logged in.

## Model

| member | source | states |
|---|---|---|
| `PhpStrings.TrimStart` | src/Services/LaravelSessionImpersonatorService.php:29 | the leading run stripped by `trim()`: every character before it is a trim character and the one at it is not |
| `PhpStrings.TrimEnd` | src/Services/LaravelSessionImpersonatorService.php:29 | the trailing run stripped by `trim()`: everything from it on is a trim character and the character before it is not |
| `PhpStrings.Trim` | src/Services/LaravelSessionImpersonatorService.php:29 | `trim()` returns an unpadded infix of its input, and only trim characters surround it |
| `PhpStrings.TrimOfPadded` | src/Helpers/ConfigHelper.php:23 | trimming `p + s + q`, where `p` and `q` are whitespace and `s` is unpadded, gives exactly `s` |
| `PhpStrings.TrimUnpadded` | src/Helpers/ConfigHelper.php:23 | `trim()` leaves an unpadded string unchanged |
| `PhpStrings.TrimIdempotent` | src/Services/LaravelSessionImpersonatorService.php:29 | trimming twice is trimming once |
| `PhpStrings.Utf8Length` | src/Services/LaravelSessionImpersonatorService.php:35 | `strlen` of the UTF-8 text lies between one and four bytes per character |
| `PhpStrings.AsciiUtf8Length` | src/Services/LaravelSessionImpersonatorService.php:35 | for ASCII text `strlen` is the number of characters |
| `PhpStrings.Explode` | src/Helpers/ConfigHelper.php:23 | `explode()` with a non-empty separator always yields at least one piece |
| `PhpStrings.ImplodeOfExplode` | src/Http/Middleware/InjectUserSwitcherMiddleware.php:45 | joining the pieces of `explode($sep, $s)` with `$sep` gives back `$s` |
| `PhpStrings.ExplodeOfImplode` | src/Helpers/ConfigHelper.php:23 | splitting a comma-joined list whose items contain no comma gives back the items |
| `PhpStrings.ExplodeWithoutSeparator` | src/Helpers/ConfigHelper.php:23 | a string without the separator explodes into itself alone |
| `PhpStrings.ExplodePiecesAvoidSeparator` | src/Http/Middleware/InjectUserSwitcherMiddleware.php:45 | no piece of `explode()` contains the separator, for separators of any length: the split points are the leftmost non-overlapping occurrences, and no occurrence is left inside a piece |
| `PhpStrings.ExplodeAtFirstSeparator` | src/Helpers/ConfigHelper.php:23 | exploding splits at the first separator, then continues on the rest |
| `PhpStrings.ReplaceAllIsImplodeOfExplode` | src/Http/Middleware/InjectUserSwitcherMiddleware.php:45 | `str_replace` equals exploding on the search string and joining with the replacement; with `ExplodePiecesAvoidSeparator` and `ImplodeOfExplode`, the leftmost non-overlapping occurrences are replaced (for `</body>`, every occurrence, by `BodyCloseDoesNotOverlap`) and nothing else changes |
| `PhpStrings.ReplaceAllBySelf` | src/Http/Middleware/InjectUserSwitcherMiddleware.php:45 | replacing a string by itself changes nothing |
| `PhpStrings.ReplaceAll` | src/Http/Middleware/InjectUserSwitcherMiddleware.php:36-45 | `str_replace` leaves content without the search string unchanged; `ReplaceAllIsImplodeOfExplode` gives its full meaning |
| `PhpStrings.ContainsIsSomeOccurrence` | src/Http/Middleware/InjectUserSwitcherMiddleware.php:36 | `str_contains` holds exactly when the needle occurs at some position of the string |
| `PhpStrings.NatToString` | src/Services/LaravelUserAdapterService.php:34 | the decimal form of a natural number is a canonical numeral (digits, no leading zero) that parses back to the number |
| `PhpStrings.IntToString` | src/Services/LaravelUserAdapterService.php:44 | `(string)` of an int is a canonical numeral, with a minus sign exactly for negatives, that parses back to the int |
| `PhpStrings.NatToStringOfParse` | src/Services/LaravelUserAdapterService.php:34 | printing the value of any canonical numeral gives that numeral back, so the decimal form of a number is unique |
| `PhpStrings.IntToStringOfParse` | src/Services/LaravelUserAdapterService.php:44 | the same for ints: `IntToString` is the only canonical numeral of its argument |
| `Laravel.IdToString` | src/Services/LaravelUserAdapterService.php:34 | `(string)` of an identifier is the string itself, or the canonical decimal form of the int |
| `Laravel.Truthy` | src/Helpers/ConfigHelper.php:12 | PHP's cast to bool is false for exactly null, `false`, `0`, `""`, `"0"` and the empty array |
| `Laravel.Request.Clone` | src/Services/AuthorizationRequestResolver.php:38 | `clone $request` is a new object that looks exactly like the request |
| `Laravel.Request.SetUserResolver` | src/Services/AuthorizationRequestResolver.php:39 | only the user resolver changes, and it now returns the given user |
| `Laravel.Response.SetContent` | src/Http/Middleware/InjectUserSwitcherMiddleware.php:46 | the response content becomes the given string |
| `ConfigHelper.IsEnabled` | src/Helpers/ConfigHelper.php:10-31 | a falsy `enabled` flag denies; `'*'` allows every environment; any setting that is neither a string nor an array denies |
| `ConfigHelper.CommaListAllowsExactlyItsNames` | src/Helpers/ConfigHelper.php:18-30 | a list of trimmed, comma-free names joined by commas allows exactly those names |
| `ConfigHelper.StringListActsAsTrimmedArray` | src/Helpers/ConfigHelper.php:22-30 | a string list decides exactly as the array of its trimmed items |
| `ConfigHelper.PaddedNameIsAllowed` | src/Helpers/ConfigHelper.php:22-30 | whitespace around a single listed name does not matter: it allows that name and only that one |
| `SessionImpersonator.SessionState.GetOriginalUserId` | src/Services/LaravelSessionImpersonatorService.php:78-85 | null exactly when the slot is absent or holds the marker; otherwise the stored identifier |
| `SessionImpersonator.SessionState.IsImpersonating` | src/Services/LaravelSessionImpersonatorService.php:73-76 | impersonating exactly when an original id is stored, or the logged-out marker is |
| `SessionImpersonator.ValidationError` | src/Services/LaravelSessionImpersonatorService.php:28-38 | an identifier passes exactly when it is an int, or a string that is non-empty and at most 255 bytes after trimming |
| `SessionImpersonator.Impersonated` | src/Services/LaravelSessionImpersonatorService.php:22-52 | disabled means no change; a failure changes nothing and reports an error. Success happens exactly when the identifier validates and can be logged in; it then logs in the target, anchors the original only if the slot was absent, and changes the session id |
| `SessionImpersonator.ImpersonatedAsWritten` | src/Services/LaravelSessionImpersonatorService.php:40-49 | the code as written: like `Impersonated`, except that a failed login after validation always removes the slot |
| `SessionImpersonator.Stopped` | src/Services/LaravelSessionImpersonatorService.php:54-71 | without a slot nothing changes. Otherwise the slot is removed and the session id changes; the marker logs out, and an identifier logs that user back in if it can be logged in (else the current user stays) |
| `SessionImpersonator.Impersonator.Impersonate` | src/Services/LaravelSessionImpersonatorService.php:22-52 | the new session state and the error raised are exactly `Impersonated` of the old state, under `isEnabled()` of the configuration |
| `SessionImpersonator.Impersonator.StopImpersonating` | src/Services/LaravelSessionImpersonatorService.php:54-71 | the new session state is exactly `Stopped` of the old state |
| `SessionImpersonator.Impersonator.constructor` | src/Services/LaravelSessionImpersonatorService.php:17-20 | the service starts on the given session and configuration, with the current id never the marker |
| `SessionImpersonator.AnchorRecordsStartingUser` | src/Services/LaravelSessionImpersonatorService.php:40-43 | a first successful switch records the user who was logged in; the original id is null, with the slot present, when nobody was |
| `SessionImpersonator.NestedImpersonationKeepsAnchor` | src/Services/LaravelSessionImpersonatorService.php:40-43 | once the slot is present, no call of the corrected `impersonate()` changes it, whatever its outcome; as written, a failed nested login removes it (`NestedFailureLosesAnchor`) |
| `SessionImpersonator.ImpersonatedKeepsRecoverable` | src/Services/LaravelSessionImpersonatorService.php:40-51 | every call of the corrected `impersonate()` keeps the starting user recoverable: either it is still current with no anchor, or it is the anchor |
| `SessionImpersonator.StoppedRestores` | src/Services/LaravelSessionImpersonatorService.php:54-71 | from a recoverable state, stopping brings back the starting user (or logs out) and ends the impersonation, with a new session id if one was under way |
| `SessionImpersonator.ImpersonatedAllKeepsRecoverable` | src/Services/LaravelSessionImpersonatorService.php:22-52 | any sequence of `impersonate()` calls from a non-impersonating state leaves the starting user recoverable |
| `SessionImpersonator.StopUndoesImpersonations` | tests/LaravelSessionImpersonatorTest.php:29-71 | after any sequence of impersonations (nested, failed or successful), `stopImpersonating()` restores the user logged in before them, or the logged-out state, and clears the slot |
| `SessionImpersonator.NestedImpersonationExample` | tests/LaravelSessionImpersonatorTest.php:50-71 | user 1 switches to 2 then 3: the anchor stays 1, 3 is current, and stopping returns to 1 |
| `SessionImpersonator.NestedFailureLosesAnchor` | src/Services/LaravelSessionImpersonatorService.php:45-49 | as written, a failed nested switch removes the anchor; stopping then leaves the impersonated user logged in |
| `SessionImpersonator.BlankIdentifierRejected` | src/Services/LaravelSessionImpersonatorService.php:29-33 | an empty or whitespace-only string is rejected with "cannot be empty" and the session is untouched |
| `SessionImpersonator.LongIdentifierRejected` | src/Services/LaravelSessionImpersonatorService.php:35-37 | an unpadded string longer than 255 characters is rejected with "cannot exceed 255 characters" and the session is untouched |
| `SessionImpersonator.AsciiIdentifierAccepted` | src/Services/LaravelSessionImpersonatorService.php:28-38 | non-blank ASCII identifiers of up to 255 characters pass validation |
| `SessionImpersonator.PaddedIdentifierIsTrimmed` | tests/LaravelSessionImpersonatorTest.php:178-190 | surrounding whitespace is removed before the guard looks the identifier up |
| `UserAdapter.AdapterWrapsUser` | src/Services/LaravelUserAdapterService.php:15-40 | `getIdentifier()` is the user's auth identifier, and `getOriginalUser()` is the wrapped user itself |
| `UserAdapter.NormalizeDisplayName` | src/Services/LaravelUserAdapterService.php:42-45 | strings and Stringables give their text; ints their canonical decimal form; `true` gives "1" and `false` ""; null, arrays and other objects give "" |
| `UserAdapter.FirstSetIndex` | src/Services/LaravelUserAdapterService.php:28-32 | the position of the first attribute that is set (present and not null), every earlier one being unset; or the list's length when none is set |
| `UserAdapter.GetDisplayName` | src/Services/LaravelUserAdapterService.php:21-35 | the `foreach` with early return computes exactly the display name: own method, else first set of name/username/email, else the identifier as a string |
| `UserAdapter.OwnMethodWins` | src/Services/LaravelUserAdapterService.php:23-26 | a `getDisplayName()` of the user's class takes precedence over every attribute |
| `UserAdapter.NameAttributeWins` | src/Services/LaravelUserAdapterService.php:28-32 | a set `name` is used, whatever `username` and `email` hold |
| `UserAdapter.UsernameBeforeEmail` | src/Services/LaravelUserAdapterService.php:28-32 | without `name`, `username` is used ahead of `email` |
| `UserAdapter.EmailOnlyAsLastAttribute` | src/Services/LaravelUserAdapterService.php:28-32 | `email` is used only when neither `name` nor `username` is set |
| `UserAdapter.FallsBackToIdentifier` | src/Services/LaravelUserAdapterService.php:34 | with none of the three set, the display name is the identifier as a string, and an int identifier gives its canonical decimal form |
| `UserAdapter.AdapterExamples` | tests/LaravelUserAdapterTest.php:13-25 | id 123 with name 'John Doe' gives 'John Doe'; with only an email it gives the email |
| `UserAdapter.IdentifierExample` | tests/LaravelUserAdapterTest.php:27-32 | id 123 with no display attribute gives the string '123' |
| `UserProvider.GetUserModelClass` | src/Services/LaravelUserProviderService.php:64-74 | a class exactly when the setting (default `App\Models\User`) is a string naming an existing class |
| `UserProvider.GetUsers` | src/Services/LaravelUserProviderService.php:22-38 | disabled or without a class gives `[]`. A TypeError arises exactly for a non-Authenticatable class that has records. Otherwise there is one adapter per record, in order |
| `UserProvider.FindUserById` | src/Services/LaravelUserProviderService.php:40-59 | an adapter exactly when enabled, the class exists, the record is found and the class is Authenticatable; it wraps the found record |
| `UserProvider.ListedUsersAreFound` | src/Services/LaravelUserProviderService.php:22-59 | every listed user can be looked up again by its identifier and gives the same adapter |
| `UserProvider.FoundUserHasRequestedId` | tests/LaravelUserProviderTest.php:39-53 | with a strictly keyed lookup, the adapter found has the requested identifier |
| `UserProvider.DisabledProviderIsEmpty` | src/Services/LaravelUserProviderService.php:24-26 | when `isEnabled()` is false the provider lists nobody and finds nobody |
| `UserProvider.NonStringModelSettingIgnored` | src/Services/LaravelUserProviderService.php:66-70 | a `user_model` setting that is not a string gives `[]` and null |
| `AuthorizationRequestResolver.OriginalUser` | src/Services/AuthorizationRequestResolver.php:16-36 | a user exactly when impersonating with a stored id (not the marker), the model class exists and finds that id; and it is the found record |
| `AuthorizationRequestResolver.AuthorizationView` | src/Services/AuthorizationRequestResolver.php:14-42 | URL and input are unchanged; without an original user the request is unchanged; with one, the acting user is the original user |
| `AuthorizationRequestResolver.GetRequestForAuthorization` | src/Services/AuthorizationRequestResolver.php:14-42 | the very same request when no original user is found, otherwise a fresh clone acting as that user; the input request is not modified |
| `AuthorizationRequestResolver.CallbackSeesOriginalUser` | tests/Feature/InjectUserSwitcherMiddlewareTest.php:132-155 | after any impersonations by a logged-in user, the callback judges that user: either it is still current, or the request resolves to its record |
| `AuthorizationRequestResolver.CallbackJudgesStartingUser` | tests/Feature/InjectUserSwitcherMiddlewareTest.php:132-155 | with records found under their own id, `$request->user()?->id` seen by the callback is the user logged in before any impersonations |
| `AuthorizationRequestResolver.LoggedOutStartKeepsRequest` | src/Services/AuthorizationRequestResolver.php:20-23 | when impersonation began logged out, the callback gets the request as it is |
| `HandleUserSwitcher.DirectiveOf` | src/Http/Middleware/HandleUserSwitcherMiddleware.php:25-30 | exactly `'_stop'` stops; any other string or an int switches to that identifier; any other value does nothing |
| `HandleUserSwitcher.CanSwitchUser` | src/Http/Middleware/HandleUserSwitcherMiddleware.php:45-54 | the configured callback on the authorization request, cast to bool; without a callback, `isEnabled()` |
| `HandleUserSwitcher.HandleSpec` | src/Http/Middleware/HandleUserSwitcherMiddleware.php:19-43 | passes on exactly when the parameter is missing or the gate is shut, with no state change. Otherwise `_stop` redirects after `Stopped`, and a non-identifier redirects without a change. An identifier leaves `Impersonated`'s state; it redirects without an error exactly when that succeeds. Otherwise it redirects with "Invalid user identifier: " plus the message outside `local`, or rethrows in `local` |
| `HandleUserSwitcher.Handle` | src/Http/Middleware/HandleUserSwitcherMiddleware.php:19-43 | the outcome and the new session state are exactly `HandleSpec` of the request and the old state |
| `HandleUserSwitcher.AllowedSwitchLogsIn` | tests/Feature/HandleUserSwitcherMiddlewareTest.php:61-70 | an allowed request naming a user that can be logged in redirects without error, logs that user in, anchors the previous user if none was anchored, and regenerates the session |
| `HandleUserSwitcher.CallbackOverridesConfiguration` | tests/Feature/HandleUserSwitcherMiddlewareTest.php:102-112 | with a callback, the enabled flag and the environment list take no part in the gate |
| `HandleUserSwitcher.DisabledSwitchChangesNothing` | src/Http/Middleware/HandleUserSwitcherMiddleware.php:28-30 | where `isEnabled()` is false, a switch request changes no state, even if a callback allows it, and just redirects |
| `HandleUserSwitcher.StopIgnoresIsEnabled` | src/Http/Middleware/HandleUserSwitcherMiddleware.php:26-27 | an allowed `_stop` request stops the impersonation whatever `isEnabled()` says |
| `HandleUserSwitcher.UnknownUserReported` | src/Http/Middleware/HandleUserSwitcherMiddleware.php:31-37 | an unknown id redirects with the prefixed not-found message outside `local`, and is rethrown in `local`; the session is untouched |
| `HandleUserSwitcher.HandleKeepsRecoverable` | src/Http/Middleware/HandleUserSwitcherMiddleware.php:19-43 | every request keeps the starting user recoverable |
| `HandleUserSwitcher.HandledAllKeepsRecoverable` | src/Http/Middleware/HandleUserSwitcherMiddleware.php:19-43 | any sequence of requests from a non-impersonating state keeps the starting user recoverable |
| `HandleUserSwitcher.StopRequestRestoresStartingUser` | tests/Feature/HandleUserSwitcherMiddlewareTest.php:91-100 | after any sequence of requests, an allowed `_stop` request redirects and restores the starting user (or the logged-out state) |
| `InjectUserSwitcher.Injection` | src/Http/Middleware/InjectUserSwitcherMiddleware.php:19-49 | the content changes only when `auto_inject` is on, the gate allows, the response is HTML, the content holds `</body>` and the widget is not empty. When all of these hold, the result is the pieces of `explode("</body>", $content)` joined by widget + `</body>`, and the original is those pieces joined by `</body>`. By `ExplodePiecesAvoidSeparator` no piece holds `</body>`, and by `BodyCloseDoesNotOverlap` every occurrence is a split point, so every occurrence gets the widget |
| `InjectUserSwitcher.BodyCloseDoesNotOverlap` | src/Http/Middleware/InjectUserSwitcherMiddleware.php:45 | two occurrences of `</body>` in a string are at least its length apart, so the leftmost non-overlapping occurrences are all of them |
| `InjectUserSwitcher.CanInjectWidget` | src/Http/Middleware/InjectUserSwitcherMiddleware.php:51-69 | the callback if configured; otherwise a falsy `enabled` denies, and a non-`'*'` string denies unless its untrimmed items include the environment; all else allows |
| `InjectUserSwitcher.EmptyWidget` | src/Http/Middleware/InjectUserSwitcherMiddleware.php:41 | `empty()` of the rendered widget holds exactly when the string is falsy |
| `InjectUserSwitcher.Handle` | src/Http/Middleware/InjectUserSwitcherMiddleware.php:19-49 | returns the same response, whose content is exactly `Injection` of the old content with the widget rendered for the current user |
| `InjectUserSwitcher.GatesAgreeWithCallback` | src/Http/Middleware/InjectUserSwitcherMiddleware.php:55-57 | with a callback, the widget gate is the same callback on the same authorization request as the switch gate |
| `InjectUserSwitcher.GatesAgreeOnTidyList` | src/Http/Middleware/InjectUserSwitcherMiddleware.php:59-68 | for a string list whose items have no surrounding whitespace, the widget gate equals `isEnabled()` |
| `InjectUserSwitcher.SplitAtOnlyComma` | src/Http/Middleware/InjectUserSwitcherMiddleware.php:64 | a list with a single comma splits into the text before it and the text after it |
| `InjectUserSwitcher.PaddedItemHidesWidget` | src/Http/Middleware/InjectUserSwitcherMiddleware.php:64 | a list like 'local, testing' lets `isEnabled()` allow 'testing' while the widget gate denies it |
| `InjectUserSwitcher.PaddedItemTrimmed` | src/Helpers/ConfigHelper.php:23 | `isEnabled()` reads the padded second item as the bare name |
| `InjectUserSwitcher.ArrayListShowsWidget` | src/Http/Middleware/InjectUserSwitcherMiddleware.php:63-68 | an array list never hides the widget, while `isEnabled()` allows exactly the listed environments |
| `InjectUserSwitcher.OnlyHtmlWithBodyChanges` | src/Http/Middleware/InjectUserSwitcherMiddleware.php:31-37 | a non-HTML response, or content without `</body>`, is left as it is |
| `InjectUserSwitcher.WidgetRendersCurrentUser` | src/Http/Middleware/InjectUserSwitcherMiddleware.php:40-45 | after a switch, the injected widget is the one rendered for the impersonated user, not the original |

## Left out

- Floating-point values, and their string casts, are not modelled (`Value` has no float).
- `App::environment()` also accepts wildcard patterns (`Str::is`), and `Str::is` casts each non-string item of an `environments` array to a string. `IsEnabled` models its array argument as exact membership of `Text(appEnv)`, so an item such as the integer 1 never matches the environment "1".
- `in_array` in `canInjectWidget()` compares loosely, and PHP 8 compares two numeric strings as numbers. `InjectGate` uses exact string membership.
- `config('app.env')` and `App::environment()` are taken to be the same value, `appEnv`.
- `Auth::loginUsingId`, `Auth::logout` and `Session::regenerate` are modelled only through the state they change. The session migration that Laravel's guard performs on login, remember tokens and events are not modelled.
- The renderer's HTML, and which list item it highlights, are not modelled. The widget is whatever the `render` parameter returns for `Auth::id()`.
- The authorization callback is a pure function. Exceptions it throws and any side effects it has are not modelled. Only `InvalidArgumentException` is raised by the impersonator, and that is the one modelled.
- `redirect()->with('error', …)` is the `Redirect` outcome carrying the message. The flash storage itself is not modelled.
- A `user_model` naming a class that exists but is not an Eloquent model is not modelled: the call to `::all()` or `::find()` would fail. Every class in `Classes` is a model.
- `Authenticatable` is a property of the model class, not of each record.
- `RequestView.input` maps each parameter name to the value `$request->get()` returns for it, and `has()` is membership of that map. The order in which Symfony's `get()` consults route attributes, the query string and the body is not modelled, nor where `has()` (query and body merged) and `get()` disagree.
- Strings are sequences of code points. Byte strings that are not valid UTF-8 are not modelled.
- Concurrent requests on one session are not modelled.
- The service provider's container bindings and middleware registration are not modelled. So are the Blade component and view, and the config file with its environment-variable loading. The `Setting` defaults are the code's `config()` fallbacks, not the file's values.
- InjectUserSwitcher.Injection: the two contents are stated as the same pieces joined by `</body>` and by widget + `</body>`. The contract does not count the `</body>` occurrences of the result, which differs when the widget itself contains `</body>`.
- SessionImpersonator.Impersonator.Impersonate: the class uses the corrected rollback (see Findings). The code as written is `ImpersonatedAsWritten`.
- HandleUserSwitcher.HandleSpec: built on the corrected `Impersonated`. As written, a failed switch while impersonating also removes the slot, so "an error leaves the state unchanged" does not hold of the code then.
- HandleUserSwitcher.Handle: calls the corrected `Impersonator.Impersonate`, so it differs from the code as written after a failed nested switch.
- HandleUserSwitcher.UnknownUserReported: "the session is untouched" holds for the corrected rollback; as written, the slot is removed when it was already present.
- HandleUserSwitcher.HandleKeepsRecoverable: holds for the corrected rollback. As written, a failed nested switch loses the anchor (`NestedFailureLosesAnchor`).
- HandleUserSwitcher.HandledAllKeepsRecoverable: as above, for sequences of requests.
- HandleUserSwitcher.StopRequestRestoresStartingUser: as above. As written, a stop after a failed nested switch leaves the impersonated user logged in.
- AuthorizationRequestResolver.CallbackSeesOriginalUser: holds for the corrected rollback. As written, after a failed nested switch the callback judges the impersonated user.
- AuthorizationRequestResolver.CallbackJudgesStartingUser: as above.
- SessionImpersonator.NestedImpersonationKeepsAnchor: holds for the corrected rollback. As written, a failed login while the slot is present removes it (`NestedFailureLosesAnchor`).
- SessionImpersonator.ImpersonatedKeepsRecoverable: holds for the corrected rollback. As written, a failed nested login loses the anchor, so the starting user is no longer recoverable (`NestedFailureLosesAnchor`).
- SessionImpersonator.ImpersonatedAllKeepsRecoverable and SessionImpersonator.StopUndoesImpersonations are stated of the corrected `Impersonated`, by design; `NestedFailureLosesAnchor` shows that they fail for the code as written.

## Findings

| source | as written | input that shows it | evidently intended | confidence | as-written member | corrected member |
|---|---|---|---|---|---|---|
| src/Services/LaravelSessionImpersonatorService.php:45-49 | a failed login always calls `Session::forget('original_user_id')`, even when an earlier call wrote the slot | user 1 logged in; `impersonate(2)` succeeds; `impersonate(3)` fails for an unknown id 3, which removes the slot; `stopImpersonating()` then does nothing and user 2 stays logged in for good | remove the slot only when this call has just written it, as the comment on the rollback says; a failed nested switch then keeps the anchor | not executed | `SessionImpersonator.NestedFailureLosesAnchor` | `SessionImpersonator.StopUndoesImpersonations` |
