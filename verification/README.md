# Search the Professionals — sign-in, session and directory core in Dafny

This project models the sign-in core of *Search the Professionals*. The system has two parts: an Express/Mongoose backend and a React client. Users register and log in, then browse a directory of professionals. The model is pure and functional: every handler and every UI callback is a function from its inputs to its outcome.

- **Backend** (`user_model.dfy`, `auth_controller.dfy`). The Mongoose `User` schema is a record with optional paths. The collection is the sequence of saved documents, and `findOne` returns the first match. The `register` and `login` handlers are transitions of that collection. The outside world arrives in an `Env`: the bcrypt hasher, the salt, the fresh `_id`, the clock, `JWT_SECRET`, and which awaited calls reject.
- **Browser session** (`session.dfy`). localStorage is a string map holding the `token` and the JSON text of `currentuser`. `JSON.stringify`/`JSON.parse` are a pair of function values with one stated law.
- **Routing** (`routing.dfy`). The route table of `App.tsx` and `LoginGuard` decide on the path and the truthiness of `currentuser`. The table's elements are built once per page load, so `/home` and `/profile` read `currentuser` as it was at the last load, while `LoginGuard` reads it again every time it renders. `RouteElement` is the decision right after a load. `InAppElement` is the decision that in-app navigation reaches after the storage has changed. `Follow` chases redirects after a load so that termination and the absence of cycles can be stated.
- **API calls** (`api.dfy`). The two sign-in endpoints and the user-list URL builder.
- **Combined sign-in form** (`auth_form.dfy`). The react-hook-form rules, the submission, and the mapping of server messages onto fields by case-insensitive regular expressions. It is backed by `text.dfy`, where `includes` and `/a.*b/` are executable scans proved equal to their positional languages, and by `email.dfy`, where the e-mail pattern is a language proved equal to a scanner.
- **Stand-alone registration page** (`register_form.dfy`). `validateForm`, `handleChange`, `handleSubmit` and what happens after the reply.
- **Directory page** (`homepage.dfy`). The list load, the category/search filter with a one-pass reference filter, the count line, the greeting and the header logout.
- **Profile page** (`profile.dfy`). The avatar initials, checked against a character-scan reference, plus logout and the back buttons.
- **End to end** (`end_to_end.dfy`). Connects a controller response to what the client then shows or stores.

Facts about the code that the lemmas make explicit:

- Username uniqueness rests only on the controller's check, since the schema declares no unique index (`UserModel.SaveDoesNotEnforceUniqueness`). It holds for sequential requests (`AuthController.RunKeepsUsernamesUnique`).
- The document is saved before the token is signed. With `JWT_SECRET` unset, `register` answers 500 but the account exists, and a retry is refused as a duplicate (`AuthController.SigningFailureStillStores`, `AuthController.RegisterTwiceRefused`).
- No route decision reads the token (`Routing.TokenNeverConsulted`). The home page's logout removes only `currentuser` and leaves the token stored (`Homepage.HomeLogout`). The profile's logout removes both.
- The two registration screens disagree. The register mode of the combined form stores nothing and returns to login mode (`AuthForm.OnRegisterReply`). The stand-alone page stores a session that holds only the typed username (`RegisterForm.OnReply`).
- The stand-alone page's "Sign In" link goes to `/login`, which is not in the route table. It reaches the login page through the catch-all, one redirect later (`RegisterForm.SignInLinkReachesLogin`).
- `register` looks the username up with `findOne` and then saves. Nothing makes the pair atomic.
- The profile's logout navigates in-app without a reload. The login page shows at once, but going back to `/home` or `/profile` still renders those pages until the next load (`Profile.ProfileLogoutLeavesPagesUntilReload`).
- The server checks neither the e-mail format nor any length. Only the two forms do.
- The forms' length limits count UTF-16 code units, as JavaScript's `length` does. Three emoji make an acceptable six-unit password (`RegisterForm.AstralLengths`).
- No modelled code reads a token back: it is issued and stored, never verified.

## Model

| member | source | states |
|---|---|---|
| `UserModel.DefinedPaths` | backend/models/user.model.js:3-13 | A document holds `_id` and `createdAt` and otherwise only schema paths |
| `UserModel.NewDocument` | backend/models/user.model.js:3-13 | `new User(c)` reads back as exactly what was supplied, with `createdAt` defaulting to the creation time; no other path gets a default |
| `UserModel.FindIndex` | backend/controllers/auth.controller.js:9 | The position found holds the username and no earlier document does |
| `UserModel.FindOne` | backend/controllers/auth.controller.js:44 | `findOne` is absent exactly when no document has the username; a found document is in the collection and has it |
| `UserModel.Save` | backend/controllers/auth.controller.js:21 | `save` appends the document and keeps every earlier one |
| `UserModel.SaveDoesNotEnforceUniqueness` | backend/models/user.model.js:4-8 | With no unique index, saving a taken username succeeds and breaks uniqueness |
| `UserModel.SaveFreshKeepsUnique` | backend/controllers/auth.controller.js:9-21 | Saving a username `findOne` did not find keeps usernames unique |
| `UserModel.FindOneAppend` | backend/controllers/auth.controller.js:9-21 | After an append, `findOne` still returns an earlier match, else the new document if it matches |
| `UserModel.IndexIsFindOne` | backend/controllers/auth.controller.js:44 | The username-keyed map view agrees with `findOne` on every username |
| `UserModel.SaveFreshExtendsIndex` | backend/controllers/auth.controller.js:13-21 | Saving a fresh username adds exactly that entry to the map view |
| `AuthController.NewUser` | backend/controllers/auth.controller.js:13-20 | The new document has the given username and e-mail, the digest and not the password, role `User`, company `Company`, the fresh id and the current time |
| `AuthController.Register` | backend/controllers/auth.controller.js:6-37 | Duplicate: 400 "Username already exists" and store unchanged. Fresh: exactly one record appended and 201 with a 1h token for the new id and `{username, role, company}`. Any thrown failure: 500 "Registration failed". Each status is characterised in both directions, and the collection changes exactly when the lookup, the hash and the save all succeed on a fresh username |
| `AuthController.Sign` | backend/controllers/auth.controller.js:23 | A token is issued exactly when the secret is set and non-empty, and it carries the given id and the `"1h"` lifetime |
| `AuthController.Login` | backend/controllers/auth.controller.js:39-70 | Unknown user: 401 "User not found". Wrong password: 401 "Invalid credentials". Match: 200 "Logged In" with a 1h token for that record and its public view. Throw: 500 "Login failed". Both directions; the store is not an output |
| `AuthController.Handle` | backend/controllers/auth.controller.js:6-70 | A login answers without touching the collection; a register is the `register` transition; no earlier document moves or changes |
| `AuthController.Run` | backend/controllers/auth.controller.js:6-70 | Serving any sequence of requests only appends: the starting collection is a prefix of the result |
| `AuthController.RegisterKeepsUsernamesUnique` | backend/controllers/auth.controller.js:9-21 | One `register` preserves username uniqueness |
| `AuthController.RunKeepsUsernamesUnique` | backend/controllers/auth.controller.js:6-70 | Any sequence of register/login requests served one at a time preserves uniqueness |
| `AuthController.LoginsLeaveStore` | backend/controllers/auth.controller.js:39-70 | Any number of logins leaves the collection unchanged |
| `AuthController.RegisterUpdatesIndex` | backend/controllers/auth.controller.js:9-21 | Seen as a username-keyed map, `register` leaves it unchanged or adds exactly the new username |
| `AuthController.RegisterTwiceRefused` | backend/controllers/auth.controller.js:9-12 | Once a username is stored, a later `register` of it gets 400 and changes nothing, even after a 500 from signing |
| `AuthController.SigningFailureStillStores` | backend/controllers/auth.controller.js:21-36 | With no signing secret the record is saved and the answer is still 500 "Registration failed" |
| `AuthController.RegisterThenLogin` | backend/controllers/auth.controller.js:44-62 | A username just registered logs in with the same password and gets 200, a token for the new id and the public view |
| `AuthController.SameButEmailFind` | backend/controllers/auth.controller.js:44 | The lookup position does not depend on stored e-mails or creation times |
| `AuthController.LoginIgnoresEmail` | backend/controllers/auth.controller.js:39-70 | The login response never depends on a stored e-mail |
| `AuthController.RegisterResponseIgnoresSecrets` | backend/controllers/auth.controller.js:24-36 | The register response depends only on the username among the request fields, so neither the password nor the e-mail leaks |
| `Session.StoreSession` | frontend/src/features/login/login.tsx:44-45 | The sign-in writes set `token` and `currentuser` and leave every other key alone |
| `Session.StoreSessionStartsSession` | frontend/src/features/login/login.tsx:44-46 | After the writes, `currentuser` is truthy |
| `Session.RemoveItems` | frontend/src/features/profile/profile.tsx:17-19 | `removeItem` clears exactly the named keys |
| `Routing.LoginGuard` | frontend/src/shared/guards/loginGuards.tsx:9-18 | Redirect to `/home` with replace iff `currentuser` is truthy, else render the child unchanged |
| `Routing.RouteElement` | frontend/src/App.tsx:14-42 | Right after a page load: `/` and `/register` go through the guard; `/home` and `/profile` render iff there is a session and otherwise redirect to `/`; every other path goes to `/`; redirects only target `/` or `/home` |
| `Routing.InAppElement` | frontend/src/App.tsx:14-42 | In-app navigation: the guarded pages follow the current storage, `/home` and `/profile` follow the storage of the last load, and unknown paths go to `/` |
| `Routing.InAppAgreesUntilStorageChanges` | frontend/src/App.tsx:14-42 | While the storage is what it was at the load, in-app navigation decides as a load would |
| `Routing.StaleSignedInPages` | frontend/src/App.tsx:30-41 | Once the session ends without a reload, `/` shows the login page while `/home` and `/profile` still render; a reload redirects them |
| `Routing.EveryNavigationSettles` | frontend/src/App.tsx:14-42 | Every path renders a page after at most two redirects, and that page is the one the session calls for |
| `Routing.UnknownPathTakesTwoHops` | frontend/src/App.tsx:42 | Two redirects are sometimes needed: an unknown path with a session goes through `/` to `/home` |
| `Routing.NoRedirectCycle` | frontend/src/App.tsx:14-42 | Any larger redirect budget gives the same result as two, so there is no cycle |
| `Routing.RouteReadsOnlySession` | frontend/src/App.tsx:30-41 | Two storages with the same `currentuser` truthiness get the same decision on every path |
| `Routing.TokenNeverConsulted` | frontend/src/App.tsx:33-39 | Adding, changing or removing the token changes no decision |
| `Routing.EmptyCurrentUserIsNoSession` | frontend/src/shared/guards/loginGuards.tsx:10-13 | A stored empty `currentuser` counts as no session |
| `Api.ServerMessage` | frontend/src/features/login/login.tsx:48 | The server's message when it is non-empty, else the fallback; never empty when the fallback is not |
| `Api.LoginApi` | frontend/src/shared/config/api.tsx:3-5 | A POST to `/auth/login` carrying exactly the given username and password |
| `Api.RegisterApi` | frontend/src/shared/config/api.tsx:7-9 | A POST to `/auth/register` carrying exactly the given e-mail, username and password |
| `Api.QueryPairs` | frontend/src/shared/config/api.tsx:14-20 | `search` is appended, trimmed, iff present and not blank; `category` iff present, non-empty and not `All`; search comes first |
| `Api.Serialize` | frontend/src/shared/config/api.tsx:22 | A non-empty parameter list serialises to a non-empty query |
| `Api.UserListUrl` | frontend/src/shared/config/api.tsx:11-23 | The URL is the bare `/user/list` iff nothing is appended; `?` appears iff something is |
| `Api.GetUserListApi` | frontend/src/shared/config/api.tsx:11-26 | A GET whose URL is the bare list path exactly when no parameter is sent |
| `Api.NoParametersBareUrl` | frontend/src/shared/config/api.tsx:11-25 | With no parameters, a blank search or category `All`, the request is `GET /user/list` |
| `Text.Trim` | frontend/src/features/register/register.tsx:32 | `trim()` is the infix of the string between a blank prefix and a blank suffix; it is empty exactly for a blank string, and otherwise starts and ends with non-space |
| `Text.TrimmedInfixUnique` | frontend/src/features/register/register.tsx:32 | A string has only one infix that is surrounded by white space and neither starts nor ends with it (or only empty ones) |
| `Text.TrimCharacterised` | frontend/src/features/register/register.tsx:32 | `trim()` is that unique infix |
| `Text.Utf16Length` | frontend/src/features/register/register.tsx:34 | `length` counts UTF-16 code units: at least the number of characters, at most twice it, and equal exactly when every character is in the Basic Multilingual Plane |
| `Text.LowerKeepsBlank` | frontend/src/features/home/homepage.tsx:74-75 | Lower-casing does not change blankness |
| `Text.ContainsMeansOccurs` | frontend/src/features/login/login.tsx:50-52 | The `includes`/`/t/` scan holds iff the text occurs at some index |
| `Text.ContainsNeedsChar` | frontend/src/features/login/login.tsx:50-55 | A text containing a pattern contains each of its characters |
| `Text.ThenMeansThenOnLine` | frontend/src/features/login/login.tsx:72-76 | The `/a.*b/` scan holds iff some `a` is followed later on the same line by some `b` |
| `Text.ThenNeedsChar` | frontend/src/features/login/login.tsx:72-79 | A text `/a.*b/` matches contains every character of `a` |
| `Text.JoinSplit` | frontend/src/features/profile/profile.tsx:41 | `split(' ')` loses nothing: joining the pieces gives back the name |
| `Text.ParseNatToString` | frontend/src/features/home/homepage.tsx:158 | The printed count reads back as the count |
| `Email.IndexOf` | frontend/src/features/register/register.tsx:39-42 | The first occurrence of a character, or the length when it is absent |
| `Email.PatternIsEmail` | frontend/src/features/register/register.tsx:39-42 | A string in the language of `^[^\s@]+@[^\s@]+\.[^\s@]+$` passes the scanner |
| `Email.EmailIsPattern` | frontend/src/features/register/register.tsx:39-42 | A string the scanner passes is in the pattern's language |
| `Email.EmailCharacterisation` | frontend/src/features/login/login.tsx:166-171 | The pattern accepts exactly: no white space, exactly one `@` with something before it, and a `.` after it that is neither the first nor the last character after the `@` |
| `AuthForm.LengthRule` | frontend/src/features/login/login.tsx:93-96 | `required` then `minLength`: empty is "required", fewer UTF-16 code units than the minimum is "too short", otherwise no error |
| `AuthForm.UsernameRule` | frontend/src/features/login/login.tsx:93-96 | Empty: "Username is required"; under 3 code units: "Username must be at least 3 characters"; otherwise no error |
| `AuthForm.PasswordRule` | frontend/src/features/login/login.tsx:108-111 | Empty: "Password is required"; under 6 code units: "Password must be at least 6 characters"; otherwise no error |
| `AuthForm.EmailRule` | frontend/src/features/login/login.tsx:166-171 | No error iff the value is in the pattern's language; empty gives "Email is required", any other miss "Please enter a valid email address" |
| `AuthForm.ValidateLogin` | frontend/src/features/login/login.tsx:93-111 | Each field has an error iff its rule fails, and the error is that rule's message; no error iff the username has ≥3 code units and the password ≥6 |
| `AuthForm.ValidateRegisterMode` | frontend/src/features/login/login.tsx:151-187 | Each field has an error iff its rule fails, with that rule's message; no error iff username ≥3 and password ≥6 code units and the e-mail matches the pattern |
| `AuthForm.ClassifyLoginError` | frontend/src/features/login/login.tsx:50-56 | "user not found" anywhere, in any case, goes to the username; otherwise "invalid credentials" goes to the password; anything else goes verbatim to the root (both directions) |
| `AuthForm.ClassifyRegisterError` | frontend/src/features/login/login.tsx:72-80 | Priority `email.*exists`, then `username.*exists`, then `password.*6`, then the root, each stated against the `/a.*b/i` language in both directions, with the fixed field messages |
| `AuthForm.LoginFallbackAtRoot` | frontend/src/features/login/login.tsx:48-55 | The login fallback text is shown at the root |
| `AuthForm.FallbackLacks` | frontend/src/features/login/login.tsx:48-52 | The login fallback text matches neither login pattern |
| `AuthForm.RegisterFallbackAtRoot` | frontend/src/features/login/login.tsx:70-79 | The registration fallback text is shown at the root |
| `AuthForm.RegisterFallbackLacks` | frontend/src/features/login/login.tsx:70-76 | The registration fallback text matches none of the three register patterns |
| `AuthForm.SubmitLogin` | frontend/src/features/login/login.tsx:41-43 | Sent iff the rules pass, and then as a POST to `/auth/login` with exactly the two fields; otherwise blocked with the rule errors |
| `AuthForm.SubmitRegister` | frontend/src/features/login/login.tsx:61-63 | Once the browser fires `submit`: sent iff the rules pass, and then as a POST to `/auth/register` with the three fields (the browser's own e-mail check is under Left out) |
| `AuthForm.OnLoginReply` | frontend/src/features/login/login.tsx:41-58 | Success stores the token and user and goes to `/home`; failure shows the classified server message, or the fallback at the root |
| `AuthForm.OnRegisterReply` | frontend/src/features/login/login.tsx:61-82 | Success stores nothing, switches to login mode and resets the register fields; failure keeps the form and shows the classified message |
| `AuthForm.ShowRegister` | frontend/src/features/login/login.tsx:136-139 | The "Register" link switches to register mode and empties the login fields, keeping the register fields |
| `AuthForm.ShowLogin` | frontend/src/features/login/login.tsx:212-215 | The "Login" link switches to login mode and empties the register fields, keeping the login fields |
| `AuthForm.ModeRoundTripResets` | frontend/src/features/login/login.tsx:21-37 | Following both links, in either order, empties both forms; login then register, or register then login, gives the page as first rendered up to the mode |
| `AuthForm.LoginSuccessOpensSession` | frontend/src/features/login/login.tsx:44-46 | After a successful login there is a session, the token is stored and no other key changed |
| `RegisterForm.UsernameError` | frontend/src/features/register/register.tsx:32-36 | Blank (white space only) is "required"; otherwise fewer than 3 UTF-16 code units, untrimmed, is "too short" |
| `RegisterForm.EmailError` | frontend/src/features/register/register.tsx:39-44 | No message iff in the pattern's language; blank is "required"; otherwise "invalid" |
| `RegisterForm.PasswordError` | frontend/src/features/register/register.tsx:47-51 | Empty is "Password is required"; under 6 code units is "Password must be at least 6 characters"; no message iff at least 6 |
| `RegisterForm.ConfirmError` | frontend/src/features/register/register.tsx:54-58 | Empty is "Please confirm your password"; different from the password is "Passwords do not match"; no message iff non-empty and equal |
| `RegisterForm.ValidateForm` | frontend/src/features/register/register.tsx:28-62 | An input has a message iff its check fails, and the message is that check's; no message is empty |
| `RegisterForm.UsernameFlagged` | frontend/src/features/register/register.tsx:32-36 | The username is flagged iff it is blank or shorter than 3 UTF-16 code units |
| `RegisterForm.EmailFlagged` | frontend/src/features/register/register.tsx:39-44 | The e-mail is flagged iff it is outside the pattern's language |
| `RegisterForm.PasswordFlagged` | frontend/src/features/register/register.tsx:47-51 | The password is flagged iff it is shorter than 6 UTF-16 code units (untrimmed) |
| `RegisterForm.ConfirmFlagged` | frontend/src/features/register/register.tsx:54-58 | The confirmation is flagged iff it is empty or differs from the password |
| `RegisterForm.VerdictNonEmpty` | frontend/src/features/register/register.tsx:28-58 | Every message the checks produce is non-empty |
| `RegisterForm.PatternIsNotBlank` | frontend/src/features/register/register.tsx:40-43 | A string in the e-mail language is never blank |
| `RegisterForm.CleanExactlyWhenNothingFlagged` | frontend/src/features/register/register.tsx:60-61 | The form is valid iff none of the four inputs is flagged |
| `RegisterForm.ValidExactly` | frontend/src/features/register/register.tsx:28-62 | The form is valid iff the username is non-blank with ≥3 code units, the e-mail matches, the password has ≥6 and the confirmation equals it |
| `RegisterForm.WhiteSpaceUsernames` | frontend/src/features/register/register.tsx:32-36 | Three spaces are "required", although long enough; two spaces and a letter pass |
| `RegisterForm.AstralLengths` | frontend/src/features/register/register.tsx:34-49 | Three emoji outside the Basic Multilingual Plane pass the password check, and one emoji and a letter pass the username check |
| `RegisterForm.HandleChange` | frontend/src/features/register/register.tsx:64-78 | Only the named input changes; only its shown message is cleared; other inputs, messages and the banner stay |
| `RegisterForm.MessagesStayShown` | frontend/src/features/register/register.tsx:64-78 | The first render and every message are non-empty where shown, so an edit always removes its input's message |
| `RegisterForm.EditKeepsOtherVerdicts` | frontend/src/features/register/register.tsx:28-58 | Editing one input does not change another input's verdict, except that the password affects the confirmation |
| `RegisterForm.HandleSubmit` | frontend/src/features/register/register.tsx:80-95 | Once the browser fires `submit`: the banner is cleared and the messages recomputed; a request is sent iff there are none, with username, e-mail and password and never the confirmation (the browser's own e-mail check is under Left out) |
| `RegisterForm.OnReply` | frontend/src/features/register/register.tsx:91-107 | Success stores the token and `{username}` and goes to `/home`; failure stores nothing and shows the server message or the fallback in the banner |
| `RegisterForm.RegisterSuccessOpensSession` | frontend/src/features/register/register.tsx:98-104 | After success there is a session, `/home` renders, and the stored user parses to the typed username |
| `RegisterForm.SignInLinkReachesLogin` | frontend/src/features/register/register.tsx:187-189 | In-app, `/login` redirects to `/`, which shows the login page when there is no session, whatever the last load saw; one redirect in all |
| `Homepage.Load` | frontend/src/features/home/homepage.tsx:36-49 | The list is the body's `users`, or empty when the body has none; a rejection gives an empty list and the error text |
| `Homepage.LoadShowsFilterEffect` | frontend/src/features/home/homepage.tsx:40 | The list shown on load equals the filter effect for the initial empty search and `All` |
| `Homepage.NothingSelectedShowsAll` | frontend/src/features/home/homepage.tsx:64-74 | `All` with a blank search shows the whole list |
| `Homepage.ByCategory` | frontend/src/features/home/homepage.tsx:67-71 | Keeps exactly the users whose non-empty role equals the category ignoring case |
| `Homepage.ByTerm` | frontend/src/features/home/homepage.tsx:74-81 | Keeps exactly the users whose lower-cased username, role or company contains the term |
| `Homepage.Visible` | frontend/src/features/home/homepage.tsx:63-84 | A user is shown iff it passes both the category test and the search test |
| `Homepage.KeptIsSubsequence` | frontend/src/features/home/homepage.tsx:63-83 | The shown list is an order-preserving subsequence of the fetched list |
| `Homepage.AllCategory` | frontend/src/features/home/homepage.tsx:67 | The category test for `All` keeps everyone |
| `Homepage.KeptIsPipeline` | frontend/src/features/home/homepage.tsx:63-84 | The one-pass reference filter equals category-then-search filtering |
| `Homepage.VisibleIsKept` | frontend/src/features/home/homepage.tsx:63-84 | The page's list is the reference filter, in order |
| `Homepage.FilterOrderIrrelevant` | frontend/src/features/home/homepage.tsx:64-83 | Filtering by search first and category second shows the same list |
| `Homepage.ByTermByCategory` | frontend/src/features/home/homepage.tsx:67-81 | The two filters commute |
| `Homepage.ByTermAppend` | frontend/src/features/home/homepage.tsx:76-80 | The search filter distributes over concatenation |
| `Homepage.ByCategoryAppend` | frontend/src/features/home/homepage.tsx:68-70 | The category filter distributes over concatenation |
| `Homepage.CategoryIgnoresCase` | frontend/src/features/home/homepage.tsx:67-71 | A role-less user is never in a category; a role equal up to case is |
| `Homepage.LeadingDigits` | frontend/src/features/home/homepage.tsx:158 | The longest prefix of digits |
| `Homepage.LeadingDigitsOf` | frontend/src/features/home/homepage.tsx:158 | A numeral followed by a non-digit is read off exactly |
| `Homepage.ResultLabel` | frontend/src/features/home/homepage.tsx:158 | The line starts with the count's numeral, and the rest is " result found" for one and " results found" otherwise |
| `Homepage.ResultLabelNamesCount` | frontend/src/features/home/homepage.tsx:158 | The count line's numeral is the count, and it reads "1 result found" iff the count is one |
| `Homepage.ResultLabelInjective` | frontend/src/features/home/homepage.tsx:158 | Different counts give different count lines |
| `Homepage.CurrentUserName` | frontend/src/features/home/homepage.tsx:52-60 | No session gives `''`; a non-empty name is the parsed `currentuser.username`, and a parsed non-empty `username` is always the name |
| `Homepage.Greeting` | frontend/src/features/home/homepage.tsx:102 | The header never shows an empty name, and shows the current user's name when there is one |
| `Homepage.GreetsStoredUser` | frontend/src/features/home/homepage.tsx:52-60 | After a sign-in the header greets the stored username, or "User" |
| `Homepage.HomeLogout` | frontend/src/features/home/homepage.tsx:114-117 | Removes only `currentuser`, keeping the token and every other key, and goes to `/` |
| `Homepage.HomeLogoutEndsSession` | frontend/src/features/home/homepage.tsx:114-117 | Afterwards `/` shows the login page and both signed-in pages redirect there, while the token remains |
| `Profile.WordStarts` | frontend/src/features/profile/profile.tsx:41 | The reference initials are no longer than the name and contain no space |
| `Profile.WordStartsSplit` | frontend/src/features/profile/profile.tsx:41 | The character scan agrees with taking the first character of each `split(' ')` piece |
| `Profile.Initials` | frontend/src/features/profile/profile.tsx:41 | The avatar equals the reference scan: the first character of each space-separated word, in order, with empty pieces adding nothing; no spaces, no longer than the name (a character, where the source takes a code unit) |
| `Profile.WordStartsAppend` | frontend/src/features/profile/profile.tsx:41 | Initials of a concatenation are the initials of its parts |
| `Profile.OneWord` | frontend/src/features/profile/profile.tsx:41 | A word without spaces contributes exactly its first letter |
| `Profile.TwoWords` | frontend/src/features/profile/profile.tsx:41 | Two words separated by one space give their two first letters |
| `Profile.ProfileInitials` | frontend/src/features/profile/profile.tsx:10-41 | The fixed profile "Samik Bhandari" shows "SB" |
| `Profile.ProfileWordStarts` | frontend/src/features/profile/profile.tsx:10 | The reference initials of the fixed name are "SB" |
| `Profile.ProfileLogout` | frontend/src/features/profile/profile.tsx:17-21 | Removes both the token and `currentuser` and nothing else, then goes to `/` |
| `Profile.ProfileLogoutEndsSession` | frontend/src/features/profile/profile.tsx:17-21 | Afterwards there is no session, and `navigate('/')` shows the login page at once; from the next load on, `/home` and `/profile` end there too |
| `Profile.ProfileLogoutLeavesPagesUntilReload` | frontend/src/features/profile/profile.tsx:17-21 | Until the next load, in-app navigation to `/home` or `/profile` still renders them after the logout |
| `Profile.BackReachesDirectory` | frontend/src/features/profile/profile.tsx:23-35 | The back and close target `/home` renders the directory in-app whenever the last load saw a session, as does `/profile` |
| `EndToEnd.ToReply` | frontend/src/features/login/login.tsx:43-48 | axios resolves on any 2xx status whatever the body; since every 2xx controller answer carries a token (`ResponsesAreWellFormed`), the model resolves exactly for 2xx token answers, and a rejection carries the server's message |
| `EndToEnd.ResponsesAreWellFormed` | backend/controllers/auth.controller.js:6-70 | Both handlers answer 2xx exactly with a token, and otherwise with a non-empty message |
| `EndToEnd.NotFoundText` | backend/controllers/auth.controller.js:45 | The lower-cased "User not found" matches `/user not found/` |
| `EndToEnd.InvalidText` | backend/controllers/auth.controller.js:50 | The lower-cased "Invalid credentials" matches only the second login pattern |
| `EndToEnd.LoginFailedText` | backend/controllers/auth.controller.js:68 | The lower-cased "Login failed" matches neither login pattern |
| `EndToEnd.DuplicateText` | backend/controllers/auth.controller.js:11 | The lower-cased "Username already exists" matches `username.*exists` and not `email.*exists` |
| `EndToEnd.RegistrationFailedText` | backend/controllers/auth.controller.js:35 | The lower-cased "Registration failed" matches none of the three register patterns |
| `EndToEnd.UnknownUserShownAtUsername` | frontend/src/features/login/login.tsx:50-51 | An unknown username ends as the username-field error "User not found" |
| `EndToEnd.WrongPasswordShownAtPassword` | frontend/src/features/login/login.tsx:52-53 | A wrong password ends as the password-field error "Invalid credentials" |
| `EndToEnd.LoginFailureShownAtRoot` | frontend/src/features/login/login.tsx:54-55 | A failed lookup during login ends as the root error "Login failed" |
| `EndToEnd.LoginOpensHome` | frontend/src/features/login/login.tsx:43-46 | An accepted login renders the home page, greeting the record's username or "User" |
| `EndToEnd.DuplicateShownAtUsername` | frontend/src/features/login/login.tsx:74-75 | The backend's duplicate answer ends as the username-field error |
| `EndToEnd.RegistrationFailureShownAtRoot` | frontend/src/features/login/login.tsx:78-79 | The backend's 500 during registration ends as the root error "Registration failed" |
| `EndToEnd.DuplicateShownInBanner` | frontend/src/features/register/register.tsx:105-107 | On the stand-alone page the duplicate answer shows in the banner and stores nothing |
| `EndToEnd.RegisterPageOpensHome` | frontend/src/features/register/register.tsx:91-104 | An accepted registration from a valid form renders the home page, greeting the typed username |

## Left out

- bcrypt is a pair of uninterpreted functions. Its one law, that a password matches its own digest, is assumed only where `AuthController.RegisterThenLogin` needs it. Salting, the cost factor and constant-time comparison are not modelled.
- A jsonwebtoken token is reduced to its `id` claim and its `"1h"` lifetime. Signature, issue time and expiry arithmetic are not modelled. Token verification is not modelled because none of the modelled code verifies a token.
- Mongoose persistence, Express wiring, CORS and dotenv are not modelled. Whether an awaited call rejects is a parameter (`Env.failing`).
- A request body missing `username`, `password` or `email` (`undefined` in JavaScript) is not modelled: the request bodies hold strings.
- The check-then-insert race between concurrent registrations is not modelled. Requests are served one at a time.
- The user-list controller, the profile-picture controller and the image uploader are not modelled. They have no sign-in behaviour; the uploader and the picture controller are foreign-service calls.
- The home page always calls `getUserListApi()` without parameters and filters in the browser. The URL builder is modelled on its own, but nothing connects it to the home page.
- The fixed twelve-user list that the user controller returns is not modelled; the filter is proved for every list.
- React rendering, CSS, `alert`, the loading flags, the dropdown and the axios instance with its base URL are not modelled. Navigations are returned as target paths and errors as field-to-message maps.
- Routing compares paths exactly. react-router's case-insensitive and trailing-slash matching is not modelled.
- JavaScript's `toLowerCase` and `\s` are narrowed to ASCII letters and the six ASCII white-space characters.
- `JSON.stringify`/`JSON.parse` are uninterpreted, with the law that stringify never gives `""` and parse gives back the `username`. A stored `username` that is a non-string value is not modelled.
- `URLSearchParams` percent-encoding (section 5.2 of the WHATWG URL Standard, the application/x-www-form-urlencoded serializer) is an uninterpreted `encode` function.
- Api.Serialize: only states that a non-empty list gives a query containing `=`. The exact byte layout of `name=value&…` is left to the body, because `encode` is uninterpreted.
- `handleChange` sets the edited input's message to `undefined`, keeping the key. The model removes the key. No message is displayed either way.
- JavaScript strings may hold unpaired surrogates; Dafny characters are Unicode scalar values, so such strings are not modelled. Every other string has its `length` counted exactly (`Text.Utf16Length`).
- AuthForm.SubmitRegister: the e-mail input is `type="email"` in a form without `noValidate` (login.tsx:146, 174), so the browser strips leading and trailing white space from the value and refuses to fire `submit` for a value that is not a valid e-mail address in the HTML sense. That browser step is not modelled: the model sends `a@b..c`, which the pattern accepts and the browser blocks, and refuses ` a@b.c`, which the browser would hand over as `a@b.c`.
- RegisterForm.HandleSubmit: the same browser step on the `type="email"` input of register.tsx:116, 142 is not modelled, with the same two consequences.
- Profile.Initials: `n[0]` takes the first UTF-16 code unit, so a word starting with a character at or above U+10000 contributes a lone high surrogate. Dafny characters cannot hold a lone surrogate, so the model takes the whole character there. The one name the page passes, "Samik Bhandari", is ASCII.
- In-app staleness of `/home` and `/profile` is modelled for the profile's logout, the only storage change not followed by a reload; the other sign-in and sign-out paths set `window.location.href`, which reloads.
