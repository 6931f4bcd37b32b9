# TradingSignal admin panel — a Dafny model of its decision logic

This project models three parts of the TradingSignal admin panel in Dafny. Each part is written as immutable data and pure transition functions, and the properties are proved about them.

1. **Server authentication** (`Schema`, `Storage`, `Routes`).
   - The `auth_users` table is a sequence of rows together with its `id` serial. The table's constraints form the invariant `Storage.Valid`: unique ids, usernames and e-mails, and ids drawn from the serial.
   - The session is the optional `userId`.
   - `/api/register`, `/api/login`, `/api/logout` and `/api/me` are functions from the table, the session and a request to a new table, a new session and a response. The response has a status and a JSON payload; a user in a payload never carries a password.
   - Password hashing is a pair of functions passed in as a parameter (`Storage.Crypto`). The library's promise that a password matches its own digest is the hypothesis `Storage.HashVerifies`. The e-mail syntax check is a parameter too (`Validation.EmailSyntax`).
2. **The signals table** (`SignalsTable`).
   - The filter, sort and paginate pipeline that each render computes.
   - The table's control state: filter box, sortable headers, previous, page and next links.
3. **Client-side list updates.**
   - `TradingSignals`: add, delete, activate, close, and the CSV export text.
   - `FeatureToggles`: the global and per-user toggles.
   - `HistoricalData`: adding a symbol, the script's running flag and log, the tab, and the expanded row.
   - `UserProfile`: the profile schema's rules and the avatar initials.

Support modules:
- `Wrappers` holds `Option` and `Result`.
- `Strings` holds the JavaScript string operations the code uses: `toLowerCase`/`toUpperCase`, `includes`, `trim`, `split`/`join`, `String(n)` and string `>`.
- `Lists` holds `filter`.
- `Validation` holds the validation issue type.

Behaviours of the code worth noting:
- **Registration input.** It is the schema generated from the table: three required strings. An empty username, an empty password and a malformed e-mail are all accepted. Only login checks e-mail syntax and a non-empty password.
- **`/api/me` with a missing row.** When the session's id names no row, it answers 404 "User not found", not 401. In reachable states this never happens (`Routes.ReachableNeverNotFound`).
- **Falsy session id.** `/api/me` treats a session id of 0 as signed out, because it tests `!userId`.
- **Serial on failed inserts.** A failed insert still uses up a serial value. The model checks the constraints in the order primary key, username, e-mail. That order is a modelling choice: the database's order depends on how its indexes were created, which the code does not fix, and it only matters on a table that already breaks its constraints. The route checks e-mail and then username before inserting, so on a valid table only a fresh row ever reaches the insert (`Routes.RegisterFailureCauses`).
- **Generated ids.** The ids of new signals and symbols are `String(length + 1)`, as written. After a delete this repeats an id (`TradingSignals.AddAfterDeleteRepeatsId`). The symbol list has no delete, so there ids stay positional (`HistoricalData.AddSymbolKeepsIdsDistinct`).
- **Non-null columns.** Every row having a username, e-mail and password holds by typing: the fields are `string`, never null.

## Model

| member | source | states |
|---|---|---|
| Schema.StringField | shared/schema.ts:12-14 | a required text column accepts exactly a JSON string; a missing key or another type gives an issue on that field |
| Schema.ParseInsertAuthUser | shared/schema.ts:19-22 | registration input parses exactly when username, e-mail and password are all strings; the parsed record holds those three values; a failure carries at least one issue |
| Schema.ParsersIgnoreOtherKeys | shared/schema.ts:19-22 | `id`, `createdAt` and any other extra key have no effect on the registration or the login parse |
| Schema.ParseLogin | shared/schema.ts:25-28 | login input is accepted exactly when the e-mail is a string that passes the e-mail check and the password is a string of length at least 1 |
| Storage.FindFirst | server/storage.ts:18-19 | the first-row lookup returns a row of the table that satisfies the condition, and returns nothing exactly when no row does |
| Storage.GetUser | server/storage.ts:17-20 | returns a row with the given id, or nothing exactly when no row has that id |
| Storage.GetUserByEmail | server/storage.ts:22-25 | returns a row with the given e-mail, or nothing exactly when no row has that e-mail |
| Storage.GetUserByUsername | server/storage.ts:27-30 | returns a row with the given username, or nothing exactly when no row has that username |
| Storage.LookupsExact | shared/schema.ts:11-13 | on a table with unique id, username and e-mail, each lookup by a row's key returns that very row |
| Storage.CreateUser | server/storage.ts:32-43 | the serial always advances; the insert succeeds exactly when id, username and e-mail are all free; a success appends one row with the next id, the input's username and e-mail, the value `hash(password, salt)` in the password column and the creation time, and returns it; a failure leaves the rows alone |
| Storage.AppendKeepsValid | shared/schema.ts:10-16 | appending a row with the next serial id and a username and e-mail no row has keeps the table's constraints, with the serial advanced |
| Storage.CreateUserKeepsValid | shared/schema.ts:10-16 | an insert on a table that keeps its constraints (unique id, username and e-mail, ids from the serial) leaves a table that keeps them |
| Storage.SerialNeverCollides | shared/schema.ts:11 | on a valid table the serial id is always fresh, so an insert fails exactly when the username or the e-mail is taken |
| Storage.VerifyPassword | server/storage.ts:45-47 | under the hashing library's promise, a password verifies against any digest made from it |
| Storage.CreatedPasswordVerifies | server/storage.ts:32-47 | the password a user was created with verifies against the digest stored in the new row |
| Routes.Register | server/routes.ts:22-53 | the session is untouched; the status is 200 or 400; rows are only appended, at most one; 200 exactly when a row was added; the table's constraints are preserved |
| Routes.RegisterRejectsInvalidBody | server/routes.ts:47-52 | a body without three string fields gets 400 with at least one validation issue, and nothing changes |
| Routes.RegisterConflicts | server/routes.ts:27-35 | a taken e-mail gets 400 "Email already registered", whether or not the username is taken too; a free e-mail with a taken username gets 400 "Username already taken"; either way nothing changes |
| Routes.RegisterSuccess | server/routes.ts:37-46 | fresh credentials on a valid table append exactly one row (next id, digest, time) and reply 200 "Registration successful" with that user minus the password |
| Routes.RegisterFailureCauses | server/routes.ts:47-52 | on a valid table every 400 changes nothing and names invalid input, a taken e-mail or a taken username; the database's own error never reaches the client |
| Routes.Login | server/routes.ts:55-91 | the table is never changed; the status is 200, 400 or 401; 400 exactly when the body fails the login schema, and then with its issues and no change; on anything but 200 the session is untouched; a 200 leaves the session naming an existing row |
| Routes.LoginFailuresIndistinguishable | server/routes.ts:61-73 | with valid input, 401 comes exactly when the e-mail is unknown or the password does not verify, and both cases give the identical response |
| Routes.UnusableCredentials | server/routes.ts:58-90 | a malformed e-mail or an empty password, both of which registration accepts, gets 400 at login whatever the table holds, so such an account can never sign in |
| Routes.LoginSuccess | server/routes.ts:75-84 | a 200 means the input parsed, the e-mail's row exists and the password verified; the session then holds that row's id and the reply carries the row minus its password |
| Routes.Logout | server/routes.ts:94-101 | a session-store error gives 500 and keeps the session; otherwise the session is gone and the reply is 200 "Logout successful"; the table is untouched |
| Routes.Me | server/routes.ts:104-121 | nothing changes; 401 exactly without a truthy user id; 404 exactly when the id names no row; 200 exactly when it does, and then the payload is that stored row without its password |
| Routes.LogoutThenMe | server/routes.ts:94-108 | after a successful logout the current-user request gets 401 "Not authenticated" |
| Routes.Handle | server/routes.ts:22-121 | every request appends at most one row and changes no existing row |
| Routes.HandleKeepsConsistent | server/routes.ts:76-114 | every request keeps the table valid and the session naming an existing row |
| Routes.ReachableNeverNotFound | server/routes.ts:111-114 | after any sequence of requests from a consistent state, the current-user request never answers 404 |
| Routes.LoginAsRow | server/routes.ts:58-84 | a row whose digest was made from a password logs in with its e-mail and that password, and the current user is then that row |
| Routes.RegisterThenLogin | server/routes.ts:22-84 | after a successful registration, logging in with the same valid e-mail and non-empty password succeeds and signs in the new row |
| Routes.SignUpFlow | server/routes.ts:22-121 | on the empty table: register gives 200 with user id 1, login gives 200, the current user is that row, logout gives 200, and the current user is then 401 |
| Strings.ContainsIffOccurs | client/src/components/SignalsTable.tsx:65 | `includes` holds exactly when the text occurs at some index |
| Strings.TrimEmptyIffBlank | client/src/pages/HistoricalData.tsx:116 | `trim()` gives the empty string exactly when every character is whitespace |
| Strings.ParseNatToString | client/src/pages/TradingSignals.tsx:61 | `String(n)` reads back as n |
| SignalsTable.KeyOf | client/src/components/SignalsTable.tsx:69-70 | the sort key is numeric exactly for entry price, quantity and amount |
| SignalsTable.Comparator | client/src/components/SignalsTable.tsx:68-73 | the comparator answers 1 or -1; a negative answer puts the first row where the chosen order allows it first, a positive answer puts the second row first |
| SignalsTable.ComparatorOnKeys | client/src/components/SignalsTable.tsx:68-73 | the comparator never answers 0; on distinct keys it is antisymmetric and negative exactly when the first row goes first; on equal keys it answers the same both ways |
| SignalsTable.PrecedesTransitive | client/src/components/SignalsTable.tsx:68-73 | the column order in either direction is transitive |
| SignalsTable.SortSignals | client/src/components/SignalsTable.tsx:68-73 | the sorted list is a permutation of the filtered list, ordered on the chosen column in the chosen direction |
| SignalsTable.FilterSignals | client/src/components/SignalsTable.tsx:64-66 | the filter never lengthens the list; every kept signal is one of the signals and matches; every matching signal is kept |
| SignalsTable.FilterSignalsExact | client/src/components/SignalsTable.tsx:64-66 | a signal is kept exactly when it is in the list and its lowercased symbol contains the lowercased filter text, with every copy kept |
| SignalsTable.FilterSignalsOrder | client/src/components/SignalsTable.tsx:64-66 | the filter keeps the original order: it distributes over concatenation |
| SignalsTable.EmptyFilterKeepsAll | client/src/components/SignalsTable.tsx:64-66 | an empty filter keeps every signal |
| SignalsTable.TotalPages | client/src/components/SignalsTable.tsx:75 | the page count is the least number of 10-row pages that hold all rows, and 0 exactly for no rows |
| SignalsTable.ClampPage | client/src/components/SignalsTable.tsx:76 | the shown page lies in 1 to max(1, totalPages); it is the requested page when that exists and the last page otherwise |
| SignalsTable.PageItems | client/src/components/SignalsTable.tsx:77-79 | a page has at most 10 rows and is the slice from (page-1)*10 to min(page*10, n); beyond the end it is empty |
| SignalsTable.PagesPartition | client/src/components/SignalsTable.tsx:75-79 | pages 1 to totalPages laid end to end give back the sorted list |
| SignalsTable.RowOnExactlyOnePage | client/src/components/SignalsTable.tsx:75-79 | row i appears on page i/10+1, which exists, and on no other page |
| SignalsTable.Render | client/src/components/SignalsTable.tsx:64-79 | a render sorts a permutation of the filtered signals and counts the pages; the page shown is the requested page clamped onto the existing pages, and the rows shown are that page's slice of the sorted list, at most 10 |
| SignalsTable.RenderShowsOnlyMatches | client/src/components/SignalsTable.tsx:64-79 | every row shown is one of the signals and matches the filter |
| SignalsTable.HandleFilterChange | client/src/components/SignalsTable.tsx:50-53 | the filter text changes and the page resets to 1; the sort stays |
| SignalsTable.HandleSort | client/src/components/SignalsTable.tsx:55-62 | the current column flips direction; another column becomes current, ascending; filter and page stay |
| SignalsTable.SortTwiceRestores | client/src/components/SignalsTable.tsx:55-62 | two clicks on the current column restore the state; two clicks on a new column leave it descending |
| SignalsTable.PreviousPage | client/src/components/SignalsTable.tsx:222 | the previous link goes back one page but never below page 1 |
| SignalsTable.NextPage | client/src/components/SignalsTable.tsx:241 | the next link goes forward one page but never beyond the last page |
| SignalsTable.Step | client/src/components/SignalsTable.tsx:50-83 | typing is `handleFilterChange` and a header click is `handleSort`. With more than one page: previous is `max(1, p - 1)`, next is `min(totalPages, p + 1)`, and page link i sets page i; with at most one page these links do nothing. A render on a non-empty table moves the page to the clamped page. No event takes the page below 1, and only typing and header clicks touch the filter and the sort |
| SignalsTable.StepKeepsPageInRange | client/src/components/SignalsTable.tsx:217-245 | no event takes the page below 1; a next click and the render correction never pass the last page; typing a filter returns to page 1 |
| TradingSignals.AddSignal | client/src/pages/TradingSignals.tsx:59-70 | one pending signal with the form's values goes in front of the unchanged list; its id is the decimal numeral of length + 1, with no leading zeros, and reads back as that number |
| TradingSignals.DeleteSignal | client/src/pages/TradingSignals.tsx:76-79 | no survivor carries the id, every survivor was in the list, and every signal with another id survives |
| TradingSignals.DeleteKeepsOthers | client/src/pages/TradingSignals.tsx:76-79 | deletion keeps order and the count of each other signal, removes every copy carrying the id, and changes nothing when the id is absent |
| TradingSignals.ToggleStatus | client/src/pages/TradingSignals.tsx:81-86 | the length stays; matching signals become active or pending; only their status changes; other signals are unchanged |
| TradingSignals.CloseSignal | client/src/pages/TradingSignals.tsx:88-93 | the length stays; matching signals become closed; only their status changes; other signals are unchanged |
| TradingSignals.SetStatusLastWins | client/src/pages/TradingSignals.tsx:81-93 | two status updates of the same id amount to the second one |
| TradingSignals.ToggleIdempotent | client/src/pages/TradingSignals.tsx:81-86 | toggling twice the same way equals toggling once, and the last toggle wins |
| TradingSignals.CloseIdempotent | client/src/pages/TradingSignals.tsx:88-93 | closing twice equals closing once, and closing overrides an earlier toggle |
| TradingSignals.AddAfterDeleteRepeatsId | client/src/pages/TradingSignals.tsx:59-79 | deleting id "1" from two signals and then adding one leaves two signals with id "2" |
| TradingSignals.CsvTable | client/src/pages/TradingSignals.tsx:97-107 | the export has the six-column header and then one row per signal in list order |
| TradingSignals.CsvText | client/src/pages/TradingSignals.tsx:97-109 | fields are never quoted. When no symbol or date holds a newline, the text's lines are the header and then each signal's fields joined by commas, in list order; when none holds a comma either, each line splits back into its fields. A newline in any symbol or date gives the text more lines than signals plus header |
| TradingSignals.CommaInSymbolBreaksRow | client/src/pages/TradingSignals.tsx:97-109 | an unquoted comma in a symbol makes that signal's line split into more than the six columns |
| TradingSignals.NewlineAddsLines | client/src/pages/TradingSignals.tsx:97-109 | an unquoted newline in a symbol or date makes the export split into more lines than signals plus header |
| TradingSignals.TableLines | client/src/pages/TradingSignals.tsx:97-109 | when no field holds a newline, splitting the export on newlines gives back exactly its lines, commas included |
| TradingSignals.TableReadsBack | client/src/pages/TradingSignals.tsx:97-109 | for comma- and newline-free fields, the lines of the joined table are exactly its rows, each splitting back into its fields |
| FeatureToggles.HandleGlobalToggle | client/src/components/FeatureToggles.tsx:68-73 | only the features with the id get the new flag; length, order, ids, names and user permissions stay |
| FeatureToggles.HandleUserPermissionToggle | client/src/components/FeatureToggles.tsx:75-84 | the matching users get the feature set to the flag; their other keys, the other users and the global features stay |
| FeatureToggles.GlobalToggleLastWins | client/src/components/FeatureToggles.tsx:68-73 | two global toggles of one feature amount to the last one, so repeating a toggle changes nothing |
| FeatureToggles.PermissionToggleLastWins | client/src/components/FeatureToggles.tsx:75-84 | two permission toggles of one user and feature amount to the last one |
| FeatureToggles.TogglesCommute | client/src/components/FeatureToggles.tsx:68-84 | toggles of different features, or of different users, commute |
| HistoricalData.AddSymbol | client/src/pages/HistoricalData.tsx:115-129 | a blank input changes nothing; otherwise one pending record with the uppercased, untrimmed input, id `String(length + 1)` and no prices is appended after the unchanged list, and the input is cleared |
| HistoricalData.AddSymbolKeepsIdsDistinct | client/src/pages/HistoricalData.tsx:115-129 | adding keeps ids positional, so no two symbols share an id |
| HistoricalData.StartScript | client/src/pages/HistoricalData.tsx:80-82 | the script is running and the log is the two start lines; nothing else changes |
| HistoricalData.StopScript | client/src/pages/HistoricalData.tsx:105-107 | the script stops and "Script stopped by user" is appended to the unchanged log |
| HistoricalData.StartStopLog | client/src/pages/HistoricalData.tsx:80-107 | starting after a stop forgets the old log; stopping right after a start leaves exactly three log lines |
| HistoricalData.SelectTab | client/src/pages/HistoricalData.tsx:293 | only the active tab changes |
| HistoricalData.GetCmpValue | client/src/pages/HistoricalData.tsx:351-355 | the 7-day price on "7d", the 30-day price on "30d", the 5-minute price on any other tab |
| HistoricalData.ToggleExpanded | client/src/pages/HistoricalData.tsx:373-376 | an expanded row collapses, any other row becomes the only expanded one; nothing else changes |
| HistoricalData.AtMostOneExpanded | client/src/pages/HistoricalData.tsx:373-376 | with the positional ids the list keeps, two listed rows that are both shown expanded are the same row |
| HistoricalData.ToggleTwice | client/src/pages/HistoricalData.tsx:373-376 | from a closed table or with the row open, clicking a row twice restores the state; after opening one row, clicking another leaves only that one open; clicking a row twice while another is open closes all |
| UserProfile.ProfileIssues | client/src/pages/UserProfile.tsx:22-38 | no issue exactly when the name has at least 2 characters, the e-mail passes and the passwords agree; each issue is reported exactly when its rule fails, the mismatch on `confirmPassword` |
| UserProfile.PasswordRule | client/src/pages/UserProfile.tsx:30-34 | the refinement passes exactly when both password fields are empty or absent, or they are equal; once either is filled in, both hold the same non-empty text |
| UserProfile.Initials | client/src/pages/UserProfile.tsx:70-76 | `getInitials` equals the part-by-part reading: the uppercased first character of each non-empty space-separated part, in order |
| UserProfile.InitialsSpec | client/src/pages/UserProfile.tsx:70-76 | the initials are the uppercased first characters of the non-empty space-separated parts, in order, so there are no more of them than parts |
| UserProfile.AdminUserInitials | client/src/pages/UserProfile.tsx:70-76 | the default name "Admin User" gives "AU" |

## Left out

- Session middleware (server/routes.ts:9-19): the secret, cookie flags and 24-hour expiry are library configuration. The session is only the optional user id, and the session of a single client is modelled.
- `/api/me`'s 500 branch (server/routes.ts:118-120): the lookup here cannot throw. Database failures other than unique-constraint violations are not modelled.
- Concurrency: two registrations racing between the lookups and the insert are not modelled. Such a race is what could let a constraint message reach the client.
- The password-hashing library: its salt, cost factor and constant-time comparison are outside the model. It appears only as the `Crypto` parameter and the `HashVerifies` hypothesis.
- The e-mail syntax check: its pattern is a parameter.
- Validation messages: the text of the validation library's serialised error message is represented by the list of issues.
- Logging and toasts: `console.log`, the toasts, `handleSkipSymbol` and `handleCSVImport` (client/src/pages/HistoricalData.tsx:137-155) only log or show a toast, so they have no state to model.
- The log lines that `handleStartScript` adds on timers (client/src/pages/HistoricalData.tsx:89-102): they are timer effects.
- Blob and download wiring: the blob and download link of the CSV export are browser I/O. The date formatting `toLocaleDateString` is a parameter.
- `/api/trade-signals`, `getTradeSignals` and the trade-signals table: plain database I/O with no logic.
- Numbers: prices, quantities, amounts and closing prices are integers. The floating-point parsing and `toFixed` formatting are not modelled, and neither is `SignalForm`'s arithmetic.
- Strings: strings are sequences of Unicode code points, not of UTF-16 code units, and case mapping covers ASCII letters only. So the model and the code differ in two ways. On non-ASCII letters the case mapping differs: the code lowercases "É" to "é", so the filter "é" matches the symbol "ÉTH", and it uppercases "é" to "É" and "ß" to "SS". The model leaves those letters alone, which also changes what `handleAddSymbol` stores and its length. On text outside the Basic Multilingual Plane, lengths, indexing and comparison differ: the code counts and compares UTF-16 units, the model code points.
- UserProfile.ProfileIssues: the name rule counts code points, while the schema library's minimum length counts UTF-16 units. So a name of one character outside the Basic Multilingual Plane (an emoji) gets the name issue here, but passes in the code.
- UserProfile.InitialsSpec: `n[0]` takes the first UTF-16 unit of a part, while the model takes its first code point. So for a part that starts outside the Basic Multilingual Plane, the code yields a lone surrogate where the model yields the whole character. The same holds for `UserProfile.Initials`.
- SignalsTable.SortSignals: the contract promises a permutation in key order, not the order among equal keys. The comparator never answers 0, so that order depends on the engine's sort algorithm.
- Rendering: markup, badges, colours and routing are presentation.
