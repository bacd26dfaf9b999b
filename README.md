# smol-profile-card: cache-aside GitHub user lookup, in Dafny

This project models the core of smol-profile-card, a server that draws a profile card for a GitHub user.
The core is a **cache-aside, rate-limit-gated lookup** of GitHub users:

- `GithubUserService::get_by_username` serves a stored row while `now < expiration`. Otherwise it refreshes through `update_user`.
- `update_user` checks two gates against three shared counters, in order: first the `retry_after` deadline, then `remaining`/`reset`.
- It then sends one upstream request. It overwrites all three counters from the response headers, whatever the status.
- On success it upserts the mapped user into the `GitHubUser` table.

Beneath it sits the repository: reads by user name and by id, and `insert`, `update` and `upsert`.
Beside it are a few pure helpers:

- the pronoun-tag table;
- the mapping between the API record and the stored row;
- the string validators;
- the query check `GithubUserViewModel::is_valid`.

Layout, one module per source file:

| file | module | models |
|---|---|---|
| `entities.dfy`, `models.dfy` | `Entities`, `Models` | the stored row (with its `expiration` column) and the API record |
| `github_user_mapper.dfy` | `GithubUserMapper` | `to_entity`, `to_model` |
| `validators.dfy` | `Validators` | the three validators |
| `image_controller.dfy` | `ImageController` | `GithubUserViewModel::is_valid` |
| `pronouns_mapper.dfy` | `PronounsMapping` | `PronounsMapper::new`, `to_pronouns_tag` |
| `github_user_repository.dfy` | `Repositories` | the table as a class over `rows: seq<GithubUser>` |
| `github_user_service.dfy` | `Services` | header parsing, the gates, the refresh and the lookup |
| `wrappers.dfy`, `numeric.dfy` | `Wrappers`, `Numeric` | `Option`/`Result`; `i32`/`i64`/`u8` ranges |

The state the source changes in place lives in classes:

- `GitHubUserRepository.rows` is the table.
- `GithubUserService.remaining`, `reset` and `retryAfter` are the three counters.

Each state-changing method is proved equal to a pure function of the old state. The pure functions are `InsertRows`, `UpdateRows`, `UpsertRows`, `Refresh` and `Lookup`. The lemmas state the promised properties about those functions.

The method inputs below stand in for parts of the system that are not modelled:

- `now` replaces the clock.
- `response` is the upstream answer: success flag, header map and decoded user.
- `expiration` is the new row's expiry, whose computation is not shown in the source.
- `faults` says whether each SQL statement fails inside the database engine.

A ghost log `requests` records every request sent upstream. It is how the contracts say that no request was made.

In these places the model follows the code:

- **Failed upsert.** The code returns `Err("Failed to upsert user!")` when the upsert after a successful fetch fails (src/services/github_user_service.rs:110-113). It does not serve the fetched user anyway.
- **User-name matching.** Names are compared exactly. The collation that would make them case-insensitive belongs to a schema the source does not contain.
- **Counter values.** The counters hold whatever the headers say, negative values included. Nothing keeps `remaining >= 0`.

## Model

| member | source | states |
|---|---|---|
| `GithubUserMapper.ToEntity` | src/mappers/github_user_mapper.rs:4-13 | `login` becomes `username`; `id`, `name`, `location`, `avatar_url` are copied; the expiry is the one supplied |
| `GithubUserMapper.ToModel` | src/mappers/github_user_mapper.rs:15-24 | `username` becomes `login`; the other four fields are copied |
| `GithubUserMapper.ModelRoundTrip` | src/mappers/github_user_mapper.rs:4-24 | `to_model(to_entity(m)) == m` |
| `GithubUserMapper.EntityRoundTrip` | src/mappers/github_user_mapper.rs:4-24 | `to_entity(to_model(e))` with `e`'s own expiry gives `e` back |
| `Validators.IsStrValidLength` | src/validators.rs:2-10 | true iff `min <= len <= max`, with `len` the UTF-8 byte length |
| `Validators.CrossedBoundsRejectAll` | src/validators.rs:3-9 | with `min > max`, no string passes |
| `Validators.ValidLengthBoundsChars` | src/validators.rs:2-10 | a string of valid length has at most `max` characters |
| `Validators.IsStrValidPattern` | src/validators.rs:12-21 | the nested loops answer true iff no character of `value` occurs in `blacklist` |
| `Validators.EmptyIsPatternFree` | src/validators.rs:13-20 | an empty value or an empty blacklist passes |
| `Validators.PatternFreeSlices` | src/validators.rs:12-21 | every prefix and suffix of a passing value passes |
| `Validators.IsStrAlphanumeric` | src/validators.rs:23-25 | true iff every character is alphanumeric; true for the empty string |
| `ImageController.IsValid` | src/controllers/image.rs:23-34 | validity implies a user of at most 39 bytes that is delimiter-free, and delimiter-free pronouns when present |
| `ImageController.IsValidIsConjunction` | src/controllers/image.rs:25-33 | validity is exactly: byte length at most 39, and user delimiter-free, and pronouns (if any) delimiter-free |
| `ImageController.ValidUserHasAtMost39Chars` | src/controllers/image.rs:24-25 | a valid query's user has at most 39 characters |
| `ImageController.AsciiUserLengthIsCharCount` | src/controllers/image.rs:24-25 | for an ASCII user name the byte-length check passes exactly when the name has at most 39 characters |
| `ImageController.EmptyUserPassesLength` | src/controllers/image.rs:25 | the minimum is 0, so the empty user passes the length check |
| `ImageController.NoPronounsNoConstraint` | src/controllers/image.rs:28-31 | without pronouns, validity is the user check alone |
| `PronounsMapping.WordLists` | src/mappers/pronouns_mapper.rs:10-34 | no word of either list contains `-`, and neither list repeats a word |
| `PronounsMapping.KeyInjective` | src/mappers/pronouns_mapper.rs:40-43 | for dash-free words, distinct pairs give distinct `s-o` keys |
| `PronounsMapping.KeyShape` | src/mappers/pronouns_mapper.rs:40-43 | a key holds exactly one `-`, and replacing it by `/` gives the tag `s/o` |
| `PronounsMapping.PronounsMapper.constructor` | src/mappers/pronouns_mapper.rs:9-48 | the nested loops build exactly the table of all 110 pair insertions |
| `PronounsMapping.PronounsMapper.ToPronounsTag` | src/mappers/pronouns_mapper.rs:51-53 | a tag comes back iff the query is some `s-o` key; the tag is the query with its single `-` replaced by `/`; the map is only read |
| `PronounsMapping.TagOfEveryPair` | src/mappers/pronouns_mapper.rs:38-53 | every subjective `s` and objective `o` give `to_pronouns_tag(s-o) == Some(s/o)` |
| `PronounsMapping.NoTagForOtherQueries` | src/mappers/pronouns_mapper.rs:51-53 | any other query gives `None` |
| `PronounsMapping.TableHas110Entries` | src/mappers/pronouns_mapper.rs:10-45 | the map has exactly 10 x 11 = 110 entries |
| `Repositories.SelectFirst` | src/repositories/github_user_repository.rs:29-48 | `.first()` of a `SELECT ... WHERE`: `None` iff no row matches, otherwise the row at the first matching position |
| `Repositories.InsertRows` | src/repositories/github_user_repository.rs:87-106 | success appends the row with all six columns; it succeeds iff the id is new and the engine does not fail; failure changes nothing |
| `Repositories.UpdateRows` | src/repositories/github_user_repository.rs:59-85 | as intended: every row with `entity.id` gets all six fields, every other row is unchanged; fails only on an engine failure, and then changes nothing |
| `Repositories.UpsertRows` | src/repositories/github_user_repository.rs:51-57 | a successful insert is the answer and no update runs; a failed insert gives exactly the update's result |
| `Repositories.UpdateRowsAsWritten` | src/repositories/github_user_repository.rs:59-85 | the statement as written cannot be prepared: always `Err`, table unchanged |
| `Repositories.UpsertRowsAsWritten` | src/repositories/github_user_repository.rs:51-57 | upsert over the update as written |
| `Repositories.UpsertAsWrittenCannotRefresh` | src/repositories/github_user_repository.rs:51-85 | as written, an upsert for an id already stored always fails and stores nothing |
| `Repositories.UpsertRefreshesStoredRow` | src/repositories/github_user_repository.rs:51-85 | corrected, an upsert for a stored id without engine faults succeeds, and `get_by_id` then returns the new row |
| `Repositories.UpsertOkWithoutStoring` | src/repositories/github_user_repository.rs:51-57 | if the insert of a new id fails in the engine, the update matches no row and the upsert reports Ok with the table unchanged |
| `Repositories.InsertKeepsUniqueIds` | src/repositories/github_user_repository.rs:87-106 | insert keeps `id` a primary key |
| `Repositories.UpdateKeepsUniqueIds` | src/repositories/github_user_repository.rs:59-85 | update keeps `id` a primary key |
| `Repositories.UpsertKeepsUniqueIds` | src/repositories/github_user_repository.rs:51-57 | upsert keeps exactly one row per id |
| `Repositories.UpsertOfStoredIdKeepsRowCount` | src/repositories/github_user_repository.rs:51-57 | an upsert for an id already stored never adds a row |
| `Repositories.UpsertTwiceSecondWins` | src/repositories/github_user_repository.rs:51-57 | two upserts of the same id leave one row with that id, holding the second call's values |
| `Repositories.GitHubUserRepository.constructor` | src/repositories/github_user_repository.rs:6-8 | a repository over a table whose ids are unique |
| `Repositories.GitHubUserRepository.GetByUsername` | src/repositories/github_user_repository.rs:12-30 | the first row whose user name is exactly `username`, or `None` iff there is none; reads only |
| `Repositories.GitHubUserRepository.GetById` | src/repositories/github_user_repository.rs:32-49 | the first row with this id, or `None` iff there is none; reads only |
| `Repositories.GitHubUserRepository.Insert` | src/repositories/github_user_repository.rs:87-106 | result and new table are those of `InsertRows`; ids stay unique |
| `Repositories.GitHubUserRepository.Update` | src/repositories/github_user_repository.rs:59-85 | result and new table are those of `UpdateRows`; ids stay unique |
| `Repositories.GitHubUserRepository.Upsert` | src/repositories/github_user_repository.rs:51-57 | result and new table are those of `UpsertRows`; ids stay unique |
| `Services.ToStr` | src/services/github_user_service.rs:120 | text exists iff every byte is visible ASCII or a tab; it has the same characters |
| `Services.ParseI64` | src/services/github_user_service.rs:121 | the empty string and a lone sign do not parse; an accepted string starts with a digit or a sign and is digits after that |
| `Services.ParsedTextShape` | src/services/github_user_service.rs:121 | every accepted string is the decimal text of its value with an optional `+` (or `-` for a value of at most 0) and leading zeros |
| `Services.ParseSignedText` | src/services/github_user_service.rs:121 | conversely, any such signed, zero-padded decimal text of a value within `i64` parses to that value |
| `Services.DigitsShape` | src/services/github_user_service.rs:121 | every run of digits is leading zeros followed by the decimal text of its value |
| `Services.LeadingZerosValue` | src/services/github_user_service.rs:121 | leading zeros do not change the value of a run of digits |
| `Services.ParseDecimalText` | src/services/github_user_service.rs:121-122 | parsing the decimal text of any `i64` gives it back |
| `Services.GetInt` | src/services/github_user_service.rs:118-129 | 0 when the header is absent, not visible ASCII, or not an `i64`; the parsed value whenever the header parses; any non-zero answer is the parsed header; always within `i64` |
| `Services.GetIntOfDecimalHeader` | src/services/github_user_service.rs:118-129 | a header holding the decimal text of `n` is read as `n` |
| `Services.Gate` | src/services/github_user_service.rs:72-81 | an unexpired `retry_after` blocks first; otherwise `remaining == 0` with an unexpired `reset` blocks; otherwise the call proceeds |
| `Services.LimitsAfter` | src/services/github_user_service.rs:89-95 | `remaining` and `reset` are the parsed headers; `retry_after` is `now` plus the parsed `retry-after` |
| `Services.Refresh` | src/services/github_user_service.rs:63-116 | a closed gate gives its error with counters, table and upstream untouched; otherwise one request, counters from the headers whatever the status; failure gives `Err` and leaves the table alone; success upserts the mapped user and answers `Ok(Some(user))` exactly when the upsert is Ok |
| `Services.Lookup` | src/services/github_user_service.rs:24-43 | a stored row with `now < expiration` is served as `Ok(Some(to_model(row)))` with no request and nothing changed; a missing or expired row gives exactly `Refresh` |
| `Services.SecondaryGateIgnoresRemaining` | src/services/github_user_service.rs:73-76 | with `retry_after > now` the call fails with no request, whatever `remaining` is |
| `Services.HeadersSetCounters` | src/services/github_user_service.rs:89-95 | headers `remaining=10`, `reset=T`, `retry-after=0` leave the counters at 10, `T` and `now` |
| `Services.MissingHeadersLeaveGateOpen` | src/services/github_user_service.rs:78-95 | a response without rate-limit headers sets the counters to 0, 0 and `now`, so no later call (at a time >= 0) is gated |
| `Services.RefreshFindsUser` | src/services/github_user_service.rs:108-115 | a refresh never answers `Ok(None)` |
| `Services.RefreshThenHit` | src/services/github_user_service.rs:24-116 | after a successful refresh whose expiry is still ahead, looking up the user's login is a cache hit returning the same user with no request |
| `Services.GithubUserService.constructor` | src/services/github_user_service.rs:14-21 | a service over a repository with the given counters and no request made |
| `Services.GithubUserService.UpdateUser` | src/services/github_user_service.rs:63-116 | result, counters and table are those of `Refresh`; the request log grows by the username exactly when a request was sent |
| `Services.GithubUserService.GetByUsername` | src/services/github_user_service.rs:24-43 | result, counters and table are those of `Lookup`; the request log grows exactly when a request was sent |

## Findings

| source | as written | input that shows it | evidently intended | confidence | as-written member | corrected member |
|---|---|---|---|---|---|---|
| src/repositories/github_user_repository.rs:62-69 | the UPDATE repeats `SET` before each column and puts a comma before `WHERE`, so it cannot be prepared and `update` always fails | any upsert whose id is already stored, such as refreshing an expired cached user: the insert hits the primary key, the update fails, and `get_by_username` answers `Err("Failed to upsert user!")` | one `SET` list that replaces the row with that id | high; not executed | `Repositories.UpsertAsWrittenCannotRefresh` | `Repositories.UpsertRefreshesStoredRow` |

The rest of the model (`GitHubUserRepository.Update`, `Upsert`, and the service) uses the corrected update.

## Left out

- HTTP handlers, routing, templates and the command line are not modelled: `get_index`, `get_html`, src/controllers/index.rs, src/controllers.rs, src/main.rs. They are framework plumbing with no invariants of their own.
- Image work is not modelled: `round_image_mut`, `draw_image` and PNG encoding. They are floating-point geometry and font rendering in external crates.
- `get_avatar_by_id` (src/services/github_user_service.rs:45-61) is not modelled: it is a bare proxy for one network call, with no state and no cache.
- HTTP requests are not modelled. The upstream answer is the input `Response`. A transport failure panics at the `expect` on line 87 and is out of scope.
- JSON decoding (line 104) is not modelled. The response carries the already-decoded user. A decoding failure panics and is out of scope.
- SQL text and rusqlite are not modelled; only row semantics are. The user name is spliced into the query text (line 15 of the repository), so it is open to injection. That is not modelled: the model compares names exactly.
- The `.unwrap()` panics in the repository reads are out of scope.
- Database engine failures (I/O, locking) cannot be seen in these files. They are the boolean inputs `engineFails`/`StoreFaults`.
- Case-insensitive user names are not modelled, because the table's schema is not part of this model.
- `Repositories.SelectFirst`: SQLite returns rows without `ORDER BY` in an unspecified order. The model fixes one order: the sequence order, where inserts append.
- Locking is not modelled. Inside `update_user` the tokio mutexes are held from the gate through the counter update (lines 68-71), so one `UpdateUser` at a time is faithful.
- `Services.GithubUserService.GetByUsername`: the cache read (line 26) happens outside the locks. Two concurrent lookups of one missing or expired user can both miss and then refresh one after the other, sending two requests upstream. The model runs each lookup atomically, so it does not capture this race. A lookup that races another refresh of the same user behaves like `UpdateUser` applied to the state that refresh left. `RefreshThenHit` holds only for lookups that do not overlap.
- Clocks are not modelled: one `now` stands for the up to four clock reads of a call (lines 30, 73, 78, 95). The units of `time::get_timestamp` cannot be checked, because it is not part of this model.
- How a new `expiration` is computed is not shown. `to_entity` does not set it, so `ToEntity` and the service take it as the input `expiration`.
- `Services.LimitsAfter`: does not model `i64` overflow of `now + retry-after` on line 95, which panics in a debug build and wraps in a release build. The counters are unbounded integers.
- `Services.GetInt`: the header map holds one value per lower-case name. `HeaderMap::get` returns the first of several values and matches names case-insensitively; neither is modelled.
- `Validators.IsStrAlphanumeric`: Rust's Unicode `char::is_alphanumeric` is the parameter `isAlphanumeric` rather than a character table.
- `ImageController.IsValid`: `validators::is_str_delimiter_free` is not part of this model, so it is the parameter `isDelimiterFree`.
- Logging is left out; the error strings are the constructors of `ServiceError`.
