# SeAT Role Sync — a Dafny model

SeAT Role Sync is a WordPress plugin that mirrors the roles of a SeAT
(EVE Online alliance management) installation onto WordPress users. On
`admin_init` it creates a WordPress role for every role in the SeAT catalog;
on `init` it finds the EVE character of the logged-in user from the
`wsl_current_user_image` avatar URL. It then asks SeAT, role by role, whether
the character holds it, and adds or removes the matching WordPress roles.
Every SeAT request goes through one wrapper that caches the decoded JSON
answer in a WordPress transient for `seat_api_hours` hours.

The model covers the plugin's core in `seat-role-sync.php`:

| file | module | models |
|---|---|---|
| `decimal.dfy` | `Decimal` | digit strings and PHP's integer/string conversions |
| `php.dfy` | `Php` | PHP values, truthiness, key coercion, ordered arrays (`$a[$k] = $v`) |
| `wordpress.dfy` | `WordPress` | host state: options, the transient cache, the HTTP client, the role registry, a user's roles |
| `api.dfy` | `SeatApi` | `srs_seat_api_request` |
| `slug.dfy` | `Slugs` | `srs_sanitize_seat_role` |
| `catalog.dfy` | `Catalog` | `srs_get_seat_roles`, `srs_register_seat_roles` |
| `character.dfy` | `Character` | `srs_get_character_id` |
| `membership.dfy` | `Membership` | `srs_get_character_roles` |
| `sync.dfy` | `Sync` | `srs_sync_seat_roles` |

Each operation is specified by a pure function of the host state it reads:
the options, the cache entries, the server (an oracle from URL and request
options to a response) and the clock. Lemmas state what the plugin promises
about that function. Each loop or state change of the PHP code is a
`method` over the host objects. That method's postcondition ties its
returned value and the new state of the cache, the HTTP client, the registry
or the user to the specification function. Ghost counters on the cache and
the HTTP client record reads, writes and requests, so "no request" and "at
most one request" can be stated.

A PHP request that ends in an uncaught `TypeError`/`Error` is the outcome
`Aborted`. This happens, for example, when a decoded role record has an
object as its id, or a role title is an array or an object. The model keeps
such paths rather than excluding those inputs.

Some behaviour of the code that the model keeps:

- After a failed request (a `WP_Error`), `srs_seat_api_request` returns
  `false`: `$body` still holds the `false` that `get_transient` returned
  on the miss.
- The `X-CSRF-TOKEN` header is a single space.
- The pattern `@.*?/(\d*)_128.jpg@m` uses the first slash that the rest of
  the pattern accepts: a maximal, possibly empty digit run, "_128", any
  character but a newline, then "jpg". Nothing is anchored to the end of
  the URL.
- Malformed catalog data (an object title, a non-scalar id) ends the PHP
  request with an error.
- With a transient store that gives back the `false` it was given, a
  role-check answer that flips from `false` to `true` is seen on the next
  sync, because a stored `false` counts as a cache miss
  (`SeatApi.StoredFalseIsMiss`). A flip from `true` to `false` is seen only
  once the cached answer has expired (`SeatApi.RepeatWithinTtl`,
  `SeatApi.RepeatAfterExpiry`).

## Model

| member | source | states |
|---|---|---|
| WordPress.TransientRoundTrip | seat-role-sync.php:129-133 | a value stored with `set_transient` is read back by `get_transient` until its TTL has passed (for ever with TTL 0) and is `false` afterwards; other keys read as before |
| WordPress.TransientStore.Get | seat-role-sync.php:129 | reads the transient without changing the cache and counts one cache read |
| WordPress.TransientStore.Set | seat-role-sync.php:133 | stores the value with expiry `now + ttl` (never, for 0) under the key, leaves other keys alone, and counts one cache write |
| WordPress.Http.Request | seat-role-sync.php:130 | the response is the server's answer to this URL and these options; counts one request |
| WordPress.RoleRegistry.AddRole | seat-role-sync.php:17 | `add_role` creates the role only when the slug is not yet registered |
| WordPress.User.AddRole | seat-role-sync.php:31 | the user's roles gain the slug |
| WordPress.User.RemoveRole | seat-role-sync.php:33 | the user's roles lose the slug |
| Php.KeyStringAgrees | seat-role-sync.php:28-29 | a role name stored as an array key and read back by `foreach` prints as the name itself, for every scalar but `false` |
| Php.StringKeysInjective | seat-role-sync.php:190 | two role names share an array slot exactly when they are the same string, although numeric strings become integer keys |
| Php.Assign | seat-role-sync.php:150 | `$a[$k] = $v`: `$k` now maps to `$v`, other keys are unchanged, an existing key keeps its position, a new key is appended, and keys stay unique |
| Php.AssignEach | seat-role-sync.php:149-151 | after a sequence of assignments each key holds its last assigned value, and keys never assigned keep their old value |
| Php.LastValueFound | seat-role-sync.php:150 | a key has a last assigned value exactly when some assignment uses it |
| Php.LastValueAt | seat-role-sync.php:190 | the last assignment to a key determines its value |
| Php.LastPairExists | seat-role-sync.php:190 | a key with a value got it from a last assignment to that key |
| Php.FindIndex | seat-role-sync.php:28 | a key present in an array sits at some position with its value |
| Php.UniqueKeysIndex | seat-role-sync.php:28 | a key occurs at most once in a PHP array |
| Decimal.NatToStringRoundTrip | seat-role-sync.php:188 | the character id printed into the endpoint reads back as the same number |
| Decimal.IntegerStringRoundTrip | seat-role-sync.php:150 | a canonical integer string used as a key becomes the integer it spells and prints back unchanged |
| SeatApi.Ttl | seat-role-sync.php:116 | the cache lifetime is a whole number of hours: 1 hour when the setting is missing, and the setting's value in hours when it is a decimal number |
| SeatApi.Query | seat-role-sync.php:119-127 | `array_merge` of defaults and caller arguments: keys are unique, the caller's value wins, untouched defaults stay, and no arguments give exactly the defaults |
| SeatApi.Request | seat-role-sync.php:113-137 | unconfigured: returns nothing and touches nothing; otherwise at most one cache read, a request only after it, a write only after a request, and a write stores the returned value under the request's key with expiry `now + hours*3600` |
| SeatApi.CacheHit | seat-role-sync.php:129 | a live cached value other than `false` is returned with no request and no write |
| SeatApi.CacheMiss | seat-role-sync.php:129-135 | on a miss exactly one request is sent; a reply is decoded, stored for the TTL and returned; a `WP_Error` stores nothing and returns `false` |
| SeatApi.StoredFalseIsMiss | seat-role-sync.php:129 | a stored `false` is requested again |
| SeatApi.RepeatWithinTtl | seat-role-sync.php:129-133 | the same call within the TTL sends no request and returns the same value (unless that value is `false`) |
| SeatApi.RepeatAfterExpiry | seat-role-sync.php:129-133 | the same call after the TTL sends a new request |
| SeatApi.SeatApiRequest | seat-role-sync.php:113-137 | the returned value, the cache and the request, read and write counts are those of `Request` |
| Slugs.ToLower | seat-role-sync.php:200 | `strtolower` keeps the length, turns every ASCII capital into its small letter and keeps every other character |
| Slugs.SanitizeSeatRole | seat-role-sync.php:199-201 | the slug is lower-case and as long as the `sanitize_html_class` result |
| Slugs.SlugIsLowerCaseFixedPoint | seat-role-sync.php:200 | lower-casing a slug again changes nothing |
| Slugs.SlugCharacters | seat-role-sync.php:199-201 | when `sanitize_html_class` keeps class characters only, the slug is small letters, digits, `_` and `-` |
| Catalog.CatalogOf | seat-role-sync.php:147-154 | a falsy response or one without records gives no catalog; an array or object id aborts; a catalog is non-empty with unique keys |
| Catalog.CatalogContents | seat-role-sync.php:149-151 | the catalog's keys are exactly the records' ids, each mapped to the title of the last record with that id |
| Catalog.CatalogStep | seat-role-sync.php:149-151 | one more record adds its id as a key holding its title |
| Catalog.CatalogFromResponse | seat-role-sync.php:148-153 | the loop builds exactly `CatalogOf` of the response |
| Catalog.GetSeatRoles | seat-role-sync.php:147-154 | the catalog of the `/roles` answer, with the cache and counters of that request |
| Catalog.RegisteredContents | seat-role-sync.php:13-20 | registration adds the slug of every title, never changes an existing role, and names each new role after the first title giving its slug |
| Catalog.FirstWithSlugFound | seat-role-sync.php:15-17 | a slug has a first title exactly when some scalar title produces it |
| Catalog.EverySlugRegistered | seat-role-sync.php:15-17 | after registration the slug of every title is a role |
| Catalog.RegisterTwice | seat-role-sync.php:13-20 | registering the same catalog again changes nothing |
| Catalog.RegisterAborts | seat-role-sync.php:15-17 | registration aborts exactly when some title is an array or an object |
| Catalog.RegisterStopsAtAbort | seat-role-sync.php:15-17 | the titles before the first bad title are registered, none after it |
| Catalog.AddCatalogRoles | seat-role-sync.php:15-18 | the loop leaves the registry as `Registered` describes |
| Catalog.RegisterSeatRoles | seat-role-sync.php:13-20 | the registry changes only when a catalog was fetched, and then as `Registered` describes |
| Character.OnlyMaximalRun | seat-role-sync.php:168 | the captured digits are always the whole digit run after the slash |
| Character.FirstMatch | seat-role-sync.php:168 | finds a match with no match at any earlier slash, or reports that none exists |
| Character.ExtractCharacterId | seat-role-sync.php:168-172 | no match gives 0; otherwise the value of the digits captured at the first matching slash |
| Character.LeftmostMatchUnique | seat-role-sync.php:168 | the pattern has at most one leftmost match, so the captured digits are determined |
| Character.CharacterId | seat-role-sync.php:165-173 | the id is the one extracted from the image of the given user (the current user for 0 or none); a missing or empty image gives 0 |
| Character.FirstMatchDecides | seat-role-sync.php:168-169 | the first matching slash decides the id, whatever follows |
| Character.ExampleImage | seat-role-sync.php:162-172 | ".../654321_128.jpg" gives 654321 |
| Character.OtherImageGivesZero | seat-role-sync.php:162-172 | an image without "_128?jpg" gives 0 |
| Character.AvatarGivesZero | seat-role-sync.php:162-172 | ".../avatar.png" gives 0 |
| Character.EmptyDigitsGiveZero | seat-role-sync.php:168-172 | a match with an empty digit run gives 0 |
| Character.NoImageGivesZero | seat-role-sync.php:166-172 | a user without the image metadata gets 0 |
| Membership.RoleCheckEndpoint | seat-role-sync.php:188 | the endpoint starts with "/roles/query/role-check/" |
| Membership.EndpointIdentifiesCheck | seat-role-sync.php:188 | the endpoint determines the character id and the role name, so distinct checks never share a cache key except through a hash collision |
| Membership.CheckTitle | seat-role-sync.php:188-190 | one title sends at most one request and completes exactly when the title is a scalar |
| Membership.CheckTitleAssigns | seat-role-sync.php:188-190 | a completed check keeps the earlier answers, records the reply to the role check for its title and assigns the title's key its answer |
| Membership.LastCheck | seat-role-sync.php:187-190 | the last title of a completed pass records the reply to its own role check, after the answers of the titles before it |
| Membership.RoleChecksAnswers | seat-role-sync.php:187-190 | in a completed pass, the answer for each title is the reply to the request `/roles/query/role-check/{id}/{title}` for that title, against the cache the earlier checks left |
| Membership.RoleChecks | seat-role-sync.php:187-191 | at most one request per title; a completed pass has one answer per title, all titles scalar |
| Membership.ChecksAbort | seat-role-sync.php:188-190 | the pass aborts exactly when some title is an array or an object |
| Membership.ChecksStopAtAbort | seat-role-sync.php:187-191 | after an abort no further title is checked |
| Membership.AbortPoint | seat-role-sync.php:188-190 | an object title aborts before its request, an array title after it |
| Membership.ChecksBuildArray | seat-role-sync.php:190 | the array is the result of assigning each title's verdict in order |
| Membership.CheckedKeys | seat-role-sync.php:184-195 | the keys are exactly the titles' keys, and a key is `TRUE` exactly when the last check under it answered boolean `true`; with `RoleChecksAnswers`, that answer is the reply to that title's role check |
| Membership.ChecksAreBooleans | seat-role-sync.php:190 | the array built is non-empty and holds booleans only |
| Membership.CompletedChecks | seat-role-sync.php:187-191 | a completed pass over a non-empty catalog builds a non-empty array of booleans |
| Membership.CheckCatalog | seat-role-sync.php:187-191 | the loop gives the result, cache and counters of `RoleChecks` |
| Membership.CharacterRoles | seat-role-sync.php:184-195 | no character: `null` with no request and no cache access; a returned array is non-empty and holds booleans only |
| Membership.NoCatalogNoChecks | seat-role-sync.php:186 | no catalog: `null` after the single catalog request |
| Membership.CharacterRolesContents | seat-role-sync.php:184-195 | a returned array comes from a fetched catalog: its keys are exactly the keys of the catalog's titles, and a key is `TRUE` exactly when the last check under it answered boolean `true`; with `RoleChecksAnswers`, that answer is the reply to that title's role check |
| Membership.GetCharacterRoles | seat-role-sync.php:184-195 | the result, cache and counters are those of `CharacterRoles` |
| Sync.SyncedContents | seat-role-sync.php:28-35 | a slug is held afterwards exactly when the last entry producing it is true; other slugs keep their membership |
| Sync.SyncIdempotent | seat-role-sync.php:25-37 | syncing the same answers twice equals syncing once |
| Sync.SyncKeepsOtherRoles | seat-role-sync.php:28-35 | a role no entry's slug names is neither added nor removed |
| Sync.SyncFollowsAnswer | seat-role-sync.php:28-35 | with no slug collision, the user holds a role's slug exactly when its entry is true |
| Sync.SyncAddsLowerCaseSlugs | seat-role-sync.php:29-31 | every role a sync adds is a lower-case slug of a true entry |
| Sync.FleetCommanderScenario | seat-role-sync.php:25-37 | "Fleet Commander" true and "Recruit" false: the first is added and the second removed; after "Recruit" flips to true, both are held |
| Sync.ApplyRoles | seat-role-sync.php:28-35 | the loop leaves the user's roles as `Synced` describes |
| Sync.SyncSeatRoles | seat-role-sync.php:25-37 | the user's roles change only when an array was returned, and then as `Synced` describes; the cache and requests are those of `CharacterRoles` |

## Left out

- Settings page, menu, field renderers and hook wiring: HTML output and host lifecycle, with no logic of the plugin's own.
- `hash('sha512', ...)`, `serialize`, `json_decode` and `sanitize_html_class`: foreign deterministic functions, kept uninterpreted.
- `wp_remote_request`: an oracle from URL and options to a reply body or a `WP_Error`; status codes and headers are not modelled, nor what the request does on the network.
- `WP_User::add_role`/`remove_role` and `WP_Roles::add_role` internals: modelled as set insertion/removal and insert-if-absent. Capabilities, the empty-slug guard and user-meta writes are not modelled.
- `get_user_meta` and `get_current_user_id`: modelled as a map from user id to image URL (missing gives "") and a current user id. `wp_get_current_user()` is always an object, so its guard always passes.
- Transients: expiry is a comparison with an explicit `now`, and a stored value reads back unchanged. The deletion of expired entries, object caches and concurrent requests on one key are not modelled. Neither is WordPress's default database-backed store, which saves `false` as `''`. There, a cached `false` reads back as `""`, a hit, so a false-to-true flip waits for the entry to expire.
- PHP integer overflow: the `(int)` cast of a very long digit run and `$hours * HOUR_IN_SECONDS` use unbounded integers.
- SeatApi.Ttl: reads a saved hours setting by its leading decimal digits, as PHP 7 does for a non-numeric string. Leading whitespace, a sign and a fractional part are not modelled, and neither is PHP 8's `TypeError` for a non-numeric string.
- Floating-point JSON numbers: `Value` has no float, so a float id or title is not modelled.
- Caller arguments to `srs_seat_api_request` with integer keys: `array_merge` would renumber them. Options have string keys only, and the plugin never passes arguments.
- `strtolower` before PHP 8.2 depends on the locale; the model lower-cases ASCII capitals only.
- Options are saved as strings; non-string option values are not modelled.
- Sync.ApplyRoles: reads each entry's own value where the code reads `$roles[ $role_name ]`. These are the same because PHP array keys are unique.
- PHP version: the model follows PHP 8, where an array offset raises a `TypeError`, `strtolower` of an array is a fatal error and an object in a string is an `Error`; each of these is the `Aborted` outcome. The one exception is SeatApi.Ttl, which follows PHP 7 as described above.
- Strings: PHP strings are bytes, while the model's strings are sequences of characters. The `.` of the pattern at seat-role-sync.php:168 accepts one byte, so a multi-byte character between "_128" and "jpg" that the model accepts makes PHP's pattern fail.
- Membership.CharacterRoles: the `Undefined variable` warning for `$roles` is not modelled, only the `null` it yields.
