# Namespaced session wrapper — Dafny model

This project models `Dashifen\Session\Session`, a PHP class that wraps the
host's session superglobal `$_SESSION`. Each handle owns one *namespaced
slice* of that shared table. The slice is the array stored under the handle's
`index`. The handle reads and writes entries of its slice (`exists`, `get`,
`set`, `remove`, `getSession`). On top of that it keeps a two-key identity
protocol (`login`, `logout`, `isAuthenticated`, `getUsername`).

Layout:

- `session_interface.dfy`, module `SessionInterface`: the three well-known
  keys `DEFAULT_INDEX`, `AUTHENTICATED` and `USERNAME`.
- `session_state.dfy`, module `SessionState`: PHP values (`Value`), and the
  pure semantics of the reads as functions of a slice. It also holds the writes
  done by `login`, the slice repair done at construction, and how the
  namespace key is chosen.
- `session_state.dfy`, module `SessionLaws`: lemmas that relate these
  operations. They cover round trips, frames, the identity protocol and index
  resolution.
- `session.dfy`, module `Sessions`: the imperative part. `Host` stands for
  the host session. Its field `data` is `$_SESSION`, `active` says whether a
  session id exists, and the ghost counter `regenerations` counts calls to
  `session_regenerate_id`. `Session` is the handle, with fields `host` and
  `index`. Several handles may share one `Host`. Every method updates
  `host.data` in place and states the whole new table.

Behaviour of the code that is easy to misread:

- PHP `empty()` is true for `""` and also for `"0"`. So a constructor argument
  of `"0"` is treated like `""` and falls back to the stored index
  (`SessionLaws.ZeroArgumentIsEmpty`).
- `exists` uses `isset`, so a key that holds `null` does not exist, and `get`
  returns the fallback for it.
- `getIndex` has a `string` return type and the file is in coercive typing
  mode. A stored string is returned as it is. An int is returned as its decimal
  text, and a bool as `"1"` or `""`. An array raises a type error
  (`IndexTypeError`).
- The default constructor argument is `DEFAULT_INDEX` itself. A default handle
  therefore keeps its slice (an array) under the very key that `getIndex` reads.
  A later handle built with `''` then fails with the type error
  (`SessionLaws.DefaultSliceBlocksResume`).
- A fresh id from `getIndex` is never written back under `DEFAULT_INDEX`
  (`SessionLaws.FreshIdNotRecorded`).

## Model

| member | source | states |
|---|---|---|
| `SessionInterface.KeysDistinct` | src/SessionInterface.php:12-14 | the three key constants are pairwise different, so the username and authentication entries never overwrite each other |
| `SessionState.Lookup` | src/Session.php:166-169 | `get` returns the stored value exactly when the entry is set, and that value is never null; otherwise it returns the caller's fallback |
| `SessionState.Username` | src/Session.php:73-78 | the username is null whenever the slice is not authenticated, whatever USERNAME holds; a non-null result is the value stored under USERNAME |
| `SessionState.AssignAllKeys` | src/Session.php:109-111 | the parameter loop adds exactly the parameters' keys to the slice |
| `SessionState.AssignAllKeeps` | src/Session.php:109-111 | a key that no parameter mentions keeps its value through the loop |
| `SessionState.AssignAllLastWins` | src/Session.php:109-111 | each parameter key ends with the value of its last pair, the one `foreach` writes last |
| `SessionState.LoggedIn` | src/Session.php:101-116 | after login the slice is authenticated and reports the given username, even when the parameters carry USERNAME or AUTHENTICATED; every other parameter is stored; untouched keys keep their values |
| `SessionState.Normalise` | src/Session.php:37-39 | construction leaves an array under the index; an existing array is kept unchanged; an absent, null or non-array value becomes the empty array; no other top-level key changes |
| `SessionState.StoredIndex` | src/Session.php:47-56 | the resumed index is the string stored under DEFAULT_INDEX; an int is returned as its decimal text and a bool as `"1"` or `""`; the fresh id is used when nothing or null is stored there; it fails exactly when an array is stored there |
| `SessionState.ResolveIndex` | src/Session.php:19-21 | a constructor argument that PHP does not consider empty is used verbatim; `""` and `"0"` defer to the stored index |
| `SessionLaws.SetThenRead` | src/Session.php:126-130 | after `set(k, v)`, `k` is set exactly when `v` is not null, and then reads back `v`; a null `v` reads as the fallback; every other key reads as before |
| `SessionLaws.UnsetReadsFallback` | src/Session.php:88-91 | an absent key or one holding null is not set and reads as the fallback |
| `SessionLaws.RemoveThenRead` | src/Session.php:178-182 | after `remove(k)`, `k` reads as the fallback; other entries are unchanged; removing an absent key is a no-op; removing twice equals removing once |
| `SessionLaws.LoggedOut` | src/Session.php:152-156 | the emptied slice is not authenticated, has a null username and reads every key as its fallback |
| `SessionLaws.PresenceNotTruth` | src/Session.php:63-66 | authentication tests the presence of AUTHENTICATED, so storing false there still reads as authenticated |
| `SessionLaws.LoginStoresParameters` | src/Session.php:109-111 | with distinct parameter keys, every parameter other than the identity keys reads back as given (the fallback when its value is null) |
| `SessionLaws.IdentityWinsOverParameters` | src/Session.php:113-115 | for every parameter list, including one carrying USERNAME or AUTHENTICATED, login reports the given username and AUTHENTICATED ends as true |
| `SessionLaws.NamespacesIsolated` | src/Session.php:128 | writing one namespace of the table leaves every other namespace as it was |
| `SessionLaws.DefaultArgumentUsedVerbatim` | src/Session.php:19-21 | the default argument `DEFAULT_INDEX` is used as the index without consulting the table |
| `SessionLaws.ZeroArgumentIsEmpty` | src/Session.php:21 | the argument `"0"` defers to the stored index, just as `""` does |
| `SessionLaws.FreshIdNotRecorded` | src/Session.php:55 | without a stored index (absent or null), the fresh id is used but not recorded under DEFAULT_INDEX, so the next empty-argument handle gets another fresh id |
| `SessionLaws.DefaultSliceBlocksResume` | src/Session.php:19-55 | after a default-argument handle is built, building a handle with `''` fails with the type error |
| `Sessions.Session.constructor` | src/Session.php:37-39 | attaching a handle replaces the table by its normalised form, so the handle's slice is an array afterwards |
| `Sessions.Session.Open` | src/Session.php:19-40 | construction fails with the index type error or with CANNOT_START (no session is active and starting one fails), and then leaves the table untouched; otherwise the session is active, the handle has the resolved index and the table is normalised |
| `Sessions.Session.GetSession` | src/Session.php:189-192 | returns exactly the array stored under the handle's index |
| `Sessions.Session.Exists` | src/Session.php:88-91 | true exactly when the key is in the slice with a non-null value |
| `Sessions.Session.Get` | src/Session.php:166-169 | returns the stored, non-null value of a set key, otherwise the fallback (null by default) |
| `Sessions.Session.IsAuthenticated` | src/Session.php:63-66 | true exactly when AUTHENTICATED exists in the slice |
| `Sessions.Session.GetUsername` | src/Session.php:73-78 | null when not authenticated, otherwise `get(USERNAME, null)` |
| `Sessions.Session.Set` | src/Session.php:126-130 | only entry `k` of this handle's slice changes, to `v`; all other namespaces and the session state are unchanged; afterwards `k` exists exactly when `v` is non-null and reads back as `v` |
| `Sessions.Session.Remove` | src/Session.php:178-182 | only entry `k` of the slice is deleted and `k` no longer exists; removing an absent key leaves the whole table unchanged |
| `Sessions.Session.Login` | src/Session.php:101-116 | regenerates the session id once, then leaves the slice as `LoggedIn` of the old slice, with every other namespace unchanged; afterwards the handle is authenticated as the given user |
| `Sessions.Session.Logout` | src/Session.php:152-156 | the slice becomes the empty array and other namespaces are unchanged; afterwards the handle is not authenticated and has no username; logging out an empty slice changes nothing |
| `Sessions.Session.Destroy` | src/Session.php:137-145 | has the same effect on the table as logout, then ends the host session, so no session is active afterwards |
| `Sessions.DestroyThenOpen` | src/Session.php:27-29 | after destroy, building a handle with a non-empty index fails with CANNOT_START when starting a session fails, and the table stays as destroy left it |
| `Sessions.Isolation` | src/Session.php:126-130 | a `set` through one handle is invisible through a handle on the same host under a different index |

## Left out

- Session start-up (`session_id`, `session_start`) is host I/O. Whether a session is active is `Host.active`, and the outcome of an attempted start is the `startSucceeds` parameter of `Open`. Loading persisted data into `$_SESSION` is not modelled; the table is taken as it is.
- `uniqid()` is nondeterministic, so the fresh id is the `freshId` parameter of `Open`.
- `session_regenerate_id` in `login` is only counted, in the ghost field `Host.regenerations`. The id itself is not modelled.
- `destroy`: its call to `logout` is modelled, and so is the fact that `session_destroy` ends the host session (`Host.active` becomes false). Expiring the cookie (`session_get_cookie_params`, `setcookie`, `time()`) is host I/O and the clock. Deleting the stored session data is host storage. Neither is modelled. `session_destroy` does not clear the in-memory `$_SESSION`, so nothing more happens to the table.
- The numeric code of `SessionException::CANNOT_START` is not modelled; the class `SessionException` is not part of this model. The error is the constructor `CannotStart`.
- PHP arrays are ordered maps, but slices are modelled as unordered maps. Entry order is observable only by iterating over `getSession()`'s result. `login`'s parameters are a list of pairs in `foreach` order. The key conversion of numeric strings to integer keys is not modelled, since every key passes through a `string` parameter.
- `Value` covers null, bool, int, string and array. Floats and objects are not modelled, so neither is the conversion of a stored float to text in `getIndex`.
- `Sessions.Session.GetUsername`: it returns the stored value itself. PHP's `?string` return type would turn an int or bool stored under USERNAME into text, and would throw for an array. Within this class, `login` always stores a string there.
- Every member of `Session` requires `Valid()`, meaning the slice is an array. Construction establishes it and every method keeps it. Code outside the class that overwrites the slice with a non-array is not modelled.
- Method chaining is not modelled. `set`, `remove`, `login` and `logout` only return `$this`.
- Cross-request persistence and locking of the session belong to the host and are not modelled.
