# react-user-pref: preference storage model

This project models the core of `react-user-pref`, a small browser library
that keeps one user's preferences under the package-name key of
`localStorage`. The saved value is one record: a `meta` header holding the
user id, a metadata tag, a creation time and the package version, followed by
an ordered list of `{code, value, time}` entries. The list behaves like an
association list keyed by `code`.

Modules:

- `Wrappers`: `Option`. `None` stands for an absent record.
- `Prefs`: the preference list. `FindIndex` and `Find` are the first-match
  searches the library runs. `Upsert` is the replace-in-place-or-append write.
  `ToMap` is the code-to-value map a reader sees. The lemmas relate the three.
- `Store`: the package's entry points over one abstract storage slot of type
  `Option<Record>`. These are `getLocal`, `removeLocal`,
  `initializeLocalPreferences`/`resetLocal`, `getLocalPreference`,
  `setLocalPreference` and `defaultLocalPreferences`.
- `Session`: sequences of writing calls. It proves the record's lifecycle
  invariants over any history of calls.

What becomes a parameter:

- Whether storage is available (`isLocalStorageAvailable`) is a boolean
  input to each call.
- The clock (`newTime`) is an opaque timestamp `now` of type parameter `T`.
- Preference values have the opaque type parameter `V`.
- The package metadata (`name`, `version`) is a `Package` value.
- JSON encoding and decoding of the record are taken to be the identity.

Behaviours of the code worth noting:

- `initializeLocalPreferences` answers `undefined`, not `false`, when a record
  already exists. `InitReply` keeps three answers: `Initialized` (`true`),
  `NotAvailable` (`false`) and `AlreadyPresent` (`undefined`).
  `Truthy` gives JavaScript truthiness.
- `resetLocal` is the same function as `initializeLocalPreferences`. It never
  overwrites an existing record. `Store.RemoveThenInitialize` shows that a
  removal followed by an initialization gives a true reset.
- `getLocal` answers `false` when storage is unavailable and `null` when
  nothing is stored. `Local` keeps these apart as `Unavailable` and `Missing`.
- `userId` does not select anything on lookup or write. On a write it only
  fills in the default record when none is stored.

## Model

| member | source | states |
|---|---|---|
| Prefs.FindIndex | react-user-pref.js:121 | The result is -1 exactly when no entry has the code. Otherwise it is the index of an entry with the code, and no earlier entry has it. |
| Prefs.Find | react-user-pref.js:101 | The result is absent exactly when no entry has the code. Otherwise it is an entry of the list with that code, and no earlier entry has the code. |
| Prefs.Upsert | react-user-pref.js:121-128 | If the code is present, the list keeps its length, the first matching position holds the new entry, and every other position is unchanged. If the code is absent, the new entry is appended and the earlier entries are unchanged. |
| Prefs.FindMatchesMap | react-user-pref.js:101-103 | A first-match lookup finds an entry exactly when the code is in the reference map, and the entry's value is the map's value. |
| Prefs.UpsertIsMapUpdate | react-user-pref.js:121-128 | On the reference map, an upsert is a map update of the code to the new value. |
| Prefs.UpsertThenFind | react-user-pref.js:121-128 | Looking up the written code after an upsert yields exactly the written entry. |
| Prefs.UpsertKeepsOtherCodes | react-user-pref.js:121-128 | Lookups of any other code see the same entry as before the upsert. |
| Prefs.UpsertPreservesUniqueCodes | react-user-pref.js:121-128 | If the codes were pairwise distinct before an upsert, they are pairwise distinct after it. |
| Prefs.UpsertLeavesOneEntry | react-user-pref.js:121-128 | On a list with distinct codes, the written entry is present after the upsert, and it is the only entry with its code. |
| Prefs.UpsertTwice | react-user-pref.js:121-128 | Two writes of the same code equal the second write alone, so the later value wins. |
| Store.DefaultLocalPreferences | react-user-pref.js:148-162 | The fresh record carries the given user id, the package version, the `<name>:user:metadata` tag and the creation time. It has no preferences and so satisfies the unique-codes invariant. |
| Store.GetLocal | react-user-pref.js:45-55 | The read is `false` exactly when storage is unavailable. It is `null` exactly when storage is available and nothing is stored. Otherwise it is the stored record. |
| Store.RemoveLocal | react-user-pref.js:58 | After removal, no read finds a record, whether or not storage is available. |
| Store.InitializeLocalPreferences | react-user-pref.js:61-72 | With storage unavailable, the answer is `false` and nothing is written. With a record present, the answer is `undefined` and nothing is written. Otherwise the default record for the user is stored and the answer is `true`. The answer is truthy exactly when storage changed. |
| Store.ResetLocal | react-user-pref.js:75 | The same three answers as initialization. With storage unavailable, the answer is `false` and nothing is written. With a record present, the answer is `undefined` and the record is not overwritten. Otherwise the user's default record is stored and the answer is `true`. |
| Store.GetLocalPreference | react-user-pref.js:91-104 | The caller's default comes back when storage is unavailable, when no record exists, or when no entry has the code. Otherwise the value of the first entry with the code comes back. |
| Store.SetLocalPreference | react-user-pref.js:107-135 | With storage unavailable, the answer is `false` and storage is unchanged. Otherwise the answer is `true`, and the stored record's list finds the new entry under its code. An existing record keeps its `meta` untouched. An absent record becomes the user's default header with exactly the one new entry. The stored list is the old list with the entry upserted, so an existing code keeps its position and the other entries are unchanged. |
| Store.SetThenGet | react-user-pref.js:117-134 | Round trip: after a write with storage available, reading the code returns the written value. |
| Store.SetKeepsOtherCodes | react-user-pref.js:117-134 | A write leaves the read of every other code unchanged. |
| Store.SetPreservesWellFormed | react-user-pref.js:117-134 | A write keeps the stored record's codes pairwise distinct. |
| Store.InitializeIdempotent | react-user-pref.js:61-72 | A second initialization, with any user id or clock, leaves storage exactly as the first left it, and its answer is falsy. |
| Store.RemoveThenGet | react-user-pref.js:58 | After a removal, every lookup returns the caller's default. |
| Store.RemoveThenInitialize | react-user-pref.js:58-72 | Removal followed by initialization stores exactly the default record for the new user. |
| Session.RunKeepsGood | react-user-pref.js:58-135 | No history of initialize, reset, set and remove calls ever leaves a record with two entries of the same code. |
| Session.UnavailableIsInert | react-user-pref.js:107-116 | When storage stays unavailable, no history of initialize, reset and set calls changes the storage. |
| Session.MetaWrittenOnce | react-user-pref.js:129-132 | Once a record exists, no history of calls without a removal changes its header. The header holds the user id, tag, creation time and version. |
| Session.FreshScenario | react-user-pref.js:61-134 | Fresh storage reads as `null`. Initializing for user 7 answers `true` and stores an empty record for user 7. Setting `"theme"` to `"dark"` then leaves exactly that one entry under user 7's header. |

## Left out

- `isLocalStorageAvailable` is not modelled beyond the availability flag. It writes, reads and removes a test key, and that has no net effect on the package key. Its `typeof localStorage !== undefined` test compares against the value `undefined`, so it is always true. A missing `localStorage` is instead caught by the `try`.
- `removeLocal` makes no availability check. When `localStorage` is missing entirely, it throws. The model has no exceptions, so `RemoveLocal` always empties the slot.
- `JSON.stringify`, `JSON.parse` and `parseReviver` are not modelled, because serialisation is a foreign library. The model treats them as the identity. So it does not model values that JSON changes (`undefined`, `NaN`, dates), a stored text that parses to a falsy value, or the uncaught exception on malformed stored text.
- `newTime` and `newTimeHumanReadable` depend on `Date`, floating point and locale formatting. The timestamp is an opaque input instead.
- Store.SetLocalPreference: when no record is stored, `defaultLocalPreferences` and the new entry each call `newTime()`. The model gives both the same `now`, so it does not model two clock readings that differ.
- Store.SetLocalPreference: the record write (`localStorage.setItem` at the end of `setLocalPreference`, and the one in `initializeLocalPreferences`) is outside any `try`. A write over the storage quota throws and leaves storage unchanged, even though the small availability test write succeeded. The model has no quota, so it promises `true` and a stored record whenever storage is available.
- The default arguments are not modelled: `code = undefined`, `value = null`, `defaultValue = null` and `userId = 0`. Every argument is explicit in the model, and `code` is always a string, so a lookup or write under the code `undefined` cannot be expressed.
- `emitErrorLocalStorage` is not modelled. It only logs to the console.
- `getLocalPreferences` is not modelled, because as written it cannot run. It calls `.find` on a single record object, its object branch has no `return`, and it refers to an undefined `value`.
- `validateLocalPreferences` is not modelled. It compares lengths of JSON texts and compares version strings with JavaScript `<`, and both depend on the serialised form.
- `useUserPref` and `isObject` are not modelled. They form a React hook wrapper, and its non-code branch calls the broken `getLocalPreferences`.
- `getLocalPreference` and `setLocalPreference` accept a `userId` that selects nothing. `GetLocalPreference` omits that parameter. `SetLocalPreference` uses it only for the default record.
- The record is modelled with `meta` and `preferences` only. Other top-level fields that `{...local}` would copy along are not modelled.
