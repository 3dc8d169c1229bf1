/**
  The package's storage operations over one abstract storage slot: the value
  saved under the package-name key is either absent or one whole record.
  Availability of the browser storage is an input to each call; the
  JSON encoding of the record is taken to be the identity; `now` stands for
  the timestamp the operation's clock would produce.
 */
module Store {
  import opened Wrappers
  import opened Prefs

  /** Package metadata: `name` is the storage key, `version` the schema version. */
  datatype Package = Package(name: string, version: string)

  /** The record header. `code` is the fixed metadata tag, `time` the creation time. */
  datatype Meta<T> = Meta(userId: int, code: string, time: T, version: string)

  /** The whole saved value: header plus the ordered preference list. */
  datatype Record<V, T> = Record(meta: Meta<T>, preferences: seq<Pref<V, T>>)

  /** The content of the storage slot under the package key. */
  type Storage<V, T> = Option<Record<V, T>>

  /** What `getLocal` answers: `false`, `null`, or the decoded record. */
  datatype Local<V, T> = Unavailable | Missing | Found(record: Record<V, T>)
  {
    /** JavaScript truthiness of the answer. */
    predicate Truthy() { Found? }
  }

  /** What `initializeLocalPreferences` answers: `true`, `false`, or `undefined`. */
  datatype InitReply = Initialized | NotAvailable | AlreadyPresent
  {
    predicate Truthy() { Initialized? }
  }

  /** The answer of a writing call together with the storage it leaves behind. */
  datatype Step<R, V, T> = Step(reply: R, storage: Storage<V, T>)

  /** The metadata tag every record carries. */
  function MetaCode(pkg: Package): string
  {
    pkg.name + ":user:metadata"
  }

  /** A record with distinct preference codes. */
  predicate WellFormed<V, T>(r: Record<V, T>)
  {
    UniqueCodes(r.preferences)
  }

  /** `defaultLocalPreferences`: the fresh record for a user. */
  function DefaultLocalPreferences<V, T>(pkg: Package, userId: int, now: T): (r: Record<V, T>)
    ensures r.meta.userId == userId && r.meta.version == pkg.version
    ensures r.meta.code == MetaCode(pkg) && r.meta.time == now
    ensures |r.preferences| == 0
    ensures WellFormed(r)
  {
    Record(Meta(userId, MetaCode(pkg), now, pkg.version), [])
  }

  /** `getLocal`: read the slot, or report that storage is unavailable. */
  function GetLocal<V, T>(available: bool, s: Storage<V, T>): (l: Local<V, T>)
    ensures l.Unavailable? <==> !available
    ensures l.Missing? <==> available && s.None?
    ensures l.Found? ==> s == Some(l.record)
  {
    if !available then Unavailable
    else if s.None? then Missing
    else Found(s.value)
  }

  /** `removeLocal`: drop the whole record. It performs no availability check. */
  function RemoveLocal<V, T>(s: Storage<V, T>): (s': Storage<V, T>)
    ensures forall available :: !GetLocal(available, s').Truthy()
  {
    None
  }

  /** `initializeLocalPreferences`: store the default record unless one is present. */
  function InitializeLocalPreferences<V, T>(pkg: Package, available: bool, s: Storage<V, T>,
                                            userId: int, now: T): (st: Step<InitReply, V, T>)
    ensures !available ==> st == Step(NotAvailable, s)
    ensures available && s.Some? ==> st == Step(AlreadyPresent, s)
    ensures available && s.None? ==>
              && st.reply == Initialized
              && st.storage == Some(DefaultLocalPreferences(pkg, userId, now))
    ensures st.reply.Truthy() <==> st.storage != s
  {
    if !available then Step(NotAvailable, s)
    else
      var local := GetLocal(available, s);
      if !local.Truthy() then Step(Initialized, Some(DefaultLocalPreferences(pkg, userId, now)))
      else Step(AlreadyPresent, s)
  }

  /** `resetLocal` is the same function as `initializeLocalPreferences`:
      it never overwrites a record that is already there. */
  function ResetLocal<V, T>(pkg: Package, available: bool, s: Storage<V, T>,
                            userId: int, now: T): (st: Step<InitReply, V, T>)
    ensures !available ==> st == Step(NotAvailable, s)
    ensures available && s.Some? ==> st == Step(AlreadyPresent, s)
    ensures available && s.None? ==>
              && st.reply == Initialized
              && st.storage == Some(DefaultLocalPreferences(pkg, userId, now))
    ensures s.Some? ==> st.storage == s && !st.reply.Truthy()
  {
    InitializeLocalPreferences(pkg, available, s, userId, now)
  }

  /** `getLocalPreference`: the value of the first entry with `code`, or `defaultValue`
      when storage is unavailable, no record exists, the list is empty, or no entry matches. */
  function GetLocalPreference<V, T>(available: bool, s: Storage<V, T>, code: string, defaultValue: V): (v: V)
    ensures !available || s.None? ==> v == defaultValue
    ensures available && s.Some? && !HasCode(s.value.preferences, code) ==> v == defaultValue
    ensures available && s.Some? && HasCode(s.value.preferences, code) ==>
              v == s.value.preferences[FindIndex(s.value.preferences, code)].value
  {
    var local := GetLocal(available, s);
    if !local.Truthy() then defaultValue
    else if |local.record.preferences| < 1 then defaultValue
    else match Find(local.record.preferences, code)
      case None => defaultValue
      case Some(preference) => preference.value
  }

  /** `setLocalPreference`: upsert `{code, value, time: now}` into the stored record,
      starting from the user's default record when none is stored. */
  function SetLocalPreference<V, T>(pkg: Package, available: bool, s: Storage<V, T>,
                                    code: string, value: V, userId: int, now: T): (st: Step<bool, V, T>)
    ensures !available ==> st == Step(false, s)
    ensures available ==> st.reply && st.storage.Some?
    ensures available && s.Some? ==> st.storage.value.meta == s.value.meta
    ensures available && s.None? ==>
              st.storage.value == Record(DefaultLocalPreferences<V, T>(pkg, userId, now).meta,
                                         [Pref(code, value, now)])
    ensures available ==> Find(st.storage.value.preferences, code) == Some(Pref(code, value, now))
    // the stored list is the old list (empty when nothing was stored) with the entry upserted
    ensures available ==>
              st.storage.value.preferences
                == Upsert(if s.Some? then s.value.preferences else [], Pref(code, value, now))
  {
    if !available then Step(false, s)
    else
      var got := GetLocal(available, s);
      var local := if got.Truthy() then got.record else DefaultLocalPreferences(pkg, userId, now);
      var setItem := Pref(code, value, now);
      UpsertThenFind(local.preferences, setItem);
      Step(true, Some(local.(preferences := Upsert(local.preferences, setItem))))
  }

  /** Round trip: a successful write is what the next read of that code returns. */
  lemma SetThenGet<V, T>(pkg: Package, s: Storage<V, T>, code: string, value: V,
                         userId: int, now: T, defaultValue: V)
    ensures var st := SetLocalPreference(pkg, true, s, code, value, userId, now);
            st.reply && GetLocalPreference(true, st.storage, code, defaultValue) == value
  {
  }

  /** Nothing else changes: reads of every other code answer as before the write. */
  lemma SetKeepsOtherCodes<V, T>(pkg: Package, available: bool, s: Storage<V, T>, code: string,
                                 value: V, userId: int, now: T, other: string, defaultValue: V)
    requires other != code
    ensures var st := SetLocalPreference(pkg, available, s, code, value, userId, now);
            GetLocalPreference(available, st.storage, other, defaultValue)
              == GetLocalPreference(available, s, other, defaultValue)
  {
    if available {
      var local := if s.Some? then s.value else DefaultLocalPreferences<V, T>(pkg, userId, now);
      UpsertKeepsOtherCodes(local.preferences, Pref(code, value, now), other);
    }
  }

  /** The record's invariant survives every write. */
  lemma SetPreservesWellFormed<V, T>(pkg: Package, available: bool, s: Storage<V, T>, code: string,
                                     value: V, userId: int, now: T)
    requires s.Some? ==> WellFormed(s.value)
    ensures var st := SetLocalPreference(pkg, available, s, code, value, userId, now);
            st.storage.Some? ==> WellFormed(st.storage.value)
  {
    if available {
      var local := if s.Some? then s.value else DefaultLocalPreferences<V, T>(pkg, userId, now);
      UpsertPreservesUniqueCodes(local.preferences, Pref(code, value, now));
    }
  }

  /** Initialization is idempotent: a second call, with any user id and clock,
      leaves the storage exactly as the first call left it. */
  lemma InitializeIdempotent<V, T>(pkg: Package, available: bool, s: Storage<V, T>,
                                   userId: int, now: T, userId': int, now': T)
    ensures var first := InitializeLocalPreferences(pkg, available, s, userId, now);
            var second := InitializeLocalPreferences(pkg, available, first.storage, userId', now');
            second.storage == first.storage && !second.reply.Truthy()
  {
  }

  /** After a removal every lookup falls back to the caller's default. */
  lemma RemoveThenGet<V, T>(available: bool, s: Storage<V, T>, code: string, defaultValue: V)
    ensures GetLocalPreference(available, RemoveLocal(s), code, defaultValue) == defaultValue
  {
  }

  /** Removing and then initializing is the true reset `resetLocal` does not provide. */
  lemma RemoveThenInitialize<V, T>(pkg: Package, s: Storage<V, T>, userId: int, now: T)
    ensures var st := InitializeLocalPreferences(pkg, true, RemoveLocal(s), userId, now);
            st.reply == Initialized && st.storage == Some(DefaultLocalPreferences(pkg, userId, now))
  {
  }
}
