/**
  Sequences of calls against the one storage slot, used to state the
  record's lifecycle invariants: codes stay distinct, the header is written
  once, and unavailable storage is never written.
 */
module Session {
  import opened Wrappers
  import opened Prefs
  import opened Store

  /** The writing entry points of the package; reads never change the slot. */
  datatype Op<V, T> =
    | Initialize(userId: int, now: T)
    | Reset(userId: int, now: T)
    | Set(code: string, value: V, userId: int, now: T)
    | Remove

  /** One call, made while storage was available or not. */
  datatype Call<V, T> = Call(available: bool, op: Op<V, T>)

  /** The storage after one call. */
  function Apply<V, T>(pkg: Package, s: Storage<V, T>, c: Call<V, T>): Storage<V, T>
  {
    match c.op
    case Initialize(u, now) => InitializeLocalPreferences(pkg, c.available, s, u, now).storage
    case Reset(u, now) => ResetLocal(pkg, c.available, s, u, now).storage
    case Set(code, v, u, now) => SetLocalPreference(pkg, c.available, s, code, v, u, now).storage
    case Remove => RemoveLocal(s)
  }

  /** The storage after the calls in order. */
  function Run<V, T>(pkg: Package, s: Storage<V, T>, calls: seq<Call<V, T>>): Storage<V, T>
    decreases |calls|
  {
    if |calls| == 0 then s else Run(pkg, Apply(pkg, s, calls[0]), calls[1..])
  }

  /** A slot holding nothing, or a record with distinct codes. */
  predicate Good<V, T>(s: Storage<V, T>)
  {
    s.Some? ==> WellFormed(s.value)
  }

  /** Every call keeps the slot good. */
  lemma ApplyKeepsGood<V, T>(pkg: Package, s: Storage<V, T>, c: Call<V, T>)
    requires Good(s)
    ensures Good(Apply(pkg, s, c))
  {
    if c.op.Set? {
      SetPreservesWellFormed(pkg, c.available, s, c.op.code, c.op.value, c.op.userId, c.op.now);
    }
  }

  /** No history of calls ever produces a record with two entries of one code. */
  lemma {:induction false} RunKeepsGood<V, T>(pkg: Package, s: Storage<V, T>, calls: seq<Call<V, T>>)
    requires Good(s)
    ensures Good(Run(pkg, s, calls))
    decreases |calls|
  {
    if |calls| > 0 {
      ApplyKeepsGood(pkg, s, calls[0]);
      RunKeepsGood(pkg, Apply(pkg, s, calls[0]), calls[1..]);
    }
  }

  /** With storage unavailable throughout, no call other than a removal writes. */
  lemma {:induction false} UnavailableIsInert<V, T>(pkg: Package, s: Storage<V, T>, calls: seq<Call<V, T>>)
    requires forall i :: 0 <= i < |calls| ==> !calls[i].available && !calls[i].op.Remove?
    ensures Run(pkg, s, calls) == s
    decreases |calls|
  {
    if |calls| > 0 {
      assert Apply(pkg, s, calls[0]) == s;
      UnavailableIsInert(pkg, s, calls[1..]);
    }
  }

  /** Once a record exists, the header it was created with (user id, tag,
      creation time, version) survives every call except a removal. */
  lemma {:induction false} MetaWrittenOnce<V, T>(pkg: Package, s: Storage<V, T>, calls: seq<Call<V, T>>)
    requires s.Some?
    requires forall i :: 0 <= i < |calls| ==> !calls[i].op.Remove?
    ensures Run(pkg, s, calls).Some?
    ensures Run(pkg, s, calls).value.meta == s.value.meta
    decreases |calls|
  {
    if |calls| > 0 {
      var s1 := Apply(pkg, s, calls[0]);
      assert s1.Some? && s1.value.meta == s.value.meta;
      MetaWrittenOnce(pkg, s1, calls[1..]);
    }
  }

  /** The lifecycle scenario of a fresh browser: nothing stored, initialize for
      user 7, set "theme" to "dark"; the record then holds user 7 and exactly
      that one entry. */
  lemma FreshScenario<T>(pkg: Package, t0: T, t1: T)
    ensures var s0: Storage<string, T> := None;
            var init := InitializeLocalPreferences(pkg, true, s0, 7, t0);
            var written := SetLocalPreference(pkg, true, init.storage, "theme", "dark", 0, t1);
            && GetLocal(true, s0) == Missing
            && init.reply == Initialized
            && init.storage.value.meta.userId == 7 && init.storage.value.preferences == []
            && written.reply
            && written.storage.value.meta.userId == 7
            && written.storage.value.preferences == [Pref("theme", "dark", t1)]
  {
  }
}
