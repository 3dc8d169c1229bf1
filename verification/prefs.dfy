/**
  The preference list of a stored record: an ordered sequence of entries
  `{code, value, time}` that behaves like an association list keyed by `code`.
  The value and the timestamp are opaque to the list logic.
 */
module Prefs {
  import opened Wrappers

  /** One stored preference entry. */
  datatype Pref<V, T> = Pref(code: string, value: V, time: T)

  /** True iff some entry carries `code`. */
  predicate HasCode<V, T>(prefs: seq<Pref<V, T>>, code: string)
  {
    exists j :: 0 <= j < |prefs| && prefs[j].code == code
  }

  /** The invariant a record's list is meant to keep: no two entries share a code. */
  predicate UniqueCodes<V, T>(prefs: seq<Pref<V, T>>)
  {
    forall i, j :: 0 <= i < j < |prefs| ==> prefs[i].code != prefs[j].code
  }

  /** `Array.prototype.findIndex` with the test `pref.code === code`:
      the index of the first entry carrying `code`, or -1. */
  function FindIndex<V, T>(prefs: seq<Pref<V, T>>, code: string): (i: int)
    ensures -1 <= i < |prefs|
    ensures i == -1 <==> !HasCode(prefs, code)
    ensures 0 <= i ==> prefs[i].code == code
    ensures 0 <= i ==> forall j :: 0 <= j < i ==> prefs[j].code != code
    decreases |prefs|
  {
    if |prefs| == 0 then -1
    else if prefs[0].code == code then 0
    else
      var k := FindIndex(prefs[1..], code);
      assert forall j :: 1 <= j < |prefs| ==> prefs[1..][j - 1] == prefs[j];
      if k == -1 then -1 else k + 1
  }

  /** `Array.prototype.find` with the same test: the first entry carrying `code`. */
  function Find<V, T>(prefs: seq<Pref<V, T>>, code: string): (r: Option<Pref<V, T>>)
    ensures r.None? <==> !HasCode(prefs, code)
    ensures r.Some? ==> r.value.code == code && r.value in prefs
    ensures r.Some? ==> exists i :: 0 <= i < |prefs| && prefs[i] == r.value
                                  && forall j :: 0 <= j < i ==> prefs[j].code != code
  {
    var i := FindIndex(prefs, code);
    if i < 0 then None else Some(prefs[i])
  }

  /** The write step of `setLocalPreference`: overwrite the first entry whose
      code matches `item.code` in place, or append `item` when there is none. */
  function Upsert<V, T>(prefs: seq<Pref<V, T>>, item: Pref<V, T>): (r: seq<Pref<V, T>>)
    // an existing entry is replaced at its own position, nothing else moves
    ensures HasCode(prefs, item.code) ==>
              var i := FindIndex(prefs, item.code);
              && |r| == |prefs|
              && r[i] == item
              && forall j :: 0 <= j < |prefs| && j != i ==> r[j] == prefs[j]
    // a new code goes to the end, after the untouched earlier entries
    ensures !HasCode(prefs, item.code) ==>
              && |r| == |prefs| + 1
              && r[|prefs|] == item
              && r[..|prefs|] == prefs
  {
    var i := FindIndex(prefs, item.code);
    if i > -1 then prefs[i := item] else prefs + [item]
  }

  /** Reference meaning of a preference list: the code-to-value map that
      lookups see, where the first entry with a code hides later ones. */
  function ToMap<V, T>(prefs: seq<Pref<V, T>>): map<string, V>
    decreases |prefs|
  {
    if |prefs| == 0 then map[]
    else ToMap(prefs[1..])[prefs[0].code := prefs[0].value]
  }

  /** Upsert seen one entry at a time: it stops at the first matching entry. */
  lemma {:induction false} UpsertCons<V, T>(prefs: seq<Pref<V, T>>, item: Pref<V, T>)
    requires |prefs| > 0
    ensures prefs[0].code == item.code ==> Upsert(prefs, item) == [item] + prefs[1..]
    ensures prefs[0].code != item.code ==> Upsert(prefs, item) == [prefs[0]] + Upsert(prefs[1..], item)
  {
    var rest := prefs[1..];
    assert prefs == [prefs[0]] + rest;
    if prefs[0].code != item.code {
      var i := FindIndex(prefs, item.code);
      var k := FindIndex(rest, item.code);
      if HasCode(rest, item.code) {
        assert i == k + 1;
        assert prefs[i := item] == [prefs[0]] + rest[k := item];
      } else {
        assert !HasCode(prefs, item.code) by {
          forall j | 0 <= j < |prefs|
            ensures prefs[j].code != item.code
          {
            if j > 0 { assert prefs[j] == rest[j - 1]; }
          }
        }
        assert prefs + [item] == [prefs[0]] + (rest + [item]);
      }
    }
  }

  /** Lookup through `Find` agrees with the reference map, in both directions. */
  lemma {:induction false} FindMatchesMap<V, T>(prefs: seq<Pref<V, T>>, code: string)
    ensures Find(prefs, code).Some? <==> code in ToMap(prefs)
    ensures Find(prefs, code).Some? ==> Find(prefs, code).value.value == ToMap(prefs)[code]
    decreases |prefs|
  {
    if |prefs| > 0 {
      var rest := prefs[1..];
      FindMatchesMap(rest, code);
      if prefs[0].code != code {
        assert FindIndex(prefs, code) == (var k := FindIndex(rest, code); if k == -1 then -1 else k + 1);
      }
    }
  }

  /** Upsert is a map update on the reference meaning. */
  lemma {:induction false} UpsertIsMapUpdate<V, T>(prefs: seq<Pref<V, T>>, item: Pref<V, T>)
    ensures ToMap(Upsert(prefs, item)) == ToMap(prefs)[item.code := item.value]
    decreases |prefs|
  {
    if |prefs| == 0 {
      assert Upsert(prefs, item) == [item];
      assert [item][1..] == [];
    } else {
      UpsertCons(prefs, item);
      var r := Upsert(prefs, item);
      if prefs[0].code == item.code {
        assert r[1..] == prefs[1..];
      } else {
        UpsertIsMapUpdate(prefs[1..], item);
        assert r[1..] == Upsert(prefs[1..], item);
      }
    }
  }

  /** Round trip: after an upsert, looking the code up yields exactly the new entry. */
  lemma UpsertThenFind<V, T>(prefs: seq<Pref<V, T>>, item: Pref<V, T>)
    ensures Find(Upsert(prefs, item), item.code) == Some(item)
  {
    var r := Upsert(prefs, item);
    if !HasCode(prefs, item.code) {
      assert r[|prefs|] == item;
      assert FindIndex(r, item.code) == |prefs|;
    }
  }

  /** Nothing else changes: lookups of every other code see the same entry as before. */
  lemma UpsertKeepsOtherCodes<V, T>(prefs: seq<Pref<V, T>>, item: Pref<V, T>, code: string)
    requires code != item.code
    ensures Find(Upsert(prefs, item), code) == Find(prefs, code)
  {
    var r := Upsert(prefs, item);
    var i := FindIndex(prefs, code);
    var k := FindIndex(r, code);
    if HasCode(prefs, item.code) {
      var p := FindIndex(prefs, item.code);
      assert forall j :: 0 <= j < |r| ==> (r[j].code == code <==> prefs[j].code == code);
    } else {
      assert forall j :: 0 <= j < |prefs| ==> r[j] == prefs[j];
    }
    if i >= 0 {
      assert r[i] == prefs[i];
      assert k == i;
    } else {
      assert k == -1;
    }
  }

  /** Distinct codes stay distinct across an upsert. */
  lemma UpsertPreservesUniqueCodes<V, T>(prefs: seq<Pref<V, T>>, item: Pref<V, T>)
    requires UniqueCodes(prefs)
    ensures UniqueCodes(Upsert(prefs, item))
  {
    var r := Upsert(prefs, item);
    assert forall j :: 0 <= j < |prefs| ==> r[j].code == prefs[j].code;
  }

  /** On a list with distinct codes, exactly one entry carries the written code
      afterwards, and it is the written entry. */
  lemma UpsertLeavesOneEntry<V, T>(prefs: seq<Pref<V, T>>, item: Pref<V, T>)
    requires UniqueCodes(prefs)
    ensures UniqueCodes(Upsert(prefs, item))
    ensures item in Upsert(prefs, item)
    ensures forall j :: 0 <= j < |Upsert(prefs, item)| && Upsert(prefs, item)[j].code == item.code ==>
              Upsert(prefs, item)[j] == item
  {
    UpsertPreservesUniqueCodes(prefs, item);
    UpsertThenFind(prefs, item);
  }

  /** Writing the same code twice is the same as writing only the second entry. */
  lemma UpsertTwice<V, T>(prefs: seq<Pref<V, T>>, first: Pref<V, T>, second: Pref<V, T>)
    requires first.code == second.code
    ensures Upsert(Upsert(prefs, first), second) == Upsert(prefs, second)
  {
    var r1 := Upsert(prefs, first);
    if HasCode(prefs, first.code) {
      var i := FindIndex(prefs, first.code);
      assert FindIndex(r1, first.code) == i;
    } else {
      assert FindIndex(r1, first.code) == |prefs|;
    }
  }
}
