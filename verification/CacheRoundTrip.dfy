/**
 What survives a round trip through the file: loading overrides the cache it is loaded into, as long
 as the first and the last entry of every name agree.
 */
module CacheRoundTrip {
  import opened Wrappers
  import opened CacheFormat

  const NO_BLOCK: seq<byte> := [0, 0, 0, 0, 0, 0, 0, 0]

  // ---------------------------------------------------------------- caches built by cache_set

  // No name twice.
  ghost predicate Distinct(es: seq<Entry>) {
    forall i, j :: 0 <= i < j < |es| ==> es[i].key != es[j].key
  }

  lemma SetActs(es: seq<Entry>, n: name, v: word64, m: name)
    ensures Lookup(Set(es, n, v), m) == if m == n then Some(v) else Lookup(es, m)
    ensures Distinct(es) ==> Distinct(Set(es, n, v))
  {
    var k, after := Find(es, n), Set(es, n, v);
    if m == n {
      FindUnique(after, n, if k < |es| then k else 0);
    } else {
      FindUnique(after, m, if k < |es| then Find(es, m) else Find(es, m) + 1);
    }
  }

  // A cache after the given assignments, in order.
  function Build(sets: seq<Entry>): seq<Entry> {
    if sets == [] then [] else Set(Build(sets[..|sets| - 1]), sets[|sets| - 1].key, sets[|sets| - 1].value)
  }

  function LastSet(sets: seq<Entry>, n: name): Option<word64> {
    if sets == [] then None
    else if sets[|sets| - 1].key == n then Some(sets[|sets| - 1].value)
    else LastSet(sets[..|sets| - 1], n)
  }

  lemma {:induction false} BuildIs(sets: seq<Entry>, n: name)
    ensures Lookup(Build(sets), n) == LastSet(sets, n) && Distinct(Build(sets))
  {
    if sets != [] {
      var front, e := sets[..|sets| - 1], sets[|sets| - 1];
      BuildIs(front, n);
      SetActs(Build(front), e.key, e.value, n);
    }
  }

  // cache_get after any assignments: the last value assigned, 0 for a name never assigned.
  lemma GetIs(sets: seq<Entry>, n: name)
    ensures LastSet(sets, n).Some? ==> Get(Build(sets), n) == LastSet(sets, n).value
    ensures (forall i :: 0 <= i < |sets| ==> sets[i].key != n) ==> Get(Build(sets), n) == 0
  {
    BuildIs(sets, n);
    NeverSet(sets, n);
  }

  lemma {:induction false} NeverSet(sets: seq<Entry>, n: name)
    ensures LastSet(sets, n).None? <==> forall i :: 0 <= i < |sets| ==> sets[i].key != n
  {
    if sets != [] {
      NeverSet(sets[..|sets| - 1], n);
    }
  }

  // ---------------------------------------------------------------- reversed lists

  lemma {:induction false} ReverseAt(es: seq<Entry>, k: nat)
    requires k < |es|
    ensures Reverse(es)[k] == es[|es| - 1 - k]
  {
    if k < |es| - 1 {
      ReverseAt(es[1..], k);
    }
  }

  predicate IsLast(es: seq<Entry>, j: nat)
    requires j < |es|
  {
    forall k :: j < k < |es| ==> es[k].key != es[j].key
  }

  predicate IsFirst(es: seq<Entry>, i: nat)
    requires i < |es|
  {
    forall k :: 0 <= k < i ==> es[k].key != es[i].key
  }

  // In the reversed list, in front of another, the last entry of a name is the one that is found.
  lemma ReversedLookup(es: seq<Entry>, base: seq<Entry>, j: nat)
    requires j < |es| && IsLast(es, j)
    ensures Lookup(Reverse(es) + base, es[j].key) == Some(es[j].value)
  {
    var all, k := Reverse(es) + base, |es| - 1 - j;
    forall i | 0 <= i <= k
      ensures all[i] == es[|es| - 1 - i]
    {
      ReverseAt(es, i);
    }
    FindUnique(all, es[j].key, k);
  }

  lemma ReversedMissing(es: seq<Entry>, base: seq<Entry>, n: name)
    requires Lookup(es, n).None?
    ensures Lookup(Reverse(es) + base, n) == Lookup(base, n)
  {
    var all := Reverse(es) + base;
    forall i | 0 <= i < |es|
      ensures all[i] == es[|es| - 1 - i]
    {
      ReverseAt(es, i);
    }
    FindUnique(all, n, |es| + Find(base, n));
  }

  lemma {:induction false} LastExists(es: seq<Entry>, i: nat) returns (j: nat)
    requires i < |es|
    ensures i <= j < |es| && es[j].key == es[i].key && IsLast(es, j)
    decreases |es| - i
  {
    if IsLast(es, i) {
      j := i;
    } else {
      var k :| i < k < |es| && es[k].key == es[i].key;
      j := LastExists(es, k);
    }
  }

  // ---------------------------------------------------------------- loading

  // Loading is map override: names of the file win, other names keep their value.
  ghost predicate Overrides(loaded: seq<Entry>, es: seq<Entry>, base: seq<Entry>) {
    forall n: name :: Lookup(loaded, n) == if Lookup(es, n).Some? then Lookup(es, n) else Lookup(base, n)
  }

  // The first and the last entry of every name hold the same value.
  ghost predicate EndsAgree(es: seq<Entry>) {
    forall i, j :: 0 <= i < |es| && 0 <= j < |es| && es[i].key == es[j].key && IsFirst(es, i) && IsLast(es, j) ==>
      es[i].value == es[j].value
  }

  lemma OverridesIff(es: seq<Entry>, base: seq<Entry>)
    ensures Overrides(Reverse(es) + base, es, base) <==> EndsAgree(es)
  {
    if EndsAgree(es) {
      forall n: name
        ensures Lookup(Reverse(es) + base, n) == if Lookup(es, n).Some? then Lookup(es, n) else Lookup(base, n)
      {
        if Lookup(es, n).Some? {
          var i := Find(es, n);
          var j := LastExists(es, i);
          ReversedLookup(es, base, j);
          assert IsFirst(es, i);
        } else {
          ReversedMissing(es, base, n);
        }
      }
    }
    if Overrides(Reverse(es) + base, es, base) {
      forall i, j | 0 <= i < |es| && 0 <= j < |es| && es[i].key == es[j].key && IsFirst(es, i) && IsLast(es, j)
        ensures es[i].value == es[j].value
      {
        ReversedLookup(es, base, j);
        FindUnique(es, es[i].key, i);
      }
    }
  }

  // Writing a cache and loading the file over another one acts as map override exactly when the
  // ends agree.
  lemma LoadOverrides(es: seq<Entry>, base: seq<Entry>)
    ensures exists loaded ::
              && Load(Serialize(es), NO_BLOCK, base) == Loaded(loaded)
              && (Overrides(loaded, es, base) <==> EndsAgree(es))
  {
    LoadSerialized(es, base, NO_BLOCK);
    OverridesIff(es, base);
    assert Load(Serialize(es), NO_BLOCK, base) == Loaded(Reverse(es) + base);
  }

  // A cache built by assignments comes back with every lookup intact, although its order is reversed.
  lemma RoundTrip(sets: seq<Entry>)
    ensures var es := Build(sets);
            && Load(Serialize(es), NO_BLOCK, []) == Loaded(Reverse(es))
            && forall n: name :: Lookup(Reverse(es), n) == LastSet(sets, n) && Get(Reverse(es), n) == Get(es, n)
  {
    var es := Build(sets);
    LoadSerialized(es, [], NO_BLOCK);
    assert Reverse(es) + [] == Reverse(es);
    OverridesIff(es, []);
    forall n: name
      ensures Lookup(es, n) == LastSet(sets, n) && Distinct(es)
    {
      BuildIs(sets, n);
    }
    assert Distinct(es) by {
      BuildIs(sets, []);
    }
    assert EndsAgree(es);
    assert Overrides(Reverse(es), es, []);
  }

  // A cache that was itself loaded over another can hold a name twice; written and loaded again, it
  // falls back to the older value.
  lemma StaleAfterReload(n: name, older: word64, newer: word64)
    requires older != newer
    ensures var first, file := Build([Entry(n, older)]), Build([Entry(n, newer)]);
            var merged := Load(Serialize(file), NO_BLOCK, first);
            && merged.Loaded? && Get(merged.entries, n) == newer
            && Load(Serialize(merged.entries), NO_BLOCK, []).Loaded?
            && Get(Load(Serialize(merged.entries), NO_BLOCK, []).entries, n) == older
  {
    var first, file := [Entry(n, older)], [Entry(n, newer)];
    BuildOne(n, older);
    BuildOne(n, newer);
    LoadSerialized(file, first, NO_BLOCK);
    var merged := Reverse(file) + first;
    assert merged == [Entry(n, newer), Entry(n, older)];
    LoadSerialized(merged, [], NO_BLOCK);
    ReversedLookup(merged, [], 1);
    assert Lookup(merged, n) == Some(newer);
  }

  lemma BuildOne(n: name, v: word64)
    ensures Build([Entry(n, v)]) == [Entry(n, v)]
  {
    var sets := [Entry(n, v)];
    assert sets[..|sets| - 1] == [] && Build([]) == [];
  }
}
