/** How many keys a row of slots holds. */
module Counting {

  /** The keys of the slots in use. */
  ghost function KeysHeld<K>(used: seq<bool>, keys: seq<K>): set<K>
    requires |used| == |keys|
  {
    set i | 0 <= i < |used| && used[i] :: keys[i]
  }

  ghost predicate DistinctKeys<K>(used: seq<bool>, keys: seq<K>)
    requires |used| == |keys|
  {
    forall i, j :: 0 <= i < j < |used| && used[i] && used[j] ==> keys[i] != keys[j]
  }

  /** Slots in use with distinct keys hold as many keys as there are slots
      exactly when every slot is in use, and never more. */
  lemma {:induction false} FullWhenAllUsed<K>(used: seq<bool>, keys: seq<K>)
    requires |used| == |keys| && DistinctKeys(used, keys)
    ensures |KeysHeld(used, keys)| <= |used|
    ensures |KeysHeld(used, keys)| == |used| <==> false !in used
    decreases |used|
  {
    if used != [] {
      hide KeysHeld, DistinctKeys;
      var n := |used| - 1;
      LastKey(used, keys);
      FullWhenAllUsed(used[..n], keys[..n]);
      LastUsed(used);
    }
  }

  lemma LastUsed(used: seq<bool>)
    requires used != []
    ensures false in used <==> false in used[..|used| - 1] || !used[|used| - 1]
  {
    assert used == used[..|used| - 1] + [used[|used| - 1]];
  }

  lemma LastKey<K>(used: seq<bool>, keys: seq<K>)
    requires |used| == |keys| && used != [] && DistinctKeys(used, keys)
    ensures var n := |used| - 1;
            var before := KeysHeld(used[..n], keys[..n]);
            && DistinctKeys(used[..n], keys[..n])
            && (used[n] ==> KeysHeld(used, keys) == before + {keys[n]} && keys[n] !in before)
            && (!used[n] ==> KeysHeld(used, keys) == before)
  {
    var n := |used| - 1;
    forall x | x in KeysHeld(used, keys) && (used[n] ==> x != keys[n])
      ensures x in KeysHeld(used[..n], keys[..n])
    {
      var i :| 0 <= i < |used| && used[i] && keys[i] == x;
      assert used[..n][i] && keys[..n][i] == x;
    }
  }
}
