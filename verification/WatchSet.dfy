/** Four watchpoint slots, and the bounded set of watches they stand for. */
module WatchSet {
  import opened Memory
  import opened Counting

  const MAX_WATCHPOINTS: int := 4

  /** What the hardware is told: address, access code and length code. */
  datatype Key = Key(address: Address, access: nat, length: nat)
  datatype Slot = Slot(enabled: bool, key: Key)

  // ---------------------------------------------- the slot discipline

  /** First enabled slot holding this key, or the number of slots. */
  function FindKey(slots: seq<Slot>, k: Key): (i: nat)
    ensures i <= |slots|
    ensures i < |slots| ==> slots[i].enabled && slots[i].key == k
    ensures forall j :: 0 <= j < i ==> !(slots[j].enabled && slots[j].key == k)
  {
    if slots == [] then 0
    else if slots[0].enabled && slots[0].key == k then 0
    else 1 + FindKey(slots[1..], k)
  }

  function FindFree(slots: seq<Slot>): (i: nat)
    ensures i <= |slots|
    ensures i < |slots| ==> !slots[i].enabled
    ensures forall j :: 0 <= j < i ==> slots[j].enabled
  {
    if slots == [] then 0 else if !slots[0].enabled then 0 else 1 + FindFree(slots[1..])
  }

  lemma FindKeyIs(slots: seq<Slot>, k: Key, i: nat)
    requires i < |slots| && slots[i].enabled && slots[i].key == k
    requires forall j :: 0 <= j < i ==> !(slots[j].enabled && slots[j].key == k)
    ensures FindKey(slots, k) == i
  {
    if FindKey(slots, k) < i { assert false; }
  }

  lemma FindFreeIs(slots: seq<Slot>, i: nat)
    requires i < |slots| && !slots[i].enabled
    requires forall j :: 0 <= j < i ==> slots[j].enabled
    ensures FindFree(slots) == i
  {
    if FindFree(slots) < i { assert false; }
  }

  predicate CanAdd(slots: seq<Slot>, k: Key) {
    FindKey(slots, k) < |slots| || FindFree(slots) < |slots|
  }

  function Add(slots: seq<Slot>, k: Key): (r: seq<Slot>)
    ensures |r| == |slots|
  {
    if FindKey(slots, k) < |slots| || FindFree(slots) == |slots| then slots
    else slots[FindFree(slots) := Slot(true, k)]
  }

  predicate CanRemove(slots: seq<Slot>, k: Key) {
    FindKey(slots, k) < |slots|
  }

  // ------------------------------------------------------- the set view

  predicate Distinct(slots: seq<Slot>) {
    forall i, j :: 0 <= i < j < |slots| && slots[i].enabled && slots[j].enabled ==> slots[i].key != slots[j].key
  }

  ghost function Held(slots: seq<Slot>): set<Key> {
    set i | 0 <= i < |slots| && slots[i].enabled :: slots[i].key
  }

  /** slots' is slots without k: its slot disabled (what else the slot holds is
      up to the architecture), or the same slots if k was not held. */
  predicate WithoutKey(slots: seq<Slot>, k: Key, slots': seq<Slot>) {
    && |slots'| == |slots|
    && var i := FindKey(slots, k);
       if i == |slots| then slots' == slots
       else !slots'[i].enabled && slots' == slots[i := slots'[i]]
  }

  lemma HeldCount(slots: seq<Slot>)
    requires Distinct(slots)
    ensures |Held(slots)| <= |slots|
    ensures |Held(slots)| == |slots| <==> FindFree(slots) == |slots|
  {
    hide FindFree;
    var n := |slots|;
    var used := seq(n, i requires 0 <= i < n => slots[i].enabled);
    var keys := seq(n, i requires 0 <= i < n => slots[i].key);
    FullWhenAllUsed(used, keys);
    forall k
      ensures k in Held(slots) <==> k in KeysHeld(used, keys)
    {
      if k in Held(slots) {
        var i :| 0 <= i < n && slots[i].enabled && slots[i].key == k;
        assert used[i] && keys[i] == k;
      }
    }
    assert Held(slots) == KeysHeld(used, keys);
    assert forall i :: 0 <= i < n ==> used[i] == slots[i].enabled;
  }

  /** Adding is idempotent, fails only when a new key meets a full set, and
      otherwise adds exactly its key. */
  lemma AddRefines(slots: seq<Slot>, k: Key)
    requires Distinct(slots)
    ensures Distinct(Add(slots, k))
    ensures CanAdd(slots, k) <==> k in Held(slots) || |Held(slots)| < |slots|
    ensures CanAdd(slots, k) ==> Held(Add(slots, k)) == Held(slots) + {k}
    ensures !CanAdd(slots, k) ==> Add(slots, k) == slots
    ensures Add(Add(slots, k), k) == Add(slots, k)
  {
    hide FindKey, FindFree;
    HeldCount(slots);
    var i, j, slots' := FindKey(slots, k), FindFree(slots), Add(slots, k);
    assert k in Held(slots) <==> i < |slots|;
    if i == |slots| && j < |slots| {
      assert slots'[j] == Slot(true, k);
      forall x | x in Held(slots)
        ensures x in Held(slots')
      {
        var n :| 0 <= n < |slots| && slots[n].enabled && slots[n].key == x;
        assert slots'[n] == slots[n];
      }
    }
    if i < |slots| { assert Held(slots) + {k} == Held(slots); }
  }

  lemma RemoveRefines(slots: seq<Slot>, k: Key, slots': seq<Slot>)
    requires Distinct(slots) && WithoutKey(slots, k, slots')
    ensures Distinct(slots')
    ensures CanRemove(slots, k) <==> k in Held(slots)
    ensures Held(slots') == Held(slots) - {k}
  {
    var i := FindKey(slots, k);
    assert k in Held(slots) <==> i < |slots|;
    forall x | x in Held(slots) - {k}
      ensures x in Held(slots')
    {
      var n :| 0 <= n < |slots| && slots[n].enabled && slots[n].key == x;
      assert slots'[n] == slots[n];
    }
  }

  // --------------------------------------------------------- whole runs

  datatype Op = AddKey(k: Key) | RemoveKey(k: Key)

  /** One operation on slots, with the verdict returned to the debugger. */
  predicate Step(slots: seq<Slot>, op: Op, ok: bool, slots': seq<Slot>) {
    match op
    case AddKey(k) => ok == CanAdd(slots, k) && slots' == Add(slots, k)
    case RemoveKey(k) => ok == CanRemove(slots, k) && WithoutKey(slots, k, slots')
  }

  /** The same operation on a set of at most four keys. */
  function SetAfter(held: set<Key>, op: Op): (r: (bool, set<Key>)) {
    match op
    case AddKey(k) =>
      if k in held || |held| < MAX_WATCHPOINTS then (true, held + {k}) else (false, held)
    case RemoveKey(k) => (k in held, held - {k})
  }

  /** A history of slot contents, from one with nothing enabled. */
  predicate Run(states: seq<seq<Slot>>, ops: seq<Op>, verdicts: seq<bool>) {
    && |states| == |ops| + 1 && |verdicts| == |ops|
    && |states[0]| == MAX_WATCHPOINTS
    && (forall i :: 0 <= i < MAX_WATCHPOINTS ==> !states[0][i].enabled)
    && forall n :: 0 <= n < |ops| ==> Step(states[n], ops[n], verdicts[n], states[n + 1])
  }

  function SetRun(ops: seq<Op>): set<Key> {
    if ops == [] then {} else SetAfter(SetRun(ops[..|ops| - 1]), ops[|ops| - 1]).1
  }

  lemma StepRefines(slots: seq<Slot>, op: Op, ok: bool, slots': seq<Slot>)
    requires |slots| == MAX_WATCHPOINTS && Distinct(slots) && Step(slots, op, ok, slots')
    ensures |slots'| == MAX_WATCHPOINTS && Distinct(slots')
    ensures (ok, Held(slots')) == SetAfter(Held(slots), op)
    ensures |Held(slots')| <= MAX_WATCHPOINTS
  {
    match op
    case AddKey(k) =>
      AddRefines(slots, k);
      HeldCount(slots');
    case RemoveKey(k) =>
      RemoveRefines(slots, k, slots');
      HeldCount(slots');
  }

  /** In every run from reset the enabled slots hold distinct keys and are
      exactly the bounded set. */
  lemma {:induction false} RunHoldsSet(states: seq<seq<Slot>>, ops: seq<Op>, verdicts: seq<bool>)
    requires Run(states, ops, verdicts)
    ensures |states[|ops|]| == MAX_WATCHPOINTS && Distinct(states[|ops|])
    ensures Held(states[|ops|]) == SetRun(ops) && |SetRun(ops)| <= MAX_WATCHPOINTS
    decreases |ops|
  {
    hide Step, SetAfter;
    if ops == [] {
      assert Held(states[0]) == {};
    } else {
      hide Held, Distinct;
      var m := |ops| - 1;
      RunPrefix(states, ops, verdicts);
      RunHoldsSet(states[..|ops|], ops[..m], verdicts[..m]);
      StepRefines(states[m], ops[m], verdicts[m], states[m + 1]);
    }
  }

  /** And every verdict on the way is the bounded set's verdict. */
  lemma {:induction false} RunRefinesSet(states: seq<seq<Slot>>, ops: seq<Op>, verdicts: seq<bool>)
    requires Run(states, ops, verdicts)
    ensures |states[|ops|]| == MAX_WATCHPOINTS && Distinct(states[|ops|])
    ensures Held(states[|ops|]) == SetRun(ops) && |SetRun(ops)| <= MAX_WATCHPOINTS
    ensures forall n :: 0 <= n < |ops| ==> verdicts[n] == SetAfter(SetRun(ops[..n]), ops[n]).0
    decreases |ops|
  {
    hide Step, SetAfter, Held, Distinct, SetRun;
    RunHoldsSet(states, ops, verdicts);
    if ops != [] {
      var m := |ops| - 1;
      RunPrefix(states, ops, verdicts);
      RunRefinesSet(states[..|ops|], ops[..m], verdicts[..m]);
      LastVerdict(states, ops, verdicts);
      assert forall n :: 0 <= n < m ==> ops[..m][..n] == ops[..n] && ops[..m][n] == ops[n];
    }
  }

  lemma LastVerdict(states: seq<seq<Slot>>, ops: seq<Op>, verdicts: seq<bool>)
    requires Run(states, ops, verdicts) && ops != []
    ensures var m := |ops| - 1; verdicts[m] == SetAfter(SetRun(ops[..m]), ops[m]).0
  {
    hide Step, SetAfter, Held, Distinct, SetRun;
    var m := |ops| - 1;
    RunPrefix(states, ops, verdicts);
    RunHoldsSet(states[..|ops|], ops[..m], verdicts[..m]);
    StepRefines(states[m], ops[m], verdicts[m], states[m + 1]);
  }

  lemma RunPrefix(states: seq<seq<Slot>>, ops: seq<Op>, verdicts: seq<bool>)
    requires Run(states, ops, verdicts) && ops != []
    ensures Run(states[..|ops|], ops[..|ops| - 1], verdicts[..|ops| - 1])
  {
  }
}
