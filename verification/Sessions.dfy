/** Whole sessions: every item read in a stop, in turn, and what the run of
    them means for the target and for resuming it. */
module Sessions {
  import opened Bytes
  import opened Memory
  import opened MemoryAccess
  import opened Breakpoints
  import opened Packets
  import opened Commands
  import opened MemoryCommands
  import opened Traces
  import opened Effects
  import opened Contexts
  import WatchSet
  import PageWalkX64
  import PageWalkAArch64
  import PageAccessX64
  import PageAccessAArch64

  /** One item read: the target before and after it, what went wrong beneath,
      and the payloads sent in answer. */
  datatype Turn = Turn(item: Item, before: Target, after: Target, mishaps: Mishaps, answers: seq<seq<Byte>>)

  ghost predicate IsTurn(c: Config, t: Turn) {
    && Fitting(c, t.before)
    && if Accepts(t.item) then Effect(c, t.before, t.after, CommandOf(t.item), t.mishaps, t.answers)
       else t.after == t.before && t.mishaps == NO_MISHAPS && t.answers == []
  }

  /** Turns that lead from one state of the target to another. */
  ghost predicate Session(c: Config, turns: seq<Turn>, first: Target, last: Target) {
    if turns == [] then last == first
    else
      var t := turns[|turns| - 1];
      IsTurn(c, t) && last == t.after && Session(c, turns[..|turns| - 1], first, t.before)
  }

  function Items(turns: seq<Turn>): (items: seq<Item>)
    ensures |items| == |turns|
  {
    seq(|turns|, i requires 0 <= i < |turns| => turns[i].item)
  }

  function AnswersOf(turns: seq<Turn>): (answers: seq<seq<seq<Byte>>>)
    ensures |answers| == |turns|
  {
    seq(|turns|, i requires 0 <= i < |turns| => turns[i].answers)
  }

  /** The breakpoint code could not access memory in some turn. */
  predicate FailedIn(turns: seq<Turn>) {
    exists i :: 0 <= i < |turns| && turns[i].mishaps.Failed()
  }

  /** Some attribute was not put back in some turn. */
  predicate UnrestoredIn(turns: seq<Turn>) {
    exists i :: 0 <= i < |turns| && turns[i].mishaps.unrestored
  }

  /** Some Get or Clear call failed in some turn. */
  predicate DeniedIn(turns: seq<Turn>) {
    exists i :: 0 <= i < |turns| && turns[i].mishaps.denied
  }

  /** Some command among the items resumes the target. */
  predicate ResumesIn(items: seq<Item>) {
    exists i :: 0 <= i < |items| && Accepts(items[i]) && Resumes(CommandOf(items[i]))
  }

  /** Some item is a packet that passes validation. */
  predicate AcceptsIn(items: seq<Item>) {
    exists i :: 0 <= i < |items| && Accepts(items[i])
  }

  /** Every command among the items keeps its copies inside the buffers. */
  predicate AllInBounds(items: seq<Item>) {
    forall i :: 0 <= i < |items| && Accepts(items[i]) ==> InBounds(CommandOf(items[i]))
  }

  lemma {:induction false} SessionConcat(c: Config, turns: seq<Turn>, turns': seq<Turn>,
                                         first: Target, middle: Target, last: Target)
    requires Session(c, turns, first, middle) && Session(c, turns', middle, last)
    ensures Session(c, turns + turns', first, last)
    ensures Items(turns + turns') == Items(turns) + Items(turns')
    ensures AnswersOf(turns + turns') == AnswersOf(turns) + AnswersOf(turns')
    decreases |turns'|
  {
    hide IsTurn;
    if turns' == [] {
      assert turns + turns' == turns;
    } else {
      var n := |turns'| - 1;
      SessionConcat(c, turns, turns'[..n], first, middle, turns'[n].before);
      assert turns + turns' == turns + turns'[..n] + [turns'[n]];
      assert (turns + turns')[..|turns| + n] == turns + turns'[..n];
    }
  }

  lemma ResumesConcat(items: seq<Item>, items': seq<Item>)
    ensures ResumesIn(items + items') <==> ResumesIn(items) || ResumesIn(items')
    ensures AcceptsIn(items + items') <==> AcceptsIn(items) || AcceptsIn(items')
  {
    hide Accepts, Resumes, CommandOf;
    var all := items + items';
    assert forall i :: 0 <= i < |items| ==> all[i] == items[i];
    assert forall i :: 0 <= i < |items'| ==> all[|items| + i] == items'[i];
    assert forall i :: |items| <= i < |all| ==> all[i] == items'[i - |items|];
  }

  /** Reading nothing. */
  lemma NoTurn(c: Config, line: Line, t: Target)
    ensures Session(c, [], t, t) && Play(line, Items([]), AnswersOf([])) == line
    ensures !ResumesIn(Items([])) && Items([]) == []
  {
  }

  /** An item that is not a valid packet leaves the target alone. */
  lemma IdleTurn(c: Config, item: Item, t: Target)
    requires Fitting(c, t) && !item.Packet?
    ensures IsTurn(c, Turn(item, t, t, NO_MISHAPS, []))
    ensures !Accepts(item)
  {
  }

  lemma FirstInBounds(items: seq<Item>)
    requires AllInBounds(items)
    ensures items != [] && Accepts(items[0]) ==> InBounds(CommandOf(items[0]))
  {
  }

  /** Reading one item. */
  lemma OneTurn(c: Config, line: Line, t: Turn)
    requires IsTurn(c, t)
    ensures Session(c, [t], t.before, t.after) && Items([t]) == [t.item]
    ensures Play(line, Items([t]), AnswersOf([t])) == PlayItem(line, t.item, t.answers)
    ensures ResumesIn(Items([t])) <==> Accepts(t.item) && Resumes(CommandOf(t.item))
  {
    hide IsTurn, PlayItem, Accepts, CommandOf, Resumes;
    assert [t][..0] == [];
    assert Items([t])[0] == t.item && AnswersOf([t])[0] == t.answers && [t][0] == t;
  }

  /** What a stub can be seen to be: its line, its target, and whether the
      target is to run. */
  datatype Snapshot = Snapshot(line: Line, target: Target, running: bool)

  /** From one moment of a stub to another by way of these turns. */
  ghost predicate Follows(c: Config, s: Snapshot, turns: seq<Turn>, s': Snapshot) {
    && s'.line == Play(s.line, Items(turns), AnswersOf(turns))
    && Session(c, turns, s.target, s'.target)
    && (s'.running <==> s.running || ResumesIn(Items(turns)))
  }

  lemma FollowsNothing(c: Config, s: Snapshot)
    ensures Follows(c, s, [], s) && Items([]) == []
  {
    NoTurn(c, s.line, s.target);
  }

  lemma FollowsConcat(c: Config, s: Snapshot, turns: seq<Turn>, s': Snapshot, turns': seq<Turn>, s'': Snapshot)
    requires Follows(c, s, turns, s') && Follows(c, s', turns', s'')
    ensures Follows(c, s, turns + turns', s'')
    ensures Items(turns + turns') == Items(turns) + Items(turns')
  {
    hide Session, Play, ResumesIn, Items, AnswersOf;
    SessionConcat(c, turns, turns', s.target, s'.target, s''.target);
    PlayConcat(s.line, Items(turns), AnswersOf(turns), Items(turns'), AnswersOf(turns'));
    ResumesConcat(Items(turns), Items(turns'));
  }

  lemma FollowsRunning(c: Config, s: Snapshot, turns: seq<Turn>, s': Snapshot)
    requires Follows(c, s, turns, s') && !s.running
    ensures s'.running <==> ResumesIn(Items(turns))
  {
  }

  /** A debugger is connected from the first valid packet on. */
  lemma FollowsConnects(c: Config, s: Snapshot, turns: seq<Turn>, s': Snapshot)
    requires Follows(c, s, turns, s')
    ensures Connected(s'.line.trace) <==> Connected(s.line.trace) || AcceptsIn(Items(turns))
  {
    hide Session, Play, ResumesIn, Items, AnswersOf, Connected;
    PlayConnects(s.line, Items(turns), AnswersOf(turns));
  }

  lemma {:induction false} PlayConnects(line: Line, items: seq<Item>, answers: seq<seq<seq<Byte>>>)
    requires |answers| == |items|
    ensures Connected(Play(line, items, answers).trace) <==> Connected(line.trace) || AcceptsIn(items)
    decreases |items|
  {
    hide Connected, PlayItem, Accepts;
    if items != [] {
      var n := |items| - 1;
      PlayConnects(line, items[..n], answers[..n]);
      ItemConnects(Play(line, items[..n], answers[..n]), items[n], answers[n]);
      assert items == items[..n] + [items[n]];
      ResumesConcat(items[..n], [items[n]]);
      assert AcceptsIn([items[n]]) <==> Accepts(items[n]) by { assert [items[n]][0] == items[n]; }
    }
  }

  lemma ItemConnects(line: Line, item: Item, answers: seq<seq<Byte>>)
    ensures Connected(PlayItem(line, item, answers).trace) <==> Connected(line.trace) || Accepts(item)
  {
    hide Accepts, LastPacket, Sends;
    var t, t' := line.trace, PlayItem(line, item, answers).trace;
    assert t <= t';
    if Accepts(item) {
      assert t'[|t| + 1].Executed?;
    } else if Connected(t) {
      var i :| 0 <= i < |t| && t[i].Executed?;
      assert t'[i].Executed?;
    }
  }

  lemma BoundsConcat(items: seq<Item>, items': seq<Item>)
    ensures AllInBounds(items + items') <==> AllInBounds(items) && AllInBounds(items')
  {
    hide Accepts, CommandOf, InBounds;
    var all := items + items';
    assert forall i :: 0 <= i < |items| ==> all[i] == items[i];
    assert forall i :: 0 <= i < |items'| ==> all[|items| + i] == items'[i];
    assert forall i :: |items| <= i < |all| ==> all[i] == items'[i - |items|];
  }

  // ------------------------------------------------- watchpoints in a run

  /** The bounded set of watches after the commands among the items. */
  function WatchesAcross(arch: Arch, held: set<WatchSet.Key>, items: seq<Item>): set<WatchSet.Key> {
    if items == [] then held
    else
      var n := |items| - 1;
      var before := WatchesAcross(arch, held, items[..n]);
      if !Accepts(items[n]) then before
      else
        match WatchRequestOf(arch, CommandOf(items[n]))
        case NoWatch => before
        case WatchOp(op) => WatchSet.SetAfter(before, op).1
  }

  /** Over any session the enabled slots hold distinct keys and are exactly the
      bounded set that the commands call for. */
  lemma {:induction false} SessionKeepsSet(c: Config, turns: seq<Turn>, first: Target, last: Target, held: set<WatchSet.Key>)
    requires Session(c, turns, first, last) && HoldsSet(first.slots, held)
    ensures HoldsSet(last.slots, WatchesAcross(c.arch, held, Items(turns)))
    decreases |turns|
  {
    hide HoldsSet, Effect, Accepts, CommandOf, WatchRequestOf, WatchSet.SetAfter;
    if turns != [] {
      var n := |turns| - 1;
      var t := turns[n];
      SessionKeepsSet(c, turns[..n], first, t.before, held);
      assert Items(turns)[..n] == Items(turns[..n]);
      if Accepts(t.item) {
        CommandKeepsSet(c, t.before, t.after, CommandOf(t.item), t.mishaps, t.answers,
                        WatchesAcross(c.arch, held, Items(turns[..n])));
      }
    }
  }

  // -------------------------------------------------- attributes in a run

  /** A session only ever takes access bits off. */
  lemma {:induction false} SessionWeakens(c: Config, turns: seq<Turn>, first: Target, last: Target)
    requires Session(c, turns, first, last) && Paged(first.attributes)
    ensures c.machine.Weakened(first.attributes, last.attributes)
    ensures last.attributes == first.attributes <==> !UnrestoredIn(turns)
    ensures first.failed.calls <= last.failed.calls && first.failed.sets <= last.failed.sets
    ensures UnrestoredIn(turns) <==> last.failed.sets > first.failed.sets
    ensures DeniedIn(turns) <==> last.failed.calls > first.failed.calls
    decreases |turns|
  {
    hide IsTurn, Machine.Weakened;
    if turns == [] {
      c.machine.WeakenedSelf(first.attributes);
    } else {
      var n := |turns| - 1;
      var t := turns[n];
      SessionWeakens(c, turns[..n], first, t.before);
      TurnWeakens(c, t);
      c.machine.WeakerStays(first.attributes, t.before.attributes, t.after.attributes);
      UnrestoredLast(turns);
    }
  }

  lemma UnrestoredLast(turns: seq<Turn>)
    requires turns != []
    ensures UnrestoredIn(turns) <==>
            UnrestoredIn(turns[..|turns| - 1]) || turns[|turns| - 1].mishaps.unrestored
    ensures DeniedIn(turns) <==> DeniedIn(turns[..|turns| - 1]) || turns[|turns| - 1].mishaps.denied
  {
    var n := |turns| - 1;
    assert forall i :: 0 <= i < n ==> turns[..n][i] == turns[i];
  }

  lemma TurnWeakens(c: Config, t: Turn)
    requires IsTurn(c, t)
    ensures AttributesEffect(c, t.before, t.after, t.mishaps)
  {
    hide Accepts, CommandOf, Effect, Machine.Weakened;
    if Accepts(t.item) {
      EffectWeakens(c, t.before, t.after, CommandOf(t.item), t.mishaps, t.answers);
    } else {
      c.machine.WeakenedSelf(t.before.attributes);
    }
  }

  /** A session leaves all page attributes alone if and only if every restoring
      call in it succeeds; and what its turns say of failed calls is so. */
  lemma AttributesAcross(c: Config, turns: seq<Turn>, first: Target, last: Target)
    requires Session(c, turns, first, last) && Paged(first.attributes)
    ensures last.attributes == first.attributes <==> last.failed.sets == first.failed.sets
    ensures UnrestoredIn(turns) <==> last.failed.sets > first.failed.sets
    ensures DeniedIn(turns) <==> last.failed.calls > first.failed.calls
  {
    SessionWeakens(c, turns, first, last);
  }

  // ------------------------------------ breakpoint memory within reach

  /** Every breakpoint command comes when its memory is accessible. */
  ghost predicate AllReached(c: Config, turns: seq<Turn>) {
    forall i :: 0 <= i < |turns| ==> TurnReached(c, turns[i])
  }

  ghost predicate TurnReached(c: Config, t: Turn) {
    Fitting(c, t.before) && (Accepts(t.item) ==> Reached(c, t.before, CommandOf(t.item), t.mishaps))
  }

  /** The breakpoint code fails beneath somewhere in a session if and only if
      some breakpoint command comes when its memory is not accessible. */
  lemma {:induction false} FailedIffOutOfReach(c: Config, turns: seq<Turn>, first: Target, last: Target)
    requires Session(c, turns, first, last)
    ensures FailedIn(turns) <==> !AllReached(c, turns)
    decreases |turns|
  {
    hide IsTurn, TurnReached;
    if turns != [] {
      var n := |turns| - 1;
      FailedIffOutOfReach(c, turns[..n], first, turns[n].before);
      TurnFailsIff(c, turns[n]);
      assert forall i :: 0 <= i < n ==> turns[..n][i] == turns[i];
    }
  }

  lemma TurnFailsIff(c: Config, t: Turn)
    requires IsTurn(c, t)
    ensures t.mishaps.Failed() <==> !TurnReached(c, t)
  {
    hide Accepts, CommandOf, Effect, Reached;
    if Accepts(t.item) {
      FailsIffOutOfReach(c, t.before, t.after, CommandOf(t.item), t.mishaps, t.answers);
    }
  }

  /** No page that a breakpoint command among the items asks for is stopped,
      going by these attributes. */
  ghost predicate WithinReach(c: Config, mem: seq<Byte>, attrs: seq<Attributes>, items: seq<Item>)
    requires Whole(mem) && Paged(attrs)
  {
    forall i :: 0 <= i < |items| && Accepts(items[i]) && AsksBreak(CommandOf(items[i])) ==>
      !c.machine.Blocked(mem, attrs, ParseBreak(Args(CommandOf(items[i]))).address, c.instr, true)
  }

  /** No call of the attribute protocol fails in a breakpoint command. */
  predicate BreaksUndenied(turns: seq<Turn>) {
    forall i :: 0 <= i < |turns| && Accepts(turns[i].item) && AsksBreak(CommandOf(turns[i].item)) ==>
      !turns[i].mishaps.denied
  }

  /** With attributes to go by, it is enough to look at them before the session. */
  lemma {:induction false} ReachedFromStart(c: Config, turns: seq<Turn>, first: Target, last: Target)
    requires Session(c, turns, first, last) && Fitting(c, first) && c.machine.phase != Dxe(false)
    requires WithinReach(c, first.state.memory, first.attributes, Items(turns)) && BreaksUndenied(turns)
    ensures AllReached(c, turns)
    decreases |turns|
  {
    hide Fitting, Accepts, CommandOf, AsksBreak, Effect, Machine.Blocked, Machine.Weakened, TurnReached;
    FittingParts(c, first);
    if turns != [] {
      var n := |turns| - 1;
      var t := turns[n];
      assert forall i :: 0 <= i < n ==> turns[..n][i] == turns[i] && Items(turns[..n])[i] == Items(turns)[i];
      ReachedFromStart(c, turns[..n], first, t.before);
      SessionWeakens(c, turns[..n], first, t.before);
      assert Items(turns)[n] == t.item;
      LastReached(c, t, first);
    }
  }

  lemma FittingParts(c: Config, t: Target)
    requires Fitting(c, t)
    ensures Formed(t.state) && Whole(t.state.memory) && Paged(t.attributes) && IsInstruction(c.instr)
  {
  }

  lemma LastReached(c: Config, t: Turn, first: Target)
    requires IsTurn(c, t) && Fitting(c, first) && c.machine.phase != Dxe(false)
    requires c.machine.Weakened(first.attributes, t.before.attributes)
    requires Accepts(t.item) && AsksBreak(CommandOf(t.item)) ==>
               && !t.mishaps.denied
               && !c.machine.Blocked(first.state.memory, first.attributes,
                                     ParseBreak(Args(CommandOf(t.item))).address, c.instr, true)
    ensures TurnReached(c, t)
  {
    hide Accepts, CommandOf, Effect, Machine.Blocked, Machine.Weakened, FindActive, FindFree, ParseBreak;
    if Accepts(t.item) && AsksBreak(CommandOf(t.item)) {
      var a, m, s := ParseBreak(Args(CommandOf(t.item))).address, c.machine, t.before.state;
      m.BlockedWeakened(first.state.memory, first.attributes, t.before.attributes, a, c.instr, true);
      m.AttributesDecide(first.state.memory, s.memory, t.before.attributes, a, c.instr, c.instr, true, false);
      m.AttributesDecide(first.state.memory, s.memory, t.before.attributes, a, c.instr, c.instr, true, true);
      var i := FindActive(s.table, a);
      if i < |s.table| {
        m.AttributesDecide(first.state.memory, s.memory, t.before.attributes, a, c.instr,
                           s.table[i].original[..|c.instr|], true, true);
      }
    }
  }

  // With page tables to go by, if the session keeps off them.

  /** Every command among the items keeps off these words. */
  ghost predicate AllKeepOff(instr: seq<Byte>, items: seq<Item>, entries: seq<Address>) {
    forall i :: 0 <= i < |items| && Accepts(items[i]) ==> KeepsOff(instr, CommandOf(items[i]), entries)
  }

  /** Page a can be read and written, and no command among the items touches the
      words that decide it. */
  ghost predicate StaysAccessible(c: Config, mem: seq<Byte>, items: seq<Item>, a: Address)
    requires Whole(mem)
  {
    && c.machine.canRead(mem, a) && c.machine.canWrite(mem, a)
    && exists entries :: c.machine.DecidedBy(mem, a, entries) && AllKeepOff(c.instr, items, entries)
  }

  /** All breakpoint commands are for instruction boundaries on pages that stay accessible. */
  ghost predicate WithinTables(c: Config, mem: seq<Byte>, items: seq<Item>)
    requires Whole(mem)
  {
    forall i :: 0 <= i < |items| && Accepts(items[i]) && AsksBreak(CommandOf(items[i])) ==>
      var a := ParseBreak(Args(CommandOf(items[i]))).address;
      Aligned(a, |c.instr|) && StaysAccessible(c, mem, items, a)
  }

  /** Under the X64 walk: a writable page whose table entries are kept off. */
  lemma AccessibleX64(c: Config, mem: seq<Byte>, items: seq<Item>, a: Address, cr3: nat, la57: bool)
    requires Whole(mem) && PageAccessX64.Walks(c.machine, cr3, la57) && PageWalkX64.IsPageWritable(mem, cr3, la57, a)
    requires AllKeepOff(c.instr, items, PageAccessX64.Entries(mem, cr3, la57, a))
    ensures StaysAccessible(c, mem, items, a)
  {
    hide AllKeepOff, PageAccessX64.Entries, PageWalkX64.GetPageIs, Machine.DecidedBy;
    PageAccessX64.EntriesDecide(c.machine, cr3, la57, mem, a);
  }

  /** Under the AArch64 lookup: a page found writable whose access flag is set. */
  lemma AccessibleAArch64(c: Config, mem: seq<Byte>, items: seq<Item>, a: Address, ttbr0: Address, t0sz: nat)
    requires ttbr0 <= PageWalkAArch64.TWO48 && PageWalkAArch64.MIN_T0SZ <= t0sz <= PageWalkAArch64.MAX_T0SZ
    requires Whole(mem) && PageAccessAArch64.Walks(c.machine, ttbr0, t0sz)
    requires PageWalkAArch64.CheckPageAccess(mem, ttbr0, t0sz, a, true)
    requires PageAccessAArch64.Accessed(mem, ttbr0, t0sz, a)
    requires AllKeepOff(c.instr, items, PageAccessAArch64.Entries(mem, ttbr0, t0sz, a))
    ensures StaysAccessible(c, mem, items, a)
  {
    hide AllKeepOff, PageAccessAArch64.Entries, PageWalkAArch64.CheckPageAccess, PageAccessAArch64.Accessed;
    hide Machine.DecidedBy;
    PageAccessAArch64.WritableReads(mem, ttbr0, t0sz, a);
    PageAccessAArch64.EntriesDecide(c.machine, ttbr0, t0sz, mem, a);
  }

  lemma {:induction false} SessionWordsKept(c: Config, turns: seq<Turn>, first: Target, last: Target,
                                            entries: seq<Address>)
    requires Session(c, turns, first, last) && Fitting(c, first) && AllKeepOff(c.instr, Items(turns), entries)
    ensures Whole(first.state.memory) && Whole(last.state.memory)
    ensures SameWords(first.state.memory, last.state.memory, entries)
    decreases |turns|
  {
    hide Accepts, CommandOf, Effect, KeepsOff, SameWords;
    FittingParts(c, first);
    SameSelf(first.state.memory, entries);
    if turns != [] {
      var n := |turns| - 1;
      var t := turns[n];
      assert forall i :: 0 <= i < n ==> Items(turns[..n])[i] == Items(turns)[i];
      assert Items(turns)[n] == t.item;
      SessionWordsKept(c, turns[..n], first, t.before, entries);
      if Accepts(t.item) {
        WordsKept(c, t.before, t.after, CommandOf(t.item), t.mishaps, t.answers, entries);
        SameWordsAcross(first.state.memory, t.before.state.memory, t.after.state.memory, entries);
      }
    }
  }

  /** The part of a session before turn i. */
  lemma {:induction false} SessionUpTo(c: Config, turns: seq<Turn>, first: Target, last: Target, i: nat)
    requires Session(c, turns, first, last) && i < |turns|
    ensures IsTurn(c, turns[i]) && Session(c, turns[..i], first, turns[i].before)
    decreases |turns|
  {
    hide IsTurn;
    var n := |turns| - 1;
    if i < n {
      SessionUpTo(c, turns[..n], first, turns[n].before, i);
      assert turns[..n][..i] == turns[..i] && turns[..n][i] == turns[i];
    }
  }

  /** It is enough to look at the page tables before the session, if the session
      keeps off them. */
  lemma ReachedFromTables(c: Config, turns: seq<Turn>, first: Target, last: Target)
    requires Session(c, turns, first, last) && Fitting(c, first) && c.machine.phase == Dxe(false)
    requires WithinTables(c, first.state.memory, Items(turns)) && BreaksUndenied(turns)
    ensures AllReached(c, turns)
  {
    hide Session, IsTurn, TurnReached, Fitting, Accepts, CommandOf, AsksBreak, StaysAccessible;
    FittingParts(c, first);
    forall i | 0 <= i < |turns|
      ensures TurnReached(c, turns[i])
    {
      SessionUpTo(c, turns, first, last, i);
      assert Items(turns)[i] == turns[i].item;
      TurnInTables(c, turns, first, i);
    }
  }

  lemma TurnInTables(c: Config, turns: seq<Turn>, first: Target, i: nat)
    requires i < |turns| && IsTurn(c, turns[i]) && Session(c, turns[..i], first, turns[i].before)
    requires Fitting(c, first) && c.machine.phase == Dxe(false)
    requires Accepts(turns[i].item) && AsksBreak(CommandOf(turns[i].item)) ==>
               var a := ParseBreak(Args(CommandOf(turns[i].item))).address;
               && !turns[i].mishaps.denied && Aligned(a, |c.instr|)
               && StaysAccessible(c, first.state.memory, Items(turns), a)
    ensures TurnReached(c, turns[i])
  {
    hide Session, Accepts, CommandOf, Effect, Machine.Blocked, FindActive, FindFree, ParseBreak;
    hide Machine.DecidedBy, SameWords, KeepsOff, AddBlocked, RemoveBlocked;
    var t := turns[i];
    if Accepts(t.item) && AsksBreak(CommandOf(t.item)) {
      var a := ParseBreak(Args(CommandOf(t.item))).address;
      var mem, s := first.state.memory, t.before.state;
      var entries :| c.machine.DecidedBy(mem, a, entries) && AllKeepOff(c.instr, Items(turns), entries);
      assert forall k :: 0 <= k < i ==> Items(turns[..i])[k] == Items(turns)[k];
      SessionWordsKept(c, turns[..i], first, t.before, entries);
      c.machine.Decides(mem, s.memory, a, entries);
      BlockedIffRefused(c.machine, t.before.attributes, s, c.instr, a);
    }
  }

  // ------------------------------------------------- breakpoints in a run

  /** The planted addresses after the commands among the items. */
  function PlantedAcross(planted: set<Address>, items: seq<Item>): set<Address> {
    if items == [] then planted
    else
      var n := |items| - 1;
      var before := PlantedAcross(planted, items[..n]);
      if Accepts(items[n]) then PlantedBy(before, CommandOf(items[n])) else before
  }

  /** Every command is considerate of what is planted when it comes. */
  ghost predicate AllConsiderate(planted: set<Address>, size: int, items: seq<Item>)
    requires size == 1 || size == 4
  {
    forall i :: 0 <= i < |items| && Accepts(items[i]) ==>
      Considerate(PlantedAcross(planted, items[..i]), size, CommandOf(items[i]))
  }

  predicate Writes(item: Item) {
    Accepts(item) && Letter(CommandOf(item)) == 'M' as int
  }

  /** The program's own memory in each turn: only memory writes change it, and
      with the very bytes that they put into live memory. */
  ghost predicate Plain(c: Config, turns: seq<Turn>, memories: seq<seq<Byte>>) {
    && |memories| == |turns| + 1
    && (forall i :: 0 <= i < |memories| ==> Whole(memories[i]))
    && forall i :: 0 <= i < |turns| ==> PlainTurn(c, turns[i], memories[i], memories[i + 1])
  }

  ghost predicate PlainTurn(c: Config, t: Turn, mem: seq<Byte>, mem': seq<Byte>)
    requires Whole(mem)
  {
    if Writes(t.item) then
      |t.answers| == 1 && Whole(t.before.state.memory)
      && SameWrite(t.before.state.memory, t.after.state.memory, mem, mem', Args(CommandOf(t.item)), t.answers[0])
    else mem' == mem
  }

  /** Over any session whose breakpoint commands come when their memory is
      accessible, the table and memory stand, turn after turn, for the program's own memory with
      the right breakpoints planted, and setting or lifting breakpoints never
      shows in the program's own memory. */
  lemma {:induction false} SessionIsTransparent(c: Config, turns: seq<Turn>, first: Target, last: Target, v: View)
    returns (memories: seq<seq<Byte>>)
    requires IsInstruction(c.instr) && Session(c, turns, first, last) && Represents(first.state, v, c.instr)
    requires AllReached(c, turns) && AllConsiderate(v.planted, |c.instr|, Items(turns))
    ensures Plain(c, turns, memories) && memories[0] == v.pristine
    ensures Represents(last.state, View(memories[|turns|], PlantedAcross(v.planted, Items(turns))), c.instr)
    decreases |turns|
  {
    hide Represents, Considerate, Accepts, CommandOf, IsTurn, PlainTurn, PlantedBy, AllReached, TurnReached, AllConsiderate;
    if turns == [] {
      memories := [v.pristine];
      RepresentsWhole(first.state, v, c.instr);
    } else {
      var n := |turns| - 1;
      var t := turns[n];
      SessionPrefix(c, turns, v.planted, |c.instr|);
      var earlier := SessionIsTransparent(c, turns[..n], first, t.before, v);
      var v' := TurnIsTransparent(c, t, View(earlier[n], PlantedAcross(v.planted, Items(turns[..n]))));
      memories := earlier + [v'.pristine];
      RepresentsWhole(last.state, v', c.instr);
      assert Items(turns)[..n] == Items(turns[..n]);
      forall i | 0 <= i < |turns|
        ensures PlainTurn(c, turns[i], memories[i], memories[i + 1])
      {
        if i < n { assert PlainTurn(c, turns[..n][i], earlier[i], earlier[i + 1]); }
      }
    }
  }

  /** Setting and lifting breakpoints alone never changes the program's own memory. */
  lemma {:induction false} PlainUnwritten(c: Config, turns: seq<Turn>, memories: seq<seq<Byte>>, n: nat)
    requires Plain(c, turns, memories) && n <= |turns|
    requires forall i :: 0 <= i < n ==> !Writes(turns[i].item)
    ensures memories[n] == memories[0]
    decreases n
  {
    hide Writes;
    if n > 0 {
      PlainUnwritten(c, turns, memories, n - 1);
      assert PlainTurn(c, turns[n - 1], memories[n - 1], memories[n - 1 + 1]);
    }
  }

  lemma SessionPrefix(c: Config, turns: seq<Turn>, planted: set<Address>, size: int)
    requires turns != [] && (size == 1 || size == 4)
    requires AllReached(c, turns) && AllConsiderate(planted, size, Items(turns))
    ensures AllReached(c, turns[..|turns| - 1]) && AllConsiderate(planted, size, Items(turns[..|turns| - 1]))
    ensures TurnReached(c, turns[|turns| - 1])
    ensures Accepts(turns[|turns| - 1].item) ==>
              Considerate(PlantedAcross(planted, Items(turns[..|turns| - 1])), size, CommandOf(turns[|turns| - 1].item))
  {
    hide Considerate, Accepts, CommandOf, PlantedAcross, TurnReached;
    var n := |turns| - 1;
    var before := Items(turns[..n]);
    assert Items(turns)[..n] == before;
    forall i | 0 <= i < n
      ensures Accepts(before[i]) ==> Considerate(PlantedAcross(planted, before[..i]), size, CommandOf(before[i]))
    {
      assert Items(turns)[..i] == before[..i] && Items(turns)[i] == before[i];
    }
    assert Items(turns)[n] == turns[n].item;
  }

  lemma TurnIsTransparent(c: Config, t: Turn, v: View) returns (v': View)
    requires IsTurn(c, t) && Represents(t.before.state, v, c.instr) && TurnReached(c, t) && IsInstruction(c.instr)
    requires Accepts(t.item) ==> Considerate(v.planted, |c.instr|, CommandOf(t.item))
    ensures Whole(v.pristine) && Represents(t.after.state, v', c.instr)
    ensures v'.planted == if Accepts(t.item) then PlantedBy(v.planted, CommandOf(t.item)) else v.planted
    ensures PlainTurn(c, t, v.pristine, v'.pristine)
  {
    hide Represents, Considerate, Accepts, Effect, PlantedBy, SameWrite, Reached;
    RepresentsWhole(t.before.state, v, c.instr);
    v' := v;
    if Accepts(t.item) {
      v' := CommandIsTransparent(c, t.before, t.after, CommandOf(t.item), t.mishaps, t.answers, v);
    }
  }

  // -------------------------------------------------- one input, item by item

  /** What a scan comes to, given the items already read and whether more are to be. */
  function Ahead(items: seq<Item>, more: bool, input: seq<In>): Scanned {
    if more then Scanned(items + Scan(input).items, Scan(input).rest) else Scanned(items, input)
  }

  lemma AheadStep(items: seq<Item>, input: seq<In>, items': seq<Item>, more: bool, input': seq<In>)
    requires Scan(input) == Ahead(items', more, input')
    ensures Ahead(items, true, input) == Ahead(items + items', more, input')
    ensures more && AllInBounds(Scan(input).items) ==> AllInBounds(Scan(input').items)
  {
    hide Scan, AllInBounds;
    if more { BoundsConcat(items', Scan(input').items); }
  }

  lemma AheadDone(items: seq<Item>, input: seq<In>)
    ensures Ahead(items, false, input) == Scanned(items, input)
  {
  }

  lemma AheadOfAll(input: seq<In>)
    ensures Scan(input) == Ahead([], true, input)
  {
  }

  // ------------------------------------------------------ a stop, entire

  datatype Drained = Drained(items: seq<Item>, rest: seq<In>)

  /** The inner loop of ReportEntryToDebugger: read while the transport has data. */
  function Drain(input: seq<In>): (d: Drained)
    ensures |d.rest| <= |input|
    ensures d.rest == [] || d.rest[0].Idle?
    decreases |input|
  {
    if input != [] && input[0].Data? then
      var s := Scan(input);
      var d := Drain(s.rest);
      Drained(s.items + d.items, d.rest)
    else Drained([], input)
  }

  function Joined(items: seq<Item>, d: Drained): Drained {
    Drained(items + d.items, d.rest)
  }

  lemma DrainBegins(items: seq<Item>, input: seq<In>)
    requires input != [] && input[0].Data?
    ensures var s := Scan(input);
            && Drain(input) == Joined(s.items, Drain(s.rest))
            && Joined(items, Drain(input)) == Joined(items + s.items, Drain(s.rest))
  {
  }

  lemma DrainNothing(input: seq<In>)
    requires input == [] || input[0].Idle?
    ensures Drain(input) == Drained([], input)
  {
  }

  /** What a stop has come to: the items it read, the input it left, and
      whether the target runs again (or the stub still waits as input ends). */
  datatype Waited = Waited(items: seq<Item>, rest: seq<In>, running: bool)

  function Prefixed(items: seq<Item>, w: Waited): Waited {
    Waited(items + w.items, w.rest, w.running)
  }

  /** The outer loop, entered with this much input. */
  function Await(input: seq<In>, running: bool, connected: bool, endTime: nat): (w: Waited)
    ensures |w.rest| <= |input|
    decreases |input|
  {
    if running then Waited([], input, true)
    else
      var d := Drain(input);
      var resumed, connected' := ResumesIn(d.items), connected || AcceptsIn(d.items);
      if d.rest == [] then Waited(d.items, [], resumed)
      else
        var expired := !connected' && endTime != 0 && d.rest[0].now >= endTime;
        Prefixed(d.items, Await(d.rest[1..], resumed || expired, connected', endTime))
  }

  /** The first round, seen from where its input ends. */
  lemma AwaitBegins(input: seq<In>, connected: bool, endTime: nat)
    ensures var d := Drain(input);
            Await(input, false, connected, endTime)
            == Prefixed(d.items, AwaitMore(d, connected || AcceptsIn(d.items), endTime))
    ensures AllInBounds(Await(input, false, connected, endTime).items) ==> AllInBounds(Drain(input).items)
  {
    hide Drain, ResumesIn, AcceptsIn, AllInBounds;
    var d := Drain(input);
    BoundsConcat(d.items, AwaitMore(d, connected || AcceptsIn(d.items), endTime).items);
  }

  /** What comes after the data of a round has been dealt with. */
  function AwaitMore(d: Drained, connected: bool, endTime: nat): Waited
    requires d.rest == [] || d.rest[0].Idle?
  {
    var resumed := ResumesIn(d.items);
    if d.rest == [] then Waited([], [], resumed)
    else Await(d.rest[1..], resumed || (!connected && endTime != 0 && d.rest[0].now >= endTime), connected, endTime)
  }

  lemma PrefixedTwice(items: seq<Item>, items': seq<Item>, w: Waited)
    ensures Prefixed(items, Prefixed(items', w)) == Prefixed(items + items', w)
  {
  }

  /** The stop ended on its timeout: one that was set, with the clock past it at
      some poll that found nothing. */
  predicate Expired(input: seq<In>, endTime: nat) {
    endTime != 0 && exists i :: 0 <= i < |input| && input[i].Idle? && input[i].now >= endTime
  }

  lemma {:induction false} DrainSuffix(input: seq<In>) returns (k: nat)
    ensures k <= |input| && Drain(input).rest == input[k..]
    decreases |input|
  {
    k := 0;
    if input != [] && input[0].Data? {
      var j := ScanSuffix(input);
      var m := DrainSuffix(Scan(input).rest);
      k := j + m;
    }
  }

  lemma ScanSuffix(input: seq<In>) returns (k: nat)
    ensures k <= |input| && Scan(input).rest == input[k..]
  {
    var e := ScanSpells(input);
    k := |input| - |Scan(input).rest|;
  }

  /** A stop ends because of a command that resumes, or because its timeout
      passed when no valid packet had been received in this stop or before. */
  lemma {:induction false} ResumeSafety(input: seq<In>, connected: bool, endTime: nat)
    ensures var w := Await(input, false, connected, endTime);
            && (ResumesIn(w.items) ==> w.running)
            && (w.running ==> ResumesIn(w.items)
                              || (!connected && !AcceptsIn(w.items) && Expired(input, endTime)))
    decreases |input|
  {
    hide ResumesIn, AcceptsIn, Scan;
    var d := Drain(input);
    if d.rest != [] {
      var resumed, connected' := ResumesIn(d.items), connected || AcceptsIn(d.items);
      var expired := !connected' && endTime != 0 && d.rest[0].now >= endTime;
      var k := DrainSuffix(input);
      assert d.rest[0] == input[k];
      var w := Await(d.rest[1..], resumed || expired, connected', endTime);
      ResumesConcat(d.items, w.items);
      NothingRead();
      if !(resumed || expired) {
        ResumeSafety(d.rest[1..], connected', endTime);
        assert forall i :: 0 <= i < |d.rest[1..]| ==> d.rest[1..][i] == input[k + 1 + i];
      }
    }
  }

  lemma NothingRead()
    ensures !ResumesIn([]) && !AcceptsIn([])
  {
  }

  /** The input starts with pauses, the last of which, at k, is the first one not
      before the end time. */
  predicate PausesUntil(input: seq<In>, k: int, endTime: nat) {
    && 0 <= k < |input| && (forall j :: 0 <= j < k ==> input[j].Idle? && input[j].now < endTime)
    && input[k].Idle? && input[k].now >= endTime
  }

  /** With no debugger there, a stop that has a timeout ends at the first poll not
      before it, and not earlier; one that has none goes on waiting. */
  lemma {:induction false} TimeoutEnds(input: seq<In>, endTime: nat)
    ensures forall k :: PausesUntil(input, k, endTime) && endTime != 0 ==>
              Await(input, false, false, endTime) == Waited([], input[k + 1..], true)
    ensures (forall j :: 0 <= j < |input| ==> input[j].Idle? && (endTime != 0 ==> input[j].now < endTime)) ==>
              Await(input, false, false, endTime) == Waited([], [], false)
    decreases |input|
  {
    NothingRead();
    if input != [] && input[0].Idle? {
      TimeoutEnds(input[1..], endTime);
      assert forall j :: 1 <= j < |input| ==> input[1..][j - 1] == input[j];
      forall k | PausesUntil(input, k, endTime) && endTime != 0
        ensures Await(input, false, false, endTime) == Waited([], input[k + 1..], true)
      {
        if k > 0 {
          assert PausesUntil(input[1..], k - 1, endTime);
          assert input[1..][k..] == input[k + 1..];
        }
      }
      assert forall j :: 0 <= j < |input[1..]| ==> input[1..][j] == input[j + 1];
    }
  }

  /** Every packet among the items is whole: delimited, with its checksum. */
  predicate AllCollected(items: seq<Item>) {
    forall i :: 0 <= i < |items| && items[i].Packet? ==> WellCollected(items[i].bytes)
  }

  lemma CollectedConcat(items: seq<Item>, items': seq<Item>)
    requires AllCollected(items) && AllCollected(items')
    ensures AllCollected(items + items')
  {
    hide WellCollected;
  }

  lemma {:induction false} DrainCollects(input: seq<In>)
    ensures AllCollected(Drain(input).items)
    decreases |input|
  {
    hide WellCollected, AllCollected, Scan;
    if input != [] && input[0].Data? {
      ScanCollects(input);
      DrainCollects(Scan(input).rest);
      CollectedConcat(Scan(input).items, Drain(Scan(input).rest).items);
    } else {
      NoneCollected();
    }
  }

  lemma ScanCollects(input: seq<In>)
    ensures AllCollected(Scan(input).items)
  {
    hide WellCollected, Scan;
    ScannedAgree(input);
  }

  lemma NoneCollected()
    ensures AllCollected([])
  {
  }

  /** Every packet that a stop takes from its input is whole. */
  lemma {:induction false} AwaitCollects(input: seq<In>, running: bool, connected: bool, endTime: nat)
    ensures AllCollected(Await(input, running, connected, endTime).items)
    decreases |input|
  {
    hide AllCollected, ResumesIn, AcceptsIn, Drain;
    NoneCollected();
    if !running {
      var d := Drain(input);
      DrainCollects(input);
      if d.rest != [] {
        var connected' := connected || AcceptsIn(d.items);
        var running' := ResumesIn(d.items) || (!connected' && endTime != 0 && d.rest[0].now >= endTime);
        AwaitCollects(d.rest[1..], running', connected', endTime);
        CollectedConcat(d.items, Await(d.rest[1..], running', connected', endTime).items);
      }
    }
  }

  /** A whole stop acknowledges and executes exactly what its items call for. */
  lemma StopControls(line: Line, input: seq<In>, connected: bool, endTime: nat, answers: seq<seq<seq<Byte>>>)
    requires |answers| == |Await(input, false, connected, endTime).items|
    ensures var items := Await(input, false, connected, endTime).items;
            Control(Play(line, items, answers).trace) == Control(line.trace) + ControlOf(items)
  {
    hide Play, Control, ControlOf, Await;
    AwaitCollects(input, false, connected, endTime);
    PlayControls(line, Await(input, false, connected, endTime).items, answers);
  }

  /** In a whole stop: a packet with the right checksum is acknowledged and its
      command executed, any other packet and one cut short is refused, nothing
      else is acknowledged or executed. */
  lemma StopAnswers(line: Line, input: seq<In>, connected: bool, endTime: nat, answers: seq<seq<seq<Byte>>>, i: nat)
    requires |answers| == |Await(input, false, connected, endTime).items| && i < |answers|
    ensures var items := Await(input, false, connected, endTime).items;
            var before, after := ControlAfter(line, items, answers, i), ControlAfter(line, items, answers, i + 1);
            && (items[i].Packet? ==>
                  && (forall c :: Means(items[i].bytes, c) ==> after == before + [Acked(true), Executed(c)])
                  && ((forall c :: !Means(items[i].bytes, c)) ==> after == before + [Acked(false)]))
            && (items[i].Broken? ==> after == before + [Acked(false)])
            && (!items[i].Packet? && !items[i].Broken? ==> after == before)
  {
    hide ControlAfter, Await, Means, WellCollected;
    AwaitCollects(input, false, connected, endTime);
    EveryItemIsAnswered(line, Await(input, false, connected, endTime).items, answers, i);
  }

  /** What resumes the target, spelled out. */
  lemma ResumesSpelled(items: seq<Item>)
    ensures ResumesIn(items) <==>
            exists i, d :: 0 <= i < |items| && Accepts(items[i]) && SpelledAt(CommandOf(items[i]), d)
  {
    hide Accepts, CommandOf, Resumes, SpelledAt;
    forall i | 0 <= i < |items| && Accepts(items[i])
      ensures Resumes(CommandOf(items[i])) <==> exists d :: SpelledAt(CommandOf(items[i]), d)
    {
      ResumesIffCont(CommandOf(items[i]));
    }
  }
}
