/** AccessMemory in its DXE and MM forms: page by page, with page attributes
    dropped and put back around each copy. */
module MemoryAccess {
  import opened Bytes
  import opened Memory

  /** The bits of an attribute mask that the agent looks at, and all others. */
  datatype Attribute = ReadOnly | ReadProtect | OtherBit(bit: nat)

  type Attributes = set<Attribute>

  /** Which build of AccessMemory runs, and whether the DXE one has found the
      memory attribute protocol. */
  datatype Phase = Dxe(protocol: bool) | Mm

  /** What can go wrong beneath an operation without showing in its reply: the
      breakpoint code could not read, or could not write, what it meant to; some
      Get or Clear call failed; some Set call failed. */
  datatype Mishaps = Mishaps(unread: bool, unwritten: bool, denied: bool, unrestored: bool) {
    predicate Failed() {
      unread || unwritten
    }
  }

  /** How many calls of the attribute protocol reported an error: Get and Clear
      calls, Set calls. */
  datatype Failures = Failures(calls: nat, sets: nat)

  const NO_MISHAPS := Mishaps(false, false, false, false)

  ghost predicate Paged(attributes: seq<Attributes>) {
    |attributes| == PAGES
  }

  function PageOf(a: Address): (p: int)
    ensures 0 <= p < PAGES
  {
    a / PAGE
  }

  /** Byte i of a range is the first one the range touches in its page. */
  predicate StartsPage(address: Address, length: nat, i: int) {
    0 <= i < length < SPACE && (i == 0 || At(address, i) % PAGE == 0)
  }

  function LengthInPage(a: Address, left: nat): (n: nat)
    requires 0 < left
    ensures 0 < n <= left && a % PAGE + n <= PAGE
    ensures n == left || n == PAGE - a % PAGE
  {
    if left < PAGE - a % PAGE then left else PAGE - a % PAGE
  }

  class Machine {
    const phase: Phase
    /** IsPageReadable and IsPageWritable: verdicts on the live page tables. */
    const canRead: (seq<Byte>, Address) -> bool
    const canWrite: (seq<Byte>, Address) -> bool
    var memory: seq<Byte>
    var attributes: seq<Attributes>
    ghost var failed: Failures

    ghost predicate Valid()
      reads this
    {
      Whole(memory) && Paged(attributes)
    }

    constructor (phase: Phase, canRead: (seq<Byte>, Address) -> bool, canWrite: (seq<Byte>, Address) -> bool,
                 memory: seq<Byte>, attributes: seq<Attributes>)
      requires Whole(memory) && Paged(attributes)
      ensures Valid()
      ensures this.phase == phase && this.canRead == canRead && this.canWrite == canWrite
      ensures this.memory == memory && this.attributes == attributes
    {
      this.phase, this.canRead, this.canWrite := phase, canRead, canWrite;
      this.memory, this.attributes, this.failed := memory, attributes, Failures(0, 0);
    }

    /** Policy, not a failing call, keeps the agent from touching this page. */
    ghost predicate Refuses(mem: seq<Byte>, attrs: seq<Attributes>, a: Address, write: bool)
      requires Paged(attrs)
    {
      match phase
      case Mm => false
      case Dxe(true) => ReadProtect in attrs[PageOf(a)]
      case Dxe(false) => if write then !canWrite(mem, a) else !canRead(mem, a)
    }

    /** What a Get, Clear or Set call may do: report an error and change
        nothing, or act on exactly one page. */
    method GetAttributes(a: Address) returns (ok: bool, attrs: Attributes)
      requires Valid()
      modifies this`failed
      ensures ok ==> attrs == attributes[PageOf(a)]
      ensures !ok ==> attrs == {}
      ensures failed == if ok then old(failed) else Failures(old(failed.calls) + 1, old(failed.sets))
    {
      ok := *;
      if !ok { failed := failed.(calls := failed.calls + 1); }
      attrs := if ok then attributes[PageOf(a)] else {};
    }

    method ClearAttributes(a: Address, bits: Attributes) returns (ok: bool)
      requires Valid()
      modifies this`attributes, this`failed
      ensures Valid()
      ensures !ok ==> attributes == old(attributes)
      ensures ok ==> attributes == old(attributes)[PageOf(a) := old(attributes)[PageOf(a)] - bits]
      ensures failed == if ok then old(failed) else Failures(old(failed.calls) + 1, old(failed.sets))
    {
      ok := *;
      if !ok { failed := failed.(calls := failed.calls + 1); }
      if ok { attributes := attributes[PageOf(a) := attributes[PageOf(a)] - bits]; }
    }

    method SetAttributes(a: Address, bits: Attributes) returns (ok: bool)
      requires Valid()
      modifies this`attributes, this`failed
      ensures Valid()
      ensures !ok ==> attributes == old(attributes)
      ensures ok ==> attributes == old(attributes)[PageOf(a) := old(attributes)[PageOf(a)] + bits]
      ensures failed == if ok then old(failed) else Failures(old(failed.calls), old(failed.sets) + 1)
    {
      ok := *;
      if !ok { failed := failed.(sets := failed.sets + 1); }
      if ok { attributes := attributes[PageOf(a) := attributes[PageOf(a)] + bits]; }
    }

    /** `denied` says that some Get or Clear call failed since, `restored` that no
        Set call did. */
    twostate predicate Logged(denied: bool, restored: bool)
      reads this`failed
    {
      && old(failed.calls) <= failed.calls && old(failed.sets) <= failed.sets
      && (denied <==> failed.calls > old(failed.calls))
      && (restored <==> failed.sets == old(failed.sets))
    }

    /** CopyMem within one page. Its precondition is that the copy cannot
        fault: the page is not read-protected, nor read-only for a write. */
    method CopyPage(a: Address, data: array<Byte>, pos: nat, n: nat, write: bool)
      requires Valid()
      requires 0 < n && a % PAGE + n <= PAGE && pos + n <= data.Length
      requires phase != Dxe(false) ==> ReadProtect !in attributes[PageOf(a)]
      requires phase != Dxe(false) && write ==> ReadOnly !in attributes[PageOf(a)]
      requires phase == Dxe(false) ==> if write then canWrite(memory, a) else canRead(memory, a)
      modifies this`memory, data
      ensures Valid()
      ensures write ==> memory == Patch(old(memory), a, data[pos..pos + n]) && data[..] == old(data[..])
      ensures !write ==> memory == old(memory)
      ensures !write ==> data[..] == old(data[..pos]) + Slice(memory, a, n) + old(data[pos + n..])
    {
      assert forall i :: 0 <= i < n ==> At(a, i) == a + i;
      if write {
        var source := data[pos..pos + n];
        memory := memory[..a] + source + memory[a + n..];
        assert memory == Patch(old(memory), a, source);
      } else {
        var source := memory[a..a + n];
        assert source == Slice(memory, a, n);
        forall i | 0 <= i < n { data[pos + i] := source[i]; }
        assert data[pos..pos + n] == source;
        assert data[..] == data[..pos] + data[pos..pos + n] + data[pos + n..];
      }
    }

    /** One round of the DXE loop: DebugAgentDxe.c. */
    method AccessPageDxe(a: Address, data: array<Byte>, pos: nat, n: nat, write: bool)
      returns (ok: bool, ghost denied: bool, ghost restored: bool)
      requires Valid() && phase.Dxe?
      requires 0 < n && a % PAGE + n <= PAGE && pos + n <= data.Length
      modifies this`memory, this`attributes, this`failed, data
      ensures PageDone(old(memory), old(attributes), old(data[..]), memory, attributes, data[..],
                       a, pos, n, write, ok, denied, restored)
      ensures phase == Dxe(true) && !denied ==> (ok <==> ReadProtect !in old(attributes)[PageOf(a)])
      ensures phase == Dxe(false) ==> (ok <==> if write then canWrite(old(memory), a) else canRead(old(memory), a))
      ensures Logged(denied, restored)
    {
      var attrs: Attributes := {};
      var changed := false;
      var status: bool;
      denied, restored := false, true;
      if phase.protocol {
        status, attrs := GetAttributes(a);
        if !status { return false, true, true; }
        if ReadProtect in attrs { return false, false, true; }
        if write && ReadOnly in attrs {
          status := ClearAttributes(a, {ReadOnly});
          if !status { return false, true, true; }
          changed := true;
        }
      } else if write {
        if !canWrite(memory, a) { return false, false, true; }
      } else {
        if !canRead(memory, a) { return false, false, true; }
      }
      CopyPage(a, data, pos, n, write);
      if changed {
        status := SetAttributes(a, attrs);
        restored := status;
        assert attrs - {ReadOnly} + attrs == attrs;
      }
      ok := true;
    }

    /** One round of the MM loop: DebugAgentMm.c. */
    method AccessPageMm(a: Address, data: array<Byte>, pos: nat, n: nat, write: bool)
      returns (ok: bool, ghost denied: bool, ghost restored: bool)
      requires Valid() && phase == Mm
      requires 0 < n && a % PAGE + n <= PAGE && pos + n <= data.Length
      modifies this`memory, this`attributes, this`failed, data
      ensures PageDone(old(memory), old(attributes), old(data[..]), memory, attributes, data[..],
                       a, pos, n, write, ok, denied, restored)
      ensures ok <==> !denied
      ensures Logged(denied, restored)
    {
      var changed := false;
      denied, restored := false, true;
      var status, attrs := GetAttributes(a);
      if !status { return false, true, true; }
      if write && ReadOnly in attrs {
        status := ClearAttributes(a, {ReadOnly, ReadProtect});
        if !status { return false, true, true; }
        changed := true;
      } else if ReadProtect in attrs {
        status := ClearAttributes(a, {ReadProtect});
        if !status { return false, true, true; }
        changed := true;
      }
      CopyPage(a, data, pos, n, write);
      if changed {
        status := SetAttributes(a, attrs);
        restored := status;
        assert attrs - {ReadOnly, ReadProtect} + attrs == attrs;
        assert attrs - {ReadProtect} + attrs == attrs;
      }
      ok := true;
    }

    /** One round, as seen from the start of the range. */
    method AccessRound(address: Address, data: array<Byte>, pos: nat, n: nat, write: bool, ghost length: nat,
                       ghost mem0: seq<Byte>, ghost attrs0: seq<Attributes>, ghost data0: seq<Byte>, ghost kept: bool)
      returns (ok: bool, ghost denied: bool, ghost restored: bool)
      requires Valid()
      requires Whole(mem0) && Paged(attrs0) && |data0| == data.Length && pos + n <= length <= data.Length && length < SPACE
      requires 0 < n && At(address, pos) % PAGE + n <= PAGE
      requires pos + n == length || n == PAGE - At(address, pos) % PAGE
      requires Copied(mem0, attrs0, data0, memory, attributes, data[..], address, length, write, pos, kept)
      modifies this`memory, this`attributes, this`failed, data
      ensures Valid()
      ensures Copied(mem0, attrs0, data0, memory, attributes, data[..], address, length, write,
                     if ok then pos + n else pos, restored)
      ensures denied ==> !ok && phase != Dxe(false)
      ensures old(failed.calls) <= failed.calls && old(failed.sets) <= failed.sets
      ensures denied <==> failed.calls > old(failed.calls)
      ensures restored <==> kept && failed.sets == old(failed.sets)
      ensures !ok && !denied ==>
                Refuses(MemoryAfter(mem0, address, data0, pos, write), attrs0, At(address, pos), write)
    {
      hide At, Patch, Slice, Weakened, Refuses, MemoryAfter;
      ghost var mem, attrs, was := memory, attributes, data[..];
      if phase.Dxe? {
        ok, denied, restored := AccessPageDxe(At(address, pos), data, pos, n, write);
      } else {
        ok, denied, restored := AccessPageMm(At(address, pos), data, pos, n, write);
      }
      Advance(mem0, attrs0, data0, mem, attrs, was, memory, attributes, data[..],
              address, length, write, pos, n, ok, denied, restored, kept);
      restored := kept && restored;
    }

    /** What one round leaves behind: exactly one page-sized piece copied and
        the attributes back in place, or nothing changed at all. */
    ghost predicate PageDone(mem: seq<Byte>, attrs: seq<Attributes>, was: seq<Byte>,
                             mem': seq<Byte>, attrs': seq<Attributes>, now: seq<Byte>,
                             a: Address, pos: nat, n: nat, write: bool,
                             ok: bool, denied: bool, restored: bool)
      requires Whole(mem) && Paged(attrs) && pos + n <= |was| && n <= SPACE
    {
      && Whole(mem') && Paged(attrs')
      && (restored <==> attrs' == attrs)
      && (!restored ==> ok && Weakened(attrs, attrs'))
      && (phase == Dxe(false) ==> restored)
      && (denied ==> !ok && phase != Dxe(false))
      && (ok <==> !denied && !Refuses(mem, attrs, a, write))
      && (!ok ==> mem' == mem && now == was)
      && (ok && write ==> mem' == Patch(mem, a, was[pos..pos + n]) && now == was)
      && (ok && !write ==> mem' == mem && now == was[..pos] + Slice(mem, a, n) + was[pos + n..])
    }

    /** A restoring Set call that fails can only leave access bits off; in DXE
        it never leaves a page less read-protected. */
    ghost predicate Weakened(was: seq<Attributes>, now: seq<Attributes>) {
      && Paged(was) && Paged(now)
      && forall p :: 0 <= p < PAGES ==>
           && now[p] <= was[p] <= now[p] + {ReadOnly, ReadProtect}
           && (phase.Dxe? ==> (ReadProtect in now[p] <==> ReadProtect in was[p]))
    }

    /** Access bits that are off stay off, and there is no way back to what was. */
    lemma WeakerStays(first: seq<Attributes>, middle: seq<Attributes>, last: seq<Attributes>)
      requires Weakened(first, middle) && (last == middle || Weakened(middle, last))
      ensures Weakened(first, last)
      ensures last == first <==> middle == first && last == middle
    {
      if last == first {
        assert forall p :: 0 <= p < PAGES ==> middle[p] == first[p];
      }
    }

    /** AccessMemory. However it exits, exactly the first `done` bytes have been
        copied, as one flat copy (Copied). `denied`: some Get or Clear call
        failed. `restored`: no Set call failed, which is to say that all
        attributes are back. */
    method AccessMemory(address: Address, data: array<Byte>, length: nat, write: bool)
      returns (ok: bool, ghost done: nat, ghost denied: bool, ghost restored: bool)
      requires Valid()
      requires length <= data.Length && length < SPACE
      modifies this`memory, this`attributes, this`failed, data
      ensures Valid()
      ensures done <= length && (ok <==> done == length)
      ensures Copied(old(memory), old(attributes), old(data[..]), memory, attributes, data[..],
                     address, length, write, done, restored)
      ensures Logged(denied, restored)
      ensures denied ==> !ok && phase != Dxe(false)
      ensures !ok && !denied ==>
                Refuses(MemoryAfter(old(memory), address, old(data[..]), done, write),
                        old(attributes), At(address, done), write)
      ensures Decided(old(memory), old(attributes), address, old(data[..length]), write, ok, denied)
    {
      var a, left, pos := address, length, 0;
      denied, restored := false, true;
      assert a == At(address, pos);
      hide At, LengthInPage, Patch, Slice, Weakened, Refuses, MemoryAfter, Copied, Decided;
      ghost var mem0, attrs0, was0 := memory, attributes, data[..];
      Start(mem0, attrs0, was0, address, length, write);
      while left > 0
        invariant Valid() && 0 <= left && 0 <= pos && pos + left == length && !denied
        invariant a == At(address, pos)
        invariant Logged(denied, restored)
        invariant Copied(mem0, attrs0, was0, memory, attributes, data[..], address, length, write, pos, restored)
      {
        var n := LengthInPage(a, left);
        ok, denied, restored := AccessRound(address, data, pos, n, write, length, mem0, attrs0, was0, restored);
        if !ok {
          done := pos;
          BlockedAt(mem0, attrs0, was0, memory, attributes, data[..], address, length, write, pos, denied, restored);
          return;
        }
        AtAt(address, pos, n);
        a := At(a, n);
        pos := pos + n;
        left := left - n;
      }
      ok, done := true, length;
      NotBlocked(mem0, attrs0, was0, memory, attributes, data[..], address, length, write, restored);
    }

    /** Policy stops an access of this range on one of its pages. */
    ghost predicate Blocked(mem: seq<Byte>, attrs: seq<Attributes>, address: Address, data: seq<Byte>, write: bool)
      requires Whole(mem) && Paged(attrs)
    {
      exists i :: StartsPage(address, |data|, i) &&
        Refuses(MemoryAfter(mem, address, data, i, write), attrs, At(address, i), write)
    }

    /** With the attribute protocol, no byte of the range is read-protected; without,
        each page of it is found readable, or for a write found writable when the
        loop comes to it; in MM everything is accessible. */
    ghost predicate Accessible(mem: seq<Byte>, attrs: seq<Attributes>, address: Address, data: seq<Byte>, write: bool)
      requires Whole(mem) && Paged(attrs)
    {
      match phase
      case Mm => true
      case Dxe(true) => forall i :: 0 <= i < |data| < SPACE ==> ReadProtect !in attrs[PageOf(At(address, i))]
      case Dxe(false) =>
        forall i :: StartsPage(address, |data|, i) ==>
          if write then canWrite(Patch(mem, address, data[..i]), At(address, i)) else canRead(mem, At(address, i))
    }

    lemma AccessibleMeans(mem: seq<Byte>, attrs: seq<Attributes>, address: Address, data: seq<Byte>, write: bool)
      requires Whole(mem) && Paged(attrs) && |data| < SPACE
      ensures phase == Dxe(true) ==>
                (Accessible(mem, attrs, address, data, write) <==>
                 forall i :: 0 <= i < |data| ==> ReadProtect !in attrs[At(address, i) / 0x1000])
      ensures phase == Mm ==> Accessible(mem, attrs, address, data, write)
      ensures phase == Dxe(false) && !write ==>
                (Accessible(mem, attrs, address, data, write) <==>
                 forall i :: StartsPage(address, |data|, i) ==> canRead(mem, At(address, i)))
    {
    }

    lemma BlockedWhere(mem: seq<Byte>, attrs: seq<Attributes>, address: Address, data: seq<Byte>, write: bool)
      requires Whole(mem) && Paged(attrs) && |data| < SPACE
      ensures Blocked(mem, attrs, address, data, write) <==> !Accessible(mem, attrs, address, data, write)
    {
      hide Patch, At;
      if phase == Dxe(true) {
        forall i | 0 <= i < |data| && ReadProtect in attrs[PageOf(At(address, i))]
          ensures Blocked(mem, attrs, address, data, write)
        {
          var j := PageStartBefore(address, |data|, i);
          assert Refuses(MemoryAfter(mem, address, data, j, write), attrs, At(address, j), write);
        }
      }
    }

    /** An access within one page is stopped exactly if that page is refused. */
    lemma BlockedInPage(mem: seq<Byte>, attrs: seq<Attributes>, address: Address, data: seq<Byte>, write: bool)
      requires Whole(mem) && Paged(attrs) && 0 < |data| && address % PAGE + |data| <= PAGE
      ensures Blocked(mem, attrs, address, data, write) <==> Refuses(mem, attrs, address, write)
    {
      hide Refuses;
      NoStartInside(address, |data|, 0, |data|);
      assert Patch(mem, address, data[..0]) == mem && At(address, 0) == address;
      assert MemoryAfter(mem, address, data, 0, write) == mem;
      assert forall i :: StartsPage(address, |data|, i) ==> i == 0;
      assert StartsPage(address, |data|, 0);
    }

    /** Lost access bits never change what policy stops. */
    lemma BlockedWeakened(mem: seq<Byte>, attrs: seq<Attributes>, attrs': seq<Attributes>, address: Address,
                          data: seq<Byte>, write: bool)
      requires Whole(mem) && Weakened(attrs, attrs')
      ensures Blocked(mem, attrs', address, data, write) <==> Blocked(mem, attrs, address, data, write)
    {
      hide Patch;
      forall i, m | StartsPage(address, |data|, i)
        ensures Refuses(m, attrs', At(address, i), write) <==> Refuses(m, attrs, At(address, i), write)
      {
      }
    }

    /** An access succeeds exactly if its range is accessible and policy stops it
        nowhere, unless a Get or Clear call failed; then it does not. */
    ghost predicate Decided(mem: seq<Byte>, attrs: seq<Attributes>, address: Address, data: seq<Byte>, write: bool,
                            ok: bool, denied: bool)
      requires Whole(mem) && Paged(attrs)
    {
      && (ok ==> !denied && !Blocked(mem, attrs, address, data, write))
      && (!ok && !denied ==> Blocked(mem, attrs, address, data, write))
      && (!denied ==> (ok <==> Accessible(mem, attrs, address, data, write)))
    }

    /** A copy that stopped at a refused page was stopped by policy. */
    lemma BlockedAt(mem: seq<Byte>, attrs: seq<Attributes>, was: seq<Byte>,
                    mem': seq<Byte>, attrs': seq<Attributes>, now: seq<Byte>,
                    address: Address, length: nat, write: bool, pos: nat, denied: bool, restored: bool)
      requires Whole(mem) && Paged(attrs) && pos < length <= |was| && length < SPACE
      requires Copied(mem, attrs, was, mem', attrs', now, address, length, write, pos, restored)
      requires !denied ==> Refuses(MemoryAfter(mem, address, was, pos, write), attrs, At(address, pos), write)
      ensures Decided(mem, attrs, address, was[..length], write, false, denied)
    {
      hide Refuses, Patch, Slice, Weakened, Accessible;
      assert was[..length][..pos] == was[..pos];
      BlockedWhere(mem, attrs, address, was[..length], write);
    }

    /** A complete copy was not stopped anywhere. */
    lemma NotBlocked(mem: seq<Byte>, attrs: seq<Attributes>, was: seq<Byte>,
                     mem': seq<Byte>, attrs': seq<Attributes>, now: seq<Byte>,
                     address: Address, length: nat, write: bool, restored: bool)
      requires Whole(mem) && Paged(attrs) && length <= |was| && length < SPACE
      requires Copied(mem, attrs, was, mem', attrs', now, address, length, write, length, restored)
      ensures Decided(mem, attrs, address, was[..length], write, true, false)
    {
      hide Refuses, Patch, Slice, Weakened, Accessible;
      BlockedWhere(mem, attrs, address, was[..length], write);
      assert forall i :: 0 <= i <= length ==> was[..length][..i] == was[..i];
    }

    /** Whether a read is stopped depends on its range alone. */
    lemma BlockedRead(mem: seq<Byte>, attrs: seq<Attributes>, address: Address, data: seq<Byte>, data': seq<Byte>)
      requires Whole(mem) && Paged(attrs) && |data| == |data'|
      requires Blocked(mem, attrs, address, data, false)
      ensures Blocked(mem, attrs, address, data', false)
    {
      hide Refuses;
      var i :| StartsPage(address, |data|, i) && Refuses(MemoryAfter(mem, address, data, i, false), attrs, At(address, i), false);
      assert MemoryAfter(mem, address, data', i, false) == mem;
    }

    /** What stops an access stops every longer one. */
    lemma BlockedLonger(mem: seq<Byte>, attrs: seq<Attributes>, address: Address, data: seq<Byte>, n: nat, write: bool)
      requires Whole(mem) && Paged(attrs) && n <= |data| < SPACE
      requires Blocked(mem, attrs, address, data[..n], write)
      ensures Blocked(mem, attrs, address, data, write)
    {
      hide Refuses, Patch;
      var i :| StartsPage(address, n, i)
               && Refuses(MemoryAfter(mem, address, data[..n], i, write), attrs, At(address, i), write);
      assert data[..n][..i] == data[..i];
      assert StartsPage(address, |data|, i);
    }

    lemma WeakenedSelf(attrs: seq<Attributes>)
      requires Paged(attrs)
      ensures Weakened(attrs, attrs)
    {
    }

    lemma BlockedReads(mem: seq<Byte>, attrs: seq<Attributes>, address: Address, s: seq<Byte>, t: seq<Byte>)
      requires Whole(mem) && Paged(attrs) && |s| == |t|
      ensures Blocked(mem, attrs, address, s, false) <==> Blocked(mem, attrs, address, t, false)
    {
      hide Blocked;
      if Blocked(mem, attrs, address, s, false) { BlockedRead(mem, attrs, address, s, t); }
      if Blocked(mem, attrs, address, t, false) { BlockedRead(mem, attrs, address, t, s); }
    }

    /** With attributes to go by, they alone decide what is stopped: neither
        memory nor data nor the direction matters. */
    lemma AttributesDecide(mem: seq<Byte>, mem': seq<Byte>, attrs: seq<Attributes>, address: Address,
                           data: seq<Byte>, data': seq<Byte>, write: bool, write': bool)
      requires Whole(mem) && Whole(mem') && Paged(attrs) && |data| == |data'| && phase != Dxe(false)
      ensures Blocked(mem, attrs, address, data, write) <==> Blocked(mem', attrs, address, data', write')
    {
      hide Patch;
      forall i, m, m', w, w' | StartsPage(address, |data|, i)
        ensures Refuses(m, attrs, At(address, i), w) <==> Refuses(m', attrs, At(address, i), w')
      {
      }
    }

    /** The verdicts on a are the same in every memory that holds the same words
        at these entries. */
    ghost predicate DecidedBy(mem: seq<Byte>, a: Address, entries: seq<Address>)
      requires Whole(mem)
    {
      forall mem' :: Whole(mem') && SameWords(mem, mem', entries) ==>
        canRead(mem', a) == canRead(mem, a) && canWrite(mem', a) == canWrite(mem, a)
    }

    /** The range keeps off some words that decide the verdicts on its pages. */
    ghost predicate OffTables(mem: seq<Byte>, address: Address, n: nat)
      requires Whole(mem)
    {
      forall i :: StartsPage(address, n, i) ==> OffTablesOf(mem, At(address, i), address, n)
    }

    ghost predicate OffTablesOf(mem: seq<Byte>, a: Address, address: Address, n: nat)
      requires Whole(mem)
    {
      exists entries :: DecidedBy(mem, a, entries) && AllOff(entries, address, n)
    }

    lemma VerdictsKept(mem: seq<Byte>, address: Address, data: seq<Byte>, i: nat, n: nat)
      requires Whole(mem) && StartsPage(address, |data|, i) && n <= |data| && OffTables(mem, address, |data|)
      ensures canRead(Patch(mem, address, data[..n]), At(address, i)) == canRead(mem, At(address, i))
      ensures canWrite(Patch(mem, address, data[..n]), At(address, i)) == canWrite(mem, At(address, i))
    {
      var a := At(address, i);
      assert OffTablesOf(mem, a, address, |data|);
      hide At, SameWords, AllOff, DecidedBy;
      var entries :| DecidedBy(mem, a, entries) && AllOff(entries, address, |data|);
      OffRange(mem, Patch(mem, address, data[..n]), address, |data|, entries);
      Decides(mem, Patch(mem, address, data[..n]), a, entries);
    }

    lemma Decides(mem: seq<Byte>, mem': seq<Byte>, a: Address, entries: seq<Address>)
      requires Whole(mem) && Whole(mem') && DecidedBy(mem, a, entries) && SameWords(mem, mem', entries)
      ensures canRead(mem', a) == canRead(mem, a) && canWrite(mem', a) == canWrite(mem, a)
    {
    }

    /** With live page tables to go by, and a range that keeps off them, the
        verdicts on its pages beforehand decide whether it can be written, and
        whether it can be read once it was. */
    lemma TablesDecide(mem: seq<Byte>, attrs: seq<Attributes>, address: Address, data: seq<Byte>, data': seq<Byte>)
      requires Whole(mem) && Paged(attrs) && |data| == |data'| && phase == Dxe(false)
      requires OffTables(mem, address, |data|)
      ensures Blocked(mem, attrs, address, data, true) <==>
              exists i :: StartsPage(address, |data|, i) && !canWrite(mem, At(address, i))
      ensures Blocked(Patch(mem, address, data), attrs, address, data', false) <==>
              exists i :: StartsPage(address, |data|, i) && !canRead(mem, At(address, i))
    {
      hide Patch, OffTables, At;
      forall i | StartsPage(address, |data|, i)
        ensures Refuses(MemoryAfter(mem, address, data, i, true), attrs, At(address, i), true)
                <==> !canWrite(mem, At(address, i))
        ensures Refuses(MemoryAfter(Patch(mem, address, data), address, data', i, false), attrs, At(address, i), false)
                <==> !canRead(mem, At(address, i))
      {
        VerdictsKept(mem, address, data, i, i);
        VerdictsKept(mem, address, data, i, |data|);
        assert data[..|data|] == data;
      }
    }

    /** After pos bytes: memory (for a write) or the buffer (for a read) has had
        one flat copy of them and nothing else; a stop in between is at a page
        boundary; attributes are back unless a Set call failed; and no page so
        far was refused. */
    ghost predicate Copied(mem: seq<Byte>, attrs: seq<Attributes>, was: seq<Byte>,
                             mem': seq<Byte>, attrs': seq<Attributes>, now: seq<Byte>,
                             address: Address, length: nat, write: bool, pos: nat, restored: bool)
      requires Whole(mem) && Paged(attrs) && pos <= length <= |was| && length < SPACE
    {
      && Whole(mem') && Paged(attrs')
      && (0 < pos < length ==> At(address, pos) % PAGE == 0)
      && mem' == MemoryAfter(mem, address, was, pos, write)
      && now == (if write then was else Slice(mem, address, pos) + was[pos..])
      && (restored <==> attrs' == attrs)
      && (phase == Dxe(false) ==> restored)
      && Weakened(attrs, attrs')
      && forall i :: StartsPage(address, length, i) && i < pos ==>
           !Refuses(MemoryAfter(mem, address, was, i, write), attrs, At(address, i), write)
    }

    lemma Start(mem: seq<Byte>, attrs: seq<Attributes>, was: seq<Byte>, address: Address, length: nat, write: bool)
      requires Whole(mem) && Paged(attrs) && length <= |was| && length < SPACE
      ensures Copied(mem, attrs, was, mem, attrs, was, address, length, write, 0, true)
    {
      assert Patch(mem, address, was[..0]) == mem;
    }

    /** One successful round moves Copied on by its piece. */
    lemma Advance(mem0: seq<Byte>, attrs0: seq<Attributes>, data0: seq<Byte>,
                  mem: seq<Byte>, attrs: seq<Attributes>, was: seq<Byte>,
                  mem': seq<Byte>, attrs': seq<Attributes>, now: seq<Byte>,
                  address: Address, length: nat, write: bool, pos: nat, n: nat,
                  ok: bool, denied: bool, back: bool, restored: bool)
      requires Whole(mem0) && Paged(attrs0) && pos + n <= length <= |data0| && length < SPACE
      requires Copied(mem0, attrs0, data0, mem, attrs, was, address, length, write, pos, restored)
      requires 0 < n && At(address, pos) % PAGE + n <= PAGE
      requires pos + n == length || n == PAGE - At(address, pos) % PAGE
      requires PageDone(mem, attrs, was, mem', attrs', now, At(address, pos), pos, n, write, ok, denied, back)
      ensures ok ==> Copied(mem0, attrs0, data0, mem', attrs', now, address, length, write, pos + n, restored && back)
      ensures !ok ==> Copied(mem0, attrs0, data0, mem', attrs', now, address, length, write, pos, restored && back)
      ensures !ok && !denied ==>
                Refuses(MemoryAfter(mem0, address, data0, pos, write), attrs0, At(address, pos), write)
    {
      hide Patch, Slice, Weakened, Refuses, At, MemoryAfter;
      NoStartInside(address, length, pos, n);
      if attrs' == attrs { WeakenedSelf(attrs); }
      WeakerStays(attrs0, attrs, attrs');
      if ok { CopyGrows(mem0, data0, mem, was, mem', now, address, write, pos, n); }
      StillThere(mem0, data0, mem, attrs0, attrs, address, write, pos);
    }

    /** What a round copies goes on from what was copied before. */
    lemma CopyGrows(mem0: seq<Byte>, data0: seq<Byte>, mem: seq<Byte>, was: seq<Byte>, mem': seq<Byte>, now: seq<Byte>,
                    address: Address, write: bool, pos: nat, n: nat)
      requires Whole(mem0) && Whole(mem) && 0 < n && pos + n <= |data0| && pos + n < SPACE && |was| == |data0|
      requires mem == MemoryAfter(mem0, address, data0, pos, write)
      requires was == if write then data0 else Slice(mem0, address, pos) + data0[pos..]
      requires write ==> mem' == Patch(mem, At(address, pos), was[pos..pos + n]) && now == was
      requires !write ==> mem' == mem && now == was[..pos] + Slice(mem, At(address, pos), n) + was[pos + n..]
      ensures mem' == MemoryAfter(mem0, address, data0, pos + n, write)
      ensures now == if write then data0 else Slice(mem0, address, pos + n) + data0[pos + n..]
    {
      hide Patch, Slice, At;
      if write {
        PatchPatch(mem0, address, data0[..pos], data0[pos..pos + n]);
        assert data0[..pos] + data0[pos..pos + n] == data0[..pos + n];
      } else {
        SliceSlice(mem, address, pos, n);
        ReadGrows(Slice(mem, address, pos), Slice(mem, At(address, pos), n), data0, now);
      }
    }

    /** Lost access bits do not change what policy says of the next page. */
    lemma StillThere(mem0: seq<Byte>, data0: seq<Byte>, mem: seq<Byte>, attrs0: seq<Attributes>,
                     attrs: seq<Attributes>, address: Address, write: bool, pos: nat)
      requires Whole(mem0) && Whole(mem) && pos <= |data0| && pos < SPACE && Weakened(attrs0, attrs)
      requires mem == MemoryAfter(mem0, address, data0, pos, write)
      ensures Refuses(mem, attrs, At(address, pos), write)
              <==> Refuses(MemoryAfter(mem0, address, data0, pos, write), attrs0, At(address, pos), write)
    {
      hide MemoryAfter;
    }

    /** Memory when the loop comes to byte i of the range. */
    ghost function MemoryAfter(mem: seq<Byte>, address: Address, data: seq<Byte>, i: nat, write: bool): seq<Byte>
      requires Whole(mem) && i <= |data|
    {
      if write then Patch(mem, address, data[..i]) else mem
    }
  }

  /** Every position of a range follows the first one the range has in its page. */
  lemma PageStartBefore(address: Address, length: nat, i: nat) returns (j: nat)
    requires i < length < SPACE
    ensures j <= i && StartsPage(address, length, j)
    ensures At(address, j) / PAGE == At(address, i) / PAGE && At(address, j) <= At(address, i)
  {
    var x := At(address, i);
    if i < x % PAGE || address + i - x % PAGE < address {
      j := 0;
    } else {
      j := i - x % PAGE;
    }
    SamePageBelow(x, if i <= x % PAGE then i else x % PAGE);
    assert At(address, j) == x - (i - j);
  }

  lemma SamePageBelow(x: Address, n: nat)
    requires n <= x % PAGE
    ensures (x - n) / PAGE == x / PAGE && (n == x % PAGE ==> (x - n) % PAGE == 0)
  {
  }

  /** A piece that does not cross a page holds no other page start. */
  lemma NoStartInside(address: Address, length: nat, pos: nat, n: nat)
    requires length < SPACE && 0 < n && pos + n <= length
    requires At(address, pos) % PAGE + n <= PAGE
    ensures forall i :: pos < i < pos + n ==> !StartsPage(address, length, i)
    ensures n == PAGE - At(address, pos) % PAGE ==> At(address, pos + n) % PAGE == 0
  {
    var a := At(address, pos);
    forall i | pos < i < pos + n
      ensures At(address, i) % PAGE != 0
    {
      assert At(address, i) == a + (i - pos);
    }
    if n == PAGE - a % PAGE {
      assert (a + n) % PAGE == 0;
    }
  }

  /** Appending the next piece read to the bytes already read. */
  lemma ReadGrows(read: seq<Byte>, piece: seq<Byte>, was: seq<Byte>, now: seq<Byte>)
    requires |read| + |piece| <= |was|
    requires var mid := read + was[|read|..];
             now == mid[..|read|] + piece + mid[|read| + |piece|..]
    ensures now == (read + piece) + was[|read| + |piece|..]
  {
  }
}
