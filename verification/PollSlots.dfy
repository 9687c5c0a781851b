/** The loop port-libevent.py writes into libevent's poll.c to drop unwatched slots, and the delivery next to it. */
module PollSlots {
  import opened Wrappers

  /** The bits of events and revents: POLLIN, POLLOUT, POLLERR, POLLHUP, POLLNVAL. */
  datatype Flags = Flags(input: bool, output: bool, err: bool, hup: bool, nval: bool)

  datatype PollFd = PollFd(fd: nat, events: Flags, revents: Flags)

  /** One slot across the three parallel arrays; an owner is the event a back pointer leads to. */
  datatype Slot = Slot(poll: PollFd, reader: Option<int>, writer: Option<int>)

  predicate Live(p: PollFd) {
    p.events.input || p.events.output
  }

  /** idx, offset by one, is the inverse of the descriptors of the slots. */
  ghost predicate Indexed(slots: seq<Slot>, idx: seq<int>) {
    && (forall k :: 0 <= k < |slots| ==> slots[k].poll.fd < |idx|)
    && (forall fd :: 0 <= fd < |idx| ==> 0 <= idx[fd] <= |slots|)
    && (forall k, fd :: 0 <= k < |slots| && 0 <= fd < |idx| ==> (slots[k].poll.fd == fd <==> idx[fd] == k + 1))
  }

  /** Slot i gives way to the last slot. */
  function Drop(slots: seq<Slot>, i: nat): seq<Slot>
    requires i < |slots|
  {
    slots[i := slots[|slots| - 1]][..|slots| - 1]
  }

  /** The slots left when those below i have been examined from the top down. */
  function Compact(slots: seq<Slot>, i: nat): (r: seq<Slot>)
    requires i <= |slots|
    decreases i
  {
    if i == 0 then slots
    else if Live(slots[i - 1].poll) then Compact(slots, i - 1)
    else Compact(Drop(slots, i - 1), i - 1)
  }

  /** The live slots, in the order they stand in. */
  function LiveSlots(slots: seq<Slot>): seq<Slot> {
    if slots == [] then []
    else LiveSlots(slots[..|slots| - 1]) + if Live(slots[|slots| - 1].poll) then [slots[|slots| - 1]] else []
  }

  lemma {:induction false} AllLive(slots: seq<Slot>)
    requires forall k :: 0 <= k < |slots| ==> Live(slots[k].poll)
    ensures LiveSlots(slots) == slots
  {
    if slots != [] { AllLive(slots[..|slots| - 1]); }
  }

  /** The slots that ask for POLLIN or POLLOUT, as often as they stand there, and no others. */
  lemma {:induction false} LiveSlotsExactly(slots: seq<Slot>, s: Slot)
    ensures multiset(LiveSlots(slots))[s] ==
            if s.poll.events.input || s.poll.events.output then multiset(slots)[s] else 0
  {
    if slots != [] {
      LiveSlotsExactly(slots[..|slots| - 1], s);
      assert slots == slots[..|slots| - 1] + [slots[|slots| - 1]];
    }
  }

  lemma {:induction false} LiveSlotsAppend(a: seq<Slot>, b: seq<Slot>)
    ensures LiveSlots(a + b) == LiveSlots(a) + LiveSlots(b)
  {
    if b == [] {
      assert a + b == a;
    } else {
      assert (a + b)[..|a + b| - 1] == a + b[..|b| - 1];
      LiveSlotsAppend(a, b[..|b| - 1]);
    }
  }

  lemma DropAbove(slots: seq<Slot>, i: nat)
    requires i < |slots| && forall k :: i < k < |slots| ==> Live(slots[k].poll)
    ensures forall k :: i <= k < |slots| - 1 ==> Live(Drop(slots, i)[k].poll)
  {
    hide Live;
  }

  /** What stays of a dead slot i and the live slots above it, up to order: the slots above it. */
  lemma DropRotates(slots: seq<Slot>, i: nat)
    requires i < |slots|
    ensures Drop(slots, i)[..i] == slots[..i]
    ensures multiset(Drop(slots, i)[i..]) == multiset(slots[i + 1..])
  {
    var above := slots[i + 1..];
    if above != [] {
      var last, rest := above[|above| - 1], above[..|above| - 1];
      assert Drop(slots, i)[i..] == [last] + rest;
      assert above == rest + [last];
    }
  }

  lemma LiveSlotsSplit(slots: seq<Slot>, i: nat)
    requires i <= |slots| && forall k :: i <= k < |slots| ==> Live(slots[k].poll)
    ensures LiveSlots(slots) == LiveSlots(slots[..i]) + slots[i..]
  {
    hide *;
    var a, b := slots[..i], slots[i..];
    assert slots == a + b;
    LiveSlotsAppend(a, b);
    AllLive(b);
  }

  lemma DropKeepsLive(slots: seq<Slot>, i: nat)
    requires i < |slots| && !Live(slots[i].poll)
    requires forall k :: i < k < |slots| ==> Live(slots[k].poll)
    ensures multiset(LiveSlots(Drop(slots, i))) == multiset(LiveSlots(slots))
  {
    DropAbove(slots, i);
    DropRotates(slots, i);
    LiveSlotsSplit(Drop(slots, i), i);
    LiveSlotsSplit(slots, i + 1);
    SkipsDead(slots, i);
    hide *;
    var kept, low, above := Drop(slots, i)[i..], LiveSlots(slots[..i]), slots[i + 1..];
    assert multiset(low + kept) == multiset(low) + multiset(kept);
    assert multiset(low + above) == multiset(low) + multiset(above);
  }

  lemma SkipsDead(slots: seq<Slot>, i: nat)
    requires i < |slots| && !Live(slots[i].poll)
    ensures LiveSlots(slots[..i + 1]) == LiveSlots(slots[..i])
  {
    assert slots[..i + 1][..i] == slots[..i];
  }

  /** Examined from the top down, exactly the live slots stay, each with its own owners; none needs a second look. */
  lemma {:induction false} CompactKeepsLive(slots: seq<Slot>, i: nat)
    requires i <= |slots|
    requires forall k :: i <= k < |slots| ==> Live(slots[k].poll)
    ensures multiset(Compact(slots, i)) == multiset(LiveSlots(slots))
    ensures forall k :: 0 <= k < |Compact(slots, i)| ==> Live(Compact(slots, i)[k].poll)
    decreases i
  {
    hide Live, Drop, LiveSlots;
    if i == 0 {
      AllLive(slots);
    } else if Live(slots[i - 1].poll) {
      CompactKeepsLive(slots, i - 1);
    } else {
      DropKeepsLive(slots, i - 1);
      DropAbove(slots, i - 1);
      DropLength(slots, i - 1);
      CompactKeepsLive(Drop(slots, i - 1), i - 1);
    }
  }

  lemma DropLength(slots: seq<Slot>, i: nat)
    requires i < |slots|
    ensures |Drop(slots, i)| == |slots| - 1
  {
  }

  /** The same swap-remove from the bottom up, advancing past every slot it has looked at. */
  function CompactUpwards(slots: seq<Slot>, i: nat): seq<Slot>
    decreases |slots| - i
  {
    if i >= |slots| then slots
    else if Live(slots[i].poll) then CompactUpwards(slots, i + 1)
    else CompactUpwards(Drop(slots, i), i + 1)
  }

  lemma UpwardsMissesMoved(a: Slot, b: Slot)
    requires !Live(a.poll) && !Live(b.poll)
    ensures CompactUpwards([a, b], 0) == [b] && Compact([a, b], 2) == []
  {
    assert Drop([a, b], 0) == [b];
    assert Drop([a, b], 1) == [a];
    assert Drop([a], 0) == [];
  }

  /** A descriptor's index is zero exactly when no slot carries it. */
  lemma IndexedExactly(slots: seq<Slot>, idx: seq<int>, fd: nat)
    requires Indexed(slots, idx) && fd < |idx|
    ensures idx[fd] == 0 <==> forall k :: 0 <= k < |slots| ==> slots[k].poll.fd != fd
  {
    assert forall k :: 0 <= k < |slots| ==> (slots[k].poll.fd == fd <==> idx[fd] == k + 1);
    if idx[fd] != 0 {
      assert slots[idx[fd] - 1].poll.fd == fd;
    }
  }

  /** The last slot takes place i, all others stay where they are. */
  lemma DropExactly(slots: seq<Slot>, i: nat, k: nat)
    requires i < |slots| && k < |slots| - 1
    ensures |Drop(slots, i)| == |slots| - 1
    ensures Drop(slots, i)[k] == if k == i then slots[|slots| - 1] else slots[k]
  {
  }

  lemma DropIs(slots: seq<Slot>, i: nat, kept: seq<Slot>)
    requires i < |slots| && |kept| == |slots| - 1
    requires forall k :: 0 <= k < |kept| ==> kept[k] == if k == i then slots[|slots| - 1] else slots[k]
    ensures kept == Drop(slots, i)
  {
  }

  function Reindexed(slots: seq<Slot>, idx: seq<int>, i: nat): seq<int>
    requires i < |slots| && slots[i].poll.fd < |idx| && slots[|slots| - 1].poll.fd < |idx|
  {
    var cleared := idx[slots[i].poll.fd := 0];
    if i == |slots| - 1 then cleared else cleared[slots[|slots| - 1].poll.fd := i + 1]
  }

  lemma DropKeepsIndex(slots: seq<Slot>, idx: seq<int>, i: nat)
    requires Indexed(slots, idx) && i < |slots|
    ensures slots[i].poll.fd < |idx| && slots[|slots| - 1].poll.fd < |idx|
    ensures Indexed(Drop(slots, i), Reindexed(slots, idx, i))
  {
    hide Live;
    var n := |slots| - 1;
    var kept, idx' := Drop(slots, i), Reindexed(slots, idx, i);
    assert forall k :: 0 <= k < n ==> kept[k] == slots[if k == i then n else k];
    forall k, fd | 0 <= k < n && 0 <= fd < |idx| ensures kept[k].poll.fd == fd <==> idx'[fd] == k + 1 {
      assert slots[i].poll.fd == fd <==> idx[fd] == i + 1;
      assert slots[n].poll.fd == fd <==> idx[fd] == n + 1;
    }
  }

  function Parallel(polls: seq<PollFd>, readers: seq<Option<int>>, writers: seq<Option<int>>): (slots: seq<Slot>)
    requires |polls| == |readers| == |writers|
    ensures |slots| == |polls|
    ensures forall i :: 0 <= i < |slots| ==> slots[i] == Slot(polls[i], readers[i], writers[i])
  {
    seq(|polls|, i requires 0 <= i < |polls| => Slot(polls[i], readers[i], writers[i]))
  }

  /** libevent's poll backend; the arrays are the ones poll_add last allocated. */
  class PollOp {
    var nfds: nat
    const eventSet: array<PollFd>
    const readBack: array<Option<int>>
    const writeBack: array<Option<int>>
    const indexByFd: array<int>

    constructor (eventSet: array<PollFd>, readBack: array<Option<int>>, writeBack: array<Option<int>>,
                 indexByFd: array<int>)
      requires readBack != writeBack && forall fd :: 0 <= fd < indexByFd.Length ==> indexByFd[fd] == 0
      ensures this.eventSet == eventSet && this.readBack == readBack && this.writeBack == writeBack
              && this.indexByFd == indexByFd
      ensures Valid() && nfds == 0
    {
      nfds := 0;
      this.eventSet, this.readBack, this.writeBack, this.indexByFd := eventSet, readBack, writeBack, indexByFd;
    }

    predicate Shape()
      reads this
    {
      && nfds <= eventSet.Length && nfds <= readBack.Length && nfds <= writeBack.Length
      && readBack != writeBack
    }

    ghost function Slots(): (slots: seq<Slot>)
      requires Shape()
      reads this, eventSet, readBack, writeBack
      ensures |slots| == nfds
    {
      Parallel(eventSet[..nfds], readBack[..nfds], writeBack[..nfds])
    }

    ghost predicate Valid()
      reads this, eventSet, readBack, writeBack, indexByFd
    {
      Shape() && Indexed(Slots(), indexByFd[..])
    }

    /** Shrink the parallel arrays by one, the last slot taking the place of slot i. */
    method TakeLast(i: nat)
      requires Shape() && i < nfds
      modifies `nfds, eventSet, readBack, writeBack
      ensures Shape() && nfds == old(nfds) - 1
      ensures Slots() == Drop(old(Slots()), i)
    {
      hide Drop, Parallel;
      ghost var slots := Slots();
      nfds := nfds - 1;
      if i != nfds {
        eventSet[i] := eventSet[nfds];
        readBack[i] := readBack[nfds];
        writeBack[i] := writeBack[nfds];
      }
      DropIs(slots, i, Slots());
    }

    /** Hand slot i over to the last slot and take the descriptor it held out of the index. */
    method DropSlot(i: nat)
      requires Valid() && i < nfds
      modifies `nfds, eventSet, readBack, writeBack, indexByFd
      ensures Valid() && nfds == old(nfds) - 1
      ensures Slots() == Drop(old(Slots()), i)
    {
      ghost var slots, idx := Slots(), indexByFd[..];
      DropKeepsIndex(slots, idx, i);
      FirstAndLast(i);
      Reindex(i, slots);
      assert Indexed(Slots(), indexByFd[..]);
    }

    /** The writes themselves; the index is cleared before the slots move and set again after. */
    method Reindex(i: nat, ghost slots: seq<Slot>)
      requires Shape() && i < nfds && slots == Slots()
      requires eventSet[i] == slots[i].poll && slots[i].poll.fd < indexByFd.Length
               && slots[nfds - 1].poll.fd < indexByFd.Length
      modifies `nfds, eventSet, readBack, writeBack, indexByFd
      ensures Shape() && nfds == old(nfds) - 1
      ensures Slots() == Drop(slots, i) && indexByFd[..] == Reindexed(slots, old(indexByFd[..]), i)
    {
      hide Live, Parallel, Slots, Drop;
      SetIndex(eventSet[i].fd, 0);
      TakeLast(i);
      if i != nfds {
        MovedSlot(slots, i);
        SetIndex(eventSet[i].fd, i + 1);
      }
    }

    method SetIndex(fd: nat, v: int)
      requires fd < indexByFd.Length
      modifies indexByFd
      ensures indexByFd[..] == old(indexByFd[..])[fd := v]
    {
      indexByFd[fd] := v;
    }

    lemma FirstAndLast(i: nat)
      requires Shape() && i < nfds
      ensures Slots()[i].poll == eventSet[i] && Slots()[nfds - 1].poll == eventSet[nfds - 1]
    {
    }

    /** After the last slot has taken place i, the descriptor there is the one the last slot had. */
    lemma MovedSlot(slots: seq<Slot>, i: nat)
      requires Shape() && i < nfds && |slots| == nfds + 1 && Slots() == Drop(slots, i)
      ensures eventSet[i] == slots[nfds].poll
    {
      FirstAndLast(i);
    }

    /** Drop slots nothing is watching. */
    method DropDead()
      requires Valid()
      modifies `nfds, eventSet, readBack, writeBack, indexByFd
      ensures Valid()
      ensures Slots() == Compact(old(Slots()), old(nfds))
      ensures multiset(Slots()) == multiset(LiveSlots(old(Slots())))
      ensures forall s :: multiset(Slots())[s] ==
                if s.poll.events.input || s.poll.events.output then multiset(old(Slots()))[s] else 0
    {
      ghost var before := Slots();
      hide Indexed, Live, LiveSlots, Drop, Compact, Slots;
      for i := nfds downto 0
        invariant i <= nfds && Valid()
        invariant Compact(Slots(), i) == Compact(before, |before|)
      {
        FirstAndLast(i);
        CompactStep(Slots(), i);
        if !Live(eventSet[i]) {
          DropSlot(i);
        }
      }
      CompactDone(Slots());
      CompactKeepsLive(before, |before|);
      forall s ensures multiset(LiveSlots(before))[s] ==
                  if s.poll.events.input || s.poll.events.output then multiset(before)[s] else 0
      {
        LiveSlotsExactly(before, s);
      }
    }
  }

  lemma CompactStep(slots: seq<Slot>, i: nat)
    requires i < |slots|
    ensures Live(slots[i].poll) ==> Compact(slots, i + 1) == Compact(slots, i)
    ensures !Live(slots[i].poll) ==> i <= |Drop(slots, i)| && Compact(slots, i + 1) == Compact(Drop(slots, i), i)
  {
  }

  lemma CompactDone(slots: seq<Slot>)
    ensures Compact(slots, 0) == slots
  {
  }

  /** What a dispatch makes of the flags poll() returned. */
  function Delivered(what: Flags): Flags {
    if Gone(what) then what.(input := true, output := true) else what
  }

  predicate Gone(what: Flags) {
    what.hup || what.err || what.nval
  }

  /** POLLHUP, POLLERR and POLLNVAL are delivered as both directions; any other flags are delivered as they are. */
  lemma DeliveredExactly(what: Flags)
    ensures what.hup || what.err || what.nval ==>
              Delivered(what) == Flags(true, true, what.err, what.hup, what.nval)
    ensures !(what.hup || what.err || what.nval) ==> Delivered(what) == what
  {
  }

  /** A slot that asks for a direction has an owner for it. */
  predicate Owned(s: Slot) {
    (s.poll.events.input ==> s.reader.Some?) && (s.poll.events.output ==> s.writer.Some?)
  }

  predicate ReachesOwner(s: Slot, what: Flags) {
    || (Delivered(what).input && s.poll.events.input && s.reader.Some?)
    || (Delivered(what).output && s.poll.events.output && s.writer.Some?)
  }

  /** Once dead slots are dropped, a descriptor that is gone always wakes an owner that asked for it. */
  lemma GoneReachesOwner(slots: seq<Slot>, k: nat, what: Flags)
    requires forall s :: s in slots ==> Owned(s)
    requires k < |Compact(slots, |slots|)| && Gone(what)
    ensures ReachesOwner(Compact(slots, |slots|)[k], what)
  {
    CompactKeepsLive(slots, |slots|);
    var s := Compact(slots, |slots|)[k];
    hide LiveSlots, Compact;
    assert s in multiset(Compact(slots, |slots|));
    assert s in LiveSlots(slots);
    LiveSlotsOccur(slots, s);
  }

  lemma {:induction false} LiveSlotsOccur(slots: seq<Slot>, s: Slot)
    ensures s in LiveSlots(slots) <==> s in slots && Live(s.poll)
  {
    if slots != [] {
      LiveSlotsOccur(slots[..|slots| - 1], s);
      assert slots == slots[..|slots| - 1] + [slots[|slots| - 1]];
    }
  }
}
