/** The transmit function over the ring's fields.  Between any two of its sections completions may
    come in, in any order; everything together is a run of the protocol. */
module UsbTransmit {
  import opened Expressions
  import opened UsbRing
  import opened UsbProtocol
  import Runs

  /** The completion of the i-th transfer that holds chunks, which may return without giving them back. */
  datatype Arrival = Arrival(i: nat, keeps: bool)

  /** Chunks are only given back by the completion of the oldest transfer. */
  predicate OldestFirst(interrupts: seq<seq<Arrival>>) {
    forall batch, a :: batch in interrupts && a in batch ==> a.keeps || a.i == 0
  }

  lemma OldestFirstRest(interrupts: seq<seq<Arrival>>)
    requires interrupts != [] && OldestFirst(interrupts)
    ensures OldestFirst(interrupts[1..]) && forall a :: a in interrupts[0] ==> a.keeps || a.i == 0
  {
  }

  /** The transfer u has the frames up to the first one that has to be the last of its transfer, or all that are
      ready, or whole chunks of them. */
  predicate Taken(u: Urb, frames: seq<bool>) {
    && 0 < u.frames <= |frames| && (forall i :: 0 <= i < u.frames - 1 ==> !frames[i])
    && (u.frames == |frames| || frames[u.frames - 1] || u.frames == PER_BUFF_AGGR_NUM * u.chunks)
  }

  class Transmitter {
    const ring: Ring
    /** The transfers that hold chunks, oldest first. */
    var held: seq<Held>
    /** The completions that come in at each point where the ring is not locked. */
    var interrupts: seq<seq<Arrival>>
    /** What the transmit function is doing. */
    ghost var phase: Phase

    constructor (base: nat, total: nat, interrupts: seq<seq<Arrival>>)
      requires total > 0
      ensures fresh(ring) && Good(Now()) && phase == Idle && held == [] && this.interrupts == interrupts
    {
      ring := new Ring(base, total);
      held, this.interrupts, phase := [], interrupts, Idle;
      new;
      assert Chunks(base, total, 0, 0) == [];
      assert GoodAt(Now(), 0, 0);
    }

    ghost function Now(): State
      reads this, ring
    {
      State(ring.base, ring.total, ring.Fields(), phase, held, ring.bug)
    }

    /** In a run from start: in a good state, unless a check has fired, behind which nothing runs. */
    ghost predicate Running(start: State)
      reads this, ring
    {
      Reaches(start, Now()) && (ring.bug || Good(Now()))
    }

    /** No check has fired, and no completion to come is out of order. */
    ghost predicate Orderly()
      reads this, ring
    {
      !ring.bug && OldestFirst(interrupts)
    }

    /** The event e has just happened. */
    lemma Happened(start: State, before: State, e: Event)
      requires Reaches(start, before) && Good(before) && Enabled(before, e) && Now() == After(before, e)
      ensures Reaches(start, Now()) && (ring.bug <==> OutOfOrder(before, e)) && (!ring.bug ==> Good(Now()))
    {
      Runs.ReachesNext(PROTOCOL, start, before, e);
      StepGood(before, e);
    }

    /** `atbm_usb_xmit_data_complete` */
    method Completed(a: Arrival, ghost start: State)
      requires Running(start) && !ring.bug && a.i < |held| && held[a.i].flying
      modifies this`held, ring
      ensures Running(start) && |held| <= |old(held)|
      ensures ring.bug <==> !a.keeps && a.i != 0
    {
      ghost var before := Now();
      if a.keeps {
        held := held[a.i := held[a.i].(flying := false)];
        Happened(start, before, Keep(a.i));
      } else {
        ring.FreeAll(held[a.i].urb.start, held[a.i].urb.chunks);
        held := held[..a.i] + held[a.i + 1..];
        Happened(start, before, Complete(a.i));
      }
    }

    /** The ring is not locked: completions come in. */
    method Unlocked(ghost start: State)
      requires Running(start) && !ring.bug
      modifies this`held, this`interrupts, ring
      ensures Running(start) && |held| <= |old(held)| && (old(Orderly()) ==> Orderly())
    {
      if interrupts == [] { return; }
      var batch := interrupts[0];
      if OldestFirst(interrupts) { OldestFirstRest(interrupts); }
      interrupts := interrupts[1..];
      for i := 0 to |batch|
        invariant Running(start) && !ring.bug && |held| <= |old(held)| && interrupts == old(interrupts)[1..]
      {
        var a := batch[i];
        assert a in batch;
        if a.i < |held| && held[a.i].flying { Completed(a, start); }
        if ring.bug { return; }
      }
    }

    /** A section or a step of the transmit function that only changes what it is doing. */
    ghost method Go(start: State, e: Event)
      requires Running(start) && Enabled(Now(), e) && !OutOfOrder(Now(), e)
      requires After(Now(), e) == Now().(phase := After(Now(), e).phase)
      modifies this`phase
      ensures Running(start) && Now() == After(old(Now()), e) && !ring.bug
    {
      ghost var before := Now();
      phase := After(before, e).phase;
      Happened(start, before, e);
    }

    /** The transfer u ends where it does because no frame is ready any more, its last frame has to be the last
        one, or its chunks are full and there is no other one behind them. */
    ghost predicate EndsHere(u: Urb, frames: seq<bool>)
      reads this, ring
    {
      0 < u.frames <= |frames| &&
      (u.frames == |frames| || frames[u.frames - 1] ||
       ChunksEnd(u))
    }

    /** The aggregation loop of `atbm_usb_xmit_data`.  frames tells of each frame that is ready whether it
        has to be the last one of its transfer.  The result is the filled transfer, if there is one. */
    method Fill(frames: seq<bool>, ghost start: State) returns (u: Option<Urb>)
      requires Running(start) && !ring.bug && phase == Idle && |held| < TX_URB_NUM
      modifies this, ring
      ensures Running(start) && (old(Orderly()) ==> Orderly())
      ensures u.None? ==> ring.bug || phase == Idle
      ensures u.Some? ==> !ring.bug && phase == Filled(u.value) && Covered(u.value) && u.value.frames <= |frames|
      ensures u.Some? ==> EndsHere(u.value, frames) && forall i :: 0 <= i < u.value.frames - 1 ==> !frames[i]
      ensures u.None? && !ring.bug ==> frames == [] || Picked(old(ring.Fields())).None?
    {
      var first := ring.Pick();
      Go(start, Begin);
      if first.None? { return None; }
      var urb := Urb(first.value, 0, 0);
      var buff: Option<nat> := None;
      while true
        invariant Running(start) && !ring.bug && phase == Top(urb, buff) && (old(Orderly()) ==> Orderly())
        invariant urb.frames <= |frames| && forall i :: 0 <= i < urb.frames ==> !frames[i]
        decreases |frames| - urb.frames
      {
        var more;
        more, urb, buff := Round(urb, buff, frames, start);
        if ring.bug { return None; }
        if !more { break; }
      }
      if urb.frames == 0 { return None; }
      FilledIsCovered();
      u := Some(urb);
    }

    /** One round of the loop. */
    method Round(u: Urb, buff: Option<nat>, frames: seq<bool>, ghost start: State)
      returns (more: bool, v: Urb, next: Option<nat>)
      requires Running(start) && !ring.bug && phase == Top(u, buff) && u.frames <= |frames|
      modifies this, ring
      ensures Running(start) && (old(Orderly()) ==> Orderly())
      ensures !ring.bug && u.frames < |frames| ==> v.frames == u.frames + 1 && (frames[u.frames] ==> !more)
      ensures !ring.bug && u.frames == |frames| ==> !more && v == u
      ensures !ring.bug ==> phase == if more then Top(v, next) else if v.frames == 0 then Idle else Filled(v)
      ensures !ring.bug && !more && v.frames > 0 ==> EndsHere(v, frames)
    {
      Unlocked(start);
      if ring.bug { return false, u, None; }
      if u.frames == |frames| {
        Go(start, NoFrame);
        return false, u, None;
      }
      more, v, next := NextFrame(u, buff, frames[u.frames], start);
    }

    /** The same when there is a frame. */
    method NextFrame(u: Urb, buff: Option<nat>, last: bool, ghost start: State)
      returns (more: bool, v: Urb, next: Option<nat>)
      requires Running(start) && !ring.bug && phase == Top(u, buff)
      modifies this, ring
      ensures Running(start) && (old(Orderly()) ==> Orderly())
      ensures !ring.bug ==> v.frames == u.frames + 1 && v.start == u.start && (last ==> !more)
      ensures !ring.bug ==> phase == if more then Top(v, next) else Filled(v)
      ensures !ring.bug && !more ==> last || ChunksEnd(v)
    {
      var place := buff;
      v := u;
      if buff.None? {
        place := FetchChunk(u, start);
        v := v.(chunks := v.chunks + 1);
        Unlocked(start);
        if ring.bug { return false, v, None; }
      }
      more, next := PutFrame(v, place.value, last, start);
      v := v.(frames := v.frames + 1);
    }

    lemma FilledIsCovered()
      requires Good(Now()) && phase.Filled?
      ensures Covered(phase.u)
    {
    }

    /** The chunks of u are full, and there is no other one behind them. */
    ghost predicate ChunksEnd(u: Urb)
      reads this, ring
    {
      u.frames == PER_BUFF_AGGR_NUM * u.chunks && (u.start + Length(u) >= Address(ring.base, ring.total) || Picked(ring.Fields()).None?)
    }

    /** A new chunk for the frame at hand; there is one. */
    method FetchChunk(ghost u: Urb, ghost start: State) returns (buff: Option<nat>)
      requires Running(start) && !ring.bug && phase == Top(u, None)
      modifies this`phase, ring
      ensures Running(start) && !ring.bug && buff.Some? && phase == Loaded(u.(chunks := u.chunks + 1), buff.value)
    {
      ghost var before := Now();
      StepGood(before, Get);
      buff := ring.Get();
      phase := After(before, Get).phase;
      Happened(start, before, Get);
    }

    /** The frame at hand goes to its place; then the place of the next one is looked for. */
    method PutFrame(u: Urb, buff: nat, last: bool, ghost start: State) returns (more: bool, next: Option<nat>)
      requires Running(start) && !ring.bug && (phase == Loaded(u, buff) || phase == Top(u, Some(buff)))
      modifies this, ring
      ensures Running(start) && (old(Orderly()) ==> Orderly())
      ensures !ring.bug && last ==> !more
      ensures !ring.bug ==> phase == if more then Top(u.(frames := u.frames + 1), next) else Filled(u.(frames := u.frames + 1))
      ensures !ring.bug && !more ==> last || ChunksEnd(u.(frames := u.frames + 1))
    {
      var count := u.frames + 1;
      Go(start, Put(last));
      if last { return false, None; }
      if count < PER_BUFF_AGGR_NUM * u.chunks { return true, Some(buff + PER_PACKET_LEN); }
      if buff + PER_PACKET_LEN >= ring.End() { return false, None; }
      Unlocked(start);
      if ring.bug { return false, None; }
      var picked := ring.Pick();
      Go(start, PickNext);
      more, next := picked.Some?, None;
    }

    /** What the steps since `start` were, and that a check has fired exactly if they released chunks out of
        order. */
    ghost predicate Explained(start: State)
      reads this, ring
    {
      exists events :: Outcome(start, events) == Now() && IsRun(start, events) && (ring.bug <==> !InOrder(start, events))
    }

    lemma Explain(start: State)
      requires Good(start) && Reaches(start, Now())
      ensures Explained(start)
    {
      var events :| Runs.IsRun(PROTOCOL, start, events) && Runs.Outcome(PROTOCOL, start, events) == Now();
      RunGood(start, events);
      assert Outcome(start, events) == Now();
    }

    /** `atbm_usb_xmit_data`: a transfer is filled and submitted.  If the submission fails, the chunks are
        given back, which passes the check exactly if nothing older holds chunks any more then. */
    method Xmit(frames: seq<bool>, submitted: bool) returns (u: Option<Urb>)
      requires Good(Now()) && phase == Idle
      modifies this, ring
      ensures Explained(old(Now()))
      ensures !ring.bug ==> Good(Now()) && phase == Idle
      ensures u.Some? && submitted && !ring.bug ==> held != [] && held[|held| - 1] == Held(u.value, true)
      ensures old(Orderly()) ==> (ring.bug <==> u.Some? && !submitted && held != [])
      ensures u.None? && !ring.bug ==> frames == [] || |old(held)| >= TX_URB_NUM || Picked(old(ring.Fields())).None?
      ensures u.Some? ==> Taken(u.value, frames)
    {
      ghost var start := Now();
      Runs.ReachesSame(PROTOCOL, start);
      u := XmitFrom(frames, submitted, start);
      Explain(start);
    }

    method XmitFrom(frames: seq<bool>, submitted: bool, ghost start: State) returns (u: Option<Urb>)
      requires Running(start) && !ring.bug && phase == Idle
      modifies this, ring
      ensures Running(start) && (!ring.bug ==> phase == Idle)
      ensures u.Some? && submitted && !ring.bug ==> held != [] && held[|held| - 1] == Held(u.value, true)
      ensures old(Orderly()) ==> (ring.bug <==> u.Some? && !submitted && held != [])
      ensures u.None? && !ring.bug ==> frames == [] || |old(held)| >= TX_URB_NUM || Picked(old(ring.Fields())).None?
      ensures u.Some? ==> Taken(u.value, frames)
    {
      if |held| >= TX_URB_NUM { return None; }
      u := Fill(frames, start);
      if u.Some? { Finish(u.value, submitted, start); }
    }

    /** The filled transfer is submitted, or fails and gives its chunks back. */
    method Finish(u: Urb, submitted: bool, ghost start: State)
      requires Running(start) && !ring.bug && phase == Filled(u)
      modifies this, ring
      ensures Running(start) && (!ring.bug ==> phase == Idle)
      ensures submitted && !ring.bug ==> held != [] && held[|held| - 1] == Held(u, true)
      ensures old(Orderly()) ==> (ring.bug <==> !submitted && held != [])
    {
      Unlocked(start);
      if ring.bug { return; }
      ghost var before := Now();
      if submitted {
        held := held + [Held(u, true)];
        phase := Idle;
        Happened(start, before, Submit);
        return;
      }
      Go(start, Fail);
      Unlocked(start);
      if ring.bug { return; }
      before := Now();
      ring.FreeAll(u.start, u.chunks);
      phase := Idle;
      Happened(start, before, Release);
    }
  }
}
