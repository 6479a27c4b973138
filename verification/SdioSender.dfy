/** The transmit thread's polling and sending loops over the shared credit fields.  Everything they
    do is a run of the credit protocol, so its safety carries over. */
module SdioSender {
  import opened Expressions
  import opened SdioCredit
  import Runs

  const MAX_POOL_BUFF_NUM := 4
  const MAX_LOOP_POLL_CNT := 6000

  const SDIO_BLOCK_SIZE: nat := 256
  const SDIO_TX_MAXLEN: nat := 4096 * 8

  /** A frame of the queue: its length, and whether it needs a confirmation. */
  datatype Frame = Frame(length: nat, confirm: bool)

  /** The length on the bus: at least 16, in whole blocks. */
  function Padded(length: nat): (r: nat)
    ensures r % SDIO_BLOCK_SIZE == 0 && length <= r && 16 <= r && r < (if length <= 8 then 16 else length) + SDIO_BLOCK_SIZE
  {
    var l := if length <= 8 then 16 else length;
    if l % SDIO_BLOCK_SIZE != 0 then l - l % SDIO_BLOCK_SIZE + SDIO_BLOCK_SIZE else l
  }

  function Total(frames: seq<Frame>): nat {
    if frames == [] then 0 else Total(frames[..|frames| - 1]) + Padded(frames[|frames| - 1].length)
  }

  lemma TotalNext(frames: seq<Frame>, i: nat)
    requires i < |frames|
    ensures Total(frames[..i + 1]) == Total(frames[..i]) + Padded(frames[i].length)
  {
    assert frames[..i + 1][..i] == frames[..i];
  }

  function CaughtUp(done: nat, sent: nat, lag: nat): int { if done + lag < sent then sent - lag else done }

  /** Reading the counter and using it at once are two steps of the protocol. */
  lemma ReadAndUse(s: State)
    requires s.up && s.pending.None?
    ensures Reaches(s, UseCounter(s, U32(s.done)))
  {
    var holding := After(s, ReadCounter(0));
    Runs.ReachesSame(PROTOCOL, s);
    Runs.ReachesNext(PROTOCOL, s, s, ReadCounter(0));
    Runs.ReachesNext(PROTOCOL, s, holding, UseRead);
    assert After(holding, UseRead) == UseCounter(s, U32(s.done));
  }

  /** A device that has transmitted everything gives the full credit. */
  lemma FullCredit(s: State, needs: nat)
    requires s.nXmits == U32(s.sent) && s.done == s.sent && needs <= s.buffers < 0x1_0000
    ensures Plausible(s, U32(s.done)) && Enough(UseCounter(s, U32(s.done)).free, needs)
  {
    CreditFromCounter(s, s.done);
  }

  class Sender {
    const buffers: nat
    var nXmits: nat
    var hwXmits: nat
    var free: int
    /** The frames handed to the device and transmitted by it, and the checks. */
    var sent: nat
    var done: nat
    var bug: bool
    /** What comes of the reads to come: a failure, or how many frames the device is behind then. */
    var bus: seq<Option<nat>>

    constructor (buffers: nat, bus: seq<Option<nat>>)
      requires buffers < 0x1_0000
      ensures this.buffers == buffers && this.bus == bus && Safe(Credit())
    {
      this.buffers, this.bus := buffers, bus;
      nXmits, hwXmits, free, sent, done, bug := 0, 0, buffers, 0, 0, false;
    }

    ghost function Credit(): State
      reads this
    {
      State(true, buffers, nXmits, hwXmits, free, None, sent, done, bug)
    }

    /** The device goes on transmitting until it is only lag frames behind. */
    method DeviceCatchesUp(lag: nat)
      requires done <= sent
      modifies this`done
      ensures done == CaughtUp(old(done), sent, lag) <= sent && Reaches(old(Credit()), Credit())
    {
      ghost var start := Credit();
      Runs.ReachesSame(PROTOCOL, start);
      while done + lag < sent
        invariant old(done) <= done <= sent && Reaches(start, Credit())
        invariant done > old(done) ==> done + lag <= sent
      {
        ghost var before := Credit();
        done := done + 1;
        Runs.ReachesNext(PROTOCOL, start, before, Transmit);
        assert Credit() == After(before, Transmit);
      }
    }

    /** One read of the device's counter and the section that uses it. */
    method Poll(needs: nat) returns (ok: bool, enough: bool)
      requires Safe(Credit()) && bus != []
      modifies this
      ensures Reaches(old(Credit()), Credit()) && bus == old(bus)[1..]
      ensures ok <==> old(bus)[0].Some?
      ensures !ok ==> !enough && Credit() == old(Credit())
      ensures ok ==> done == CaughtUp(old(done), sent, old(bus)[0].value) &&
                     Credit() == UseCounter(old(Credit()).(done := done), U32(done)) &&
                     (enough <==> Plausible(old(Credit()), U32(done)) && Enough(free, needs))
      ensures !Enough(old(free), needs) && !enough ==> !Enough(free, needs)
      ensures old(bus)[0] == Some(0) && needs <= buffers ==> enough
    {
      ghost var start := Credit();
      Runs.ReachesSame(PROTOCOL, start);
      var lag := bus[0];
      bus := bus[1..];
      if lag.None? { return false, false; }
      ok := true;
      DeviceCatchesUp(lag.value);
      ghost var before := Credit();
      enough := UseCounterValue(U32(done), needs);
      ReadAndUse(before);
      Runs.ReachesThrough(PROTOCOL, start, before, Credit());
      if lag == Some(0) && needs <= buffers { FullCredit(before, needs); }
    }

    /** The section under the lock. */
    method UseCounterValue(raw: nat, needs: nat) returns (enough: bool)
      modifies this`free, this`hwXmits
      ensures Credit() == UseCounter(old(Credit()), raw)
      ensures enough <==> Plausible(old(Credit()), raw) && Enough(free, needs)
    {
      if I32(nXmits) < I32(raw) || I32(nXmits - raw) > buffers || I32(nXmits - raw) < 0 {
        enough := false;
      } else {
        hwXmits := raw;
        free := I32(buffers - U32(nXmits - raw));
        enough := Enough(free, needs);
      }
    }

    /** `atbm_sdio_have_enough_space`: at most four reads.  If it says no without a failed read, the
        last value it read gave too little credit or was refused. */
    method HaveEnoughSpace(needs: nat) returns (enough: bool)
      requires Safe(Credit()) && |bus| >= MAX_POOL_BUFF_NUM
      modifies this
      ensures Reaches(old(Credit()), Credit())
      ensures enough <==> Enough(free, needs)
      ensures Enough(old(free), needs) ==> enough && Credit() == old(Credit()) && bus == old(bus)
      ensures !Enough(old(free), needs) && old(bus)[0] == Some(0) && needs <= buffers ==> bus == old(bus)[1..]
      ensures |old(bus)| - MAX_POOL_BUFF_NUM <= |bus| <= |old(bus)|
      ensures !enough ==> |bus| == |old(bus)| - MAX_POOL_BUFF_NUM ||
                          (|bus| < |old(bus)| && old(bus)[|old(bus)| - |bus| - 1].None?)
      ensures old(bus)[0] == Some(0) && needs <= buffers ==> enough
      ensures sent == old(sent)
    {
      ghost var start := Credit();
      Runs.ReachesSame(PROTOCOL, start);
      enough := Enough(free, needs);
      if enough { return; }
      var pools := 0;
      while true
        invariant sent == old(sent)
        invariant 0 <= pools < MAX_POOL_BUFF_NUM && bus == old(bus)[pools..]
        invariant pools > 0 ==> !(old(bus)[0] == Some(0) && needs <= buffers)
        invariant Safe(Credit()) && Reaches(start, Credit()) && !Enough(free, needs)
        decreases MAX_POOL_BUFF_NUM - pools
      {
        pools := pools + 1;
        var ok;
        ok, enough := PollOnce(start, needs);
        if !ok || enough || pools % MAX_POOL_BUFF_NUM == 0 { return; }
      }
    }

    /** `atbm_sdio_wait_enough_space`: reads until there is credit, for a bounded number of rounds.
        Every fourth round it sleeps. */
    method WaitEnoughSpace(needs: nat) returns (enough: bool)
      requires Safe(Credit()) && |bus| >= MAX_LOOP_POLL_CNT
      modifies this
      ensures Reaches(old(Credit()), Credit())
      ensures enough <==> Enough(free, needs)
      ensures sent == old(sent) && |bus| <= |old(bus)|
      ensures !enough ==> |bus| == |old(bus)| - MAX_LOOP_POLL_CNT ||
                          (|bus| < |old(bus)| && old(bus)[|old(bus)| - |bus| - 1].None?)
      ensures old(bus)[0] == Some(0) && needs <= buffers ==> enough
    {
      ghost var start := Credit();
      Runs.ReachesSame(PROTOCOL, start);
      enough := Enough(free, needs);
      ghost var idle := bus[0] == Some(0) && needs <= buffers;
      var loop := 0;
      while !enough
        invariant 0 <= loop < MAX_LOOP_POLL_CNT && |bus| >= MAX_LOOP_POLL_CNT - loop - (if enough then 1 else 0)
        invariant |bus| <= |old(bus)| && bus == old(bus)[|old(bus)| - |bus|..] && (!enough ==> |bus| == |old(bus)| - loop)
        invariant idle && !enough ==> bus[0] == Some(0) && loop == 0
        invariant sent == old(sent) && Safe(Credit()) && Reaches(start, Credit())
        invariant enough <==> Enough(free, needs)
        decreases MAX_LOOP_POLL_CNT - loop, if enough then 0 else 1
      {
        var ok;
        ok, enough := PollOnce(start, needs);
        if !ok { return false; }
        if !enough {
          loop := loop + 1;
          if loop % MAX_POOL_BUFF_NUM != 0 { continue; }
          if loop >= MAX_LOOP_POLL_CNT { break; }
        }
      }
    }

    /** A poll within a run from start. */
    method PollOnce(ghost start: State, needs: nat) returns (ok: bool, enough: bool)
      requires Safe(Credit()) && bus != [] && Safe(start) && Reaches(start, Credit())
      modifies this
      ensures Safe(Credit()) && Reaches(start, Credit()) && bus == old(bus)[1..] && sent == old(sent)
      ensures ok <==> old(bus)[0].Some?
      ensures enough ==> ok && Enough(free, needs)
      ensures !Enough(old(free), needs) && !enough ==> !Enough(free, needs)
      ensures old(bus)[0] == Some(0) && needs <= buffers ==> enough
    {
      ghost var before := Credit();
      ok, enough := Poll(needs);
      Runs.ReachesThrough(PROTOCOL, start, before, Credit());
      ReachesSafe(start, Credit());
    }

    /** The section of the sending loop that counts a frame.  Its checks cannot fire. */
    method CountFrame()
      requires Safe(Credit()) && Enough(free, 1)
      modifies this
      ensures Safe(Credit()) && Reaches(old(Credit()), Credit()) && !bug
      ensures sent == old(sent) + 1 && free == old(free) - 1 && bus == old(bus)
    {
      ghost var before := Credit();
      bug := bug || free <= 0;
      nXmits := U32(nXmits + 1);
      free := free - 1;
      bug := bug || free < 0;
      sent := sent + 1;
      Runs.ReachesSame(PROTOCOL, before);
      Runs.ReachesNext(PROTOCOL, before, before, Send);
      assert Credit() == After(before, Send);
      ReachesSafe(before, Credit());
    }

    /** One burst of `atbm_sdio_tx_bh`: frames go out while there is credit, up to one that needs a
        confirmation, and while one more slot fits into the transmit buffer; a burst ends for no other
        reason.  If no padded frame is larger than a slot, the burst fits into the buffer. */
    method SendBurst(frames: seq<Frame>, slot: nat) returns (count: nat, length: nat)
      requires Safe(Credit()) && |bus| >= MAX_POOL_BUFF_NUM * (|frames| + 1)
      modifies this
      ensures Safe(Credit()) && Reaches(old(Credit()), Credit()) && !bug
      ensures count <= |frames| && sent == old(sent) + count && sent - done <= buffers
      ensures forall i :: 0 <= i < count - 1 ==> !frames[i].confirm
      ensures count == |frames| || !Enough(free, 1) || (count > 0 && (frames[count - 1].confirm || length + slot > SDIO_TX_MAXLEN))
      ensures frames != [] && buffers >= 1 && (Enough(old(free), 1) || old(bus)[0] == Some(0)) ==> count >= 1
      ensures length == Total(frames[..count])
      ensures slot <= SDIO_TX_MAXLEN && (forall f :: f in frames ==> Padded(f.length) <= slot) ==> length <= SDIO_TX_MAXLEN
    {
      ghost var start := Credit();
      Runs.ReachesSame(PROTOCOL, start);
      count, length := 0, 0;
      var more := true;
      while more
        invariant count <= |frames| && sent == old(sent) + count && length == Total(frames[..count])
        invariant |bus| >= MAX_POOL_BUFF_NUM * (|frames| - count + (if more then 1 else 0))
        invariant Safe(Credit()) && Reaches(start, Credit())
        invariant forall i :: 0 <= i < count - 1 ==> !frames[i].confirm
        invariant more && count > 0 ==> !frames[count - 1].confirm
        invariant !more ==> count > 0 && (frames[count - 1].confirm || length + slot > SDIO_TX_MAXLEN)
        invariant count == 0 ==> Credit() == start && bus == old(bus)
        invariant slot <= SDIO_TX_MAXLEN && (forall f :: f in frames ==> Padded(f.length) <= slot) ==>
                    length <= SDIO_TX_MAXLEN && (more ==> length + slot <= SDIO_TX_MAXLEN)
        decreases |frames| - count, if more then 1 else 0
      {
        var enough := EnoughForOne(start);
        if !enough || count == |frames| { break; }
        ghost var ready := Credit();
        CountFrame();
        Runs.ReachesThrough(PROTOCOL, start, ready, Credit());
        TotalNext(frames, count);
        assert frames[count] in frames;
        length := length + Padded(frames[count].length);
        more := !frames[count].confirm && length + slot <= SDIO_TX_MAXLEN;
        count := count + 1;
      }
    }

    method EnoughForOne(ghost start: State) returns (enough: bool)
      requires Safe(start) && Safe(Credit()) && Reaches(start, Credit()) && |bus| >= MAX_POOL_BUFF_NUM
      modifies this
      ensures Safe(Credit()) && Reaches(start, Credit()) && sent == old(sent) && (enough <==> Enough(free, 1))
      ensures Enough(old(free), 1) || (old(bus)[0] == Some(0) && buffers >= 1) ==> enough
      ensures |old(bus)| - MAX_POOL_BUFF_NUM <= |bus|
    {
      ghost var before := Credit();
      enough := HaveEnoughSpace(1);
      Runs.ReachesThrough(PROTOCOL, start, before, Credit());
      ReachesSafe(start, Credit());
    }
  }
}
