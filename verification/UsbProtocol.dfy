/** The transmit path as a protocol: one step for each section under the ring's lock and for each
    thing the transmitter does between them.  Completions come at any point, also while a transfer
    is being filled. */
module UsbProtocol {
  import opened Expressions
  import opened UsbRing
  import Runs

  /** A transfer (URB): where it starts, its frames and its chunks. */
  datatype Urb = Urb(start: nat, frames: nat, chunks: nat)

  /** The bytes of a transfer. */
  function Length(u: Urb): nat { u.frames * PER_PACKET_LEN }

  /** A transfer whose chunks are in use: submitted and not completed, or completed without giving
      its chunks back. */
  datatype Held = Held(urb: Urb, flying: bool)

  /** What the transmitter is doing: nothing; at the top of its loop, at the place buff of the current
      chunk or before a new one; with a new chunk for the frame at hand; behind a full chunk; with a
      filled transfer; or with a transfer that could not be submitted. */
  datatype Phase = Idle | Top(u: Urb, buff: Option<nat>) | Loaded(u: Urb, place: nat) | Full(u: Urb) | Filled(u: Urb) | Failed(u: Urb)

  datatype State = State(base: nat, total: nat, ring: RingState, phase: Phase, held: seq<Held>, bug: bool)

  datatype Event =
    | Begin | Get | Put(last: bool) | PickNext | NoFrame | Submit | Fail | Release
    | Complete(i: nat) | Keep(i: nat)

  /** The frame goes to the place buff; the last one of a transfer closes it. */
  function AfterFrame(s: State, u: Urb, buff: nat, last: bool): Phase {
    var v := u.(frames := u.frames + 1);
    if last then Filled(v)
    else if v.frames < PER_BUFF_AGGR_NUM * v.chunks then Top(v, Some(buff + PER_PACKET_LEN))
    else if buff + PER_PACKET_LEN >= Address(s.base, s.total) then Filled(v)
    else Full(v)
  }

  predicate Enabled(s: State, e: Event) {
    !s.bug &&
    match e
    case Begin => s.phase.Idle? && |s.held| < TX_URB_NUM
    case Get => s.phase.Top? && s.phase.buff.None?
    case Put(_) => s.phase.Loaded? || (s.phase.Top? && s.phase.buff.Some?)
    case PickNext => s.phase.Full?
    case NoFrame => s.phase.Top?
    case Submit => s.phase.Filled?
    case Fail => s.phase.Filled?
    case Release => s.phase.Failed?
    case Complete(i) => i < |s.held| && s.held[i].flying
    case Keep(i) => i < |s.held| && s.held[i].flying
  }

  function After(s: State, e: Event): State
    requires Enabled(s, e)
  {
    match e
    case Begin =>
      var buf := Picked(s.ring);
      if buf.None? then s else s.(phase := Top(Urb(buf.value, 0, 0), None))
    case Get =>
      var (r, buf, bug) := Got(s.base, s.total, s.ring);
      var u := s.phase.u.(chunks := s.phase.u.chunks + 1);
      // BUG_ON(usb_aggr_buff == NULL)
      if buf.None? then s.(bug := true) else s.(ring := r, bug := bug, phase := Loaded(u, buf.value))
    case Put(last) =>
      s.(phase := AfterFrame(s, s.phase.u, if s.phase.Loaded? then s.phase.place else s.phase.buff.value, last))
    case PickNext =>
      s.(phase := if Picked(s.ring).None? then Filled(s.phase.u) else Top(s.phase.u, None))
    case NoFrame => s.(phase := if s.phase.u.frames == 0 then Idle else Filled(s.phase.u))
    case Submit => s.(phase := Idle, held := s.held + [Held(s.phase.u, true)])
    case Fail => s.(phase := Failed(s.phase.u))
    case Release =>
      var (r, bug) := Released(s.base, s.total, s.ring, s.phase.u.start, s.phase.u.chunks);
      s.(ring := r, bug := bug, phase := Idle)
    case Complete(i) =>
      var u := s.held[i].urb;
      var (r, bug) := Released(s.base, s.total, s.ring, u.start, u.chunks);
      s.(ring := r, bug := bug, held := s.held[..i] + s.held[i + 1..])
    case Keep(i) => s.(held := s.held[i := s.held[i].(flying := false)])
  }

  /** The protocol as a machine; a step that is not possible does nothing. */
  const PROTOCOL: Runs.Machine<State, Event> :=
    Runs.Machine((s, e) => Enabled(s, e), (s, e) => if Enabled(s, e) then After(s, e) else s)

  predicate IsRun(s: State, events: seq<Event>) { Runs.IsRun(PROTOCOL, s, events) }

  function Outcome(s: State, events: seq<Event>): State { Runs.Outcome(PROTOCOL, s, events) }

  ghost predicate Reaches(s: State, t: State) { Runs.Reaches(PROTOCOL, s, t) }

  function Initial(base: nat, total: nat): State {
    State(base, total, RingState(base, base, false, total), Idle, [], false)
  }

  // ---------------------------------------------------------------- the invariant

  function ChunkRun(start: nat, n: nat): seq<nat> { seq(n, (k: nat) => Address(start, k)) }

  /** The chunks of the transfers, one transfer after the other. */
  function AllChunks(held: seq<Held>): seq<nat> {
    if held == [] then [] else ChunkRun(held[0].urb.start, held[0].urb.chunks) + AllChunks(held[1..])
  }

  /** The chunks of the transfer that is open, if there is one. */
  function OpenChunks(p: Phase): seq<nat> { if p.Idle? then [] else ChunkRun(p.u.start, p.u.chunks) }

  /** The bytes are covered by the chunks, with at least a frame in the last one. */
  predicate Covered(u: Urb) {
    u.chunks >= 1 && PER_BUFF_AGGR_NUM * (u.chunks - 1) < u.frames <= PER_BUFF_AGGR_NUM * u.chunks
  }

  /** The open transfer ends inside the buffer, where the next chunk would follow without a gap. */
  ghost predicate OpenEnds(s: State, u: Urb) {
    && u.start + u.chunks * BUFF_ALLOC_LEN <= Address(s.base, s.total)
    && s.ring.nextAlloc == if u.chunks > 0 && u.start + u.chunks * BUFF_ALLOC_LEN >= Address(s.base, s.total) then s.base
                           else u.start + u.chunks * BUFF_ALLOC_LEN
  }

  /** What holds in each phase; `used` chunks are in use. */
  ghost predicate PhaseOk(s: State, used: nat) {
    match s.phase
    case Idle => true
    case Top(u, None) => u.frames == PER_BUFF_AGGR_NUM * u.chunks && used < s.total && OpenEnds(s, u) &&
                         s.ring.nextAlloc == u.start + u.chunks * BUFF_ALLOC_LEN
    case Top(u, Some(buff)) => Covered(u) && u.frames < PER_BUFF_AGGR_NUM * u.chunks && OpenEnds(s, u) && buff == u.start + Length(u)
    case Loaded(u, place) => u.chunks >= 1 && u.frames == PER_BUFF_AGGR_NUM * (u.chunks - 1) && OpenEnds(s, u) && place == u.start + Length(u)
    case Full(u) => u.frames == PER_BUFF_AGGR_NUM * u.chunks && u.chunks >= 1 && OpenEnds(s, u) &&
                    s.ring.nextAlloc == u.start + u.chunks * BUFF_ALLOC_LEN
    case Filled(u) => Covered(u) && OpenEnds(s, u)
    case Failed(u) => Covered(u) && OpenEnds(s, u)
  }

  /** `used` chunks from `first` on are in use; they are those of the held transfers, oldest first, and
      then those of the open one. */
  ghost predicate GoodAt(s: State, first: nat, used: nat) {
    && RingOk(s.base, s.total, s.ring, first, used) && PhaseOk(s, used)
    && Chunks(s.base, s.total, first, used) == AllChunks(s.held) + OpenChunks(s.phase)
    && (forall h :: h in s.held ==> Covered(h.urb))
    && |s.held| + (if s.phase.Idle? then 0 else 1) <= TX_URB_NUM
  }

  ghost predicate Good(s: State) { !s.bug && exists first, used :: GoodAt(s, first, used) }

  // ---------------------------------------------------------------- chunks of the transfers

  lemma ChunkRunGrows(start: nat, n: nat)
    ensures ChunkRun(start, n + 1) == ChunkRun(start, n) + [Address(start, n)]
  {
  }

  lemma {:induction false} AllChunksAppend(a: seq<Held>, b: seq<Held>)
    ensures AllChunks(a + b) == AllChunks(a) + AllChunks(b)
  {
    if a == [] {
      assert a + b == b;
    } else {
      assert (a + b)[1..] == a[1..] + b;
      AllChunksAppend(a[1..], b);
    }
  }

  lemma AllChunksOne(h: Held)
    ensures AllChunks([h]) == ChunkRun(h.urb.start, h.urb.chunks)
  {
    assert [h][1..] == [];
  }

  /** Where the i-th transfer starts among all chunks. */
  lemma StartsAt(held: seq<Held>, i: nat) returns (k: nat)
    requires i < |held| && forall h :: h in held ==> Covered(h.urb)
    ensures k < |AllChunks(held)| && k + held[i].urb.chunks <= |AllChunks(held)|
    ensures AllChunks(held)[k] == held[i].urb.start
    ensures k == 0 <==> i == 0
  {
    k := |AllChunks(held[..i])|;
    assert held == held[..i] + held[i..];
    AllChunksAppend(held[..i], held[i..]);
    assert held[i..][0] == held[i] && held[i] in held;
    if i > 0 { assert held[..i][0] == held[0] && held[0] in held; }
  }

  /** The k-th chunk in use is the one at the free pointer exactly if it is the oldest. */
  lemma OldestAtFree(base: nat, total: nat, r: RingState, first: nat, used: nat, k: nat)
    requires RingOk(base, total, r, first, used) && k < used
    ensures Chunks(base, total, first, used)[k] == r.nextFree <==> k == 0
  {
    ChunksDisjoint(base, total, first, used);
    assert Chunks(base, total, first, used)[0] == r.nextFree;
    if k > 0 { assert Disjoint(Chunks(base, total, first, used)[0], Chunks(base, total, first, used)[k]); }
  }

  // ---------------------------------------------------------------- the steps

  lemma BeginGood(s: State, first: nat, used: nat)
    requires !s.bug && GoodAt(s, first, used) && Enabled(s, Begin)
    ensures GoodAt(After(s, Begin), first, used)
    ensures After(s, Begin).phase.Idle? <==> used == s.total
  {
    PickedFacts(s.base, s.total, s.ring, first, used);
    AddressInjective(s.base, Place(s.total, first, used), s.total);
    assert ChunkRun(s.ring.nextAlloc, 0) == [];
  }

  /** A chunk that was there at the last look is still there: in between chunks are only given back. */
  lemma GetGood(s: State, first: nat, used: nat)
    requires !s.bug && GoodAt(s, first, used) && Enabled(s, Get)
    ensures GoodAt(After(s, Get), first, used + 1) && !After(s, Get).bug
  {
    GotFacts(s.base, s.total, s.ring, first, used);
    GetPhase(s, used);
    ChunkRunGrows(s.phase.u.start, s.phase.u.chunks);
    assert Chunks(s.base, s.total, first, used + 1) ==
           AllChunks(s.held) + (ChunkRun(s.phase.u.start, s.phase.u.chunks) + [s.ring.nextAlloc]);
  }

  lemma GetPhase(s: State, used: nat)
    requires !s.bug && PhaseOk(s, used) && Enabled(s, Get) && !Got(s.base, s.total, s.ring).2
    requires Got(s.base, s.total, s.ring).1 == Some(s.ring.nextAlloc)
    requires s.ring.nextAlloc + BUFF_ALLOC_LEN <= Address(s.base, s.total)
    ensures PhaseOk(After(s, Get), used + 1) && !After(s, Get).bug
  {
  }

  lemma PutGood(s: State, first: nat, used: nat, last: bool)
    requires !s.bug && GoodAt(s, first, used) && Enabled(s, Put(last))
    ensures GoodAt(After(s, Put(last)), first, used)
  {
  }

  lemma PickNextGood(s: State, first: nat, used: nat)
    requires !s.bug && GoodAt(s, first, used) && Enabled(s, PickNext)
    ensures GoodAt(After(s, PickNext), first, used)
  {
    PickedFacts(s.base, s.total, s.ring, first, used);
  }

  lemma NoFrameGood(s: State, first: nat, used: nat)
    requires !s.bug && GoodAt(s, first, used) && Enabled(s, NoFrame)
    ensures GoodAt(After(s, NoFrame), first, used)
  {
    if s.phase.u.frames == 0 { assert ChunkRun(s.phase.u.start, 0) == []; }
  }

  lemma SubmitGood(s: State, first: nat, used: nat)
    requires !s.bug && GoodAt(s, first, used) && Enabled(s, Submit)
    ensures GoodAt(After(s, Submit), first, used)
  {
    var h := Held(s.phase.u, true);
    AllChunksAppend(s.held, [h]);
    AllChunksOne(h);
  }

  /** A failed submission passes the check exactly if no older transfer holds chunks at that moment. */
  lemma ReleaseGood(s: State, first: nat, used: nat)
    requires !s.bug && GoodAt(s, first, used) && Enabled(s, Release)
    ensures After(s, Release).bug <==> s.held != []
    ensures s.held == [] ==> GoodAt(After(s, Release), Place(s.total, first, used), 0)
  {
    var u := s.phase.u;
    var k := |AllChunks(s.held)|;
    assert Chunks(s.base, s.total, first, used)[k] == u.start;
    OldestAtFree(s.base, s.total, s.ring, first, used, k);
    FreedManyFacts(s.base, s.total, s.ring, first, used, u.chunks);
    if s.held != [] { assert s.held[0] in s.held; }
  }

  /** A completion passes the check exactly if it is that of the oldest transfer that holds chunks. */
  lemma CompleteGood(s: State, first: nat, used: nat, i: nat)
    requires !s.bug && GoodAt(s, first, used) && Enabled(s, Complete(i))
    ensures After(s, Complete(i)).bug <==> i != 0
    ensures i == 0 ==>
              var n := s.held[0].urb.chunks;
              n <= used && GoodAt(After(s, Complete(i)), Place(s.total, first, n), used - n)
  {
    var k := StartsAt(s.held, i);
    var u := s.held[i].urb;
    assert Chunks(s.base, s.total, first, used)[k] == u.start && s.held[i] in s.held;
    OldestAtFree(s.base, s.total, s.ring, first, used, k);
    FreedManyFacts(s.base, s.total, s.ring, first, used, u.chunks);
    if i == 0 {
      assert s.held[..0] + s.held[1..] == s.held[1..];
      assert Chunks(s.base, s.total, first, used)[u.chunks..] == AllChunks(s.held[1..]) + OpenChunks(s.phase);
    }
  }

  lemma {:induction false} KeepChunks(held: seq<Held>, i: nat)
    requires i < |held|
    ensures AllChunks(held[i := held[i].(flying := false)]) == AllChunks(held)
  {
    if i > 0 {
      assert held[i := held[i].(flying := false)][1..] == held[1..][i - 1 := held[1..][i - 1].(flying := false)];
      KeepChunks(held[1..], i - 1);
    } else {
      assert held[0 := held[0].(flying := false)][1..] == held[1..];
    }
  }

  /** The events that release chunks out of the order of their allocation. */
  predicate OutOfOrder(s: State, e: Event) {
    (e.Complete? && e.i != 0) || (e.Release? && s.held != [])
  }

  /** A step fires a check exactly if it releases chunks out of order, and otherwise keeps everything. */
  lemma StepGood(s: State, e: Event)
    requires Good(s) && Enabled(s, e)
    ensures After(s, e).bug <==> OutOfOrder(s, e)
    ensures !OutOfOrder(s, e) ==> Good(After(s, e))
  {
    var first, used :| GoodAt(s, first, used);
    match e
    case Begin => BeginGood(s, first, used);
    case Get => GetGood(s, first, used);
    case Put(last) => PutGood(s, first, used, last);
    case PickNext => PickNextGood(s, first, used);
    case NoFrame => NoFrameGood(s, first, used);
    case Submit => SubmitGood(s, first, used);
    case Fail => assert GoodAt(After(s, e), first, used);
    case Release => ReleaseGood(s, first, used);
    case Complete(i) => CompleteGood(s, first, used, i);
    case Keep(i) =>
      KeepChunks(s.held, i);
      assert s.held[i] in s.held;
      assert GoodAt(After(s, e), first, used);
  }

  // ---------------------------------------------------------------- every run

  /** No step of the run releases chunks out of order. */
  predicate InOrder(s: State, events: seq<Event>)
    requires IsRun(s, events)
    decreases |events|
  {
    events == [] || (!OutOfOrder(s, events[0]) && InOrder(After(s, events[0]), events[1..]))
  }

  /** In every interleaving of filling, submission, failure and completion: a check fires exactly if
      chunks are released out of the order of their allocation. */
  lemma {:induction false} RunGood(s: State, events: seq<Event>)
    requires Good(s) && IsRun(s, events)
    ensures Outcome(s, events).bug <==> !InOrder(s, events)
    ensures InOrder(s, events) ==> Good(Outcome(s, events))
    decreases |events|
  {
    if events != [] {
      StepGood(s, events[0]);
      var t := After(s, events[0]);
      assert IsRun(t, events[1..]);
      if OutOfOrder(s, events[0]) {
        assert events[1..] != [] ==> Enabled(t, events[1..][0]);
        assert Outcome(s, events) == Outcome(t, []) == t;
      } else {
        RunGood(t, events[1..]);
      }
    }
  }

  lemma EveryRunGood(base: nat, total: nat, events: seq<Event>)
    requires total > 0 && IsRun(Initial(base, total), events)
    ensures Outcome(Initial(base, total), events).bug <==> !InOrder(Initial(base, total), events)
    ensures InOrder(Initial(base, total), events) ==> Good(Outcome(Initial(base, total), events))
  {
    assert Chunks(base, total, 0, 0) == [];
    assert GoodAt(Initial(base, total), 0, 0);
    RunGood(Initial(base, total), events);
  }

  /** What the invariant means: the chunks of all transfers are disjoint and inside the buffer; those of
      the open one are the newest, follow each other without a gap and cover its bytes; the flag is set
      exactly if all chunks are in use, and the counter counts the others. */
  lemma GoodMeans(s: State)
    requires Good(s)
    ensures var c := AllChunks(s.held) + OpenChunks(s.phase);
            && (forall i, j :: 0 <= i < j < |c| ==> Disjoint(c[i], c[j]))
            && (forall i :: 0 <= i < |c| ==> s.base <= c[i] && c[i] + BUFF_ALLOC_LEN <= Address(s.base, s.total))
            && (s.ring.full <==> |c| == s.total) && s.ring.freeCount == s.total - |c|
    ensures !s.phase.Idle? ==>
              var u := s.phase.u;
              && (forall k :: 0 <= k < u.chunks ==> OpenChunks(s.phase)[k] == u.start + k * BUFF_ALLOC_LEN)
              && Length(u) <= u.chunks * BUFF_ALLOC_LEN && u.start + Length(u) <= Address(s.base, s.total)
    ensures s.phase.Loaded? ==> s.phase.place + PER_PACKET_LEN <= s.phase.u.start + s.phase.u.chunks * BUFF_ALLOC_LEN
    ensures s.phase.Top? && s.phase.buff.Some? ==>
              s.phase.buff.value + PER_PACKET_LEN <= s.phase.u.start + s.phase.u.chunks * BUFF_ALLOC_LEN
  {
    var first, used :| GoodAt(s, first, used);
    ChunksDisjoint(s.base, s.total, first, used);
  }

  /** A submission that fails: the check passes exactly if everything older has been completed before
      the chunks are given back. */
  lemma FailedSubmission(s: State)
    requires Good(s) && s.phase.Filled?
    ensures IsRun(s, [Fail, Release]) && (Outcome(s, [Fail, Release]).bug <==> s.held != [])
  {
    var t := After(s, Fail);
    StepGood(s, Fail);
    StepGood(t, Release);
    assert [Fail, Release][1..] == [Release] && [Release][1..] == [];
    assert IsRun(t, [Release]) && Outcome(t, [Release]) == Outcome(After(t, Release), []) == After(t, Release);
    assert Outcome(s, [Fail, Release]) == Outcome(t, [Release]);
  }

  /** It does fire: with two chunks, the first transfer is in flight when the second one fails. */
  lemma FailureFires(base: nat, total: nat) returns (s: State)
    requires total >= 2
    ensures Reaches(Initial(base, total), s) && s.phase.Filled? && s.held != []
    ensures IsRun(s, [Fail, Release]) && Outcome(s, [Fail, Release]).bug
  {
    var start := Initial(base, total);
    assert Chunks(base, total, 0, 0) == [];
    assert GoodAt(start, 0, 0);
    Runs.ReachesSame(PROTOCOL, start);
    s := FilledOnce(start, start);
    StepGood(s, Submit);
    Runs.ReachesNext(PROTOCOL, start, s, Submit);
    s := After(s, Submit);
    assert s.held[1..] == [] && |AllChunks(s.held)| == 1;
    GoodMeans(s);
    s := FilledOnce(start, s);
    FailedSubmission(s);
  }

  /** A transfer of one frame, when there is a free chunk. */
  lemma FilledOnce(start: State, s: State) returns (t: State)
    requires Reaches(start, s) && Good(s) && !s.bug && s.phase.Idle? && |s.held| < TX_URB_NUM && Picked(s.ring).Some?
    ensures Reaches(start, t) && Good(t) && !t.bug && t.phase.Filled? && t.phase.u.chunks == 1 && t.held == s.held && t.total == s.total
  {
    StepGood(s, Begin);
    Runs.ReachesNext(PROTOCOL, start, s, Begin);
    t := After(s, Begin);
    StepGood(t, Get);
    Runs.ReachesNext(PROTOCOL, start, t, Get);
    t := After(t, Get);
    StepGood(t, Put(true));
    Runs.ReachesNext(PROTOCOL, start, t, Put(true));
    t := After(t, Put(true));
  }
}
