/** Transmit credit on the SDIO bus without transmit confirmations: the host counts the frames it
    sends, the device counts the frames it has transmitted, and the host reads the device's
    32-bit counter whenever it runs out of credit. */
module SdioCredit {
  import opened Expressions
  import Runs

  const WRAP: nat := 0x1_0000_0000
  const HALF: nat := 0x8000_0000

  /** Unsigned 32-bit arithmetic, and the cast to a signed one. */
  function U32(x: int): nat { x % WRAP }

  function I32(x: int): int { if U32(x) < HALF then U32(x) else U32(x) - WRAP }

  /** A counter value the host has read and not used yet: the number of frames the device had
      transmitted then, or whatever the memory of a device without firmware holds. */
  datatype Read = Counted(done: nat) | Garbage(raw: nat)

  function Raw(r: Read): nat { if r.Counted? then U32(r.done) else U32(r.raw) }

  /** buffers is `numInpChBufs`, nXmits, hwXmits and free are the host's fields; sent and done are
      the frames handed to the device and transmitted by it since its start; bug tells that one
      of the checks around the credit has fired. */
  datatype State = State(
    up: bool, buffers: nat, nXmits: nat, hwXmits: nat, free: int, pending: Option<Read>,
    sent: nat, done: nat, bug: bool)

  // ---------------------------------------------------------------- atomic sections

  /** `hw_bufs_free >= n_needs`, where the left side is converted to unsigned. */
  predicate Enough(free: int, needs: nat) { U32(free) >= needs }

  /** The host's plausibility test of a counter value. */
  predicate Plausible(s: State, raw: nat) {
    !(I32(s.nXmits) < I32(raw) || I32(s.nXmits - raw) > s.buffers || I32(s.nXmits - raw) < 0)
  }

  /** The section that turns a counter value into credit. */
  function UseCounter(s: State, raw: nat): State {
    if Plausible(s, raw) then s.(hwXmits := raw, free := I32(s.buffers - U32(s.nXmits - raw)), pending := None)
    else s.(pending := None)
  }

  /** The section that counts a frame, with the checks before and after it. */
  function CountFrame(s: State): State {
    s.(bug := s.bug || s.free <= 0 || s.free - 1 < 0, nXmits := U32(s.nXmits + 1), free := s.free - 1, sent := s.sent + 1)
  }

  /** One step of the transmit thread, the device, or the restart: the transmit thread reads the
      counter, uses what it read, sends a frame; the device transmits a frame; the firmware is
      stopped together with the transmit thread, and later reports its number of buffers. */
  datatype Event = ReadCounter(raw: nat) | UseRead | Send | Transmit | Restart | Startup(buffers: nat)

  predicate Enabled(s: State, e: Event) {
    match e
    case ReadCounter(_) => s.pending.None?
    case UseRead => s.pending.Some?
    case Send => s.up && s.pending.None? && Enough(s.free, 1)
    case Transmit => s.up && s.done < s.sent
    case Restart => true
    case Startup(n) => !s.up && n < 0x1_0000
  }

  function After(s: State, e: Event): State
    requires Enabled(s, e)
  {
    match e
    case ReadCounter(raw) => s.(pending := Some(if s.up then Counted(s.done) else Garbage(raw)))
    case UseRead => UseCounter(s, Raw(s.pending.value))
    case Send => CountFrame(s)
    case Transmit => s.(done := s.done + 1)
    case Restart => State(false, s.buffers, 0, 0, 0, None, 0, 0, s.bug)
    case Startup(n) => s.(up := true, buffers := n, free := n)
  }

  /** The protocol as a machine; a step that is not possible does nothing. */
  const PROTOCOL: Runs.Machine<State, Event> :=
    Runs.Machine((s, e) => Enabled(s, e), (s, e) => if Enabled(s, e) then After(s, e) else s)

  predicate IsRun(s: State, events: seq<Event>) { Runs.IsRun(PROTOCOL, s, events) }

  function Outcome(s: State, events: seq<Event>): State { Runs.Outcome(PROTOCOL, s, events) }

  ghost predicate Reaches(s: State, t: State) { Runs.Reaches(PROTOCOL, s, t) }

  function Initial(): State { State(false, 0, 0, 0, 0, None, 0, 0, false) }

  // ---------------------------------------------------------------- safety

  /** The credit never exceeds the buffers that the device has free. */
  ghost predicate Safe(s: State) {
    && !s.bug && s.buffers < 0x1_0000
    && s.nXmits == U32(s.sent) && s.done <= s.sent
    && 0 <= s.free <= s.buffers - (s.sent - s.done)
    && (!s.up ==> s.sent == 0)
    && (s.pending.Some? && s.pending.value.Counted? ==> s.pending.value.done <= s.done && s.sent - s.pending.value.done <= s.buffers)
    && (s.pending.Some? && s.pending.value.Garbage? ==> s.sent == 0)
  }

  lemma WrapDifference(a: int, b: int)
    ensures U32(U32(a) - U32(b)) == U32(a - b)
    ensures 0 <= a - b < WRAP ==> U32(a - b) == a - b
  {
  }

  /** What a counter read since the start of the device gives, if it is used at all. */
  lemma CreditFromCounter(s: State, done: nat)
    requires s.nXmits == U32(s.sent) && done <= s.sent && s.sent - done <= s.buffers < 0x1_0000
    ensures Plausible(s, U32(done)) ==> UseCounter(s, U32(done)).free == s.buffers - (s.sent - done)
    ensures Plausible(s, U32(done)) <==> I32(s.sent) >= I32(done)
  {
    WrapDifference(s.sent, done);
  }

  lemma UseReadSafe(s: State)
    requires Safe(s) && s.pending.Some?
    ensures Safe(UseCounter(s, Raw(s.pending.value)))
  {
    var r := s.pending.value;
    if r.Counted? { CreditFromCounter(s, r.done); }
  }

  lemma StepSafe(s: State, e: Event)
    requires Safe(s) && Enabled(s, e)
    ensures Safe(After(s, e))
  {
    if e.UseRead? { UseReadSafe(s); }
  }

  /** In every interleaving, the credit and the frames in the device together never exceed its
      buffers, and no check fires. */
  lemma {:induction false} RunSafe(s: State, events: seq<Event>)
    requires Safe(s) && IsRun(s, events)
    ensures Safe(Outcome(s, events))
    decreases |events|
  {
    if events != [] {
      StepSafe(s, events[0]);
      RunSafe(After(s, events[0]), events[1..]);
    }
  }

  /** From power-up on. */
  lemma EveryRunSafe(events: seq<Event>)
    requires IsRun(Initial(), events)
    ensures Safe(Outcome(Initial(), events))
  {
    RunSafe(Initial(), events);
  }

  // ---------------------------------------------------------------- which counter values are used

  /** A correct counter value is refused exactly while the host's counter and the device's are on
      different sides of the sign bit. */
  lemma RefusedAcrossSign(s: State, done: nat)
    requires s.nXmits == U32(s.sent) && done <= s.sent && s.sent - done <= s.buffers < 0x1_0000
    ensures Plausible(s, U32(done)) <==> (s.sent + HALF) / WRAP == (done + HALF) / WRAP
  {
    CreditFromCounter(s, done);
    SignedOf(s.sent);
    SignedOf(done);
  }

  /** With one frame in flight over the sign bit, the credit that is really there is refused. */
  lemma RefusedInFlight()
    ensures var s := State(true, 8, HALF, HALF - 2, 6, None, HALF, HALF - 1, false);
            && Safe(s) && !Plausible(s, U32(s.done))
            && UseCounter(s, U32(s.done)).free < s.buffers - (s.sent - s.done)
            && Plausible(s.(done := HALF), U32(HALF)) && UseCounter(s.(done := HALF), U32(HALF)).free == s.buffers
  {
  }

  lemma SignedOf(x: nat)
    ensures I32(x) == x - (x + HALF) / WRAP * WRAP
  {
    var q := (x + HALF) / WRAP;
    var r := (x + HALF) % WRAP;
    assert x == q * WRAP + (r - HALF);
    if r >= HALF {
      Remainder(x, q, r - HALF);
    } else {
      Remainder(x, q - 1, r + HALF);
    }
  }

  lemma Remainder(x: int, q: int, r: nat)
    requires x == q * WRAP + r && r < WRAP
    ensures x % WRAP == r
  {
  }

  /** Any counter value at all is harmless exactly if the host refuses it or it does not claim more
      transmitted frames than there are. */
  lemma HarmlessExactly(s: State, raw: nat)
    requires Safe(s) && raw < WRAP
    ensures Safe(UseCounter(s, raw)) <==> !Plausible(s, raw) || U32(s.nXmits - raw) >= s.sent - s.done
  {
  }

  /** That is why the restart stops the transmit thread first: a counter value read before the
      restart and used after it can hand out credit that is not there. */
  lemma StaleReadUnsafe()
    ensures var s := State(true, 8, 5, 0, 3, None, 5, 0, false);
            Safe(s) && !Safe(UseCounter(s, 5))
  {
  }

  // ---------------------------------------------------------------- the credit comes back

  /** Once the device has transmitted everything, one more read gives the full credit. */
  lemma {:induction false} CreditReturns(s: State)
    requires Safe(s) && s.up && s.pending.None?
    ensures var events := seq(s.sent - s.done, _ => Transmit) + [ReadCounter(0), UseRead];
            IsRun(s, events) && Outcome(s, events).free == s.buffers
    decreases s.sent - s.done
  {
    var events := seq(s.sent - s.done, _ => Transmit) + [ReadCounter(0), UseRead];
    if s.sent == s.done {
      assert events == [ReadCounter(0), UseRead];
      var t := After(s, events[0]);
      assert events[1..] == [UseRead] && [UseRead][1..] == [];
      CreditFromCounter(t, t.done);
      assert Outcome(t, [UseRead]) == UseCounter(t, U32(t.done));
    } else {
      var t := After(s, Transmit);
      CreditReturns(t);
      assert events[1..] == seq(t.sent - t.done, _ => Transmit) + [ReadCounter(0), UseRead];
    }
  }

  lemma ReachesSafe(s: State, t: State)
    requires Safe(s) && Reaches(s, t)
    ensures Safe(t)
  {
    var events :| Runs.IsRun(PROTOCOL, s, events) && Runs.Outcome(PROTOCOL, s, events) == t;
    RunSafe(s, events);
  }

  // ---------------------------------------------------------------- restart

  /** At any time the firmware can be stopped, and when it is up again there is a credit of all its buffers. */
  lemma RestartGivesCredit(s: State, n: nat)
    requires n < 0x1_0000
    ensures var t := Outcome(s, [Restart, Startup(n)]);
            IsRun(s, [Restart, Startup(n)]) && t.up && t.free == t.buffers == n && t.sent == t.done == 0 && t.pending == None
  {
    assert [Restart, Startup(n)][1..] == [Startup(n)] && [Startup(n)][1..] == [];
    var u := After(s, Restart);
    assert Runs.IsRun(PROTOCOL, After(u, Startup(n)), []);
    assert Runs.IsRun(PROTOCOL, u, [Startup(n)]) && Runs.Outcome(PROTOCOL, u, [Startup(n)]) == After(u, Startup(n));
  }
}
