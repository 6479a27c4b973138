/** The transmit buffer of the USB driver: a ring of equal chunks, handed out and taken back in
    turn, and the loop that fills one transfer with frames across several chunks. */
module UsbRing {
  import opened Expressions

  const PER_PACKET_LEN: nat := 2048
  const PER_BUFF_AGGR_NUM: nat := 8
  const BUFF_ALLOC_LEN: nat := PER_BUFF_AGGR_NUM * PER_PACKET_LEN
  const URB_AGGR_NUM: nat := 16
  const TX_URB_NUM: nat := 4

  // ---------------------------------------------------------------- positions in the ring

  /** The chunk that is k places after the chunk first. */
  function Place(total: nat, first: nat, k: nat): nat
    requires first < total && k <= total
    ensures Place(total, first, k) < total
  {
    if first + k < total then first + k else first + k - total
  }

  function Address(base: nat, i: nat): nat { base + i * BUFF_ALLOC_LEN }

  lemma AddressInjective(base: nat, i: nat, j: nat)
    ensures Address(base, i) == Address(base, j) <==> i == j
    ensures i < j ==> Address(base, i) + BUFF_ALLOC_LEN <= Address(base, j)
  {
    if i < j { assert j * BUFF_ALLOC_LEN - i * BUFF_ALLOC_LEN == (j - i) * BUFF_ALLOC_LEN >= BUFF_ALLOC_LEN; }
    if j < i { assert i * BUFF_ALLOC_LEN - j * BUFF_ALLOC_LEN == (i - j) * BUFF_ALLOC_LEN >= BUFF_ALLOC_LEN; }
  }

  /** The chunks from first on, n of them. */
  function Chunks(base: nat, total: nat, first: nat, n: nat): (r: seq<nat>)
    requires first < total && n <= total
    ensures |r| == n
  {
    seq(n, (k: nat) requires k < n => Address(base, Place(total, first, k)))
  }

  /** Stepping on one chunk, around the end. */
  lemma NextChunk(base: nat, total: nat, first: nat, k: nat)
    requires first < total && k < total
    ensures var next := Address(base, Place(total, first, k)) + BUFF_ALLOC_LEN;
            && next <= Address(base, total)
            && Address(base, Place(total, first, k + 1)) == if next == Address(base, total) then base else next
  {
    AddressInjective(base, Place(total, first, k) + 1, total);
  }

  lemma ChunksGrow(base: nat, total: nat, first: nat, n: nat)
    requires first < total && 0 < n <= total
    ensures Chunks(base, total, first, n) ==
            Chunks(base, total, first, n - 1) + [Address(base, Place(total, first, n - 1))]
  {
  }

  lemma ChunksShrink(base: nat, total: nat, first: nat, n: nat)
    requires first < total && 0 < n <= total
    ensures Chunks(base, total, Place(total, first, 1), n - 1) == Chunks(base, total, first, n)[1..]
  {
  }

  predicate Disjoint(a: nat, b: nat) { a + BUFF_ALLOC_LEN <= b || b + BUFF_ALLOC_LEN <= a }

  /** Chunks of one round do not overlap and lie in the buffer. */
  lemma ChunksDisjoint(base: nat, total: nat, first: nat, n: nat)
    requires first < total && n <= total
    ensures var c := Chunks(base, total, first, n);
            && (forall i, j :: 0 <= i < j < n ==> Disjoint(c[i], c[j]))
            && (forall i :: 0 <= i < n ==> base <= c[i] && c[i] + BUFF_ALLOC_LEN <= Address(base, total))
  {
    var c := Chunks(base, total, first, n);
    forall i, j | 0 <= i < j < n ensures Disjoint(c[i], c[j]) {
      AddressInjective(base, Place(total, first, i), Place(total, first, j));
      AddressInjective(base, Place(total, first, j), Place(total, first, i));
    }
    forall i | 0 <= i < n ensures c[i] + BUFF_ALLOC_LEN <= Address(base, total) {
      AddressInjective(base, Place(total, first, i), total);
    }
  }

  /** The buffer that is allocated for max URBs of the given packet length holds whole chunks. */
  lemma WholeChunks(len: nat, max: nat)
    requires len % PER_PACKET_LEN == 0
    ensures (len * max * URB_AGGR_NUM) % BUFF_ALLOC_LEN == 0
    ensures len > 0 && max > 0 ==> len * max * URB_AGGR_NUM / BUFF_ALLOC_LEN >= 1
  {
    var q := len / PER_PACKET_LEN;
    assert len == q * PER_PACKET_LEN;
    var n := q * max * 2;
    assert len * max * URB_AGGR_NUM == n * BUFF_ALLOC_LEN;
    MultipleOf(n);
    if len > 0 && max > 0 {
      assert q >= 1;
      assert q * max >= 1 by { assert (q - 1) * max >= 0; }
    }
  }

  lemma MultipleOf(n: nat)
    ensures (n * BUFF_ALLOC_LEN) % BUFF_ALLOC_LEN == 0 && n * BUFF_ALLOC_LEN / BUFF_ALLOC_LEN == n
  {
  }

  // ---------------------------------------------------------------- the ring's fields and their sections

  /** `NextAllocPost`, `NextFreePost`, `tx_dma_addr_buffer_full` and `free_dma_buffer_cnt`. */
  datatype RingState = RingState(nextAlloc: nat, nextFree: nat, full: bool, freeCount: int)

  /** `used` chunks from the chunk `first` on are in use: the pointers enclose them, the full flag is set
      exactly if these are all, and the counter counts the others. */
  predicate RingOk(base: nat, total: nat, r: RingState, first: nat, used: nat) {
    && first < total && used <= total
    && r.nextFree == Address(base, first) && r.nextAlloc == Address(base, Place(total, first, used))
    && (r.full <==> used == total) && r.freeCount == total - used
  }

  /** The pointers meet exactly if the ring is empty or full. */
  lemma PointersMeet(base: nat, total: nat, r: RingState, first: nat, used: nat)
    requires RingOk(base, total, r, first, used)
    ensures r.nextAlloc == r.nextFree <==> used == 0 || used == total
  {
    AddressInjective(base, Place(total, first, used), first);
  }

  /** `atbm_usb_pick_txDMABuf` */
  function Picked(r: RingState): Option<nat> {
    if r.nextAlloc == r.nextFree && r.full then None else Some(r.nextAlloc)
  }

  /** `atbm_usb_get_txDMABuf`, and whether its check fires. */
  function Got(base: nat, total: nat, r: RingState): (RingState, Option<nat>, bool) {
    if r.nextAlloc == r.nextFree && r.full then (r, None, false)
    else
      var count := r.freeCount - 1;
      var next := if r.nextAlloc + BUFF_ALLOC_LEN >= Address(base, total) then base else r.nextAlloc + BUFF_ALLOC_LEN;
      (RingState(next, r.nextFree, r.full || next == r.nextFree, if count < 0 then 0 else count), Some(r.nextAlloc), count < 0)
  }

  /** `atbm_usb_free_txDMABuf`, and whether its check fires. */
  function Freed(base: nat, total: nat, r: RingState): (RingState, bool) {
    if r.nextAlloc == r.nextFree && !r.full then (r, false)
    else
      var next := r.nextFree + BUFF_ALLOC_LEN;
      (RingState(r.nextAlloc, if next == Address(base, total) then base else next,
                 r.full && r.nextAlloc != r.nextFree, r.freeCount + 1), total < r.freeCount + 1)
  }

  function FreedMany(base: nat, total: nat, r: RingState, n: nat): (RingState, bool)
    decreases n
  {
    if n == 0 then (r, false)
    else
      var (r1, bug1) := Freed(base, total, r);
      var (r2, bug2) := FreedMany(base, total, r1, n - 1);
      (r2, bug1 || bug2)
  }

  /** `atbm_usb_free_txDMABuf_all`; behind a failed check nothing runs. */
  function Released(base: nat, total: nat, r: RingState, buffer: nat, n: nat): (RingState, bool) {
    if buffer != r.nextFree then (r, true) else FreedMany(base, total, r, n)
  }

  lemma PickedFacts(base: nat, total: nat, r: RingState, first: nat, used: nat)
    requires RingOk(base, total, r, first, used)
    ensures Picked(r) == if used == total then None else Some(r.nextAlloc)
  {
    PointersMeet(base, total, r, first, used);
  }

  /** A new chunk goes behind those in use, and the check does not fire. */
  lemma GotFacts(base: nat, total: nat, r: RingState, first: nat, used: nat)
    requires RingOk(base, total, r, first, used)
    ensures used == total ==> Got(base, total, r) == (r, None, false)
    ensures used < total ==>
              var (s, buf, bug) := Got(base, total, r);
              && !bug && buf == Some(r.nextAlloc) && RingOk(base, total, s, first, used + 1)
              && r.nextAlloc + BUFF_ALLOC_LEN <= Address(base, total)
              && s.nextAlloc == (if r.nextAlloc + BUFF_ALLOC_LEN >= Address(base, total) then base else r.nextAlloc + BUFF_ALLOC_LEN)
              && Chunks(base, total, first, used + 1) == Chunks(base, total, first, used) + [r.nextAlloc]
  {
    PointersMeet(base, total, r, first, used);
    if used < total {
      NextChunk(base, total, first, used);
      AddressInjective(base, Place(total, first, used + 1), first);
      ChunksGrow(base, total, first, used + 1);
    }
  }

  /** The oldest chunk is released, and the check does not fire. */
  lemma FreedFacts(base: nat, total: nat, r: RingState, first: nat, used: nat)
    requires RingOk(base, total, r, first, used)
    ensures var (s, bug) := Freed(base, total, r);
            && !bug && s.nextAlloc == r.nextAlloc
            && RingOk(base, total, s, if used == 0 then first else Place(total, first, 1), if used == 0 then 0 else used - 1)
    ensures used > 0 ==> Chunks(base, total, Place(total, first, 1), used - 1) == Chunks(base, total, first, used)[1..]
  {
    PointersMeet(base, total, r, first, used);
    if used > 0 {
      NextChunk(base, total, first, 0);
      ChunksShrink(base, total, first, used);
    }
  }

  /** s is the ring r after the n oldest of the `used` chunks from `first` on were released. */
  predicate Fewer(base: nat, total: nat, r: RingState, s: RingState, first: nat, used: nat, n: nat)
    requires first < total && n <= used <= total
  {
    && s.nextAlloc == r.nextAlloc && RingOk(base, total, s, Place(total, first, n), used - n)
    && Chunks(base, total, Place(total, first, n), used - n) == Chunks(base, total, first, used)[n..]
  }

  /** The n oldest chunks are released; more than there are do no harm. */
  lemma {:induction false} FreedManyFacts(base: nat, total: nat, r: RingState, first: nat, used: nat, n: nat)
    requires RingOk(base, total, r, first, used)
    ensures !FreedMany(base, total, r, n).1
    ensures Fewer(base, total, r, FreedMany(base, total, r, n).0, first, used, if n < used then n else used)
    decreases n
  {
    if n > 0 {
      var r1 := Freed(base, total, r).0;
      FreedFacts(base, total, r, first, used);
      if used == 0 {
        FreedManyFacts(base, total, r1, first, 0, n - 1);
      } else {
        FreedManyFacts(base, total, r1, Place(total, first, 1), used - 1, n - 1);
        FewerStep(base, total, r, r1, FreedMany(base, total, r1, n - 1).0, first, used, if n < used then n else used);
      }
    } else {
      assert Chunks(base, total, first, used)[0..] == Chunks(base, total, first, used);
    }
  }

  lemma FewerStep(base: nat, total: nat, r: RingState, r1: RingState, s: RingState, first: nat, used: nat, n: nat)
    requires RingOk(base, total, r, first, used) && 0 < n <= used && r1.nextAlloc == r.nextAlloc
    requires Chunks(base, total, Place(total, first, 1), used - 1) == Chunks(base, total, first, used)[1..]
    requires Fewer(base, total, r1, s, Place(total, first, 1), used - 1, n - 1)
    ensures Fewer(base, total, r, s, first, used, n)
  {
    PlaceTwice(total, first, 1, n - 1);
    assert Chunks(base, total, first, used)[1..][n - 1..] == Chunks(base, total, first, used)[n..];
  }

  lemma PlaceTwice(total: nat, first: nat, a: nat, b: nat)
    requires first < total && a + b <= total
    ensures Place(total, Place(total, first, a), b) == Place(total, first, a + b)
  {
  }

  // ---------------------------------------------------------------- the ring in place

  class Ring {
    const base: nat
    const total: nat
    var nextAlloc: nat
    var nextFree: nat
    var full: bool
    var freeCount: int
    /** One of the BUG checks has fired. */
    var bug: bool

    constructor (base: nat, total: nat)
      requires total > 0
      ensures this.base == base && this.total == total && RingOk(base, total, Fields(), 0, 0) && !bug
    {
      this.base, this.total := base, total;
      nextAlloc, nextFree, full, freeCount, bug := base, base, false, total, false;
    }

    ghost function Fields(): RingState
      reads this
    {
      RingState(nextAlloc, nextFree, full, freeCount)
    }

    function End(): nat { Address(base, total) }

    /** `atbm_usb_pick_txDMABuf` */
    method Pick() returns (buf: Option<nat>)
      ensures buf == Picked(Fields())
    {
      if nextAlloc == nextFree && full { return None; }
      buf := Some(nextAlloc);
    }

    /** `atbm_usb_get_txDMABuf` */
    method Get() returns (buf: Option<nat>)
      modifies this
      ensures (Fields(), buf) == (Got(base, total, old(Fields())).0, Got(base, total, old(Fields())).1)
      ensures bug == (old(bug) || Got(base, total, old(Fields())).2)
    {
      if nextAlloc == nextFree && full { return None; }
      freeCount := freeCount - 1;
      if freeCount < 0 {
        freeCount := 0;
        bug := true;
      }
      buf := Some(nextAlloc);
      nextAlloc := nextAlloc + BUFF_ALLOC_LEN;
      if nextAlloc >= End() { nextAlloc := base; }
      if nextAlloc == nextFree { full := true; }
    }

    /** `atbm_usb_free_txDMABuf` */
    method Free()
      modifies this
      ensures Fields() == Freed(base, total, old(Fields())).0
      ensures bug == (old(bug) || Freed(base, total, old(Fields())).1)
    {
      if nextAlloc == nextFree {
        if !full { return; }
        full := false;
      }
      freeCount := freeCount + 1;
      if total < freeCount { bug := true; }
      nextFree := nextFree + BUFF_ALLOC_LEN;
      if nextFree == End() { nextFree := base; }
    }

    /** `atbm_usb_free_txDMABuf_all` */
    method FreeAll(buffer: nat, count: nat)
      modifies this
      ensures Fields() == Released(base, total, old(Fields()), buffer, count).0
      ensures bug == (old(bug) || Released(base, total, old(Fields()), buffer, count).1)
    {
      if buffer != nextFree {
        bug := true;
        return;
      }
      var n := count;
      while n > 0
        invariant 0 <= n <= count
        invariant FreedMany(base, total, old(Fields()), count).0 == FreedMany(base, total, Fields(), n).0
        invariant (old(bug) || FreedMany(base, total, old(Fields()), count).1) == (bug || FreedMany(base, total, Fields(), n).1)
      {
        n := n - 1;
        Free();
      }
    }
  }
}
