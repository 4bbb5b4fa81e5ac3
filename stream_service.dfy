/** The sequential bookkeeping of the capture service: the size of the
    virtual display, the A/B bitmap alternation guarded by `copying`, the
    single-slot latest-frame queue between capture and encoder, the encode
    step that refreshes the latest JPEG, and the fallback timer that stops
    once real frames flow. Each callback of the capture thread, the encoder
    thread and the timer thread is one method; the JPEG encoder is a
    parameter that may fail. */
module StreamService {
  import opened Base

  const TargetMaxWidth: int := 720
  const JpegQuality: int := 60

  // ---------------------------------------------------------------------
  // Target size

  /** `Math.min(TARGET_MAX_WIDTH, srcW)`. */
  function TargetWidth(srcW: int): (w: int)
    ensures w <= TargetMaxWidth && w <= srcW
    ensures w == TargetMaxWidth || w == srcW
  {
    Min(TargetMaxWidth, srcW)
  }

  /** `Math.max(1, (int) ((long) targetW * srcH / Math.max(1, srcW)))`: the
      product is taken in 64 bits, where it cannot overflow for `int`
      operands, divided with truncation, and narrowed back to `int`. */
  function TargetHeight(srcW: int, srcH: int): (h: int)
    ensures h >= 1
  {
    Max(1, ToInt32(JavaDiv(TargetWidth(srcW) * srcH, Max(1, srcW))))
  }

  /** A display no wider than the limit keeps its size. */
  lemma TargetSizeOfNarrowDisplay(srcW: int, srcH: int)
    requires 1 <= srcW <= TargetMaxWidth && 1 <= srcH <= Int32Max
    ensures TargetWidth(srcW) == srcW && TargetHeight(srcW, srcH) == srcH
  {
    MulDivMod(srcH, srcW);
    assert srcW * srcH == srcH * srcW;
  }

  /** The height is the aspect-preserving height rounded down (at least
      1): `q` is the largest value with `q * srcW <= targetW * srcH`. */
  lemma TargetHeightKeepsAspect(srcW: int, srcH: int)
    requires 1 <= srcW && 0 <= srcH <= Int32Max
    ensures var w, q := TargetWidth(srcW), (TargetWidth(srcW) * srcH) / srcW;
      && TargetHeight(srcW, srcH) == Max(1, q)
      && 0 <= q <= srcH
      && q * srcW <= w * srcH < (q + 1) * srcW
  {
    var w := TargetWidth(srcW);
    var p := w * srcH;
    MulMonotone(0, w, srcH);
    MulMonotone(w, srcW, srcH);
    assert srcW * srcH == srcH * srcW;
    FloorDivBounds(p, srcW, srcH);
    assert JavaDiv(p, Max(1, srcW)) == p / srcW;
  }

  /** The Euclidean quotient of `0 <= p <= bound*m` by `m` is the floor of
      `p/m` and at most `bound`. */
  lemma FloorDivBounds(p: int, m: int, bound: int)
    requires m >= 1 && 0 <= p <= bound * m
    ensures 0 <= p / m <= bound
    ensures (p / m) * m <= p < (p / m + 1) * m
  {
    var q := p / m;
    assert (q + 1) * m == q * m + m;
  }

  // ---------------------------------------------------------------------
  // Rescheduling of the capture runnable

  /** How many runs of the capture runnable are pending after one run, as
      written: when the surface is not valid, the runnable posts itself,
      returns, and the `finally` block posts it a second time. */
  function RunsAfterTickAsWritten(runs: nat, surfaceValid: bool): (r: nat)
    requires runs >= 1
    ensures surfaceValid ==> r == runs
  {
    runs - 1 + (if surfaceValid then 1 else 2)
  }

  /** One run with an invalid surface leaves two runs pending where only
      the running one was. */
  lemma InvalidSurfaceTickPostsTwice()
    ensures RunsAfterTickAsWritten(1, false) == 2
  {
  }

  /** Runs pending after `k` runs of the as-written runnable, each with an
      invalid surface. */
  function RunsAfterInvalidTicksAsWritten(runs: nat, k: nat): (r: nat)
    requires runs >= 1
    ensures r >= 1
    decreases k
  {
    if k == 0 then runs else RunsAfterInvalidTicksAsWritten(RunsAfterTickAsWritten(runs, false), k - 1)
  }

  lemma {:induction false} InvalidTicksGrowRuns(runs: nat, k: nat)
    requires runs >= 1
    ensures RunsAfterInvalidTicksAsWritten(runs, k) == runs + k
    decreases k
  {
    if k > 0 {
      InvalidTicksGrowRuns(runs + 1, k - 1);
    }
  }

  // ---------------------------------------------------------------------
  // The single-slot queue

  /** `ArrayBlockingQueue` restricted to the operations the service uses. */
  class BlockingQueue<T> {
    var items: seq<T>
    const capacity: nat

    ghost predicate Valid()
      reads this
    {
      capacity >= 1 && |items| <= capacity
    }

    constructor (capacity: nat)
      requires capacity >= 1
      ensures Valid() && this.capacity == capacity && items == []
    {
      this.capacity := capacity;
      items := [];
    }

    /** `poll()`: removes and returns the head, or `null` when empty. */
    method Poll() returns (head: Option<T>)
      requires Valid()
      modifies this
      ensures Valid()
      ensures old(items) == [] ==> head == None && items == []
      ensures old(items) != [] ==> head == Some(old(items)[0]) && items == old(items)[1..]
    {
      if items == [] {
        head := None;
      } else {
        head := Some(items[0]);
        items := items[1..];
      }
    }

    /** `offer(x)`: appends `x` unless the queue is full. */
    method Offer(x: T) returns (added: bool)
      requires Valid()
      modifies this
      ensures Valid()
      ensures added == (|old(items)| < capacity)
      ensures items == if added then old(items) + [x] else old(items)
    {
      added := |items| < capacity;
      if added {
        items := items + [x];
      }
    }

    /** `take()` on a non-empty queue (on an empty one it blocks). */
    method Take() returns (head: T)
      requires Valid() && items != []
      modifies this
      ensures Valid()
      ensures head == old(items)[0] && items == old(items)[1..]
    {
      head := items[0];
      items := items[1..];
    }
  }

  // ---------------------------------------------------------------------
  // The service

  /** The two bitmaps of the double buffer. */
  datatype BitmapSlot = BmpA | BmpB

  /** The slot a copy goes to: `useA ? bmpA : bmpB`. */
  function SlotFor(useA: bool): (slot: BitmapSlot)
    ensures slot == BmpA <==> useA
  {
    if useA then BmpA else BmpB
  }

  /** The fallback timer: none, or running with its task's `safetyCounter`. */
  datatype FallbackTimer = NoTimer | Running(safetyCounter: nat)

  /** A tick of the timer task sees a frame when `latestJpeg` is non-null
      and non-empty. */
  predicate SeesFrame(latest: Option<seq<int8>>)
  {
    latest.Some? && |latest.value| > 0
  }

  /** One run of the timer task: a tick that sees a frame increments the
      counter, and at 6 the timer is cancelled; other ticks change nothing. */
  function FallbackStep(timer: FallbackTimer, latest: Option<seq<int8>>): (next: FallbackTimer)
    requires timer.Running?
    ensures !SeesFrame(latest) ==> next == timer
    ensures SeesFrame(latest) ==> (next.NoTimer? <==> timer.safetyCounter + 1 >= 6)
    ensures next.Running? && SeesFrame(latest) ==> next.safetyCounter == timer.safetyCounter + 1
  {
    if SeesFrame(latest) then
      if timer.safetyCounter + 1 >= 6 then NoTimer else Running(timer.safetyCounter + 1)
    else timer
  }

  /** The timer after it has run once for each observed value of
      `latestJpeg`; a cancelled timer runs no more. */
  function RunFallback(timer: FallbackTimer, observed: seq<Option<seq<int8>>>): FallbackTimer
    decreases |observed|
  {
    if observed == [] || timer.NoTimer? then timer
    else RunFallback(FallbackStep(timer, observed[0]), observed[1..])
  }

  /** The number of observed values that count as a frame. */
  function FramesSeen(observed: seq<Option<seq<int8>>>): (n: nat)
    ensures n <= |observed|
    decreases |observed|
  {
    if observed == [] then 0 else (if SeesFrame(observed[0]) then 1 else 0) + FramesSeen(observed[1..])
  }

  /** A fresh timer counts the ticks that see a frame and is cancelled on
      the sixth of them: it is running, with the count so far, exactly while
      fewer than six have been seen. */
  lemma {:induction false} FallbackCancelsOnSixthFrame(counter: nat, observed: seq<Option<seq<int8>>>)
    requires counter < 6
    ensures RunFallback(Running(counter), observed) ==
      if counter + FramesSeen(observed) < 6 then Running(counter + FramesSeen(observed)) else NoTimer
    decreases |observed|
  {
    if observed != [] {
      var next := FallbackStep(Running(counter), observed[0]);
      if next.Running? {
        FallbackCancelsOnSixthFrame(next.safetyCounter, observed[1..]);
      }
    }
  }

  /** The state the capture runnable, the PixelCopy callback, the encoder
      and the timer task share. The bitmaps' pixels are kept per slot;
      `pending` is the slot of the copy in flight. */
  class StreamService {
    var targetW: int
    var targetH: int
    var useA: bool
    var copying: bool
    var pending: Option<BitmapSlot>
    var pixelsA: seq<int8>
    var pixelsB: seq<int8>
    var latestJpeg: Option<seq<int8>>
    var timer: FallbackTimer
    var scheduledRuns: nat
    const encodeQueue: BlockingQueue<BitmapSlot>
    /** The slot of the last copy that was started. */
    ghost var lastSlot: Option<BitmapSlot>

    /** `copying` is set exactly while a copy is in flight; the queue has a
        single slot; the runnable is scheduled once; the next copy goes to the
        other slot than the last one; a running timer has counted fewer than
        six frames. */
    ghost predicate Valid()
      reads this, encodeQueue
    {
      && encodeQueue.Valid() && encodeQueue.capacity == 1
      && (copying <==> pending.Some?)
      && scheduledRuns == 1
      && (lastSlot.Some? ==> SlotFor(useA) != lastSlot.value)
      && (timer.Running? ==> timer.safetyCounter < 6)
    }

    function Pixels(slot: BitmapSlot): seq<int8>
      reads this
    {
      if slot == BmpA then pixelsA else pixelsB
    }

    /** The service once the projection is set up: the target size of a
        `srcW` x `srcH` display, bitmaps with no pixels until the
        first copy (the zero fill of `createBitmap` is not modelled), an empty queue of
        capacity 1, the capture runnable posted once, no JPEG yet, and no
        fallback timer. */
    constructor (srcW: int, srcH: int)
      ensures Valid() && fresh(encodeQueue)
      ensures targetW == TargetWidth(srcW) && targetH == TargetHeight(srcW, srcH)
      ensures useA && !copying && pending == None && encodeQueue.items == []
      ensures latestJpeg == None && timer == NoTimer && scheduledRuns == 1
    {
      targetW := TargetWidth(srcW);
      targetH := TargetHeight(srcW, srcH);
      useA := true;
      copying := false;
      pending := None;
      pixelsA := [];
      pixelsB := [];
      latestJpeg := None;
      timer := NoTimer;
      scheduledRuns := 1;
      encodeQueue := new BlockingQueue<BitmapSlot>(1);
      lastSlot := None;
    }

    /** One run of the capture runnable. With a valid surface and no copy in
        flight it picks `useA ? bmpA : bmpB`, flips `useA` and requests a
        copy into that slot; when the request throws, `copying` is cleared
        again. The run that is executing is no longer pending; after the
        surface check it posts the next run once, on every path. This is the
        intended rescheduling: the code as written also posts in the
        invalid-surface branch (see `RunsAfterTickAsWritten`).
        Returns the slot of the requested copy, if one was requested. */
    method CaptureTick(surfaceValid: bool, requestThrows: bool) returns (requested: Option<BitmapSlot>)
      requires Valid()
      modifies this
      ensures Valid()
      ensures scheduledRuns == old(scheduledRuns)
      ensures !surfaceValid || old(copying) ==>
        requested == None && useA == old(useA) && copying == old(copying) && pending == old(pending)
      ensures surfaceValid && !old(copying) ==>
        && requested == Some(SlotFor(old(useA)))
        && useA == !old(useA)
        && (old(lastSlot).Some? ==> requested.value != old(lastSlot).value)
        && copying == !requestThrows
        && pending == if requestThrows then None else requested
      ensures targetW == old(targetW) && targetH == old(targetH)
      ensures pixelsA == old(pixelsA) && pixelsB == old(pixelsB)
      ensures latestJpeg == old(latestJpeg) && timer == old(timer)
    {
      scheduledRuns := scheduledRuns - 1;
      requested := None;
      if surfaceValid && !copying {
        copying := true;
        var target := SlotFor(useA);
        useA := !useA;
        lastSlot := Some(target);
        requested := Some(target);
        if requestThrows {
          copying := false;
        } else {
          pending := Some(target);
        }
      }
      scheduledRuns := scheduledRuns + 1;
    }

    /** The PixelCopy callback for the copy in flight. On success the slot
        holds the new frame, the stale queued slot is dropped and the new one
        offered, so the queue holds exactly that slot; on failure nothing but
        `copying` changes. Either way `copying` is cleared. */
    method CopyFinished(success: bool, frame: seq<int8>)
      requires Valid() && pending.Some?
      modifies this, encodeQueue
      ensures Valid()
      ensures !copying && pending == None
      ensures success ==> Pixels(old(pending).value) == frame && encodeQueue.items == [old(pending).value]
      ensures success ==> Pixels(if old(pending).value == BmpA then BmpB else BmpA) ==
                          old(Pixels(if pending.value == BmpA then BmpB else BmpA))
      ensures !success ==> pixelsA == old(pixelsA) && pixelsB == old(pixelsB) && encodeQueue.items == old(encodeQueue.items)
      ensures useA == old(useA) && latestJpeg == old(latestJpeg) && timer == old(timer)
      ensures targetW == old(targetW) && targetH == old(targetH) && scheduledRuns == old(scheduledRuns)
    {
      var target := pending.value;
      if success {
        if target == BmpA {
          pixelsA := frame;
        } else {
          pixelsB := frame;
        }
        var _ := encodeQueue.Poll();
        var added := encodeQueue.Offer(target);
      }
      copying := false;
      pending := None;
    }

    /** One iteration of `encodeLoop` once a frame is queued: takes the
        slot, and a successful encode of its pixels becomes the latest JPEG,
        while a failed one leaves the latest JPEG as it was. */
    method EncodeStep(encode: (seq<int8>, int) -> Option<seq<int8>>) returns (slot: BitmapSlot)
      requires Valid() && encodeQueue.items != []
      modifies encodeQueue, this
      ensures Valid()
      ensures slot == old(encodeQueue.items)[0] && encodeQueue.items == []
      ensures var result := encode(old(Pixels(slot)), JpegQuality);
        latestJpeg == if result.Some? then result else old(latestJpeg)
      ensures useA == old(useA) && copying == old(copying) && pending == old(pending)
      ensures pixelsA == old(pixelsA) && pixelsB == old(pixelsB) && timer == old(timer)
      ensures targetW == old(targetW) && targetH == old(targetH) && scheduledRuns == old(scheduledRuns)
    {
      slot := encodeQueue.Take();
      var result := encode(Pixels(slot), JpegQuality);
      if result.Some? {
        latestJpeg := result;
      }
    }

    /** `getLatestJpeg`: the frame the HTTP stream sends next (`None` for
        `null`). */
    method GetLatestJpeg() returns (jpeg: Option<seq<int8>>)
      ensures jpeg == latestJpeg
    {
      jpeg := latestJpeg;
    }

    /** `startTestFramesFallback`: starts a timer with a fresh counter, or
        does nothing when one is already running. */
    method StartTestFramesFallback()
      requires Valid()
      modifies this
      ensures Valid()
      ensures timer == if old(timer).NoTimer? then Running(0) else old(timer)
      ensures useA == old(useA) && copying == old(copying) && pending == old(pending)
      ensures pixelsA == old(pixelsA) && pixelsB == old(pixelsB) && latestJpeg == old(latestJpeg)
      ensures targetW == old(targetW) && targetH == old(targetH) && scheduledRuns == old(scheduledRuns)
    {
      if timer.NoTimer? {
        timer := Running(0);
      }
    }

    /** One run of the fallback timer task. */
    method FallbackTick()
      requires Valid() && timer.Running?
      modifies this
      ensures Valid()
      ensures timer == FallbackStep(old(timer), latestJpeg)
      ensures useA == old(useA) && copying == old(copying) && pending == old(pending)
      ensures pixelsA == old(pixelsA) && pixelsB == old(pixelsB) && latestJpeg == old(latestJpeg)
      ensures targetW == old(targetW) && targetH == old(targetH) && scheduledRuns == old(scheduledRuns)
    {
      var cur := latestJpeg;
      if cur.Some? && |cur.value| > 0 {
        var counter := timer.safetyCounter + 1;
        if counter >= 6 {
          timer := NoTimer;
        } else {
          timer := Running(counter);
        }
      }
    }
  }

  /** A capture, its successful callback and an encode step in sequence:
      the encoder receives exactly the frame the copy delivered, through the
      slot the capture picked, and its JPEG (if it makes one) becomes the
      latest JPEG. */
  method CaptureThenEncode(s: StreamService, frame: seq<int8>, encode: (seq<int8>, int) -> Option<seq<int8>>)
    returns (requested: Option<BitmapSlot>, encoded: BitmapSlot)
    requires s.Valid() && !s.copying
    modifies s, s.encodeQueue
    ensures s.Valid() && s.encodeQueue.items == [] && !s.copying
    ensures requested == Some(encoded) && encoded == SlotFor(old(s.useA))
    ensures s.Pixels(encoded) == frame
    ensures var result := encode(frame, JpegQuality);
      s.latestJpeg == if result.Some? then result else old(s.latestJpeg)
  {
    requested := s.CaptureTick(true, false);
    s.CopyFinished(true, frame);
    encoded := s.EncodeStep(encode);
  }
}
