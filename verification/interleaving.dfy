/** Writers from task and interrupt context interleaved arbitrarily. Each
    writer takes three kinds of atomic step: it reserves its measured line
    (`BeginOutputToBuffer`), it puts the characters of the line through the
    sink one at a time, and, when the line is complete, it releases
    (`EndOutputToBuffer`). Any preemption pattern of the firmware is some
    sequence of these steps, together with the consumer advancing the tail
    over published data.

    For the proofs each writer also records where its slice starts in the
    unbounded stream of all bytes ever allocated (`start`), so that slices
    compare with plain integer arithmetic; `tailPos` is the tail on the same
    scale, and `basePos` the head where the run began: the bytes before it
    were published before any writer here was granted a slice. */
module Interleaving {
  import opened Word32
  import opened Ring
  import opened LogBuffer

  /** A writer that has been granted a slice: the offset it was granted, the
      line it writes there, how many characters it has put so far, and
      whether it has released. */
  datatype Writer = Writer(offset: U32, start: int, line: string, written: nat, done: bool)

  datatype System = System(log: LogState, tailPos: int, basePos: int, writers: seq<Writer>)

  datatype Event =
    | Begin(line: string)     // a writer reserves its measured line
    | Put(index: nat)         // writer `index` puts its next character
    | End(index: nat)         // writer `index`, its line complete, releases
    | Consume(amount: U32)    // the consumer moves the tail over published data

  function HeadPos(sys: System): int {
    sys.tailPos + Sub(sys.log.mem.logHead, sys.log.mem.logTail)
  }

  function AllocPos(sys: System): int {
    sys.tailPos + Sub(sys.log.allocationHead, sys.log.mem.logTail)
  }

  /** Writers that hold a reservation they have not released. */
  function InFlight(ws: seq<Writer>): (n: nat)
    ensures n <= |ws|
  {
    if ws == [] then 0 else (if ws[0].done then 0 else 1) + InFlight(ws[1..])
  }

  /** One atomic step. An event that cannot happen in the firmware (an index
      naming no suitable writer, a consumer reading past the published head,
      an empty or oversized line) leaves the system as it is; so does a line
      offered before init (it goes to the debug port) or refused for room. */
  function Step(sys: System, e: Event): (r: System)
    ensures r.basePos == sys.basePos && sys.tailPos <= r.tailPos
    ensures r.log.initialized == sys.log.initialized && r.log.mem.logMagic == sys.log.mem.logMagic
    ensures r.log.mem.faultMagic == sys.log.mem.faultMagic
    ensures r.log.mem.faultCause == sys.log.mem.faultCause
    ensures r.log.mem.faultThreadState == sys.log.mem.faultThreadState
    ensures |sys.writers| <= |r.writers| <= |sys.writers| + 1
  {
    match e
    case Begin(line) =>
      if !sys.log.initialized || |line| == 0 || |line| >= MODULUS then sys
      else
        var res := Reserve(sys.log, |line|);
        if res.grant.Refused? then sys
        else sys.(log := res.state,
                  writers := sys.writers + [Writer(res.grant.offset, AllocPos(sys), line, 0, false)])
    case Put(i) =>
      if i >= |sys.writers| || sys.writers[i].done || sys.writers[i].written >= |sys.writers[i].line| then sys
      else
        var w := sys.writers[i];
        var (buf, _) := PutChar(sys.log.mem.logBuffer, Add(w.offset, w.written), w.line[w.written]);
        sys.(log := sys.log.(mem := sys.log.mem.(logBuffer := buf)),
             writers := sys.writers[i := w.(written := w.written + 1)])
    case End(i) =>
      if i >= |sys.writers| || sys.writers[i].done || sys.writers[i].written < |sys.writers[i].line|
         || sys.log.activeWriters == 0 then sys
      else
        sys.(log := Release(sys.log), writers := sys.writers[i := sys.writers[i].(done := true)])
    case Consume(n) =>
      if n > Sub(sys.log.mem.logHead, sys.log.mem.logTail) then sys
      else sys.(log := sys.log.(mem := sys.log.mem.(logTail := Add(sys.log.mem.logTail, n))),
                tailPos := sys.tailPos + n)
  }

  /** A run of events: the same frame as one step. */
  function Run(sys: System, events: seq<Event>): (r: System)
    ensures r.basePos == sys.basePos && sys.tailPos <= r.tailPos
    ensures r.log.initialized == sys.log.initialized && r.log.mem.logMagic == sys.log.mem.logMagic
    ensures r.log.mem.faultMagic == sys.log.mem.faultMagic
    ensures r.log.mem.faultCause == sys.log.mem.faultCause
    ensures r.log.mem.faultThreadState == sys.log.mem.faultThreadState
    ensures |sys.writers| <= |r.writers| <= |sys.writers| + |events|
    decreases |events|
  {
    if events == [] then sys else Run(Step(sys, events[0]), events[1..])
  }

  /** Writers once granted keep their slice and only make progress: their
      count of characters put never falls and a release is never undone. */
  predicate Progressed(before: seq<Writer>, after: seq<Writer>) {
    && |before| <= |after|
    && forall i :: 0 <= i < |before| ==>
      && after[i].start == before[i].start && after[i].line == before[i].line
      && before[i].written <= after[i].written
      && (before[i].done ==> after[i].done)
  }

  lemma StepProgresses(sys: System, e: Event)
    ensures Progressed(sys.writers, Step(sys, e).writers)
  {
  }

  lemma {:induction false} RunProgresses(sys: System, events: seq<Event>)
    ensures Progressed(sys.writers, Run(sys, events).writers)
    decreases |events|
  {
    if events != [] {
      var next := Step(sys, events[0]);
      StepProgresses(sys, events[0]);
      RunProgresses(next, events[1..]);
      var r := Run(sys, events);
      assert r == Run(next, events[1..]);
      forall i | 0 <= i < |sys.writers|
        ensures r.writers[i].start == sys.writers[i].start && r.writers[i].line == sys.writers[i].line
        ensures sys.writers[i].written <= r.writers[i].written
        ensures sys.writers[i].done ==> r.writers[i].done
      {
        assert next.writers[i].start == sys.writers[i].start;
      }
    }
  }

  // ---------------------------------------------------------------------
  // The invariant
  // ---------------------------------------------------------------------

  /** Slices were handed out in order and never overlap. */
  predicate SliceOrder(ws: seq<Writer>) {
    forall i, j :: 0 <= i < j < |ws| ==> ws[i].start + |ws[i].line| <= ws[j].start
  }

  /** The slices tile the allocated stream: the first starts at `base`,
      each starts where the one before ends, and the last ends at `end`. */
  predicate Tiled(ws: seq<Writer>, base: int, end: int) {
    && (ws == [] ==> base == end)
    && (ws != [] ==> ws[0].start == base && ws[|ws| - 1].start + |ws[|ws| - 1].line| == end)
    && (forall i :: 0 < i < |ws| ==> Abuts(ws, i))
  }

  /** Slice `i` starts where slice `i - 1` ends. */
  predicate Abuts(ws: seq<Writer>, i: nat)
    requires 0 < i < |ws|
  {
    ws[i - 1].start + |ws[i - 1].line| == ws[i].start
  }

  /** Progress of one writer leaves the tiling alone. */
  lemma TiledUpdate(ws: seq<Writer>, i: nat, w: Writer, base: int, end: int)
    requires Tiled(ws, base, end) && i < |ws|
    requires w.start == ws[i].start && w.line == ws[i].line
    ensures Tiled(ws[i := w], base, end)
  {
    var ws' := ws[i := w];
    forall j | 0 < j < |ws'|
      ensures Abuts(ws', j)
    {
      assert Abuts(ws, j);
    }
  }

  /** A slice granted at the end of the tiling extends it. */
  lemma TiledAppend(ws: seq<Writer>, w: Writer, base: int, end: int)
    requires Tiled(ws, base, end) && w.start == end
    ensures Tiled(ws + [w], base, end + |w.line|)
  {
    var ws' := ws + [w];
    forall j | 0 < j < |ws'|
      ensures Abuts(ws', j)
    {
      if j < |ws| {
        assert Abuts(ws, j);
      }
    }
  }

  /** A writer's bookkeeping: its slice ends within the allocated span, and
      while it is in flight its slice lies wholly past the published head. */
  predicate Shaped(sys: System, w: Writer) {
    && 1 <= |w.line| && w.written <= |w.line| && (w.done ==> w.written == |w.line|)
    && w.offset == w.start % MODULUS
    && w.start + |w.line| <= AllocPos(sys)
    && (!w.done ==> HeadPos(sys) <= w.start)
  }

  /** The characters a writer has put, where not yet consumed, are still in
      their cells. */
  predicate Holds(sys: System, w: Writer)
    requires ValidCapacity(|sys.log.mem.logBuffer|)
  {
    forall k :: 0 <= k < w.written && k < |w.line| && sys.tailPos <= w.start + k ==>
      sys.log.mem.logBuffer[(w.start + k) % |sys.log.mem.logBuffer|] == w.line[k]
  }

  predicate Inv(sys: System) {
    && Consistent(sys.log)
    && sys.log.mem.logTail == sys.tailPos % MODULUS
    && sys.log.activeWriters == InFlight(sys.writers)
    && SliceOrder(sys.writers)
    && Tiled(sys.writers, sys.basePos, AllocPos(sys))
    && sys.basePos <= HeadPos(sys)
    && (forall i :: 0 <= i < |sys.writers| ==> Shaped(sys, sys.writers[i]))
    && (forall i :: 0 <= i < |sys.writers| ==> Holds(sys, sys.writers[i]))
  }

  /** Start of day: the log buffer just initialised, nobody writing. */
  lemma InitEstablishes(s: LogState)
    requires !s.initialized && s.activeWriters == 0
    ensures Init(s, true).Ok?
    ensures var t := Init(s, true).value;
      Inv(System(t, t.mem.logTail, t.mem.logTail + Sub(t.mem.logHead, t.mem.logTail), []))
  {
  }

  // ---------------------------------------------------------------------
  // Counting writers in flight
  // ---------------------------------------------------------------------

  lemma InFlightAppend(ws: seq<Writer>, w: Writer)
    requires !w.done
    ensures InFlight(ws + [w]) == InFlight(ws) + 1
    decreases |ws|
  {
    if ws != [] {
      assert (ws + [w])[1..] == ws[1..] + [w];
      InFlightAppend(ws[1..], w);
    }
  }

  lemma InFlightUpdate(ws: seq<Writer>, i: nat, w: Writer)
    requires i < |ws| && ws[i].done == w.done
    ensures InFlight(ws[i := w]) == InFlight(ws)
    decreases |ws|
  {
    if i > 0 {
      assert ws[i := w][1..] == ws[1..][i - 1 := w];
      InFlightUpdate(ws[1..], i - 1, w);
    }
  }

  lemma InFlightRetire(ws: seq<Writer>, i: nat)
    requires i < |ws| && !ws[i].done
    ensures InFlight(ws[i := ws[i].(done := true)]) == InFlight(ws) - 1
    decreases |ws|
  {
    if i > 0 {
      assert ws[i := ws[i].(done := true)][1..] == ws[1..][i - 1 := ws[i].(done := true)];
      InFlightRetire(ws[1..], i - 1);
    }
  }

  lemma InFlightNone(ws: seq<Writer>, i: nat)
    requires InFlight(ws) == 0 && i < |ws|
    ensures ws[i].done
    decreases |ws|
  {
    if i > 0 {
      InFlightNone(ws[1..], i - 1);
    }
  }

  /** Slices in flight are disjoint, non-empty and lie in `[lo, hi)`, so
      there are at most `hi - lo` of them. */
  lemma {:induction false} InFlightBound(ws: seq<Writer>, lo: int, hi: int)
    requires SliceOrder(ws)
    requires forall i :: 0 <= i < |ws| && !ws[i].done ==>
      lo <= ws[i].start && ws[i].start + |ws[i].line| <= hi && 1 <= |ws[i].line|
    ensures InFlight(ws) <= if hi >= lo then hi - lo else 0
    decreases |ws|
  {
    if ws != [] {
      var rest := ws[1..];
      assert SliceOrder(rest) by {
        forall i, j | 0 <= i < j < |rest|
          ensures rest[i].start + |rest[i].line| <= rest[j].start
        {
          assert rest[i] == ws[i + 1] && rest[j] == ws[j + 1];
        }
      }
      if ws[0].done {
        InFlightBound(rest, lo, hi);
      } else {
        var lo' := ws[0].start + |ws[0].line|;
        forall i | 0 <= i < |rest| && !rest[i].done
          ensures lo' <= rest[i].start
        {
          assert rest[i] == ws[i + 1];
        }
        InFlightBound(rest, lo', hi);
      }
    }
  }

  /** A valid capacity is at most half of 2^32. */
  lemma CapacityAtMostHalf(c: int)
    requires ValidCapacity(c)
    ensures 2 * c <= MODULUS
  {
    if 2 * c > MODULUS {
      ModUnique(MODULUS, 1, MODULUS - c, c);
    }
  }

  /** The writer's sink cursor after `n` characters addresses the cell of
      stream position `start + n`. */
  lemma CursorCell(w: Writer, n: nat, c: int)
    requires ValidCapacity(c) && w.offset == w.start % MODULUS
    ensures Add(w.offset, n) % c == (w.start + n) % c
  {
    CellOfAdd(w.offset, n, c);
    ModulusIsLaps(c);
    var q := w.start / MODULUS;
    assert w.start + n == (w.offset + n) + (q * (MODULUS / c)) * c;
    ModAddMultiple(w.offset + n, q * (MODULUS / c), c);
  }

  // ---------------------------------------------------------------------
  // Each step keeps the invariant
  // ---------------------------------------------------------------------

  /** Writers in flight never come near the counter's limit: each holds a
      byte of the unpublished span, which is shorter than half of 2^32. */
  lemma InFlightSmall(sys: System)
    requires Inv(sys)
    ensures 2 * sys.log.activeWriters <= MODULUS
  {
    var ws := sys.writers;
    forall i | 0 <= i < |ws| && !ws[i].done
      ensures HeadPos(sys) <= ws[i].start && ws[i].start + |ws[i].line| <= AllocPos(sys) && 1 <= |ws[i].line|
    {
      assert Shaped(sys, ws[i]);
    }
    InFlightBound(ws, HeadPos(sys), AllocPos(sys));
    CapacityAtMostHalf(Capacity(sys.log.mem));
  }

  /** A granted reservation: the writer appended for it, and the state after. */
  lemma BeginGranted(sys: System, line: string) returns (w: Writer)
    requires Inv(sys) && sys.log.initialized && 0 < |line| < MODULUS
    requires Reserve(sys.log, |line|).grant.Granted?
    ensures w == Writer(sys.log.allocationHead, AllocPos(sys), line, 0, false)
    ensures Step(sys, Begin(line)) == System(Reserve(sys.log, |line|).state, sys.tailPos, sys.basePos, sys.writers + [w])
    ensures Reserve(sys.log, |line|).state.activeWriters == sys.log.activeWriters + 1
    ensures AllocPos(Step(sys, Begin(line))) == AllocPos(sys) + |line|
    ensures HeadPos(Step(sys, Begin(line))) == HeadPos(sys)
    ensures w.offset == w.start % MODULUS
  {
    InFlightSmall(sys);
    var res := Reserve(sys.log, |line|);
    assert Sub(res.state.activeWriters, sys.log.activeWriters) == 1;
    w := Writer(sys.log.allocationHead, AllocPos(sys), line, 0, false);
    StreamOffset(sys.tailPos, sys.log.mem.logTail, sys.log.allocationHead);
  }

  /** A counter `a` taken as a distance past the tail, on the unbounded
      stream scale, lands on a position whose low 32 bits are `a`. */
  lemma StreamOffset(tailPos: int, tail: U32, a: U32)
    requires tail == tailPos % MODULUS
    ensures (tailPos + Sub(a, tail)) % MODULUS == a
  {
    var q := tailPos / MODULUS;
    assert tailPos == q * MODULUS + tail;
    if a >= tail {
      assert tailPos + Sub(a, tail) == a + q * MODULUS;
      ModAddMultiple(a, q, MODULUS);
    } else {
      assert tailPos + Sub(a, tail) == a + (q + 1) * MODULUS;
      ModAddMultiple(a, q + 1, MODULUS);
    }
    ModUnique(a, 0, a, MODULUS);
  }

  lemma BeginKeepsInv(sys: System, line: string)
    requires Inv(sys)
    ensures Inv(Step(sys, Begin(line)))
  {
    if sys.log.initialized && 0 < |line| < MODULUS && Reserve(sys.log, |line|).grant.Granted? {
      var w := BeginGranted(sys, line);
      var next := Step(sys, Begin(line));
      var ws := sys.writers;
      InFlightAppend(ws, w);
      TiledAppend(ws, w, sys.basePos, AllocPos(sys));
      assert Consistent(next.log);
      forall i | 0 <= i < |next.writers|
        ensures Shaped(next, next.writers[i]) && Holds(next, next.writers[i])
      {
        if i < |ws| {
          assert next.writers[i] == ws[i];
          assert Shaped(sys, ws[i]) && Holds(sys, ws[i]);
        }
      }
      assert SliceOrder(next.writers) by {
        forall i, j | 0 <= i < j < |next.writers|
          ensures next.writers[i].start + |next.writers[i].line| <= next.writers[j].start
        {
          assert Shaped(sys, ws[i]);
        }
      }
    }
  }

  /** Distinct stream positions within one ring's length of each other
      occupy distinct cells. */
  lemma WindowCellsDistinct(base: int, p: int, q: int, c: int)
    requires c > 0 && base <= p < base + c && base <= q < base + c && p != q
    ensures p % c != q % c
  {
    if q < p {
      DistinctCells(base, q - base, p - base, c);
    } else {
      DistinctCells(base, p - base, q - base, c);
    }
    assert base + (q - base) == q && base + (p - base) == p;
  }

  /** The cell writer `i` puts into next belongs to no other character put
      so far and not yet consumed. */
  lemma PutCellFree(sys: System, i: nat, j: nat, k: nat)
    requires i < |sys.writers| && j < |sys.writers|
    requires SliceOrder(sys.writers) && Shaped(sys, sys.writers[i]) && Shaped(sys, sys.writers[j])
    requires AllocPos(sys) <= sys.tailPos + Capacity(sys.log.mem)
    requires !sys.writers[i].done && sys.writers[i].written < |sys.writers[i].line|
    requires k < sys.writers[j].written && k < |sys.writers[j].line|
    requires sys.tailPos <= sys.writers[j].start + k
    ensures var c := Capacity(sys.log.mem);
      (sys.writers[i].start + sys.writers[i].written) % c != (sys.writers[j].start + k) % c
  {
    var ws := sys.writers;
    var c := Capacity(sys.log.mem);
    var w, v := ws[i], ws[j];
    var p, q := w.start + w.written, v.start + k;
    if j < i {
      assert v.start + |v.line| <= w.start;
    } else if j > i {
      assert w.start + |w.line| <= v.start;
    }
    assert sys.tailPos <= HeadPos(sys) <= p < AllocPos(sys) <= sys.tailPos + c;
    WindowCellsDistinct(sys.tailPos, p, q, c);
  }

  /** What a put does: one cell, the one of the writer's next stream
      position, takes the writer's next character. */
  lemma PutEffect(sys: System, i: nat) returns (p: int)
    requires Inv(sys) && i < |sys.writers|
    requires !sys.writers[i].done && sys.writers[i].written < |sys.writers[i].line|
    ensures var w := sys.writers[i];
      && p == w.start + w.written
      && Step(sys, Put(i)) == sys.(log := sys.log.(mem := sys.log.mem.(logBuffer :=
                                   sys.log.mem.logBuffer[p % Capacity(sys.log.mem) := w.line[w.written]])),
                                 writers := sys.writers[i := w.(written := w.written + 1)])
  {
    var w := sys.writers[i];
    p := w.start + w.written;
    assert Shaped(sys, w);
    CursorCell(w, w.written, Capacity(sys.log.mem));
  }

  /** The cell a put writes holds none of writer `j`'s unconsumed
      characters, so they survive it. */
  lemma PutKeepsHolds(sys: System, i: nat, j: nat)
    requires i < |sys.writers| && j < |sys.writers|
    requires SliceOrder(sys.writers) && Shaped(sys, sys.writers[i]) && Shaped(sys, sys.writers[j])
    requires AllocPos(sys) <= sys.tailPos + Capacity(sys.log.mem)
    requires !sys.writers[i].done && sys.writers[i].written < |sys.writers[i].line|
    requires Holds(sys, sys.writers[j])
    ensures Holds(Step(sys, Put(i)), Step(sys, Put(i)).writers[j])
  {
    var c := Capacity(sys.log.mem);
    var w := sys.writers[i];
    var p := w.start + w.written;
    CursorCell(w, w.written, c);
    var next := Step(sys, Put(i));
    var buf := next.log.mem.logBuffer;
    assert buf == sys.log.mem.logBuffer[p % c := w.line[w.written]];
    var u := sys.writers[j];
    var v := next.writers[j];
    forall k | 0 <= k < v.written && k < |v.line| && next.tailPos <= v.start + k
      ensures buf[(v.start + k) % c] == v.line[k]
    {
      if !(j == i && k == w.written) {
        assert k < u.written;
        PutCellFree(sys, i, j, k);
      }
    }
  }

  lemma PutKeepsWriter(sys: System, i: nat, j: nat)
    requires Inv(sys) && i < |sys.writers| && j < |sys.writers|
    requires !sys.writers[i].done && sys.writers[i].written < |sys.writers[i].line|
    ensures Holds(Step(sys, Put(i)), Step(sys, Put(i)).writers[j])
  {
    assert Shaped(sys, sys.writers[i]) && Shaped(sys, sys.writers[j]) && Holds(sys, sys.writers[j]);
    PutKeepsHolds(sys, i, j);
  }

  /** A put moves no cursor and no slice: only the buffer and the putting
      writer's count change. */
  lemma PutFrame(sys: System, i: nat)
    requires i < |sys.writers| && !sys.writers[i].done && sys.writers[i].written < |sys.writers[i].line|
    ensures var next := Step(sys, Put(i));
      && next.log == sys.log.(mem := sys.log.mem.(logBuffer := next.log.mem.logBuffer))
      && next.tailPos == sys.tailPos && next.basePos == sys.basePos
      && next.writers == sys.writers[i := sys.writers[i].(written := sys.writers[i].written + 1)]
  {
  }

  lemma PutKeepsShape(sys: System, i: nat, j: nat)
    requires Inv(sys) && i < |sys.writers| && j < |sys.writers|
    requires !sys.writers[i].done && sys.writers[i].written < |sys.writers[i].line|
    ensures Shaped(Step(sys, Put(i)), Step(sys, Put(i)).writers[j])
  {
    PutFrame(sys, i);
    var next := Step(sys, Put(i));
    assert HeadPos(next) == HeadPos(sys) && AllocPos(next) == AllocPos(sys);
    assert Shaped(sys, sys.writers[j]);
  }

  /** Updating one writer without moving its slice keeps the slices'
      order and tiling. */
  lemma SlicesUpdate(ws: seq<Writer>, i: nat, w: Writer, base: int, end: int)
    requires SliceOrder(ws) && Tiled(ws, base, end) && i < |ws|
    requires w.start == ws[i].start && w.line == ws[i].line
    ensures SliceOrder(ws[i := w]) && Tiled(ws[i := w], base, end)
  {
    TiledUpdate(ws, i, w, base, end);
    var ws' := ws[i := w];
    forall j, k | 0 <= j < k < |ws'|
      ensures ws'[j].start + |ws'[j].line| <= ws'[k].start
    {
      assert ws[j].start + |ws[j].line| <= ws[k].start;
    }
  }

  lemma PutKeepsInv(sys: System, i: nat)
    requires Inv(sys)
    ensures Inv(Step(sys, Put(i)))
  {
    var ws := sys.writers;
    if i < |ws| && !ws[i].done && ws[i].written < |ws[i].line| {
      PutFrame(sys, i);
      var next := Step(sys, Put(i));
      var w := ws[i];
      assert HeadPos(next) == HeadPos(sys) && AllocPos(next) == AllocPos(sys);
      InFlightUpdate(ws, i, w.(written := w.written + 1));
      SlicesUpdate(ws, i, w.(written := w.written + 1), sys.basePos, AllocPos(sys));
      forall j | 0 <= j < |next.writers|
        ensures Shaped(next, next.writers[j]) && Holds(next, next.writers[j])
      {
        PutKeepsShape(sys, i, j);
        PutKeepsWriter(sys, i, j);
      }
    }
  }

  /** What a release does to the cursors: the allocation head stays, and
      the head stays unless no writer is left in flight, when it catches up
      with the allocation head. */
  lemma EndEffect(sys: System, i: nat)
    requires Inv(sys) && i < |sys.writers| && !sys.writers[i].done
    requires sys.writers[i].written >= |sys.writers[i].line| && sys.log.activeWriters != 0
    ensures var next := Step(sys, End(i));
      && next == sys.(log := Release(sys.log), writers := sys.writers[i := sys.writers[i].(done := true)])
      && Consistent(next.log)
      && next.log.activeWriters == InFlight(next.writers)
      && AllocPos(next) == AllocPos(sys)
      && HeadPos(next) == (if next.log.activeWriters == 0 then AllocPos(sys) else HeadPos(sys))
  {
    ReleaseKeepsConsistent(sys.log);
    InFlightRetire(sys.writers, i);
  }

  lemma EndKeepsWriter(sys: System, i: nat, j: nat)
    requires Inv(sys) && i < |sys.writers| && !sys.writers[i].done
    requires sys.writers[i].written >= |sys.writers[i].line| && sys.log.activeWriters != 0
    requires j < |sys.writers|
    ensures Shaped(Step(sys, End(i)), Step(sys, End(i)).writers[j])
    ensures Holds(Step(sys, End(i)), Step(sys, End(i)).writers[j])
  {
    EndEffect(sys, i);
    var next := Step(sys, End(i));
    assert Shaped(sys, sys.writers[j]) && Holds(sys, sys.writers[j]);
    if next.log.activeWriters == 0 {
      InFlightNone(next.writers, j);
    }
  }

  lemma EndKeepsInv(sys: System, i: nat)
    requires Inv(sys)
    ensures Inv(Step(sys, End(i)))
  {
    var ws := sys.writers;
    if i < |ws| && !ws[i].done && ws[i].written >= |ws[i].line| && sys.log.activeWriters != 0 {
      var next := Step(sys, End(i));
      EndEffect(sys, i);
      SlicesUpdate(ws, i, ws[i].(done := true), sys.basePos, AllocPos(sys));
      forall j | 0 <= j < |next.writers|
        ensures Shaped(next, next.writers[j]) && Holds(next, next.writers[j])
      {
        EndKeepsWriter(sys, i, j);
      }
    }
  }

  lemma ConsumeKeepsInv(sys: System, n: U32)
    requires Inv(sys)
    ensures Inv(Step(sys, Consume(n)))
  {
    if n <= Sub(sys.log.mem.logHead, sys.log.mem.logTail) {
      var next := Step(sys, Consume(n));
      var t := sys.log.mem.logTail;
      assert next.log.mem.logTail == Add(t, n);
      assert Sub(sys.log.mem.logHead, Add(t, n)) == Sub(sys.log.mem.logHead, t) - n;
      assert Sub(sys.log.allocationHead, Add(t, n)) == Sub(sys.log.allocationHead, t) - n;
      assert Add(t, n) == (sys.tailPos + n) % MODULUS by {
        var q := sys.tailPos / MODULUS;
        assert sys.tailPos + n == (t + n) + q * MODULUS;
        ModAddMultiple(t + n, q, MODULUS);
      }
      assert HeadPos(next) == HeadPos(sys) && AllocPos(next) == AllocPos(sys);
      forall j | 0 <= j < |next.writers|
        ensures Shaped(next, next.writers[j]) && Holds(next, next.writers[j])
      {
        assert Shaped(sys, sys.writers[j]) && Holds(sys, sys.writers[j]);
      }
    }
  }

  /** Every atomic step keeps the invariant, and the published head either
      stays where it is or jumps to the allocation head. */
  lemma StepKeepsInv(sys: System, e: Event)
    requires Inv(sys)
    ensures Inv(Step(sys, e))
    ensures Step(sys, e).log.mem.logHead == sys.log.mem.logHead
         || Step(sys, e).log.mem.logHead == sys.log.allocationHead
  {
    match e
    case Begin(line) => BeginKeepsInv(sys, line);
    case Put(i) => PutKeepsInv(sys, i);
    case End(i) => EndKeepsInv(sys, i);
    case Consume(n) => ConsumeKeepsInv(sys, n);
  }

  /** Any interleaving of writers and consumer keeps the invariant; in
      particular the allocated span never exceeds the ring, no two slices
      overlap, and with no writer in flight everything allocated is
      published. */
  lemma {:induction false} RunKeepsInv(sys: System, events: seq<Event>)
    requires Inv(sys)
    ensures Inv(Run(sys, events))
    ensures Sub(Run(sys, events).log.allocationHead, Run(sys, events).log.mem.logTail) <= Capacity(Run(sys, events).log.mem)
    ensures Run(sys, events).log.activeWriters == 0 ==>
      Run(sys, events).log.mem.logHead == Run(sys, events).log.allocationHead
    decreases |events|
  {
    if events != [] {
      StepKeepsInv(sys, events[0]);
      RunKeepsInv(Step(sys, events[0]), events[1..]);
    }
  }

  /** A prefix of `n + 1` events runs as the first event followed by a
      prefix of `n` of the rest. */
  lemma RunPrefix(sys: System, events: seq<Event>, n: nat)
    requires n < |events|
    ensures Run(sys, events[..n + 1]) == Run(Step(sys, events[0]), events[1..][..n])
  {
    assert events[..n + 1][1..] == events[1..][..n];
  }

  /** The published head only ever takes values the allocation head has
      had: after any interleaving it is either where it started or equal to
      the allocation head at some step of the run. */
  lemma {:induction false} HeadIsSomeAllocationHead(sys: System, events: seq<Event>)
    requires Inv(sys)
    ensures var h := Run(sys, events).log.mem.logHead;
      h == sys.log.mem.logHead || exists n :: 0 <= n < |events| && h == Run(sys, events[..n]).log.allocationHead
    decreases |events|
  {
    if events != [] {
      var next := Step(sys, events[0]);
      StepKeepsInv(sys, events[0]);
      HeadIsSomeAllocationHead(next, events[1..]);
      var h := Run(sys, events).log.mem.logHead;
      assert Run(sys, events) == Run(next, events[1..]);
      assert Run(sys, events[..0]) == sys;
      if h != next.log.mem.logHead {
        var n :| 0 <= n < |events[1..]| && h == Run(next, events[1..][..n]).log.allocationHead;
        RunPrefix(sys, events, n);
      } else if h != sys.log.mem.logHead {
        assert h == Run(sys, events[..0]).log.allocationHead;
      }
    }
  }

  /** No reader sees an unwritten byte: every published, unconsumed byte
      allocated during the run lies in the slice of a writer that has
      finished, and holds the character of its line. */
  lemma PublishedIsWritten(sys: System, p: int) returns (i: nat)
    requires Inv(sys)
    requires sys.basePos <= p && sys.tailPos <= p < HeadPos(sys)
    ensures i < |sys.writers|
    ensures sys.writers[i].start <= p < sys.writers[i].start + |sys.writers[i].line|
    ensures sys.writers[i].done
    ensures sys.log.mem.logBuffer[p % Capacity(sys.log.mem)] == sys.writers[i].line[p - sys.writers[i].start]
  {
    var ws := sys.writers;
    assert HeadPos(sys) <= AllocPos(sys);
    i := 0;
    while ws[i].start + |ws[i].line| <= p
      invariant 0 <= i < |ws| && ws[i].start <= p
      decreases |ws| - i
    {
      assert i + 1 < |ws|;
      assert Abuts(ws, i + 1);
      i := i + 1;
    }
    var w := ws[i];
    assert Shaped(sys, w) && Holds(sys, w);
    var k := p - w.start;
    assert w.start + k == p;
  }
}
