/** The log buffer: a ring of C characters in the external memory region that
    survives warm resets, the in-RAM allocator state that hands out disjoint
    slices of it, and the two line writers built on top.

    Every atomic step of the firmware (a reservation or a release, each done
    inside a critical section) is one pure function from state to state; the
    character writes between them touch only the writer's own slice. */
module LogBuffer {
  import opened Word32
  import opened Ring

  /** 'LOGM': the external memory holds a log ring. */
  const LOG_MAGIC: U32 := 0x4C4F474D
  /** 'FOUL': the external memory holds an unreported fault record. */
  const FAULT_MAGIC: U32 := 0x464F554C

  /** The fields of the external memory layout this module reads or writes. */
  datatype Layout = Layout(
    logMagic: U32,
    logHead: U32,
    logTail: U32,
    logBuffer: seq<char>,
    faultMagic: U32,
    faultCause: seq<char>,
    faultThreadState: seq<char>)

  /** The region as laid out by the build: a ring of valid capacity and two
      non-empty fault strings. */
  type Region = m: Layout | ValidCapacity(|m.logBuffer|) && |m.faultCause| > 0 && |m.faultThreadState| > 0
    witness Layout(0, 0, 0, ['\0'], 0, ['\0'], ['\0'])

  function Capacity(m: Region): (c: int)
    ensures ValidCapacity(c)
  {
    |m.logBuffer|
  }

  /** The module's private state: the initialised flag, the allocation head
      and the count of writers holding a reservation, next to the region. */
  datatype LogState = LogState(
    initialized: bool,
    allocationHead: U32,
    activeWriters: U32,
    mem: Region)

  /** A fatal `ASSERT` of the firmware, or the state an operation ends in. */
  datatype Outcome<T> = Ok(value: T) | AssertionFailure

  /** The result of a reservation: the offset of the claimed slice, or none. */
  datatype Grant = Granted(offset: U32) | Refused

  datatype Reservation = Reservation(state: LogState, grant: Grant)

  /** A writer's effect: the new state and the text it sent straight to the
      debug port instead (only before initialisation). */
  datatype Written = Written(state: LogState, direct: string)

  // ---------------------------------------------------------------------
  // Validation and lifecycle
  // ---------------------------------------------------------------------

  /** What init accepts as a persisted ring: the magic is right and the
      published span `head - tail` fits in the ring. */
  predicate Intact(m: Region) {
    m.logMagic == LOG_MAGIC && Sub(m.logHead, m.logTail) <= Capacity(m)
  }

  /** The cursor ordering every step keeps: tail, then the published head,
      then the allocation head, all within one ring's length; and with no
      writer in flight everything allocated is published. */
  predicate Consistent(s: LogState) {
    && Sub(s.mem.logHead, s.mem.logTail) <= Sub(s.allocationHead, s.mem.logTail) <= Capacity(s.mem)
    && (s.activeWriters == 0 ==> s.mem.logHead == s.allocationHead)
  }

  /** `str` with its last character forced to NUL. */
  function Terminate(str: seq<char>): (r: seq<char>)
    requires |str| > 0
    ensures |r| == |str| && r[|r| - 1] == '\0'
    ensures r[..|r| - 1] == str[..|str| - 1]
  {
    str[|str| - 1 := '\0']
  }

  /** `RLM3_LogBuffer_Init`, given whether the external memory module is
      itself initialised. */
  function Init(s: LogState, memoryIsInit: bool): (r: Outcome<LogState>)
    ensures r.AssertionFailure? <==> !memoryIsInit || s.initialized
    ensures r.Ok? ==> var t := r.value;
      && t.initialized
      && Intact(t.mem)
      && t.allocationHead == t.mem.logHead
      && Consistent(t)
      && t.activeWriters == s.activeWriters
      && t.mem.logBuffer == s.mem.logBuffer
      && (Intact(s.mem) ==> t.mem.logHead == s.mem.logHead && t.mem.logTail == s.mem.logTail)
      && (!Intact(s.mem) ==> t.mem.logHead == 0 && t.mem.logTail == 0)
    ensures r.Ok? && s.mem.faultMagic == FAULT_MAGIC ==> var t := r.value.mem;
      && t.faultMagic == 0
      && t.faultCause[|t.faultCause| - 1] == '\0'
      && t.faultThreadState[|t.faultThreadState| - 1] == '\0'
      && t.faultCause[..|t.faultCause| - 1] == s.mem.faultCause[..|s.mem.faultCause| - 1]
      && t.faultThreadState[..|t.faultThreadState| - 1] == s.mem.faultThreadState[..|s.mem.faultThreadState| - 1]
    ensures r.Ok? && s.mem.faultMagic != FAULT_MAGIC ==> var t := r.value.mem;
      t.faultMagic == s.mem.faultMagic && t.faultCause == s.mem.faultCause && t.faultThreadState == s.mem.faultThreadState
  {
    if !memoryIsInit || s.initialized then AssertionFailure
    else
      var m := s.mem;
      var checked: Region :=
        if m.logMagic != LOG_MAGIC || Sub(m.logHead, m.logTail) > |m.logBuffer| then m.(logHead := 0, logTail := 0)
        else m;
      var marked: Region := checked.(logMagic := LOG_MAGIC);
      var cleared: Region :=
        if marked.faultMagic == FAULT_MAGIC then
          marked.(faultMagic := 0,
                  faultCause := Terminate(marked.faultCause),
                  faultThreadState := Terminate(marked.faultThreadState))
        else marked;
      Ok(LogState(true, cleared.logHead, s.activeWriters, cleared))
  }

  /** `RLM3_LogBuffer_Deinit`: only the flag goes; the region persists. */
  function Deinit(s: LogState): (r: Outcome<LogState>)
    ensures r.AssertionFailure? <==> !s.initialized
    ensures r.Ok? ==>
      && !r.value.initialized && r.value.mem == s.mem
      && r.value.allocationHead == s.allocationHead && r.value.activeWriters == s.activeWriters
  {
    if !s.initialized then AssertionFailure else Ok(s.(initialized := false))
  }

  /** `RLM3_LogBuffer_IsInit`. */
  /** `RLM3_LogBuffer_IsInit`: true exactly when a deinit is allowed, and
      then a further init is fatal. */
  function IsInit(s: LogState): (r: bool)
    ensures r <==> Deinit(s).Ok?
    ensures r ==> Init(s, true).AssertionFailure?
  {
    s.initialized
  }

  /** The lifecycle: init ends initialised, deinit ends uninitialised, a
      second init without deinit is fatal, and a warm restart (deinit then
      init again) finds the validated ring exactly as it left it. */
  lemma Lifecycle(s: LogState)
    requires !IsInit(s)
    ensures Init(s, true).Ok? && IsInit(Init(s, true).value)
    ensures Init(Init(s, true).value, true).AssertionFailure?
    ensures Deinit(Init(s, true).value).Ok? && !IsInit(Deinit(Init(s, true).value).value)
    ensures Deinit(s).AssertionFailure?
    ensures var t := Init(s, true).value;
      var again := Init(Deinit(t).value, true);
      again.Ok? && again.value.mem.logHead == t.mem.logHead && again.value.mem.logTail == t.mem.logTail
      && again.value.mem.logBuffer == t.mem.logBuffer && again.value.allocationHead == t.allocationHead
  {
    var t := Init(s, true).value;
    assert Intact(t.mem);
  }

  // ---------------------------------------------------------------------
  // Allocator
  // ---------------------------------------------------------------------

  /** `BeginOutputToBuffer(size)`: claim `size` bytes at the allocation head
      if the ring has room, counting what is allocated but not yet read. The
      room is computed as the source does, in `size_t` arithmetic. */
  function Reserve(s: LogState, size: U32): (r: Reservation)
    ensures Sub(s.allocationHead, s.mem.logTail) <= Capacity(s.mem) ==>
      (r.grant.Granted? <==> Sub(s.allocationHead, s.mem.logTail) + size <= Capacity(s.mem))
    ensures r.grant.Refused? ==> r.state == s
    ensures r.grant.Granted? ==>
      && r.grant.offset == s.allocationHead
      && Sub(r.state.allocationHead, r.grant.offset) == size
      && Sub(r.state.activeWriters, s.activeWriters) == 1
      && r.state.mem == s.mem
      && r.state.initialized == s.initialized
    ensures r.grant.Granted? && Sub(s.allocationHead, s.mem.logTail) <= Capacity(s.mem) ==>
      Sub(r.state.allocationHead, s.mem.logTail) == Sub(s.allocationHead, s.mem.logTail) + size
  {
    var available := Sub(|s.mem.logBuffer|, Sub(s.allocationHead, s.mem.logTail));
    if size <= available then
      Reservation(s.(allocationHead := Add(s.allocationHead, size),
                     activeWriters := Add(s.activeWriters, 1)),
                  Granted(s.allocationHead))
    else Reservation(s, Refused)
  }

  /** `EndOutputToBuffer`: the last writer out publishes everything
      allocated so far. */
  function Release(s: LogState): (r: LogState)
    requires s.activeWriters != 0
    ensures r.activeWriters == s.activeWriters - 1
    ensures r.activeWriters == 0 ==> r.mem.logHead == s.allocationHead
    ensures r.activeWriters != 0 ==> r.mem.logHead == s.mem.logHead
    ensures r.allocationHead == s.allocationHead && r.initialized == s.initialized
    ensures r.mem == s.mem.(logHead := r.mem.logHead)
  {
    var count := s.activeWriters - 1;
    if count == 0 then s.(activeWriters := count, mem := s.mem.(logHead := s.allocationHead))
    else s.(activeWriters := count)
  }

  /** A granted reservation keeps the cursor ordering, with one more writer
      in flight. */
  lemma ReserveKeepsConsistent(s: LogState, size: U32)
    requires Consistent(s) && s.activeWriters < MODULUS - 1
    ensures Consistent(Reserve(s, size).state)
    ensures Reserve(s, size).grant.Granted? ==> Reserve(s, size).state.activeWriters == s.activeWriters + 1
  {
  }

  /** A release keeps the cursor ordering; once the last writer is out,
      nothing allocated is left unpublished. */
  lemma ReleaseKeepsConsistent(s: LogState)
    requires Consistent(s) && s.activeWriters != 0
    ensures Consistent(Release(s))
  {
  }

  /** Reservations made one after another, with the tail where it was, get
      adjacent slices in call order: the second starts where the first ends,
      and the two fit in the ring together without overlapping. */
  lemma ReserveAdjacent(s: LogState, size1: U32, size2: U32)
    requires Sub(s.allocationHead, s.mem.logTail) <= Capacity(s.mem)
    requires Reserve(s, size1).grant.Granted?
    requires Reserve(Reserve(s, size1).state, size2).grant.Granted?
    ensures var a := Reserve(s, size1).grant.offset;
      var b := Reserve(Reserve(s, size1).state, size2).grant.offset;
      && a == s.allocationHead
      && b == Add(a, size1)
      && Sub(b, s.mem.logTail) == Sub(a, s.mem.logTail) + size1
      && Sub(a, s.mem.logTail) + size1 + size2 <= Capacity(s.mem)
  {
    var first := Reserve(s, size1);
    assert Sub(first.state.allocationHead, s.mem.logTail) == Sub(s.allocationHead, s.mem.logTail) + size1;
    assert first.state.mem == s.mem;
  }

  /** Two slices lying one after another in a window of at most one ring's
      length occupy disjoint sets of cells. */
  lemma SlicesDisjoint(c: int, base: int, size1: nat, size2: nat, i: nat, k: nat)
    requires ValidCapacity(c) && size1 + size2 <= c
    requires i < size1 && k < size2
    ensures (base + i) % c != (base + size1 + k) % c
  {
    DistinctCells(base, i, size1 + k, c);
  }

  // ---------------------------------------------------------------------
  // Writers
  // ---------------------------------------------------------------------

  /** One complete write of an already rendered line with nothing
      interleaved: reserve its length, stream it through the sink from the
      granted offset, release. A line that fits lands in the cells just past
      the allocation head and nowhere else, the allocation head moves past
      it, and it is published unless another writer is still in flight; a
      line that does not fit is dropped whole and changes nothing. */
  function WriteLine(s: LogState, line: string): (r: LogState)
    requires |line| < MODULUS && s.activeWriters < MODULUS - 1
    ensures Consistent(s) ==> Consistent(r)
    ensures Consistent(s) && Sub(s.allocationHead, s.mem.logTail) + |line| > Capacity(s.mem) ==> r == s
    ensures Consistent(s) && Sub(s.allocationHead, s.mem.logTail) + |line| <= Capacity(s.mem) ==>
      && r.mem.logBuffer == RingWrite(s.mem.logBuffer, s.allocationHead, line)
      && RingRead(r.mem.logBuffer, s.allocationHead, |line|) == line
      && r.allocationHead == Add(s.allocationHead, |line|)
      && r.activeWriters == s.activeWriters
      && r.mem.logHead == (if s.activeWriters == 0 then r.allocationHead else s.mem.logHead)
      && r.mem == s.mem.(logBuffer := r.mem.logBuffer, logHead := r.mem.logHead)
      && r.initialized == s.initialized
  {
    var res := Reserve(s, |line|);
    match res.grant
    case Refused => s
    case Granted(offset) =>
      var filled := res.state.(mem := res.state.mem.(logBuffer := Fill(res.state.mem.logBuffer, offset, line).0));
      var r := Release(filled);
      assert Consistent(s) ==>
        && r.mem.logBuffer == RingWrite(s.mem.logBuffer, s.allocationHead, line)
        && RingRead(r.mem.logBuffer, s.allocationHead, |line|) == line
        && Consistent(r)
      by {
        if Consistent(s) {
          FillIsRingWrite(s.mem.logBuffer, s.allocationHead, line);
          ReadAfterWrite(s.mem.logBuffer, s.allocationHead, line);
          assert filled.activeWriters == s.activeWriters + 1;
          assert Consistent(filled);
        }
      }
      r
  }

  /** A write never disturbs what was allocated before it: the cells from
      the tail up to the old allocation head, published or still being
      written by an interrupted writer, read the same afterwards. */
  lemma WriteLineKeepsAllocated(s: LogState, line: string)
    requires |line| < MODULUS && s.activeWriters < MODULUS - 1
    requires Consistent(s) && Sub(s.allocationHead, s.mem.logTail) + |line| <= Capacity(s.mem)
    ensures var span := Sub(s.allocationHead, s.mem.logTail);
      RingRead(WriteLine(s, line).mem.logBuffer, s.mem.logTail, span)
      == RingRead(s.mem.logBuffer, s.mem.logTail, span)
  {
    ReadBehindWrite(s.mem.logBuffer, s.mem.logTail, s.allocationHead, line);
  }

  /** The `%u` conversion of the tick count: decimal digits, most
      significant first, without leading zeros. */
  function Decimal(n: nat): (r: string)
    ensures |r| >= 1
    ensures forall i :: 0 <= i < |r| ==> '0' <= r[i] <= '9'
    ensures |r| > 1 ==> r[0] != '0'
    decreases n
  {
    if n < 10 then [DigitChar(n)] else Decimal(n / 10) + [DigitChar(n % 10)]
  }

  function DigitChar(d: nat): (ch: char)
    requires d < 10
    ensures '0' <= ch <= '9' && ch as int - '0' as int == d
  {
    ('0' as int + d) as char
  }

  /** The number a string of decimal digits denotes. */
  function DigitsValue(str: string): nat
    requires forall i :: 0 <= i < |str| ==> '0' <= str[i] <= '9'
    decreases |str|
  {
    if str == [] then 0
    else DigitsValue(str[..|str| - 1]) * 10 + (str[|str| - 1] as int - '0' as int)
  }

  /** The rendered tick reads back as the tick. */
  lemma {:induction false} DecimalRoundTrip(n: nat)
    ensures DigitsValue(Decimal(n)) == n
    decreases n
  {
    if n >= 10 {
      DecimalRoundTrip(n / 10);
      var r := Decimal(n);
      assert r[..|r| - 1] == Decimal(n / 10);
    }
  }

  /** The header of a log line, `"L <tick> <level> <zone> "`. */
  function Header(tick: U32, level: string, zone: string): string {
    "L " + Decimal(tick) + " " + level + " " + zone + " "
  }

  /** Where each field of a header sits: the tag, the rendered tick, the
      level and the zone, each followed by one space. */
  lemma HeaderFields(tick: U32, level: string, zone: string)
    ensures var h := Header(tick, level, zone);
      var d := |Decimal(tick)|;
      && |h| == d + |level| + |zone| + 5
      && h[..2] == "L "
      && h[2..2 + d] == Decimal(tick) && h[2 + d] == ' '
      && h[3 + d..3 + d + |level|] == level && h[3 + d + |level|] == ' '
      && h[4 + d + |level|..|h| - 1] == zone && h[|h| - 1] == ' '
  {
  }

  /** The complete log line: header, rendered body, line feed. */
  function LogLine(tick: U32, level: string, zone: string, body: string): string {
    Header(tick, level, zone) + body + "\n"
  }

  /** A log line splits back into its header, the body and the final line
      feed. */
  lemma LogLineFields(tick: U32, level: string, zone: string, body: string)
    ensures var r := LogLine(tick, level, zone, body);
      var n := |Header(tick, level, zone)|;
      && |r| == n + |body| + 1
      && r[..n] == Header(tick, level, zone)
      && r[n..|r| - 1] == body
      && r[|r| - 1] == '\n'
  {
  }

  /** The complete raw line: rendered body, line feed. */
  function RawLine(body: string): (r: string)
    ensures |r| == |body| + 1 && r[..|body|] == body && r[|body|] == '\n'
  {
    body + "\n"
  }

  /** `RLM3_LogBuffer_WriteLogMessage` with the formatter's rendering of the
      body given as `body` and the clock's reading as `tick`. Before init the
      line goes straight to the debug port with a literal 0 for the tick. */
  function WriteLogMessage(s: LogState, tick: U32, level: string, zone: string, body: string): (r: Written)
    requires s.initialized ==> |LogLine(tick, level, zone, body)| < MODULUS && s.activeWriters < MODULUS - 1
    ensures !s.initialized ==> r.state == s && r.direct == "L 0 " + level + " " + zone + " " + body + "\n"
    ensures s.initialized ==> r.direct == []
    ensures s.initialized && Consistent(s) ==> var line := LogLine(tick, level, zone, body);
      && Consistent(r.state)
      && |line| == |Header(tick, level, zone)| + |body| + 1
      && (Sub(s.allocationHead, s.mem.logTail) + |line| > Capacity(s.mem) ==> r.state == s)
      && (Sub(s.allocationHead, s.mem.logTail) + |line| <= Capacity(s.mem) ==>
          && RingRead(r.state.mem.logBuffer, s.allocationHead, |line|) == line
          && r.state.mem.logBuffer == RingWrite(s.mem.logBuffer, s.allocationHead, line)
          && r.state.allocationHead == Add(s.allocationHead, |line|)
          && r.state.activeWriters == s.activeWriters
          && r.state.mem.logHead == (if s.activeWriters == 0 then r.state.allocationHead else s.mem.logHead)
          && r.state.mem == s.mem.(logBuffer := r.state.mem.logBuffer, logHead := r.state.mem.logHead)
          && r.state.initialized)
  {
    if !s.initialized then
      Written(s, "L 0 " + level + " " + zone + " " + body + "\n")
    else
      var line := LogLine(tick, level, zone, body);
      Written(WriteLine(s, line), [])
  }

  /** `RLM3_LogBuffer_WriteRawMessage` with the formatter's rendering of the
      body given as `body`. */
  function WriteRawMessage(s: LogState, body: string): (r: Written)
    requires s.initialized ==> |RawLine(body)| < MODULUS && s.activeWriters < MODULUS - 1
    ensures !s.initialized ==> r.state == s && r.direct == body + "\n"
    ensures s.initialized ==> r.direct == []
    ensures s.initialized && Consistent(s) ==> var line := RawLine(body);
      && Consistent(r.state)
      && |line| == |body| + 1
      && (Sub(s.allocationHead, s.mem.logTail) + |line| > Capacity(s.mem) ==> r.state == s)
      && (Sub(s.allocationHead, s.mem.logTail) + |line| <= Capacity(s.mem) ==>
          && RingRead(r.state.mem.logBuffer, s.allocationHead, |line|) == line
          && r.state.mem.logBuffer == RingWrite(s.mem.logBuffer, s.allocationHead, line)
          && r.state.allocationHead == Add(s.allocationHead, |line|)
          && r.state.activeWriters == s.activeWriters
          && r.state.mem.logHead == (if s.activeWriters == 0 then r.state.allocationHead else s.mem.logHead)
          && r.state.mem == s.mem.(logBuffer := r.state.mem.logBuffer, logHead := r.state.mem.logHead)
          && r.state.initialized)
  {
    if !s.initialized then
      Written(s, body + "\n")
    else
      var line := RawLine(body);
      Written(WriteLine(s, line), [])
  }

  /** The log-message example: on freshly initialised memory at tick 30 the
      ring starts with the whole line and the head is its length. */
  lemma WriteLogMessageExample(s: LogState)
    requires !s.initialized && s.activeWriters == 0
    requires s.mem.logMagic != LOG_MAGIC && Capacity(s.mem) >= 43
    ensures Init(s, true).Ok?
    ensures var r := WriteLogMessage(Init(s, true).value, 30, "test-level", "test-zone", "test-message ACE").state;
      && r.mem.logBuffer[..43] == "L 30 test-level test-zone test-message ACE\n"
      && r.mem.logHead == 43 && r.mem.logTail == 0 && r.mem.logMagic == LOG_MAGIC
  {
    var t := Init(s, true).value;
    ExampleLine();
    WriteOnEmpty(t, LogLine(30, "test-level", "test-zone", "test-message ACE"));
  }

  /** A line written into an empty, quiescent ring starting at cursor 0
      occupies the buffer's first cells and is published whole. */
  lemma WriteOnEmpty(t: LogState, line: string)
    requires t.initialized && Consistent(t) && t.activeWriters == 0
    requires t.mem.logHead == 0 && t.mem.logTail == 0 && |line| <= Capacity(t.mem)
    ensures var r := WriteLine(t, line);
      && r.mem.logBuffer[..|line|] == line
      && r.mem.logHead == |line| && r.mem.logTail == 0 && r.mem.logMagic == t.mem.logMagic
  {
    var r := WriteLine(t, line);
    PrefixIsRead(r.mem.logBuffer, |line|);
  }

  lemma ExampleLine()
    ensures LogLine(30, "test-level", "test-zone", "test-message ACE") == "L 30 test-level test-zone test-message ACE\n"
  {
    DecimalThirty();
    var header := Header(30, "test-level", "test-zone");
    assert header == "L 30 test-level test-zone " by {
      assert "L " + "30" == "L 30";
      assert "L 30" + " " + "test-level" == "L 30 test-level";
      assert "L 30 test-level" + " " + "test-zone" + " " == "L 30 test-level test-zone ";
    }
    assert header + "test-message ACE" + "\n" == "L 30 test-level test-zone test-message ACE\n";
  }

  lemma DecimalThirty()
    ensures Decimal(30) == "30"
  {
    assert Decimal(3) == "3";
    assert DigitChar(0) == '0';
  }

  /** The raw-message example: on freshly initialised memory the ring starts
      with the body and its line feed. */
  lemma WriteRawMessageExample(s: LogState)
    requires !s.initialized && s.activeWriters == 0
    requires s.mem.logMagic != LOG_MAGIC && Capacity(s.mem) >= 17
    ensures Init(s, true).Ok?
    ensures var r := WriteRawMessage(Init(s, true).value, "test-message ACE").state;
      && r.mem.logBuffer[..17] == "test-message ACE\n"
      && r.mem.logHead == 17 && r.mem.logTail == 0 && r.mem.logMagic == LOG_MAGIC
  {
    var t := Init(s, true).value;
    var r := WriteRawMessage(t, "test-message ACE").state;
    PrefixIsRead(r.mem.logBuffer, 17);
  }

  /** Read from cursor 0, the first `n <= C` characters are the buffer's
      prefix. */
  lemma PrefixIsRead(buf: seq<char>, n: nat)
    requires ValidCapacity(|buf|) && n <= |buf|
    ensures buf[..n] == RingRead(buf, 0, n)
  {
    forall i | 0 <= i < n
      ensures buf[..n][i] == RingRead(buf, 0, n)[i]
    {
      ModUnique(i, 0, i, |buf|);
    }
  }
}
