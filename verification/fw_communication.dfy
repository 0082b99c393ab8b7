/** The debug-console drain: a periodic timer interrupt that walks the log
    ring one character per tick, from its own cursor towards the published
    head, and hands each character to the debug port. The port may refuse a
    character (its transmit register is busy); the cursor then stays put and
    the same character is offered again on the next tick. */
module FwCommunication {
  import opened Word32
  import opened Ring
  import opened LogBuffer

  /** The log buffer's state next to the drain's cursor. */
  datatype Firmware = Firmware(log: LogState, consoleTail: U32)

  /** What one tick hands to the debug port. */
  datatype Offer = Nothing | Offered(ch: char)

  datatype Drained = Drained(state: Firmware, offer: Offer)

  /** A drain cursor that has fallen outside the unread window `[tail,
      tail + C]` no longer refers to live data and restarts at the tail. */
  function Resynced(fw: Firmware): (t: U32)
    ensures Sub(fw.consoleTail, fw.log.mem.logTail) <= Capacity(fw.log.mem) ==> t == fw.consoleTail
    ensures Sub(fw.consoleTail, fw.log.mem.logTail) > Capacity(fw.log.mem) ==> t == fw.log.mem.logTail
    ensures Sub(t, fw.log.mem.logTail) <= Capacity(fw.log.mem)
  {
    if Sub(fw.consoleTail, fw.log.mem.logTail) > |fw.log.mem.logBuffer| then fw.log.mem.logTail
    else fw.consoleTail
  }

  /** `RLM3_Timer2_Event_Callback`, with `accepted` the answer the debug
      port's output primitive gives for the offered character. */
  function DrainStep(fw: Firmware, accepted: bool): (r: Drained)
    ensures r.state.log == fw.log
    ensures r.offer.Offered? <==> fw.log.mem.logHead != Resynced(fw)
    ensures r.offer.Offered? ==>
      r.offer.ch == fw.log.mem.logBuffer[Resynced(fw) % Capacity(fw.log.mem)]
    ensures r.offer.Offered? && accepted ==> Sub(r.state.consoleTail, Resynced(fw)) == 1
    ensures !(r.offer.Offered? && accepted) ==> r.state.consoleTail == Resynced(fw)
  {
    var t := Resynced(fw);
    var mem := fw.log.mem;
    if Sub(mem.logHead, t) > 0 then
      var ch := mem.logBuffer[t % |mem.logBuffer|];
      Drained(fw.(consoleTail := if accepted then Add(t, 1) else t), Offered(ch))
    else Drained(fw.(consoleTail := t), Nothing)
  }

  /** The characters that actually reach the console in one tick. */
  function Sent(d: Drained, accepted: bool): string {
    if d.offer.Offered? && accepted then [d.offer.ch] else []
  }

  /** The drain cursor lies between the tail and the published head. */
  predicate Behind(fw: Firmware) {
    Sub(fw.consoleTail, fw.log.mem.logTail) <= Sub(fw.log.mem.logHead, fw.log.mem.logTail)
  }

  /** While the published span fits in the ring, a tick leaves the cursor
      between tail and head if it was there, or if it had fallen out of the
      window altogether. */
  lemma DrainStepKeepsBehind(fw: Firmware, accepted: bool)
    requires Sub(fw.log.mem.logHead, fw.log.mem.logTail) <= Capacity(fw.log.mem)
    requires Behind(fw) || Sub(fw.consoleTail, fw.log.mem.logTail) > Capacity(fw.log.mem)
    ensures Behind(DrainStep(fw, accepted).state)
  {
  }

  /** With the ring empty and the cursor at the tail, a tick changes
      nothing and offers nothing. */
  lemma DrainEmpty(fw: Firmware, accepted: bool)
    requires fw.log.mem.logHead == fw.log.mem.logTail == fw.consoleTail
    ensures DrainStep(fw, accepted) == Drained(fw, Nothing)
  {
  }

  /** A sequence of ticks, `accepts[i]` being the port's answer on tick `i`;
      yields the final state and everything that reached the console. */
  function DrainRun(fw: Firmware, accepts: seq<bool>): (r: (Firmware, string))
    ensures r.0.log == fw.log
    ensures |r.1| <= |accepts|
    decreases |accepts|
  {
    if accepts == [] then (fw, [])
    else
      var d := DrainStep(fw, accepts[0]);
      var rest := DrainRun(d.state, accepts[1..]);
      (rest.0, Sent(d, accepts[0]) + rest.1)
  }

  /** How many of the port's answers were "accepted". */
  function CountAccepted(accepts: seq<bool>): (n: nat)
    ensures n <= |accepts|
  {
    if accepts == [] then 0 else (if accepts[0] then 1 else 0) + CountAccepted(accepts[1..])
  }

  function Min(a: int, b: int): int {
    if a <= b then a else b
  }

  /** Draining prints the unread published text in ring order, one
      character per accepted tick, and stops at the head: after any run of
      ticks the console has received exactly the next `k` characters from
      the cursor, `k` being the accepted ticks capped by what was unsent. */
  lemma {:induction false} DrainRunReads(fw: Firmware, accepts: seq<bool>)
    requires Sub(fw.log.mem.logHead, fw.log.mem.logTail) <= Capacity(fw.log.mem)
    requires Behind(fw)
    ensures var k := Min(CountAccepted(accepts), Sub(fw.log.mem.logHead, fw.consoleTail));
      && DrainRun(fw, accepts).1 == RingRead(fw.log.mem.logBuffer, fw.consoleTail, k)
      && DrainRun(fw, accepts).0.consoleTail == Add(fw.consoleTail, k)
    decreases |accepts|
  {
    var mem := fw.log.mem;
    var c := Capacity(mem);
    if accepts != [] {
      var d := DrainStep(fw, accepts[0]);
      var rest := accepts[1..];
      assert Resynced(fw) == fw.consoleTail;
      DrainStepKeepsBehind(fw, accepts[0]);
      DrainRunReads(d.state, rest);
      var k := Min(CountAccepted(accepts), Sub(mem.logHead, fw.consoleTail));
      if d.offer.Offered? && accepts[0] {
        var ct := fw.consoleTail;
        var ct' := d.state.consoleTail;
        assert ct' == Add(ct, 1);
        assert Sub(mem.logHead, ct') == Sub(mem.logHead, ct) - 1;
        var k' := Min(CountAccepted(rest), Sub(mem.logHead, ct'));
        assert k == k' + 1;
        ReadStep(mem.logBuffer, ct, k');
        assert Add(ct', k') == Add(ct, k);
      } else if d.offer.Nothing? {
        assert Sub(mem.logHead, fw.consoleTail) == 0;
        assert d.state == fw;
      }
    }
  }

  /** Reading `k + 1` characters from a cursor is its cell followed by `k`
      characters from the next cursor, across counter wrap-around. */
  lemma ReadStep(buf: seq<char>, ct: U32, k: nat)
    requires ValidCapacity(|buf|)
    ensures RingRead(buf, ct, k + 1) == [buf[ct % |buf|]] + RingRead(buf, Add(ct, 1), k)
  {
    var c := |buf|;
    forall i | 0 <= i < k
      ensures RingRead(buf, ct, k + 1)[i + 1] == RingRead(buf, Add(ct, 1), k)[i]
    {
      CellOfAdd(ct, 1, c);
      var q := (ct + 1) / MODULUS;
      ModulusIsLaps(c);
      assert ct + 1 == q * MODULUS + Add(ct, 1);
      assert Add(ct, 1) + i + (q * (MODULUS / c)) * c == ct + (i + 1);
      ModAddMultiple(Add(ct, 1) + i, q * (MODULUS / c), c);
    }
    assert RingRead(buf, ct, k + 1)[0] == buf[ct % c];
  }

  /** `RLM3_FwCommunication_Init`: initialise the log buffer, then, with a
      debugger attached, start the drain at the validated tail. */
  function FwInit(fw: Firmware, memoryIsInit: bool, debugAttached: bool): (r: Outcome<Firmware>)
    ensures r.AssertionFailure? <==> Init(fw.log, memoryIsInit).AssertionFailure?
    ensures r.Ok? ==> r.value.log == Init(fw.log, memoryIsInit).value
    ensures r.Ok? && debugAttached ==> r.value.consoleTail == r.value.log.mem.logTail && Behind(r.value)
    ensures r.Ok? && !debugAttached ==> r.value.consoleTail == fw.consoleTail
  {
    match Init(fw.log, memoryIsInit)
    case AssertionFailure => AssertionFailure
    case Ok(log) => Ok(Firmware(log, if debugAttached then log.mem.logTail else fw.consoleTail))
  }

  /** `RLM3_FwCommunication_Deinit`: the log buffer goes down, the drain
      cursor and the region stay. */
  function FwDeinit(fw: Firmware): (r: Outcome<Firmware>)
    ensures r.AssertionFailure? <==> !fw.log.initialized
    ensures r.Ok? ==> !r.value.log.initialized && r.value.log.mem == fw.log.mem && r.value.consoleTail == fw.consoleTail
  {
    match Deinit(fw.log)
    case AssertionFailure => AssertionFailure
    case Ok(log) => Ok(fw.(log := log))
  }

  /** Round trip through the ring: with the console caught up and no writer
      in flight, a log line that fits is, after enough accepted ticks,
      exactly what the console prints, and the drain is back at the head. */
  lemma WriteThenDrain(fw: Firmware, tick: U32, level: string, zone: string, body: string, accepts: seq<bool>)
    requires fw.log.initialized && Consistent(fw.log) && fw.log.activeWriters == 0
    requires fw.consoleTail == fw.log.mem.logHead
    requires |LogLine(tick, level, zone, body)| < MODULUS
    requires Sub(fw.log.allocationHead, fw.log.mem.logTail) + |LogLine(tick, level, zone, body)| <= Capacity(fw.log.mem)
    requires CountAccepted(accepts) >= |LogLine(tick, level, zone, body)|
    ensures var written := fw.(log := WriteLogMessage(fw.log, tick, level, zone, body).state);
      && DrainRun(written, accepts).1 == LogLine(tick, level, zone, body)
      && DrainRun(written, accepts).0.consoleTail == written.log.mem.logHead
  {
    var line := LogLine(tick, level, zone, body);
    var log := WriteLogMessage(fw.log, tick, level, zone, body).state;
    var written := fw.(log := log);
    assert log.mem.logHead == Add(fw.consoleTail, |line|);
    SubAdd(fw.consoleTail, |line|);
    assert Sub(log.mem.logHead, fw.consoleTail) == |line|;
    DrainRunReads(written, accepts);
  }

  /** One callback drains one published character; once the cursor has
      reached the head, further callbacks send nothing. */
  lemma DrainStopsAtHead(fw: Firmware, more: seq<bool>)
    requires fw.log.mem.logHead == Add(fw.log.mem.logTail, 1) && fw.consoleTail == fw.log.mem.logTail
    ensures var r := DrainRun(fw, [true, true]);
      && r.1 == [fw.log.mem.logBuffer[fw.log.mem.logTail % Capacity(fw.log.mem)]]
      && r.0.consoleTail == fw.log.mem.logHead
      && DrainRun(r.0, more).1 == []
  {
    SubAdd(fw.log.mem.logTail, 1);
    DrainRunReads(fw, [true, true]);
    var r := DrainRun(fw, [true, true]);
    DrainRunReads(r.0, more);
  }

  /** The console-drain tests' starting point: a valid persisted ring
      holding `text` from tail `0x12345678`, with a debugger attached. */
  function TestFirmware(log: LogState, text: string): (fw: Firmware)
    requires !log.initialized && |text| <= Capacity(log.mem)
    ensures fw.log.mem.logTail == 0x12345678 && fw.consoleTail == 0x12345678
    ensures fw.log.mem.logHead == 0x12345678 + |text|
    ensures RingRead(fw.log.mem.logBuffer, 0x12345678, |text|) == text
  {
    var base: U32 := 0x12345678;
    var mem := log.mem.(logMagic := LOG_MAGIC, logTail := base, logHead := base + |text|,
                        logBuffer := RingWrite(log.mem.logBuffer, base, text));
    assert Intact(mem);
    ReadAfterWrite(log.mem.logBuffer, base, text);
    FwInit(Firmware(log.(mem := mem), 0), true, true).value
  }

  /** Two accepted ticks on a ring holding one character send exactly that
      character. */
  lemma SendOneExample(log: LogState)
    requires !log.initialized && Capacity(log.mem) >= 1
    ensures DrainRun(TestFirmware(log, "a"), [true, true]).1 == "a"
  {
    var fw := TestFirmware(log, "a");
    assert RingRead(fw.log.mem.logBuffer, 0x12345678, 1)[0] == 'a';
    DrainStopsAtHead(fw, []);
  }

  /** A tick after the consumer has moved the tail past the drain cursor
      restarts the drain at the new tail and sends from there. */
  lemma DrainAfterSkip(fw: Firmware)
    requires Sub(fw.consoleTail, fw.log.mem.logTail) > Capacity(fw.log.mem)
    requires fw.log.mem.logHead != fw.log.mem.logTail
    ensures var d := DrainStep(fw, true);
      && d.offer == Offered(fw.log.mem.logBuffer[fw.log.mem.logTail % Capacity(fw.log.mem)])
      && d.state.consoleTail == Add(fw.log.mem.logTail, 1)
  {
  }

  /** When the consumer moves the tail past the drain cursor, the skipped
      character is never sent and draining resumes at the new tail. */
  lemma SkipOneExample(log: LogState)
    requires !log.initialized && Capacity(log.mem) >= 2
    ensures var fw := TestFirmware(log, "ab");
      var consumed := fw.(log := fw.log.(mem := fw.log.mem.(logTail := 0x12345679)));
      DrainRun(consumed, [true, true]).1 == "b"
  {
    var fw := TestFirmware(log, "ab");
    var consumed := fw.(log := fw.log.(mem := fw.log.mem.(logTail := 0x12345679)));
    var mem := consumed.log.mem;
    assert Sub(consumed.consoleTail, mem.logTail) > Capacity(mem);
    assert RingRead(mem.logBuffer, 0x12345678, 2)[1] == 'b';
    assert mem.logBuffer[0x12345679 % Capacity(mem)] == 'b';
    DrainAfterSkip(consumed);
    var first := DrainStep(consumed, true);
    assert Sent(first, true) == "b";
    assert first.state.consoleTail == mem.logHead;
    DrainRunReads(first.state, [true]);
  }
}
