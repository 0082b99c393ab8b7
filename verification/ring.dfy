/** The log ring's storage: a fixed-length sequence of cells addressed by a
    free-running 32-bit cursor taken modulo the capacity. `PutChar` is the
    character sink the formatter writes through; `Fill` is that sink applied
    to a whole rendered line; `RingWrite` and `RingRead` are the closed-form
    views of what a fill leaves behind and what a reader sees. */
module Ring {
  import opened Word32

  /** The character sink `FormatToBufferFn`: store `ch` in the cell of the
      cursor and step the cursor. */
  function PutChar(buf: seq<char>, cursor: U32, ch: char): (r: (seq<char>, U32))
    requires ValidCapacity(|buf|)
    ensures |r.0| == |buf|
    ensures r.0[cursor % |buf|] == ch
    ensures forall j :: 0 <= j < |buf| && j != cursor % |buf| ==> r.0[j] == buf[j]
    ensures Sub(r.1, cursor) == 1
  {
    (buf[cursor % |buf| := ch], Add(cursor, 1))
  }

  /** The formatter streaming `text` into the sink one character at a time,
      starting at `cursor`; yields the buffer and the cursor after the last
      character. */
  function Fill(buf: seq<char>, cursor: U32, text: string): (r: (seq<char>, U32))
    requires ValidCapacity(|buf|)
    ensures |r.0| == |buf|
    ensures r.1 == Add(cursor, |text|)
    decreases |text|
  {
    if text == [] then (buf, cursor)
    else
      var (buf', cursor') := PutChar(buf, cursor, text[0]);
      var r := Fill(buf', cursor', text[1..]);
      assert cursor' == Add(cursor, 1);
      assert r.1 == Add(cursor, |text|) by {
        assert r.1 == Add(cursor', |text| - 1);
      }
      r
  }

  /** What a line of at most `|buf|` characters written from `start` leaves in
      the ring: the cell at distance `d < |text|` from `start` holds `text[d]`,
      every other cell is untouched. */
  function RingWrite(buf: seq<char>, start: int, text: string): (r: seq<char>)
    requires ValidCapacity(|buf|)
    ensures |r| == |buf|
  {
    seq(|buf|, j requires 0 <= j < |buf| =>
      if Dist(start, j, |buf|) < |text| then text[Dist(start, j, |buf|)] else buf[j])
  }

  /** The `n` characters a reader sees walking the ring from `start`. */
  function RingRead(buf: seq<char>, start: int, n: nat): (r: string)
    requires ValidCapacity(|buf|)
    ensures |r| == n
  {
    seq(n, i requires 0 <= i < n => buf[(start + i) % |buf|])
  }

  /** Streaming a line through the sink produces exactly the closed-form
      ring write, provided the line fits in the ring. */
  lemma {:induction false} FillIsRingWrite(buf: seq<char>, cursor: U32, text: string)
    requires ValidCapacity(|buf|) && |text| <= |buf|
    ensures Fill(buf, cursor, text).0 == RingWrite(buf, cursor, text)
    decreases |text|
  {
    var c := |buf|;
    if text == [] {
      assert forall j :: 0 <= j < c ==> RingWrite(buf, cursor, text)[j] == buf[j];
    } else {
      var (buf', cursor') := PutChar(buf, cursor, text[0]);
      var rest := text[1..];
      FillIsRingWrite(buf', cursor', rest);
      var lhs := Fill(buf, cursor, text).0;
      var rhs := RingWrite(buf, cursor, text);
      assert lhs == RingWrite(buf', cursor', rest);
      forall j | 0 <= j < c
        ensures lhs[j] == rhs[j]
      {
        DistOfWrapped(cursor, 1, j, c);
        DistStep(cursor, j, c);
        var d := Dist(cursor, j, c);
        if d == 0 {
          DistOfOffset(cursor, 0, c);
          assert j == cursor % c by {
            assert (cursor + 0) % c == cursor % c;
            DistZeroSameCell(cursor, j, c);
          }
        } else {
          DistZeroSameCell(cursor, j, c);
        }
      }
    }
  }

  /** The only cell at distance zero from a cursor is the cursor's own cell. */
  lemma DistZeroSameCell(cursor: int, j: int, c: int)
    requires c > 0 && 0 <= j < c
    ensures Dist(cursor, j, c) == 0 <==> j == cursor % c
  {
    var q := (j - cursor) / c;
    assert j - cursor == q * c + Dist(cursor, j, c);
    if Dist(cursor, j, c) == 0 {
      assert cursor == j + (-q) * c;
      ModAddMultiple(j, -q, c);
      ModUnique(j, 0, j, c);
    } else if j == cursor % c {
      var p := cursor / c;
      assert j - cursor == (-p) * c + 0;
      ModUnique(j - cursor, -p, 0, c);
    }
  }

  /** Reading back the cells a line was written to yields the line. */
  lemma ReadAfterWrite(buf: seq<char>, start: int, text: string)
    requires ValidCapacity(|buf|) && |text| <= |buf|
    ensures RingRead(RingWrite(buf, start, text), start, |text|) == text
  {
    var c := |buf|;
    forall i | 0 <= i < |text|
      ensures RingRead(RingWrite(buf, start, text), start, |text|)[i] == text[i]
    {
      DistOfOffset(start, i, c);
    }
  }

  /** A write leaves alone every cell a reader of another window sees, when
      the two windows together fit in the ring without overlapping. */
  lemma ReadAroundWrite(buf: seq<char>, start: int, text: string, from: int, n: nat)
    requires ValidCapacity(|buf|)
    requires from + n <= start && start + |text| <= from + |buf|
    ensures RingRead(RingWrite(buf, start, text), from, n) == RingRead(buf, from, n)
  {
    var c := |buf|;
    forall i | 0 <= i < n
      ensures RingRead(RingWrite(buf, start, text), from, n)[i] == RingRead(buf, from, n)[i]
    {
      var j := (from + i) % c;
      // cell j is `from + i`, which lies `c - (start - from - i)` steps past `start`
      var d := from + i + c - start;
      assert |text| <= d < c;
      assert j == (start + d) % c by {
        assert start + d == (from + i) + 1 * c;
        ModAddMultiple(from + i, 1, c);
      }
      DistOfOffset(start, d, c);
    }
  }

  /** Cursors a whole counter period apart read the same cells. */
  lemma ReadOnePeriodBack(buf: seq<char>, start: int, n: nat)
    requires ValidCapacity(|buf|)
    ensures RingRead(buf, start - MODULUS, n) == RingRead(buf, start, n)
  {
    var c := |buf|;
    ModulusIsLaps(c);
    forall i | 0 <= i < n
      ensures RingRead(buf, start - MODULUS, n)[i] == RingRead(buf, start, n)[i]
    {
      assert start + i == (start - MODULUS + i) + (MODULUS / c) * c;
      ModAddMultiple(start - MODULUS + i, MODULUS / c, c);
    }
  }

  /** A write at counter `start` leaves alone the window from an earlier
      counter `from` up to `start`, when the window and the write fit in the
      ring together. */
  lemma ReadBehindWrite(buf: seq<char>, from: U32, start: U32, text: string)
    requires ValidCapacity(|buf|) && Sub(start, from) + |text| <= |buf|
    ensures RingRead(RingWrite(buf, start, text), from, Sub(start, from))
         == RingRead(buf, from, Sub(start, from))
  {
    var span := Sub(start, from);
    var back := start - span;
    ReadAroundWrite(buf, start, text, back, span);
    if back != from {
      assert back == from - MODULUS;
      ReadOnePeriodBack(buf, from, span);
      ReadOnePeriodBack(RingWrite(buf, start, text), from, span);
    }
  }
}
