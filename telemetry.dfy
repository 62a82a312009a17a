/** Decoding of the telemetry record carried in a frame's trailing rows. */
module Telemetry {
  import opened Frames

  /** The record the decoder builds, one field per dictionary key. The
      two-word fields are unbounded integers; `serial` and `revision` are
      word slices. */
  datatype TelemetryRecord = TelemetryRecord(
    telRevision: Word16,
    timeCounter: int,
    status: int,
    serial: seq<Word16>,
    revision: seq<Word16>,
    frameCounter: int,
    frameMean: Word16,
    fpaTempCount: Word16,
    fpaTempKelvin: Word16,
    housingTempCount: Word16,
    housingTempKelvin: Word16,
    fpaTempLastffcKelvin: Word16,
    timeCounterLastffc: int,
    housingTempLastffcKelvin: Word16,
    emissivity: Word16,
    backgroundTempKelvin: Word16,
    atmosphericTransmission: Word16,
    atmosphericTemp: Word16,
    windowTransmission: Word16,
    windowReflection: Word16,
    windowTemperature: Word16,
    windowReflected: Word16)

  /** An `IndexError` stands for the exception numpy raises when a word
      offset lies outside the row (or there is no row at all). */
  datatype DecodeResult = Ok(record: TelemetryRecord) | IndexError

  /** Where the second half-row `b = a[80:]` starts inside the first row. */
  const HalfRowOffset: nat := 80

  /** The highest offset read is `b[26]`, so a decodable row has this many words. */
  const MinRowWords: nat := HalfRowOffset + 27

  /** Python's `x << 16` on an unbounded integer. */
  function ShiftLeft16(x: int): (r: int)
    ensures r % 0x1_0000 == 0 && r / 0x1_0000 == x
  {
    x * 0x1_0000
  }

  /** The source's `a[i] + a[i+1]<<16`. Python's `+` binds tighter than
      `<<`, so the sum of both words is shifted. */
  function TwoWord(lo: Word16, hi: Word16): (r: int)
    ensures r % 0x1_0000 == 0 && r / 0x1_0000 == lo + hi
  {
    ShiftLeft16(lo + hi)
  }

  /** `telemetry(a)`: take the first of the given rows, and read every
      field at its fixed word offset, the last eight through the slice
      `b = a[80:]`. The second row is never looked at. */
  function Decode(rows: Grid): (r: DecodeResult)
    ensures r.Ok? <==> |rows| > 0 && |rows[0]| >= MinRowWords
  {
    if |rows| == 0 then IndexError
    else
      var a := rows[0];
      if |a| < MinRowWords then IndexError
      else
        var b := a[HalfRowOffset..];
        Ok(TelemetryRecord(
          telRevision := a[0],
          timeCounter := TwoWord(a[1], a[2]),
          status := TwoWord(a[3], a[4]),
          serial := a[5..12],
          revision := a[13..16],
          frameCounter := TwoWord(a[20], a[21]),
          frameMean := a[22],
          fpaTempCount := a[23],
          fpaTempKelvin := a[24],
          housingTempCount := a[25],
          housingTempKelvin := a[26],
          fpaTempLastffcKelvin := a[29],
          timeCounterLastffc := TwoWord(a[30], a[31]),
          housingTempLastffcKelvin := a[32],
          emissivity := b[19],
          backgroundTempKelvin := b[20],
          atmosphericTransmission := b[21],
          atmosphericTemp := b[22],
          windowTransmission := b[23],
          windowReflection := b[24],
          windowTemperature := b[25],
          windowReflected := b[26]))
  }

  /** On a frame of the shape `reshape` gives, decoding its trailing rows
      succeeds exactly when the frame has a row and is at least
      `MinRowWords` words wide. */
  lemma DecodeFrame(f: UvcFrame)
    requires Shaped(f)
    ensures Decode(TrailingRows(f.pixels)).Ok? <==> f.height > 0 && f.width >= MinRowWords
  {
  }

  /** Every field of a decoded record is the word (or the sum of the two
      words, shifted, or the slice) at its fixed offset in the first row; in
      particular each `b[k]` is `a[80 + k]`. */
  lemma DecodeOffsets(rows: Grid)
    requires Decode(rows).Ok?
    ensures
      var a, t := rows[0], Decode(rows).record;
      && t.telRevision == a[0]
      && t.timeCounter == (a[1] as int + a[2] as int) * 0x1_0000
      && t.status == (a[3] as int + a[4] as int) * 0x1_0000
      && t.serial == a[5..12] && |t.serial| == 7
      && t.revision == a[13..16] && |t.revision| == 3
      && t.frameCounter == (a[20] as int + a[21] as int) * 0x1_0000
      && t.frameMean == a[22]
      && t.fpaTempCount == a[23]
      && t.fpaTempKelvin == a[24]
      && t.housingTempCount == a[25]
      && t.housingTempKelvin == a[26]
      && t.fpaTempLastffcKelvin == a[29]
      && t.timeCounterLastffc == (a[30] as int + a[31] as int) * 0x1_0000
      && t.housingTempLastffcKelvin == a[32]
      && t.emissivity == a[99]
      && t.backgroundTempKelvin == a[100]
      && t.atmosphericTransmission == a[101]
      && t.atmosphericTemp == a[102]
      && t.windowTransmission == a[103]
      && t.windowReflection == a[104]
      && t.windowTemperature == a[105]
      && t.windowReflected == a[106]
  {
  }

  /** The word offsets of the first row that the decoder reads. */
  predicate ReadOffset(i: nat)
  {
    i <= 11 || 13 <= i <= 15 || 20 <= i <= 26 || 29 <= i <= 32 || 99 <= i < MinRowWords
  }

  /** The values a two-word field can take: multiples of 2^16 whose
      multiplier is a sum of two 16-bit words. */
  predicate TwoWordValue(v: int)
  {
    v % 0x1_0000 == 0 && 0 <= v / 0x1_0000 <= 2 * 0xFFFF
  }

  /** A record any first row of at least `MinRowWords` words could yield. */
  predicate Representable(t: TelemetryRecord)
  {
    && TwoWordValue(t.timeCounter)
    && TwoWordValue(t.status)
    && TwoWordValue(t.frameCounter)
    && TwoWordValue(t.timeCounterLastffc)
    && |t.serial| == 7
    && |t.revision| == 3
  }

  /** Two words whose combination gives a `TwoWordValue`. */
  function SplitTwoWord(v: int): (p: (Word16, Word16))
    requires TwoWordValue(v)
    ensures TwoWord(p.0, p.1) == v
  {
    var k := v / 0x1_0000;
    if k <= 0xFFFF then (k, 0) else (0xFFFF, k - 0xFFFF)
  }

  /** `TwoWordValue` is exactly the range of the literal combination. */
  lemma TwoWordRange(lo: Word16, hi: Word16)
    ensures TwoWordValue(TwoWord(lo, hi))
  {
  }

  /** A synthetic first telemetry row in which every field of `t` sits at
      its documented offset and every unread word is zero. */
  function Encode(t: TelemetryRecord): (a: seq<Word16>)
    requires Representable(t)
    ensures |a| == MinRowWords
  {
    var tc, st := SplitTwoWord(t.timeCounter), SplitTwoWord(t.status);
    var fc, tl := SplitTwoWord(t.frameCounter), SplitTwoWord(t.timeCounterLastffc);
    [t.telRevision, tc.0, tc.1, st.0, st.1] + t.serial + [0] + t.revision + [0, 0, 0, 0]
    + [fc.0, fc.1, t.frameMean, t.fpaTempCount, t.fpaTempKelvin, t.housingTempCount,
       t.housingTempKelvin, 0, 0, t.fpaTempLastffcKelvin, tl.0, tl.1, t.housingTempLastffcKelvin]
    + seq(99 - 33, _ => 0)
    + [t.emissivity, t.backgroundTempKelvin, t.atmosphericTransmission, t.atmosphericTemp,
       t.windowTransmission, t.windowReflection, t.windowTemperature, t.windowReflected]
  }

  /** Every record the decoder produces is representable. */
  lemma DecodedIsRepresentable(rows: Grid)
    requires Decode(rows).Ok?
    ensures Representable(Decode(rows).record)
  {
    var a := rows[0];
    TwoWordRange(a[1], a[2]);
    TwoWordRange(a[3], a[4]);
    TwoWordRange(a[20], a[21]);
    TwoWordRange(a[30], a[31]);
  }

  /** Round trip: a synthetic row built from a representable record decodes
      to that record, whatever row follows it. This also shows that no two
      fields share a word offset. */
  lemma DecodeEncode(t: TelemetryRecord, second: seq<Word16>)
    requires Representable(t)
    ensures Decode([Encode(t), second]) == Ok(t)
  {
    var a := Encode(t);
    assert a[5..12] == t.serial;
    assert a[13..16] == t.revision;
  }

  /** The decoder depends only on the words at `ReadOffset` in the first
      row: rows agreeing there (and in length being decodable) decode
      alike, whatever the second rows hold. */
  lemma DecodeReadsOnlyLayout(rows: Grid, rows': Grid)
    requires |rows| > 0 && |rows'| > 0
    requires |rows[0]| >= MinRowWords && |rows'[0]| >= MinRowWords
    requires forall i: nat :: i < MinRowWords && ReadOffset(i) ==> rows[0][i] == rows'[0][i]
    ensures Decode(rows) == Decode(rows')
  {
    var a, a' := rows[0], rows'[0];
    assert ReadOffset(0) && ReadOffset(1) && ReadOffset(2) && ReadOffset(3) && ReadOffset(4);
    assert a[5..12] == a'[5..12] by {
      forall i | 5 <= i < 12 ensures a[i] == a'[i] { assert ReadOffset(i); }
    }
    assert a[13..16] == a'[13..16] by {
      forall i | 13 <= i < 16 ensures a[i] == a'[i] { assert ReadOffset(i); }
    }
    forall i | 20 <= i <= 26 || 29 <= i <= 32 || 99 <= i < MinRowWords ensures a[i] == a'[i] {
      assert ReadOffset(i);
    }
  }

  /** The literal combination confuses distinct word pairs: low word 1 and
      high word 0 give the same field as low word 0 and high word 1, which
      `low + (high << 16)` would tell apart. */
  lemma TwoWordNotInjective()
    ensures TwoWord(1, 0) == TwoWord(0, 1)
    ensures 1 + ShiftLeft16(0) != 0 + ShiftLeft16(1)
  {
  }
}
