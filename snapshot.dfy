/** The snapshot policy of the processing loop: which frames are saved, and
    under what file name. Times are whole microseconds, the resolution of
    Python's `datetime`. */
module Snapshot {
  import opened Decimal

  datatype Option<T> = None | Some(value: T)

  const MicrosPerSecond: nat := 1000000

  /** `timedelta.total_seconds()` of a difference of `micros` microseconds. */
  function Seconds(micros: int): (s: real)
    ensures s * MicrosPerSecond as real == micros as real
  {
    micros as real / MicrosPerSecond as real
  }

  /** The options the loop runs with: the `--file` stem, the `--interval`
      in seconds, and `starttime`, taken once before the loop. */
  datatype Config = Config(stem: Option<string>, interval: real, start: int)

  /** `if args.file:` — a stem was given and it is not the empty string. */
  predicate HasStem(stem: Option<string>)
  {
    stem.Some? && stem.value != ""
  }

  /** The save test of the loop, against the time of the last save. It
      never passes without a stem or with a negative interval. */
  predicate Gate(cfg: Config, last: int, now: int)
    ensures Gate(cfg, last, now) ==> HasStem(cfg.stem) && cfg.interval >= 0.0
  {
    && HasStem(cfg.stem)
    && ((cfg.interval > 0.0 && Seconds(now - last) > cfg.interval) || cfg.interval == 0.0)
  }

  /** `math.modf(x)`: the fractional part and the integral part, both
      carrying the sign of `x` and adding up to `x`. */
  function Modf(x: real): (r: (real, int))
    ensures r.0 + r.1 as real == x
    ensures x >= 0.0 ==> 0.0 <= r.0 < 1.0 && r.1 >= 0
    ensures x < 0.0 ==> -1.0 < r.0 <= 0.0 && r.1 <= 0
  {
    if x >= 0.0 then (x - x.Floor as real, x.Floor)
    else (x + (-x).Floor as real, -((-x).Floor))
  }

  /** The fractional part is positive exactly for positive intervals that
      are not whole numbers of seconds. */
  lemma ModfFractionPositive(x: real)
    ensures Modf(x).0 > 0.0 <==> x > 0.0 && x.Floor as real != x
  {
  }

  /** `int(seconds)` for a time given in microseconds: truncation toward
      zero. */
  function TruncSeconds(micros: int): (s: int)
    ensures Abs(s) * MicrosPerSecond <= Abs(micros) < (Abs(s) + 1) * MicrosPerSecond
    ensures s != 0 ==> (s < 0 <==> micros < 0)
  {
    if micros >= 0 then micros / MicrosPerSecond else -((-micros) / MicrosPerSecond)
  }

  /** The field between `<stem>-` and `.jpg`; `save_image` chooses its
      format from the interval's fractional part: `%010.2f` of the elapsed
      seconds when it is positive, `%08d` of their integer part otherwise. */
  function TimeField(interval: real, elapsed: int): string
  {
    if Modf(interval).0 > 0.0 then FormatFixed2(elapsed, 10)
    else FormatInt(TruncSeconds(elapsed), 8)
  }

  /** The file name `save_image` writes, for a frame `elapsed`
      microseconds after the start of the session. */
  function FileName(stem: string, interval: real, elapsed: int): string
  {
    stem + "-" + TimeField(interval, elapsed) + ".jpg"
  }

  /** A file name splits back into the stem, the time field and the
      extension. */
  lemma FileNameParts(stem: string, interval: real, elapsed: int)
    ensures var n, f := FileName(stem, interval, elapsed), TimeField(interval, elapsed);
            && |n| == |stem| + |f| + 5
            && n[..|stem|] == stem && n[|stem|] == '-'
            && n[|stem| + 1..|n| - 4] == f
            && n[|n| - 4..] == ".jpg"
  {
    JoinParts(stem, TimeField(interval, elapsed));
  }

  /** `<stem>-<field>.jpg` for any stem and field, read back piece by piece. */
  lemma JoinParts(stem: string, f: string)
    ensures var n := stem + "-" + f + ".jpg";
            && |n| == |stem| + |f| + 5
            && n[..|stem|] == stem && n[|stem|] == '-'
            && n[|stem| + 1..|n| - 4] == f
            && n[|n| - 4..] == ".jpg"
  {
    var a, tail := stem + "-", f + ".jpg";
    assert stem + "-" + f + ".jpg" == a + tail;
    ConcatPrefix(a, tail);
    ConcatPrefix(stem, "-");
    ConcatPrefix(f, ".jpg");
    ConcatSlice(a, tail, 0, |f|);
    ConcatSlice(a, tail, |f|, |tail|);
    ConcatSlice(f, ".jpg", 0, 4);
  }

  /** The left operand of a concatenation is its prefix. */
  lemma ConcatPrefix(a: string, b: string)
    ensures (a + b)[..|a|] == a
  {
  }

  /** A slice of the right operand of a concatenation. */
  lemma ConcatSlice(a: string, b: string, i: nat, j: nat)
    requires i <= j <= |b|
    ensures (a + b)[|a| + i..|a| + j] == b[i..j]
    ensures j == |b| ==> (a + b)[|a| + i..] == b[i..]
  {
    forall k | 0 <= k < j - i ensures (a + b)[|a| + i..|a| + j][k] == b[i..j][k] {
      assert (a + b)[|a| + i + k] == b[i + k];
    }
  }

  /** With no positive fractional part in the interval (0, whole numbers
      and every negative interval) and a non-negative elapsed time, the
      field is the whole seconds elapsed in digits, zero-padded to exactly 8
      unless it has more. */
  lemma WholeSecondsField(interval: real, elapsed: int)
    requires Modf(interval).0 <= 0.0 && elapsed >= 0
    ensures var f := TimeField(interval, elapsed);
            && AllDigits(f) && ValueOf(f) == elapsed / MicrosPerSecond
            && |f| == Max(8, |Digits(elapsed / MicrosPerSecond)|)
  {
    FormatIntNonNegative(TruncSeconds(elapsed), 8);
  }

  /** With a positive fractional part the field spells the elapsed time
      to two decimals, padded to exactly 10 characters unless longer. */
  lemma HundredthsField(interval: real, elapsed: int)
    requires Modf(interval).0 > 0.0
    ensures SpellsHundredths(TimeField(interval, elapsed), elapsed, 10)
  {
    assert TimeField(interval, elapsed) == FormatFixed2(elapsed, 10);
    FormatFixed2Spelling(elapsed, 10);
  }

  /** Elapsed 7.9 s with a whole interval: the name is `<stem>-00000007.jpg`. */
  lemma WholeIntervalFieldExample()
    ensures TimeField(2.0, 7900000) == "00000007"
  {
    assert Modf(2.0).0 == 0.0;
    assert TruncSeconds(7900000) == 7;
    FormatIntExample();
  }

  /** Elapsed 7.9 s with the interval 0.5: the name is `<stem>-0000007.90.jpg`. */
  lemma HalfSecondIntervalFieldExample()
    ensures TimeField(0.5, 7900000) == "0000007.90"
  {
    assert Modf(0.5).0 == 0.5;
    FormatFixed2Example();
  }

  /** The file `save_image` writes for the frame taken at `now`. */
  function SnapshotName(cfg: Config, now: int): string
    requires HasStem(cfg.stem)
  {
    FileName(cfg.stem.value, cfg.interval, now - cfg.start)
  }

  /** The times of the frames saved among frames arriving at `times`,
      starting from the last-save time `last`; `lastframetime` moves only
      on a save. Each saved frame at `t` is written to `SnapshotName(cfg, t)`. */
  function Schedule(cfg: Config, last: int, times: seq<int>): (s: seq<int>)
    ensures |s| <= |times|
    decreases |times|
  {
    if times == [] then []
    else if Gate(cfg, last, times[0]) then [times[0]] + Schedule(cfg, times[0], times[1..])
    else Schedule(cfg, last, times[1..])
  }

  /** `lastframetime` after the frames at `times`: the value it started
      with, or one of the frame times. */
  function LastAfter(cfg: Config, last: int, times: seq<int>): (t: int)
    ensures t == last || t in times
    decreases |times|
  {
    if times == [] then last
    else LastAfter(cfg, if Gate(cfg, last, times[0]) then times[0] else last, times[1..])
  }

  /** `lastframetime` is the time of the latest snapshot, or the start
      value when nothing was saved. */
  lemma {:induction false} LastAfterIsLastSave(cfg: Config, last: int, times: seq<int>)
    ensures var s := Schedule(cfg, last, times);
            LastAfter(cfg, last, times) == if s == [] then last else s[|s| - 1]
    decreases |times|
  {
    if times != [] {
      var next := if Gate(cfg, last, times[0]) then times[0] else last;
      LastAfterIsLastSave(cfg, next, times[1..]);
    }
  }

  /** Processing two runs of frames one after the other saves what the
      first saves, then what the second saves from the first's last save. */
  lemma {:induction false} ScheduleAppend(cfg: Config, last: int, xs: seq<int>, ys: seq<int>)
    ensures Schedule(cfg, last, xs + ys)
         == Schedule(cfg, last, xs) + Schedule(cfg, LastAfter(cfg, last, xs), ys)
    decreases |xs|
  {
    if xs == [] {
      assert xs + ys == ys;
    } else {
      assert (xs + ys)[1..] == xs[1..] + ys;
      var next := if Gate(cfg, last, xs[0]) then xs[0] else last;
      ScheduleAppend(cfg, next, xs[1..], ys);
    }
  }

  /** Frame `j` is saved exactly when the gate opens for it against the
      last save before it. */
  lemma GateDecidesEachFrame(cfg: Config, last: int, times: seq<int>, j: nat)
    requires j < |times|
    ensures var before := LastAfter(cfg, last, times[..j]);
            Schedule(cfg, last, times[..j + 1])
            == Schedule(cfg, last, times[..j])
               + (if Gate(cfg, before, times[j]) then [times[j]] else [])
  {
    assert times[..j + 1] == times[..j] + [times[j]];
    ScheduleAppend(cfg, last, times[..j], [times[j]]);
  }

  /** Without a stem nothing is saved. */
  lemma {:induction false} NoStemNoSnapshots(cfg: Config, last: int, times: seq<int>)
    requires !HasStem(cfg.stem)
    ensures Schedule(cfg, last, times) == []
    decreases |times|
  {
    if times != [] {
      NoStemNoSnapshots(cfg, last, times[1..]);
    }
  }

  /** A negative interval never lets a frame through. */
  lemma {:induction false} NegativeIntervalNoSnapshots(cfg: Config, last: int, times: seq<int>)
    requires cfg.interval < 0.0
    ensures Schedule(cfg, last, times) == []
    decreases |times|
  {
    if times != [] {
      NegativeIntervalNoSnapshots(cfg, last, times[1..]);
    }
  }

  /** With a stem and interval 0 every frame is saved, in order. */
  lemma {:induction false} ZeroIntervalSavesEveryFrame(cfg: Config, last: int, times: seq<int>)
    requires HasStem(cfg.stem) && cfg.interval == 0.0
    ensures Schedule(cfg, last, times) == times
    decreases |times|
  {
    if times != [] {
      ZeroIntervalSavesEveryFrame(cfg, times[0], times[1..]);
    }
  }

  /** Each snapshot lies strictly more than `interval` seconds after the
      one before it (the first, after `last`). */
  ghost predicate Spaced(interval: real, last: int, s: seq<int>)
    decreases |s|
  {
    s == [] || (Seconds(s[0] - last) > interval && Spaced(interval, s[0], s[1..]))
  }

  /** `Spaced` read at an index: snapshot `i` is more than `interval`
      seconds after snapshot `i - 1`. */
  lemma {:induction false} SpacedAt(interval: real, last: int, s: seq<int>, i: nat)
    requires Spaced(interval, last, s) && 0 < i < |s|
    ensures Seconds(s[i] - s[i - 1]) > interval
    decreases i
  {
    if i > 1 {
      SpacedAt(interval, s[0], s[1..], i - 1);
    }
  }

  /** `Spaced` read at every index. */
  lemma SpacedPairwise(interval: real, last: int, s: seq<int>)
    requires Spaced(interval, last, s)
    ensures forall i :: 0 < i < |s| ==> Seconds(s[i] - s[i - 1]) > interval
  {
    forall i | 0 < i < |s| ensures Seconds(s[i] - s[i - 1]) > interval {
      SpacedAt(interval, last, s, i);
    }
  }

  /** With a positive interval consecutive saves are more than `interval`
      apart, and the first is more than `interval` after `last`. */
  lemma {:induction false} PositiveIntervalSpacesSnapshots(cfg: Config, last: int, times: seq<int>)
    requires cfg.interval > 0.0
    ensures Spaced(cfg.interval, last, Schedule(cfg, last, times))
    decreases |times|
  {
    if times != [] {
      var next := if Gate(cfg, last, times[0]) then times[0] else last;
      PositiveIntervalSpacesSnapshots(cfg, next, times[1..]);
    }
  }

  /** Every snapshot is taken at one of the frame times. */
  lemma {:induction false} SnapshotsAtFrameTimes(cfg: Config, last: int, times: seq<int>)
    ensures forall i :: 0 <= i < |Schedule(cfg, last, times)| ==> Schedule(cfg, last, times)[i] in times
    decreases |times|
  {
    if times != [] {
      var next := if Gate(cfg, last, times[0]) then times[0] else last;
      SnapshotsAtFrameTimes(cfg, next, times[1..]);
    }
  }

  /** Interval 1 s, frames at 0, 0.4, 1.1 and 2.3 s after the start, the
      last save starting at the start: the frames at 1.1 s and 2.3 s are
      saved, the first is not. */
  lemma OneSecondIntervalExample()
    ensures var cfg := Config(Some("img"), 1.0, 0);
            var s := Schedule(cfg, 0, [0, 400000, 1100000, 2300000]);
            s == [1100000, 2300000]
  {
    var cfg := Config(Some("img"), 1.0, 0);
    var ts := [0, 400000, 1100000, 2300000];
    assert !Gate(cfg, 0, 0) && !Gate(cfg, 0, 400000);
    assert Gate(cfg, 0, 1100000) && Gate(cfg, 1100000, 2300000);
    assert ts[1..][1..][1..][1..] == [];
  }
}
