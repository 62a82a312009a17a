# Lepton radiometry capture loop — a Dafny model

This project models the core of `python/uvc-radiometry.py`. That script
streams 16-bit frames from a FLIR Lepton camera through libuvc. It
decodes the telemetry record carried in each frame's last two rows. On
the way it converts raw counts to temperatures, and it saves snapshots
named after the time elapsed since the session started.

The model has seven modules, one per file:

- `Frames` (`frames.dfy`): the frame the capture library hands over,
  with its reported width, height and payload length and the
  height-by-width word view. It also holds the `data[-2:, :]` slice of
  the trailing rows.
- `FrameQueue` (`frame_queue.dfy`): the global bounded queue
  `q = Queue(BUF_SIZE)`, holding two frames. It is a class whose `items`
  the methods update. `FrameCallback` is the acquisition callback. It
  drops frames whose payload is not two bytes per pixel, and it drops
  frames when the queue is full. The function `Offered` gives its
  effect on the queue contents.
- `Telemetry` (`telemetry.dfy`): the `telemetry` decoder.
  - It reads fixed word offsets of the first trailing row, the last
    eight through `b = a[80:]`.
  - A row that is missing or too short stands for numpy's `IndexError`.
  - A synthetic `Encode` is the decoder's inverse for the round-trip.
- `Calibration` (`calibration.dfy`): `ktoc`, `ktof` and `compc` over
  exact reals.
- `Decimal` (`decimal.dfy`): the two `%` conversions in the snapshot
  file name, `%08d` and `%010.2f`. They are built from digit strings,
  with the value of the spelling proved.
- `Snapshot` (`snapshot.dfy`): the save test and the `save_image` file
  name.
  - `Schedule` defines which frame times are saved,
    given the `lastframetime` bookkeeping.
  - The lemmas cover the last save, the spacing, interval 0 and a
    missing stem.
- `ControlLoop` (`control_loop.dfy`): `main`'s `while True` loop.
  - A session is a script of events. Each event is either the callback
    being invoked with a frame or one turn of the loop body.
  - `Step`/`Session` specify the script. `Turn`/`RunSession` run it on
    the shared `Queue` object and are proved equal to `Step`/`Session`.
  - Lemmas show the following, across a whole session:
    - the queue behaves FIFO;
    - it stays within its bound;
    - the snapshots saved are exactly what `Schedule` prescribes.

Times are whole microseconds, the resolution of Python's `datetime`, and
`timedelta.total_seconds()` is the exact real `micros / 10^6`. The
interval from `--interval` is a `real`.

Lines 92, 93, 96 and 103 read like `low + (high << 16)`. But Python's `+`
binds tighter than `<<`, so they compute `(low + high) << 16`. The model
follows the code (`Telemetry.TwoWord`), and
`Telemetry.TwoWordNotInjective` shows that the two readings differ. On
timeout, `q.get(True, 500)` raises `queue.Empty`, so the `data is None`
test at line 173 never fires; the model ends the session with
`QueueEmpty` instead.

## Model

| member | source | states |
|---|---|---|
| Frames.WellSized | python/uvc-radiometry.py:36 | the callback's size test: the payload holds exactly two bytes per pixel; no contract of its own, the `Offered` lemmas state its effect |
| Frames.TrailingRows | python/uvc-radiometry.py:176 | the telemetry rows are the last two rows of the frame, or all of them when it has fewer than two |
| FrameQueue.MalformedFrameIgnored | python/uvc-radiometry.py:36-37 | a frame whose payload length is not `2 * width * height` leaves the queue exactly as it was |
| FrameQueue.WellSizedFrameAppendedOrDropped | python/uvc-radiometry.py:39-40 | a well-sized frame is appended at the back when fewer than two frames wait, and is dropped with the queue unchanged when two wait |
| FrameQueue.OfferKeepsBound | python/uvc-radiometry.py:18-19 | offering a frame never takes the occupancy past the capacity of two, and keeps what is queued in place and in order |
| FrameQueue.Admits | python/uvc-radiometry.py:36-39 | the callback stores the frame: it is well-sized and the queue is not full; no contract of its own, `OfferAppendsIfAdmitted` states its effect |
| FrameQueue.Offered | python/uvc-radiometry.py:36-40 | the queue contents after the callback: the queue only grows at the back, by at most one frame, and keeps what was queued |
| FrameQueue.OfferAppendsIfAdmitted | python/uvc-radiometry.py:36-40 | at any occupancy, the callback's effect is to append the frame when it is admitted and otherwise to do nothing |
| FrameQueue.Queue.constructor | python/uvc-radiometry.py:19 | a new queue is empty and within its bound |
| FrameQueue.Queue.Full | python/uvc-radiometry.py:39 | `q.full()` holds exactly when two frames wait |
| FrameQueue.Queue.Put | python/uvc-radiometry.py:40 | `q.put` on a queue with room puts the frame at the back |
| FrameQueue.Queue.Get | python/uvc-radiometry.py:172 | `q.get` removes and returns the oldest frame; on an empty queue it yields `Empty` and changes nothing |
| FrameQueue.FrameCallback | python/uvc-radiometry.py:21-40 | the callback leaves the queue as `Offered` says: malformed frames ignored, well-sized ones appended if there is room, dropped when full |
| Telemetry.ShiftLeft16 | python/uvc-radiometry.py:92 | `x << 16` on an unbounded integer is a multiple of 2^16 whose quotient is `x` |
| Telemetry.TwoWord | python/uvc-radiometry.py:92 | the literal `a[i] + a[i+1]<<16`: a multiple of 2^16 whose quotient is the sum of both words |
| Telemetry.Decode | python/uvc-radiometry.py:86-113 | decoding succeeds exactly when there is a first row of at least 107 words; otherwise it is the `IndexError` numpy raises |
| Telemetry.DecodeFrame | python/uvc-radiometry.py:176-177 | on a frame shaped by `reshape(height, width)`, decoding the trailing rows succeeds exactly when the frame has a row and is at least 107 words wide |
| Telemetry.DecodeOffsets | python/uvc-radiometry.py:88-112 | every field is the word, slice or shifted sum of two words at its fixed offset of the first row; each `b[k]` is word `80 + k` |
| Telemetry.TwoWordRange | python/uvc-radiometry.py:92 | each two-word field is a multiple of 2^16 whose quotient is a sum of two 16-bit words |
| Telemetry.SplitTwoWord | python/uvc-radiometry.py:92 | every such value is produced by some pair of words |
| Telemetry.Encode | python/uvc-radiometry.py:86-113 | a synthetic first row for a record has exactly the 107 words the decoder needs |
| Telemetry.DecodedIsRepresentable | python/uvc-radiometry.py:86-113 | every decoded record has two-word fields in that range, a 7-word serial and a 3-word revision |
| Telemetry.DecodeEncode | python/uvc-radiometry.py:86-113 | round trip: a row encoding a representable record decodes back to it, whatever the second row holds, so no two fields share an offset |
| Telemetry.DecodeReadsOnlyLayout | python/uvc-radiometry.py:86-113 | the result depends only on the words at the documented offsets of the first row, never on the second row |
| Telemetry.TwoWordNotInjective | python/uvc-radiometry.py:92 | the literal combination maps low 1 / high 0 and low 0 / high 1 to the same value, which `low + (high << 16)` tells apart |
| Calibration.KtoC | python/uvc-radiometry.py:47-48 | Celsius times 100 plus 27315 gives back the count, for any real count |
| Calibration.KtoF | python/uvc-radiometry.py:44-45 | Fahrenheit minus 32, divided by 1.8, is the Celsius reading |
| Calibration.CompC | python/uvc-radiometry.py:51-53 | `compc`: the result less the reading at 8192, divided by 0.0217, gives back how far the count lies from 8192, for any real count |
| Calibration.CtoK | python/uvc-radiometry.py:47-48 | the inverse conversion from Celsius back to a count |
| Calibration.FreezingPoint | python/uvc-radiometry.py:44-48 | the count 27315 reads 0 °C and 32 °F |
| Calibration.KtoCRoundTrip | python/uvc-radiometry.py:47-48 | `ktoc` followed by its inverse gives back every count |
| Calibration.KtoFAffine | python/uvc-radiometry.py:44-45 | Fahrenheit is 1.8 times Celsius plus 32, so it is affine in the count with slope 0.018 |
| Calibration.CompCAtReference | python/uvc-radiometry.py:51-53 | `compc(8192)` is `30250/100 - 273.15` |
| Calibration.CompCAffine | python/uvc-radiometry.py:51-53 | `compc` is affine with slope 0.0217 and strictly increasing |
| Calibration.PathsDiffer | python/uvc-radiometry.py:44-53 | `compc` and `ktoc` disagree at both reference counts, so they are distinct calibrations |
| Decimal.Digits | python/uvc-radiometry.py:82 | the decimal spelling of `n` is digits, denotes `n`, and has no leading zero |
| Decimal.ZeroPad | python/uvc-radiometry.py:82 | padding keeps the digits as a suffix, reaches the width (or keeps a longer string whole) and keeps the value |
| Decimal.FormatInt | python/uvc-radiometry.py:82 | `%0<w>d`: no contract of its own; `FormatIntNonNegative` and `FormatIntNegative` state what it spells |
| Decimal.FormatIntNonNegative | python/uvc-radiometry.py:82 | `%0<w>d` of `n >= 0` is all digits, denotes `n`, and is as long as the width or the digits, whichever is more |
| Decimal.FormatIntNegative | python/uvc-radiometry.py:82 | `%0<w>d` of a negative number is `-` and then the magnitude padded to one place less |
| Decimal.RoundToHundredths | python/uvc-radiometry.py:80 | a time in microseconds rounds to the nearest hundredth of a second, with ties going to the even one |
| Decimal.Fixed2 | python/uvc-radiometry.py:80 | the `.2f` spelling is the whole part without leading zero, a point, and the tens and units of the hundredths |
| Decimal.PadFixed2 | python/uvc-radiometry.py:80 | zero-padding the integer part makes the spelling exactly as long as the width or the unpadded spelling, whichever is more, and keeps the point, the value and both decimals |
| Decimal.FormatFixed2 | python/uvc-radiometry.py:80 | `%0<w>.2f` of a time in microseconds: no contract of its own; `FormatFixed2Spelling` states what it spells |
| Decimal.FormatFixed2NonNegative | python/uvc-radiometry.py:80 | `%0<w>.2f` of a non-negative time is exactly as long as `w` or its unpadded spelling, whichever is more; it starts with a digit and spells the rounded whole seconds and both decimals |
| Decimal.FormatFixed2Negative | python/uvc-radiometry.py:80 | `%0<w>.2f` of a negative time is `-` and then the magnitude spelled in one place less |
| Decimal.FormatFixed2Spelling | python/uvc-radiometry.py:80 | for every time and width, the spelling starts with `-` exactly for negative times, the sign counting toward the width, and then spells the rounded magnitude padded to exactly the rest of the width (or unpadded when longer) |
| Decimal.NegativeSpelling | python/uvc-radiometry.py:80 | the negative case of that statement |
| Decimal.SignedSpelling | python/uvc-radiometry.py:80 | a `-` followed by the spelling of a negative time's magnitude, one place narrower, spells that time |
| Decimal.FormatIntExample | python/uvc-radiometry.py:82 | `"%08d" % 7` is `00000007` |
| Decimal.Fixed2Example | python/uvc-radiometry.py:80 | 7.90 s is spelled `7.90` |
| Decimal.PadFixed2Example | python/uvc-radiometry.py:80 | `7.90` padded to 10 characters is `0000007.90` |
| Decimal.FormatFixed2Example | python/uvc-radiometry.py:80 | `"%010.2f" % 7.9` is `0000007.90` |
| Snapshot.Modf | python/uvc-radiometry.py:78 | `math.modf` splits a number into a fractional and an integral part of its sign that add up to it |
| Snapshot.ModfFractionPositive | python/uvc-radiometry.py:78-79 | the fractional part is positive exactly for positive intervals that are not whole numbers |
| Snapshot.TruncSeconds | python/uvc-radiometry.py:82 | `int(seconds)` truncates toward zero: the magnitude is the whole seconds of the magnitude, with the sign kept |
| Snapshot.Seconds | python/uvc-radiometry.py:77 | `total_seconds()` of a difference in microseconds: the seconds times 10^6 give back the microseconds |
| Snapshot.HasStem | python/uvc-radiometry.py:189 | `if args.file:`: a stem was given and it is not empty; no contract of its own, `NoStemNoSnapshots` states its effect |
| Snapshot.Gate | python/uvc-radiometry.py:189-191 | the save test; it never passes without a stem or with a negative interval |
| Snapshot.TimeField | python/uvc-radiometry.py:76-82 | the field between `<stem>-` and `.jpg`, chosen by the interval's fractional part: no contract of its own; `WholeSecondsField` and `HundredthsField` state it |
| Snapshot.FileName | python/uvc-radiometry.py:75-82 | `<stem>-<field>.jpg`: no contract of its own; `FileNameParts` reads it back |
| Snapshot.SnapshotName | python/uvc-radiometry.py:192 | the name `save_image` is called to write for the frame at `now`, measured from `starttime`: no contract of its own; `ControlLoop.SessionSnapshotsNamed` ties it to the saved frames |
| Snapshot.FileNameParts | python/uvc-radiometry.py:75-82 | the file name is the stem, a `-`, the time field and `.jpg`, and reads back piece by piece |
| Snapshot.WholeSecondsField | python/uvc-radiometry.py:81-82 | with no positive fractional part in the interval, the field is the whole seconds elapsed in digits, exactly 8 long unless they need more |
| Snapshot.HundredthsField | python/uvc-radiometry.py:79-80 | with a positive fractional part, the field spells the elapsed time to two decimals in exactly 10 characters unless the spelling is longer |
| Snapshot.WholeIntervalFieldExample | python/uvc-radiometry.py:81-82 | interval 2, 7.9 s elapsed: the field is `00000007` |
| Snapshot.HalfSecondIntervalFieldExample | python/uvc-radiometry.py:79-80 | interval 0.5, 7.9 s elapsed: the field is `0000007.90` |
| Snapshot.Schedule | python/uvc-radiometry.py:189-193 | the times of the frames saved among frames at the given times; never more saves than frames |
| Snapshot.LastAfter | python/uvc-radiometry.py:190-193 | `lastframetime` after those frames: its starting value or one of the frame times |
| Snapshot.LastAfterIsLastSave | python/uvc-radiometry.py:189-193 | `lastframetime` ends as the time of the latest save, or the start time when nothing was saved |
| Snapshot.ScheduleAppend | python/uvc-radiometry.py:171-193 | processing two runs of frames saves what the first saves, then what the second saves counted from the first's last save |
| Snapshot.GateDecidesEachFrame | python/uvc-radiometry.py:189-193 | frame `j` is saved exactly when the save test passes against the last save before it |
| Snapshot.NoStemNoSnapshots | python/uvc-radiometry.py:189 | without `--file` (or with an empty one) nothing is saved |
| Snapshot.NegativeIntervalNoSnapshots | python/uvc-radiometry.py:191 | a negative interval never lets a frame through |
| Snapshot.ZeroIntervalSavesEveryFrame | python/uvc-radiometry.py:191-193 | with a stem and interval 0, every frame is saved, in order |
| Snapshot.PositiveIntervalSpacesSnapshots | python/uvc-radiometry.py:190-193 | with a positive interval, each save comes more than `interval` seconds after the one before it, and the first comes that long after the start |
| Snapshot.SpacedPairwise | python/uvc-radiometry.py:190-193 | in a spaced run of saves, each save is more than `interval` seconds after the one before it |
| Snapshot.SnapshotsAtFrameTimes | python/uvc-radiometry.py:189-193 | every save happens at the time of some processed frame |
| Snapshot.OneSecondIntervalExample | python/uvc-radiometry.py:189-193 | interval 1 s, frames at 0, 0.4, 1.1 and 2.3 s: the frames at 1.1 s and 2.3 s are saved |
| ControlLoop.Step | python/uvc-radiometry.py:171-193 | one callback invocation or one loop turn: no contract of its own; `StepIsFifo` and `StepFollowsSchedule` state its effect |
| ControlLoop.Session | python/uvc-radiometry.py:171-193 | the steps of a script, run until the loop stops: no contract of its own; the `Session` lemmas below state its effect |
| ControlLoop.Turn | python/uvc-radiometry.py:171-193 | one callback invocation or loop turn on the shared queue does exactly what `Step` specifies, queue and bookkeeping included |
| ControlLoop.RunSession | python/uvc-radiometry.py:168-193 | the loop, from `lastframetime = starttime` on, produces exactly the `Session` log and leaves the queue with what that log says remains |
| ControlLoop.StepIsFifo | python/uvc-radiometry.py:36-40 | in one step, the frames taken and then the queue equal the old queue and then the frames admitted |
| ControlLoop.SessionIsFifo | python/uvc-radiometry.py:18-19 | over a session, no frame is lost, duplicated or reordered: the frames taken and then those left equal the initial queue and then the admitted frames |
| ControlLoop.SessionKeepsBound | python/uvc-radiometry.py:18-19 | the queue never holds more than two frames |
| ControlLoop.StepFollowsSchedule | python/uvc-radiometry.py:175-193 | one turn saves exactly what `Schedule` prescribes for the frame it processed, updates `lastframetime` accordingly and prints one record per processed frame |
| ControlLoop.SessionFollowsSchedule | python/uvc-radiometry.py:171-193 | a session saves exactly what `Schedule` prescribes for the frame times that reached the save test, with one telemetry record per such frame |
| ControlLoop.SessionSnapshotsSpaced | python/uvc-radiometry.py:189-193 | with a positive interval, the saves of a session are more than `interval` apart, and the first is more than `interval` after the start |
| ControlLoop.SessionSnapshotsNamed | python/uvc-radiometry.py:189-193 | every frame a session saves was processed, and a stem exists, so `SnapshotName` of its time is defined |
| ControlLoop.SessionWithoutSnapshots | python/uvc-radiometry.py:189-191 | without a stem, or with a negative interval, a session saves nothing |
| ControlLoop.SessionSavesEveryFrame | python/uvc-radiometry.py:191-193 | with a stem and interval 0, a session saves every frame that reached the save test |

## Left out

- The libuvc context, device and stream setup and its teardown (lines 126–167, 196–204), and the `ctypes` cast and `np.frombuffer` reshape: these are calls into a foreign library. `UvcFrame` carries the reported sizes and the word view directly.
- `raw_to_8bit`, `display_temperature`, `display_timestamp`, `cv2.resize`, `cv2.minMaxLoc`, `cv2.imshow` and `cv2.waitKey`: these are OpenCV rendering and display. The calibration that `display_temperature` applies is modelled as `CompC`. A frame with at most two rows makes `cv2.resize` of the remaining rows fail, and that failure is not modelled either.
- Concurrency and blocking: the capture context and the loop run on separate threads, and `q.get` waits up to 500 seconds. The model runs a script that interleaves callback invocations and loop turns. On an empty queue, `Get` ends the session with `QueueEmpty`, as the `queue.Empty` raised after the timeout would, because in the script nothing else can run while it waits.
- The `data is None` branch (lines 173–174): in the source it can never be taken, because `q.put` is only ever given frames.
- Telemetry.TwoWord: numpy `uint16` arithmetic would wrap the sum and the shift. Here the fields are unbounded integers.
- Decimal.RoundToHundredths: `%010.2f` rounds the IEEE double `total_seconds()`. The model rounds the exact decimal time in microseconds, half to even, so a tie in decimal that is not a tie in binary may be rounded differently.
- Calibration.CompC: the centre reading `data[240,320]` (lines 182 and 186) is a numpy `uint16` scalar. Under NumPy 2's promotion rules, `val - 8192` then stays `uint16` and wraps modulo 2^16 for counts below 8192. That wrap is not modelled: the count is an exact real. `k_temp/100` is Python 3's true division (302.5). Under Python 2 it would be 302, and that reading is not modelled. All three conversions use exact reals, not floating point, and take real counts.
- Argument parsing, `print`, `datetime.now()` and `cv2.imwrite`: these are I/O. The clock readings come in as `Poll(now)` events and `Config.start`. The interval is given already converted to a real. A missing `--interval` means 0.
- Queued frames are treated as copies. The callback queues a numpy view over the capture library's frame buffer without copying it (lines 23–28). Writes to that buffer after the frame is queued are not modelled, and neither is the library reusing it. So `SessionIsFifo` is about the queued views, not about the words they show when the loop reads them.
- `UvcFrame` does not force `pixels` to have `height` rows of `width` words, although `reshape` guarantees that shape. `Frames.Shaped` states the shape, and `Telemetry.DecodeFrame` uses it to read the decoder's length test as `width >= 107`.
- Snapshot.Config: `interval` is a real number, so `--interval nan` and `--interval inf` cannot be expressed. `float()` accepts both, and with either value no frame is ever saved.
- FrameQueue.Queue.Put: requires room in the queue. The only caller, `FrameCallback`, checks `Full` first, as the source does.
- ControlLoop.SessionSnapshotsNamed: the snapshot log records the times of the frames saved, not their names. That each is written under `Snapshot.SnapshotName` of its time is how the log is read, not something proved; the lemma proves only that each was processed and that a stem exists to name it with.
- Snapshot.WholeSecondsField: states the spelling only for a non-negative elapsed time. A negative elapsed time, from a clock that goes backwards, is covered by `Decimal.FormatIntNegative`.
