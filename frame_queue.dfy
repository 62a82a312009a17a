/** The bounded queue `q` shared by the capture callback (producer) and the
    processing loop (consumer), and the callback that fills it. */
module FrameQueue {
  import opened Frames

  /** `BUF_SIZE`: the capacity given to the queue. */
  const BufSize: nat := 2

  /** The queue's contents after the callback has been offered `f`: a frame
      whose payload length is wrong is ignored, a well-sized frame is
      appended when fewer than `BufSize` frames wait, and is dropped
      otherwise. Either way the queue only ever grows at the back, by at
      most one frame. */
  function Offered(items: seq<Grid>, f: UvcFrame): (r: seq<Grid>)
    ensures |items| <= |r| <= |items| + 1 && r[..|items|] == items
  {
    if !WellSized(f) then items
    else if |items| >= BufSize then items
    else items + [f.pixels]
  }

  /** True when offering `f` to a queue holding `items` stores it. */
  predicate Admits(items: seq<Grid>, f: UvcFrame)
  {
    WellSized(f) && |items| < BufSize
  }

  /** A malformed frame leaves the queue exactly as it was. */
  lemma MalformedFrameIgnored(items: seq<Grid>, f: UvcFrame)
    requires !WellSized(f)
    ensures Offered(items, f) == items
  {
  }

  /** A well-sized frame is appended at the back iff there is room; with
      `BufSize` frames waiting it is dropped and the queue is unchanged. */
  lemma WellSizedFrameAppendedOrDropped(items: seq<Grid>, f: UvcFrame)
    requires WellSized(f) && |items| <= BufSize
    ensures |items| < BufSize ==> Offered(items, f) == items + [f.pixels]
    ensures |items| == BufSize ==> Offered(items, f) == items
  {
  }

  /** Offering never pushes occupancy past `BufSize` and never reorders or
      removes what is queued. */
  lemma OfferKeepsBound(items: seq<Grid>, f: UvcFrame)
    requires |items| <= BufSize
    ensures |Offered(items, f)| <= BufSize
    ensures Offered(items, f)[..|items|] == items
  {
  }

  /** Whatever the occupancy, offering appends the frame when admitted and
      otherwise leaves the queue as it was. */
  lemma OfferAppendsIfAdmitted(items: seq<Grid>, f: UvcFrame)
    ensures Offered(items, f) == items + (if Admits(items, f) then [f.pixels] else [])
  {
  }

  /** What `q.get(True, 500)` yields: the oldest frame, or `Empty` for the
      `queue.Empty` exception raised once the timeout passes with nothing
      queued. */
  datatype GetOutcome = Got(frame: Grid) | Empty

  /** The queue object `q = Queue(BUF_SIZE)`. */
  class Queue {
    /** Waiting frames, oldest first. */
    var items: seq<Grid>

    ghost predicate Valid()
      reads this
    {
      |items| <= BufSize
    }

    constructor ()
      ensures Valid() && items == []
    {
      items := [];
    }

    /** `q.full()`: the queue holds `BufSize` frames. */
    method Full() returns (full: bool)
      requires Valid()
      ensures full <==> |items| == BufSize
    {
      full := |items| >= BufSize;
    }

    /** `q.put(x)` on a queue with room: `x` goes to the back. */
    method Put(x: Grid)
      requires Valid() && |items| < BufSize
      modifies this
      ensures Valid()
      ensures items == old(items) + [x]
    {
      items := items + [x];
    }

    /** `q.get(True, 500)`: removes and returns the front frame; on an empty
        queue nothing else can run, so the wait ends in `Empty`. */
    method Get() returns (r: GetOutcome)
      requires Valid()
      modifies this
      ensures Valid()
      ensures old(items) == [] ==> r == Empty && items == []
      ensures old(items) != [] ==> r == Got(old(items)[0]) && items == old(items)[1..]
    {
      if items == [] {
        r := Empty;
      } else {
        r := Got(items[0]);
        items := items[1..];
      }
    }
  }

  /** `py_frame_callback`: drop a frame whose payload length is not
      `2 * width * height`, otherwise enqueue it unless the queue is full. */
  method FrameCallback(q: Queue, f: UvcFrame)
    requires q.Valid()
    modifies q
    ensures q.Valid()
    ensures q.items == Offered(old(q.items), f)
    ensures !WellSized(f) ==> q.items == old(q.items)
    ensures WellSized(f) && |old(q.items)| < BufSize ==> q.items == old(q.items) + [f.pixels]
    ensures |old(q.items)| == BufSize ==> q.items == old(q.items)
  {
    if f.dataBytes != 2 * f.width * f.height {
      return;
    }
    var full := q.Full();
    if !full {
      q.Put(f.pixels);
    }
  }
}
