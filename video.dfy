/** The video cursor the metrics read from: a decoded stream of frames with
    a declared frame count, read one frame at a time and released at the end. */
module Video {
  import opened Wrappers
  import opened Frames

  /** Every frame the decoder delivers has `pixels` pixels. */
  predicate Uniform(stream: seq<Option<Frame>>, pixels: nat)
  {
    forall k :: 0 <= k < |stream| && stream[k].Some? ==> |stream[k].value| == pixels
  }

  /** What reading position `i` yields: the decoded frame, or `None` for a
      frame that failed to decode or lies past the end of the stream. */
  function StreamAt(stream: seq<Option<Frame>>, i: nat): Option<Frame>
  {
    if i < |stream| then stream[i] else None
  }

  /** The results of the next `n` reads from position `pos`. */
  function Upcoming(stream: seq<Option<Frame>>, pos: nat, released: bool, n: nat): seq<Option<Frame>>
  {
    seq(n, k requires 0 <= k => if released then None else StreamAt(stream, pos + k))
  }

  lemma UpcomingUniform(stream: seq<Option<Frame>>, pixels: nat, pos: nat, released: bool, n: nat)
    ensures Uniform(stream, pixels) ==> Uniform(Upcoming(stream, pos, released, n), pixels)
  {
    forall k | 0 <= k < n && Uniform(stream, pixels) && Upcoming(stream, pos, released, n)[k].Some?
      ensures |Upcoming(stream, pos, released, n)[k].value| == pixels
    {
      assert Upcoming(stream, pos, released, n)[k] == (if released then None else StreamAt(stream, pos + k));
    }
  }

  class VideoCapture {
    /** What the decoder produces, frame by frame. */
    const stream: seq<Option<Frame>>
    /** `int(CAP_PROP_FRAME_COUNT)`: the count the container declares,
        which need not match the frames actually decodable. */
    const frameCount: nat
    /** Width times height of every frame. */
    const pixels: nat
    var pos: nat
    var released: bool

    predicate Valid()
    {
      Uniform(stream, pixels)
    }

    constructor (stream: seq<Option<Frame>>, frameCount: nat, pixels: nat)
      requires Uniform(stream, pixels)
      ensures Valid()
      ensures this.stream == stream && this.frameCount == frameCount && this.pixels == pixels
      ensures pos == 0 && !released
    {
      this.stream := stream;
      this.frameCount := frameCount;
      this.pixels := pixels;
      pos := 0;
      released := false;
    }

    /** The next `n` frames `Read` will return. */
    function Pending(n: nat): (frames: seq<Option<Frame>>)
      reads this
      ensures |frames| == n
      ensures Valid() ==> Uniform(frames, pixels)
    {
      UpcomingUniform(stream, pixels, pos, released, n);
      Upcoming(stream, pos, released, n)
    }

    /** `video.read()`: the next frame, or `None` when it cannot be decoded,
        the stream has ended or the capture was released. */
    method Read() returns (frame: Option<Frame>)
      modifies this`pos
      ensures frame == (if released then None else StreamAt(stream, old(pos)))
      ensures pos == (if released then old(pos) else old(pos) + 1)
    {
      if released {
        frame := None;
      } else {
        frame := StreamAt(stream, pos);
        pos := pos + 1;
      }
    }

    /** `video.release()`: after it every read yields `None`. */
    method Release()
      modifies this`released
      ensures released
    {
      released := true;
    }
  }
}
