/**
 * The resynchronising reader that turns the bytes arriving from the serial port into
 * decoded samples. Bytes are appended to a buffer; while the buffer holds a whole frame's
 * worth of bytes, the front is either taken as a frame (both markers in place: 19 bytes
 * consumed, a sample emitted if the checksum holds) or one byte is dropped.
 */
module Stream {
  import opened Packet

  /** Both markers are where a frame starting at the front of `buf` would carry them. */
  predicate Aligned(buf: seq<Byte>)
    requires |buf| >= PacketLength
  {
    buf[0] == StartMarker && buf[18] == EndMarker
  }

  /** A frame starting at offset j of `buf` would have its markers in place. */
  predicate AlignedAt(buf: seq<Byte>, j: nat)
  {
    j + PacketLength <= |buf| && buf[j] == StartMarker && buf[j + 18] == EndMarker
  }

  /** What one turn of the loop produces: at most one sample, and the remaining buffer. */
  datatype StepResult = StepResult(out: Option<Sample>, rest: seq<Byte>)

  /** What draining a buffer produces: the samples in order, and the bytes kept for later. */
  datatype Drained = Drained(samples: seq<Sample>, rest: seq<Byte>)

  function Emitted(r: Option<Sample>): seq<Sample>
  {
    if r.Some? then [r.value] else []
  }

  /**
   * One turn of the loop on a buffer holding at least one frame's worth of bytes.
   * When the markers are in place, all 19 bytes go whether or not the checksum holds;
   * otherwise exactly one byte goes. A sample comes out only from an aligned window the
   * decoder accepts.
   */
  function Step(buf: seq<Byte>): (r: StepResult)
    requires |buf| >= PacketLength
    ensures |buf| - |r.rest| == if Aligned(buf) then PacketLength else 1
    ensures r.rest == buf[|buf| - |r.rest|..]
    ensures r.out.Some? <==> Aligned(buf) && ParseSensorPacket(buf[..PacketLength]).Some?
    ensures r.out.Some? ==> r.out == ParseSensorPacket(buf[..PacketLength])
  {
    if Aligned(buf) then
      StepResult(ParseSensorPacket(buf[..PacketLength]), buf[PacketLength..])
    else
      StepResult(None, buf[1..])
  }

  /**
   * The loop run to completion: turns are taken until fewer than 19 bytes remain. What
   * is left is shorter than a frame, and every emitted sample accounts for 19 consumed
   * bytes.
   */
  function Drain(buf: seq<Byte>): (d: Drained)
    ensures |d.rest| < PacketLength
    ensures 19 * |d.samples| <= |buf| - |d.rest|
    decreases |buf|
  {
    if |buf| < PacketLength then
      Drained([], buf)
    else
      var s := Step(buf);
      var d := Drain(s.rest);
      Drained(Emitted(s.out) + d.samples, d.rest)
  }

  /**
   * Bytes that arrive later never change what is done with a buffer that already holds
   * a frame's worth: draining `x + b` drains `x` first, then drains what `x` left
   * followed by `b`.
   */
  lemma {:induction false} DrainAppend(x: seq<Byte>, b: seq<Byte>)
    ensures Drain(x + b) == Drained(Drain(x).samples + Drain(Drain(x).rest + b).samples,
                                     Drain(Drain(x).rest + b).rest)
    decreases |x|
  {
    if |x| >= PacketLength {
      var s := Step(x);
      var t := Step(x + b);
      assert t.out == s.out && t.rest == s.rest + b by {
        assert (x + b)[..PacketLength] == x[..PacketLength];
        assert (x + b)[PacketLength..] == x[PacketLength..] + b;
        assert (x + b)[1..] == x[1..] + b;
      }
      DrainAppend(s.rest, b);
      var a := Drain(s.rest);
      var c := Drain(a.rest + b);
      assert Drain(x) == Drained(Emitted(s.out) + a.samples, a.rest);
      assert Drain(x + b) == Drained(Emitted(s.out) + (a.samples + c.samples), c.rest);
      AppendAssoc(Emitted(s.out), a.samples, c.samples);
    } else {
      assert Drain(x) == Drained([], x);
    }
  }

  lemma AppendAssoc<T>(p: seq<T>, q: seq<T>, r: seq<T>)
    ensures p + (q + r) == (p + q) + r
  {
  }

  /**
   * Draining in two installments agrees with draining the whole history: if the history so
   * far drained to `emitted` with `buffer` left over, and `buffer + newBytes` drains to
   * `samples` with `rest` left over, the longer history drains to both sample runs in order.
   */
  lemma DrainHistory(received: seq<Byte>, emitted: seq<Sample>, buffer: seq<Byte>,
                     newBytes: seq<Byte>, samples: seq<Sample>, rest: seq<Byte>)
    requires Drain(received) == Drained(emitted, buffer)
    requires Drain(buffer + newBytes) == Drained(samples, rest)
    ensures Drain(received + newBytes) == Drained(emitted + samples, rest)
  {
    DrainAppend(received, newBytes);
  }

  /** What is left after draining is what remains of the input once its first bytes are gone. */
  lemma {:induction false} DrainRestIsSuffix(buf: seq<Byte>)
    ensures |Drain(buf).rest| <= |buf|
    ensures Drain(buf).rest == buf[|buf| - |Drain(buf).rest|..]
    decreases |buf|
  {
    if |buf| >= PacketLength {
      var s := Step(buf);
      DrainRestIsSuffix(s.rest);
      var r := Drain(s.rest).rest;
      assert buf[|buf| - |r|..] == s.rest[|s.rest| - |r|..];
    }
  }

  /** The concatenation of the chunks of bytes returned by successive reads. */
  function Concat(chunks: seq<seq<Byte>>): seq<Byte>
  {
    if chunks == [] then [] else Concat(chunks[..|chunks| - 1]) + chunks[|chunks| - 1]
  }

  /**
   * The reader's state between reads: the bytes not yet consumed, together with the
   * (ghost) history of every byte received and every sample emitted so far. The
   * invariant says that history is exactly what draining the whole byte stream at once
   * would give, so the way the stream was split into reads does not matter.
   */
  class PacketStream {
    var buffer: seq<Byte>
    ghost var received: seq<Byte>
    ghost var emitted: seq<Sample>

    ghost predicate Valid()
      reads this
    {
      Drain(received) == Drained(emitted, buffer)
    }

    constructor ()
      ensures Valid()
      ensures buffer == [] && received == [] && emitted == []
    {
      buffer := [];
      received := [];
      emitted := [];
    }

    /**
     * Appends the bytes of one read and runs the resynchronising loop until fewer than
     * 19 bytes remain; returns the samples decoded on the way, in stream order.
     */
    method Feed(newBytes: seq<Byte>) returns (samples: seq<Sample>)
      requires Valid()
      modifies this
      ensures Valid()
      ensures |buffer| < PacketLength
      ensures Drained(samples, buffer) == Drain(old(buffer) + newBytes)
      ensures received == old(received) + newBytes
      ensures emitted == old(emitted) + samples
    {
      buffer := buffer + newBytes;
      samples := [];
      while |buffer| >= PacketLength
        invariant Drain(old(buffer) + newBytes)
                  == Drained(samples + Drain(buffer).samples, Drain(buffer).rest)
        invariant received == old(received) && emitted == old(emitted)
        decreases |buffer|
      {
        ghost var before, earlier := buffer, samples;
        if Aligned(buffer) {
          var packet := buffer[..PacketLength];
          var result := ParseSensorPacket(packet);
          if result.Some? {
            samples := samples + [result.value];
          }
          buffer := buffer[PacketLength..];
        } else {
          buffer := buffer[1..];
        }
        ghost var turn := Step(before);
        assert turn.rest == buffer && samples == earlier + Emitted(turn.out);
        assert Drain(before) == Drained(Emitted(turn.out) + Drain(buffer).samples, Drain(buffer).rest);
        AppendAssoc(earlier, Emitted(turn.out), Drain(buffer).samples);
      }
      assert Drain(buffer) == Drained([], buffer);
      assert samples + [] == samples;
      DrainHistory(received, emitted, old(buffer), newBytes, samples, buffer);
      received := received + newBytes;
      emitted := emitted + samples;
    }
  }

  /**
   * The recording loop with the serial port replaced by the list of chunks its reads
   * returned: every chunk is fed in turn. The samples and the leftover partial frame are
   * those of draining all the bytes at once, however the stream was split into chunks.
   */
  method Record(chunks: seq<seq<Byte>>) returns (samples: seq<Sample>, leftover: seq<Byte>)
    ensures Drained(samples, leftover) == Drain(Concat(chunks))
    ensures |leftover| < PacketLength
  {
    var stream := new PacketStream();
    samples := [];
    var i := 0;
    while i < |chunks|
      invariant 0 <= i <= |chunks|
      invariant stream.Valid()
      invariant stream.received == Concat(chunks[..i]) && stream.emitted == samples
    {
      var out := stream.Feed(chunks[i]);
      samples := samples + out;
      assert chunks[..i + 1][..i] == chunks[..i];
      i := i + 1;
    }
    assert chunks[..i] == chunks;
    leftover := stream.buffer;
  }

  /**
   * `starts` are the offsets in `buf` of the windows the samples were decoded from: each
   * window lies in the first `consumed` bytes and decodes to its sample, and the windows
   * follow one another without overlapping.
   */
  ghost predicate Windows(buf: seq<Byte>, samples: seq<Sample>, consumed: nat, starts: seq<nat>)
  {
    && consumed <= |buf|
    && |starts| == |samples|
    && (forall k :: 0 <= k < |starts| ==>
          && starts[k] + PacketLength <= consumed
          && ParseSensorPacket(buf[starts[k]..starts[k] + PacketLength]) == Some(samples[k]))
    && (forall k :: 0 <= k < |starts| - 1 ==> starts[k] + PacketLength <= starts[k + 1])
  }

  /** Windows found in a suffix of `buf` are windows of `buf`, at offsets moved by what was cut off. */
  lemma ShiftWindows(buf: seq<Byte>, n: nat, samples: seq<Sample>, consumed: nat, starts: seq<nat>)
      returns (moved: seq<nat>)
    requires n <= |buf| && Windows(buf[n..], samples, consumed, starts)
    ensures Windows(buf, samples, consumed + n, moved)
    ensures forall k :: 0 <= k < |moved| ==> moved[k] >= n
  {
    moved := seq(|starts|, k requires 0 <= k < |starts| => starts[k] + n);
    forall k | 0 <= k < |moved|
      ensures buf[moved[k]..moved[k] + PacketLength] == buf[n..][starts[k]..starts[k] + PacketLength]
    {
    }
  }

  /** A window at the very front goes before windows that all start a frame length or more in. */
  lemma PrependWindow(buf: seq<Byte>, first: Sample, samples: seq<Sample>, consumed: nat, starts: seq<nat>)
      returns (all: seq<nat>)
    requires Windows(buf, samples, consumed, starts)
    requires forall k :: 0 <= k < |starts| ==> starts[k] >= PacketLength
    requires PacketLength <= consumed && ParseSensorPacket(buf[0..PacketLength]) == Some(first)
    ensures Windows(buf, [first] + samples, consumed, all)
  {
    all := [0] + starts;
    var decoded := [first] + samples;
    forall k | 0 <= k < |all|
      ensures all[k] + PacketLength <= consumed
      ensures ParseSensorPacket(buf[all[k]..all[k] + PacketLength]) == Some(decoded[k])
    {
      if k > 0 {
        assert all[k] == starts[k - 1] && decoded[k] == samples[k - 1];
      }
    }
    forall k | 0 <= k < |all| - 1 ensures all[k] + PacketLength <= all[k + 1] {
      if k > 0 {
        assert all[k] == starts[k - 1] && all[k + 1] == starts[k];
      }
    }
  }

  /**
   * Every emitted sample is the decoding of its own 19-byte window of the input; the
   * windows lie inside the consumed part, do not overlap, and come in the same order as
   * the samples.
   */
  lemma {:induction false} DrainWindows(buf: seq<Byte>) returns (starts: seq<nat>)
    ensures Windows(buf, Drain(buf).samples, |buf| - |Drain(buf).rest|, starts)
    decreases |buf|
  {
    if |buf| < PacketLength {
      starts := [];
    } else {
      var s := Step(buf);
      var n := |buf| - |s.rest|;
      var d := Drain(s.rest);
      assert Drain(buf) == Drained(Emitted(s.out) + d.samples, d.rest);
      var tail := DrainWindows(s.rest);
      assert buf[n..] == s.rest;
      var moved := ShiftWindows(buf, n, d.samples, |s.rest| - |d.rest|, tail);
      if s.out.Some? {
        assert buf[0..PacketLength] == buf[..PacketLength];
        starts := PrependWindow(buf, s.out.value, d.samples, |buf| - |d.rest|, moved);
      } else {
        starts := moved;
      }
    }
  }

  /**
   * Resynchronisation: bytes in front of the stream at none of whose positions a frame's
   * markers line up are dropped one at a time, and the stream then proceeds as if they
   * had never arrived.
   */
  lemma {:induction false} SkipGarbage(g: seq<Byte>, s: seq<Byte>)
    requires |s| >= PacketLength
    requires forall j :: 0 <= j < |g| ==> !AlignedAt(g + s, j)
    ensures Drain(g + s) == Drain(s)
    decreases |g|
  {
    if g != [] {
      assert !AlignedAt(g + s, 0);
      assert (g + s)[1..] == g[1..] + s;
      assert Step(g + s) == StepResult(None, g[1..] + s);
      forall j | 0 <= j < |g[1..]| ensures !AlignedAt(g[1..] + s, j) {
        assert !AlignedAt(g + s, j + 1);
      }
      SkipGarbage(g[1..], s);
    } else {
      assert g + s == s;
    }
  }

  /** The samples a list of valid frames decodes to, in order. */
  function Decoded(frames: seq<seq<Byte>>): (samples: seq<Sample>)
    requires forall i :: 0 <= i < |frames| ==> ParseSensorPacket(frames[i]).Some?
    ensures |samples| == |frames|
  {
    if frames == [] then []
    else Decoded(frames[..|frames| - 1]) + [ParseSensorPacket(frames[|frames| - 1]).value]
  }

  /** Frames sent back to back come out as one sample each, in order, with nothing left over. */
  lemma {:induction false} DrainFrames(frames: seq<seq<Byte>>)
    requires forall i :: 0 <= i < |frames| ==> ParseSensorPacket(frames[i]).Some?
    ensures Drain(Concat(frames)) == Drained(Decoded(frames), [])
    decreases |frames|
  {
    if frames == [] {
      assert Concat(frames) == [];
    } else {
      var init := frames[..|frames| - 1];
      var last := frames[|frames| - 1];
      DrainFrames(init);
      assert Concat(frames) == Concat(init) + last;
      DrainAppend(Concat(init), last);
      assert [] + last == last;
      assert Drain(last) == Drained([ParseSensorPacket(last).value], []) by {
        assert last[PacketLength..] == [];
        assert last[..PacketLength] == last;
        assert Drain(last[PacketLength..]) == Drained([], []);
      }
    }
  }

  /**
   * Garbage followed by one valid frame gives exactly that frame's sample and an empty
   * buffer, provided no garbage position lines up a false pair of markers.
   */
  lemma ResyncAfterGarbage(g: seq<Byte>, f: seq<Byte>)
    requires ParseSensorPacket(f).Some?
    requires forall j :: 0 <= j < |g| ==> !AlignedAt(g + f, j)
    ensures Drain(g + f) == Drained([ParseSensorPacket(f).value], [])
  {
    SkipGarbage(g, f);
    assert f[PacketLength..] == [] && f[..PacketLength] == f;
  }

  /**
   * A valid frame that starts one byte into an aligned window whose checksum fails is
   * lost: the failed window takes all 19 bytes with it, including 18 of the frame's.
   * Here the frame carries 0xAF as its checksum, which puts an end marker at offset 18
   * of the window that starts one byte earlier.
   */
  lemma HiddenFrameIsLost()
    ensures var f := [StartMarker, EndMarker] + seq(15, i => 0) + [EndMarker, EndMarker];
            && ParseSensorPacket(f).Some?
            && Drain([StartMarker] + f) == Drained([], [EndMarker])
  {
    var z: seq<Byte> := seq(15, i => 0);
    var f := [StartMarker, EndMarker] + z + [EndMarker, EndMarker];
    AllZeroSum(z);
    assert f[1..17] == [EndMarker] + z;
    SumCons(EndMarker, z);
    assert ParseSensorPacket(f).Some?;

    var buf := [StartMarker] + f;
    var w := buf[..PacketLength];
    AllZeroSum(z[..14]);
    assert w[1..17] == f[..16];
    assert f[..16] == [StartMarker, EndMarker] + z[..14];
    assert [StartMarker, EndMarker] + z[..14] == [StartMarker] + ([EndMarker] + z[..14]);
    SumCons(EndMarker, z[..14]);
    SumCons(StartMarker, [EndMarker] + z[..14]);
    assert w[17] == 0;
    assert ParseSensorPacket(w) == None;
    assert buf[PacketLength..] == [EndMarker];
    assert Step(buf) == StepResult(None, [EndMarker]);
  }
}
