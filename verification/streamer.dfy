/**
 * FinalStreamer's pipeline: the producer reads the video and queues every
 * stride-th frame followed by one end marker; the consumer takes queue items
 * in order and, for each frame, sends its header and then its lines before
 * counting it as sent. The two run here one after the other, the consumer on
 * what the producer queued.
 */
module Streamer {

  import opened Stride
  import opened Decimation
  import opened Palette
  import opened Transport

  datatype Option<T> = None | Some(value: T)

  /** A queue entry: a grayscale frame, or the `None` that ends the stream. */
  datatype Item<F> = Frame(frame: F) | EndOfStream

  /** How the producer ended: the video did not open, the stride raised ZeroDivisionError, or it read `frameCount` frames. */
  datatype ProducerStatus = NotOpened | DivisionByZero | Finished(frameCount: nat)

  /** The frames `fs` as queue entries. */
  function AsItems<F>(fs: seq<F>): seq<Item<F>>
  {
    seq(|fs|, i requires 0 <= i < |fs| => Frame(fs[i]))
  }

  lemma AsItemsSnoc<F>(fs: seq<F>, f: F)
    ensures AsItems(fs + [f]) == AsItems(fs) + [Frame(f)]
  {
  }

  /** The position of the first end marker in `q`, or |q| if there is none. */
  function EndIndex<F>(q: seq<Item<F>>): (e: nat)
    ensures e <= |q|
    ensures e < |q| ==> q[e].EndOfStream?
    ensures forall i :: 0 <= i < e ==> q[i].Frame?
    decreases |q|
  {
    if q == [] then 0
    else if q[0].EndOfStream? then 0
    else 1 + EndIndex(q[1..])
  }

  /** The frames queued ahead of the first end marker, in queue order. */
  function FramesBefore<F>(q: seq<Item<F>>): seq<F>
  {
    var e := EndIndex(q);
    seq(e, i requires 0 <= i < e => q[i].frame)
  }

  /** What the producer queues is read back by the consumer as exactly the forwarded frames. */
  lemma {:induction false} FramesBeforeEnd<F>(fs: seq<F>)
    ensures EndIndex(AsItems(fs) + [EndOfStream]) == |fs|
    ensures FramesBefore(AsItems(fs) + [EndOfStream]) == fs
    decreases |fs|
  {
    var q := AsItems(fs) + [EndOfStream];
    if fs != [] {
      FramesBeforeEnd(fs[1..]);
      assert q[1..] == AsItems(fs[1..]) + [EndOfStream];
    }
  }

  /**
   * End to end, for a session that streams `frames` with stride `step`: the
   * device rebuilds ceil(|frames| / step) sprites, the k-th being the
   * encoding of source frame k * step, and the traffic obeys the link's
   * ordering rules.
   */
  lemma DeliveredFrames<F>(frames: seq<F>, step: PosInt, encode: F -> Packets)
    ensures var sent := Transmission(Kept(frames, step), encode);
      && WellFramed(sent)
      && |Reassemble(sent)| == CeilDiv(|frames|, step)
      && forall k :: 0 <= k < |Reassemble(sent)| ==>
           k * step < |frames| && Reassemble(sent)[k] == encode(frames[k * step])
  {
    var kept := Kept(frames, step);
    TransmissionWellFramed(kept, encode);
    ReassembleTransmission(kept, encode);
    KeptLength(frames, step);
    KeptAt(frames, step);
  }

  class FinalStreamer<F> {
    /** Target frame rate (`fps_limit`). */
    const fpsLimit: int
    /** `palette_bytes`, computed once at construction. */
    const paletteBytes: seq<Byte>
    /** The device connection (`self.frame`). */
    const device: Device
    /** The shared flag both loops poll. */
    var running: bool
    /** The queue between producer and consumer, front first. */
    var queue: seq<Item<F>>

    constructor (fpsLimit: int, device: Device)
      ensures this.fpsLimit == fpsLimit && this.device == device
      ensures !running && queue == []
      ensures paletteBytes == PaletteBytes() && |paletteBytes| == 12
    {
      this.fpsLimit := fpsLimit;
      this.device := device;
      running := false;
      queue := [];
      paletteBytes := PaletteBytes();
      PaletteBytesAreGrayLevels();
    }

    /**
     * `_frame_producer`. `source` is None when the video cannot be opened and
     * otherwise the frames it yields before a read fails; `sourceFps` is the
     * rate it reports.
     */
    method Produce(source: Option<seq<F>>, sourceFps: Rate) returns (status: ProducerStatus)
      modifies this
      ensures source.None? ==> status == NotOpened && !running && queue == old(queue)
      ensures source.Some? && fpsLimit == 0 ==>
        status == DivisionByZero && running == old(running) && queue == old(queue)
      ensures source.Some? && fpsLimit != 0 ==>
        var step := FrameStep(sourceFps, fpsLimit).stride;
        && running == old(running)
        && status == Finished(if old(running) then |source.value| else 0)
        && queue == old(queue) + AsItems(if old(running) then Kept(source.value, step) else []) + [EndOfStream]
    {
      if source.None? {
        running := false;
        return NotOpened;
      }
      var frames := source.value;
      var stepResult := FrameStep(sourceFps, fpsLimit);
      if stepResult.ZeroDivision? {
        return DivisionByZero;
      }
      var frameStep := stepResult.stride;
      var frameNumber := 0;
      while running
        invariant frameNumber <= |frames|
        invariant running == old(running)
        invariant !running ==> frameNumber == 0
        invariant queue == old(queue) + AsItems(Kept(frames[..frameNumber], frameStep))
        decreases |frames| - frameNumber
      {
        if frameNumber == |frames| {
          // the read reports no frame
          break;
        }
        var frameData := frames[frameNumber];
        assert frames[..frameNumber + 1][..frameNumber] == frames[..frameNumber];
        if frameNumber % frameStep == 0 {
          AsItemsSnoc(Kept(frames[..frameNumber], frameStep), frameData);
          queue := queue + [Frame(frameData)];
        }
        frameNumber := frameNumber + 1;
      }
      assert frames[..|frames|] == frames;
      queue := queue + [EndOfStream];
      status := Finished(frameNumber);
    }

    /**
     * `_frame_consumer`. `encode` stands for the resize, quantisation and
     * sprite packing of one frame. Returns `sent_frames`.
     */
    method Consume(encode: F -> Packets) returns (sentFrames: nat)
      requires running ==> EndIndex(queue) < |queue|
      modifies this, device
      ensures !old(running) ==>
        sentFrames == 0 && !running && queue == old(queue) && device.log == old(device.log)
      ensures old(running) ==>
        var e := EndIndex(old(queue));
        && !running
        && queue == old(queue)[e + 1..]
        && sentFrames == e
        && device.log == old(device.log) + Transmission(FramesBefore(old(queue)), encode)
    {
      ghost var e := EndIndex(queue);
      ghost var frames := FramesBefore(queue);
      sentFrames := 0;
      while running
        invariant running == old(running)
        invariant running ==> sentFrames <= e < |old(queue)|
        invariant !running ==> sentFrames == 0
        invariant queue == old(queue)[sentFrames..]
        invariant device.log == old(device.log) + Transmission(frames[..sentFrames], encode)
        decreases |queue|
      {
        var grayFrameData := queue[0];
        queue := queue[1..];
        if grayFrameData.EndOfStream? {
          assert sentFrames == e;
          running := false;
          break;
        }
        var packets := encode(grayFrameData.frame);
        ghost var logBefore := device.log;
        device.SendMessage(ISB_MESSAGE_ID, sentFrames, Header(packets.header));
        for i := 0 to |packets.lines|
          invariant device.log == logBefore + [Message(ISB_MESSAGE_ID, sentFrames, Header(packets.header))]
                                             + LineMessages(sentFrames, packets.lines[..i])
          modifies device
        {
          LineMessagesSnoc(sentFrames, packets.lines[..i + 1]);
          assert packets.lines[..i + 1][..i] == packets.lines[..i];
          device.SendMessage(ISB_MESSAGE_ID, sentFrames, Line(i, packets.lines[i]));
        }
        assert packets.lines[..|packets.lines|] == packets.lines;
        assert frames[..sentFrames + 1][..sentFrames] == frames[..sentFrames];
        sentFrames := sentFrames + 1;
      }
      assert frames[..sentFrames] == frames || !old(running);
    }

    /**
     * The streaming part of `stream`: a fresh queue, `running` set, then the
     * producer and the consumer. An exception from the producer ends the
     * session before the consumer handles anything.
     */
    method Stream(source: Option<seq<F>>, sourceFps: Rate, encode: F -> Packets)
      returns (status: ProducerStatus, sentFrames: nat)
      modifies this, device
      ensures status == (if source.None? then NotOpened
                         else if fpsLimit == 0 then DivisionByZero
                         else Finished(|source.value|))
      ensures !status.Finished? ==>
        sentFrames == 0 && device.log == old(device.log) && queue == [] && (running <==> status.DivisionByZero?)
      ensures status.Finished? ==>
        var forwarded := Kept(source.value, FrameStep(sourceFps, fpsLimit).stride);
        && !running && queue == []
        && sentFrames == |forwarded|
        && device.log == old(device.log) + Transmission(forwarded, encode)
    {
      queue := [];
      running := true;
      status := Produce(source, sourceFps);
      sentFrames := 0;
      if status.DivisionByZero? {
        return;
      }
      if status.Finished? {
        var forwarded := Kept(source.value, FrameStep(sourceFps, fpsLimit).stride);
        FramesBeforeEnd(forwarded);
        assert queue == AsItems(forwarded) + [EndOfStream];
      }
      sentFrames := Consume(encode);
    }
  }
}
