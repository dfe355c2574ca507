/**
 * The link to the device, seen as an append-only log of the messages sent
 * on it, and the shape of the traffic the consumer produces: per frame, one
 * header message followed by the line messages in order, all under the image
 * sprite block message id 0x20.
 */
module Transport {

  import opened Palette

  /** Message id under which every image sprite block message is sent. */
  const ISB_MESSAGE_ID: Byte := 0x20

  type Bytes = seq<Byte>

  /** One encoded frame: the packed sprite block header and the packed line sprites, in order. */
  datatype Packets = Packets(header: Bytes, lines: seq<Bytes>)

  /** What a message carries: the block header, or the line sprite with the given index. */
  datatype Part = Header(payload: Bytes) | Line(index: nat, payload: Bytes)

  /**
   * One `send_message` call: its tag and payload. `frameNo` is the sender's
   * count of frames already sent when the message went out; it is
   * bookkeeping of this model and is not on the wire.
   */
  datatype Message = Message(tag: Byte, frameNo: nat, part: Part)

  /** The connected device; `log` holds every message sent to it, oldest first. */
  class Device {
    var log: seq<Message>

    constructor ()
      ensures log == []
    {
      log := [];
    }

    /** `send_message(tag, payload)`: awaited, so it is in the log before the next send starts. */
    method SendMessage(tag: Byte, frameNo: nat, part: Part)
      modifies this
      ensures log == old(log) + [Message(tag, frameNo, part)]
    {
      log := log + [Message(tag, frameNo, part)];
    }
  }

  /** The line messages of frame n, in list order. */
  function LineMessages(n: nat, lines: seq<Bytes>): seq<Message>
  {
    seq(|lines|, j requires 0 <= j < |lines| => Message(ISB_MESSAGE_ID, n, Line(j, lines[j])))
  }

  /** Everything sent for frame n: the header, then every line. */
  function FrameBlock(n: nat, p: Packets): seq<Message>
  {
    [Message(ISB_MESSAGE_ID, n, Header(p.header))] + LineMessages(n, p.lines)
  }

  /** The traffic for the frames `fs`, sent one after the other and numbered from 0. */
  function Transmission<F>(fs: seq<F>, encode: F -> Packets): seq<Message>
    decreases |fs|
  {
    if fs == [] then []
    else
      var n := |fs| - 1;
      Transmission(fs[..n], encode) + FrameBlock(n, encode(fs[n]))
  }

  /** `m` may directly follow `prev`: a header opens the next frame, a line continues the current one. */
  predicate Follows(prev: Message, m: Message)
  {
    match m.part
    case Header(_) => m.frameNo == prev.frameNo + 1
    case Line(k, _) =>
      m.frameNo == prev.frameNo && k == (if prev.part.Header? then 0 else prev.part.index + 1)
  }

  /**
   * The ordering rules of the link: every message is tagged 0x20, the first
   * is the header of frame 0, each frame's messages are contiguous (no
   * interleaving), a header precedes its frame's lines and the lines come
   * with consecutive indices from 0.
   */
  ghost predicate WellFramed(log: seq<Message>)
  {
    && (forall i :: 0 <= i < |log| ==> log[i].tag == ISB_MESSAGE_ID)
    && (|log| > 0 ==> log[0].frameNo == 0 && log[0].part.Header?)
    && (forall i :: 0 < i < |log| ==> Follows(log[i - 1], log[i]))
  }

  /** The traffic of any run of frames obeys the ordering rules, and its last message belongs to the last frame. */
  lemma {:induction false} TransmissionWellFramed<F>(fs: seq<F>, encode: F -> Packets)
    ensures WellFramed(Transmission(fs, encode))
    ensures |Transmission(fs, encode)| == 0 <==> fs == []
    ensures fs != [] ==> Transmission(fs, encode)[|Transmission(fs, encode)| - 1].frameNo == |fs| - 1
    decreases |fs|
  {
    if fs != [] {
      var n := |fs| - 1;
      var before := Transmission(fs[..n], encode);
      var block := FrameBlock(n, encode(fs[n]));
      TransmissionWellFramed(fs[..n], encode);
      var log := before + block;
      assert log == Transmission(fs, encode);
      forall i | 0 < i < |log|
        ensures Follows(log[i - 1], log[i])
      {
        if i > |before| {
          assert log[i] == block[i - |before|] && log[i - 1] == block[i - 1 - |before|];
        }
      }
    }
  }

  /**
   * What the device-side runtime rebuilds from the messages it receives: a
   * header opens a new sprite, a line is appended to the sprite being
   * assembled (a line with no sprite open is dropped).
   */
  function Reassemble(log: seq<Message>): seq<Packets>
    decreases |log|
  {
    if log == [] then []
    else
      var n := |log| - 1;
      var sprites := Reassemble(log[..n]);
      match log[n].part
      case Header(h) => sprites + [Packets(h, [])]
      case Line(_, l) =>
        if sprites == [] then sprites
        else
          var open := sprites[|sprites| - 1];
          sprites[..|sprites| - 1] + [Packets(open.header, open.lines + [l])]
  }

  /** The encoded packets of each frame, in order. */
  function EncodeAll<F>(fs: seq<F>, encode: F -> Packets): seq<Packets>
  {
    seq(|fs|, i requires 0 <= i < |fs| => encode(fs[i]))
  }

  lemma EncodeAllSnoc<F>(fs: seq<F>, encode: F -> Packets)
    requires fs != []
    ensures EncodeAll(fs, encode) == EncodeAll(fs[..|fs| - 1], encode) + [encode(fs[|fs| - 1])]
  {
  }

  /**
   * Round trip: the device rebuilds, in order, exactly the encoded packets of
   * every frame sent; no frame is lost, split, merged or reordered.
   */
  lemma {:induction false} ReassembleTransmission<F>(fs: seq<F>, encode: F -> Packets)
    ensures Reassemble(Transmission(fs, encode)) == EncodeAll(fs, encode)
    decreases |fs|
  {
    if fs != [] {
      var n := |fs| - 1;
      ReassembleTransmission(fs[..n], encode);
      var p := encode(fs[n]);
      ReassembleBlock(Transmission(fs[..n], encode), n, p, |p.lines|);
      assert p.lines[..|p.lines|] == p.lines;
      var before := Transmission(fs[..n], encode);
      var hdr := Message(ISB_MESSAGE_ID, n, Header(p.header));
      assert Transmission(fs, encode) == before + [hdr] + LineMessages(n, p.lines[..|p.lines|]);
      assert Reassemble(Transmission(fs, encode)) == Reassemble(before) + [p];
      EncodeAllSnoc(fs, encode);
    }
  }

  /** After a header and its first j lines, the last rebuilt sprite holds the header and those j lines. */
  lemma {:induction false} ReassembleBlock(before: seq<Message>, n: nat, p: Packets, j: nat)
    requires j <= |p.lines|
    ensures Reassemble(before + [Message(ISB_MESSAGE_ID, n, Header(p.header))] + LineMessages(n, p.lines[..j]))
      == Reassemble(before) + [Packets(p.header, p.lines[..j])]
    decreases j
  {
    var hdr := Message(ISB_MESSAGE_ID, n, Header(p.header));
    if j == 0 {
      assert LineMessages(n, p.lines[..0]) == [];
      assert (before + [hdr] + [])[..|before|] == before;
    } else {
      ReassembleBlock(before, n, p, j - 1);
      LineMessagesSnoc(n, p.lines[..j]);
      assert p.lines[..j][..j - 1] == p.lines[..j - 1];
      var shorter := before + [hdr] + LineMessages(n, p.lines[..j - 1]);
      var line := Message(ISB_MESSAGE_ID, n, Line(j - 1, p.lines[j - 1]));
      var log := shorter + [line];
      assert log == before + [hdr] + LineMessages(n, p.lines[..j]);
      ReassembleLine(shorter, line);
      assert p.lines[..j - 1] + [p.lines[j - 1]] == p.lines[..j];
    }
  }

  /** A line message extends the sprite being assembled. */
  lemma ReassembleLine(log: seq<Message>, m: Message)
    requires m.part.Line? && Reassemble(log) != []
    ensures var sprites := Reassemble(log);
      var open := sprites[|sprites| - 1];
      Reassemble(log + [m]) == sprites[..|sprites| - 1] + [Packets(open.header, open.lines + [m.part.payload])]
  {
    assert (log + [m])[..|log|] == log;
  }

  /** The line messages of a list are those of all but its last line, then the last line's. */
  lemma LineMessagesSnoc(n: nat, lines: seq<Bytes>)
    requires lines != []
    ensures LineMessages(n, lines) == LineMessages(n, lines[..|lines| - 1])
      + [Message(ISB_MESSAGE_ID, n, Line(|lines| - 1, lines[|lines| - 1]))]
  {
  }

  /**
   * Frame k's block, header first and every line after it, sits whole and
   * uninterrupted right after the traffic of frames 0 .. k - 1.
   */
  lemma {:induction false} TransmissionPrefix<F>(fs: seq<F>, encode: F -> Packets, k: nat)
    requires k < |fs|
    ensures Transmission(fs[..k], encode) + FrameBlock(k, encode(fs[k])) <= Transmission(fs, encode)
    decreases |fs|
  {
    var n := |fs| - 1;
    assert fs[..n + 1] == fs;
    if k < n {
      TransmissionPrefix(fs[..n], encode, k);
      assert fs[..n][..k] == fs[..k];
    } else {
      assert fs[..k + 1][..k] == fs[..k];
    }
  }
}
