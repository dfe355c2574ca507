# FinalStreamer frame pipeline, modelled in Dafny

`frame_video_streamer.py` streams a video file to a Frame display device. Its
`FinalStreamer` class runs two loops that share a queue and a `running` flag:

- the **producer** (`_frame_producer`) opens the video and reads its frame rate. It
  computes the decimation stride `max(1, round(source_fps / fps_limit))`, using 30
  when the video reports no rate. It queues every frame whose ordinal is a multiple
  of the stride, and then one `None` end marker;
- the **consumer** (`_frame_consumer`) takes queue items in order and stops at the
  first `None`, clearing `running`. It encodes every other item as an image sprite
  block. It sends the block's header message, then each line message, all with message
  id `0x20`, and then counts the frame as sent.

The palette handed to the encoder is fixed: four gray levels serialised as 12 bytes.

The model has five modules:

- `Palette` (`palette.dfy`): the four-colour palette and its `uint8` byte layout.
- `Stride` (`stride.dfy`): the source rate as an exact rational `Rate(num, den)`,
  Python's round-half-to-even on rationals, and the stride, including the
  `ZeroDivisionError` for a target rate of 0.
- `Decimation` (`decimation.dfy`): `Kept(frames, step)`, the frames the producer
  forwards, and lemmas that pin down which frames these are and how many.
- `Transport` (`transport.dfy`): the device as a `Device` class with an append-only
  `log` of messages. `Transmission(fs, encode)` is the traffic for a run of frames.
  `WellFramed` gives the ordering rules of the link. `Reassemble` is what the device
  side rebuilds from the traffic.
- `Streamer` (`streamer.dfy`): the class `FinalStreamer<F>`, over an opaque frame
  type `F`. It has the `running` flag, the queue as a `seq` field, and `Produce`,
  `Consume` and `Stream` as methods with `while` loops. Each method's postcondition
  ties the queue and the device log to the functions above.

## Model

| member | source | states |
|---|---|---|
| `Palette.ToUint8` | frame_video_streamer.py:36 | The cast to `uint8` leaves values 0..255 unchanged and otherwise keeps the value modulo 256. |
| `Palette.TriplesToBytes` | frame_video_streamer.py:36 | Serialising n RGB triples gives 3n bytes. Byte 3i+c is channel c of triple i, cast to `uint8`. |
| `Palette.PaletteBytesAreGrayLevels` | frame_video_streamer.py:24-36 | `palette_bytes` is exactly 12 bytes: 0,0,0, 85,85,85, 170,170,170, 255,255,255. Byte j is the gray level 85·(j/3). |
| `Stride.RoundHalfEven` | frame_video_streamer.py:85 | `round` of p/q is within half a step of p/q. When p/q lies exactly halfway, the result is even. |
| `Stride.RoundHalfEvenUnique` | frame_video_streamer.py:85 | Any integer that is nearest to p/q, with ties going to the even one, equals `RoundHalfEven(p, q)`. So the contract fully determines `round`. |
| `Stride.Quotient` | frame_video_streamer.py:85 | `source_fps / fps_limit` is written as p/q with q > 0 and p/q equal to the true quotient, for either sign of the target rate. |
| `Stride.RoundedAtMostOne` | frame_video_streamer.py:85 | The rounded ratio is at most 1 exactly when the ratio is below 3/2. So `max(1, ·)` changes the result only in that case. |
| `Stride.FrameStep` | frame_video_streamer.py:84-85 | A target rate of 0 raises ZeroDivisionError, and only that rate does. Otherwise the stride is ≥ 1 and is 1 exactly when the rate ratio is below 3/2. Above that, it is the nearest integer to the ratio, ties to even. A reported rate of 0 is replaced by 30 first. |
| `Stride.MissingRateDefaultsTo30` | frame_video_streamer.py:84 | A source reporting rate 0 gets the stride of a 30-fps source, for every target rate. |
| `Stride.StrideExamples` | frame_video_streamer.py:84-85 | Worked strides: 30→14 gives 2, 25→10 (tie 2.5) gives 2, 35→10 (tie 3.5) gives 4, 29.97→14 gives 2, 5→14 gives 1, a negative target gives 1, and rate 0→15 gives 2. |
| `Decimation.CeilDiv` | frame_video_streamer.py:87-95 | The result c is the ceiling of n/d: n ≤ c·d < n + d. |
| `Decimation.CeilDivStep` | frame_video_streamer.py:91-95 | Reading one more frame raises the forwarded count by one exactly when that frame's ordinal is a multiple of the stride. |
| `Decimation.KeptLength` | frame_video_streamer.py:87-95 | Of N frames read, exactly ceil(N / stride) are forwarded. |
| `Decimation.KeptAt` | frame_video_streamer.py:91-94 | The k-th forwarded frame is source frame k·stride. Every forwarded frame has an ordinal that is a multiple of the stride, and forwarded frames stay in source order. |
| `Decimation.ForwardedWhenMultiple` | frame_video_streamer.py:91-94 | Every source frame whose ordinal n is a multiple of the stride is forwarded, at position n / stride. This is the converse of KeptAt. |
| `Decimation.AlternatingSourceAtHalfRate` | frame_video_streamer.py:84-95 | A 60-frame, 30-fps source at a target of 15 has stride 2 and forwards 30 frames, all with even ordinals. So a source alternating black and white forwards only black frames. |
| `Transport.Device.SendMessage` | frame_video_streamer.py:120-122 | An awaited send appends exactly one message to the device log. |
| `Transport.TransmissionWellFramed` | frame_video_streamer.py:120-124 | The traffic for any run of frames is well framed. Every message is tagged 0x20, and frame 0's header comes first. Each frame's messages are contiguous and start with its header. Its lines follow with indices 0, 1, 2, … The last message belongs to the last frame. |
| `Transport.ReassembleBlock` | frame_video_streamer.py:120-122 | A header followed by its first j lines rebuilds one sprite holding that header and exactly those j lines, in order. |
| `Transport.ReassembleTransmission` | frame_video_streamer.py:120-124 | Round trip: the device side rebuilds, in order, exactly the encoded packets of every frame sent. No frame is lost, split, merged or reordered. |
| `Transport.TransmissionPrefix` | frame_video_streamer.py:120-124 | Frame k's header and all its lines sit, uninterrupted, right after the traffic of frames 0..k-1. |
| `Streamer.EndIndex` | frame_video_streamer.py:103-105 | The consumer stops at the first end marker in the queue. Every item before it is a frame. |
| `Streamer.FramesBeforeEnd` | frame_video_streamer.py:94-105 | The consumer reads back, from what the producer queued, exactly the forwarded frames, ending at the producer's single end marker. |
| `Streamer.DeliveredFrames` | frame_video_streamer.py:87-124 | For a stream with stride s, the device rebuilds ceil(N/s) sprites, and the k-th is the encoding of source frame k·s. The traffic is well framed. |
| `Streamer.FinalStreamer.constructor` | frame_video_streamer.py:29-36 | A new streamer is not running, and its `palette_bytes` is the 12-byte palette. |
| `Streamer.FinalStreamer.Produce` | frame_video_streamer.py:77-97 | If the video cannot be opened, `running` is cleared and nothing is queued, not even the end marker. A target rate of 0 raises before anything is queued. Otherwise the producer queues the forwarded frames in order, then exactly one end marker as the last item. With `running` set it reads all N frames (`frame_number` ends at N). With `running` clear it queues only the marker. |
| `Streamer.FinalStreamer.Consume` | frame_video_streamer.py:99-129 | With `running` clear, nothing happens. Otherwise the consumer takes items up to and including the first end marker, clears `running` and leaves everything after that marker in the queue. `sent_frames` equals the number of frames before the marker. The device log gains exactly the header-then-lines traffic of those frames, in queue order. |
| `Streamer.FinalStreamer.Stream` | frame_video_streamer.py:152-156 | Producer then consumer on a fresh queue. If the video opens and the target rate is nonzero, the device log gains the traffic of the forwarded frames, `sent_frames` equals their number, and `running` ends clear. If the video does not open, nothing is sent. A target rate of 0 sends nothing and leaves `running` set. |

## Behaviour of the code worth knowing

- The stride rule does not resample. At 30 fps with a target of 14 the stride is 2,
  so about 15 frames per second are sent. A 60-frame source alternating black and
  white, streamed at a target of 15, yields 30 frames that are all black
  (`Decimation.AlternatingSourceAtHalfRate`), not alternating ones.
- A target rate of 0 makes `source_fps / self.fps_limit` raise `ZeroDivisionError`
  inside the producer, before anything is queued. `stream` catches it, so no frame is
  sent, and `running` is left set: no code path clears the flag on an exception.
- The messages on the wire carry only the tag 0x20 and the packed payload. The model's
  `Message.frameNo` and the header/line labels are added bookkeeping. The device
  tells header from line by the payload.

## Left out

- asyncio scheduling: task creation, `gather`, the blocking of the bounded
  `asyncio.Queue(maxsize=4)` and `task_done` are not modelled. The queue is an
  unbounded `seq`, and the producer runs to completion before the consumer starts.
  This is the order the consumer sees items in, but capacity and suspension are not
  represented.
- Video decoding: `cv2.VideoCapture`, its reads, the BGR→gray conversion and
  `release` are foreign calls. The video is a parameter: `None` when it cannot be
  opened, otherwise the sequence of frames it yields before a read fails. Frames are
  an opaque type and stand for the already converted gray frames.
- Image processing and sprite packing: the PIL resize, RGB conversion and
  quantisation, and the `TxSprite` / `TxImageSpriteBlock` packing are code that is not
  part of this model. They are folded into an `encode` parameter that maps a frame
  to a header payload and a list of line payloads. `encode` is assumed never to raise.
- Transport failures: `send_message` always succeeds. Connection, disconnection and
  the exception handling in `stream` are not modelled.
- Floating point: the reported frame rate is taken as the exact rational it denotes.
  The rounding of the float division `source_fps / fps_limit` itself is not modelled.
  It can only matter when that quotient lies within one rounding error of a .5 tie.
- Throughput reporting (wall-clock time, the printed FPS), the Lua app upload and the
  command-line handling in `main` are I/O only and are left out.
- Streamer.FinalStreamer.Produce: `running` is modelled as fixed for the whole read
  loop. Nothing in the code clears it while the producer runs, so only a flag that
  is already clear on entry is covered.
- Streamer.FinalStreamer.Consume: requires that, when `running` is set, the queue
  holds an end marker. Without one the code waits on `queue.get()` forever, which a
  terminating method cannot express.
