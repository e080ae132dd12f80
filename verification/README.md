# Verified model of the irobot core

irobot mirrors an Android device: it receives the device's video over one socket, decodes, shows and
records it, and sends control messages over another socket, on which the device answers. This project
models the logic of that core in Dafny and proves what it keeps, over all inputs and all thread
interleavings.

One module per component:

- **Video path.** `Streaming` is the receive loop: framing, and the merging of config packets into the next
  data packet. `Recording` is the recorder object with what each of its critical sections does and what a
  whole recording is; `RecorderThread` is the recorder's two threads as a state machine. `Pipeline` joins
  the stream to the recorder. `VideoBuffering` is the double buffer, `FrameHandOff` the state machine of the
  decoder, the event queue, the user interface thread and an interrupting thread around it. `FpsCounting` is
  the frame rate counter, `FpsCounterThread` its start and stop protocol.
- **Control path.** `ControlMessages` is the binary encoder, with a decoder written from the layout and the
  proof that the two fit; `Utf8` is the truncation of texts. `RingBuffers` and `Controlling` are the bounded
  queue and the controller object, `ControllerThread` the threads around them, `Net` the sending loop.
  `DeviceMessages` is the incremental parser of the other direction, `ReceiverLoop` the loop around it.
- **Buffers, strings, window.** `BufferUtil`, `IntrusiveQueue`, `CStrings`, `StrJoin`, `StrReplace`,
  `CommandLine`; `WindowFit` is the arithmetic of fitting the window to the frame, `Windows` the screen object and
  its modes; `Common` and `Packets` hold shared types and sequence lemmas.

How it is built. Objects whose methods update fields are classes; each method is tied to a function on the
object's `View()` (or its abstract contents). Those same functions are the steps of the state machines, so
what is proved over all runs of a machine is about the code of the methods. In a machine each section that
holds a mutex is one step, and a step also separates what is done at an unlock, a wait and a signal.
A waiting thread may wake up spuriously. A run is a list of actions, each enabled where it is taken.

What the world answers is a parameter: `io` is the outcome of a muxer call, `memory` that of an allocation, `answers(i)` are the memory and the
answers of its peers that the stream meets at its i-th packet, `accepted(i)` is how much the socket takes at the i-th call (nothing is an
error), `now` is SDL's clock, `display` the usable bounds SDL reports, if any, and `restored` the size SDL gives
back to a maximized window.

## Where the code does not do what its comments or its callers expect

These were proved of the code as it is; nothing was corrected in the model.

- **The receiver loses messages cut by a read.** The loop moves the unconsumed tail to the start of the buffer
  and adjusts `head`, but the next read overwrites the buffer from its start and only that read is parsed
  (src/android/receiver.cpp:76-93). `ReceiverLoop.SplitMessageIsLost` is a four-byte case. Along a series of reads
  without error, the loop is right whatever the network may deliver next, at each of them, exactly when every read
  is made of whole messages (`ReceiverLoop.RightThroughoutIffWholeReads`).
- **`net_send_all` returns the size of the last chunk.** `Net.Socket.SendAll`: the result is the length exactly when
  the first call took everything. The controller compares it with the length and ends its thread otherwise, so
  a message sent whole in two chunks ends it (src/core/controller.cpp:64-66; `Controlling.Controller.ProcessMessage`).
- **An event that SDL does not queue freezes the display.** `PushFrame` ignores the result of `SDL_PushEvent`.
  `FrameHandOff.OnlyALostEventFreezes` and `FrameHandOff.FrozenForever`: no run that queues its events is ever
  frozen, one lost event is enough, and then no picture is consumed any more.
- **Starting the frame rate counter can leave its thread asleep.** The flag is set and signalled outside the
  mutex. `FpsCounterThread.StartCanBeLost` is such a run, `FpsCounterThread.StartWakesUnlessDeciding` the exact
  condition. Interrupting sets its flag inside the mutex and is never lost.
- **Fitting the window to the frame is not idempotent.** A second fit changes nothing exactly when the division made
  by the first leaves no remainder (`WindowFit.IdempotentIffEven`). The fit is unchanged only on sizes of exactly the
  frame's ratio; iterated, it settles on the largest such size inside the starting one, which can be 0x0. SDL refuses
  an empty side, so a window in which the smallest size of that ratio does not fit keeps its borders
  (`WindowFit.RestsWithoutBordersIffUnitFits`, `WindowFit.SmallWindowKeepsBorders`).
- **The windowed size may not survive maximizing.** The backup it is restored from is one report deep: the size is kept
  exactly when SDL reports the new size once before the event, or not at all and the backup happens to hold the old size,
  or more often and the maximized size is the old one (`Windows.MaximizingKeepsSizeIff`, `Windows.MaximizingMayForget`).
  With no report and an empty backup the assertions at src/ui/screen.cpp:396-397 fail.
- **Fitting a maximized window may be undone.** The handler of the RESTORED event puts the old windowed size back, unless
  the fitted one was reported before it (`Windows.FitStaysIffReportedEarly`).
- **`xstrjoin` puts no separator until something has been written**, so it is the usual join exactly when there is at most
  one token or the first is not empty (`StrJoin.JoinsAllIffFirstNotEmpty`). With no token it leaves the destination as
  it was, without a terminator. **`xstrncpy` with n = 0** copies the whole source: its bound wraps around.
- **`argv_to_string` keeps more room than it needs.** A rendering is complete exactly when four bytes stay unused besides
  the terminator's (six for a single argument).
- **The thread assertion of the frame rate counter** holds, over any non-decreasing clock, exactly as long as the next
  interval end does not pass 2^32 milliseconds (`FpsCounting.EndStaysAhead`).
- **A packet of 2^31 - 65 bytes or more ends the stream** although its header is valid: FFmpeg does not make such packets
  (`Streaming.PacketRoundTrip`).
- **A push refused by the recorder returns with the mutex locked.** After a failure of the recording this is harmless: the
  recorder thread has ended, and the pushing thread is the one that stops the recorder, on a recursive mutex. A push
  refused because no record of the packet could be allocated (src/video/recorder.cpp:344-348) keeps the mutex from a
  recorder thread still alive, which then never ends: joining it does not return. A stopped thread ends exactly when no
  push has done so (`RecorderThread.AloneEndsIffMutexFree`, `RecorderThread.MutexKeptIffOutOfMemory`,
  `RecorderThread.KeptMutexIsForever`).

## Model

| member | source | states |
|---|---|---|
| Streaming.PacketRoundTrip | src/video/stream.cpp:18-55 | A packet with a timestamp below 2^63 or none, and a size that its header can hold, is received as sent, whatever follows, exactly when FFmpeg makes packets of that size; otherwise it ends the stream. No valid timestamp reads as a config packet |
| Streaming.ReceivedIsEncoded | src/video/stream.cpp:18-55 | Conversely, whatever bytes a packet was read from, they are its encoding |
| Streaming.WireFormat | src/video/stream.cpp:23-29 | The header is eight bytes of timestamp, all ones for a config packet, and four of size, most significant first |
| Streaming.CutPacketEndsStream | src/video/stream.cpp:31-51 | A packet cut anywhere is the end of the stream |
| Streaming.WholeByIsTheMost | src/video/stream.cpp:23-29 | The packets counted as whole in the first k bytes are as many as fit, and all of them when k is their whole length |
| Streaming.ReceivesWholePackets | src/video/stream.cpp:212-227 | Cut at any byte, the stream yields exactly the packets that were whole by then |
| Streaming.FramingRoundTrip | src/video/stream.cpp:212-227 | The receive loop on the encoding of any list of packets yields exactly that list |
| Streaming.EncodedIsWellFramed | src/video/stream.cpp:37-40 | What the server sends meets the assertions on the header, wherever the connection is cut |
| Streaming.FedIsMerged | src/video/stream.cpp:115-169 | Without errors the decoder gets one packet per data packet, made of the configs since the previous data packet followed by it, with its timestamp; the recorder gets each config as received and those same merged packets; what is pending is the configs since the last data packet |
| Streaming.PushConservesBytes | src/video/stream.cpp:120-167 | One push without error moves bytes to the decoder or to the pending packet, and loses none |
| Streaming.BytesAreConserved | src/video/stream.cpp:115-169 | At any point of a run, the bytes given to the decoder followed by the pending ones are the bytes received |
| Streaming.ErrorsOnlyShorten | src/video/stream.cpp:63-86 | A refusal, of memory or of a peer, leaves each peer a prefix of what it would have been given |
| Streaming.PushSucceedsIff | src/video/stream.cpp:63-86 | A push succeeds exactly when every answer it asks for is yes; a decoder that refuses keeps the packet from the recorder |
| Streaming.FedOneMore | src/video/stream.cpp:212-227 | A push that succeeds continues the merging; in any case the peers have prefixes of what the whole stream gives them |
| Streaming.VideoStream.ReceivePacket | src/video/stream.cpp:18-55 | One packet off the socket, as the framing function says; the end of the stream, also when there is no memory for it; or a failed assertion on the header |
| Streaming.VideoStream.ProcessConfigPacket | src/video/stream.cpp:63-69 | A config packet goes to the recorder, if there is one, whose answer is returned |
| Streaming.VideoStream.ProcessFrame | src/video/stream.cpp:71-86 | A data packet goes to the decoder, then to the recorder unless the decoder refused it |
| Streaming.VideoStream.PushPacket | src/video/stream.cpp:115-169 | The pending packet is grown, merged and discarded so that the fields become those of the merging function, on every error return too |
| Streaming.VideoStream.Turn | src/video/stream.cpp:212-227 | One turn of the loop continues the merging of all the packets of the stream, or ends with a prefix of it given to the peers |
| Streaming.VideoStream.RunStream | src/video/stream.cpp:171-233 | Over the whole stream the peers get prefixes of the merged packets, and all of them when nothing is refused; an assertion fails only on a badly framed stream, and then always, unless a refusal ends the loop before |
| Recording.LogSoFarPrefix | src/video/recorder.cpp:249-314 | What a recording in progress has written is a prefix of the final log, whatever is pushed later |
| Recording.LogSoFarAdvances | src/video/recorder.cpp:285-301 | One more packet received adds the packet held back, its duration being the difference of the timestamps when both are data |
| Recording.EntriesKeepData | src/video/recorder.cpp:225-247 | A log that starts with a config packet is its header, then every data packet once, in order, with its timestamp and bytes |
| Recording.FramesTileTime | src/video/recorder.cpp:294-299 | Where no config packet intervenes each frame ends where the next begins |
| Recording.FrameDurations | src/video/recorder.cpp:266-299 | A frame lasts up to the next packet when that is a data packet, 100000 when it is the last, and otherwise as long as it came with |
| Recording.AdvanceKeepsProgress | src/video/recorder.cpp:285-312 | Receiving a packet keeps the recording's relation to the packets received; it fails only on a muxer error or when the first packet is not a config packet, and then always |
| Recording.FinishCompletes | src/video/recorder.cpp:262-277 | Writing the packet held back completes the log; if the muxer refuses it the log is complete but for that packet |
| Recording.Recorder.constructor | src/video/recorder.cpp:44-50 | The initial fields |
| Recording.Recorder.Push | src/video/recorder.cpp:334-355 | The packet is queued last, or refused once the recorder has failed or without memory for it; a refusal returns with the mutex locked |
| Recording.Recorder.Stop | src/core/actor.cpp:32-37 | Sets the stopped flag and nothing else |
| Recording.Recorder.Acquire | src/video/recorder.cpp:253-283 | Waits, finishes or takes the oldest packet, according to the flag and the queue |
| Recording.Recorder.Write | src/video/recorder.cpp:225-247 | The first packet must be a config packet and makes the header, later ones are ignored, data packets are written |
| Recording.Recorder.Advance | src/video/recorder.cpp:285-301 | The packet taken is held back and the one held before is timed and written |
| Recording.Recorder.Fail | src/video/recorder.cpp:306-310 | The recorder is marked failed and its queue emptied |
| Recording.Recorder.WriteLast | src/video/recorder.cpp:264-276 | The packet held back is written with the arbitrary duration |
| Recording.Recorder.Handle | src/video/recorder.cpp:285-312 | A packet taken keeps the recording in progress, or its write fails and the queue is dropped with the log as it was |
| Recording.Recorder.HandleNext | src/video/recorder.cpp:252-314 | One turn of the loop once stopped: one packet received, or the end with the log complete unless the muxer failed |
| Recording.Recorder.RunRecorder | src/video/recorder.cpp:249-319 | Stopped, the loop drains the queue; the log is then a prefix of the final log of all packets pushed, and equal to it without muxer errors |
| RecorderThread.RunKeepsInv | src/video/recorder.cpp:249-355 | Every step of every interleaving of pushes, with or without memory, stops and the recorder thread keeps the invariant |
| RecorderThread.RecordingIsFaithful | src/video/recorder.cpp:249-355 | Without muxer errors the file at thread exit is a function of the packets accepted; the recording has failed exactly when two packets were accepted and the first was not a config packet, and otherwise nothing was refused |
| RecorderThread.LogIsAlwaysAPrefix | src/video/recorder.cpp:249-319 | At any moment of any run, muxer errors or not, the file is a prefix of the faithful one |
| RecorderThread.EverythingIsReceived | src/video/recorder.cpp:252-314 | Unless stopped, failed or kept from the mutex, the thread alone receives everything accepted, in two steps a packet, and writes all but the last |
| RecorderThread.AnyPacketsCanBeRecorded | src/video/recorder.cpp:249-355 | Any packets that start with a config packet can be pushed, received and, after a stop, written out |
| RecorderThread.EveryPushIsAccepted | src/video/recorder.cpp:334-355 | In a run that has not failed and always finds memory, what is accepted is what was pushed, in order |
| RecorderThread.StoppedIffToldTo | src/core/actor.cpp:32-37 | A stop is heard, nothing else stops the recording, and the muxer errors are the muxer's refusals |
| RecorderThread.FailureIsFinal | src/video/recorder.cpp:301-342 | Once a run has failed, in all that follows the recorder thread has ended, the queue stays empty, the file stays as it is and every packet pushed is refused |
| RecorderThread.AsleepMeansIdle | src/video/recorder.cpp:255-257 | No lost wakeup: asleep and unsignalled, the thread has received everything and has not been stopped |
| RecorderThread.MutexKeptIffOutOfMemory | src/video/recorder.cpp:344-348 | In a run that has not failed, a push has kept the mutex exactly when one found no memory |
| RecorderThread.KeptMutexIsForever | src/video/recorder.cpp:344-348 | Then the recorder thread never ends, whatever happens |
| RecorderThread.StoppedThreadAdvances | src/video/recorder.cpp:252-314 | Stopped, the thread is blocked exactly where it wants a mutex that such a push has kept |
| RecorderThread.OwnStepsAdvance | src/video/recorder.cpp:252-314 | Each of its steps brings its end nearer |
| RecorderThread.OthersDoNotDelay | src/video/recorder.cpp:334-355 | A stop is final, and no step of the other thread moves that end away or keeps the mutex |
| RecorderThread.StopEndsTheThread | src/core/actor.cpp:32-42 | Join returns, in any schedule: stopped in any reachable state, the thread has only so many steps left, and unless a push has kept the mutex its next one is enabled until it has ended |
| RecorderThread.AloneEndsIffMutexFree | src/core/actor.cpp:32-42 | Left alone, the stopped thread ends exactly when no push has kept the mutex, whatever the muxer answers |
| Pipeline.RecorderGetsMergedPackets | src/video/stream.cpp:71-86 | The data packets the recorder gets are the merged ones, in order, with the timestamps of the data packets received |
| Pipeline.RecorderGetsEachPacket | src/video/stream.cpp:148-156 | The recorder gets a packet for each one received, with its timestamp, and config packets as they are |
| Pipeline.MergedIsRecorded | src/video/recorder.cpp:225-247 | Recording what the stream pushes gives the header and then the merged packets |
| Pipeline.RecordingKeepsEveryFrame | src/video/stream.cpp:212-227 | From the bytes on the socket to the file: a stream that starts with a config packet is recorded as that header and exactly the frames the decoder got, one per data packet, with its timestamp |
| Pipeline.FileHoldsEveryFrame | src/video/recorder.cpp:249-355 | In any interleaving in which the recorder accepts what the stream hands it, and ends without a muxer error, the file holds that recording |
| VideoBuffering.VideoBuffer.constructor | src/video/video_buffer.cpp:13-58 | Two distinct frames, initially consumed and not interrupted |
| VideoBuffering.VideoBuffer.Decode | src/video/decoder.cpp:84-85 | Decoding writes the decoding frame and never the one being rendered |
| VideoBuffering.VideoBuffer.SwapFrames | src/video/video_buffer.cpp:70-74 | The two frame pointers are exchanged and stay a permutation of the two frames |
| VideoBuffering.VideoBuffer.OfferDecodedFrame | src/video/video_buffer.cpp:76-94 | Waits with nothing changed, or makes the decoded frame the rendering one; a skip is reported exactly when the previous one was not consumed, and counted only in drop mode |
| VideoBuffering.VideoBuffer.ConsumeRenderedFrame | src/video/video_buffer.cpp:96-105 | The rendering frame is marked consumed, counted and returned |
| VideoBuffering.VideoBuffer.Interrupt | src/video/video_buffer.cpp:107-115 | The flag is set only where offering can block |
| FrameHandOff.StepKeepsControl | src/video/video_buffer.cpp:76-115 | Every step keeps the number of tokens equal to the number of unconsumed frames |
| FrameHandOff.StepKeepsPictures | src/video/video_buffer.cpp:70-105 | Every step keeps the account of the pictures offered |
| FrameHandOff.RunKeepsInv | src/video/video_buffer.cpp:70-115 | Every run keeps both |
| FrameHandOff.OfferedIsDecoded | src/video/decoder.cpp:84-85 | In every run what is offered is what was decoded: every picture once, in order, but for the one being offered |
| FrameHandOff.PictureIsDrawn | src/video/decoder.cpp:14-30 | A picture decoded while nothing is on its way is drawn six steps later |
| FrameHandOff.OneTokenPerUnconsumedFrame | src/video/decoder.cpp:14-30 | In every interleaving a frame is unconsumed exactly when one token exists (an event queued or popped, or a decoder about to push one) and never more, so the assertion of ConsumeRenderedFrame holds |
| FrameHandOff.PicturesAreConserved | src/video/video_buffer.cpp:70-105 | Every picture offered is consumed once, skipped once or waiting; both keep the order of offering; in drop mode the counter hears of every skip |
| FrameHandOff.LatestIsConsumedAndDrawn | src/ui/screen.cpp:306-319 | What is consumed is the latest picture offered, and it does not change while it is drawn under the mutex |
| FrameHandOff.ExpiredFramesAreAllConsumed | src/video/video_buffer.cpp:79-83 | With render_expired_frames and no interrupt nothing is skipped: pictures are consumed one by one, in order |
| FrameHandOff.AsleepMeansBlocked | src/video/video_buffer.cpp:79-115 | A decoder asleep and unsignalled waits for an unconsumed frame, and if the buffer is interrupted its signal is about to come |
| FrameHandOff.OfferWaitsForTheToken | src/video/video_buffer.cpp:81 | Offering blocks exactly while a frame's token is on its way, expired frames are rendered and the buffer is not interrupted |
| FrameHandOff.SleepIsShort | src/video/video_buffer.cpp:96-105 | In any schedule a decoder sleeps through at most one step of the user interface thread, which always has a next one |
| FrameHandOff.WokenDecoderOffers | src/video/video_buffer.cpp:81-88 | In any schedule a decoder woken by a consumption or an interrupt stays ready until it has offered its picture |
| FrameHandOff.BlockedDecoderResumes | src/video/video_buffer.cpp:96-115 | Such a decoder is released by at most three steps of the other threads, after which it offers its picture |
| FrameHandOff.InterruptReleases | src/video/video_buffer.cpp:107-115 | An interrupt is heard and final: from then on offering never blocks, and once it has been signalled the decoder is not asleep |
| FrameHandOff.InterruptedDecoderOffers | src/video/video_buffer.cpp:107-115 | A blocked decoder can be interrupted at any time, and then offers its picture |
| FrameHandOff.OnlyALostEventFreezes | src/video/decoder.cpp:22-25 | An unconsumed frame without a token arises only where SDL_PushEvent fails, and always there |
| FrameHandOff.FrozenForever | src/video/decoder.cpp:18-21 | From then on no run consumes a picture |
| FpsCounting.CheckLooksAhead | src/video/fps_counter.cpp:41-67 | The thread's assertion holds after a check exactly when the next interval end does not pass 2^32; then it is on the same grid and at most one interval away unless it was already further |
| FpsCounting.PrintedRateIsCount | src/video/fps_counter.cpp:29-38 | The rate printed is the count exactly when the product does not overflow |
| FpsCounting.CheckFollowsGrid | src/video/fps_counter.cpp:49-52 | A check moves the interval end from the first grid point after the clock to the first after the new clock, or wraps behind it |
| FpsCounting.EndStaysAhead | src/video/fps_counter.cpp:41-98 | Over a non-decreasing clock, as long as the ends before did not pass 2^32, the next end is ahead of the clock exactly when it does not either; then it is the first point after the clock on the grid set by Start, at most an interval away |
| FpsCounting.EachIntervalIsDisplayed | src/video/fps_counter.cpp:41-53 | Over a non-decreasing clock without wrap, one line is displayed about each interval in which the clock was read, at the first call after its end, with what that interval counted and the rate; what is held is what the current interval counted |
| FpsCounting.CallConserves | src/video/fps_counter.cpp:120-141 | One call shows what was counted or keeps it, and counts itself |
| FpsCounting.FramesAreConserved | src/video/fps_counter.cpp:41-141 | Frames shown plus frames still counted are the calls made since Start, whatever the clock does, until a counter could wrap |
| FpsCounting.FpsCounter.Start | src/video/fps_counter.cpp:78-84 | Counters cleared, the first interval end one interval away |
| FpsCounting.FpsCounter.CheckIntervalExpired | src/video/fps_counter.cpp:41-53 | The counters and the lines displayed are those of the interval function, in 32-bit arithmetic |
| FpsCounting.FpsCounter.AddRenderedFrame | src/video/fps_counter.cpp:120-130 | One rendered frame is counted in the interval of the clock read, and none when the counter is stopped |
| FpsCounting.FpsCounter.AddSkippedFrame | src/video/fps_counter.cpp:132-141 | The same for a skipped frame |
| FpsCounting.FpsCounter.WaitTime | src/video/fps_counter.cpp:63-72 | The thread sleeps a positive time, up to the interval end: at most an interval, unless the end was already further; its assertion fails exactly when the next end passes 2^32 |
| FpsCounterThread.InterruptEndsTheThread | src/video/fps_counter.cpp:109-118 | Once Interrupt has returned, in any reachable state, the thread ends by itself |
| FpsCounterThread.InterruptedIffToldTo | src/video/fps_counter.cpp:109-118 | An interrupt is heard, and nothing else ends the thread |
| FpsCounterThread.AnyThreadCanBeInterrupted | src/video/fps_counter.cpp:109-118 | Wherever the mutex is free the thread can be interrupted, and ends |
| FpsCounterThread.StoppedThreadSleeps | src/video/fps_counter.cpp:59-73 | Stopped and not interrupted, the thread leaves its timed loop by itself and goes to sleep |
| FpsCounterThread.StartWakesUnlessDeciding | src/video/fps_counter.cpp:58-85 | The signal of Start brings the thread back to its timed loop exactly when the thread is not between reading the flag and going to sleep; otherwise it is left asleep while the counter is started |
| FpsCounterThread.StartCanBeLost | src/video/fps_counter.cpp:60-85 | A run in which that happens |
| ControlMessages.RoundTrip | src/message/control_msg.cpp:24-74 | Whatever follows, the decoder finds the message (texts cut, pressures quantized, enumerations to a byte) and where it ends, and no encoding exceeds 4096 bytes |
| ControlMessages.StreamRoundTrip | src/message/control_msg.cpp:24-74 | The concatenation of the encodings of any list of messages decodes to that list |
| ControlMessages.PrefixFree | src/message/control_msg.cpp:24-74 | No encoding is a proper prefix of another |
| ControlMessages.CanonicalIsWhatIsSent | src/message/control_msg.cpp:374-396 | What survives of a message is itself sent unchanged |
| ControlMessages.WireEquality | src/message/control_msg.cpp:24-74 | Two messages look the same on the wire exactly when what survives of them is equal |
| ControlMessages.LossIsBounded | src/message/control_msg.cpp:382-396 | What is lost: of valid text what exceeds 300 bytes, or 4093 for the clipboard, and of the character there, and no more; of pressures at most 2^-16; of actions and modes what exceeds a byte; nothing else |
| ControlMessages.PositionExample | src/message/control_msg.cpp:374-379 | The bytes of a position, field after field |
| ControlMessages.KeycodeExample | src/message/control_msg.cpp:27-31 | The bytes of a key event |
| ControlMessages.TextExamples | src/message/control_msg.cpp:32-59 | The bytes of a text and of a clipboard message |
| ControlMessages.TouchExample | src/message/control_msg.cpp:37-46 | The bytes of a touch event |
| ControlMessages.ScrollExample | src/message/control_msg.cpp:47-53 | The bytes of a scroll event |
| ControlMessages.OtherExamples | src/message/control_msg.cpp:60-69 | The bytes of the messages without fields and of the power mode |
| ControlMessages.WritePosition | src/message/control_msg.cpp:374-379 | Twelve bytes are written at the place given, the rest of the buffer is kept |
| ControlMessages.WriteString | src/message/control_msg.cpp:382-387 | The length of the cut text and the text are written, the rest of the buffer is kept |
| ControlMessages.SerializeKeycode | src/message/control_msg.cpp:27-31 | Ten bytes are the encoding of the key event, the rest of the buffer is kept |
| ControlMessages.SerializeText | src/message/control_msg.cpp:32-36 | The encoding of a text or clipboard message, within its limit, the rest of the buffer is kept |
| ControlMessages.SerializeTouch | src/message/control_msg.cpp:37-46 | Twenty-eight bytes are the encoding of the touch event, the rest of the buffer is kept |
| ControlMessages.SerializeScroll | src/message/control_msg.cpp:47-53 | Twenty-one bytes are the encoding of the scroll event, the rest of the buffer is kept |
| ControlMessages.Serialize | src/message/control_msg.cpp:24-74 | The buffer starts with the encoding that decodes, and nothing after it is touched; an unknown type gives 0 |
| Utf8.BoundaryIffNotContinuation | src/util/str_util.cpp:131-136 | In valid text (section 4 of RFC 3629) a prefix is valid exactly when what follows is not a continuation byte |
| Utf8.BoundaryNearby | src/util/str_util.cpp:131-136 | No four consecutive continuation bytes in valid text |
| Utf8.EncodedIsChar | src/util/str_util.cpp:131-136 | The characters the truncation is about are those of section 3 of RFC 3629: every encoding of a number is one |
| Utf8.CharIsEncoded | src/util/str_util.cpp:131-136 | And every one is the encoding of a number, surrogates and overlong forms excluded |
| Utf8.ValidTextCanBeTruncated | src/util/str_util.cpp:132-136 | On valid text the loop stays inside the string |
| Utf8.TruncationIsLargestBoundary | src/util/str_util.cpp:125-138 | The cut is the largest character boundary not above the limit, and at most three bytes below it |
| Utf8.Utf8TruncationIndex | src/util/str_util.cpp:125-138 | The loop finds that cut, and on any string stays inside it exactly when a byte up to the limit is not a continuation byte |
| BufferUtil.RoundTrip16 | src/util/buffer_util.hpp:30-32 | Reading 16 bits undoes writing them, whatever follows |
| BufferUtil.RoundTrip32 | src/util/buffer_util.hpp:34-36 | The same for 32 bits |
| BufferUtil.RoundTrip64 | src/util/buffer_util.hpp:38-42 | The same for 64 bits |
| BufferUtil.WriteReadBack16 | src/util/buffer_util.hpp:13-16 | Writing what was read from two bytes gives those bytes |
| BufferUtil.WriteReadBack32 | src/util/buffer_util.hpp:18-23 | The same for four bytes |
| BufferUtil.WriteReadBack64 | src/util/buffer_util.hpp:25-28 | The same for eight bytes |
| BufferUtil.BigEndian16 | src/util/buffer_util.hpp:13-16 | The most significant byte comes first |
| BufferUtil.BigEndian32 | src/util/buffer_util.hpp:18-23 | The same for four bytes |
| BufferUtil.BigEndian64 | src/util/buffer_util.hpp:25-28 | The most significant half comes first |
| BufferUtil.TwosComplement | src/message/control_msg.cpp:49-52 | A negative value is sent as its two's complement |
| BufferUtil.SignedRoundTrip | src/message/control_msg.cpp:49-52 | A signed scroll value survives the cast to unsigned |
| BufferUtil.Write16be | src/util/buffer_util.hpp:13-16 | The two bytes are appended to what is below and nothing above is touched |
| BufferUtil.Write32be | src/util/buffer_util.hpp:18-23 | The same for four bytes |
| BufferUtil.Write64be | src/util/buffer_util.hpp:25-28 | The same for eight bytes |
| RingBuffers.PushAppends | src/util/cbuf.hpp:42-50 | A push on a ring that is not full appends the item, wrap-around included |
| RingBuffers.TakeDropsFirst | src/util/cbuf.hpp:52-60 | A take from a ring that is not empty drops the oldest item |
| RingBuffers.ItemsFacts | src/util/cbuf.hpp:30-37 | The emptiness and fullness tests are right, one slot staying free |
| RingBuffers.StepRefinesFifo | src/util/cbuf.hpp:42-60 | One operation on CAP+1 slots is that operation on a FIFO of capacity CAP |
| RingBuffers.FailsOnlyWhenItMust | src/util/cbuf.hpp:42-60 | A push fails exactly with one slot left, a take exactly on an empty ring; what is taken is the oldest item |
| RingBuffers.RunRefinesFifo | src/util/cbuf.hpp:24-60 | Over every history of pushes and takes, for every CAP, callers cannot tell the two apart |
| RingBuffers.CBuf.constructor | src/util/cbuf.hpp:24-28 | An empty buffer of the given capacity |
| RingBuffers.CBuf.IsEmpty | src/util/cbuf.hpp:33-34 | True exactly when nothing is held |
| RingBuffers.CBuf.IsFull | src/util/cbuf.hpp:36-37 | True exactly when the capacity is reached |
| RingBuffers.CBuf.Push | src/util/cbuf.hpp:42-50 | In place, the FIFO's push |
| RingBuffers.CBuf.Take | src/util/cbuf.hpp:52-60 | In place, the FIFO's take |
| IntrusiveQueue.Queue.constructor | src/util/queue.hpp:21-22 | An empty queue |
| IntrusiveQueue.Queue.IsEmpty | src/util/queue.hpp:24-25 | True exactly when no node is queued |
| IntrusiveQueue.Queue.Push | src/util/queue.hpp:56-65 | The node is appended on the heap; the chain stays without cycle or sharing, and only the last node's link is written |
| IntrusiveQueue.Queue.Take | src/util/queue.hpp:71-78 | The oldest node is unlinked, its link and the tail pointer left as they were |
| IntrusiveQueue.PushAfterEmptying | src/util/queue.hpp:56-78 | A push on an emptied queue is right although the tail pointer is stale, and does not write through it |
| Net.Socket.Send | src/platform/net.cpp:113-115 | As much as the socket takes is put on the wire, at least one byte unless it fails |
| Net.Socket.SendAll | src/platform/net.cpp:117-129 | What is sent is a prefix, the whole when no call fails; the result is the length exactly when the first call took everything |
| Controlling.Controller.constructor | src/core/controller.cpp:15-28 | An empty ring, not stopped |
| Controlling.Controller.PushMessage | src/core/controller.cpp:44-54 | The ring's push, refused when 64 messages are held; signalled exactly when the ring was empty |
| Controlling.Controller.Stop | src/core/controller.cpp:30-33 | Sets the stopped flag, signals whatever the ring holds, and stops the receiver |
| Controlling.Controller.Acquire | src/core/controller.cpp:72-85 | Waits on an empty ring, ends when stopped, otherwise takes the oldest message |
| Controlling.Controller.ProcessMessage | src/core/controller.cpp:56-67 | The encoding is put on the wire, whole if every call makes progress; success exactly when the type is known and the first call takes everything |
| ControllerThread.RunKeepsInv | src/core/controller.cpp:44-94 | Every run of pushes, stop and sends keeps the queue and the wire invariants |
| ControllerThread.MessagesAreConserved | src/core/controller.cpp:44-94 | In every run the messages accepted are those sent, the one in flight or abandoned, and the ring, in that order |
| ControllerThread.WireCarriesAPrefix | src/core/controller.cpp:69-94 | The wire carries the encodings of a prefix of the accepted messages, then at most a fragment of the next; without a failed send the device decodes exactly the messages sent |
| ControllerThread.AcceptedIffRoom | src/core/controller.cpp:47-48 | A push is accepted exactly while the ring holds fewer than 64 messages |
| ControllerThread.EverythingIsSent | src/core/controller.cpp:69-94 | Unless stopped, the thread alone sends everything accepted, in two steps a message |
| ControllerThread.AnyMessagesCanBeSent | src/core/controller.cpp:44-94 | Up to 64 messages can be pushed, and are then all sent, in order, as the device decodes them |
| ControllerThread.StoppedIffToldTo | src/core/actor.cpp:32-37 | A stop is heard, and nothing else stops the thread's loop |
| ControllerThread.AsleepMeansIdle | src/core/controller.cpp:47-51 | No lost wakeup although only a push on an empty ring signals |
| ControllerThread.StopIsImmediate | src/core/controller.cpp:76-80 | After a stop only the message being sent can still be sent |
| ControllerThread.StoppedThreadAdvances | src/core/controller.cpp:72-92 | Stopped, the thread is never blocked |
| ControllerThread.OwnStepsAdvance | src/core/controller.cpp:44-92 | Each of its steps brings its end nearer, and no step of the others moves it away |
| ControllerThread.StopEndsTheThread | src/core/actor.cpp:32-42 | Join returns, in any schedule and whatever the network does: stopped in any reachable state, the thread has at most two steps left, the next of which is enabled until it has ended |
| DeviceMessages.ParseIffEncoded | src/message/device_msg.cpp:13-46 | A message is found exactly where an encoding starts, and takes its length |
| DeviceMessages.WireFormat | src/message/device_msg.cpp:13-46 | A zero, the length of the text in two bytes, most significant first, and the text |
| DeviceMessages.WhenNoMessage | src/message/device_msg.cpp:17-44 | Three bytes or more that do not start with a zero are an error; fewer bytes than announced are not, yet |
| DeviceMessages.ParseOfLonger | src/message/device_msg.cpp:13-46 | More bytes change neither a message found nor an error |
| DeviceMessages.ProcessIsMaximal | src/android/receiver.cpp:46-67 | The bytes consumed are the encoding of what was delivered, and no complete message is left after them |
| DeviceMessages.ProcessEncoded | src/android/receiver.cpp:46-67 | Encoded messages followed by no complete message are delivered as they are |
| DeviceMessages.ProcessUpToError | src/android/receiver.cpp:49-53 | Messages before an unknown type are delivered, and then the error is reported |
| DeviceMessages.SplitIndependent | src/android/receiver.cpp:46-67 | Parsing a followed by b is parsing a, then its unconsumed tail followed by b |
| DeviceMessages.Deserialize | src/message/device_msg.cpp:13-46 | One message, none yet, or an error, the text copied to a terminated buffer of its own |
| DeviceMessages.Receiver.ProcessMessage | src/android/receiver.cpp:24-31 | The clipboard is set to the text |
| DeviceMessages.Receiver.ProcessOne | src/android/receiver.cpp:49-59 | One turn of the loop: a complete message is delivered, nothing otherwise |
| DeviceMessages.Receiver.ProcessMessages | src/android/receiver.cpp:46-67 | The loop delivers the texts of the maximal run of messages, returns the bytes they took, or -1 on an error after delivering those before it |
| ReceiverLoop.WholeMessagesPerRead | src/android/receiver.cpp:74-94 | Where every read is made of whole messages everything is delivered |
| ReceiverLoop.RoomForAMessage | src/android/receiver.cpp:75-77 | There always is room for at least three bytes, so the assertion on head holds |
| ReceiverLoop.RoomAfterRead | src/android/receiver.cpp:76-93 | The buffer is of 4096 bytes; once something is consumed of a read, room is kept for the rest of it |
| ReceiverLoop.RunsWhileReadsAreGood | src/android/receiver.cpp:74-94 | The loop goes on exactly as long as every read delivers bytes and no error, and delivers what each contains |
| ReceiverLoop.EndsOnFirstBadRead | src/android/receiver.cpp:78-87 | It ends on the first other read, whose complete messages are still delivered |
| ReceiverLoop.RightForEveryNextRead | src/android/receiver.cpp:74-94 | Before any error, the loop is right whatever is read next, of what is asked for, exactly when it has been right so far and the stream stands on a message boundary |
| ReceiverLoop.RightThroughoutIffWholeReads | src/android/receiver.cpp:74-94 | Along reads without error, it is right at each of them whatever is read there exactly when every read is made of whole messages |
| ReceiverLoop.TailMatters | src/android/receiver.cpp:89-93 | Any incomplete tail can be continued by one read that fits the room so that losing it changes what is delivered |
| ReceiverLoop.SplitMessageIsLost | src/android/receiver.cpp:76-93 | A four-byte message read in two halves is not delivered |
| ReceiverLoop.HandleRead | src/android/receiver.cpp:75-93 | One read: what it contains is delivered, and the assertion on head keeps holding |
| ReceiverLoop.RunReceiver | src/android/receiver.cpp:69-97 | The loop delivers, read by read, what each read contains by itself, up to an error or the end |
| StrReplace.SplitIsLeftmost | src/util/str_util.cpp:161-165 | Cutting at successive finds of strstr is a leftmost split: glued it gives the string, and no cut could have come earlier |
| StrReplace.LeftmostSplitIsUnique | src/util/str_util.cpp:177-184 | There is only one leftmost split |
| StrReplace.ReplacedLength | src/util/str_util.cpp:167 | The result is as long as the string plus, per occurrence, the difference of the two lengths: what is allocated |
| StrReplace.CountOccurrences | src/util/str_util.cpp:161-165 | The counting pass finds the pieces of the split but one |
| StrReplace.WriteOne | src/util/str_util.cpp:179-182 | One turn of the second pass appends the text up to the occurrence and the replacement |
| StrReplace.Rewrite | src/util/str_util.cpp:177-184 | The second pass finds the same occurrences, never a null, and fills the allocated buffer exactly |
| StrReplace.Replace | src/util/str_util.cpp:142-186 | The leftmost non-overlapping replacement, terminated; null for a missing string, an empty pattern or no memory; a missing replacement is empty |
| CStrings.StrStr | src/util/str_util.cpp:163 | The leftmost occurrence, if there is one |
| CStrings.StrCpy | src/util/str_util.cpp:181 | The string and its terminator are copied, the rest of the buffer is kept |
| CStrings.StrNCpy | src/util/str_util.cpp:180 | Exactly n bytes are copied, without a terminator, the rest of the buffer is kept |
| StrJoin.AppendedToNone | src/util/str_util.cpp:42-53 | Appending with a separator only where something is written is joining the tokens from the first non-empty one on |
| StrJoin.JoinsAllIffFirstNotEmpty | src/util/str_util.cpp:43-47 | The separators are between all tokens exactly when the first is not empty or is the only one |
| StrJoin.JoinLosesNothing | src/util/str_util.cpp:38-54 | Where no token contains the separator, the tokens can be read back exactly under that condition |
| StrJoin.XStrNCpy | src/util/str_util.cpp:29-36 | Copied whole or cut to n - 1, terminated, with the length or n as result; the whole copy without terminator for n = 0 |
| StrJoin.AppendOne | src/util/str_util.cpp:43-51 | One turn of the loop, with its two ways of not fitting |
| StrJoin.XStrJoin | src/util/str_util.cpp:38-59 | The join whole, terminated, and its length; or its first n - 1 characters, terminated, and n; nothing beyond is touched |
| CommandLine.AllShownIffRoom | src/platform/command.cpp:38-48 | Everything is rendered exactly when the full rendering leaves four unused bytes (six for a single argument) besides the terminator's |
| CommandLine.Examples | src/platform/command.cpp:33-64 | Two arguments in brackets with a comma and a space between; the first and dots in one byte less than they need |
| CommandLine.Shown | src/platform/command.cpp:38-48 | How many arguments are rendered: all those before the first that fails the test for room |
| CommandLine.WriteArgument | src/platform/command.cpp:49-58 | One argument in brackets is appended, after a separator unless it is the first |
| CommandLine.ArgvToString | src/platform/command.cpp:34-64 | In a buffer of more than 4 bytes both assertions hold, and the text is the full rendering or that of a prefix of whole arguments and dots, terminated |
| WindowFit.ProductFits | src/ui/screen.cpp:84-104 | The 32-bit product of two 16-bit sizes does not wrap |
| WindowFit.FitIsTight | src/ui/screen.cpp:76-110 | The fit is within the bounded size, keeps one of its dimensions, and the other is the largest that the frame's ratio allows |
| WindowFit.FitsTheDisplay | src/ui/screen.cpp:88-105 | The fit is inside the display, if its bounds are known, and inside the window, keeps a side of one of them, and every size of the frame's exact ratio inside both is inside it |
| WindowFit.NoFrameNoFit | src/ui/screen.cpp:78-81 | A frame without a side leaves the size alone |
| WindowFit.ExactSizesStayBelow | src/ui/screen.cpp:97-105 | Every size of exactly the frame's ratio inside the bounded size stays inside the fit |
| WindowFit.FixedIffExact | src/ui/screen.cpp:76-110 | The fit leaves a size unchanged exactly when it is inside the display and of exactly the frame's ratio |
| WindowFit.IdempotentIffEven | src/ui/screen.cpp:97-105 | A second fit changes nothing exactly when the division of the first leaves no remainder |
| WindowFit.SettlesOnGreatestExact | src/ui/screen.cpp:76-110 | Iterated, the fit settles on the largest size of exactly the frame's ratio inside the first bounded size |
| WindowFit.SettlesOnMultipleOfUnit | src/ui/screen.cpp:76-110 | That size is the largest multiple that fits of the smallest size with the frame's ratio |
| WindowFit.UnitExists | src/ui/screen.cpp:76-110 | Such a smallest size exists |
| WindowFit.RestsWithoutBordersIffUnitFits | src/ui/screen.cpp:342-356 | Pressing again and again, with SDL refusing empty sides, leaves a window without borders exactly when the smallest size of the frame's ratio fits: then at the size the fit settles on |
| WindowFit.SmallWindowKeepsBorders | src/ui/screen.cpp:342-356 | A 2x2 window and a 3x2 frame: four fits give 0x0, the window stays at 1x1 |
| Windows.RemembersWindowedSize | src/ui/screen.cpp:34-55 | Over any run of resizing, fitting, maximizing, restoring and fullscreen switches, the windowed size is the last one the window was given in windowed mode, the window has it again back in that mode, and the assertions on the backup hold |
| Windows.ModesFollowChanges | src/ui/screen.cpp:328-412 | Over any run each switch toggles fullscreen, and the window is maximized exactly when the last change about it maximized it |
| Windows.OtherModesKeepSdlSize | src/ui/screen.cpp:42-47 | Out of windowed mode the window has the size SDL gave it; in fullscreen a fit changes nothing |
| Windows.ModesAreUndone | src/ui/screen.cpp:328-412 | Maximizing and restoring, and switching twice, give the window its size again |
| Windows.FitStaysIffReportedEarly | src/ui/screen.cpp:342-412 | Fitting a maximized window stays exactly when its size is reported before RESTORED, or is the old windowed size, which is put back otherwise |
| Windows.MaximizingKeepsSizeIff | src/ui/screen.cpp:379-406 | Maximizing keeps the windowed size exactly when the new size is reported once before the event, or not at all with the backup holding the old size, or more often with the maximized size being the old one; the assertions on the backup fail exactly with no report and an empty backup |
| Windows.MaximizingMayForget | src/ui/screen.cpp:379-406 | A window whose size is forgotten with no report, and with two |
| Windows.Screen.constructor | src/ui/screen.cpp:144-240 | The window starts in windowed mode, not empty, with the size asked for remembered |
| Windows.Screen.HandleWindowEvent | src/ui/screen.cpp:373-412 | Sizes and modes after each event are those of the functions the runs are made of |
| Windows.Screen.SwitchFullscreen | src/ui/screen.cpp:328-340 | The same for the switch, and nothing when SDL cannot switch |
| Windows.Screen.ResizeToFit | src/ui/screen.cpp:342-356 | Nothing in fullscreen; otherwise the window, restored first, gets the fit of its size unless that has an empty side, which SDL refuses: the step of the runs |

## Left out

- FFmpeg: decoding, parsing, muxing and time base rescaling. Packets are timestamp, duration and bytes; the muxer is an append-only log of what it accepted, in the stream's time base. Packet flags and dts are not modelled.
- Allocation failures, except those of the stream's and the recorder's packets and of `StrReplace.Replace`, which are parameters; FFmpeg's size limit on new packets is a constant of `Streaming`. Memory release is not modelled, nor is the packet the recorder does not free after a failure.
- SDL: events other than the new frame event, windows and rendering. `SDL_PushEvent` succeeds in every run of `FrameHandOff`; what a failure does is stated apart. Mutexes are recursive, as SDL's are.
- The second event that PushFrame queues, for OpenCV frames, and the frame buffer the decoder fills for it.
- The recorder's opening, trailer and closing: I/O.
- Fairness of the scheduler: what ends, or is released, is proved by steps that are always enabled, not by a bound on when they are taken.
- VideoBuffering.VideoBuffer.OfferDecodedFrame: is one evaluation of the wait loop's guard and what follows it; the waiting itself is in `FrameHandOff`.
- Recording.Recorder.RunRecorder: runs after Stop, when nothing is pushed any more; concurrent pushes are in `RecorderThread`, which uses the same functions.
- Utf8.Utf8TruncationIndex: gives no result on strings that start with a long enough run of continuation bytes, where the source reads before the string; valid text does not.
- ControlMessages.RoundTrip: pressures are real numbers; rounding of the 32-bit float product is not modelled, a product by 2^16 being exact in that format.
- The JSON form of control messages, and the destruction of messages.
- DeviceMessages.Deserialize: does not model the -1 of a failed allocation, and returns a fresh empty buffer where the source leaves the message's text null.
- DeviceMessages.Receiver.ProcessMessage: delivers the text whole; SDL_SetClipboardText takes a C string, so of a text with an embedded NUL the clipboard gets what comes before it.
- Net.Socket.Send: a socket that takes nothing reports an error; a result of zero, which POSIX gives for empty buffers only, is not modelled.
- The device name and size sent when a connection opens (src/android/receiver.cpp:99): I/O of fixed fields.
- The agent's controller and stream, the file handler, the device server, adb and process execution, option parsing, key code tables and shortcuts: I/O, library calls and finite tables.
- The initial window size, frame size changes and the pixel-perfect size: they apply the same operations to other sizes. The backup size is reset as in debug builds.
- StrReplace.Replace: lengths are unbounded; the source keeps them in an int.
