/** The double buffer between the decoder and the renderer (src/video/video_buffer.cpp). */
module VideoBuffering {
  import opened Common
  import opened FpsCounting

  // What a frame shows; only its identity matters.
  type Picture = int

  /** The buffer's fields, with the pictures held by its two frames. */
  datatype Fields = Fields(
    first: Picture,
    second: Picture,
    // Which of the two frames is `decoding_frame`; the other one is `rendering_frame`.
    decodingFirst: bool,
    renderExpired: bool,
    interrupted: bool,
    consumed: bool)

  function Rendering(f: Fields): Picture {
    if f.decodingFirst then f.second else f.first
  }

  function Decoding(f: Fields): Picture {
    if f.decodingFirst then f.first else f.second
  }

  function Init(first: Picture, second: Picture, renderExpired: bool): Fields {
    Fields(first, second, true, renderExpired, false, true)
  }

  /** The decoder's unlocked write. */
  function Decoded(f: Fields, picture: Picture): Fields {
    if f.decodingFirst then f.(first := picture) else f.(second := picture)
  }

  /** The wait loop's guard. */
  predicate MustWait(f: Fields) {
    f.renderExpired && !f.consumed && !f.interrupted
  }

  function Offered(f: Fields): Fields {
    f.(decodingFirst := !f.decodingFirst, consumed := false)
  }

  function Consumed(f: Fields): Fields {
    f.(consumed := true)
  }

  function Interrupted(f: Fields): Fields {
    if f.renderExpired then f.(interrupted := true) else f
  }

  class AVFrame {
    var picture: Picture

    constructor (picture: Picture)
      ensures this.picture == picture
    {
      this.picture := picture;
    }
  }

  class VideoBuffer {
    const fpsCounter: FpsCounter
    const renderExpiredFrames: bool
    var decodingFrame: AVFrame
    var renderingFrame: AVFrame
    var interrupted: bool
    var renderingFrameConsumed: bool
    // The two frames allocated at the start.
    ghost const first: AVFrame
    ghost const second: AVFrame

    /** The two pointers always are a permutation of the two frames. */
    ghost predicate Valid()
      reads this
    {
      first != second && decodingFrame != renderingFrame && {decodingFrame, renderingFrame} == {first, second}
    }

    ghost function View(): Fields
      reads this, first, second
    {
      Fields(first.picture, second.picture, decodingFrame == first,
             renderExpiredFrames, interrupted, renderingFrameConsumed)
    }

    constructor (fpsCounter: FpsCounter, renderExpiredFrames: bool)
      ensures Valid() && fresh(first) && fresh(second)
      ensures this.fpsCounter == fpsCounter
      ensures View() == Init(first.picture, second.picture, renderExpiredFrames)
    {
      var a := new AVFrame(0);
      var b := new AVFrame(0);
      first, second, decodingFrame, renderingFrame := a, b, a, b;
      this.fpsCounter, this.renderExpiredFrames := fpsCounter, renderExpiredFrames;
      interrupted, renderingFrameConsumed := false, true;
    }

    method Decode(picture: Picture)
      requires Valid()
      modifies decodingFrame
      ensures Valid() && View() == Decoded(old(View()), picture)
    {
      decodingFrame.picture := picture;
    }

    method SwapFrames()
      requires Valid()
      modifies this`decodingFrame, this`renderingFrame
      ensures Valid() && decodingFrame == old(renderingFrame) && renderingFrame == old(decodingFrame)
    {
      var tmp := decodingFrame;
      decodingFrame := renderingFrame;
      renderingFrame := tmp;
    }

    /** One evaluation of the wait loop's guard and, unless it says to wait (None), the rest of the section. */
    method OfferDecodedFrame(now: uint32) returns (previousFrameSkipped: Option<bool>)
      requires Valid()
      modifies this, fpsCounter
      ensures Valid() && fpsCounter.started == old(fpsCounter.started)
      ensures previousFrameSkipped.None? <==> MustWait(old(View()))
      ensures previousFrameSkipped.None? ==> View() == old(View()) && fpsCounter.View() == old(fpsCounter.View())
      ensures previousFrameSkipped.Some? ==>
                && View() == Offered(old(View())) && renderingFrame == old(decodingFrame)
                && previousFrameSkipped.value == !old(View()).consumed
                && var counted := previousFrameSkipped.value && !renderExpiredFrames && old(fpsCounter.started);
                   fpsCounter.View() == if counted then Called(old(fpsCounter.View()), Skipped(now)).0 else old(fpsCounter.View())
    {
      if renderExpiredFrames {
        if !renderingFrameConsumed && !interrupted {
          return None;
        }
      } else if !renderingFrameConsumed {
        fpsCounter.AddSkippedFrame(now);
      }
      SwapFrames();
      previousFrameSkipped := Some(!renderingFrameConsumed);
      renderingFrameConsumed := false;
    }

    /** The requires is the source's assertion; FrameHandOff proves that it holds whenever this is called. */
    method ConsumeRenderedFrame(now: uint32) returns (frame: AVFrame)
      requires Valid() && !renderingFrameConsumed
      modifies this`renderingFrameConsumed, fpsCounter
      ensures Valid() && View() == Consumed(old(View()))
      ensures frame == renderingFrame && frame.picture == Rendering(old(View())) && frame != decodingFrame
      ensures fpsCounter.started == old(fpsCounter.started)
      ensures fpsCounter.View() ==
              if fpsCounter.started then Called(old(fpsCounter.View()), Rendered(now)).0 else old(fpsCounter.View())
    {
      renderingFrameConsumed := true;
      fpsCounter.AddRenderedFrame(now);
      frame := renderingFrame;
    }

    /** The flag; the signal comes after the mutex is released. */
    method Interrupt()
      requires Valid()
      modifies this`interrupted
      ensures Valid() && View() == Interrupted(old(View()))
    {
      if renderExpiredFrames {
        interrupted := true;
      }
    }
  }
}
