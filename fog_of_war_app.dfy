/** The running application: the fields of the application state and of the
    application object, updated in place by the same steps, in the same
    order, as the frame loop does. Each method is proved to take the state
    `Model()` to the value the matching function of AppSpec gives. */
module FogOfWar {
  import opened FogLayer
  import opened AppSpec

  class FogOfWarApp {
    // application state
    var running: bool
    var leftMouseDown: bool
    var rightMouseDown: bool
    var xOffset: real
    var yOffset: real
    // the current, possibly rescaled, image; only its size matters here
    var imageWidth: nat
    var imageHeight: nat
    // the window
    var screenWidth: int
    var screenHeight: int
    // the fog surface, one alpha value per pixel
    var blackLayer: array2<Alpha>

    /** The state as a value. */
    ghost function Model(): View
      reads this, blackLayer
    {
      View(running, leftMouseDown, rightMouseDown, xOffset, yOffset,
           imageWidth, imageHeight, screenWidth, screenHeight, MaskOf(blackLayer))
    }

    /** The fog surface has the size of the image. */
    ghost predicate Valid()
      reads this, blackLayer
    {
      Aligned(Model())
    }

    /** Start-up once an image of the given size is loaded: the window is the
        image size capped at 1920 x 1080, and an image-sized fog surface is
        created and filled fully opaque. */
    constructor (originalImageWidth: nat, originalImageHeight: nat)
      ensures Model() == Initial(originalImageWidth, originalImageHeight)
      ensures Valid()
      ensures fresh(blackLayer)
    {
      var layer := new Alpha[originalImageWidth, originalImageHeight];
      Fill(layer, Opaque);
      running := true;
      leftMouseDown := false;
      rightMouseDown := false;
      xOffset := 0.0;
      yOffset := 0.0;
      imageWidth := originalImageWidth;
      imageHeight := originalImageHeight;
      screenWidth := if originalImageWidth < MaxScreenWidth then originalImageWidth else MaxScreenWidth;
      screenHeight := if originalImageHeight < MaxScreenHeight then originalImageHeight else MaxScreenHeight;
      blackLayer := layer;
    }

    /** A wheel step: the image takes the size `f` gives for its size, and the
        fog surface is replaced by a rescaled copy of the size `f` gives for
        the fog's own size. */
    method Rescale(f: DimScale)
      modifies this
      ensures Model() == Rescaled(old(Model()), f)
      ensures fresh(blackLayer)
    {
      imageWidth, imageHeight := f(imageWidth), f(imageHeight);
      blackLayer := Resample(blackLayer, f(blackLayer.Length0), f(blackLayer.Length1));
    }

    /** One event of the queue. */
    method HandleEvent(e: Event, zoom: Zoom)
      modifies this
      ensures Model() == AfterEvent(old(Model()), e, zoom)
      ensures blackLayer == old(blackLayer) || fresh(blackLayer)
    {
      match e {
        case Quit =>
          running := false;
        case MouseButtonDown(b) =>
          if b == LeftButton {
            leftMouseDown := true;
          } else if b == RightButton {
            rightMouseDown := true;
          } else if b == WheelUp {
            Rescale(zoom.zoomIn);
          } else if b == WheelDown {
            Rescale(zoom.zoomOut);
          }
        case MouseButtonUp(b) =>
          if b == LeftButton {
            leftMouseDown := false;
          } else if b == RightButton {
            rightMouseDown := false;
          }
        case VideoResize(w, h) =>
          screenWidth, screenHeight := w, h;
        case OtherEvent =>
      }
    }

    /** Drains the event queue of one frame, in order. */
    method HandleEvents(events: seq<Event>, zoom: Zoom)
      modifies this
      ensures Model() == AfterEvents(old(Model()), events, zoom)
      ensures blackLayer == old(blackLayer) || fresh(blackLayer)
    {
      var i := 0;
      while i < |events|
        invariant 0 <= i <= |events|
        invariant AfterEvents(old(Model()), events, zoom) == AfterEvents(Model(), events[i..], zoom)
        invariant blackLayer == old(blackLayer) || fresh(blackLayer)
      {
        HandleEvent(events[i], zoom);
        assert events[i..][1..] == events[i + 1..];
        i := i + 1;
      }
    }

    /** Pans by one step for each arrow key held. */
    method HandlePressedKeys(keys: Keys)
      modifies this
      ensures Model() == AfterKeys(old(Model()), keys)
      ensures blackLayer == old(blackLayer)
    {
      var offset := ImageMovementSpeed as real / Framerate as real;
      if keys.left {
        xOffset := xOffset + offset;
      }
      if keys.right {
        xOffset := xOffset - offset;
      }
      if keys.up {
        yOffset := yOffset + offset;
      }
      if keys.down {
        yOffset := yOffset - offset;
      }
    }

    /** Paints the fog under the pointer: reveal while the left button is
        held, then hide while the right button is held. */
    method UpdateSurfaces(mouseX: int, mouseY: int)
      modifies blackLayer
      ensures Model() == AfterBrush(old(Model()), mouseX, mouseY)
    {
      var disc := Disc(mouseX as real - xOffset, mouseY as real - yOffset, BrushRadius);
      if leftMouseDown {
        Paint(blackLayer, disc, Transparent);
      }
      if rightMouseDown {
        Paint(blackLayer, disc, Opaque);
      }
    }

    /** One iteration of the run loop (redraw and frame timing aside). */
    method Frame(input: FrameInput, zoom: Zoom)
      modifies this, blackLayer
      ensures Model() == AfterFrame(old(Model()), input, zoom)
      ensures old(Valid()) ==> Valid()
      ensures blackLayer == old(blackLayer) || fresh(blackLayer)
    {
      ghost var start := Model();
      HandleEvents(input.events, zoom);
      HandlePressedKeys(input.keys);
      UpdateSurfaces(input.mouseX, input.mouseY);
      if old(Valid()) {
        AlignedAfterFrame(start, input, zoom);
      }
    }

    /** The run loop: frames while the run flag is set, reading the input of
        frame k from `inputs[k]`; returns how many frames ran. */
    method Run(inputs: seq<FrameInput>, zoom: Zoom) returns (frames: nat)
      modifies this, blackLayer
      ensures Model() == AfterSession(old(Model()), inputs, zoom)
      ensures frames == FramesRun(old(Model()), inputs, zoom)
      ensures old(Valid()) ==> Valid()
    {
      frames := 0;
      while running && frames < |inputs|
        invariant 0 <= frames <= |inputs|
        invariant AfterSession(old(Model()), inputs, zoom) == AfterSession(Model(), inputs[frames..], zoom)
        invariant FramesRun(old(Model()), inputs, zoom) == frames + FramesRun(Model(), inputs[frames..], zoom)
        invariant old(Valid()) ==> Valid()
        invariant blackLayer == old(blackLayer) || fresh(blackLayer)
      {
        Frame(inputs[frames], zoom);
        assert inputs[frames..][1..] == inputs[frames + 1..];
        frames := frames + 1;
      }
    }
  }
}
