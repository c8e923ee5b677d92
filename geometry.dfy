/** The side-by-side comparison view built on every polling tick: the live
    frame on the left, the registered photo, rescaled to the live frame's size,
    on the right, each with a caption in its top-left corner. Only sizes and
    offsets are modelled; pixels, fonts and colours are not. */
module Geometry {

  datatype Size = Size(width: nat, height: nat)

  datatype Point = Point(x: nat, y: nat)

  /** An image of a given size pasted with its top-left corner at `at`. */
  datatype Placement = Placement(at: Point, size: Size)

  datatype Caption = Caption(at: Point, text: string)

  datatype Composite = Composite(
    canvas: Size,
    live: Placement,
    registered: Placement,
    liveCaption: Caption,
    registeredCaption: Caption)

  const LiveCaptionText: string := "Live Camera"
  const RegisteredCaptionText: string := "Registered Image"

  /** Offset of each caption from the top-left corner of its half. */
  const CaptionInset: nat := 10

  function Max(a: nat, b: nat): nat {
    if a < b then b else a
  }

  /** The placement lies inside the canvas. */
  predicate Inside(p: Placement, canvas: Size) {
    p.at.x + p.size.width <= canvas.width && p.at.y + p.size.height <= canvas.height
  }

  /** Builds the comparison view for a live frame of size `live` and a
      registered photo of size `registered`. The photo is resized to the live
      size first, so its own size never shows: the canvas is two live frames
      wide and one high, the halves abut at x = live width and together cover
      the canvas, and both captions sit at the same inset from their half. */
  function Compose(live: Size, registered: Size): (c: Composite)
    ensures c.canvas == Size(2 * live.width, live.height)
    ensures c.registered.size == live && c.live.size == live
    ensures c.live.at == Point(0, 0)
    ensures c.registered.at == Point(c.live.at.x + c.live.size.width, 0)
    ensures c.registered.at.x + c.registered.size.width == c.canvas.width
    ensures Inside(c.live, c.canvas) && Inside(c.registered, c.canvas)
    ensures c.liveCaption == Caption(Point(c.live.at.x + CaptionInset, c.live.at.y + CaptionInset), LiveCaptionText)
    ensures c.registeredCaption == Caption(Point(c.registered.at.x + CaptionInset, c.registered.at.y + CaptionInset), RegisteredCaptionText)
  {
    var resized := live;
    var canvas := Size(live.width + resized.width, Max(live.height, resized.height));
    Composite(
      canvas,
      Placement(Point(0, 0), live),
      Placement(Point(live.width, 0), resized),
      Caption(Point(10, 10), LiveCaptionText),
      Caption(Point(live.width + 10, 10), RegisteredCaptionText))
  }

  /** The registered photo's own dimensions have no effect on the view. */
  lemma ComposeIgnoresRegisteredSize(live: Size, a: Size, b: Size)
    ensures Compose(live, a) == Compose(live, b)
  {
  }
}
