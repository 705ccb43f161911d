/** Where `addWatermark` draws its text on a page (js/script.js:624-654).

    The text's footprint is estimated, not measured: half the font size per
    character wide and one font size high. The chosen anchor then fixes the
    draw origin (the lower-left corner of that footprint, in PDF coordinates
    with y growing upwards) a fixed margin away from the page edges, or
    centres the footprint on the page. Page sizes are PDF user-space units;
    JavaScript doubles are modelled as exact reals, which is faithful for the
    halving and subtraction done here. */
module Placement {

  /** The value of the position drop-down. Every value other than the four
      corner names, `"center"` included, takes the `default` arm. */
  datatype Position = TopLeft | TopRight | BottomLeft | BottomRight | Center | Other(name: string)

  function ParsePosition(s: string): Position {
    if s == "top-left" then TopLeft
    else if s == "top-right" then TopRight
    else if s == "bottom-left" then BottomLeft
    else if s == "bottom-right" then BottomRight
    else if s == "center" then Center
    else Other(s)
  }

  /** The drop-down value a position stands for. */
  function PositionName(p: Position): string {
    match p
    case TopLeft => "top-left"
    case TopRight => "top-right"
    case BottomLeft => "bottom-left"
    case BottomRight => "bottom-right"
    case Center => "center"
    case Other(s) => s
  }

  /** Reading a drop-down value loses nothing: the value is recovered. */
  lemma PositionNameParse(s: string)
    ensures PositionName(ParsePosition(s)) == s
  {
  }

  /** Every position `ParsePosition` can produce is read back unchanged. */
  lemma ParsePositionName(p: Position)
    requires p.Other? ==> ParsePosition(p.name) == p
    ensures ParsePosition(PositionName(p)) == p
  {
  }

  predicate IsLeft(p: Position) { p.TopLeft? || p.BottomLeft? }
  predicate IsRight(p: Position) { p.TopRight? || p.BottomRight? }
  predicate IsTop(p: Position) { p.TopLeft? || p.TopRight? }
  predicate IsBottom(p: Position) { p.BottomLeft? || p.BottomRight? }
  predicate IsCentred(p: Position) { p.Center? || p.Other? }

  /** The gap kept between a corner-anchored text and the page edges. */
  const Margin: real := 20.0

  /** The estimated width of `len` characters at font size `size`. */
  function TextWidth(len: nat, size: real): real {
    len as real * (size * 0.5)
  }

  datatype Origin = Origin(x: real, y: real)

  /** The draw origin for text of `len` characters at font size `size` on a
      `width` by `height` page. Each anchor puts the footprint's edges a
      margin away from the page edges it names; any other position puts the
      footprint's centre on the page's centre. */
  function Place(width: real, height: real, len: nat, size: real, pos: Position): (o: Origin)
    ensures IsLeft(pos) ==> o.x == Margin
    ensures IsRight(pos) ==> o.x + TextWidth(len, size) + Margin == width
    ensures IsBottom(pos) ==> o.y == Margin
    ensures IsTop(pos) ==> o.y + size + Margin == height
    ensures IsCentred(pos) ==> o.x + TextWidth(len, size) / 2.0 == width / 2.0
    ensures IsCentred(pos) ==> o.y + size / 2.0 == height / 2.0
  {
    var textWidth := TextWidth(len, size);
    var textHeight := size;
    match pos
    case TopLeft => Origin(Margin, height - Margin - textHeight)
    case TopRight => Origin(width - Margin - textWidth, height - Margin - textHeight)
    case BottomLeft => Origin(Margin, Margin)
    case BottomRight => Origin(width - Margin - textWidth, Margin)
    case Center => Origin((width / 2.0) - (textWidth / 2.0), (height / 2.0) - (textHeight / 2.0))
    case Other(_) => Origin((width / 2.0) - (textWidth / 2.0), (height / 2.0) - (textHeight / 2.0))
  }

  /** Bottom-left is always (20, 20), whatever the page and the text. */
  lemma BottomLeftIsFixed(width: real, height: real, len: nat, size: real)
    ensures Place(width, height, len, size, BottomLeft) == Origin(20.0, 20.0)
  {
  }

  /** A 200 by 300 page with six characters at size 40 anchored top-right:
      the footprint is 120 wide, so the origin is (60, 240). */
  lemma TopRightExample()
    ensures Place(200.0, 300.0, 6, 40.0, TopRight) == Origin(60.0, 240.0)
  {
  }

  /** The two top anchors share a y, as do the two bottom ones; the two left
      anchors share an x, as do the two right ones. */
  lemma AnchorsShareEdges(width: real, height: real, len: nat, size: real)
    ensures Place(width, height, len, size, TopLeft).y == Place(width, height, len, size, TopRight).y
    ensures Place(width, height, len, size, BottomLeft).y == Place(width, height, len, size, BottomRight).y
    ensures Place(width, height, len, size, TopLeft).x == Place(width, height, len, size, BottomLeft).x
    ensures Place(width, height, len, size, TopRight).x == Place(width, height, len, size, BottomRight).x
  {
  }

  /** Left and right anchors mirror each other about the page's vertical
      centre line, and top and bottom anchors about its horizontal one. */
  lemma AnchorsMirror(width: real, height: real, len: nat, size: real)
    ensures var l := Place(width, height, len, size, TopLeft);
      var r := Place(width, height, len, size, TopRight);
      l.x + (r.x + TextWidth(len, size)) == width
    ensures var t := Place(width, height, len, size, TopLeft);
      var b := Place(width, height, len, size, BottomLeft);
      b.y + (t.y + size) == height
  {
  }

  /** Every drop-down value that is not a corner name, `"center"` included,
      gives the centred origin. */
  lemma UnknownPositionIsCentred(width: real, height: real, len: nat, size: real, s: string)
    requires s !in {"top-left", "top-right", "bottom-left", "bottom-right"}
    ensures Place(width, height, len, size, ParsePosition(s)) == Place(width, height, len, size, Center)
  {
  }

  /** When the footprint plus both margins fits across and up the page, the
      footprint lies on the page for every position. */
  lemma FootprintOnPage(width: real, height: real, len: nat, size: real, pos: Position)
    requires size >= 0.0
    requires TextWidth(len, size) + 2.0 * Margin <= width
    requires size + 2.0 * Margin <= height
    ensures var o := Place(width, height, len, size, pos);
      0.0 <= o.x && o.x + TextWidth(len, size) <= width
      && 0.0 <= o.y && o.y + size <= height
  {
  }
}
