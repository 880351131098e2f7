/**
  The click history of the preview: every press records one image-space
  point, and the overlay rectangle is taken from the clicks two at a time.
  A rectangle is shown only when the number of clicks is even and at least
  two; its corners are then the last two clicks, in the order they came.
 */
module ClickSelection {
  import opened Wrappers

  /** A click position in image coordinates (already rounded to whole pixels). */
  datatype Point = Point(x: int, y: int)

  /** A rectangle given by two opposite corners, in the order they were clicked. */
  datatype Rect = Rect(corner1: Point, corner2: Point)

  /**
    The rectangles the clicks describe when read as consecutive pairs from
    the first click on; an unpaired last click forms no rectangle.
   */
  function Pairs(clicks: seq<Point>): (rs: seq<Rect>)
    ensures |rs| == |clicks| / 2
  {
    if |clicks| < 2 then [] else [Rect(clicks[0], clicks[1])] + Pairs(clicks[2..])
  }

  /** After an even prefix, the remaining clicks pair up on their own. */
  lemma {:induction false} PairsAppend(prefix: seq<Point>, rest: seq<Point>)
    requires |prefix| % 2 == 0
    ensures Pairs(prefix + rest) == Pairs(prefix) + Pairs(rest)
  {
    if |prefix| >= 2 {
      assert (prefix + rest)[2..] == prefix[2..] + rest;
      PairsAppend(prefix[2..], rest);
    } else {
      assert prefix == [];
      assert prefix + rest == rest;
    }
  }

  /**
    The selection rule of `getImage`. The overlay is present exactly when the
    clicks split into complete pairs (at least one), and it is the most
    recent pair.
   */
  function SelectedRect(clicks: seq<Point>): (r: Option<Rect>)
    ensures r.Some? <==> |clicks| % 2 == 0 && Pairs(clicks) != []
    ensures r.Some? ==> r.value == Pairs(clicks)[|Pairs(clicks)| - 1]
  {
    var n := |clicks|;
    if n >= 2 && n % 2 == 0 then
      var prefix, last := clicks[..n - 2], clicks[n - 2..];
      assert clicks == prefix + last;
      PairsAppend(prefix, last);
      assert Pairs(last) == [Rect(clicks[n - 2], clicks[n - 1])];
      Some(Rect(clicks[n - 2], clicks[n - 1]))
    else
      None
  }

  /** A press after complete pairs hides the rectangle until its partner arrives. */
  lemma UnpairedPressHides(clicks: seq<Point>, p: Point)
    requires |clicks| % 2 == 0
    ensures SelectedRect(clicks + [p]) == None
  {
  }

  /** Two presses after complete pairs select exactly the rectangle between them. */
  lemma PairedPressesSelect(clicks: seq<Point>, p: Point, q: Point)
    requires |clicks| % 2 == 0
    ensures SelectedRect(clicks + [p, q]) == Some(Rect(p, q))
  {
  }
}
