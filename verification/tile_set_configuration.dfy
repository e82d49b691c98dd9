/**
  The exclusion rules of the tile-set configuration control
  (src/UI/Controls/TileSetConfigurationControl.xaml.cs): the `(x;y)` and
  `(x1;y1)-(x2;y2)` text forms, adding exclusions from text, toggling a
  dragged rectangle of tiles, and the "perfect fit" indicator.

  The excluded tiles are the control's `ObservableSet<Point>`. WPF points
  hold doubles; every point the control creates has whole coordinates, so
  they are integers here. The two numeric up-downs are nullable integers.
*/
module TileSetConfiguration {
  import opened Wrappers
  import Text
  import Seqs
  import ObservableSets
  import opened VaultData

  /** The values of the X and Y count up-downs; `None` when a box is empty. */
  datatype Counts = Counts(x: Option<int>, y: Option<int>)

  type Tiles = ObservableSets.SetState<Point>

  /** The `XCount` / `YCount` properties: an empty up-down reads as -1. */
  function CountValue(v: Option<int>): int
  {
    if v.Some? then v.value else -1
  }

  /** C#'s lifted `a >= bound` on `int?`: false when the bound is null. */
  predicate AtLeast(a: int, bound: Option<int>)
  {
    bound.Some? && a >= bound.value
  }

  /** A point the text parser may accept: non-negative and below every count that is set. */
  predicate Admissible(p: Point, counts: Counts)
  {
    && 0 <= p.x && 0 <= p.y
    && (counts.x.Some? ==> p.x < counts.x.value)
    && (counts.y.Some? ==> p.y < counts.y.value)
  }

  /**
    `text` reads as the point `p`: parentheses around two `;`-separated
    pieces that `int.TryParse` reads as the coordinates.
  */
  predicate Denotes(text: string, p: Point)
  {
    && |text| >= 2 && text[0] == '(' && text[|text| - 1] == ')'
    && var pieces := Text.Split(text[1..|text| - 1], ';');
      && |pieces| == 2
      && Text.ParseInt(pieces[0]) == Some(p.x)
      && Text.ParseInt(pieces[1]) == Some(p.y)
  }

  /** `GetExcludedPoint`: parses `(x;y)` and checks it against the counts. */
  function GetExcludedPoint(text: string, counts: Counts): (r: Option<Point>)
    ensures r.Some? ==> Denotes(text, r.value) && Admissible(r.value, counts)
    ensures forall p | Denotes(text, p) && Admissible(p, counts) :: r == Some(p)
  {
    if text == [] then None
    else if text[0] != '(' || text[|text| - 1] != ')' then None
    else
      var numbers := Text.Split(text[1..|text| - 1], ';');
      if |numbers| != 2 then None
      else
        match (Text.ParseInt(numbers[0]), Text.ParseInt(numbers[1]))
        case (Some(x), Some(y)) =>
          if x < 0 || AtLeast(x, counts.x) || y < 0 || AtLeast(y, counts.y) then None
          else Some(Point(x, y))
        case _ => None
  }

  /** The text form of a point: `(x;y)`. */
  function FormatPoint(p: Point): string
  {
    "(" + Text.ShowInt(p.x) + ";" + Text.ShowInt(p.y) + ")"
  }

  /** Coordinates that `int.TryParse` can read back. */
  predicate Fits32(p: Point)
  {
    Text.IntMin <= p.x <= Text.IntMax && Text.IntMin <= p.y <= Text.IntMax
  }

  /** Every admissible point is accepted in its own text form. */
  lemma PointRoundTrip(p: Point, counts: Counts)
    requires Admissible(p, counts) && Fits32(p)
    ensures GetExcludedPoint(FormatPoint(p), counts) == Some(p)
  {
    var sx := Text.ShowInt(p.x);
    var sy := Text.ShowInt(p.y);
    var text := FormatPoint(p);
    Text.ShowNatHasNoSign(p.x);
    Text.ShowNatHasNoSign(p.y);
    assert text[1..|text| - 1] == sx + [';'] + sy;
    Text.SplitPair(sx, sy, ';');
    Text.ParseShowInt(p.x);
    Text.ParseShowInt(p.y);
  }

  /** `GetExclusionRange`: exactly two `-`-separated pieces, each an accepted point. */
  function GetExclusionRange(text: string, counts: Counts): (r: Option<(Point, Point)>)
    ensures var pieces := Text.Split(text, '-');
      r.Some? <==> |pieces| == 2 && GetExcludedPoint(pieces[0], counts).Some? && GetExcludedPoint(pieces[1], counts).Some?
    ensures var pieces := Text.Split(text, '-');
      r.Some? ==> GetExcludedPoint(pieces[0], counts) == Some(r.value.0) && GetExcludedPoint(pieces[1], counts) == Some(r.value.1)
    ensures r.Some? ==> Admissible(r.value.0, counts) && Admissible(r.value.1, counts)
  {
    var points := Text.Split(text, '-');
    if |points| != 2 then None
    else
      match (GetExcludedPoint(points[0], counts), GetExcludedPoint(points[1], counts))
      case (Some(p1), Some(p2)) => Some((p1, p2))
      case _ => None
  }

  /** An accepted text may differ from its point's own form (`(+1;01)`), but that form is accepted too and means the same point. */
  lemma ParsedPointReformats(text: string, counts: Counts)
    requires GetExcludedPoint(text, counts).Some?
    ensures var p := GetExcludedPoint(text, counts).value;
      GetExcludedPoint(FormatPoint(p), counts) == Some(p)
  {
    PointRoundTrip(GetExcludedPoint(text, counts).value, counts);
  }

  /** The text form of a range: `(x1;y1)-(x2;y2)`. */
  function FormatRange(p1: Point, p2: Point): string
  {
    FormatPoint(p1) + "-" + FormatPoint(p2)
  }

  /** Every pair of admissible points is accepted in its own range form. */
  lemma RangeRoundTrip(p1: Point, p2: Point, counts: Counts)
    requires Admissible(p1, counts) && Admissible(p2, counts) && Fits32(p1) && Fits32(p2)
    ensures GetExclusionRange(FormatRange(p1, p2), counts) == Some((p1, p2))
  {
    NoDashInPoint(p1);
    NoDashInPoint(p2);
    Text.SplitPair(FormatPoint(p1), FormatPoint(p2), '-');
    PointRoundTrip(p1, counts);
    PointRoundTrip(p2, counts);
  }

  /** An accepted range text may differ from its own form, but that form is accepted too and means the same corners. */
  lemma ParsedRangeReformats(text: string, counts: Counts)
    requires GetExclusionRange(text, counts).Some?
    ensures var (p1, p2) := GetExclusionRange(text, counts).value;
      GetExclusionRange(FormatRange(p1, p2), counts) == Some((p1, p2))
  {
    var (p1, p2) := GetExclusionRange(text, counts).value;
    RangeRoundTrip(p1, p2, counts);
  }

  /** A point with non-negative coordinates is written without a dash. */
  lemma NoDashInPoint(p: Point)
    requires 0 <= p.x && 0 <= p.y
    ensures '-' !in FormatPoint(p)
  {
    Text.ShowNatHasNoSign(p.x);
    Text.ShowNatHasNoSign(p.y);
    var text := FormatPoint(p);
    assert text == "(" + Text.ShowNat(p.x) + ";" + Text.ShowNat(p.y) + ")";
  }

  /**
    `TryAddExclusion` either finishes, answering whether it succeeded, or
    never returns normally: `Hangs` covers both a loop that spins forever
    and one that keeps adding tiles until memory runs out.
  */
  datatype AddOutcome = Done(tiles: Tiles, succeeded: bool) | Hangs

  /**
    `TryAddExclusion` as written. A single point is added to the set. For a
    range, the two nested loops test only the corners, never the loop
    variables, so when x1 <= x2 the outer loop never ends, and otherwise it
    does not run and the call reports success without adding anything.
    With y1 <= y2 as well, the inner loop keeps adding new tiles (0, y)
    until memory runs out and the exception escapes; with y1 > y2 the
    outer loop spins without adding anything.
  */
  function TryAddExclusion(text: string, counts: Counts, tiles: Tiles): (r: AddOutcome)
    ensures '-' !in text ==> r.Done?
    ensures '-' !in text ==> (r.succeeded <==> GetExcludedPoint(text, counts).Some?)
    ensures '-' !in text && r.succeeded ==>
      r.tiles.items == tiles.items + {GetExcludedPoint(text, counts).value}
    ensures r.Done? && !r.succeeded ==> r.tiles == tiles
    ensures '-' in text && r.Done? ==> r.tiles == tiles
  {
    if text == [] then Done(tiles, false)
    else if '-' !in text then
      match GetExcludedPoint(text, counts)
      case None => Done(tiles, false)
      case Some(p) => Done(ObservableSets.Add(tiles, p).0, true)
    else
      match GetExclusionRange(text, counts)
      case None => Done(tiles, false)
      case Some((p1, p2)) => if p1.x <= p2.x then Hangs else Done(tiles, true)
  }

  /** Adding a point that is already excluded still succeeds and changes nothing, notifications included. */
  lemma AddExclusionIdempotent(p: Point, counts: Counts, tiles: Tiles)
    requires Admissible(p, counts) && Fits32(p) && p in tiles.items
    ensures TryAddExclusion(FormatPoint(p), counts, tiles) == Done(tiles, true)
  {
    PointRoundTrip(p, counts);
    NoDashInPoint(p);
  }

  /** The text form of an admissible point adds exactly that point. */
  lemma AddExclusionOfPoint(p: Point, counts: Counts, tiles: Tiles)
    requires Admissible(p, counts) && Fits32(p)
    ensures TryAddExclusion(FormatPoint(p), counts, tiles).Done?
    ensures TryAddExclusion(FormatPoint(p), counts, tiles).tiles.items == tiles.items + {p}
  {
    PointRoundTrip(p, counts);
    NoDashInPoint(p);
  }

  /** Any well-formed range whose first corner is not right of the second never returns normally. */
  lemma RangeNeverReturns(p1: Point, p2: Point, counts: Counts, tiles: Tiles)
    requires Admissible(p1, counts) && Admissible(p2, counts) && Fits32(p1) && Fits32(p2)
    requires p1.x <= p2.x
    ensures TryAddExclusion(FormatRange(p1, p2), counts, tiles) == Hangs
  {
    RangeRoundTrip(p1, p2, counts);
    var text := FormatRange(p1, p2);
    assert text[|FormatPoint(p1)|] == '-';
  }

  /** The tiles of the rectangle with corners (x0, y0) and (x1, y1), bounds included. */
  function Cells(x0: int, y0: int, x1: int, y1: int): set<Point>
  {
    set x, y | x0 <= x <= x1 && y0 <= y <= y1 :: Point(x, y)
  }

  predicate InRect(p: Point, x0: int, y0: int, x1: int, y1: int)
  {
    x0 <= p.x <= x1 && y0 <= p.y <= y1
  }

  lemma CellsMembership(x0: int, y0: int, x1: int, y1: int)
    ensures forall p :: p in Cells(x0, y0, x1, y1) <==> InRect(p, x0, y0, x1, y1)
  {
    forall p | InRect(p, x0, y0, x1, y1) ensures p in Cells(x0, y0, x1, y1) {
      assert p == Point(p.x, p.y);
    }
  }

  /**
    `TryAddExclusion` with the range loops corrected to walk the rectangle:
    a range adds every tile between its corners.
  */
  method TryAddExclusionIntended(text: string, counts: Counts, tiles: Tiles) returns (r: Tiles, succeeded: bool)
    ensures '-' !in text ==> TryAddExclusion(text, counts, tiles) == Done(r, succeeded)
    ensures '-' in text ==> (succeeded <==> GetExclusionRange(text, counts).Some?)
    ensures '-' in text && succeeded ==>
      var (p1, p2) := GetExclusionRange(text, counts).value;
      r.items == tiles.items + Cells(p1.x, p1.y, p2.x, p2.y)
    ensures !succeeded ==> r == tiles
  {
    if text == [] || '-' !in text {
      var outcome := TryAddExclusion(text, counts, tiles);
      return outcome.tiles, outcome.succeeded;
    }
    match GetExclusionRange(text, counts)
    case None =>
      return tiles, false;
    case Some((p1, p2)) =>
      r := AddRectangle(tiles, p1.x, p1.y, p2.x, p2.y);
      return r, true;
  }

  /** Adds the tiles of a rectangle one at a time, column by column. */
  method AddRectangle(tiles: Tiles, x1: int, y1: int, x2: int, y2: int) returns (r: Tiles)
    ensures r.items == tiles.items + Cells(x1, y1, x2, y2)
  {
    r := tiles;
    var x := x1;
    while x <= x2
      invariant x1 <= x || x == x1
      invariant x <= x2 + 1 || x == x1
      invariant forall p :: p in r.items <==> p in tiles.items || InRect(p, x1, y1, x - 1, y2)
    {
      var y := y1;
      while y <= y2
        invariant y <= y2 + 1 || y == y1
        invariant forall p :: p in r.items <==>
          p in tiles.items || InRect(p, x1, y1, x - 1, y2) || (p.x == x && y1 <= p.y < y)
      {
        r := ObservableSets.Add(r, Point(x, y)).0;
        y := y + 1;
      }
      x := x + 1;
    }
    CellsMembership(x1, y1, x2, y2);
  }

  /**
    The body of `Canvas_OnMouseUp` once the dragged rectangle has been
    turned into tile indices: the tiles of the rectangle are collected
    column by column; if every one of them is already excluded they are all
    removed, otherwise they are all added.
  */
  method ToggleRegion(tiles: Tiles, xStart: int, yStart: int, xEnd: int, yEnd: int) returns (r: Tiles)
    ensures Cells(xStart, yStart, xEnd, yEnd) <= tiles.items ==>
      r.items == tiles.items - Cells(xStart, yStart, xEnd, yEnd)
    ensures !(Cells(xStart, yStart, xEnd, yEnd) <= tiles.items) ==>
      r.items == tiles.items + Cells(xStart, yStart, xEnd, yEnd)
  {
    var allContained := true;
    var selected: seq<Point> := [];
    var x := xStart;
    while x <= xEnd
      invariant x <= xEnd + 1 || x == xStart
      invariant forall p :: p in selected <==> InRect(p, xStart, yStart, x - 1, yEnd)
      invariant allContained <==> forall p | p in selected :: p in tiles.items
    {
      var y := yStart;
      while y <= yEnd
        invariant y <= yEnd + 1 || y == yStart
        invariant forall p :: p in selected <==>
          InRect(p, xStart, yStart, x - 1, yEnd) || (p.x == x && yStart <= p.y < y)
        invariant allContained <==> forall p | p in selected :: p in tiles.items
      {
        var p := Point(x, y);
        if p !in tiles.items {
          allContained := false;
        }
        selected := selected + [p];
        y := y + 1;
      }
      x := x + 1;
    }
    CellsMembership(xStart, yStart, xEnd, yEnd);
    assert Seqs.Elements(selected) == Cells(xStart, yStart, xEnd, yEnd);
    if allContained {
      r := ObservableSets.ExceptWith(tiles, selected);
    } else {
      r := ObservableSets.UnionWith(tiles, selected);
    }
  }

  /** The end clamp of `Canvas_OnMouseUp` as written: an end past the count becomes the count. */
  function ClampAsWritten(end: int, count: int): (r: int)
    ensures r <= end && r <= count
    ensures r == end || r == count
  {
    if end > count then count else end
  }

  /** The clamp the grid needs: the last tile of a row or column has index count - 1. */
  function ClampToGrid(end: int, count: int): (r: int)
    ensures r <= end && r < count
    ensures r == end || r == count - 1
  {
    if end > count - 1 then count - 1 else end
  }

  /** Every tile lies inside the grid the counts describe. */
  ghost predicate InGrid(items: set<Point>, counts: Counts)
  {
    forall p | p in items :: 0 <= p.x < CountValue(counts.x) && 0 <= p.y < CountValue(counts.y)
  }

  /** `Canvas_OnMouseUp` as written, from the tile indices under the drag's corners. */
  method CanvasMouseUp(tiles: Tiles, counts: Counts, xStart: int, yStart: int, xEnd: int, yEnd: int)
    returns (r: Tiles)
    ensures var region := Cells(xStart, yStart,
      ClampAsWritten(xEnd, CountValue(counts.x)), ClampAsWritten(yEnd, CountValue(counts.y)));
      && (region <= tiles.items ==> r.items == tiles.items - region)
      && (!(region <= tiles.items) ==> r.items == tiles.items + region)
  {
    r := ToggleRegion(tiles, xStart, yStart,
      ClampAsWritten(xEnd, CountValue(counts.x)), ClampAsWritten(yEnd, CountValue(counts.y)));
  }

  /**
    With two columns, a drag reaching past the right edge selects column 2,
    which does not exist; toggling it on an empty set adds a tile outside
    the grid.
  */
  lemma ClampAsWrittenLeavesGrid()
    ensures var counts := Counts(Some(2), Some(2));
      var region := Cells(0, 0, ClampAsWritten(5, CountValue(counts.x)), ClampAsWritten(0, CountValue(counts.y)));
      && Point(2, 0) in region
      && !(region <= {})
      && !InGrid({} + region, counts)
  {
    CellsMembership(0, 0, 2, 0);
    assert InRect(Point(2, 0), 0, 0, 2, 0);
  }

  /** `Canvas_OnMouseUp` with the end clamped to the last tile: exclusions stay inside the grid. */
  method CanvasMouseUpIntended(tiles: Tiles, counts: Counts, xStart: int, yStart: int, xEnd: int, yEnd: int)
    returns (r: Tiles)
    ensures var region := Cells(xStart, yStart,
      ClampToGrid(xEnd, CountValue(counts.x)), ClampToGrid(yEnd, CountValue(counts.y)));
      && (region <= tiles.items ==> r.items == tiles.items - region)
      && (!(region <= tiles.items) ==> r.items == tiles.items + region)
    ensures 0 <= xStart && 0 <= yStart && InGrid(tiles.items, counts) ==> InGrid(r.items, counts)
  {
    var xLast := ClampToGrid(xEnd, CountValue(counts.x));
    var yLast := ClampToGrid(yEnd, CountValue(counts.y));
    r := ToggleRegion(tiles, xStart, yStart, xLast, yLast);
    CellsMembership(xStart, yStart, xLast, yLast);
  }

  /** A bitmap's pixel size. */
  datatype ImageSize = ImageSize(width: nat, height: nat)

  datatype Visibility = Visible | Hidden

  /** The integer remainder throws when the count it divides by is zero. */
  datatype FitError = DivideByZero

  /**
    `Nud_OnValueChanged`: the "perfect fit" mark shows when both counts and
    the image are present and the counts divide the image's width and
    height. The conjunction is evaluated left to right, so a zero count
    throws only once everything before it holds. The widths are never
    negative, where C#'s truncating remainder and Dafny's agree.
  */
  function PerfectFit(counts: Counts, image: Option<ImageSize>): (r: Result<Visibility, FitError>)
    ensures r.Err? ==> counts.x.Some? && counts.y.Some? && image.Some?
    ensures r.Err? ==> counts.x.value == 0 || counts.y.value == 0
    ensures counts.x.Some? && counts.y.Some? && counts.x.value != 0 && counts.y.value != 0 ==> r.Ok?
  {
    if counts.x.None? || counts.y.None? || image.None? then Ok(Hidden)
    else if counts.x.value == 0 then Err(DivideByZero)
    else if image.value.width % counts.x.value != 0 then Ok(Hidden)
    else if counts.y.value == 0 then Err(DivideByZero)
    else if image.value.height % counts.y.value != 0 then Ok(Hidden)
    else Ok(Visible)
  }

  /** The mark shows exactly when the image tiles into whole equal tiles. */
  lemma PerfectFitMeansTiling(counts: Counts, image: Option<ImageSize>)
    requires PerfectFit(counts, image) == Ok(Visible)
    ensures counts.x.Some? && counts.y.Some? && image.Some?
    ensures image.value.width == counts.x.value * (image.value.width / counts.x.value)
    ensures image.value.height == counts.y.value * (image.value.height / counts.y.value)
  {
  }

  lemma TilingMeansPerfectFit(xCount: int, yCount: int, tileWidth: int, tileHeight: int, image: ImageSize)
    requires xCount != 0 && yCount != 0
    requires image.width == xCount * tileWidth && image.height == yCount * tileHeight
    ensures PerfectFit(Counts(Some(xCount), Some(yCount)), Some(image)) == Ok(Visible)
  {
    MultipleHasNoRemainder(xCount, tileWidth);
    MultipleHasNoRemainder(yCount, tileHeight);
  }

  lemma MultipleHasNoRemainder(d: int, k: int)
    requires d != 0
    ensures (d * k) % d == 0
  {
    var q := (d * k) / d;
    var r := (d * k) % d;
    assert d * k == d * q + r && 0 <= r < if d < 0 then -d else d;
    assert d * (k - q) == r;
    if k != q {
      NonZeroProduct(d, k - q);
    }
  }

  lemma NonZeroProduct(d: int, m: int)
    requires d != 0 && m != 0
    ensures d * m >= d || d * m <= -d
    ensures d * m >= -d || d * m <= d
  {
  }

  /**
    The editor of one tile set: the settings it was opened with, which it
    keeps for the rest of its life, and the control's counts and excluded
    tiles.
  */
  datatype Editor = Editor(stored: TileSetSettings, counts: Counts, tiles: Tiles)

  /** Adding stored exclusions one by one with the public `Add`. */
  function LoadTiles(tiles: Tiles, points: seq<Point>): (r: Tiles)
    ensures r.items == tiles.items + Seqs.Elements(points)
    decreases |points|
  {
    if points == [] then tiles
    else
      assert Seqs.Elements(points) == {points[0]} + Seqs.Elements(points[1..]) by {
        assert points == [points[0]] + points[1..];
      }
      LoadTiles(ObservableSets.Add(tiles, points[0]).0, points[1..])
  }

  /** Opening the editor: the up-downs take the stored counts and a fresh set takes the stored exclusions. */
  function Open(settings: TileSetSettings): (r: Editor)
    ensures r.stored == settings
    ensures r.counts.x == Some(settings.xCount) && r.counts.y == Some(settings.yCount)
    ensures r.tiles.items == Seqs.Elements(settings.empty)
  {
    Editor(settings, Counts(Some(settings.xCount), Some(settings.yCount)),
           LoadTiles(ObservableSets.SetState({}, []), settings.empty))
  }

  /**
    Applying: the record handed to the vault carries the asset as opened,
    the counts as the `XCount`/`YCount` properties read them (-1 for an
    empty box), and the excluded tiles as `ToList` lists them: `listed`
    holds each of them once, in the order the set enumerates them. The
    editor itself, including the settings it was opened with, is left as
    it was.
  */
  function Apply(e: Editor, listed: seq<Point>): (r: (Editor, TileSetSettings))
    requires Seqs.Elements(listed) == e.tiles.items && Seqs.Distinct(listed)
    ensures r.0 == e
    ensures Seqs.Elements(r.1.empty) == e.tiles.items && Seqs.Distinct(r.1.empty)
    ensures r.1.asset == e.stored.asset && r.1.empty == listed
    ensures r.1.xCount == (if e.counts.x.Some? then e.counts.x.value else -1)
    ensures r.1.yCount == (if e.counts.y.Some? then e.counts.y.value else -1)
  {
    (e, TileSetSettings(e.stored.asset, CountValue(e.counts.x), CountValue(e.counts.y), listed))
  }

  /** Cancelling: the set is cleared and refilled, and the counts reset, from the settings the editor was opened with. */
  function Cancel(e: Editor): (r: Editor)
    ensures r.stored == e.stored
    ensures r.counts == Open(e.stored).counts
    ensures r.tiles.items == Open(e.stored).tiles.items
  {
    Editor(e.stored, Counts(Some(e.stored.xCount), Some(e.stored.yCount)),
           LoadTiles(ObservableSets.Clear(e.tiles), e.stored.empty))
  }

  /** What was applied opens again as the same tiles and counts, an empty count box coming back as -1. */
  lemma ApplyThenReopen(e: Editor, listed: seq<Point>)
    requires Seqs.Elements(listed) == e.tiles.items && Seqs.Distinct(listed)
    ensures var reopened := Open(Apply(e, listed).1);
      && reopened.tiles.items == e.tiles.items
      && reopened.counts == Counts(Some(CountValue(e.counts.x)), Some(CountValue(e.counts.y)))
      && reopened.stored.asset == e.stored.asset
  {
  }

  /** Cancelling after applying goes back to the settings as first opened, not to the applied ones. */
  lemma CancelAfterApplyRestoresOpened(e: Editor, listed: seq<Point>)
    requires Seqs.Elements(listed) == e.tiles.items && Seqs.Distinct(listed)
    ensures var back := Cancel(Apply(e, listed).0);
      && back.tiles.items == Seqs.Elements(e.stored.empty)
      && back.counts == Counts(Some(e.stored.xCount), Some(e.stored.yCount))
  {
  }
}
