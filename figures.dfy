/** The figure catalog, spawn placement and the game-over test. The shape
    matrices of the figure classes are not part of this model: a figure
    carries only its variant, its position and the width of its matrix. */
module Figures {

  /** The figure classes the game can instantiate. */
  datatype Variant =
    | IFigure
    | LFigure
    | LFlippedFigure
    | SFigure
    | SFlippedFigure
    | SquareFigure
    | TFigure

  /** The table a new figure is drawn from, uniformly by index; the I
      figure has two slots, so it comes twice as often as any other. */
  const Catalog: seq<Variant> :=
    [IFigure, IFigure, LFigure, LFlippedFigure, SFigure, SFlippedFigure, SquareFigure, TFigure]

  /** A grid coordinate; (0, 0) is the top-left cell and y grows downwards. */
  datatype Point = Point(x: int, y: int)

  /** A piece: its variant, the position of its matrix and that matrix's width. */
  datatype Figure = Figure(variant: Variant, position: Point, width: nat)

  /** The table has eight entries: two for the I figure, one for each other variant. */
  lemma CatalogWeights()
    ensures |Catalog| == 8
    ensures multiset(Catalog)[IFigure] == 2
    ensures forall v: Variant :: v != IFigure ==> multiset(Catalog)[v] == 1
  {
    assert multiset(Catalog) == multiset{IFigure, IFigure, LFigure, LFlippedFigure,
                                         SFigure, SFlippedFigure, SquareFigure, TFigure};
  }

  /** Kotlin's integer division by 2, which rounds towards zero
      (Dafny's own division rounds towards minus infinity for negatives). */
  function TruncHalf(a: int): (q: int)
    ensures a >= 0 ==> 0 <= 2 * q <= a <= 2 * q + 1
    ensures a < 0 ==> 2 * q - 1 <= a <= 2 * q <= 0
  {
    if a >= 0 then a / 2 else -((-a) / 2)
  }

  /** The figure created for table entry `index`: on row 0, horizontally
      centred in an area `areaWidth` cells wide. `widthOf` gives the matrix
      width of a freshly created figure of each variant. */
  function Spawn(index: nat, widthOf: Variant -> nat, areaWidth: int): (f: Figure)
    requires index < |Catalog|
    ensures f.variant == Catalog[index] && f.width == widthOf(f.variant)
    ensures f.position.y == 0
    ensures f.width <= areaWidth ==> 0 <= f.position.x && f.position.x + f.width <= areaWidth
    // the right-hand gap exceeds the left-hand one by at most one cell
    ensures f.width <= areaWidth ==>
      0 <= (areaWidth - f.position.x - f.width) - f.position.x <= 1
  {
    var variant := Catalog[index];
    var width := widthOf(variant);
    Figure(variant, Point(TruncHalf(areaWidth - width), 0), width)
  }

  /** A figure wider than the area does not fit on either side, and its
      right-hand overhang exceeds the left-hand one by at most one cell. */
  lemma SpawnWiderThanArea(index: nat, widthOf: Variant -> nat, areaWidth: int)
    requires index < |Catalog|
    requires widthOf(Catalog[index]) > areaWidth
    ensures var f := Spawn(index, widthOf, areaWidth);
      var left, right := -f.position.x, f.position.x + f.width - areaWidth;
      0 <= left <= right <= left + 1
  {
  }

  /** The game is over when the figure that could not descend further is
      still on (or above) the top row. */
  predicate IsGameOver(f: Figure)
    // figures never rise above their spawn row, so this means "still on row 0"
    ensures f.position.y >= 0 ==> (IsGameOver(f) <==> f.position.y == 0)
  {
    f.position.y <= 0
  }
}
