/**
 * The three cover shapes of the tiling puzzle and the names under which
 * both programs (the solver and the visualiser) refer to them.
 */
module Shapes {
  import opened Wrappers

  /** Side length of a tile, TILE_SIZE in both programs. */
  const TILE_SIZE: nat := 4

  datatype Shape = FullBlock | OuterBoundary | ElShape

  /** The name a shape carries in the supply table and in the solution file. */
  function Name(s: Shape): string
  {
    match s
    case FullBlock => "FULL_BLOCK"
    case OuterBoundary => "OUTER_BOUNDARY"
    case ElShape => "EL_SHAPE"
  }

  /** Recognises a shape name; any other string is an unrecognised tile type. */
  function ShapeNamed(name: string): (r: Option<Shape>)
    ensures r.Some? ==> Name(r.value) == name
    ensures r.None? ==> forall s :: Name(s) != name
  {
    if name == "FULL_BLOCK" then Some(FullBlock)
    else if name == "OUTER_BOUNDARY" then Some(OuterBoundary)
    else if name == "EL_SHAPE" then Some(ElShape)
    else None
  }

  /**
   * The L pattern of EL_SHAPE: 1 marks a covered cell (column 0 and row 3).
   * The solver and the visualiser each hold this same literal.
   */
  const EL_SHAPE_PATTERN: seq<seq<int>> :=
    [[1, 0, 0, 0],
     [1, 0, 0, 0],
     [1, 0, 0, 0],
     [1, 1, 1, 1]]

  /** Distinct shapes carry distinct names, so a name picks out one shape. */
  lemma NamesDistinct(s: Shape, t: Shape)
    ensures Name(s) == Name(t) <==> s == t
  {
    assert |Name(FullBlock)| == 10 && |Name(OuterBoundary)| == 14 && |Name(ElShape)| == 8;
  }

  /** Reading a shape's name back gives the shape. */
  lemma ShapeNamedName(s: Shape)
    ensures ShapeNamed(Name(s)) == Some(s)
  {
    assert |Name(FullBlock)| == 10 && |Name(OuterBoundary)| == 14 && |Name(ElShape)| == 8;
  }
}
