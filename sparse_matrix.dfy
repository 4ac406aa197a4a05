/**
 * A bounded 3D store that keeps only the cells written so far, in a dictionary
 * keyed by "x_y_z"; every other in-range cell reads as the empty value of an
 * injected emptiness policy. Cells are write-once.
 */
module SparseMatrices {
  import opened Wrappers
  import opened DictKeys

  /**
   * What "no value here" means for a cell: the value an unwritten cell reads
   * as (GetEmptyItem) and the test that recognises an empty value (CheckEmptyItem).
   */
  datatype EmptyPolicy<!T> = EmptyPolicy(emptyItem: T, isEmpty: T -> bool)
  {
    /** Every policy is meant to recognise its own empty value. */
    predicate Lawful()
    {
      isEmpty(emptyItem)
    }
  }

  /** The policy for figures: the empty figure is the null reference. */
  function FigureCheckEmpty(): (p: EmptyPolicy<object?>)
    ensures p.Lawful() && p.emptyItem == null
  {
    EmptyPolicy(null, (f: object?) => f == null)
  }

  datatype Axis = X | Y | Z

  datatype MatrixError =
    | OutOfRange(axis: Axis, value: int)  // the axis and the coordinate that is outside [0, max)
    | DuplicateKey(key: string)           // the cell was written before

  /** What a cell shows when rendered and its value counts as empty. */
  const Placeholder: string := " - "

  /** Number of iterations of a loop counting from 0 up to n. */
  function Extent(n: int): nat
  {
    if n < 0 then 0 else n
  }

  class SparseMatrix<T> {
    /** The dictionary: one entry per written cell, under the cell's key. */
    var matrix: map<string, T>
    const maxX: int
    const maxY: int
    const maxZ: int
    const checkEmpty: EmptyPolicy<T>

    predicate InBounds(x: int, y: int, z: int)
    {
      0 <= x < maxX && 0 <= y < maxY && 0 <= z < maxZ
    }

    /** `key` is the key of an in-range cell. */
    predicate IsCellKey(key: string)
    {
      var (x, y, z) := ParseKey(key);
      InBounds(x, y, z) && DictKey(x, y, z) == key
    }

    /** Every stored key is the key of an in-range cell. */
    ghost predicate Valid()
      reads this
    {
      forall key :: key in matrix ==> IsCellKey(key)
    }

    /** Cell (x, y, z) has been written. */
    ghost predicate Written(x: int, y: int, z: int)
      reads this
    {
      DictKey(x, y, z) in matrix
    }

    /** What reading cell (x, y, z) yields once its bounds are checked. */
    ghost function Value(x: int, y: int, z: int): T
      reads this
    {
      if Written(x, y, z) then matrix[DictKey(x, y, z)] else checkEmpty.emptyItem
    }

    /** The text a cell holding `v` renders as. */
    function CellText(show: T -> string, v: T): string
    {
      if !checkEmpty.isEmpty(v) then show(v) else Placeholder
    }

    constructor (px: int, py: int, pz: int, checkEmptyParam: EmptyPolicy<T>)
      ensures Valid() && matrix == map[]
      ensures maxX == px && maxY == py && maxZ == pz && checkEmpty == checkEmptyParam
    {
      maxX, maxY, maxZ := px, py, pz;
      checkEmpty := checkEmptyParam;
      matrix := map[];
    }

    /** Passes exactly for in-range cells; otherwise names the first offending axis, in the order x, y, z. */
    function CheckBounds(x: int, y: int, z: int): (r: Outcome<MatrixError>)
      ensures r.Pass? <==> InBounds(x, y, z)
      ensures r.Fail? ==> r.error.OutOfRange?
      ensures r == Fail(OutOfRange(X, x)) <==> !(0 <= x < maxX)
      ensures r == Fail(OutOfRange(Y, y)) <==> 0 <= x < maxX && !(0 <= y < maxY)
      ensures r == Fail(OutOfRange(Z, z)) <==> 0 <= x < maxX && 0 <= y < maxY && !(0 <= z < maxZ)
    {
      if x < 0 || x >= maxX then Fail(OutOfRange(X, x))
      else if y < 0 || y >= maxY then Fail(OutOfRange(Y, y))
      else if z < 0 || z >= maxZ then Fail(OutOfRange(Z, z))
      else Pass
    }

    /**
     * The indexer's setter: writes a cell that has not been written before.
     * Afterwards that cell reads as `value` and every other cell reads as before.
     */
    method Set(x: int, y: int, z: int, value: T) returns (r: Outcome<MatrixError>)
      requires Valid()
      modifies this
      ensures Valid()
      ensures !InBounds(x, y, z) ==> r == CheckBounds(x, y, z)
      ensures InBounds(x, y, z) && old(Written(x, y, z)) ==> r == Fail(DuplicateKey(DictKey(x, y, z)))
      ensures InBounds(x, y, z) && !old(Written(x, y, z)) ==> r == Pass
      ensures r.Fail? ==> matrix == old(matrix)
      ensures r.Pass? ==> Written(x, y, z) && Value(x, y, z) == value && |matrix| == old(|matrix|) + 1
      ensures forall x', y', z' :: (x', y', z') != (x, y, z) ==>
        (Written(x', y', z') <==> old(Written(x', y', z'))) && Value(x', y', z') == old(Value(x', y', z'))
    {
      r := CheckBounds(x, y, z);
      if r.Fail? {
        return;
      }
      var key := DictKey(x, y, z);
      if key in matrix {
        return Fail(DuplicateKey(key));
      }
      ParseDictKey(x, y, z);
      forall x', y', z' | (x', y', z') != (x, y, z)
        ensures DictKey(x', y', z') != key
      {
        DictKeyInjective(x', y', z', x, y, z);
      }
      matrix := matrix[key := value];
    }

    /** The indexer's getter: the stored value, or the policy's empty value for an unwritten cell. */
    method Get(x: int, y: int, z: int) returns (r: Result<T, MatrixError>)
      ensures !InBounds(x, y, z) ==> r.Err? && Fail(r.error) == CheckBounds(x, y, z)
      ensures InBounds(x, y, z) ==> r == Ok(Value(x, y, z))
      ensures InBounds(x, y, z) && !Written(x, y, z) ==> r == Ok(checkEmpty.emptyItem)
    {
      var check := CheckBounds(x, y, z);
      if check.Fail? {
        return Err(check.error);
      }
      var key := DictKey(x, y, z);
      if key in matrix {
        r := Ok(matrix[key]);
      } else {
        r := Ok(checkEmpty.emptyItem);
      }
    }

    ghost predicate RowRendered(row: seq<string>, show: T -> string, y: int, z: int)
      reads this
    {
      |row| == Extent(maxX) && forall x :: 0 <= x < |row| ==> row[x] == CellText(show, Value(x, y, z))
    }

    ghost predicate LayerRendered(layer: seq<seq<string>>, show: T -> string, z: int)
      reads this
    {
      |layer| == Extent(maxY) && forall y :: 0 <= y < |layer| ==> RowRendered(layer[y], show, y, z)
    }

    /** One bracketed row of ToString: the cells of row y of layer z, column by column. */
    method RenderRow(show: T -> string, y: int, z: int) returns (row: seq<string>)
      requires 0 <= y < maxY && 0 <= z < maxZ
      ensures RowRendered(row, show, y, z)
    {
      row := [];
      var i := 0;
      while i < maxX
        invariant 0 <= i && |row| == i && i <= Extent(maxX)
        invariant forall x :: 0 <= x < i ==> row[x] == CellText(show, Value(x, y, z))
      {
        var cell := Get(i, y, z);
        var text := if !checkEmpty.isEmpty(cell.value) then show(cell.value) else Placeholder;
        row := row + [text];
        i := i + 1;
      }
    }

    /** One "Part number" section of ToString: the rows of layer z, top to bottom. */
    method RenderLayer(show: T -> string, z: int) returns (layer: seq<seq<string>>)
      requires 0 <= z < maxZ
      ensures LayerRendered(layer, show, z)
    {
      layer := [];
      var j := 0;
      while j < maxY
        invariant 0 <= j && |layer| == j && j <= Extent(maxY)
        invariant forall y :: 0 <= y < j ==> RowRendered(layer[y], show, y, z)
      {
        var row := RenderRow(show, j, z);
        layer := layer + [row];
        j := j + 1;
      }
    }

    /**
     * ToString's grid: maxZ layers of maxY rows of maxX cells, visited layer,
     * then row, then column; a cell shows its value's text unless the policy
     * calls the value empty, and the placeholder otherwise.
     */
    method Render(show: T -> string) returns (layers: seq<seq<seq<string>>>)
      ensures |layers| == Extent(maxZ)
      ensures forall z :: 0 <= z < |layers| ==> LayerRendered(layers[z], show, z)
      ensures checkEmpty.Lawful() ==>
        forall z, y, x :: 0 <= z < |layers| && 0 <= y < |layers[z]| && 0 <= x < |layers[z][y]| && !Written(x, y, z) ==>
          layers[z][y][x] == Placeholder
    {
      layers := [];
      var k := 0;
      while k < maxZ
        invariant 0 <= k && |layers| == k && k <= Extent(maxZ)
        invariant forall z :: 0 <= z < k ==> LayerRendered(layers[z], show, z)
      {
        var layer := RenderLayer(show, k);
        layers := layers + [layer];
        k := k + 1;
      }
    }
  }

  /**
   * A matrix of figures under the figure policy: a rendered cell shows the
   * text of the figure stored there when there is one, and the placeholder
   * when the cell was never written or holds null.
   */
  lemma FigureCellRendered(m: SparseMatrix<object?>, show: object? -> string, row: seq<string>, x: int, y: int, z: int)
    requires m.checkEmpty == FigureCheckEmpty()
    requires m.RowRendered(row, show, y, z) && 0 <= x < |row|
    ensures m.Written(x, y, z) && m.matrix[DictKey(x, y, z)] != null ==>
      row[x] == show(m.matrix[DictKey(x, y, z)])
    ensures !m.Written(x, y, z) || m.matrix[DictKey(x, y, z)] == null ==>
      row[x] == Placeholder
  {
  }
}
