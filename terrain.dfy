/** The terrain validation of Island.terraform (src/biosim/island.py) and the
    row-major coordinate list it builds. Rows are the newline-separated
    lines of the geography string; position (i, j) is 0-based here and
    reported 1-based, as the source reports it. */
module Terrain {
  import opened Types

  /** The terrain alphabet: Water, Lowland, Highland, Desert. */
  predicate IsLetter(c: char) {
    c == 'W' || c == 'L' || c == 'H' || c == 'D'
  }

  /** There is a first row and every row is as long as it. */
  predicate Rectangular(rows: seq<string>) {
    |rows| > 0 && forall i :: 0 <= i < |rows| ==> |rows[i]| == |rows[0]|
  }

  /** A non-empty rectangular map whose first and last column and first and
      last row are all water. */
  predicate Bordered(rows: seq<string>) {
    Rectangular(rows) && |rows[0]| > 0 &&
    (forall i :: 0 <= i < |rows| ==> rows[i][0] == 'W' && rows[i][|rows[0]| - 1] == 'W') &&
    (forall j :: 0 <= j < |rows[0]| ==> rows[0][j] == 'W' && rows[|rows| - 1][j] == 'W')
  }

  /** A map terraform accepts. */
  predicate ValidMap(rows: seq<string>) {
    Bordered(rows) &&
    forall i, j :: 0 <= i < |rows| && 0 <= j < |rows[i]| ==> IsLetter(rows[i][j])
  }

  /** (i, j) comes before (r, c) in row-major order. */
  predicate Before(i: int, j: int, r: int, c: int) {
    i < r || (i == r && j < c)
  }

  /** (r, c) holds the first letter outside the alphabet in row-major order. */
  predicate FirstInvalid(rows: seq<string>, r: int, c: int) {
    0 <= r < |rows| && 0 <= c < |rows[r]| && !IsLetter(rows[r][c]) &&
    forall i, j :: 0 <= i < |rows| && 0 <= j < |rows[i]| && Before(i, j, r, c) ==> IsLetter(rows[i][j])
  }

  /** The outcome terraform's checks give for `rows`, in the order the
      checks run: the shape first, then the border, then the alphabet, the
      first invalid letter in row-major order reported with its 1-based
      position. Indexing the first row of an empty row list, or the first
      character of empty rows, raises an IndexError. */
  ghost predicate Reports(rows: seq<string>, err: Option<Error>) {
    if |rows| == 0 then err == Some(IndexError)
    else if !Rectangular(rows) then err == Some(NotRectangular)
    else if |rows[0]| == 0 then err == Some(IndexError)
    else if !Bordered(rows) then err == Some(EdgeNotWater)
    else match err
      case None => ValidMap(rows)
      case Some(e) =>
        e.InvalidLetter? && FirstInvalid(rows, e.row - 1, e.col - 1) &&
        e.letter == rows[e.row - 1][e.col - 1]
  }

  /** Two first invalid positions are the same position. */
  lemma FirstInvalidUnique(rows: seq<string>, r1: int, c1: int, r2: int, c2: int)
    requires FirstInvalid(rows, r1, c1) && FirstInvalid(rows, r2, c2)
    ensures r1 == r2 && c1 == c2
  {
  }

  /** The checks determine the outcome: Reports is a function of the rows. */
  lemma ReportsUnique(rows: seq<string>, e1: Option<Error>, e2: Option<Error>)
    requires Reports(rows, e1) && Reports(rows, e2)
    ensures e1 == e2
  {
    if |rows| > 0 && Rectangular(rows) && |rows[0]| > 0 && Bordered(rows) {
      if e1.Some? && e2.Some? {
        FirstInvalidUnique(rows, e1.value.row - 1, e1.value.col - 1, e2.value.row - 1, e2.value.col - 1);
      }
    }
  }

  /** The validation loops of terraform; None when the map is accepted. */
  method CheckMap(terrain: seq<string>) returns (err: Option<Error>)
    ensures Reports(terrain, err)
    ensures err == None <==> ValidMap(terrain)
  {
    if |terrain| == 0 {
      return Some(IndexError);
    }
    var X := |terrain|;
    var Y := |terrain[0]|;

    // Rectangularity.
    for i := 0 to X
      invariant forall k :: 0 <= k < i ==> |terrain[k]| == Y
    {
      if |terrain[i]| != Y {
        return Some(NotRectangular);
      }
    }
    // The column loop below reads terrain[0][0] first, which fails on empty rows.
    if Y == 0 {
      return Some(IndexError);
    }

    // First and last column, then first and last row.
    for i := 0 to X
      invariant forall k :: 0 <= k < i ==> terrain[k][0] == 'W' && terrain[k][Y - 1] == 'W'
    {
      if terrain[i][0] != 'W' || terrain[i][Y - 1] != 'W' {
        return Some(EdgeNotWater);
      }
    }
    for j := 0 to Y
      invariant forall k :: 0 <= k < j ==> terrain[0][k] == 'W' && terrain[X - 1][k] == 'W'
    {
      if terrain[0][j] != 'W' || terrain[X - 1][j] != 'W' {
        return Some(EdgeNotWater);
      }
    }
    assert Bordered(terrain);

    // The alphabet, in row-major order.
    for i := 0 to X
      invariant forall r, c :: 0 <= r < i && 0 <= c < |terrain[r]| ==> IsLetter(terrain[r][c])
    {
      for j := 0 to Y
        invariant forall r, c :: 0 <= r < i && 0 <= c < |terrain[r]| ==> IsLetter(terrain[r][c])
        invariant forall c :: 0 <= c < j ==> IsLetter(terrain[i][c])
      {
        if !IsLetter(terrain[i][j]) {
          return Some(InvalidLetter(i + 1, j + 1, terrain[i][j]));
        }
      }
    }
    return None;
  }

  /** The coordinates of row i (1-based) of a map Y wide. */
  function Row(i: int, Y: nat): seq<(int, int)> {
    seq(Y, j => (i, j + 1))
  }

  /** The coordinate list of an X by Y map: (1, 1), (1, 2), ..., (X, Y). */
  function RowMajor(X: nat, Y: nat): seq<(int, int)> {
    if X == 0 then [] else RowMajor(X - 1, Y) + Row(X, Y)
  }

  /** The list has one entry per cell. */
  lemma {:induction false} RowMajorLength(X: nat, Y: nat)
    ensures |RowMajor(X, Y)| == X * Y
  {
    if X > 0 {
      RowMajorLength(X - 1, Y);
      assert (X - 1) * Y + Y == X * Y;
    }
  }

  /** Entry i * Y + j is (i + 1, j + 1): row-major order. */
  lemma {:induction false} RowMajorAt(X: nat, Y: nat, i: nat, j: nat)
    requires i < X && j < Y
    ensures i * Y + j < |RowMajor(X, Y)| && RowMajor(X, Y)[i * Y + j] == (i + 1, j + 1)
  {
    RowMajorLength(X - 1, Y);
    RowMajorLength(X, Y);
    if i < X - 1 {
      RowMajorAt(X - 1, Y, i, j);
      assert i * Y + j < (i + 1) * Y <= (X - 1) * Y;
    } else {
      assert i * Y + j == (X - 1) * Y + j;
    }
  }

  /** A pair is in the list exactly when it is a 1-based position of the map. */
  lemma {:induction false} RowMajorMember(X: nat, Y: nat, p: (int, int))
    ensures p in RowMajor(X, Y) <==> 1 <= p.0 <= X && 1 <= p.1 <= Y
  {
    if X > 0 {
      RowMajorMember(X - 1, Y, p);
      if 1 <= p.0 <= X && 1 <= p.1 <= Y && p.0 == X {
        assert Row(X, Y)[p.1 - 1] == p;
      }
    }
  }
}
