/** Board geometry of the Go rules engine: cell states, positions, the square
    grid indexed `board[col][row]`, and the orthogonal neighbourhood of a point. */
module Board {

  /** The three states of an intersection. The source encodes them as 0/1/2 in
      one copy and -1/0/1 in the other; the model keeps them abstract. */
  datatype Cell = Empty | Black | White

  /** A coordinate `(col, row)`; whether it lies on the board is a separate predicate. */
  datatype Pos = Pos(col: int, row: int)

  /** The board, column-major as in the source: `b[col][row]`. */
  type Grid = seq<seq<Cell>>

  /** `_switchPlayer`: Black hands over to White, anything else to Black. */
  function Switch(c: Cell): (r: Cell)
    ensures r != Empty
    ensures c != Empty ==> r != c
  {
    if c == Black then White else Black
  }

  /** Switching twice hands the turn back to the same player. */
  lemma SwitchInvolutive(c: Cell)
    requires c != Empty
    ensures Switch(Switch(c)) == c
  {
  }

  predicate InBounds(n: int, p: Pos) {
    0 <= p.col < n && 0 <= p.row < n
  }

  /** Every column has as many rows as there are columns. */
  predicate Square(b: Grid) {
    forall c :: 0 <= c < |b| ==> |b[c]| == |b|
  }

  /** `getStateByPos(col, row)` on a point of the board. */
  function At(b: Grid, p: Pos): Cell
    requires Square(b) && InBounds(|b|, p)
  {
    b[p.col][p.row]
  }

  /** All points of an `n` by `n` board. */
  function AllPositions(n: int): (s: set<Pos>)
    ensures forall p :: p in s <==> InBounds(n, p)
  {
    set c: int, r: int | 0 <= c < n && 0 <= r < n :: Pos(c, r)
  }

  /** `_createBoard(size)`: a `size` by `size` grid of empty points. */
  function CreateBoard(n: nat): (b: Grid)
    ensures |b| == n && Square(b)
    ensures forall p :: InBounds(n, p) ==> At(b, p) == Empty
  {
    seq(n, _ => seq(n, _ => Empty))
  }

  /** The single-cell assignment `board[col][row] = v`. */
  function Put(b: Grid, p: Pos, v: Cell): (r: Grid)
    requires Square(b) && InBounds(|b|, p)
    ensures |r| == |b| && Square(r)
    ensures At(r, p) == v
    ensures forall q :: InBounds(|b|, q) && q != p ==> At(r, q) == At(b, q)
  {
    b[p.col := b[p.col][p.row := v]]
  }

  /** Writing a stone on an empty point and clearing it again restores the board. */
  lemma PutRestores(b: Grid, p: Pos, v: Cell)
    requires Square(b) && InBounds(|b|, p) && At(b, p) == Empty
    ensures Put(Put(b, p, v), p, Empty) == b
  {
    var b1 := Put(b, p, v);
    assert b1[p.col][p.row := Empty] == b[p.col];
    assert b1[p.col := b[p.col]] == b;
  }

  /** Two points one step apart horizontally or vertically. */
  predicate Orthogonal(p: Pos, q: Pos) {
    (p.col == q.col && (p.row - q.row == 1 || q.row - p.row == 1)) ||
    (p.row == q.row && (p.col - q.col == 1 || q.col - p.col == 1))
  }

  /** No element occurs twice. */
  predicate Distinct<T(==)>(s: seq<T>) {
    forall i, j :: 0 <= i < j < |s| ==> s[i] != s[j]
  }

  /** `_getAdjacentPoints(col, row)`: left, right, up, down, each only when the
      corresponding coordinate stays inside `0 .. n-1`. */
  function AdjacentPoints(n: int, p: Pos): (r: seq<Pos>)
    ensures |r| <= 4 && Distinct(r)
    ensures forall q :: q in r ==> Orthogonal(p, q)
    ensures InBounds(n, p) ==> forall q :: q in r <==> InBounds(n, q) && Orthogonal(p, q)
  {
    (if p.col > 0 then [Pos(p.col - 1, p.row)] else []) +
    (if p.col < n - 1 then [Pos(p.col + 1, p.row)] else []) +
    (if p.row > 0 then [Pos(p.col, p.row - 1)] else []) +
    (if p.row < n - 1 then [Pos(p.col, p.row + 1)] else [])
  }

  /** Adjacency on the board is symmetric. */
  lemma AdjacentSymmetric(n: int, p: Pos, q: Pos)
    requires InBounds(n, p) && InBounds(n, q)
    ensures q in AdjacentPoints(n, p) <==> p in AdjacentPoints(n, q)
  {
  }

  /** `a` is `b` with some elements left out, the rest in their order. */
  predicate Subsequence<T(==)>(a: seq<T>, b: seq<T>)
    decreases |b|
  {
    if a == [] then true
    else if b == [] then false
    else if a[0] == b[0] then Subsequence(a[1..], b[1..])
    else Subsequence(a, b[1..])
  }

  /** The points of `ns` that hold `c`, in order (the neighbours `_getGroup` pushes
      for `c` the group's colour, or counts as liberties for `c == Empty`). */
  function Holding(b: Grid, c: Cell, ns: seq<Pos>): (r: seq<Pos>)
    requires Square(b) && forall q :: q in ns ==> InBounds(|b|, q)
    ensures forall q :: q in r <==> q in ns && At(b, q) == c
    ensures Distinct(ns) ==> Distinct(r)
    ensures |r| <= |ns|
    ensures Subsequence(r, ns)
  {
    if ns == [] then []
    else
      var rest := Holding(b, c, ns[1..]);
      if At(b, ns[0]) == c then
        assert ([ns[0]] + rest)[1..] == rest;
        [ns[0]] + rest
      else
        assert rest != [] ==> rest[0] in rest && rest[0] != ns[0];
        rest
  }
}
