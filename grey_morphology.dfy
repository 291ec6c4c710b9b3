/**
 * skimage grey-level opening and closing of a uint8 mask with a 3x3 square
 * (`square(3)`). skimage's default 'reflect' border repeats the edge cell, so for a
 * 3x3 square the window of a cell is simply its in-grid 3x3 neighbourhood.
 */
module GreyMorphology {
  import opened Grids

  /** The sample at (r, c) as a one-element sequence, or nothing when (r, c) is off the grid. */
  function Sample(m: Grid<nat>, r: int, c: int): seq<nat> {
    if InGrid(m, r, c) then [m[r][c]] else []
  }

  function RowOfWindow(m: Grid<nat>, r: int, j: int): seq<nat> {
    Sample(m, r, j - 1) + Sample(m, r, j) + Sample(m, r, j + 1)
  }

  /** The in-grid samples of the 3x3 window centred on (i, j). */
  function Window(m: Grid<nat>, i: int, j: int): seq<nat> {
    RowOfWindow(m, i - 1, j) + RowOfWindow(m, i, j) + RowOfWindow(m, i + 1, j)
  }

  function Min(s: seq<nat>): (r: nat)
    requires |s| > 0
    ensures r in s && forall k :: 0 <= k < |s| ==> r <= s[k]
  {
    if |s| == 1 then s[0] else var rest := Min(s[1..]); if s[0] <= rest then s[0] else rest
  }

  function Max(s: seq<nat>): (r: nat)
    requires |s| > 0
    ensures r in s && forall k :: 0 <= k < |s| ==> r >= s[k]
  {
    if |s| == 1 then s[0] else var rest := Max(s[1..]); if s[0] >= rest then s[0] else rest
  }

  /** Grey erosion: each cell becomes the minimum of its window. */
  function Erode(m: Grid<nat>): Grid<nat> {
    seq(|m|, i requires 0 <= i < |m| => seq(|m[i]|, j requires 0 <= j < |m[i]| =>
      assert m[i][j] in Window(m, i, j);
      Min(Window(m, i, j))))
  }

  /** Grey dilation: each cell becomes the maximum of its window. */
  function Dilate(m: Grid<nat>): Grid<nat> {
    seq(|m|, i requires 0 <= i < |m| => seq(|m[i]|, j requires 0 <= j < |m[i]| =>
      assert m[i][j] in Window(m, i, j);
      Max(Window(m, i, j))))
  }

  /** `opening(mask, square(3))`. */
  function Open(m: Grid<nat>): Grid<nat> {
    Dilate(Erode(m))
  }

  /** `closing(mask, square(3))`. */
  function Close(m: Grid<nat>): Grid<nat> {
    Erode(Dilate(m))
  }

  /** `_clean`: closing applied to the opening. */
  function Clean(m: Grid<nat>): Grid<nat> {
    Close(Open(m))
  }

  /** Pointwise order of two grids of one shape. */
  predicate Below(a: Grid<nat>, b: Grid<nat>) {
    SameShape(a, b) && forall i, j :: 0 <= i < |a| && 0 <= j < |a[i]| ==> a[i][j] <= b[i][j]
  }

  /** Every value is 0 or 1. */
  predicate Binary(m: Grid<nat>) {
    forall i, j :: 0 <= i < |m| && 0 <= j < |m[i]| ==> m[i][j] <= 1
  }

  /** A row of the window holds exactly the in-grid samples of that row next to column j. */
  lemma RowExact(m: Grid<nat>, r: int, j: int)
    ensures forall c :: InGrid(m, r, c) && j - 1 <= c <= j + 1 ==> m[r][c] in RowOfWindow(m, r, j)
    ensures forall v :: v in RowOfWindow(m, r, j) ==> exists c :: InGrid(m, r, c) && j - 1 <= c <= j + 1 && v == m[r][c]
  {
    var s0, s1, s2 := Sample(m, r, j - 1), Sample(m, r, j), Sample(m, r, j + 1);
    assert RowOfWindow(m, r, j) == s0 + s1 + s2;
    forall v | v in RowOfWindow(m, r, j) ensures exists c :: InGrid(m, r, c) && j - 1 <= c <= j + 1 && v == m[r][c] {
      if v in s0 {
        assert InGrid(m, r, j - 1) && v == m[r][j - 1];
      } else if v in s1 {
        assert InGrid(m, r, j) && v == m[r][j];
      } else {
        assert InGrid(m, r, j + 1) && v == m[r][j + 1];
      }
    }
  }

  /** Every in-grid sample within one row and one column of (i, j) is in the window. */
  lemma WindowHolds(m: Grid<nat>, i: int, j: int)
    ensures forall r, c :: InGrid(m, r, c) && i - 1 <= r <= i + 1 && j - 1 <= c <= j + 1 ==> m[r][c] in Window(m, i, j)
  {
    RowExact(m, i - 1, j);
    RowExact(m, i, j);
    RowExact(m, i + 1, j);
    var w0, w1, w2 := RowOfWindow(m, i - 1, j), RowOfWindow(m, i, j), RowOfWindow(m, i + 1, j);
    assert Window(m, i, j) == w0 + w1 + w2;
  }

  /** Every sample of the window comes from a cell within one row and one column of (i, j). */
  lemma WindowFrom(m: Grid<nat>, i: int, j: int, v: nat)
    requires v in Window(m, i, j)
    ensures exists r, c :: InGrid(m, r, c) && i - 1 <= r <= i + 1 && j - 1 <= c <= j + 1 && v == m[r][c]
  {
    var w0, w1, w2 := RowOfWindow(m, i - 1, j), RowOfWindow(m, i, j), RowOfWindow(m, i + 1, j);
    assert Window(m, i, j) == w0 + w1 + w2;
    var r := if v in w0 then i - 1 else if v in w1 then i else i + 1;
    RowExact(m, r, j);
    var c :| InGrid(m, r, c) && j - 1 <= c <= j + 1 && v == m[r][c];
  }

  lemma ErodeDilateShape(m: Grid<nat>)
    ensures SameShape(Erode(m), m) && SameShape(Dilate(m), m)
  {
  }

  /** Opening never raises a value, so it never turns a 0 into a 1. */
  lemma OpenBelow(m: Grid<nat>)
    ensures Below(Open(m), m)
  {
    var e := Erode(m);
    forall i, j | 0 <= i < |m| && 0 <= j < |m[i]| ensures Open(m)[i][j] <= m[i][j] {
      var v := Open(m)[i][j];
      assert v in Window(e, i, j);
      WindowFrom(e, i, j, v);
      var r, c :| InGrid(e, r, c) && i - 1 <= r <= i + 1 && j - 1 <= c <= j + 1 && v == e[r][c];
      WindowHolds(m, r, c);
    }
  }

  /** Closing never lowers a value, so it never turns a 1 into a 0. */
  lemma CloseAbove(m: Grid<nat>)
    ensures Below(m, Close(m))
  {
    var d := Dilate(m);
    forall i, j | 0 <= i < |m| && 0 <= j < |m[i]| ensures m[i][j] <= Close(m)[i][j] {
      var v := Close(m)[i][j];
      assert v in Window(d, i, j);
      WindowFrom(d, i, j, v);
      var r, c :| InGrid(d, r, c) && i - 1 <= r <= i + 1 && j - 1 <= c <= j + 1 && v == d[r][c];
      WindowHolds(m, r, c);
    }
  }

  /** Erosion and dilation of a 0/1 mask are 0/1 masks. */
  lemma BinaryStaysBinary(m: Grid<nat>)
    requires Binary(m)
    ensures Binary(Erode(m)) && Binary(Dilate(m))
  {
    forall i, j | 0 <= i < |m| && 0 <= j < |m[i]| ensures Erode(m)[i][j] <= 1 && Dilate(m)[i][j] <= 1 {
      WindowFrom(m, i, j, Erode(m)[i][j]);
      WindowFrom(m, i, j, Dilate(m)[i][j]);
    }
  }

  /** Cleaning a 0/1 mask gives a 0/1 mask. */
  lemma CleanBinary(m: Grid<nat>)
    requires Binary(m)
    ensures Binary(Clean(m))
  {
    BinaryStaysBinary(m);
    BinaryStaysBinary(Erode(m));
    BinaryStaysBinary(Open(m));
    BinaryStaysBinary(Dilate(Open(m)));
  }

  /** Two sample sequences of one length, ordered position by position. */
  predicate Dominated(s: seq<nat>, t: seq<nat>) {
    |s| == |t| && forall k :: 0 <= k < |s| ==> s[k] <= t[k]
  }

  lemma ConcatDominated(s1: seq<nat>, t1: seq<nat>, s2: seq<nat>, t2: seq<nat>)
    requires Dominated(s1, t1) && Dominated(s2, t2)
    ensures Dominated(s1 + s2, t1 + t2)
  {
    forall k | 0 <= k < |s1 + s2| ensures (s1 + s2)[k] <= (t1 + t2)[k] {
      if k >= |s1| {
        assert (s1 + s2)[k] == s2[k - |s1|] && (t1 + t2)[k] == t2[k - |s1|];
      }
    }
  }

  lemma RowBelow(a: Grid<nat>, b: Grid<nat>, r: int, j: int)
    requires Below(a, b)
    ensures Dominated(RowOfWindow(a, r, j), RowOfWindow(b, r, j))
  {
    ConcatDominated(Sample(a, r, j - 1), Sample(b, r, j - 1), Sample(a, r, j), Sample(b, r, j));
    ConcatDominated(Sample(a, r, j - 1) + Sample(a, r, j), Sample(b, r, j - 1) + Sample(b, r, j),
                    Sample(a, r, j + 1), Sample(b, r, j + 1));
  }

  /** Windows of two ordered grids line up sample by sample. */
  lemma WindowBelow(a: Grid<nat>, b: Grid<nat>, i: int, j: int)
    requires Below(a, b)
    ensures Dominated(Window(a, i, j), Window(b, i, j))
  {
    RowBelow(a, b, i - 1, j);
    RowBelow(a, b, i, j);
    RowBelow(a, b, i + 1, j);
    ConcatDominated(RowOfWindow(a, i - 1, j), RowOfWindow(b, i - 1, j), RowOfWindow(a, i, j), RowOfWindow(b, i, j));
    ConcatDominated(RowOfWindow(a, i - 1, j) + RowOfWindow(a, i, j), RowOfWindow(b, i - 1, j) + RowOfWindow(b, i, j),
                    RowOfWindow(a, i + 1, j), RowOfWindow(b, i + 1, j));
  }

  lemma {:induction false} MinMaxMonotone(s: seq<nat>, t: seq<nat>)
    requires |s| > 0 && Dominated(s, t)
    ensures Min(s) <= Min(t) && Max(s) <= Max(t)
  {
    if |s| > 1 {
      MinMaxMonotone(s[1..], t[1..]);
    }
  }

  lemma ErodeDilateMonotone(a: Grid<nat>, b: Grid<nat>)
    requires Below(a, b)
    ensures Below(Erode(a), Erode(b)) && Below(Dilate(a), Dilate(b))
  {
    forall i, j | 0 <= i < |a| && 0 <= j < |a[i]|
      ensures Erode(a)[i][j] <= Erode(b)[i][j] && Dilate(a)[i][j] <= Dilate(b)[i][j]
    {
      WindowBelow(a, b, i, j);
      WindowHolds(a, i, j);
      MinMaxMonotone(Window(a, i, j), Window(b, i, j));
    }
  }

  /** Opening then closing leaves a mask between its opening and its closing. */
  lemma CleanBetween(m: Grid<nat>)
    ensures Below(Open(m), Clean(m)) && Below(Clean(m), Close(m))
  {
    CloseAbove(Open(m));
    OpenBelow(m);
    ErodeDilateMonotone(Open(m), m);
    ErodeDilateMonotone(Dilate(Open(m)), Dilate(m));
  }

  /** Cleaning keeps the shape of the mask. */
  lemma CleanShape(m: Grid<nat>)
    ensures SameShape(Clean(m), m)
  {
    ErodeDilateShape(m);
    ErodeDilateShape(Erode(m));
    ErodeDilateShape(Open(m));
    ErodeDilateShape(Dilate(Open(m)));
  }

  /** Every value is 0. */
  predicate Zero(m: Grid<nat>) {
    forall i, j :: 0 <= i < |m| && 0 <= j < |m[i]| ==> m[i][j] == 0
  }

  /** An all-zero mask stays all zero under erosion and dilation. */
  lemma ZeroStaysZero(m: Grid<nat>)
    requires Zero(m)
    ensures Zero(Erode(m)) && Zero(Dilate(m))
  {
    forall i, j | 0 <= i < |m| && 0 <= j < |m[i]| ensures Erode(m)[i][j] == 0 && Dilate(m)[i][j] == 0 {
      WindowFrom(m, i, j, Erode(m)[i][j]);
      WindowFrom(m, i, j, Dilate(m)[i][j]);
    }
  }

  /** Erosion removes a lone set pixel beside a clear one: each window holds the clear pixel. */
  lemma LonePixelErodes()
    ensures Zero(Erode([[1, 0]]))
  {
    var m: Grid<nat> := [[1, 0]];
    forall j | 0 <= j < 2 ensures Erode(m)[0][j] == 0 {
      WindowHolds(m, 0, j);
      assert m[0][1] in Window(m, 0, j);
    }
  }

  /** Cleaning is monotone: a mask below another cleans to a mask below the other's cleaning. */
  lemma CleanMonotone(a: Grid<nat>, b: Grid<nat>)
    requires Below(a, b)
    ensures Below(Clean(a), Clean(b))
  {
    ErodeDilateMonotone(a, b);
    ErodeDilateMonotone(Erode(a), Erode(b));
    ErodeDilateMonotone(Open(a), Open(b));
    ErodeDilateMonotone(Dilate(Open(a)), Dilate(Open(b)));
  }
}
