/**
 * Row-major layout of fixed-size pixel groups in a flat buffer, as the
 * image code uses it: a w-by-h image whose pixels each take ch values
 * stores pixel (r, c) at group r*w + c. Multiplication is kept behind
 * Times so that proofs about positions stay in linear arithmetic.
 */
module PixelLayout {

  /** n copies of k added up, that is n * k (see TimesIsMul). */
  function Times(n: nat, k: nat): nat
  {
    if n == 0 then 0 else Times(n - 1, k) + k
  }

  lemma {:induction false} TimesIsMul(n: nat, k: nat)
    ensures Times(n, k) == n * k
  {
    if n > 0 {
      TimesIsMul(n - 1, k);
    }
  }

  lemma {:induction false} TimesLess(a: nat, b: nat, k: nat)
    requires a < b
    ensures Times(a, k) + k <= Times(b, k)
  {
    if a + 1 < b {
      TimesLess(a, b - 1, k);
    }
  }

  lemma EmptyTimes(h: nat, w: nat, ch: nat)
    requires h == 0 || w == 0
    ensures Times(Times(h, w), ch) == 0
  {
    TimesIsMul(h, w);
    TimesIsMul(Times(h, w), ch);
  }

  lemma {:induction false} TimesAdd(a: nat, b: nat, k: nat)
    ensures Times(a + b, k) == Times(a, k) + Times(b, k)
  {
    if b > 0 {
      TimesAdd(a, b - 1, k);
    }
  }

  lemma {:induction false} TimesSum(n: nat, a: nat, b: nat)
    ensures Times(n, a + b) == Times(n, a) + Times(n, b)
  {
    if n > 0 {
      TimesSum(n - 1, a, b);
    }
  }

  lemma MulAtLeast(x: int, w: int)
    requires x >= 1 && w > 0
    ensures x * w >= w
  {
  }

  /** The remainder of q*w + c by w is c when 0 <= c < w. */
  lemma ModUnique(a: int, w: int, q: int, c: int)
    requires 0 <= c < w && a == q * w + c
    ensures a % w == c
  {
    var d := a / w;
    var m := a % w;
    assert a == d * w + m;
    assert (d - q) * w == c - m;
    if d - q >= 1 {
      MulAtLeast(d - q, w);
    } else if q - d >= 1 {
      MulAtLeast(q - d, w);
    }
  }

  /** (r*w + c) mod w is the column c. */
  lemma ModRow(r: nat, w: nat, c: nat)
    requires c < w
    ensures (Times(r, w) + c) % w == c
  {
    TimesIsMul(r, w);
    ModUnique(Times(r, w) + c, w, r, c);
  }

  // ---------------------------------------------------------------------------
  // Groups of a flat buffer

  /** The i-th group of n values of s. */
  function Slot<T>(s: seq<T>, n: nat, i: nat): seq<T>
    requires Times(i, n) + n <= |s|
  {
    s[Times(i, n) .. Times(i, n) + n]
  }

  lemma SlotLeft<T>(a: seq<T>, b: seq<T>, n: nat, i: nat)
    requires Times(i, n) + n <= |a|
    ensures Slot(a + b, n, i) == Slot(a, n, i)
  {
  }

  lemma SlotShift<T>(a: seq<T>, b: seq<T>, n: nat, j: nat, i: nat)
    requires Times(j, n) == |a| + Times(i, n) && Times(i, n) + n <= |b|
    ensures Slot(a + b, n, j) == Slot(b, n, i)
  {
  }

  lemma AppendAssoc<T>(a: seq<T>, b: seq<T>, c: seq<T>)
    ensures (a + b) + c == a + (b + c)
  {
  }

  /** The groups written one after the other. */
  function Flatten<T>(cells: seq<seq<T>>): seq<T>
  {
    if |cells| == 0 then [] else Flatten(cells[..|cells| - 1]) + cells[|cells| - 1]
  }

  predicate Uniform<T>(cells: seq<seq<T>>, n: nat)
  {
    forall j :: 0 <= j < |cells| ==> |cells[j]| == n
  }

  lemma {:induction false} FlattenLength<T>(cells: seq<seq<T>>, ch: nat)
    requires Uniform(cells, ch)
    ensures |Flatten(cells)| == Times(|cells|, ch)
  {
    if |cells| > 0 {
      FlattenLength(cells[..|cells| - 1], ch);
    }
  }

  /** Group i of the concatenation of equally long groups is group i. */
  lemma {:induction false} FlattenSlot<T>(cells: seq<seq<T>>, ch: nat, i: nat)
    requires Uniform(cells, ch) && i < |cells|
    ensures |Flatten(cells)| == Times(|cells|, ch)
    ensures Times(i, ch) + ch <= |Flatten(cells)|
    ensures Slot(Flatten(cells), ch, i) == cells[i]
  {
    var init := cells[..|cells| - 1];
    var last := cells[|cells| - 1];
    assert Flatten(cells) == Flatten(init) + last;
    if i < |init| {
      FlattenSlot(init, ch, i);
      TimesLess(i, |init|, ch);
      SlotLeft(Flatten(init), last, ch, i);
    } else {
      FlattenLength(init, ch);
      assert Times(0, ch) == 0;
      SlotShift(Flatten(init), last, ch, i, 0);
    }
  }

  lemma {:induction false} FlattenConcat<T>(a: seq<seq<T>>, b: seq<seq<T>>)
    ensures Flatten(a + b) == Flatten(a) + Flatten(b)
  {
    if |b| > 0 {
      var init := b[..|b| - 1];
      assert (a + b)[..|a + b| - 1] == a + init;
      FlattenConcat(a, init);
    } else {
      assert a + b == a;
    }
  }

  lemma FlattenPush<T>(a: seq<seq<T>>, x: seq<T>)
    ensures Flatten(a + [x]) == Flatten(a) + x
  {
    assert (a + [x])[..|a|] == a;
  }

  // ---------------------------------------------------------------------------
  // Row-major grids of cells

  /** The first n cells of row r. */
  function RowCells<T>(cell: (nat, nat) -> seq<T>, r: nat, n: nat): (s: seq<seq<T>>)
    ensures |s| == n
  {
    if n == 0 then [] else RowCells(cell, r, n - 1) + [cell(r, n - 1)]
  }

  /** The first n rows of w cells, row after row. */
  function Grid<T>(cell: (nat, nat) -> seq<T>, w: nat, n: nat): (s: seq<seq<T>>)
    ensures |s| == Times(n, w)
  {
    if n == 0 then [] else Grid(cell, w, n - 1) + RowCells(cell, n - 1, w)
  }

  /** Every cell of the first h rows of w cells has ch values. */
  predicate CellsHave<T>(cell: (nat, nat) -> seq<T>, w: nat, h: nat, ch: nat)
  {
    forall r: nat, c: nat :: r < h && c < w ==> |cell(r, c)| == ch
  }

  lemma {:induction false} RowCellsAt<T>(cell: (nat, nat) -> seq<T>, r: nat, n: nat, c: nat)
    requires c < n
    ensures RowCells(cell, r, n)[c] == cell(r, c)
  {
    if c < n - 1 {
      RowCellsAt(cell, r, n - 1, c);
    }
  }

  /** Entry r*w + c of the grid is cell (r, c). */
  lemma {:induction false} GridAt<T>(cell: (nat, nat) -> seq<T>, w: nat, n: nat, r: nat, c: nat)
    requires r < n && c < w
    ensures Times(r, w) + c < |Grid(cell, w, n)|
    ensures Grid(cell, w, n)[Times(r, w) + c] == cell(r, c)
  {
    var prefix := Grid(cell, w, n - 1);
    assert Grid(cell, w, n) == prefix + RowCells(cell, n - 1, w);
    if r < n - 1 {
      TimesLess(r, n - 1, w);
      GridAt(cell, w, n - 1, r, c);
    } else {
      RowCellsAt(cell, r, w, c);
    }
  }

  lemma {:induction false} RowCellsUniform<T>(cell: (nat, nat) -> seq<T>, w: nat, h: nat, ch: nat, r: nat, n: nat)
    requires CellsHave(cell, w, h, ch) && r < h && n <= w
    ensures Uniform(RowCells(cell, r, n), ch)
  {
    if n > 0 {
      RowCellsUniform(cell, w, h, ch, r, n - 1);
      assert |cell(r, n - 1)| == ch;
    }
  }

  lemma {:induction false} GridUniform<T>(cell: (nat, nat) -> seq<T>, w: nat, h: nat, ch: nat, n: nat)
    requires CellsHave(cell, w, h, ch) && n <= h
    ensures Uniform(Grid(cell, w, n), ch)
  {
    if n > 0 {
      GridUniform(cell, w, h, ch, n - 1);
      RowCellsUniform(cell, w, h, ch, n - 1, w);
    }
  }

  /** A w-by-h image of ch values per pixel takes h*w*ch values. */
  lemma GridLength<T>(cell: (nat, nat) -> seq<T>, w: nat, h: nat, ch: nat)
    requires CellsHave(cell, w, h, ch)
    ensures |Flatten(Grid(cell, w, h))| == Times(Times(h, w), ch)
  {
    GridUniform(cell, w, h, ch, h);
    FlattenLength(Grid(cell, w, h), ch);
  }

  /** Pixel (r, c) of the flattened grid is group r*w + c. */
  lemma GridSlot<T>(cell: (nat, nat) -> seq<T>, w: nat, h: nat, ch: nat, r: nat, c: nat)
    requires CellsHave(cell, w, h, ch) && r < h && c < w
    ensures Times(Times(r, w) + c, ch) + ch <= |Flatten(Grid(cell, w, h))|
    ensures Slot(Flatten(Grid(cell, w, h)), ch, Times(r, w) + c) == cell(r, c)
  {
    GridUniform(cell, w, h, ch, h);
    GridAt(cell, w, h, r, c);
    FlattenSlot(Grid(cell, w, h), ch, Times(r, w) + c);
  }

  /** Appending cell (r, n) to the first n cells of row r. */
  lemma RowCellsStep<T>(cell: (nat, nat) -> seq<T>, r: nat, n: nat)
    ensures Flatten(RowCells(cell, r, n + 1)) == Flatten(RowCells(cell, r, n)) + cell(r, n)
  {
    FlattenPush(RowCells(cell, r, n), cell(r, n));
  }

  /** Appending row n to the first n rows. */
  lemma GridStep<T>(cell: (nat, nat) -> seq<T>, w: nat, n: nat)
    ensures Flatten(Grid(cell, w, n + 1)) == Flatten(Grid(cell, w, n)) + Flatten(RowCells(cell, n, w))
  {
    FlattenConcat(Grid(cell, w, n), RowCells(cell, n, w));
  }
}
