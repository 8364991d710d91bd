/** What `InitParticles` computes from the resized image: the grid of
    sampled pixels it walks (stride `gap`, rows first), the opaque ones among
    them, and the particles it emits for those, in order. The loops of the
    method in `ParticleEffect` are proved against these definitions. */
module Sampling {
  import opened RaylibTypes
  import opened ParticleModel
  import Arith

  /** A pixel position of the resized image: column `x`, row `y`. */
  datatype Cell = Cell(x: int, y: int)

  predicate InImage(c: Cell, w: int, h: int)
  {
    0 <= c.x < w && 0 <= c.y < h
  }

  predicate AllInImage(cells: seq<Cell>, w: int, h: int)
  {
    forall c :: c in cells ==> InImage(c, w, h)
  }

  /** The row-major index `y * w + x` of a pixel of the image lies inside
      the `w * h` pixel buffer. */
  lemma PixelIndexInRange(c: Cell, w: int, h: int)
    requires InImage(c, w, h)
    ensures 0 <= c.y * w + c.x < w * h
  {
    Arith.MulMono(0, c.y, 0, w);
    Arith.MulMono(c.y + 1, h, w, w);
    assert (c.y + 1) * w == c.y * w + w;
    Arith.MulComm(h, w);
  }

  /** Inside the image, `pixels[y * w + x]` is in range and is the colour
      `PixelAt` gives for the cell `(x, y)`. */
  lemma PixelRead(pixels: seq<Color>, w: int, h: int, x: int, y: int, i: int)
    requires |pixels| == w * h && InImage(Cell(x, y), w, h) && i == y * w + x
    ensures 0 <= i < |pixels| && pixels[i] == PixelAt(pixels, w, Cell(x, y))
  {
    PixelIndexInRange(Cell(x, y), w, h);
  }

  /** A fully transparent colour. */
  const TRANSPARENT: Color := Color(0, 0, 0, 0)

  /** The colour `InitParticles` reads for cell `c` of an image `w` pixels
      wide: `pixels[y * w + x]`. The buffer is only ever read inside the
      image (`PixelIndexInRange`, `ScanHas`); a read outside the buffer,
      which the loops never make, gives a transparent colour. */
  function PixelAt(pixels: seq<Color>, w: int, c: Cell): Color
  {
    var i := c.y * w + c.x;
    if 0 <= i < |pixels| then pixels[i] else TRANSPARENT
  }

  /** How many of the coordinates 0, gap, 2 * gap, ... lie below `n`. */
  function Samples(n: int, gap: int): nat
    requires gap > 0
    decreases n
  {
    if n <= 0 then 0 else 1 + Samples(n - gap, gap)
  }

  /** That count is the rounded-up quotient `(n + gap - 1) / gap`. */
  lemma {:induction false} SamplesIsCeilDiv(n: int, gap: int)
    requires n >= 0 && gap > 0
    ensures Samples(n, gap) == (n + gap - 1) / gap
    decreases n
  {
    if n == 0 {
      Arith.DivModUnique(gap - 1, gap, 0, gap - 1);
    } else {
      Arith.DivModUnique(n - 1, gap, (n - 1) / gap, (n - 1) % gap);
      Arith.DivModUnique(n + gap - 1, gap, (n - 1) / gap + 1, (n - 1) % gap);
      if n <= gap {
        Arith.DivModUnique(n - 1, gap, 0, n - 1);
      } else {
        SamplesIsCeilDiv(n - gap, gap);
      }
    }
  }

  /** It equals the truncated quotient `n / gap` exactly when `gap` divides
      `n`, and exceeds it by one otherwise. */
  lemma {:induction false} SamplesVsFloorDiv(n: int, gap: int)
    requires n >= 0 && gap > 0
    ensures Samples(n, gap) == if n % gap == 0 then n / gap else n / gap + 1
    decreases n
  {
    if n < gap {
      Arith.DivModUnique(n, gap, 0, n);
    } else {
      Arith.DivModUnique(n - gap, gap, (n - gap) / gap, (n - gap) % gap);
      Arith.DivModUnique(n, gap, (n - gap) / gap + 1, (n - gap) % gap);
      SamplesVsFloorDiv(n - gap, gap);
    }
  }

  /** The cells the inner loop visits in row `y`, from column `x` on:
      `x, x + gap, ...` while below `w`. */
  function ScanRow(w: int, gap: int, y: int, x: int): (r: seq<Cell>)
    requires gap > 0
    ensures forall c :: c in r ==> c.y == y && x <= c.x < w
    decreases w - x
  {
    if x >= w then [] else [Cell(x, y)] + ScanRow(w, gap, y, x + gap)
  }

  /** The cells both loops visit from row `y` on, row after row. */
  function ScanGrid(w: int, h: int, gap: int, y: int): (r: seq<Cell>)
    requires gap > 0
    ensures forall c :: c in r ==> y <= c.y < h && 0 <= c.x < w
    decreases h - y
  {
    if y >= h then [] else ScanRow(w, gap, y, 0) + ScanGrid(w, h, gap, y + gap)
  }

  /** A row from column `x` holds one cell per sampled column. */
  lemma {:induction false} ScanRowLength(w: int, gap: int, y: int, x: int)
    requires gap > 0
    ensures |ScanRow(w, gap, y, x)| == Samples(w - x, gap)
    decreases w - x
  {
    if x < w {
      ScanRowLength(w, gap, y, x + gap);
    }
  }

  /** The rows from `y` on hold one cell per sampled row and column. */
  lemma {:induction false} ScanGridLength(w: int, h: int, gap: int, y: int)
    requires gap > 0
    ensures |ScanGrid(w, h, gap, y)| == Samples(h - y, gap) * Samples(w, gap)
    decreases h - y
  {
    if y < h {
      ScanRowLength(w, gap, y, 0);
      ScanGridLength(w, h, gap, y + gap);
      assert Samples(h - y, gap) == 1 + Samples(h - (y + gap), gap);
      assert Samples(h - y, gap) * Samples(w, gap) == Samples(w, gap) + Samples(h - (y + gap), gap) * Samples(w, gap);
    }
  }

  /** Every cell `InitParticles` samples, in the order it samples them. */
  function Scan(w: int, h: int, gap: int): seq<Cell>
    requires gap > 0
  {
    ScanGrid(w, h, gap, 0)
  }

  lemma {:induction false} ScanRowHas(w: int, gap: int, y: int, x: int, c: Cell)
    requires gap > 0 && x % gap == 0
    ensures c in ScanRow(w, gap, y, x) <==> c.y == y && x <= c.x < w && c.x % gap == 0
    decreases w - x
  {
    if x < w {
      Arith.ModStep(x, gap);
      ScanRowHas(w, gap, y, x + gap, c);
      if c.y == y && x < c.x < w && c.x % gap == 0 {
        Arith.NextMultiple(x, c.x, gap);
      }
    }
  }

  lemma {:induction false} ScanGridHas(w: int, h: int, gap: int, y: int, c: Cell)
    requires gap > 0 && y % gap == 0
    ensures c in ScanGrid(w, h, gap, y) <==>
      y <= c.y < h && 0 <= c.x < w && c.x % gap == 0 && c.y % gap == 0
    decreases h - y
  {
    if y < h {
      Arith.ModStep(y, gap);
      Arith.DivModUnique(0, gap, 0, 0);
      ScanRowHas(w, gap, y, 0, c);
      ScanGridHas(w, h, gap, y + gap, c);
      if y < c.y < h && c.y % gap == 0 {
        Arith.NextMultiple(y, c.y, gap);
      }
    }
  }

  /** The sampled cells are exactly the pixels of the image whose column and
      row are both multiples of `gap`. */
  lemma ScanHas(w: int, h: int, gap: int, c: Cell)
    requires gap > 0
    ensures c in Scan(w, h, gap) <==> InImage(c, w, h) && c.x % gap == 0 && c.y % gap == 0
  {
    Arith.DivModUnique(0, gap, 0, 0);
    ScanGridHas(w, h, gap, 0, c);
  }

  /** `a` is sampled before `b`: an earlier row, or the same row and an
      earlier column. */
  predicate Before(a: Cell, b: Cell)
  {
    a.y < b.y || (a.y == b.y && a.x < b.x)
  }

  predicate RowMajor(cells: seq<Cell>)
  {
    forall i, j :: 0 <= i < j < |cells| ==> Before(cells[i], cells[j])
  }

  lemma ConcatRowMajor(a: seq<Cell>, b: seq<Cell>)
    requires RowMajor(a) && RowMajor(b)
    requires forall c, d :: c in a && d in b ==> Before(c, d)
    ensures RowMajor(a + b)
  {
    var s := a + b;
    forall i, j | 0 <= i < j < |s|
      ensures Before(s[i], s[j])
    {
      if j < |a| {
        assert s[i] == a[i] && s[j] == a[j];
      } else if i >= |a| {
        assert s[i] == b[i - |a|] && s[j] == b[j - |a|];
      } else {
        assert s[i] == a[i] && s[j] == b[j - |a|];
      }
    }
  }

  lemma {:induction false} ScanRowIsRowMajor(w: int, gap: int, y: int, x: int)
    requires gap > 0
    ensures RowMajor(ScanRow(w, gap, y, x))
    decreases w - x
  {
    if x < w {
      ScanRowIsRowMajor(w, gap, y, x + gap);
      ConcatRowMajor([Cell(x, y)], ScanRow(w, gap, y, x + gap));
    }
  }

  lemma {:induction false} ScanGridIsRowMajor(w: int, h: int, gap: int, y: int)
    requires gap > 0
    ensures RowMajor(ScanGrid(w, h, gap, y))
    decreases h - y
  {
    if y < h {
      ScanRowIsRowMajor(w, gap, y, 0);
      ScanGridIsRowMajor(w, h, gap, y + gap);
      ConcatRowMajor(ScanRow(w, gap, y, 0), ScanGrid(w, h, gap, y + gap));
    }
  }

  /** The tail of a row-major sequence is row-major and comes after its head. */
  lemma RowMajorTail(cells: seq<Cell>)
    requires RowMajor(cells) && cells != []
    ensures RowMajor(cells[1..])
    ensures forall d :: d in cells[1..] ==> Before(cells[0], d)
  {
    var rest := cells[1..];
    forall i, j | 0 <= i < j < |rest|
      ensures Before(rest[i], rest[j])
    {
      assert rest[i] == cells[i + 1] && rest[j] == cells[j + 1];
    }
    forall d | d in rest
      ensures Before(cells[0], d)
    {
      var k :| 0 <= k < |rest| && rest[k] == d;
      assert d == cells[k + 1];
    }
  }

  /** The cells among `cells` whose pixel has a non-zero alpha, in order. */
  function OpaqueCells(pixels: seq<Color>, w: int, cells: seq<Cell>): (r: seq<Cell>)
    ensures |r| <= |cells|
    ensures forall c :: c in r <==> c in cells && PixelAt(pixels, w, c).a > 0
    decreases |cells|
  {
    if cells == [] then []
    else
      var rest := OpaqueCells(pixels, w, cells[1..]);
      if PixelAt(pixels, w, cells[0]).a > 0 then [cells[0]] + rest else rest
  }

  /** Filtering keeps the scan order. */
  lemma {:induction false} OpaqueKeepsRowMajor(pixels: seq<Color>, w: int, cells: seq<Cell>)
    requires RowMajor(cells)
    ensures RowMajor(OpaqueCells(pixels, w, cells))
    decreases |cells|
  {
    if cells != [] {
      var rest := cells[1..];
      RowMajorTail(cells);
      OpaqueKeepsRowMajor(pixels, w, rest);
      ConcatRowMajor([cells[0]], OpaqueCells(pixels, w, rest));
    }
  }

  /** With no transparent pixel in the image, no cell is dropped. */
  lemma {:induction false} OpaqueKeepsAllWhenNoneTransparent(pixels: seq<Color>, w: int, h: int, cells: seq<Cell>)
    requires |pixels| == w * h && AllInImage(cells, w, h)
    requires forall i :: 0 <= i < |pixels| ==> pixels[i].a > 0
    ensures OpaqueCells(pixels, w, cells) == cells
    decreases |cells|
  {
    if cells != [] {
      PixelIndexInRange(cells[0], w, h);
      OpaqueKeepsAllWhenNoneTransparent(pixels, w, h, cells[1..]);
      assert [cells[0]] + cells[1..] == cells;
    }
  }

  /** A transparent cell is dropped, so fewer cells remain. */
  lemma {:induction false} TransparentCellDropped(pixels: seq<Color>, w: int, cells: seq<Cell>, c: Cell)
    requires c in cells && PixelAt(pixels, w, c).a == 0
    ensures |OpaqueCells(pixels, w, cells)| < |cells|
    decreases |cells|
  {
    if cells[0] != c {
      TransparentCellDropped(pixels, w, cells[1..], c);
    }
  }

  /** The cells among `cells` whose pixel is fully transparent, in order:
      the ones the loops skip. */
  function TransparentCells(pixels: seq<Color>, w: int, cells: seq<Cell>): (r: seq<Cell>)
    ensures forall c :: c in r <==> c in cells && PixelAt(pixels, w, c).a == 0
    decreases |cells|
  {
    if cells == [] then []
    else
      var rest := TransparentCells(pixels, w, cells[1..]);
      if PixelAt(pixels, w, cells[0]).a == 0 then [cells[0]] + rest else rest
  }

  /** Every cell is either kept or skipped, never both. */
  lemma {:induction false} OpaqueOrTransparent(pixels: seq<Color>, w: int, cells: seq<Cell>)
    ensures |OpaqueCells(pixels, w, cells)| + |TransparentCells(pixels, w, cells)| == |cells|
    decreases |cells|
  {
    if cells != [] {
      OpaqueOrTransparent(pixels, w, cells[1..]);
    }
  }

  lemma {:induction false} NoTransparentCells(pixels: seq<Color>, w: int, cells: seq<Cell>)
    requires forall d :: d in cells ==> PixelAt(pixels, w, d).a > 0
    ensures TransparentCells(pixels, w, cells) == []
    decreases |cells|
  {
    if cells != [] {
      assert cells[0] in cells;
      NoTransparentCells(pixels, w, cells[1..]);
    }
  }

  /** In a row-major sequence (so without repeats) in which `c` is the only
      transparent cell, `c` is skipped exactly once. */
  lemma {:induction false} OnlyTransparentCell(pixels: seq<Color>, w: int, cells: seq<Cell>, c: Cell)
    requires RowMajor(cells) && c in cells && PixelAt(pixels, w, c).a == 0
    requires forall d :: d in cells && d != c ==> PixelAt(pixels, w, d).a > 0
    ensures TransparentCells(pixels, w, cells) == [c]
    decreases |cells|
  {
    RowMajorTail(cells);
    var rest := cells[1..];
    if cells[0] == c {
      forall d | d in rest
        ensures PixelAt(pixels, w, d).a > 0
      {
        assert Before(c, d);
      }
      NoTransparentCells(pixels, w, rest);
    } else {
      OnlyTransparentCell(pixels, w, rest, c);
    }
  }

  /** The particle emitted for the opaque cell `c`, shifted by the centring
      offsets. */
  function Spawn(pixels: seq<Color>, w: int, c: Cell, offX: int, offY: int): Particle
  {
    NewParticle(c.x + offX, c.y + offY, PixelAt(pixels, w, c))
  }

  /** The particles emitted for `cells`: one per opaque cell, in order. */
  function Emit(pixels: seq<Color>, w: int, cells: seq<Cell>, offX: int, offY: int): seq<Particle>
    decreases |cells|
  {
    if cells == [] then []
    else
      (if PixelAt(pixels, w, cells[0]).a > 0 then [Spawn(pixels, w, cells[0], offX, offY)] else [])
      + Emit(pixels, w, cells[1..], offX, offY)
  }

  /** The `j`-th particle emitted is spawned from the `j`-th opaque cell. */
  lemma {:induction false} EmitSpawnsOpaqueCells(pixels: seq<Color>, w: int, cells: seq<Cell>, offX: int, offY: int)
    ensures |Emit(pixels, w, cells, offX, offY)| == |OpaqueCells(pixels, w, cells)|
    ensures forall j :: 0 <= j < |Emit(pixels, w, cells, offX, offY)| ==>
      Emit(pixels, w, cells, offX, offY)[j] == Spawn(pixels, w, OpaqueCells(pixels, w, cells)[j], offX, offY)
  {
    EmitLength(pixels, w, cells, offX, offY);
    forall j | 0 <= j < |Emit(pixels, w, cells, offX, offY)|
      ensures Emit(pixels, w, cells, offX, offY)[j] == Spawn(pixels, w, OpaqueCells(pixels, w, cells)[j], offX, offY)
    {
      EmitAt(pixels, w, cells, offX, offY, j);
    }
  }

  /** Emission and filtering keep the same cells, so they have the same length. */
  lemma {:induction false} EmitLength(pixels: seq<Color>, w: int, cells: seq<Cell>, offX: int, offY: int)
    ensures |Emit(pixels, w, cells, offX, offY)| == |OpaqueCells(pixels, w, cells)|
    decreases |cells|
  {
    if cells != [] {
      EmitLength(pixels, w, cells[1..], offX, offY);
    }
  }

  /** The `j`-th emitted particle is spawned from the `j`-th opaque cell. */
  lemma {:induction false} EmitAt(pixels: seq<Color>, w: int, cells: seq<Cell>, offX: int, offY: int, j: int)
    requires 0 <= j < |Emit(pixels, w, cells, offX, offY)|
    ensures j < |OpaqueCells(pixels, w, cells)|
    ensures Emit(pixels, w, cells, offX, offY)[j] == Spawn(pixels, w, OpaqueCells(pixels, w, cells)[j], offX, offY)
    decreases |cells|
  {
    EmitLength(pixels, w, cells, offX, offY);
    if PixelAt(pixels, w, cells[0]).a > 0 {
      if j > 0 {
        EmitAt(pixels, w, cells[1..], offX, offY, j - 1);
      }
    } else {
      EmitAt(pixels, w, cells[1..], offX, offY, j);
    }
  }

  lemma {:induction false} EmitAppend(pixels: seq<Color>, w: int, a: seq<Cell>, b: seq<Cell>, offX: int, offY: int)
    ensures Emit(pixels, w, a + b, offX, offY)
         == Emit(pixels, w, a, offX, offY) + Emit(pixels, w, b, offX, offY)
    decreases |a|
  {
    if a == [] {
      assert a + b == b;
    } else {
      assert (a + b)[0] == a[0];
      assert (a + b)[1..] == a[1..] + b;
      EmitAppend(pixels, w, a[1..], b, offX, offY);
      var first := if PixelAt(pixels, w, a[0]).a > 0 then [Spawn(pixels, w, a[0], offX, offY)] else [];
      assert first + (Emit(pixels, w, a[1..], offX, offY) + Emit(pixels, w, b, offX, offY))
          == first + Emit(pixels, w, a[1..], offX, offY) + Emit(pixels, w, b, offX, offY);
    }
  }

  /** One sampled cell emits one particle if its pixel is opaque, none if not. */
  lemma EmitOne(pixels: seq<Color>, w: int, c: Cell, offX: int, offY: int)
    ensures Emit(pixels, w, [c], offX, offY)
         == if PixelAt(pixels, w, c).a > 0 then [Spawn(pixels, w, c, offX, offY)] else []
  {
    assert [c][1..] == [];
  }

  /** Emission from column `x` of row `y` on: the cell at `(x, y)`, then the
      rest of the row. */
  lemma EmitRowStep(pixels: seq<Color>, w: int, gap: int, y: int, x: int, nx: int, offX: int, offY: int)
    requires gap > 0 && x < w && nx == x + gap
    ensures Emit(pixels, w, ScanRow(w, gap, y, x), offX, offY)
         == (if PixelAt(pixels, w, Cell(x, y)).a > 0 then [Spawn(pixels, w, Cell(x, y), offX, offY)] else [])
            + Emit(pixels, w, ScanRow(w, gap, y, nx), offX, offY)
  {
    assert ScanRow(w, gap, y, x) == [Cell(x, y)] + ScanRow(w, gap, y, nx);
    EmitAppend(pixels, w, [Cell(x, y)], ScanRow(w, gap, y, nx), offX, offY);
    EmitOne(pixels, w, Cell(x, y), offX, offY);
  }

  /** Emission from row `y` on: row `y`, then the rows below it. */
  lemma EmitGridStep(pixels: seq<Color>, w: int, h: int, gap: int, y: int, ny: int, offX: int, offY: int)
    requires gap > 0 && y < h && ny == y + gap
    ensures Emit(pixels, w, ScanGrid(w, h, gap, y), offX, offY)
         == Emit(pixels, w, ScanRow(w, gap, y, 0), offX, offY)
            + Emit(pixels, w, ScanGrid(w, h, gap, ny), offX, offY)
  {
    assert ScanGrid(w, h, gap, y) == ScanRow(w, gap, y, 0) + ScanGrid(w, h, gap, ny);
    EmitAppend(pixels, w, ScanRow(w, gap, y, 0), ScanGrid(w, h, gap, ny), offX, offY);
  }

  /** One iteration of the inner loop of `InitParticles` at cell `(x, y)`,
      stated on the particles written so far (`done`) and all the row must
      give (`all`): an opaque pixel appends its particle, a transparent one
      appends nothing, and the loop moves on to column `nx = x + gap`. */
  lemma CellStep(pixels: seq<Color>, w: int, gap: int, y: int, x: int, nx: int, offX: int, offY: int,
                 color: Color, done: seq<Particle>, all: seq<Particle>)
    requires gap > 0 && x < w && nx == x + gap && color == PixelAt(pixels, w, Cell(x, y))
    requires done + Emit(pixels, w, ScanRow(w, gap, y, x), offX, offY) == all
    ensures var later := Emit(pixels, w, ScanRow(w, gap, y, nx), offX, offY);
      (color.a > 0 ==> done + [NewParticle(x + offX, y + offY, color)] + later == all
                       && |done| < |all|) &&
      (color.a == 0 ==> done + later == all)
  {
    EmitRowStep(pixels, w, gap, y, x, nx, offX, offY);
    var later := Emit(pixels, w, ScanRow(w, gap, y, nx), offX, offY);
    var head := if color.a > 0 then [Spawn(pixels, w, Cell(x, y), offX, offY)] else [];
    assert done + (head + later) == all;
    assert done + head + later == all by {
      assert done + (head + later) == done + head + later;
    }
    if color.a > 0 {
      assert head == [NewParticle(x + offX, y + offY, color)];
    } else {
      assert done + head == done;
    }
  }

  /** Entering row `y` of the outer loop: what is left to emit is that row,
      then the rows from `ny = y + gap` on. */
  lemma RowStart(pixels: seq<Color>, w: int, h: int, gap: int, y: int, ny: int, offX: int, offY: int,
                 done: seq<Particle>, all: seq<Particle>)
    requires gap > 0 && 0 <= y < h && ny == y + gap
    requires done + Emit(pixels, w, ScanGrid(w, h, gap, y), offX, offY) == all
    ensures done + Emit(pixels, w, ScanRow(w, gap, y, 0), offX, offY)
                 + Emit(pixels, w, ScanGrid(w, h, gap, ny), offX, offY) == all
  {
    EmitGridStep(pixels, w, h, gap, y, ny, offX, offY);
    var row := Emit(pixels, w, ScanRow(w, gap, y, 0), offX, offY);
    var below := Emit(pixels, w, ScanGrid(w, h, gap, ny), offX, offY);
    assert done + (row + below) == done + row + below;
  }

  /** Leaving a row: past its last column nothing of it is left to emit. */
  lemma RowEnd(pixels: seq<Color>, w: int, gap: int, y: int, x: int, offX: int, offY: int,
               done: seq<Particle>, all: seq<Particle>)
    requires gap > 0 && w <= x
    requires done + Emit(pixels, w, ScanRow(w, gap, y, x), offX, offY) == all
    ensures done == all
  {
    assert Emit(pixels, w, ScanRow(w, gap, y, x), offX, offY) == [];
    assert done + [] == done;
  }

  /** Leaving the outer loop: below the last row nothing is left to emit. */
  lemma GridEnd(pixels: seq<Color>, w: int, h: int, gap: int, y: int, offX: int, offY: int,
                done: seq<Particle>, all: seq<Particle>)
    requires gap > 0 && h <= y
    requires done + Emit(pixels, w, ScanGrid(w, h, gap, y), offX, offY) == all
    ensures done == all
  {
    assert Emit(pixels, w, ScanGrid(w, h, gap, y), offX, offY) == [];
    assert done + [] == done;
  }

  /** The centring offset `(screen - scaled) / 2`, with C's division. */
  function Offset(screen: int, scaled: int): int
  {
    Arith.CDiv(screen - scaled, 2)
  }

  /** The opaque sampled cells, in the order `InitParticles` meets them. */
  function SampledOpaque(pixels: seq<Color>, w: int, h: int, gap: int): seq<Cell>
    requires gap > 0
  {
    OpaqueCells(pixels, w, Scan(w, h, gap))
  }

  /** The particles `InitParticles` writes, in the order it writes them. */
  function Emitted(pixels: seq<Color>, w: int, h: int, gap: int, offX: int, offY: int): seq<Particle>
    requires gap > 0
  {
    Emit(pixels, w, Scan(w, h, gap), offX, offY)
  }

  /** A particle is emitted exactly for each sampled cell (column and row
      multiples of `gap`, inside the image) whose pixel has alpha above zero,
      and the cells appear in row-major order. */
  lemma SampledOpaqueCells(pixels: seq<Color>, w: int, h: int, gap: int)
    requires gap > 0 && |pixels| == w * h
    ensures forall c :: c in SampledOpaque(pixels, w, h, gap) <==>
      InImage(c, w, h) && c.x % gap == 0 && c.y % gap == 0 && PixelAt(pixels, w, c).a > 0
    ensures RowMajor(SampledOpaque(pixels, w, h, gap))
  {
    forall c {
      ScanHas(w, h, gap, c);
    }
    ScanGridIsRowMajor(w, h, gap, 0);
    OpaqueKeepsRowMajor(pixels, w, Scan(w, h, gap));
  }

  /** The `j`-th emitted particle sits, at rest, on the `j`-th opaque sampled
      cell shifted by the offsets, and carries that pixel's colour. */
  lemma EmittedParticleAt(pixels: seq<Color>, w: int, h: int, gap: int, offX: int, offY: int, j: int)
    requires gap > 0 && |pixels| == w * h
    requires 0 <= j < |Emitted(pixels, w, h, gap, offX, offY)|
    ensures j < |SampledOpaque(pixels, w, h, gap)|
    ensures var p := Emitted(pixels, w, h, gap, offX, offY)[j];
      var c := SampledOpaque(pixels, w, h, gap)[j];
      InImage(c, w, h) && c.x % gap == 0 && c.y % gap == 0 &&
      p.position == p.origin == Vector2((c.x + offX) as real, (c.y + offY) as real) &&
      p.velocity == ZERO && p.color == PixelAt(pixels, w, c) && p.color.a > 0
  {
    EmitSpawnsOpaqueCells(pixels, w, Scan(w, h, gap), offX, offY);
    var c := SampledOpaque(pixels, w, h, gap)[j];
    assert c in SampledOpaque(pixels, w, h, gap);
    ScanHas(w, h, gap, c);
    PixelIndexInRange(c, w, h);
  }

  /** With `0 <= w <= screenWidth` and `0 <= h <= screenHeight` the offsets
      are not negative and every origin lies on the screen. */
  lemma OriginsOnScreen(pixels: seq<Color>, w: int, h: int, gap: int, screenWidth: int, screenHeight: int, j: int)
    requires gap > 0 && |pixels| == w * h
    requires 0 <= w <= screenWidth && 0 <= h <= screenHeight
    requires 0 <= j < |Emitted(pixels, w, h, gap, Offset(screenWidth, w), Offset(screenHeight, h))|
    ensures Offset(screenWidth, w) >= 0 && Offset(screenHeight, h) >= 0
    ensures var p := Emitted(pixels, w, h, gap, Offset(screenWidth, w), Offset(screenHeight, h))[j];
      0.0 <= p.origin.x < screenWidth as real && 0.0 <= p.origin.y < screenHeight as real
  {
    EmittedParticleAt(pixels, w, h, gap, Offset(screenWidth, w), Offset(screenHeight, h), j);
  }

  /** The number of cells the loops visit: `ceil(w / gap) * ceil(h / gap)`. */
  function Capacity(w: int, h: int, gap: int): nat
    requires gap > 0
  {
    Samples(w, gap) * Samples(h, gap)
  }

  /** The particle count never exceeds the number of sampled cells. */
  lemma EmittedFitsCapacity(pixels: seq<Color>, w: int, h: int, gap: int, offX: int, offY: int)
    requires gap > 0 && 0 <= w && 0 <= h && |pixels| == w * h
    ensures |Emitted(pixels, w, h, gap, offX, offY)| <= Capacity(w, h, gap)
    ensures Capacity(w, h, gap) == ((w + gap - 1) / gap) * ((h + gap - 1) / gap)
  {
    EmitSpawnsOpaqueCells(pixels, w, Scan(w, h, gap), offX, offY);
    ScanGridLength(w, h, gap, 0);
    Arith.MulComm(Samples(h, gap), Samples(w, gap));
    SamplesIsCeilDiv(w, gap);
    SamplesIsCeilDiv(h, gap);
  }

  /** An image without transparent pixels emits one particle per sampled cell. */
  lemma FullyOpaqueFillsGrid(pixels: seq<Color>, w: int, h: int, gap: int, offX: int, offY: int)
    requires gap > 0 && |pixels| == w * h
    requires forall i :: 0 <= i < |pixels| ==> pixels[i].a > 0
    ensures |Emitted(pixels, w, h, gap, offX, offY)| == Capacity(w, h, gap)
  {
    var cells := Scan(w, h, gap);
    ScanGridLength(w, h, gap, 0);
    OpaqueKeepsAllWhenNoneTransparent(pixels, w, h, cells);
    EmitSpawnsOpaqueCells(pixels, w, cells, offX, offY);
    assert |Emitted(pixels, w, h, gap, offX, offY)| == |OpaqueCells(pixels, w, cells)|;
    assert |cells| == Samples(h, gap) * Samples(w, gap);
    Arith.MulComm(Samples(h, gap), Samples(w, gap));
  }

  /** A transparent sampled cell leaves fewer particles than sampled cells. */
  lemma TransparentSampleEmitsNothing(pixels: seq<Color>, w: int, h: int, gap: int, offX: int, offY: int, c: Cell)
    requires gap > 0 && |pixels| == w * h
    requires InImage(c, w, h) && c.x % gap == 0 && c.y % gap == 0 && PixelAt(pixels, w, c).a == 0
    ensures |Emitted(pixels, w, h, gap, offX, offY)| < Capacity(w, h, gap)
  {
    var cells := Scan(w, h, gap);
    ScanGridLength(w, h, gap, 0);
    ScanHas(w, h, gap, c);
    TransparentCellDropped(pixels, w, cells, c);
    EmitSpawnsOpaqueCells(pixels, w, cells, offX, offY);
    assert |Emitted(pixels, w, h, gap, offX, offY)| == |OpaqueCells(pixels, w, cells)|;
    assert |cells| == Samples(h, gap) * Samples(w, gap);
    Arith.MulComm(Samples(h, gap), Samples(w, gap));
  }

  /** Each transparent sampled cell costs exactly one particle: the
      particles and the skipped cells together make up the sampled grid. */
  lemma EmittedCount(pixels: seq<Color>, w: int, h: int, gap: int, offX: int, offY: int)
    requires gap > 0
    ensures |Emitted(pixels, w, h, gap, offX, offY)| + |TransparentCells(pixels, w, Scan(w, h, gap))|
         == Capacity(w, h, gap)
  {
    var cells := Scan(w, h, gap);
    EmitLength(pixels, w, cells, offX, offY);
    OpaqueOrTransparent(pixels, w, cells);
    ScanGridLength(w, h, gap, 0);
    Arith.MulComm(Samples(h, gap), Samples(w, gap));
  }

  /** So with exactly one transparent sampled pixel, one particle fewer than
      the sampled cells is written. */
  lemma OneTransparentSample(pixels: seq<Color>, w: int, h: int, gap: int, offX: int, offY: int, c: Cell)
    requires gap > 0
    requires InImage(c, w, h) && c.x % gap == 0 && c.y % gap == 0 && PixelAt(pixels, w, c).a == 0
    requires forall d :: InImage(d, w, h) && d.x % gap == 0 && d.y % gap == 0 && d != c ==>
      PixelAt(pixels, w, d).a > 0
    ensures |Emitted(pixels, w, h, gap, offX, offY)| == Capacity(w, h, gap) - 1
  {
    var cells := Scan(w, h, gap);
    forall d {
      ScanHas(w, h, gap, d);
    }
    ScanGridIsRowMajor(w, h, gap, 0);
    OnlyTransparentCell(pixels, w, cells, c);
    EmittedCount(pixels, w, h, gap, offX, offY);
  }

  /** The buffer size the source allocates and leaves in `particleCount`:
      `(newWidth / gap) * (newHeight / gap)`, with C's truncating division. */
  function AsWrittenCapacity(w: int, h: int, gap: int): int
    requires gap > 0
  {
    Arith.CDiv(w, gap) * Arith.CDiv(h, gap)
  }

  /** For non-negative dimensions that buffer is never larger than the number
      of cells the loops visit. */
  lemma AsWrittenCapacityAtMostCapacity(w: int, h: int, gap: int)
    requires gap > 0 && 0 <= w && 0 <= h
    ensures 0 <= AsWrittenCapacity(w, h, gap) <= Capacity(w, h, gap)
  {
    SamplesVsFloorDiv(w, gap);
    SamplesVsFloorDiv(h, gap);
    Arith.MulMono(w / gap, Samples(w, gap), h / gap, Samples(h, gap));
  }

  /** When `gap` divides both dimensions the source's buffer holds every
      particle the loops can emit. */
  lemma AlignedBufferHoldsEmitted(pixels: seq<Color>, w: int, h: int, gap: int, offX: int, offY: int)
    requires gap > 0 && 0 <= w && 0 <= h && |pixels| == w * h
    requires w % gap == 0 && h % gap == 0
    ensures AsWrittenCapacity(w, h, gap) == Capacity(w, h, gap)
    ensures |Emitted(pixels, w, h, gap, offX, offY)| <= AsWrittenCapacity(w, h, gap)
  {
    SamplesVsFloorDiv(w, gap);
    SamplesVsFloorDiv(h, gap);
    EmittedFitsCapacity(pixels, w, h, gap, offX, offY);
  }

  /** When `gap` does not divide a dimension and no pixel is transparent,
      the loops emit more particles than the source's buffer holds: the last
      writes go past its end. */
  lemma AsWrittenBufferOverflows(pixels: seq<Color>, w: int, h: int, gap: int, offX: int, offY: int)
    requires gap > 0 && 0 < w && 0 < h && |pixels| == w * h
    requires w % gap != 0 || h % gap != 0
    requires forall i :: 0 <= i < |pixels| ==> pixels[i].a > 0
    ensures |Emitted(pixels, w, h, gap, offX, offY)| > AsWrittenCapacity(w, h, gap)
  {
    FullyOpaqueFillsGrid(pixels, w, h, gap, offX, offY);
    SamplesVsFloorDiv(w, gap);
    SamplesVsFloorDiv(h, gap);
    Arith.MulStrict(w / gap, Samples(w, gap), h / gap, Samples(h, gap));
  }

  /** For instance an opaque 3 x 2 image with gap 2: two particles, a
      one-particle buffer. */
  lemma OddWidthOverflowExample(pixels: seq<Color>)
    requires |pixels| == 6
    requires forall i :: 0 <= i < |pixels| ==> pixels[i].a > 0
    ensures AsWrittenCapacity(3, 2, 2) == 1
    ensures |Emitted(pixels, 3, 2, 2, 0, 0)| == 2
  {
    FullyOpaqueFillsGrid(pixels, 3, 2, 2, 0, 0);
    SamplesIsCeilDiv(3, 2);
    SamplesIsCeilDiv(2, 2);
  }

  /** When `gap` divides both dimensions but a sampled pixel is transparent,
      fewer particles are written than the count the source leaves in
      `particleCount`: the entries between are never initialised. */
  lemma TransparentCellLeavesStaleTail(pixels: seq<Color>, w: int, h: int, gap: int, offX: int, offY: int, c: Cell)
    requires gap > 0 && 0 <= w && 0 <= h && |pixels| == w * h
    requires w % gap == 0 && h % gap == 0
    requires InImage(c, w, h) && c.x % gap == 0 && c.y % gap == 0 && PixelAt(pixels, w, c).a == 0
    ensures |Emitted(pixels, w, h, gap, offX, offY)| < AsWrittenCapacity(w, h, gap)
  {
    AlignedBufferHoldsEmitted(pixels, w, h, gap, offX, offY);
    TransparentSampleEmitsNothing(pixels, w, h, gap, offX, offY, c);
  }
}
