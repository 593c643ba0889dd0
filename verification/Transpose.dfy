/** The matrix transposes of ASSN4/trans.c. Matrices are flat, row after row, in two distinct
    buffers of the size that tracegen.c declares; a row may be addressed past its end. */
module Transpose {
  type Index = i: nat | i < 256

  /** The offset of row i, column j in a matrix of w columns */
  function At(i: Index, j: Index, w: nat): (k: nat)
    requires w <= 256
    ensures k < 65536
  {
    AtInBuffer(i, j, w);
    i * w + j
  }

  lemma AtInBuffer(i: Index, j: Index, w: nat)
    requires w <= 256
    ensures i * w + j < 65536
  {
  }

  predicate Shape(M: nat, N: nat) {
    M <= 256 && N <= 256
  }

  /** Rows r0..r1 and columns c0..c1 of A have reached the columns and rows of B. */
  predicate Copied(a: seq<int>, b: seq<int>, M: nat, N: nat, r0: int, r1: int, c0: int, c1: int)
    requires |a| == |b| == 65536 && Shape(M, N)
  {
    forall i: Index, j: Index {:trigger At(j, i, N)} ::
      r0 <= i < r1 && i < N && c0 <= j < c1 && j < M ==> b[At(j, i, N)] == a[At(i, j, M)]
  }

  predicate IsTranspose(a: seq<int>, b: seq<int>, M: nat, N: nat)
    requires |a| == |b| == 65536 && Shape(M, N)
  {
    Copied(a, b, M, N, 0, N, 0, M)
  }

  /** Outside columns r0..r1 and rows c0..c1, B is as before, and so is the buffer behind it. */
  predicate KeptOutside(b: seq<int>, b': seq<int>, N: nat, r0: int, r1: int, c0: int, c1: int)
    requires |b| == |b'| == 65536 && N <= 256
  {
    && b[256 * N..] == b'[256 * N..]
    && forall i: Index, j: Index {:trigger At(j, i, N)} ::
         i < N && !(r0 <= i < r1 && c0 <= j < c1) ==> b[At(j, i, N)] == b'[At(j, i, N)]
  }

  lemma AtInjective(i: Index, j: Index, i': Index, j': Index, w: nat)
    requires j < w <= 256 && j' < w
    ensures At(i, j, w) == At(i', j', w) ==> i == i' && j == j'
  {
    if i * w + j == i' * w + j' {
      assert (i - i') * w == i * w - i' * w;
      if i > i' {
        Multiple(i - i', w);
      } else if i < i' {
        assert (i' - i) * w == i' * w - i * w;
        Multiple(i' - i, w);
      }
    }
  }

  lemma Multiple(d: int, w: int)
    requires d >= 1 && w >= 0
    ensures d * w >= w
  {
  }

  /** The cells of M rows lie in the first M * N words. */
  lemma CellInRegion(j: Index, i: Index, M: nat, N: nat)
    requires i < N <= 256 && j < M <= 256
    ensures At(j, i, N) < M * N
  {
    Multiple(M - j, N);
    assert (M - j) * N == M * N - j * N;
  }

  /** `B[j][i] = v` */
  method Put(b: array<int>, N: nat, j: Index, i: Index, v: int)
    requires b.Length == 65536 && i < N <= 256
    modifies b
    ensures b[..] == old(b[..])[At(j, i, N) := v]
    ensures forall i': Index, j': Index {:trigger At(j', i', N)} ::
              i' < N && (i' != i || j' != j) ==> b[..][At(j', i', N)] == old(b[..])[At(j', i', N)]
    ensures b[256 * N..] == old(b[256 * N..]) == b[..][256 * N..] == old(b[..])[256 * N..]
  {
    hide At;
    CellInRegion(j, i, 256, N);
    b[At(j, i, N)] := v;
    forall i': Index, j': Index | i' < N && (i' != i || j' != j)
      ensures b[..][At(j', i', N)] == old(b[..])[At(j', i', N)]
    {
      AtInjective(j, i, j', i', N);
    }
  }

  /** Every offset of the result is that of a cell. */
  lemma {:induction false} OffsetIsCell(k: nat, M: nat, N: nat) returns (i: Index, j: Index)
    requires Shape(M, N) && k < M * N
    ensures i < N && j < M && k == At(j, i, N)
    decreases M
  {
    assert M > 0 && (M - 1) * N == M * N - N;
    if k >= M * N - N {
      i, j := k - (M - 1) * N, M - 1;
    } else {
      i, j := OffsetIsCell(k, M - 1, N);
    }
  }

  /** Keeping every cell outside the result is keeping every word behind it. */
  lemma KeptBehind(b: seq<int>, b': seq<int>, M: nat, N: nat)
    requires |b| == |b'| == 65536 && Shape(M, N) && KeptOutside(b, b', N, 0, N, 0, M)
    ensures M * N <= 65536 && b[M * N..] == b'[M * N..]
  {
    hide At, KeptOutside;
    RegionFits(M, N);
    forall k | M * N <= k < 65536
      ensures b[k] == b'[k]
    {
      WordKept(b, b', M, N, k);
    }
  }

  lemma WordKept(b: seq<int>, b': seq<int>, M: nat, N: nat, k: nat)
    requires |b| == |b'| == 65536 && Shape(M, N) && KeptOutside(b, b', N, 0, N, 0, M)
    requires M * N <= k < 65536
    ensures b[k] == b'[k]
  {
    hide At;
    if k < 256 * N {
      var i, j := OffsetIsCell(k, 256, N);
      if j < M { CellInRegion(j, i, M, N); }
      assert b[At(j, i, N)] == b'[At(j, i, N)];
    } else {
      assert b[256 * N..][k - 256 * N] == b'[256 * N..][k - 256 * N];
    }
  }

  lemma RegionFits(M: nat, N: nat)
    requires Shape(M, N)
    ensures M * N <= 65536
  {
    assert M * N <= M * 256;
  }

  /** `trans`: the plain double loop */
  method Trans(M: nat, N: nat, a: array<int>, b: array<int>)
    requires Shape(M, N) && a.Length == b.Length == 65536 && a != b
    modifies b
    ensures IsTranspose(a[..], b[..], M, N)
    ensures M * N <= 65536 && b[M * N..] == old(b[M * N..])
  {
    hide At;
    var i := 0;
    while i < N
      invariant 0 <= i <= N
      invariant Copied(a[..], b[..], M, N, 0, i, 0, M)
      invariant KeptOutside(old(b[..]), b[..], N, 0, N, 0, M)
    {
      var j := 0;
      while j < M
        invariant 0 <= j <= M
        invariant Copied(a[..], b[..], M, N, 0, i, 0, M) && Copied(a[..], b[..], M, N, i, i + 1, 0, j)
        invariant KeptOutside(old(b[..]), b[..], N, 0, N, 0, M)
      {
        var tmp := a[At(i, j, M)];
        Put(b, N, j, i, tmp);
        j := j + 1;
      }
      i := i + 1;
    }
    KeptBehind(old(b[..]), b[..], M, N);
  }

  /** Below the M rows of the result, B is as before, except that diagonal cells within the last
      tile may have received what the code reads as A's diagonal there. */
  predicate KeptBelow(a: seq<int>, b: seq<int>, b': seq<int>, M: nat, N: nat)
    requires |a| == |b| == |b'| == 65536 && Shape(M, N)
  {
    && b[256 * N..] == b'[256 * N..]
    && forall i: Index, j: Index {:trigger At(j, i, N)} ::
         i < N && M <= j ==> b'[At(j, i, N)] == b[At(j, i, N)] || Stray(a, b', M, N, i, j)
  }

  predicate Stray(a: seq<int>, b: seq<int>, M: nat, N: nat, i: Index, j: Index)
    requires |a| == |b| == 65536 && Shape(M, N)
  {
    i == j && j < N && M <= j < M + 7 && b[At(j, j, N)] == a[At(j, j, M)]
  }

  /** The 8 x 8 tile that starts at this row and column of A is transposed, and the rest is kept. */
  predicate TileDone(a: seq<int>, b: seq<int>, b': seq<int>, M: nat, N: nat, row: nat, col: nat)
    requires |a| == |b| == |b'| == 65536 && Shape(M, N)
  {
    && Copied(a, b', M, N, row, row + 8, col, col + 8)
    && KeptOutside(b, b', N, row, row + 8, col, col + 8)
    && KeptBelow(a, b, b', M, N)
  }

  method BlockingDiag(M: nat, N: nat, a: array<int>, b: array<int>, ROW: nat, COL: nat)
    requires Shape(M, N) && a.Length == b.Length == 65536 && a != b
    requires ROW < N && COL < M && ROW == COL
    modifies b
    ensures TileDone(a[..], old(b[..]), b[..], M, N, ROW, COL)
  {
    hide At;
    var row := ROW;
    while row < N && row < ROW + 8
      invariant ROW <= row <= N && row <= ROW + 8
      invariant Copied(a[..], b[..], M, N, ROW, row, COL, COL + 8)
      invariant KeptOutside(old(b[..]), b[..], N, ROW, ROW + 8, COL, COL + 8)
      invariant KeptBelow(a[..], old(b[..]), b[..], M, N)
    {
      var tmp := a[At(row, row, M)];
      var col := COL;
      while col < M && col < COL + 8
        invariant COL <= col <= M && col <= COL + 8
        invariant Copied(a[..], b[..], M, N, ROW, row, COL, COL + 8)
        invariant Copied(a[..], b[..], M, N, row, row + 1, COL, if col <= row then col else row)
        invariant Copied(a[..], b[..], M, N, row, row + 1, row + 1, col)
        invariant KeptOutside(old(b[..]), b[..], N, ROW, ROW + 8, COL, COL + 8)
        invariant KeptBelow(a[..], old(b[..]), b[..], M, N)
      {
        if row != col {
          Put(b, N, col, row, a[At(row, col, M)]);
        }
        col := col + 1;
      }
      Put(b, N, row, row, tmp);
      row := row + 1;
    }
  }

  method Blocking(M: nat, N: nat, a: array<int>, b: array<int>, ROW: nat, COL: nat)
    requires Shape(M, N) && a.Length == b.Length == 65536 && a != b
    requires ROW < N && COL < M
    modifies b
    ensures TileDone(a[..], old(b[..]), b[..], M, N, ROW, COL)
  {
    hide At;
    if ROW == COL {
      BlockingDiag(M, N, a, b, ROW, COL);
      return;
    }
    var row := COL;
    while row < COL + 8 && row < M
      invariant COL <= row <= M && row <= COL + 8
      invariant Copied(a[..], b[..], M, N, ROW, ROW + 8, COL, row)
      invariant KeptOutside(old(b[..]), b[..], N, ROW, ROW + 8, COL, COL + 8)
      invariant KeptBelow(a[..], old(b[..]), b[..], M, N)
    {
      var col := ROW;
      while col < ROW + 8 && col < N
        invariant ROW <= col <= N && col <= ROW + 8
        invariant Copied(a[..], b[..], M, N, ROW, ROW + 8, COL, row)
        invariant Copied(a[..], b[..], M, N, ROW, col, row, row + 1)
        invariant KeptOutside(old(b[..]), b[..], N, ROW, ROW + 8, COL, COL + 8)
        invariant KeptBelow(a[..], old(b[..]), b[..], M, N)
      {
        Put(b, N, row, col, a[At(col, row, M)]);
        col := col + 1;
      }
      row := row + 1;
    }
  }

  /** Four neighbouring values of a row of A, all read before the first is written */
  method PutFour(M: nat, N: nat, a: array<int>, b: array<int>, row: nat, col: nat)
    requires M == N == 64 && a.Length == b.Length == 65536 && a != b
    requires row < N && col + 4 <= M
    modifies b
    ensures Copied(a[..], b[..], M, N, row, row + 1, col, col + 4)
    ensures KeptOutside(old(b[..]), b[..], N, row, row + 1, col, col + 4)
  {
    hide At;
    var t0 := a[At(row, col, M)];
    var t1 := a[At(row, col + 1, M)];
    var t2 := a[At(row, col + 2, M)];
    var t3 := a[At(row, col + 3, M)];
    PutSaved(M, N, a, b, row, col, t0, t1, t2, t3);
  }

  /** The left half of the tile, from the top row down */
  method LeftHalf(M: nat, N: nat, a: array<int>, b: array<int>, ROW: nat, COL: nat)
    requires M == N == 64 && a.Length == b.Length == 65536 && a != b
    requires ROW + 8 <= N && COL + 4 <= M
    modifies b
    ensures Copied(a[..], b[..], M, N, ROW, ROW + 8, COL, COL + 4)
    ensures KeptOutside(old(b[..]), b[..], N, ROW, ROW + 8, COL, COL + 4)
  {
    hide At;
    var i := 0;
    while i < 8
      invariant 0 <= i <= 8
      invariant Copied(a[..], b[..], M, N, ROW, ROW + i, COL, COL + 4)
      invariant KeptOutside(old(b[..]), b[..], N, ROW, ROW + 8, COL, COL + 4)
    {
      PutFour(M, N, a, b, ROW + i, COL);
      i := i + 1;
    }
  }

  /** The right half, from the bottom row up, without the topmost row */
  method RightHalf(M: nat, N: nat, a: array<int>, b: array<int>, ROW: nat, COL: nat)
    requires M == N == 64 && a.Length == b.Length == 65536 && a != b
    requires ROW + 8 <= N && COL + 8 <= M
    modifies b
    ensures Copied(a[..], b[..], M, N, ROW + 1, ROW + 8, COL + 4, COL + 8)
    ensures KeptOutside(old(b[..]), b[..], N, ROW + 1, ROW + 8, COL + 4, COL + 8)
  {
    hide At;
    var i := 7;
    while i > 0
      invariant 0 <= i <= 7
      invariant Copied(a[..], b[..], M, N, ROW + i + 1, ROW + 8, COL + 4, COL + 8)
      invariant KeptOutside(old(b[..]), b[..], N, ROW + 1, ROW + 8, COL + 4, COL + 8)
    {
      PutFour(M, N, a, b, ROW + i, COL + 4);
      i := i - 1;
    }
  }

  method Blocking64(M: nat, N: nat, a: array<int>, b: array<int>, ROW: nat, COL: nat)
    requires M == N == 64 && a.Length == b.Length == 65536 && a != b
    requires ROW + 8 <= N && COL + 8 <= M
    modifies b
    ensures TileDone(a[..], old(b[..]), b[..], M, N, ROW, COL)
  {
    hide At;
    var r0 := a[At(ROW, COL + 4, M)];
    var r1 := a[At(ROW, COL + 5, M)];
    var r2 := a[At(ROW, COL + 6, M)];
    var r3 := a[At(ROW, COL + 7, M)];
    LeftHalf(M, N, a, b, ROW, COL);
    RightHalf(M, N, a, b, ROW, COL);
    PutSaved(M, N, a, b, ROW, COL + 4, r0, r1, r2, r3);
  }

  /** The four values saved from the topmost row */
  method PutSaved(M: nat, N: nat, a: array<int>, b: array<int>, row: nat, col: nat, r0: int, r1: int, r2: int, r3: int)
    requires M == N == 64 && a.Length == b.Length == 65536 && a != b
    requires row < N && col + 4 <= M
    requires r0 == a[At(row, col, M)] && r1 == a[At(row, col + 1, M)]
    requires r2 == a[At(row, col + 2, M)] && r3 == a[At(row, col + 3, M)]
    modifies b
    ensures Copied(a[..], b[..], M, N, row, row + 1, col, col + 4)
    ensures KeptOutside(old(b[..]), b[..], N, row, row + 1, col, col + 4)
  {
    hide At;
    Put(b, N, col, row, r0);
    Put(b, N, col + 1, row, r1);
    Put(b, N, col + 2, row, r2);
    Put(b, N, col + 3, row, r3);
  }

  /** The word at offset k is a diagonal cell that the last tile has written below the result. */
  predicate StrayWord(a: seq<int>, b: seq<int>, M: nat, N: nat, k: nat)
    requires |a| == |b| == 65536 && Shape(M, N)
  {
    exists j: Index :: k == At(j, j, N) && Stray(a, b, M, N, j, j)
  }

  lemma WordKeptBelow(a: seq<int>, b: seq<int>, b': seq<int>, M: nat, N: nat, k: nat)
    requires |a| == |b| == |b'| == 65536 && Shape(M, N) && KeptBelow(a, b, b', M, N)
    requires M * N <= k < 65536
    ensures b'[k] == b[k] || StrayWord(a, b', M, N, k)
  {
    hide At;
    if k < 256 * N {
      var i, j := OffsetIsCell(k, 256, N);
      if j < M { CellInRegion(j, i, M, N); }
      assert b'[At(j, i, N)] == b[At(j, i, N)] || Stray(a, b', M, N, i, j);
    } else {
      assert b[256 * N..][k - 256 * N] == b'[256 * N..][k - 256 * N];
    }
  }

  /** `transpose_submit`: for every shape the tiles cover the whole result, which is the
      transpose; no word behind it changes but diagonal cells of the last tile. */
  method TransposeSubmit(M: nat, N: nat, a: array<int>, b: array<int>)
    requires Shape(M, N) && a.Length == b.Length == 65536 && a != b
    modifies b
    ensures IsTranspose(a[..], b[..], M, N)
    ensures forall k :: M * N <= k < 65536 ==> b[k] == old(b[k]) || StrayWord(a[..], b[..], M, N, k)
  {
    hide At;
    var row := 0;
    while row < N
      invariant 0 <= row && (M == N == 64 ==> row % 8 == 0)
      invariant Copied(a[..], b[..], M, N, 0, row, 0, M)
      invariant KeptBelow(a[..], old(b[..]), b[..], M, N)
    {
      var col := 0;
      while col < M
        invariant 0 <= col && (M == N == 64 ==> col % 8 == 0)
        invariant Copied(a[..], b[..], M, N, 0, row, 0, M)
        invariant Copied(a[..], b[..], M, N, row, row + 8, 0, col)
        invariant KeptBelow(a[..], old(b[..]), b[..], M, N)
      {
        if M == 64 && N == 64 {
          Blocking64(M, N, a, b, row, col);
        } else {
          Blocking(M, N, a, b, row, col);
        }
        col := col + 8;
      }
      row := row + 8;
    }
    forall k | M * N <= k < 65536
      ensures b[k] == old(b[k]) || StrayWord(a[..], b[..], M, N, k)
    {
      WordKeptBelow(a[..], old(b[..]), b[..], M, N, k);
    }
  }

  /** A cell of row M or below lies behind the result: the diagonal cells that the tile with
      ROW == COL writes there cannot spoil it. */
  lemma BelowIsBehind(i: Index, j: Index, M: nat, N: nat)
    requires Shape(M, N) && i < N && M <= j
    ensures At(j, i, N) >= M * N
  {
  }

  lemma CellsAgree(a: seq<int>, b: seq<int>, b': seq<int>, M: nat, N: nat, k: nat)
    requires |a| == |b| == |b'| == 65536 && Shape(M, N) && k < M * N
    requires IsTranspose(a, b, M, N) && IsTranspose(a, b', M, N)
    ensures k < 65536 && b[k] == b'[k]
  {
    hide At;
    var i, j := OffsetIsCell(k, M, N);
    assert b[At(j, i, N)] == a[At(i, j, M)];
  }

  /** What it means for the words of the buffers: word j * N + i of B is word i * M + j of A. */
  lemma TransposeByWords(a: seq<int>, b: seq<int>, M: nat, N: nat, i: nat, j: nat)
    requires |a| == |b| == 65536 && Shape(M, N) && IsTranspose(a, b, M, N) && i < N && j < M
    ensures 0 <= j * N + i < 65536 && 0 <= i * M + j < 65536
    ensures b[j * N + i] == a[i * M + j]
  {
    assert At(j, i, N) == j * N + i && At(i, j, M) == i * M + j;
  }

  /** Two buffers that hold the transpose agree in the whole region of the result, so what
      `transpose_submit` writes is what `trans` writes. */
  lemma TransposesAgree(a: seq<int>, b: seq<int>, b': seq<int>, M: nat, N: nat)
    requires |a| == |b| == |b'| == 65536 && Shape(M, N)
    requires IsTranspose(a, b, M, N) && IsTranspose(a, b', M, N)
    ensures M * N <= 65536 && b[..M * N] == b'[..M * N]
  {
    hide IsTranspose;
    RegionFits(M, N);
    forall k | 0 <= k < M * N
      ensures b[k] == b'[k]
    {
      CellsAgree(a, b, b', M, N, k);
    }
  }
}
