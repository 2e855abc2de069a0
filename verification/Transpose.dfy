/** Matrix transpose written for a small cache: the plain row scan, the blocked loops
    that delay a diagonal element, and the 8x8 blocks of the 64x64 case. */
module Transpose {

  const STEP: int := 8
  const HALF_STEP: int := 4
  const TWO_STEP: int := 16

  type Matrix = array2<int>

  /** A has N rows and M columns, B has M rows and N columns, and they are distinct. */
  predicate Shaped(A: Matrix, B: Matrix) {
    A != B && A.Length0 == B.Length1 && A.Length1 == B.Length0
  }

  /** B holds the transpose of A. */
  ghost predicate Transposed(A: Matrix, B: Matrix)
    requires Shaped(A, B)
    reads A, B
  {
    forall i, j | 0 <= i < A.Length0 && 0 <= j < A.Length1 :: B[j, i] == A[i, j]
  }

  /** The plain row scan. */
  method Trans(A: Matrix, B: Matrix)
    requires Shaped(A, B)
    modifies B
    ensures Transposed(A, B)
  {
    for i := 0 to A.Length0
      invariant forall r, c | 0 <= r < i && 0 <= c < A.Length1 :: B[c, r] == A[r, c]
    {
      for j := 0 to A.Length1
        invariant forall r, c | 0 <= r < A.Length0 && 0 <= c < A.Length1 && (r < i || (r == i && c < j)) ::
          B[c, r] == A[r, c]
      {
        var tmp := A[i, j];
        B[j, i] := tmp;
      }
    }
  }

  /** Whether B is the transpose of A. */
  method IsTranspose(A: Matrix, B: Matrix) returns (yes: bool)
    requires Shaped(A, B)
    ensures yes <==> Transposed(A, B)
  {
    for i := 0 to A.Length0
      invariant forall r, c | 0 <= r < i && 0 <= c < A.Length1 :: B[c, r] == A[r, c]
    {
      for j := 0 to A.Length1
        invariant forall c | 0 <= c < j :: B[c, i] == A[i, c]
      {
        if A[i, j] != B[j, i] {
          return false;
        }
      }
    }
    return true;
  }

  // ---- blocked loops with a delayed diagonal ----

  /** B is the transpose of A on rows [i0, i1) and columns [j0, j1) of A. */
  ghost predicate Done(A: Matrix, B: Matrix, i0: int, i1: int, j0: int, j1: int)
    requires Shaped(A, B)
    reads A, B
  {
    forall i, j | 0 <= i < A.Length0 && 0 <= j < A.Length1 && i0 <= i < i1 && j0 <= j < j1 ::
      B[j, i] == A[i, j]
  }

  /** Everything of B outside that block is as it was. */
  twostate predicate Kept(A: Matrix, B: Matrix, i0: int, i1: int, j0: int, j1: int)
    requires Shaped(A, B)
    reads B
  {
    forall i, j | 0 <= i < A.Length0 && 0 <= j < A.Length1 && !(i0 <= i < i1 && j0 <= j < j1) ::
      B[j, i] == old(B[j, i])
  }

  /** One block, with its element on the main diagonal of A, if any, written after the
      rest of its row. */
  method TransposeBlock(A: Matrix, B: Matrix, ib: int, jb: int, step: int)
    requires Shaped(A, B) && 0 <= ib < A.Length0 && 0 <= jb < A.Length1 && step > 0
    modifies B
    ensures Done(A, B, ib, ib + step, jb, jb + step)
    ensures Kept(A, B, ib, ib + step, jb, jb + step)
  {
    var i := ib;
    var tmpVal, isDiagonal := 0, false;
    while i < ib + step && i < A.Length0
      invariant ib <= i <= ib + step && i <= A.Length0 && !isDiagonal
      invariant Done(A, B, ib, i, jb, jb + step)
      invariant Kept(A, B, ib, i, jb, jb + step)
    {
      var j := jb;
      while j < jb + step && j < A.Length1
        invariant jb <= j <= jb + step && j <= A.Length1
        invariant isDiagonal <==> jb <= i < j
        invariant isDiagonal ==> tmpVal == A[i, i]
        invariant Done(A, B, ib, i, jb, jb + step)
        invariant Kept(A, B, ib, i + 1, jb, jb + step)
        invariant forall c | jb <= c < j && c != i :: B[c, i] == A[i, c]
      {
        if i == j {
          tmpVal := A[i, j];
          isDiagonal := true;
        } else {
          B[j, i] := A[i, j];
        }
        j := j + 1;
      }
      if isDiagonal {
        B[i, i] := tmpVal;
        isDiagonal := false;
      }
      i := i + 1;
    }
  }

  /** The same for a block that lies inside the matrix, where no row or column needs
      to be cut short. */
  method TransposeFullBlock(A: Matrix, B: Matrix, ib: int, jb: int)
    requires Shaped(A, B) && 0 <= ib <= A.Length0 - STEP && 0 <= jb <= A.Length1 - STEP
    modifies B
    ensures Done(A, B, ib, ib + STEP, jb, jb + STEP)
    ensures Kept(A, B, ib, ib + STEP, jb, jb + STEP)
  {
    var tmpVal, isDiagonal := 0, false;
    for i := ib to ib + STEP
      invariant !isDiagonal
      invariant Done(A, B, ib, i, jb, jb + STEP)
      invariant Kept(A, B, ib, i, jb, jb + STEP)
    {
      for j := jb to jb + STEP
        invariant isDiagonal <==> jb <= i < j
        invariant isDiagonal ==> tmpVal == A[i, i]
        invariant Done(A, B, ib, i, jb, jb + STEP)
        invariant Kept(A, B, ib, i + 1, jb, jb + STEP)
        invariant forall c | jb <= c < j && c != i :: B[c, i] == A[i, c]
      {
        if i == j {
          tmpVal := A[i, j];
          isDiagonal := true;
        } else {
          B[j, i] := A[i, j];
        }
      }
      if isDiagonal {
        B[i, i] := tmpVal;
        isDiagonal := false;
      }
    }
  }

  /** The 8x8 blocks of the 32x32 case, for every matrix whose sides are multiples
      of 8. */
  method Transpose32(A: Matrix, B: Matrix)
    requires Shaped(A, B) && A.Length0 % STEP == 0 && A.Length1 % STEP == 0
    modifies B
    ensures Transposed(A, B)
  {
    var ib := 0;
    while ib < A.Length0
      invariant 0 <= ib <= A.Length0 && ib % STEP == 0
      invariant Done(A, B, 0, ib, 0, A.Length1)
    {
      var jb := 0;
      while jb < A.Length1
        invariant 0 <= jb <= A.Length1 && jb % STEP == 0
        invariant Done(A, B, 0, ib, 0, A.Length1)
        invariant Done(A, B, ib, ib + STEP, 0, jb)
      {
        TransposeFullBlock(A, B, ib, jb);
        jb := jb + STEP;
      }
      ib := ib + STEP;
    }
  }

  /** The 16x16 blocks of the 61x67 case, for every matrix. */
  method Transpose61By67(A: Matrix, B: Matrix)
    requires Shaped(A, B)
    modifies B
    ensures Transposed(A, B)
  {
    var ib := 0;
    while ib < A.Length0
      invariant 0 <= ib
      invariant Done(A, B, 0, ib, 0, A.Length1)
    {
      var jb := 0;
      while jb < A.Length1
        invariant 0 <= jb
        invariant Done(A, B, 0, ib, 0, A.Length1)
        invariant Done(A, B, ib, ib + TWO_STEP, 0, jb)
      {
        TransposeBlock(A, B, ib, jb, TWO_STEP);
        jb := jb + TWO_STEP;
      }
      ib := ib + TWO_STEP;
    }
  }

  // ---- the 64x64 case ----

  /** One 4x4 quadrant of an 8x8 block. */
  method TransposeQuadrant(A: Matrix, B: Matrix, i0: int, j0: int)
    requires Shaped(A, B) && 0 <= i0 <= A.Length0 - HALF_STEP && 0 <= j0 <= A.Length1 - HALF_STEP
    modifies B
    ensures Done(A, B, i0, i0 + HALF_STEP, j0, j0 + HALF_STEP)
    ensures Kept(A, B, i0, i0 + HALF_STEP, j0, j0 + HALF_STEP)
  {
    for i := i0 to i0 + HALF_STEP
      invariant Done(A, B, i0, i, j0, j0 + HALF_STEP)
      invariant Kept(A, B, i0, i, j0, j0 + HALF_STEP)
    {
      for j := j0 to j0 + HALF_STEP
        invariant Done(A, B, i0, i, j0, j0 + HALF_STEP)
        invariant Done(A, B, i, i + 1, j0, j)
        invariant Kept(A, B, i0, i + 1, j0, j0 + HALF_STEP)
      {
        B[j, i] := A[i, j];
      }
    }
  }

  /** An 8x8 block off the main diagonal: quadrants Z1, Z2, Z4, Z3. */
  method TransposeZ(A: Matrix, B: Matrix, ib: int, jb: int)
    requires Shaped(A, B) && 0 <= ib <= A.Length0 - STEP && 0 <= jb <= A.Length1 - STEP
    modifies B
    ensures Done(A, B, ib, ib + STEP, jb, jb + STEP)
    ensures Kept(A, B, ib, ib + STEP, jb, jb + STEP)
  {
    TransposeQuadrant(A, B, ib, jb);
    TransposeQuadrant(A, B, ib, jb + HALF_STEP);
    TransposeQuadrant(A, B, ib + HALF_STEP, jb + HALF_STEP);
    TransposeQuadrant(A, B, ib + HALF_STEP, jb);
  }

  /** Four neighbouring elements of one row of B. */
  method PutRow(B: Matrix, r: int, c: int, v1: int, v2: int, v3: int, v4: int)
    requires 0 <= r < B.Length0 && 0 <= c <= B.Length1 - HALF_STEP
    modifies B
    ensures B[r, c] == v1 && B[r, c + 1] == v2 && B[r, c + 2] == v3 && B[r, c + 3] == v4
    ensures forall i, j | 0 <= i < B.Length0 && 0 <= j < B.Length1 && !(i == r && c <= j < c + HALF_STEP) ::
              B[i, j] == old(B[i, j])
  {
    B[r, c] := v1;
    B[r, c + 1] := v2;
    B[r, c + 2] := v3;
    B[r, c + 3] := v4;
  }

  /** The hand-ordered upper quadrants of a diagonal block: Z1 with c == 0 and Z2 with
      c == 4. Rows of B are written from values read ahead; that the row of B at ib is
      the column of A at jb is where the block must lie on the diagonal. */
  method DiagonalUpper(A: Matrix, B: Matrix, ib: int, jb: int, c: int)
    requires Shaped(A, B) && ib == jb && 0 <= c <= HALF_STEP
    requires 0 <= ib <= A.Length0 - STEP && 0 <= jb <= A.Length1 - STEP
    modifies B
    ensures Done(A, B, ib, ib + HALF_STEP, jb + c, jb + c + HALF_STEP)
    ensures Kept(A, B, ib, ib + HALF_STEP, jb + c, jb + c + HALF_STEP)
  {
    var tmp1 := A[ib, jb + c];
    var tmp2 := A[ib, jb + c + 1];
    var tmp3 := A[ib, jb + c + 2];
    var tmp4 := A[ib, jb + c + 3];
    var tmp5 := A[ib + 1, jb + c];
    var tmp6 := A[ib + 2, jb + c];
    var tmp7 := A[ib + 3, jb + c];
    PutRow(B, ib + c, jb, tmp1, tmp5, tmp6, tmp7);
    tmp1 := A[ib + 1, jb + c + 1];
    tmp5 := A[ib + 1, jb + c + 2];
    tmp6 := A[ib + 1, jb + c + 3];
    tmp7 := A[ib + 2, jb + c + 1];
    var tmp8 := A[ib + 3, jb + c + 1];
    PutRow(B, ib + c + 1, jb, tmp2, tmp1, tmp7, tmp8);
    tmp1 := A[ib + 2, jb + c + 2];
    tmp2 := A[ib + 2, jb + c + 3];
    tmp7 := A[ib + 3, jb + c + 2];
    PutRow(B, ib + c + 2, jb, tmp3, tmp5, tmp1, tmp7);
    tmp1 := A[ib + 3, jb + c + 3];
    PutRow(B, ib + c + 3, jb, tmp4, tmp6, tmp2, tmp1);
  }

  /** Four neighbouring elements of row i of A, the one in column d written last. */
  method DelayedRow(A: Matrix, B: Matrix, i: int, j0: int, d: int)
    requires Shaped(A, B) && 0 <= i < A.Length0
    requires 0 <= j0 <= d < j0 + HALF_STEP <= A.Length1
    modifies B
    ensures Done(A, B, i, i + 1, j0, j0 + HALF_STEP)
    ensures Kept(A, B, i, i + 1, j0, j0 + HALF_STEP)
  {
    var tmpVal := 0;
    for j := j0 to j0 + HALF_STEP
      invariant d < j ==> tmpVal == A[i, d]
      invariant forall c | j0 <= c < j && c != d :: B[c, i] == A[i, c]
      invariant Kept(A, B, i, i + 1, j0, j0 + HALF_STEP)
    {
      if j == d {
        tmpVal := A[i, j];
      } else {
        B[j, i] := A[i, j];
      }
    }
    B[d, i] := tmpVal;
  }

  /** The lower quadrants: Z3 with c == 0 and Z4 with c == 4. Each row of A delays the
      element that would fall on the same cache line. */
  method DiagonalLower(A: Matrix, B: Matrix, ib: int, jb: int, c: int)
    requires Shaped(A, B) && ib == jb && 0 <= c <= HALF_STEP
    requires 0 <= ib <= A.Length0 - STEP && 0 <= jb <= A.Length1 - STEP
    modifies B
    ensures Done(A, B, ib + HALF_STEP, ib + STEP, jb + c, jb + c + HALF_STEP)
    ensures Kept(A, B, ib + HALF_STEP, ib + STEP, jb + c, jb + c + HALF_STEP)
  {
    DelayedRow(A, B, ib + 4, jb + c, jb + c);
    DelayedRow(A, B, ib + 5, jb + c, ib + c + 1);
    DelayedRow(A, B, ib + 6, jb + c, ib + c + 2);
    DelayedRow(A, B, ib + 7, jb + c, ib + c + 3);
  }

  /** A diagonal 8x8 block: Z1, Z3, Z2, Z4. */
  method TransposeDiagonal(A: Matrix, B: Matrix, ib: int, jb: int)
    requires Shaped(A, B) && ib == jb
    requires 0 <= ib <= A.Length0 - STEP && 0 <= jb <= A.Length1 - STEP
    modifies B
    ensures Done(A, B, ib, ib + STEP, jb, jb + STEP)
    ensures Kept(A, B, ib, ib + STEP, jb, jb + STEP)
  {
    DiagonalUpper(A, B, ib, jb, 0);
    DiagonalLower(A, B, ib, jb, 0);
    DiagonalUpper(A, B, ib, jb, HALF_STEP);
    DiagonalLower(A, B, ib, jb, HALF_STEP);
  }

  /** The 64x64 case, for every matrix whose sides are multiples of 8. */
  method Transpose64(A: Matrix, B: Matrix)
    requires Shaped(A, B) && A.Length0 % STEP == 0 && A.Length1 % STEP == 0
    modifies B
    ensures Transposed(A, B)
  {
    var ib := 0;
    while ib < A.Length0
      invariant 0 <= ib <= A.Length0 && ib % STEP == 0
      invariant Done(A, B, 0, ib, 0, A.Length1)
    {
      var jb := 0;
      while jb < A.Length1
        invariant 0 <= jb <= A.Length1 && jb % STEP == 0
        invariant Done(A, B, 0, ib, 0, A.Length1)
        invariant Done(A, B, ib, ib + STEP, 0, jb)
      {
        if ib == jb {
          TransposeDiagonal(A, B, ib, jb);
        } else {
          TransposeZ(A, B, ib, jb);
        }
        jb := jb + STEP;
      }
      ib := ib + STEP;
    }
  }

  method TransposeSubmit(A: Matrix, B: Matrix)
    requires Shaped(A, B)
    modifies B
    ensures Transposed(A, B)
  {
    var M, N := A.Length1, A.Length0;
    if M == 32 && N == 32 {
      Transpose32(A, B);
    } else if M == 64 && N == 64 {
      Transpose64(A, B);
    } else if M == 61 && N == 67 {
      Transpose61By67(A, B);
    } else {
      Trans(A, B);
    }
  }

  /** On every matrix the path taken by transpose_submit gives what the plain scan
      gives. */
  method SubmitAgreesWithTrans(A: Matrix, B: Matrix, C: Matrix)
    requires Shaped(A, B) && Shaped(A, C) && B != C
    modifies B, C
    ensures B.Length0 == C.Length0 && B.Length1 == C.Length1
    ensures forall i, j | 0 <= i < B.Length0 && 0 <= j < B.Length1 :: B[i, j] == C[i, j]
  {
    TransposeSubmit(A, B);
    Trans(A, C);
    assert forall i, j | 0 <= i < B.Length0 && 0 <= j < B.Length1 :: B[i, j] == A[j, i] == C[i, j];
  }

  /** Transposing is its own inverse. */
  lemma TransposedBack(A: Matrix, B: Matrix, C: Matrix)
    requires Shaped(A, B) && Transposed(A, B) && Shaped(B, C)
    ensures Transposed(B, C) <==>
            C.Length0 == A.Length0 && C.Length1 == A.Length1
            && forall i, j | 0 <= i < A.Length0 && 0 <= j < A.Length1 :: C[i, j] == A[i, j]
  {
    if Transposed(B, C) {
      forall i, j | 0 <= i < A.Length0 && 0 <= j < A.Length1 ensures C[i, j] == A[i, j] {
        assert C[i, j] == B[j, i];
      }
    }
    if forall i, j | 0 <= i < A.Length0 && 0 <= j < A.Length1 :: C[i, j] == A[i, j] {
      forall i, j | 0 <= i < B.Length0 && 0 <= j < B.Length1 ensures C[j, i] == B[i, j] {
        assert A[j, i] == C[j, i];
      }
    }
  }
}
