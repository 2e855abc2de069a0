/** When the client of the proxy gets exactly the bytes of the origin. */
module RelayExactness {
  import opened RobustIo
  import opened ProxyRelay

  /** What one line can hold. */
  const ROOM := MAXLINE - 1

  /** Every line ends, and within MAXLINE - 1 bytes. */
  ghost predicate ShortLines(s: Bytes) {
    && (s == [] || s[|s| - 1] == NEWLINE)
    && (forall i | 0 <= i <= |s| - (MAXLINE - 1) :: NewlineFrom(s, i))
  }

  /** A newline among the MAXLINE - 1 bytes from i. */
  ghost predicate NewlineFrom(s: Bytes, i: int)
    requires 0 <= i <= |s| - (MAXLINE - 1)
  {
    exists j :: i <= j < i + MAXLINE - 1 && s[j] == NEWLINE
  }

  /** The length of s up to its last newline. */
  function LastNewline(s: Bytes): (p: nat)
    ensures p <= |s| && (p > 0 ==> s[p - 1] == NEWLINE)
    ensures forall i | p <= i < |s| :: s[i] != NEWLINE
  {
    if s == [] || s[|s| - 1] == NEWLINE then |s| else LastNewline(s[..|s| - 1])
  }

  /** No newline among the first n bytes. */
  predicate Open(s: Bytes, n: int) {
    forall i | 0 <= i < n && i < |s| :: s[i] != NEWLINE
  }

  predicate Zeros(s: Bytes) {
    forall i | 0 <= i < |s| :: s[i] == 0
  }

  /** n bytes are j pieces with their NULs, after m NULs, and fewer than ROOM in all. */
  predicate NulPieces(n: int, m: int, j: int) {
    j >= 0 && n == m + MAXLINE * j && 1 <= m + j < ROOM
  }

  ghost predicate Fits(n: int, m: int) {
    exists j :: NulPieces(n, m, j)
  }

  /** The one way an unterminated rest can be relayed unchanged: the stream breaks, the
      rest is one full piece and then zeros, and the zeros lost with the last piece are
      as many as the NULs added to the pieces before it. */
  ghost predicate Padded(t: Bytes, broken: bool) {
    broken && |t| >= MAXLINE && Zeros(t[ROOM..]) && Fits(|t|, 0)
  }

  /** The forwarded bytes are the origin's bytes exactly when every line up to the last
      newline is short enough and nothing follows it, or what follows is padded. */
  lemma {:induction false} RelayIsExact(s: Bytes, broken: bool)
    ensures var p := LastNewline(s);
            Relayed(s, broken) == s <==> ShortLines(s[..p]) && (p == |s| || Padded(s[p..], broken))
    decreases |s|
  {
    if s != [] {
      CutLine(s);
      hide LastNewline, ShortLines, LineLength, Padded, Relayed, Terminated;
      var k := LineLength(s, ROOM);
      if Terminated(s[..k]) {
        RelayIsExact(s[k..], broken);
        TerminatedStep(s, k, broken);
        ShortLine(s, k);
      } else {
        OpenLine(s, k, broken);
      }
    }
  }

  lemma TerminatedStep(s: Bytes, k: nat, broken: bool)
    requires s != [] && k == LineLength(s, ROOM) && Terminated(s[..k])
    ensures Relayed(s, broken) == s <==> Relayed(s[k..], broken) == s[k..]
  {
    CutLine(s);
    RelayedStep(s, broken);
    hide LineLength, Relayed;
    assert k == |s| ==> s[..k] == s;
    SameAfter(s[..k], Relayed(s[k..], broken), s[k..]);
  }

  /** A reply whose lines are all terminated and short is relayed unchanged, whether
      the stream ends or breaks; and if it ends, only such a reply is. */
  lemma ShortLinesAreExact(s: Bytes, broken: bool)
    ensures ShortLines(s) ==> Relayed(s, broken) == s
    ensures !broken ==> (Relayed(s, broken) == s <==> ShortLines(s))
  {
    RelayIsExact(s, broken);
    var p := LastNewline(s);
    assert p == |s| ==> s[..p] == s;
  }

  /** A single terminated line is relayed unchanged exactly if it has at most 8191 bytes. */
  lemma OneLineIsExact(s: Bytes, broken: bool)
    requires s != [] && s[|s| - 1] == 10 && forall i | 0 <= i < |s| - 1 :: s[i] != 10
    ensures Relayed(s, broken) == s <==> |s| <= 8191
  {
    RelayIsExact(s, broken);
    hide Relayed;
    assert LastNewline(s) == |s| && s[..|s|] == s;
    if |s| <= 8191 {
      forall i | 0 <= i <= |s| - (MAXLINE - 1) ensures NewlineFrom(s, i) {
        assert s[|s| - 1] == NEWLINE;
      }
    }
    assert |s| > 8191 ==> !NewlineFrom(s, 0);
  }

  /** One byte without a newline: a NUL is added, or the byte is lost. */
  lemma OneByte()
    ensures Relayed([65], false) == [65, 0] && Relayed([65], true) == []
  {
    RelayedStep([65], false);
    RelayedStep([65], true);
    assert LineLength([65], ROOM) == 1;
    assert [65][..1] == [65] && [65][1..] == [];
  }

  // ---- one line ----

  lemma RelayedStep(s: Bytes, broken: bool)
    requires s != []
    ensures var k := LineLength(s, ROOM);
            Relayed(s, broken)
            == if k == |s| && k < ROOM && !Terminated(s) && broken then []
               else Piece(s[..k]) + Relayed(s[k..], broken)
  {
  }

  lemma CutLine(s: Bytes)
    requires s != []
    ensures var k := LineLength(s, ROOM);
            && 0 < k <= |s| && k <= ROOM && s == s[..k] + s[k..]
            && (Terminated(s[..k]) <==> s[k - 1] == NEWLINE)
            && (if s[k - 1] == NEWLINE then Open(s, k - 1) else Open(s, k) && (k == ROOM || k == |s|))
  {
    hide LineLength, Terminated, Open;
    LineFacts(s, ROOM);
    CutAt(s, LineLength(s, ROOM));
  }

  lemma LineFacts(s: Bytes, room: nat)
    requires s != [] && room > 0
    ensures var k := LineLength(s, room);
            && 0 < k <= |s| && k <= room
            && (if s[k - 1] == NEWLINE then Open(s, k - 1) else Open(s, k) && (k == room || k == |s|))
  {
  }

  lemma CutAt(s: Bytes, k: nat)
    requires 0 < k <= |s|
    ensures s == s[..k] + s[k..] && (Terminated(s[..k]) <==> s[k - 1] == NEWLINE)
  {
  }

  /** A terminated line in front changes nothing in what is asked of the rest. */
  lemma ShortLine(s: Bytes, k: nat)
    requires s != [] && k == LineLength(s, ROOM) && Terminated(s[..k])
    ensures var p, q := LastNewline(s), LastNewline(s[k..]);
            && p == k + q && s[p..] == s[k..][q..]
            && (ShortLines(s[..p]) <==> ShortLines(s[k..][..q]))
  {
    hide LastNewline, ShortLines, LineLength;
    var p, q := LastNewline(s), LastNewline(s[k..]);
    CutLine(s);
    LastOfRest(s, k);
    Slices(s, k, q);
    var t := s[..p];
    SameLine(s, t, k);
    FirstLine(t, k);
  }

  lemma Slices(s: Bytes, k: nat, q: nat)
    requires k + q <= |s|
    ensures s[k + q..] == s[k..][q..]
    ensures s[..k + q][k..] == s[k..][..q] && s[..k + q][..k] == s[..k]
  {
  }

  lemma LastOfRest(s: Bytes, k: nat)
    requires 0 < k <= |s| && s[k - 1] == NEWLINE
    ensures LastNewline(s) == k + LastNewline(s[k..])
  {
    hide LastNewline;
    var x := s[k..];
    var q := LastNewline(x);
    forall i | k + q <= i < |s| ensures s[i] != NEWLINE {
      assert s[i] == x[i - k];
    }
    LastIs(s, k + q);
  }

  lemma {:induction false} LastIs(s: Bytes, p: nat)
    requires 0 < p <= |s| && s[p - 1] == NEWLINE
    requires forall i | p <= i < |s| :: s[i] != NEWLINE
    ensures LastNewline(s) == p
  {
    if p < |s| {
      LastIs(s[..|s| - 1], p);
    }
  }

  /** The first line of s is also that of its beginning t. */
  lemma SameLine(s: Bytes, t: Bytes, k: nat)
    requires s != [] && k == LineLength(s, ROOM) && Terminated(s[..k])
    requires k <= |t| <= |s| && t == s[..|t|]
    ensures t != [] && LineLength(t, ROOM) == k
  {
    CutLine(s);
    assert forall i | 0 <= i < k :: t[i] == s[i];
    LineEnds(t, ROOM, k);
  }

  lemma FirstLine(s: Bytes, k: nat)
    requires s != [] && k == LineLength(s, ROOM)
    ensures k > 0
    ensures ShortLines(s) <==> Terminated(s[..k]) && ShortLines(s[k..])
  {
    hide LineLength;
    var rest := s[k..];
    if ShortLines(s) {
      if k == ROOM {
        assert NewlineFrom(s, 0);
      }
      forall i | 0 <= i <= |rest| - (ROOM) ensures NewlineFrom(rest, i) {
        assert NewlineFrom(s, i + k);
        var j :| i + k <= j < i + k + ROOM && s[j] == NEWLINE;
        assert rest[j - k] == NEWLINE;
      }
    }
    if Terminated(s[..k]) && ShortLines(rest) {
      assert s[k - 1] == NEWLINE;
      assert rest != [] ==> s[|s| - 1] == rest[|rest| - 1];
      forall i | 0 <= i <= |s| - (ROOM) ensures NewlineFrom(s, i) {
        if i >= k {
          assert NewlineFrom(rest, i - k);
          var j :| i - k <= j < i - k + ROOM && rest[j] == NEWLINE;
          assert s[j + k] == NEWLINE;
        }
      }
    }
  }

  // ---- an unterminated line ----

  /** Without a newline in the first piece, s is exact only if it is padded. */
  lemma OpenLine(s: Bytes, k: nat, broken: bool)
    requires s != [] && k == LineLength(s, ROOM) && !Terminated(s[..k])
    ensures var p := LastNewline(s);
            Relayed(s, broken) == s <==> ShortLines(s[..p]) && (p == |s| || Padded(s[p..], broken))
  {
    CutLine(s);
    RelayedStep(s, broken);
    hide LastNewline, ShortLines, LineLength, Relayed, Padded, Terminated;
    var p := LastNewline(s);
    if k == ROOM {
      FullPiece(s, broken);
    } else {
      assert s[..k] == s && s[k..] == [];
      ShortRest(s, broken);
    }
    OpenRest(s, k, p, broken);
  }

  /** The rest behind the last newline, when the first newline comes too late. */
  lemma OpenRest(s: Bytes, k: nat, p: nat, broken: bool)
    requires s != [] && 0 < k <= |s| && Open(s, k) && (k == ROOM || k == |s|) && k <= ROOM
    requires p == LastNewline(s)
    ensures ShortLines(s[..p]) && (p == |s| || Padded(s[p..], broken)) <==> k == ROOM && Padded(s, broken)
  {
    hide LastNewline, ShortLines, Padded;
    if p == 0 {
      assert s[..p] == [] && s[p..] == s;
      NothingShort();
      if k != ROOM { ShortNotPadded(s, broken); }
    } else {
      LongFirstLine(s, p);
      NewlineNotPadded(s, p, broken);
    }
  }

  lemma NothingShort()
    ensures ShortLines([])
  {
  }

  lemma ShortNotPadded(s: Bytes, broken: bool)
    requires |s| < MAXLINE
    ensures !Padded(s, broken)
  {
  }

  lemma NewlineNotPadded(s: Bytes, p: nat, broken: bool)
    requires ROOM < p <= |s| && s[p - 1] == NEWLINE
    ensures !Padded(s, broken)
  {
    assert s[ROOM..][p - 1 - ROOM] == NEWLINE;
  }

  lemma FullPiece(s: Bytes, broken: bool)
    requires |s| >= ROOM && Relayed(s, broken) == Piece(s[..ROOM]) + Relayed(s[ROOM..], broken)
    requires !Terminated(s[..ROOM])
    ensures Relayed(s, broken) == s <==> Padded(s, broken)
  {
    hide Relayed, Padded, Zs;
    var u, x := s[..ROOM], s[ROOM..];
    var r := Relayed(x, broken);
    assert Zs(1) == [0];
    assert Piece(u) + r == u + (Zs(1) + r);
    assert s == u + x;
    SameAfter(u, Zs(1) + r, x);
    Delayed(x, 1, broken);
    PaddedAfter(s, x, broken);
  }

  lemma ShortRest(s: Bytes, broken: bool)
    requires s != [] && Relayed(s, broken) == if broken then [] else Piece(s) + Relayed([], broken)
    requires !Terminated(s)
    ensures Relayed(s, broken) != s
  {
    if !broken {
      assert |Relayed(s, broken)| >= |s| + 1;
    }
  }

  lemma LongFirstLine(s: Bytes, p: nat)
    requires ROOM <= p <= |s| && Open(s, ROOM)
    ensures !ShortLines(s[..p])
  {
    var t := s[..p];
    assert forall j | 0 <= j < ROOM :: t[j] == s[j];
    assert !NewlineFrom(t, 0);
  }

  lemma PaddedAfter(s: Bytes, x: Bytes, broken: bool)
    requires |s| >= ROOM && x == s[ROOM..]
    ensures Padded(s, broken) <==> broken && Zeros(x) && Fits(|x|, 1)
  {
    if j :| NulPieces(|s|, 0, j) {
      assert NulPieces(|x|, 1, j - 1);
    }
    if j :| NulPieces(|x|, 1, j) {
      assert NulPieces(|s|, 0, j + 1);
    }
  }

  /** m zeros. */
  function Zs(m: nat): (z: Bytes)
    ensures |z| == m && Zeros(z)
  {
    seq(m, _ => 0)
  }

  /** x is relayed to itself but for m NULs in front: x is zeros, of the right length. */
  lemma {:induction false} Delayed(x: Bytes, m: nat, broken: bool)
    requires m >= 1
    ensures Zs(m) + Relayed(x, broken) == x <==> broken && Zeros(x) && Fits(|x|, m)
    decreases |x|
  {
    if x == [] {
      assert !Fits(0, m);
    } else {
      var k := LineLength(x, ROOM);
      CutLine(x);
      RelayedStep(x, broken);
      hide LineLength, Relayed, Zs, Fits;
      assert k == |x| ==> x[..k] == x;
      var u, y := x[..k], x[k..];
      if Terminated(u) {
        NotDelayed(u, m, Relayed(y, broken), y);
        assert x[k - 1] == NEWLINE;
      } else if k == ROOM {
        Delayed(y, m + 1, broken);
        DelayedFull(x, u, y, m, broken);
      } else {
        LastPiece(x, m, broken);
      }
    }
  }

  lemma DelayedFull(x: Bytes, u: Bytes, y: Bytes, m: nat, broken: bool)
    requires m >= 1 && x == u + y && |u| == ROOM && !Terminated(u)
    requires Relayed(x, broken) == Piece(u) + Relayed(y, broken)
    requires Zs(m + 1) + Relayed(y, broken) == y <==> broken && Zeros(y) && Fits(|y|, m + 1)
    ensures Zs(m) + Relayed(x, broken) == x <==> broken && Zeros(x) && Fits(|x|, m)
  {
    hide Relayed, Zs, Fits, Terminated, Piece, Zeros;
    DelayedPiece(u, m, Relayed(y, broken), y);
    ZerosJoin(u, y);
    PieceMore(|x|, m);
  }

  /** A newline cannot come m bytes late. */
  lemma NotDelayed(u: Bytes, m: nat, r: Bytes, y: Bytes)
    requires m >= 1 && Terminated(u) && Open(u, |u| - 1)
    ensures Zs(m) + (Piece(u) + r) != u + y
  {
    var k := |u| - 1;
    var left := Zs(m) + (Piece(u) + r);
    assert (u + y)[k] == NEWLINE;
    if k >= m {
      assert left[k] == u[k - m];
    } else {
      assert left[k] == Zs(m)[k];
    }
  }

  lemma DelayedPiece(u: Bytes, m: nat, r: Bytes, y: Bytes)
    requires m >= 1 && !Terminated(u)
    ensures Zs(m) + (Piece(u) + r) == u + y <==> Zeros(u) && Zs(m + 1) + r == y
  {
    var left := Zs(m) + (Piece(u) + r);
    if left == u + y {
      forall i | 0 <= i < |u| ensures Repeats(u, m, i) {
        assert (u + y)[i] == u[i] == left[i];
      }
      AllZero(u, m, |u|);
    }
    if Zeros(u) {
      ZerosMove(u, m, r);
      SameAfter(u, Zs(m + 1) + r, y);
    }
  }

  lemma ZerosMove(u: Bytes, m: nat, r: Bytes)
    requires Zeros(u)
    ensures Zs(m) + ((u + [0]) + r) == u + (Zs(m + 1) + r)
  {
    var a, b := Zs(m) + (u + [0]), u + Zs(m + 1);
    assert a == b;
    assert Zs(m) + ((u + [0]) + r) == a + r;
    assert u + (Zs(m + 1) + r) == b + r;
  }

  /** u[i] is the byte m places before, or zero. */
  predicate Repeats(u: Bytes, m: nat, i: nat)
    requires i < |u|
  {
    u[i] == if i < m then 0 else u[i - m]
  }

  lemma {:induction false} AllZero(u: Bytes, m: nat, n: nat)
    requires m >= 1 && n <= |u|
    requires forall i | 0 <= i < |u| :: Repeats(u, m, i)
    ensures forall i | 0 <= i < n :: u[i] == 0
  {
    if n > 0 {
      AllZero(u, m, n - 1);
      assert Repeats(u, m, n - 1);
    }
  }

  lemma ZerosJoin(u: Bytes, y: Bytes)
    ensures Zeros(u + y) <==> Zeros(u) && Zeros(y)
  {
    assert forall i | 0 <= i < |y| :: y[i] == (u + y)[|u| + i];
    assert forall i | 0 <= i < |u| :: u[i] == (u + y)[i];
  }

  lemma PieceMore(n: int, m: nat)
    requires n >= ROOM
    ensures Fits(n, m) <==> Fits(n - ROOM, m + 1)
  {
    if j :| NulPieces(n, m, j) {
      assert NulPieces(n - ROOM, m + 1, j - 1);
    }
    var n', m' := n - ROOM, m + 1;
    if j :| NulPieces(n', m', j) {
      assert NulPieces(n, m, j + 1);
    }
  }

  lemma LastPiece(x: Bytes, m: nat, broken: bool)
    requires m >= 1 && x != [] && |x| < ROOM && LineLength(x, ROOM) == |x| && !Terminated(x)
    ensures Zs(m) + Relayed(x, broken) == x <==> broken && Zeros(x) && Fits(|x|, m)
  {
    RelayedStep(x, broken);
    assert x[..|x|] == x;
    hide Relayed, LineLength, Terminated, Fits;
    if broken {
      FitsShort(|x|, m);
      SameZeros(x, m);
      assert Zs(m) + [] == Zs(m);
    } else {
      assert |Relayed(x, broken)| >= |x| + 1;
    }
  }

  lemma FitsShort(n: nat, m: nat)
    requires 0 < n < ROOM
    ensures Fits(n, m) <==> n == m
  {
    if n == m {
      assert NulPieces(n, m, 0);
    }
  }

  lemma SameZeros(x: Bytes, m: nat)
    ensures Zs(m) == x <==> Zeros(x) && |x| == m
  {
    if Zeros(x) && |x| == m {
      assert Zs(m) == x;
    }
  }
}
