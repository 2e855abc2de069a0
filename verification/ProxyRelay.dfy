/** The miss path of do_proxy: relaying an origin's reply line by line while
    copying it for the cache, and what a later hit therefore sends. */
module ProxyRelay {
  import opened RobustIo
  import opened RecencyList
  import WebCache

  const MAXLINE := 8192

  /** What one call of rio_readlineb makes the proxy forward: the line, and when the
      line has no newline the NUL that ends the buffer, because the count returned
      is then one too many. */
  function Piece(line: Bytes): Bytes {
    if Terminated(line) then line else line + [0]
  }

  /** Writes left after one more; a negative number stays what it is. */
  function OneLess(writes: int): int {
    if writes > 0 then writes - 1 else writes
  }

  /** The bytes a client is sent for the origin's bytes s when it takes only so many
      writes, or all of them if the number is negative. A piece cut short by a failed
      read is not forwarded. */
  function Forwarded(s: Bytes, broken: bool, writes: int): Bytes
    decreases |s|
  {
    if s == [] || writes == 0 then []
    else
      var k := LineLength(s, MAXLINE - 1);
      if k == |s| && k < MAXLINE - 1 && !Terminated(s) && broken then []
      else Piece(s[..k]) + Forwarded(s[k..], broken, OneLess(writes))
  }

  function Relayed(s: Bytes, broken: bool): Bytes {
    Forwarded(s, broken, -1)
  }

  /** How many writes the whole reply takes. */
  function Pieces(s: Bytes, broken: bool): (n: nat)
    decreases |s|
  {
    if s == [] then 0
    else
      var k := LineLength(s, MAXLINE - 1);
      if k == |s| && k < MAXLINE - 1 && !Terminated(s) && broken then 0
      else 1 + Pieces(s[k..], broken)
  }

  /** A client that breaks off has been sent the beginning of the whole, and all of it
      exactly if it took as many writes as there are pieces. */
  lemma {:induction false} ForwardedPrefix(s: Bytes, broken: bool, writes: int)
    ensures Forwarded(s, broken, writes) <= Relayed(s, broken)
    ensures Forwarded(s, broken, writes) == Relayed(s, broken) <==> writes < 0 || Pieces(s, broken) <= writes
    decreases |s|
  {
    if s != [] {
      var k := LineLength(s, MAXLINE - 1);
      var w := OneLess(writes);
      ForwardedPrefix(s[k..], broken, w);
      if writes != 0 && !(k == |s| && k < MAXLINE - 1 && !Terminated(s) && broken) {
        SameAfter(Piece(s[..k]), Forwarded(s[k..], broken, w), Relayed(s[k..], broken));
      }
    }
  }

  lemma SameAfter(a: Bytes, x: Bytes, y: Bytes)
    ensures a + x == a + y <==> x == y
  {
    assert (a + x)[|a|..] == x && (a + y)[|a|..] == y;
  }

  /** A reply that a failed read cuts short after its first line is still relayed to
      its end, as far as the proxy can tell, and so it is cached. */
  lemma CutReplyIsComplete()
    ensures Forwarded([65, NEWLINE, 66], true, -1) == Relayed([65, NEWLINE, 66], true) == [65, NEWLINE]
  {
    var s := [65, NEWLINE, 66];
    assert LineLength(s, MAXLINE - 1) == 2 && s[..2] == [65, NEWLINE] && s[2..] == [66];
    assert LineLength([66], MAXLINE - 1) == 1;
    assert Forwarded([66], true, -1) == [];
  }

  /** The fill loop. writes is how many writes to the client succeed before one
      fails; negative when none fails. The copy is kept only while it fits. */
  method Relay(origin: Rio, writes: int) returns (sent: Bytes, completed: bool, cacheData: Bytes, size: int)
    requires origin.Valid()
    modifies origin`rioCnt, origin`rioBufptr, origin`input, origin`obtained, origin`delivered, origin.rioBuf
    ensures sent == Forwarded(old(origin.Pending()), Breaks(old(origin.input)), writes)
    ensures completed <==> sent == Relayed(old(origin.Pending()), Breaks(old(origin.input)))
    ensures completed <==> writes < 0 || Pieces(old(origin.Pending()), Breaks(old(origin.input))) <= writes
    ensures completed ==> size == |sent|
    ensures completed && size <= WebCache.MAX_OBJECT_SIZE ==> cacheData == sent
  {
    hide Forwarded, Breaks, Rio.Valid, Rio.Pending, Piece, Pieces;
    ForwardedPrefix(origin.Pending(), Breaks(origin.input), writes);
    sent, completed, cacheData, size := [], false, [], 0;
    ghost var breaks := Breaks(origin.input);
    ghost var rest := Relayed(origin.Pending(), breaks);
    ghost var whole := rest;
    ghost var share := Forwarded(origin.Pending(), breaks, writes);
    ghost var portion := share;
    var left := writes;
    var tmpLen, line := ReadPiece(origin, writes);
    while tmpLen > 0
      invariant whole == sent + rest && portion == sent + share
      invariant if tmpLen > 0
                then origin.Valid() && Breaks(origin.input) == breaks && tmpLen == |Piece(line)|
                     && rest == Piece(line) + Relayed(origin.Pending(), breaks)
                     && share == (if left == 0 then []
                                  else Piece(line) + Forwarded(origin.Pending(), breaks, OneLess(left)))
                else rest == [] && share == []
      invariant size == |sent|
      invariant size <= WebCache.MAX_OBJECT_SIZE ==> cacheData == sent
      decreases |rest|
    {
      size := size + tmpLen;
      if size <= WebCache.MAX_OBJECT_SIZE {
        cacheData := cacheData + Piece(line);
      }
      if left == 0 {
        return;
      }
      left := OneLess(left);
      rest := Relayed(origin.Pending(), breaks);
      share := Forwarded(origin.Pending(), breaks, left);
      Regroup(sent, Piece(line), rest);
      Regroup(sent, Piece(line), share);
      sent := sent + Piece(line);
      tmpLen, line := ReadPiece(origin, left);
    }
    completed := true;
  }

  /** One call of rio_readlineb in the loop: how many bytes of the buffer are forwarded. */
  method ReadPiece(origin: Rio, ghost left: int) returns (tmpLen: int, line: Bytes)
    requires origin.Valid()
    modifies origin`rioCnt, origin`rioBufptr, origin`input, origin`obtained, origin`delivered, origin.rioBuf
    ensures origin.Valid()
    ensures tmpLen > 0 ==> Breaks(origin.input) == Breaks(old(origin.input)) && tmpLen == |Piece(line)|
    ensures Relayed(old(origin.Pending()), Breaks(old(origin.input)))
         == if tmpLen <= 0 then [] else Piece(line) + Relayed(origin.Pending(), Breaks(old(origin.input)))
    ensures Forwarded(old(origin.Pending()), Breaks(old(origin.input)), left)
         == if tmpLen <= 0 || left == 0 then []
            else Piece(line) + Forwarded(origin.Pending(), Breaks(old(origin.input)), OneLess(left))
  {
    hide Relayed, Forwarded, Breaks, Rio.Valid, Rio.Pending, LineLength, Piece;
    tmpLen, line := origin.ReadLineb(MAXLINE);
    OneLine(old(origin.Pending()), Breaks(old(origin.input)), tmpLen, left);
    OneLine(old(origin.Pending()), Breaks(old(origin.input)), tmpLen, -1);
    RelayedIs(old(origin.Pending()), Breaks(old(origin.input)));
    RelayedIs(origin.Pending(), Breaks(old(origin.input)));
  }

  lemma RelayedIs(s: Bytes, broken: bool)
    ensures Relayed(s, broken) == Forwarded(s, broken, -1)
  {
  }

  /** One turn of the loop in terms of the stream. */
  lemma OneLine(s: Bytes, broken: bool, rc: int, left: int)
    requires var line := s[..LineLength(s, MAXLINE - 1)];
             rc == LineResult(line, MAXLINE, |s| == |line| && broken)
    ensures var line := s[..LineLength(s, MAXLINE - 1)];
            && (rc > 0 ==> rc == |Piece(line)|)
            && Forwarded(s, broken, left)
               == if rc <= 0 || left == 0 then []
                  else Piece(line) + Forwarded(s[|line|..], broken, OneLess(left))
  {
  }
}
