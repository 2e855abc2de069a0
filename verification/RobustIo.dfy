/** The buffered reader of csapp.c over a descriptor that returns its bytes in
    arbitrary pieces, is interrupted, or fails. */
module RobustIo {

  const RIO_BUFSIZE: nat := 8192
  const NEWLINE := 10

  type Bytes = seq<int>

  /** One return of read(2); after the last one read reports end of file. */
  datatype ReadResult = Data(bytes: Bytes) | Interrupted | Failed

  ghost predicate Readable(input: seq<ReadResult>) {
    forall i | 0 <= i < |input| && input[i].Data? :: 0 < |input[i].bytes| <= RIO_BUFSIZE
  }

  /** The bytes still to come, up to a failure if there is one. */
  function Stream(input: seq<ReadResult>): Bytes {
    if input == [] || input[0].Failed? then []
    else if input[0].Data? then input[0].bytes + Stream(input[1..])
    else Stream(input[1..])
  }

  /** Whether a failure, and not end of file, ends the stream. */
  predicate Breaks(input: seq<ReadResult>) {
    input != [] && (input[0].Failed? || Breaks(input[1..]))
  }

  function Min(a: nat, b: nat): nat {
    if a < b then a else b
  }

  /** Bytes up to and including the first newline, at most room of them. */
  function LineLength(s: Bytes, room: nat): (k: nat)
    ensures k <= |s| && k <= room
    ensures forall i | 0 <= i < k - 1 :: s[i] != NEWLINE
    ensures k < room && k < |s| ==> k > 0 && s[k - 1] == NEWLINE
  {
    if room == 0 || s == [] then 0
    else if s[0] == NEWLINE then 1
    else 1 + LineLength(s[1..], room - 1)
  }

  predicate Terminated(line: Bytes) {
    line != [] && line[|line| - 1] == NEWLINE
  }

  class Rio {
    const rioBuf: array<int>
    /** rio_cnt: unread bytes; -1 after a failed read. */
    var rioCnt: int
    var rioBufptr: nat
    /** What read(2) will return from here on. */
    var input: seq<ReadResult>
    /** Everything obtained from read(2), everything handed to callers. */
    ghost var obtained: Bytes
    ghost var delivered: Bytes

    ghost function Unread(): Bytes
      reads this`rioCnt, this`rioBufptr, rioBuf
      requires rioCnt <= 0 || rioBufptr + rioCnt <= rioBuf.Length
    {
      if rioCnt <= 0 then [] else rioBuf[rioBufptr..rioBufptr + rioCnt]
    }

    ghost predicate Valid()
      reads this, rioBuf
    {
      && rioBuf.Length == RIO_BUFSIZE && Readable(input)
      && -1 <= rioCnt && (rioCnt > 0 ==> rioBufptr + rioCnt <= RIO_BUFSIZE)
      && obtained == delivered + Unread()
    }

    /** The bytes a caller can still be given before end of file or a failure. */
    ghost function Pending(): Bytes
      reads this, rioBuf
      requires Valid()
    {
      Unread() + Stream(input)
    }

    /** rio_readinitb */
    constructor (script: seq<ReadResult>)
      requires Readable(script)
      ensures Valid() && fresh(rioBuf) && input == script && delivered == [] && Pending() == Stream(script)
    {
      rioBuf := new int[RIO_BUFSIZE];
      rioCnt, rioBufptr := 0, 0;
      input := script;
      obtained, delivered := [], [];
    }

    /** read(2) into rio_buf. */
    method Read() returns (n: int, interrupted: bool)
      requires Valid() && rioCnt <= 0
      modifies this`input, this`obtained, rioBuf
      ensures Readable(input)
      ensures -1 <= n <= RIO_BUFSIZE
      ensures n > 0 ==> obtained == old(obtained) + rioBuf[..n]
                        && Stream(old(input)) == rioBuf[..n] + Stream(input) && Breaks(old(input)) == Breaks(input)
      ensures n == 0 ==> Stream(old(input)) == [] && !Breaks(old(input)) && input == old(input)
      ensures n == -1 && interrupted ==> Stream(old(input)) == Stream(input) && Breaks(old(input)) == Breaks(input)
      ensures n == -1 && !interrupted ==> Stream(old(input)) == [] && Breaks(old(input))
      ensures n <= 0 ==> obtained == old(obtained)
      ensures n > 0 || n == -1 ==> |input| < |old(input)|
    {
      interrupted := false;
      if input == [] {
        return 0, false;
      }
      var next := input[0];
      input := input[1..];
      match next
      case Data(bytes) =>
        forall i | 0 <= i < |bytes| { rioBuf[i] := bytes[i]; }
        n := |bytes|;
        obtained := obtained + bytes;
        assert rioBuf[..n] == bytes;
      case Interrupted =>
        n, interrupted := -1, true;
      case Failed =>
        n := -1;
    }

    /** One turn of the refill loop: rio_cnt takes the result of read(2), and after a
        success rio_bufptr goes back to the start. */
    method ReadOnce() returns (interrupted: bool)
      requires Valid() && rioCnt <= 0
      modifies this`rioCnt, this`rioBufptr, this`input, this`obtained, rioBuf
      ensures Valid() && (rioCnt >= 0 || interrupted ==> Pending() == old(Pending()))
      ensures rioCnt < 0 && !interrupted ==> old(Pending()) == [] && Breaks(old(input))
      ensures rioCnt >= 0 || interrupted ==> Breaks(input) == Breaks(old(input))
      ensures rioCnt == 0 ==> Pending() == [] && !Breaks(input)
      ensures rioCnt > 0 ==> Pending() != []
      ensures rioCnt != 0 ==> |input| < |old(input)|
    {
      hide Breaks, Stream, Readable;
      ghost var before := Stream(input);
      rioCnt, interrupted := Read();
      if rioCnt > 0 {
        rioBufptr := 0;
        assert rioBuf[0..rioCnt] == rioBuf[..rioCnt];
        assert Pending() == before;
      }
    }

    /** The refill loop of rio_read: 1 once bytes are unread, 0 at end of file, -1 on
        a failure. */
    method Refill() returns (status: int)
      requires Valid()
      modifies this`rioCnt, this`rioBufptr, this`input, this`obtained, rioBuf
      ensures Valid()
      ensures status != -1 ==> Pending() == old(Pending()) && Breaks(input) == Breaks(old(input))
      ensures delivered == old(delivered)
      ensures status == if old(Pending()) != [] then 1 else if Breaks(old(input)) then -1 else 0
      ensures status == 1 ==> rioCnt > 0
    {
      if rioCnt > 0 {
        assert Pending()[0] == Unread()[0];
      }
      hide Breaks, Stream, Readable, Valid, Pending, Unread;
      while rioCnt <= 0
        invariant Valid() && Pending() == old(Pending()) && Breaks(input) == Breaks(old(input))
        invariant rioCnt > 0 ==> Pending() != []
        decreases |input|, rioCnt <= 0
      {
        var interrupted := ReadOnce();
        if rioCnt < 0 {
          if !interrupted {
            return -1;
          }
        } else if rioCnt == 0 {
          return 0;
        }
      }
      status := 1;
    }

    /** rio_read: some bytes if any are pending, otherwise 0 at end of file or -1. */
    method RioRead(n: nat) returns (cnt: int, usrbuf: Bytes)
      requires Valid() && n > 0
      modifies this`rioCnt, this`rioBufptr, this`input, this`obtained, this`delivered, rioBuf
      ensures Valid()
      ensures if old(Pending()) != [] then 0 < cnt <= n else cnt == if Breaks(old(input)) then -1 else 0
      ensures cnt > 0 ==> cnt == |usrbuf| && old(Pending()) == usrbuf + Pending() && Breaks(input) == Breaks(old(input))
      ensures cnt <= 0 ==> usrbuf == []
      ensures cnt == 0 ==> Pending() == [] && !Breaks(input)
      ensures delivered == old(delivered) + usrbuf
    {
      hide Breaks, Stream, Readable, Valid, Unread;
      var status := Refill();
      if status <= 0 {
        return status, [];
      }
      cnt, usrbuf := Deliver(n);
      Regroup(usrbuf, Unread(), Stream(input));
    }

    /** The end of rio_read: what is copied out has been delivered. */
    method Deliver(n: nat) returns (cnt: int, usrbuf: Bytes)
      requires Valid() && n > 0 && rioCnt > 0
      modifies this`rioCnt, this`rioBufptr, this`delivered
      ensures Valid() && delivered == old(delivered) + usrbuf
      ensures 0 < cnt <= n && cnt == |usrbuf|
      ensures rioCnt <= 0 || rioBufptr + rioCnt <= rioBuf.Length
      ensures old(Unread()) == usrbuf + Unread()
    {
      hide Stream, Readable, Unread;
      cnt, usrbuf := CopyOut(n);
      Regroup(delivered, usrbuf, Unread());
      delivered := delivered + usrbuf;
    }

    /** The copy of min(n, rio_cnt) bytes. */
    method CopyOut(n: nat) returns (cnt: int, usrbuf: Bytes)
      requires n > 0 && rioCnt > 0 && rioBufptr + rioCnt <= rioBuf.Length
      modifies this`rioCnt, this`rioBufptr
      ensures 0 < cnt <= n && cnt == |usrbuf| && 0 <= rioCnt
      ensures rioBufptr + rioCnt <= rioBuf.Length
      ensures old(Unread()) == usrbuf + Unread()
    {
      ghost var all, start, end := rioBuf[..], rioBufptr, rioBufptr + rioCnt;
      assert Unread() == all[start..end];
      cnt := Min(n, rioCnt);
      usrbuf := rioBuf[rioBufptr..rioBufptr + cnt];
      rioBufptr := rioBufptr + cnt;
      rioCnt := rioCnt - cnt;
      assert Unread() == all[start + cnt..end];
      hide Unread;
      CutSlice(all, start, start + cnt, end);
    }

    /** rio_readnb: min(n, pending) bytes however read(2) cut the stream; -1 only when
        a failure comes before the n-th byte. */
    method ReadNb(n: nat) returns (rc: int, usrbuf: Bytes)
      requires Valid()
      modifies this`rioCnt, this`rioBufptr, this`input, this`obtained, this`delivered, rioBuf
      ensures Valid() && delivered == old(delivered) + usrbuf
      ensures usrbuf == old(Pending())[..Min(n, |old(Pending())|)]
      ensures rc == if n > |old(Pending())| && Breaks(old(input)) then -1 else |usrbuf|
      ensures rc >= 0 ==> Pending() == old(Pending())[|usrbuf|..] && Breaks(input) == Breaks(old(input))
    {
      hide Valid, Pending, Unread, Breaks, Stream, Readable;
      ghost var pending := Pending();
      ghost var breaks := Breaks(input);
      var nleft := n;
      usrbuf := [];
      while nleft > 0
        invariant Valid() && delivered == old(delivered) + usrbuf
        invariant 0 <= nleft && nleft + |usrbuf| == n
        invariant pending == usrbuf + Pending()
        invariant Breaks(input) == breaks
      {
        var nread, bytes := RioRead(nleft);
        if nread < 0 {
          Taken(pending, usrbuf, []);
          return -1, usrbuf;
        } else if nread == 0 {
          break;
        }
        Regroup(usrbuf, bytes, Pending());
        Regroup(old(delivered), usrbuf, bytes);
        usrbuf := usrbuf + bytes;
        nleft := nleft - nread;
      }
      Taken(pending, usrbuf, Pending());
      rc := n - nleft;
    }

    /** rio_readlineb: stores a line of at most maxlen - 1 bytes and a NUL. What it
        returns is the length of the line only if the line ended with a newline or
        nothing at all was read; otherwise it is one more. */
    method ReadLineb(maxlen: int) returns (rc: int, line: Bytes)
      requires Valid() && 1 <= maxlen
      modifies this`rioCnt, this`rioBufptr, this`input, this`obtained, this`delivered, rioBuf
      ensures Valid() && delivered == old(delivered) + line
      ensures line == old(Pending())[..LineLength(old(Pending()), maxlen - 1)]
      ensures rc == LineResult(line, maxlen, |old(Pending())| == |line| && Breaks(old(input)))
      ensures rc >= 0 ==> Pending() == old(Pending())[|line|..] && Breaks(input) == Breaks(old(input))
    {
      hide Valid, Pending, Unread, Breaks, Stream, Readable, LineLength, LineResult, Terminated, Joined, NoNewline;
      ghost var pending := Pending();
      line := [];
      var n := 1;
      StartLine(delivered, pending);
      while n < maxlen
        invariant 1 <= n <= maxlen && n == |line| + 1
        invariant Valid() && Breaks(input) == Breaks(old(input))
        invariant Joined(delivered, old(delivered), line) && Joined(pending, line, Pending())
        invariant NoNewline(line)
      {
        ghost var given, before := delivered, Pending();
        var cnt, c := RioRead(1);
        if cnt == 1 {
          MoreLine(old(delivered), given, pending, line, before, c, Pending());
          line := line + c;
          if c[0] == NEWLINE {
            EndLine(old(delivered), delivered, pending, line, Pending(), maxlen);
            return n, line;
          }
        } else if cnt == 0 {
          assert delivered == given;
          EndLine(old(delivered), delivered, pending, line, [], maxlen);
          if n == 1 {
            return 0, line;
          } else {
            break;
          }
        } else {
          assert delivered == given;
          EndLine(old(delivered), delivered, pending, line, [], maxlen);
          return -1, line;
        }
        n := n + 1;
      }
      EndLine(old(delivered), delivered, pending, line, Pending(), maxlen);
      rc := n;
    }
  }

  // ---- scripts of calls ----

  datatype Call = Nb(n: nat) | Lineb(maxlen: int)

  /** What a call returns and what it puts in the caller's buffer. */
  datatype Answer = Answer(rc: int, bytes: Bytes)

  predicate CallOk(call: Call) {
    call.Lineb? ==> call.maxlen >= 1
  }

  function AnswerTo(s: Bytes, broken: bool, call: Call): (a: Answer)
    requires CallOk(call)
    ensures |a.bytes| <= |s| && a.bytes == s[..|a.bytes|]
  {
    match call
    case Nb(n) =>
      var k := Min(n, |s|);
      Answer(if n > |s| && broken then -1 else k, s[..k])
    case Lineb(maxlen) =>
      var k := LineLength(s, maxlen - 1);
      Answer(LineResult(s[..k], maxlen, k == |s| && broken), s[..k])
  }

  /** The answers to a script of calls, up to the first failure: a function of the bytes
      to come and of whether the stream then breaks, and of nothing else. */
  function Answers(s: Bytes, broken: bool, calls: seq<Call>): (r: seq<Answer>)
    requires forall i | 0 <= i < |calls| :: CallOk(calls[i])
  {
    if calls == [] then []
    else
      var a := AnswerTo(s, broken, calls[0]);
      if a.rc < 0 then [a] else [a] + Answers(s[|a.bytes|..], broken, calls[1..])
  }

  function BytesOf(r: seq<Answer>): Bytes {
    if r == [] then [] else r[0].bytes + BytesOf(r[1..])
  }

  /** Together the answers are the beginning of the stream. */
  lemma {:induction false} AnswersInOrder(s: Bytes, broken: bool, calls: seq<Call>)
    requires forall i | 0 <= i < |calls| :: CallOk(calls[i])
    ensures BytesOf(Answers(s, broken, calls)) <= s
    decreases |calls|
  {
    if calls != [] {
      var a := AnswerTo(s, broken, calls[0]);
      hide AnswerTo;
      if a.rc < 0 {
        assert BytesOf([a]) == a.bytes + BytesOf([]);
      } else {
        var rest := Answers(s[|a.bytes|..], broken, calls[1..]);
        AnswersInOrder(s[|a.bytes|..], broken, calls[1..]);
        assert ([a] + rest)[1..] == rest;
        assert s == a.bytes + s[|a.bytes|..];
      }
    }
  }

  /** One call. */
  method RunCall(rio: Rio, call: Call) returns (a: Answer)
    requires rio.Valid() && CallOk(call)
    modifies rio`rioCnt, rio`rioBufptr, rio`input, rio`obtained, rio`delivered, rio.rioBuf
    ensures rio.Valid() && rio.delivered == old(rio.delivered) + a.bytes
    ensures a == AnswerTo(old(rio.Pending()), Breaks(old(rio.input)), call)
    ensures a.rc >= 0 ==>
              rio.Pending() == old(rio.Pending())[|a.bytes|..] && Breaks(rio.input) == Breaks(old(rio.input))
  {
    hide Rio.Valid, Rio.Pending, Breaks, LineResult;
    var rc, bytes;
    match call {
      case Nb(n) => rc, bytes := rio.ReadNb(n);
      case Lineb(maxlen) => rc, bytes := rio.ReadLineb(maxlen);
    }
    a := Answer(rc, bytes);
  }

  /** Whatever way read(2) cuts the stream, every script of rio_readnb and rio_readlineb
      calls gets the answers that the stream determines. */
  method RunCalls(rio: Rio, calls: seq<Call>) returns (answers: seq<Answer>)
    requires rio.Valid() && forall i | 0 <= i < |calls| :: CallOk(calls[i])
    modifies rio`rioCnt, rio`rioBufptr, rio`input, rio`obtained, rio`delivered, rio.rioBuf
    ensures rio.Valid() && rio.delivered == old(rio.delivered) + BytesOf(answers)
    ensures answers == Answers(old(rio.Pending()), Breaks(old(rio.input)), calls)
    decreases |calls|
  {
    hide Rio.Valid, Rio.Pending, Breaks, AnswerTo;
    if calls == [] {
      return [];
    }
    var a := RunCall(rio, calls[0]);
    if a.rc < 0 {
      answers := [a];
      assert BytesOf(answers) == a.bytes + BytesOf([]);
      return;
    }
    var rest := RunCalls(rio, calls[1..]);
    answers := [a] + rest;
    assert answers[1..] == rest;
    Regroup(old(rio.delivered), a.bytes, BytesOf(rest));
  }

  // ---- the parts of a line ----

  ghost predicate Joined(whole: Bytes, front: Bytes, rest: Bytes) {
    whole == front + rest
  }

  predicate NoNewline(line: Bytes) {
    forall i | 0 <= i < |line| :: line[i] != NEWLINE
  }

  lemma StartLine(given: Bytes, pending: Bytes)
    ensures Joined(given, given, []) && Joined(pending, [], pending) && NoNewline([])
  {
  }

  lemma MoreLine(given0: Bytes, given: Bytes, pending: Bytes, line: Bytes, before: Bytes, c: Bytes, after: Bytes)
    requires Joined(given, given0, line) && Joined(pending, line, before) && NoNewline(line)
    requires before == c + after && |c| == 1
    ensures Joined(given + c, given0, line + c) && Joined(pending, line + c, after)
    ensures c[0] != NEWLINE ==> NoNewline(line + c)
    ensures c[0] == NEWLINE ==> Terminated(line + c) && NoNewline((line + c)[..|line|])
  {
    Regroup(given0, line, c);
    Regroup(line, c, after);
    assert (line + c)[..|line|] == line;
  }

  /** Where the loop stops, the line is what LineLength cuts off. */
  lemma EndLine(given0: Bytes, given: Bytes, pending: Bytes, line: Bytes, rest: Bytes, maxlen: int)
    requires Joined(given, given0, line) && Joined(pending, line, rest)
    requires |line| + 1 <= maxlen || Terminated(line)
    requires |line| < maxlen
    requires NoNewline(line) || (Terminated(line) && NoNewline(line[..|line| - 1]))
    requires rest == [] || |line| + 1 == maxlen || Terminated(line)
    ensures NoNewline(line) ==> !Terminated(line)
    ensures given == given0 + line
    ensures line == pending[..LineLength(pending, maxlen - 1)] && rest == pending[|line|..] && |line| <= |pending|
    ensures |pending| == |line| <==> rest == []
    ensures Terminated(line) ==> forall broken :: LineResult(line, maxlen, broken) == |line|
    ensures !Terminated(line) ==>
              forall broken :: LineResult(line, maxlen, broken)
                == if |line| + 1 >= maxlen then |line| + 1
                   else if broken then -1 else if line == [] then 0 else |line| + 1
  {
    hide LineLength;
    Taken(pending, line, rest);
    forall i | 0 <= i < |line| - 1 ensures pending[i] != NEWLINE {
      assert pending[i] == line[i];
      if !NoNewline(line) {
        assert line[..|line| - 1][i] == line[i];
      }
    }
    LineEnds(pending, maxlen - 1, |line|);
  }

  lemma CutSlice(s: Bytes, a: nat, b: nat, c: nat)
    requires a <= b <= c <= |s|
    ensures s[a..c] == s[a..b] + s[b..c]
  {
  }

  lemma Regroup(a: Bytes, b: Bytes, c: Bytes)
    ensures a + (b + c) == (a + b) + c
  {
  }

  /** The two parts of a stream. */
  lemma Taken(pending: Bytes, front: Bytes, rest: Bytes)
    requires pending == front + rest
    ensures front == pending[..|front|] && rest == pending[|front|..]
    ensures |pending| == |front| + |rest|
    ensures forall i | 0 <= i < |front| :: pending[i] == front[i]
  {
  }

  /** The return value of rio_readlineb for the line it stored. */
  function LineResult(line: Bytes, maxlen: int, broken: bool): int {
    if Terminated(line) then |line|
    else if |line| + 1 >= maxlen then |line| + 1
    else if broken then -1
    else if line == [] then 0
    else |line| + 1
  }

  /** What the return value of rio_readlineb tells about the bytes s to come: -1 if a
      failure ends them before a newline or a full line, 0 if there are none, and
      otherwise the length of the line, one more without its newline. */
  lemma LineResultMeans(s: Bytes, maxlen: int, broken: bool)
    requires maxlen >= 1
    ensures var line := s[..LineLength(s, maxlen - 1)];
      var rc := LineResult(line, maxlen, |s| == |line| && broken);
      && (rc == -1 <==> broken && |s| < maxlen - 1 && forall i | 0 <= i < |s| :: s[i] != 10)
      && (rc == 0 <==> !broken && maxlen > 1 && s == [])
      && (rc > 0 ==> rc == |line| + if line != [] && line[|line| - 1] == 10 then 0 else 1)
      && rc >= -1
  {
    var k := LineLength(s, maxlen - 1);
    hide LineLength;
    assert k > 0 ==> s[..k][k - 1] == s[k - 1];
  }

  /** Where a line stops: at its newline, at its full length, or at the end. */
  lemma {:induction false} LineEnds(s: Bytes, room: nat, k: nat)
    requires k <= |s| && k <= room
    requires forall i | 0 <= i < k - 1 :: s[i] != NEWLINE
    requires k == room || k == |s| || (k > 0 && s[k - 1] == NEWLINE)
    ensures LineLength(s, room) == k
  {
    if k > 1 {
      LineEnds(s[1..], room - 1, k - 1);
    } else if k == 1 && s[0] != NEWLINE {
      LineEnds(s[1..], room - 1, 0);
    }
  }
}
