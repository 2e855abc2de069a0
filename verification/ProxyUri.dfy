/** parse_uri of proxy.c and the cache key built from what it returns. */
module ProxyUri {

  datatype Target = Target(host: string, port: int, path: string)

  datatype Option<T> = None | Some(value: T)

  /** strchr: the first index of c, or the length. */
  function IndexOfChar(s: string, c: char): (i: nat)
    ensures i <= |s|
    ensures forall j | 0 <= j < i :: s[j] != c
    ensures i < |s| ==> s[i] == c
  {
    if s == [] || s[0] == c then 0 else 1 + IndexOfChar(s[1..], c)
  }

  function ToLower(c: char): char {
    if 'A' <= c <= 'Z' then c - 'A' + 'a' else c
  }

  /** strncasecmp(in_uri, "http://", 7) == 0 */
  predicate HasHttpPrefix(uri: string) {
    && |uri| >= 7
    && ToLower(uri[0]) == 'h' && ToLower(uri[1]) == 't' && ToLower(uri[2]) == 't' && ToLower(uri[3]) == 'p'
    && uri[4..7] == "://"
  }

  predicate IsDigit(c: char) { '0' <= c <= '9' }

  predicate IsSpace(c: char) { c == ' ' || '\t' <= c <= '\r' }

  function DigitValue(c: char): int
    requires IsDigit(c)
  {
    c as int - '0' as int
  }

  /** The leading digits of s, in decimal, after acc. */
  function ReadDigits(s: string, acc: int): int {
    if s == [] || !IsDigit(s[0]) then acc else ReadDigits(s[1..], 10 * acc + DigitValue(s[0]))
  }

  /** atoi, on values that do not overflow. */
  function Atoi(s: string): int {
    if s == [] then 0
    else if IsSpace(s[0]) then Atoi(s[1..])
    else if s[0] == '-' then -ReadDigits(s[1..], 0)
    else if s[0] == '+' then ReadDigits(s[1..], 0)
    else ReadDigits(s, 0)
  }

  /** What a URI of the form http://host[:port][/path] denotes. */
  function TargetOf(uri: string): Option<Target> {
    if !HasHttpPrefix(uri) then None
    else
      var rest := uri[7..];
      var slash := IndexOfChar(rest, '/');
      var authority := rest[..slash];
      var colon := IndexOfChar(authority, ':');
      Some(Target(authority[..colon],
                  if colon == |authority| then 80 else Atoi(authority[colon + 1..]),
                  if slash == |rest| then "/" else rest[slash..]))
  }

  /** parse_uri, filling its three outputs in turn; the host is cut at its colon last. */
  method ParseUri(inUri: string) returns (r: int, outHost: string, outPath: string, outPort: int)
    ensures r == 0 <==> TargetOf(inUri).Some?
    ensures r != 0 ==> r == -1 && outHost == ""
    ensures r == 0 ==> TargetOf(inUri) == Some(Target(outHost, outPort, outPath))
  {
    outHost, outPath, outPort := "", "", 0;
    if !HasHttpPrefix(inUri) {
      return -1, "", outPath, outPort;
    }
    var hostBegin := inUri[7..];
    var pathBegin := IndexOfChar(hostBegin, '/');
    if pathBegin == |hostBegin| {
      outHost := hostBegin;
    } else {
      outHost := hostBegin[..pathBegin];
    }
    assert outHost == hostBegin[..pathBegin];
    if pathBegin == |hostBegin| {
      outPath := "/";
    } else {
      outPath := hostBegin[pathBegin..];
    }
    var portBegin := IndexOfChar(outHost, ':');
    if portBegin == |outHost| {
      outPort := 80;
    } else {
      outPort := Atoi(outHost[portBegin + 1..]);
      outHost := outHost[..portBegin];
    }
    assert outHost == hostBegin[..pathBegin][..portBegin];
    r := 0;
  }

  /** What the parts of a parsed URI can contain. */
  ghost predicate Parsed(t: Target) {
    && (forall i | 0 <= i < |t.host| :: t.host[i] != ':' && t.host[i] != '/')
    && t.path != [] && t.path[0] == '/'
  }

  lemma TargetIsParsed(uri: string)
    requires TargetOf(uri).Some?
    ensures Parsed(TargetOf(uri).value)
  {
    var rest := uri[7..];
    var slash := IndexOfChar(rest, '/');
    var authority := rest[..slash];
    var colon := IndexOfChar(authority, ':');
    var t := TargetOf(uri).value;
    assert t.host == authority[..colon];
    forall i | 0 <= i < |t.host| ensures t.host[i] != ':' && t.host[i] != '/' {
      assert t.host[i] == authority[i] == rest[i];
    }
  }

  // ---- the key ----

  /** "%d" */
  function Decimal(n: int): (s: string) {
    if n < 0 then ['-'] + Digits(-n) else Digits(n)
  }

  function Digits(n: nat): (s: string)
    ensures s != []
    ensures forall i | 0 <= i < |s| :: IsDigit(s[i])
  {
    if n < 10 then [Digit(n)] else Digits(n / 10) + [Digit(n % 10)]
  }

  function Digit(n: nat): (c: char)
    requires n < 10
    ensures IsDigit(c) && DigitValue(c) == n
  {
    '0' + n as char
  }

  /** sprintf(tag, "%s:%d%s", hostname, port, path) */
  function Key(t: Target): string {
    t.host + ":" + Decimal(t.port) + t.path
  }

  lemma {:induction false} ReadAppend(s: string, c: char, acc: int)
    requires forall i | 0 <= i < |s| :: IsDigit(s[i])
    requires IsDigit(c)
    ensures ReadDigits(s + [c], acc) == 10 * ReadDigits(s, acc) + DigitValue(c)
  {
    if s == [] {
      assert (s + [c])[1..] == [];
    } else {
      assert (s + [c])[1..] == s[1..] + [c];
      ReadAppend(s[1..], c, 10 * acc + DigitValue(s[0]));
    }
  }

  /** Reading back what "%d" printed. */
  lemma {:induction false} DigitsReadBack(n: nat)
    ensures ReadDigits(Digits(n), 0) == n
  {
    if n < 10 {
      assert Digits(n)[1..] == [];
    } else {
      DigitsReadBack(n / 10);
      ReadAppend(Digits(n / 10), Digit(n % 10), 0);
    }
  }

  lemma DecimalHasNoSlash(n: int)
    ensures forall i | 0 <= i < |Decimal(n)| :: Decimal(n)[i] != '/' && Decimal(n)[i] != ':'
  {
    hide Digits;
  }

  /** Behind the digits of n nothing changes the value read. */
  lemma {:induction false} ReadAll(s: string, acc: int)
    requires forall i | 0 <= i < |s| :: IsDigit(s[i])
    ensures s == [] ==> ReadDigits(s, acc) == acc
    ensures s != [] ==> !IsSpace(s[0]) && s[0] != '-' && s[0] != '+'
  {
  }

  /** atoi reads back what "%d" printed. */
  lemma AtoiReadsBack(n: int)
    ensures Atoi(Decimal(n)) == n
  {
    if n < 0 {
      DigitsReadBack(-n);
      var s := Decimal(n);
      assert s[0] == '-' && s[1..] == Digits(-n);
    } else {
      DigitsReadBack(n);
      ReadAll(Digits(n), 0);
    }
    hide ReadDigits, Digits;
  }

  lemma {:induction false} FirstChar(s: string, c: char, i: nat)
    requires i <= |s| && (forall j | 0 <= j < i :: s[j] != c) && (i < |s| ==> s[i] == c)
    ensures IndexOfChar(s, c) == i
  {
    if i > 0 {
      FirstChar(s[1..], c, i - 1);
    }
  }

  // ---- every form of URI ----

  /** A URI is accepted exactly if it begins with http:// in small or capital letters. */
  lemma AcceptedIff(uri: string)
    ensures TargetOf(uri).Some? <==>
              |uri| >= 7 && uri[4..7] == "://" && forall i | 0 <= i < 4 :: uri[i] == "http"[i] || uri[i] == "HTTP"[i]
  {
    if |uri| >= 7 {
      assert forall i | 0 <= i < 4 :: ToLower(uri[i]) == "http"[i] <==> uri[i] == "http"[i] || uri[i] == "HTTP"[i];
    }
  }

  ghost predicate Free(s: string, c: char) {
    forall i | 0 <= i < |s| :: s[i] != c
  }

  /** Nothing, or a text that begins with a slash. */
  ghost predicate IsPath(path: string) {
    path != [] ==> path[0] == '/'
  }

  lemma Joined(a: string, b: string, c: string)
    ensures a + b + c == a + (b + c)
  {
  }

  lemma JoinedFive(a: string, b: string, c: string, d: string, e: string)
    ensures a + b + c + d + e == a + (b + c + d + e)
  {
    Joined(a, b, c);
    Joined(a, b + c, d);
    Joined(a, b + c + d, e);
  }

  lemma PrefixCut(pre: string, rest: string)
    requires |pre| == 7 && HasHttpPrefix(pre)
    ensures HasHttpPrefix(pre + rest) && (pre + rest)[7..] == rest
  {
    assert (pre + rest)[4..7] == pre[4..7];
  }

  lemma CutAtSlash(authority: string, path: string)
    requires Free(authority, '/') && IsPath(path)
    ensures IndexOfChar(authority + path, '/') == |authority|
    ensures (authority + path)[..|authority|] == authority && (authority + path)[|authority|..] == path
  {
    FirstChar(authority + path, '/', |authority|);
  }

  lemma TargetOfParts(pre: string, authority: string, path: string)
    requires |pre| == 7 && HasHttpPrefix(pre) && Free(authority, '/') && IsPath(path)
    ensures var colon := IndexOfChar(authority, ':');
      TargetOf(pre + (authority + path))
      == Some(Target(authority[..colon],
                     if colon == |authority| then 80 else Atoi(authority[colon + 1..]),
                     if path == [] then "/" else path))
  {
    hide IndexOfChar, Atoi, HasHttpPrefix;
    PrefixCut(pre, authority + path);
    CutAtSlash(authority, path);
  }

  /** Without a port, the port is 80; without a path, the path is /. */
  lemma WithoutPort(pre: string, host: string, path: string)
    requires |pre| == 7 && HasHttpPrefix(pre)
    requires Free(host, ':') && Free(host, '/') && IsPath(path)
    ensures TargetOf(pre + host + path) == Some(Target(host, 80, if path == [] then "/" else path))
  {
    hide IndexOfChar, Atoi, HasHttpPrefix, TargetOf;
    Joined(pre, host, path);
    TargetOfParts(pre, host, path);
    FirstChar(host, ':', |host|);
    assert host[..|host|] == host;
  }

  /** The port is the text behind the first colon, read by atoi. */
  lemma WithPort(pre: string, host: string, port: string, path: string)
    requires |pre| == 7 && HasHttpPrefix(pre)
    requires Free(host, ':') && Free(host, '/') && Free(port, '/') && IsPath(path)
    ensures TargetOf(pre + host + ":" + port + path)
            == Some(Target(host, Atoi(port), if path == [] then "/" else path))
  {
    hide IndexOfChar, Atoi, HasHttpPrefix, TargetOf;
    JoinedFive(pre, host, ":", port, path);
    TargetOfParts(pre, host + ":" + port, path);
    CutAtColon(host, port);
  }

  lemma CutAtColon(host: string, port: string)
    requires Free(host, ':')
    ensures IndexOfChar(host + ":" + port, ':') == |host|
    ensures (host + ":" + port)[..|host|] == host && (host + ":" + port)[|host| + 1..] == port
  {
    FirstChar(host + ":" + port, ':', |host|);
  }

  /** Every accepted URI has one of these two forms. */
  lemma Forms(uri: string) returns (pre: string, host: string, port: Option<string>, path: string)
    requires TargetOf(uri).Some?
    ensures |pre| == 7 && HasHttpPrefix(pre) && Free(host, ':') && Free(host, '/') && IsPath(path)
    ensures port.Some? ==> Free(port.value, '/')
    ensures uri == if port.Some? then pre + host + ":" + port.value + path else pre + host + path
  {
    pre := uri[..7];
    var rest := uri[7..];
    var slash := IndexOfChar(rest, '/');
    path := rest[slash..];
    hide IndexOfChar, TargetOf;
    host, port := AuthorityForms(rest[..slash]);
    PartsJoined(uri, pre, rest[..slash], path);
    hide *;
    Joined(pre, host, path);
    if port.Some? {
      JoinedFive(pre, host, ":", port.value, path);
    }
  }

  lemma PartsJoined(uri: string, pre: string, authority: string, path: string)
    requires |uri| >= 7 && pre == uri[..7] && authority <= uri[7..] && path == uri[7..][|authority|..]
    ensures uri == pre + (authority + path)
  {
    assert authority + path == uri[7..];
  }

  lemma AuthorityForms(authority: string) returns (host: string, port: Option<string>)
    requires Free(authority, '/')
    ensures Free(host, ':') && Free(host, '/') && (port.Some? ==> Free(port.value, '/'))
    ensures authority == if port.Some? then host + ":" + port.value else host
  {
    var colon := IndexOfChar(authority, ':');
    host := authority[..colon];
    port := if colon == |authority| then None else Some(authority[colon + 1..]);
  }

  // ---- atoi ----

  ghost predicate Spaces(s: string) {
    forall i | 0 <= i < |s| :: IsSpace(s[i])
  }

  lemma {:induction false} SkipSpaces(spaces: string, s: string)
    requires Spaces(spaces)
    ensures Atoi(spaces + s) == Atoi(s)
  {
    if spaces == [] {
      assert spaces + s == s;
    } else {
      assert (spaces + s)[1..] == spaces[1..] + s;
      SkipSpaces(spaces[1..], s);
    }
  }

  /** Nothing, or a text that does not begin with a digit. */
  ghost predicate NoDigit(s: string) {
    s != [] ==> !IsDigit(s[0])
  }

  lemma {:induction false} StopReading(digits: string, rest: string, acc: int)
    requires (forall i | 0 <= i < |digits| :: IsDigit(digits[i])) && NoDigit(rest)
    ensures ReadDigits(digits + rest, acc) == ReadDigits(digits, acc)
  {
    if digits == [] {
      assert digits + rest == rest;
    } else {
      assert (digits + rest)[1..] == digits[1..] + rest;
      StopReading(digits[1..], rest, 10 * acc + DigitValue(digits[0]));
    }
  }

  lemma {:induction false} SkipZeros(zeros: string, s: string)
    requires forall i | 0 <= i < |zeros| :: zeros[i] == '0'
    ensures ReadDigits(zeros + s, 0) == ReadDigits(s, 0)
  {
    if zeros == [] {
      assert zeros + s == s;
    } else {
      assert (zeros + s)[1..] == zeros[1..] + s;
      SkipZeros(zeros[1..], s);
    }
  }

  /** A port text of spaces, at most one sign, zeros and a printed number is that number,
      whatever comes behind its last digit. */
  lemma AtoiOfNumber(spaces: string, sign: string, zeros: string, n: nat, rest: string)
    requires Spaces(spaces) && sign in ["", "+", "-"] && NoDigit(rest)
    requires forall i | 0 <= i < |zeros| :: zeros[i] == '0'
    ensures Atoi(spaces + sign + zeros + Digits(n) + rest) == if sign == "-" then 0 - n else n
  {
    var digits := zeros + Digits(n);
    JoinedFive(spaces, sign, zeros, Digits(n), rest);
    Joined(sign, zeros, Digits(n));
    Joined(sign, digits, rest);
    SkipSpaces(spaces, sign + (digits + rest));
    StopReading(digits, rest, 0);
    SkipZeros(zeros, Digits(n));
    DigitsReadBack(n);
    hide ReadDigits, Digits;
    SignedNumber(sign, digits + rest);
  }

  lemma SignedNumber(sign: string, s: string)
    requires sign in ["", "+", "-"] && s != [] && IsDigit(s[0])
    ensures Atoi(sign + s) == if sign == "-" then -ReadDigits(s, 0) else ReadDigits(s, 0)
  {
    hide ReadDigits;
    if sign == "" {
      assert sign + s == s;
    } else {
      assert (sign + s)[0] == sign[0] && (sign + s)[1..] == s;
    }
  }

  /** A port text without a number is 0. */
  lemma AtoiOfNone(spaces: string, sign: string, rest: string)
    requires Spaces(spaces) && sign in ["", "+", "-"] && NoDigit(rest)
    requires sign == "" && rest != [] ==> !IsSpace(rest[0]) && rest[0] !in "+-"
    ensures Atoi(spaces + sign + rest) == 0
  {
    Joined(spaces, sign, rest);
    SkipSpaces(spaces, sign + rest);
    NoNumber(sign, rest);
  }

  lemma NoNumber(sign: string, rest: string)
    requires sign in ["", "+", "-"] && NoDigit(rest)
    requires sign == "" && rest != [] ==> !IsSpace(rest[0]) && rest[0] !in "+-"
    ensures Atoi(sign + rest) == 0
  {
    if sign == "" {
      assert sign + rest == rest;
    } else {
      assert (sign + rest)[0] == sign[0] && (sign + rest)[1..] == rest;
    }
  }

  // ---- the key read back ----

  /** The URI made of the prefix and the key is parsed to the target of the key. */
  lemma KeyIsParsedBack(t: Target)
    requires Parsed(t)
    ensures TargetOf("http://" + Key(t)) == Some(t)
  {
    var d := Decimal(t.port);
    DecimalHasNoSlash(t.port);
    AtoiReadsBack(t.port);
    hide TargetOf, Decimal, Atoi;
    var pre := "http://";
    assert pre[4..7] == "://";
    WithPort(pre, t.host, d, t.path);
    assert pre + t.host + ":" + d + t.path == pre + Key(t);
  }

  /** A URI that parse_uri accepts means the same as the one spelt out from its key. */
  lemma SpeltOut(uri: string)
    requires TargetOf(uri).Some?
    ensures TargetOf("http://" + Key(TargetOf(uri).value)) == TargetOf(uri)
  {
    TargetIsParsed(uri);
    hide TargetOf, Parsed, Key;
    KeyIsParsedBack(TargetOf(uri).value);
  }

  /** Two parsed URIs share a cache key exactly when they name the same host, port and path. */
  lemma KeyIdentifiesTarget(uri: string, uri': string)
    requires TargetOf(uri).Some? && TargetOf(uri').Some?
    ensures Key(TargetOf(uri).value) == Key(TargetOf(uri').value) <==> TargetOf(uri) == TargetOf(uri')
  {
    var t, t' := TargetOf(uri).value, TargetOf(uri').value;
    TargetIsParsed(uri);
    TargetIsParsed(uri');
    hide TargetOf, Decimal;
    if Key(t) == Key(t') {
      SplitKey(t, t');
    }
  }

  lemma SplitKey(t: Target, t': Target)
    requires Parsed(t) && Parsed(t') && Key(t) == Key(t')
    ensures t == t'
  {
    hide TargetOf, Key, Parsed;
    KeyIsParsedBack(t);
    KeyIsParsedBack(t');
  }
}
