/** The C string handling the mail servers and clients rely on:
    `Option`, the NUL-terminated view of a buffer, the trailing-newline strip of a received
    chunk, `strtok` on "\n", `atoi` and `sprintf("%d")`. */
module CText {

  datatype Option<T> = None | Some(value: T)

  const NUL: char := '\0'

  /** Capacity of every protocol buffer (`#define BUF 1024`). */
  const BUF: nat := 1024

  /** The string a C function sees in a buffer: everything before the first NUL. */
  function CString(s: seq<char>): (r: seq<char>)
    ensures r <= s
    ensures NUL !in r
    ensures |r| < |s| ==> s[|r|] == NUL
  {
    if s == [] || s[0] == NUL then [] else [s[0]] + CString(s[1..])
  }

  predicate EndsWith(s: seq<char>, suffix: seq<char>) {
    |suffix| <= |s| && forall i :: 0 <= i < |suffix| ==> s[|s| - |suffix| + i] == suffix[i]
  }

  /** The server's cleanup of a received chunk: one trailing "\r\n", or else one trailing "\n",
      is cut off, and nothing else is touched. */
  function Strip(chunk: seq<char>): (r: seq<char>)
    ensures r <= chunk
    ensures EndsWith(chunk, "\r\n") ==> chunk == r + "\r\n"
    ensures !EndsWith(chunk, "\r\n") && EndsWith(chunk, "\n") ==> chunk == r + "\n"
    ensures !EndsWith(chunk, "\n") ==> r == chunk
  {
    if EndsWith(chunk, "\r\n") then
      chunk[..|chunk| - 2]
    else if EndsWith(chunk, "\n") then
      chunk[..|chunk| - 1]
    else
      chunk
  }

  /** Whatever a client appends as a line ending, the server sees the line itself. */
  lemma StripLineEnding(s: seq<char>)
    ensures Strip(s + "\r\n") == s
    ensures !EndsWith(s, "\r") ==> Strip(s + "\n") == s
  {
    var crlf := s + "\r\n";
    assert crlf[|crlf| - 2] == '\r' && crlf[|crlf| - 1] == '\n';
    assert crlf[..|crlf| - 2] == s;
    var lf := s + "\n";
    assert lf[|lf| - 1] == '\n';
    assert lf[..|lf| - 1] == s;
    if |s| >= 1 && s[|s| - 1] == '\r' {
      assert s[|s| - 1..] == "\r";
    } else {
      assert |lf| < 2 || lf[|lf| - 2] != '\r';
    }
  }

  /** Text free of NUL is its own C string. */
  lemma {:induction false} CStringOfText(s: seq<char>)
    requires NUL !in s
    ensures CString(s) == s
  {
    if s != [] {
      assert s[0] in s;
      assert forall c :: c in s[1..] ==> c in s;
      CStringOfText(s[1..]);
    }
  }

  /** What follows a NUL is invisible to C: bytes received and terminated read as the bytes'
      own C string, whatever stale content the buffer holds after them. */
  lemma {:induction false} CStringOfTerminated(s: seq<char>, stale: seq<char>)
    ensures CString(s + [NUL] + stale) == CString(s)
  {
    if s != [] {
      assert (s + [NUL] + stale)[0] == s[0];
      assert (s + [NUL] + stale)[1..] == s[1..] + [NUL] + stale;
      CStringOfTerminated(s[1..], stale);
    } else {
      assert (s + [NUL] + stale)[0] == NUL;
    }
  }

  // ---------------------------------------------------------------------------------------------
  // strtok(buffer, "\n")

  /** The token `strtok` returns when it stands on a non-delimiter: the longest run free of "\n". */
  function Run(s: seq<char>): (r: seq<char>)
    ensures r <= s
    ensures '\n' !in r
    ensures |r| < |s| ==> s[|r|] == '\n'
  {
    if s == [] || s[0] == '\n' then [] else [s[0]] + Run(s[1..])
  }

  /** The successive results of `strtok(buffer, "\n")`, `strtok(NULL, "\n")`, ... until NULL:
      delimiters are skipped, so no token is empty and none holds a newline. */
  function Tokens(s: seq<char>): (ts: seq<seq<char>>)
    ensures forall i :: 0 <= i < |ts| ==> ts[i] != [] && '\n' !in ts[i]
    decreases |s|
  {
    if s == [] then []
    else if s[0] == '\n' then Tokens(s[1..])
    else
      var r := Run(s);
      [r] + Tokens(s[|r|..])
  }

  /** A frame as a client writes it: its lines separated by single newlines. */
  function Join(lines: seq<seq<char>>): seq<char> {
    if lines == [] then []
    else if |lines| == 1 then lines[0]
    else lines[0] + "\n" + Join(lines[1..])
  }

  predicate IsLine(t: seq<char>) {
    t != [] && '\n' !in t
  }

  lemma {:induction false} RunOfLine(t: seq<char>, rest: seq<char>)
    requires '\n' !in t
    ensures Run(t + rest) == Run(t) + Run(rest) && Run(t) == t
  {
    if t != [] {
      assert t[0] in t;
      assert (t + rest)[0] == t[0];
      assert (t + rest)[1..] == t[1..] + rest;
      assert forall c :: c in t[1..] ==> c in t;
      RunOfLine(t[1..], rest);
      assert Run(t + rest) == [t[0]] + Run(t[1..] + rest);
      assert Run(t) == [t[0]] + Run(t[1..]);
      assert [t[0]] + t[1..] == t;
      assert [t[0]] + (t[1..] + Run(rest)) == t + Run(rest);
    } else {
      assert t + rest == rest;
    }
  }

  /** strtok recovers exactly the lines a frame was joined from. */
  lemma {:induction false} TokensOfJoin(lines: seq<seq<char>>)
    requires forall i :: 0 <= i < |lines| ==> IsLine(lines[i])
    ensures Tokens(Join(lines)) == lines
  {
    if lines == [] {
    } else if |lines| == 1 {
      var t := lines[0];
      RunOfLine(t, []);
      assert t + [] == t;
      assert t[|t|..] == [];
    } else {
      var t, rest := lines[0], Join(lines[1..]);
      var s := t + "\n" + rest;
      assert s == t + ("\n" + rest);
      RunOfLine(t, "\n" + rest);
      assert Run("\n" + rest) == [];
      assert s[|t|..] == "\n" + rest;
      assert s[0] == t[0];
      assert ("\n" + rest)[1..] == rest;
      TokensOfJoin(lines[1..]);
      assert Run(s) == t;
      assert Tokens(s) == [t] + Tokens(s[|t|..]);
      assert Tokens("\n" + rest) == Tokens(rest);
    }
  }

  // ---------------------------------------------------------------------------------------------
  // sprintf(buffer, "%d", n) and atoi

  predicate IsDigit(c: char) {
    '0' <= c <= '9'
  }

  function DigitChar(d: nat): char
    requires d < 10
  {
    ['0', '1', '2', '3', '4', '5', '6', '7', '8', '9'][d]
  }

  /** `sprintf("%d", n)` for a counter that is never negative. */
  function Decimal(n: nat): (r: seq<char>)
    ensures r != [] && forall i :: 0 <= i < |r| ==> IsDigit(r[i])
    ensures r[0] == '0' ==> n == 0
  {
    if n < 10 then [DigitChar(n)] else Decimal(n / 10) + [DigitChar(n % 10)]
  }

  /** The value of a string of decimal digits, most significant first. */
  function Value(ds: seq<char>): nat
    requires forall i :: 0 <= i < |ds| ==> IsDigit(ds[i])
  {
    if ds == [] then 0 else Value(ds[..|ds| - 1]) * 10 + DigitValue(ds[|ds| - 1])
  }

  function DigitValue(c: char): nat
    requires IsDigit(c)
  {
    c as int - '0' as int
  }

  /** The longest prefix made of decimal digits. */
  function LeadingDigits(s: seq<char>): (r: seq<char>)
    ensures r <= s
    ensures forall i :: 0 <= i < |r| ==> IsDigit(r[i])
    ensures |r| < |s| ==> !IsDigit(s[|r|])
  {
    if s == [] || !IsDigit(s[0]) then [] else [s[0]] + LeadingDigits(s[1..])
  }

  predicate IsSpace(c: char) {
    c == ' ' || c == '\t' || c == '\n' || c == '\U{B}' || c == '\U{C}' || c == '\r'
  }

  function SkipSpace(s: seq<char>): (r: seq<char>)
    ensures r == [] || !IsSpace(r[0])
    ensures |r| <= |s| && forall i :: 0 <= i < |r| ==> r[i] == s[|s| - |r| + i]
  {
    if s != [] && IsSpace(s[0]) then SkipSpace(s[1..]) else s
  }

  /** C `atoi`: leading white space, an optional sign, then as many digits as there are.
      Text that does not start with a number is 0. */
  function Atoi(s: seq<char>): (r: int)
    ensures var t := SkipSpace(s);
      (t == [] || !(IsDigit(t[0]) || t[0] == '+' || t[0] == '-')) ==> r == 0
  {
    var t := SkipSpace(s);
    if t != [] && t[0] == '-' then -(Value(LeadingDigits(t[1..])) as int)
    else if t != [] && t[0] == '+' then Value(LeadingDigits(t[1..]))
    else Value(LeadingDigits(t))
  }

  lemma {:induction false} ValueOfDecimal(n: nat)
    ensures Value(Decimal(n)) == n
  {
    var d := Decimal(n);
    if n < 10 {
      assert d[..0] == [];
    } else {
      ValueOfDecimal(n / 10);
      assert d[..|d| - 1] == Decimal(n / 10);
    }
  }

  lemma {:induction false} LeadingDigitsOfDigits(ds: seq<char>)
    requires forall i :: 0 <= i < |ds| ==> IsDigit(ds[i])
    ensures LeadingDigits(ds) == ds
  {
    if ds != [] {
      LeadingDigitsOfDigits(ds[1..]);
    }
  }

  lemma AtoiOfDigits(ds: seq<char>)
    requires ds != [] && forall i :: 0 <= i < |ds| ==> IsDigit(ds[i])
    ensures Atoi(ds) == Value(ds)
  {
    assert !IsSpace(ds[0]) && ds[0] != '-' && ds[0] != '+';
    assert SkipSpace(ds) == ds;
    LeadingDigitsOfDigits(ds);
  }

  /** `atoi` reads back what `sprintf("%d")` wrote: ordinals survive the trip through a frame. */
  lemma AtoiOfDecimal(n: nat)
    ensures Atoi(Decimal(n)) == n
  {
    AtoiOfDigits(Decimal(n));
    ValueOfDecimal(n);
  }
}
