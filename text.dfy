/** The C string handling the header parser relies on: NUL-terminated buffers, the trailing
    CR/LF removal of mcdRaw.c (removeCRLF), `strncmp` prefix tests, `sscanf("%d")` and the
    splitting of the stream list at ';'. */
module Text {
  import opened Common

  // ---------------------------------------------------------------------------------------
  // NUL-terminated strings

  /** `strlen`: the index of the first NUL, or the whole buffer when there is none. */
  function CLen(s: string): (n: nat)
    ensures n <= |s|
    ensures forall i :: 0 <= i < n ==> s[i] != '\0'
    ensures n < |s| ==> s[n] == '\0'
  {
    if |s| == 0 || s[0] == '\0' then 0 else 1 + CLen(s[1..])
  }

  /** The text a C buffer holds: everything before its first NUL. */
  function CStr(s: string): string
  {
    s[..CLen(s)]
  }

  /** A string that can be the content of a C string (it holds no NUL). */
  predicate NoNul(s: string)
  {
    forall i :: 0 <= i < |s| ==> s[i] != '\0'
  }

  /** A NUL-free prefix ended by a NUL (or by the end of the buffer) is the C string. */
  lemma CLenUnique(s: string, m: nat)
    requires m <= |s|
    requires forall i :: 0 <= i < m ==> s[i] != '\0'
    requires m < |s| ==> s[m] == '\0'
    ensures CLen(s) == m
  {
  }

  lemma CStrOfTerminated(s: string)
    ensures CStr(s + ['\0']) == CStr(s)
    ensures NoNul(s) ==> CStr(s + ['\0']) == s
  {
    var t := s + ['\0'];
    var n := CLen(s);
    assert forall i :: 0 <= i < n ==> t[i] == s[i];
    if n < |s| {
      assert t[n] == s[n];
    } else {
      assert t[n] == '\0';
    }
    CLenUnique(t, n);
    if NoNul(s) {
      CLenUnique(s, |s|);
    }
  }

  // ---------------------------------------------------------------------------------------
  // removeCRLF (mcdRaw.c:77-84)

  predicate IsCRLF(c: char)
  {
    c == '\r' || c == '\n'
  }

  /** The text left when the maximal trailing run of CR/LF characters is cut off. */
  function StripCRLF(t: string): (r: string)
    ensures |r| <= |t| && r == t[..|r|]
    ensures forall i :: |r| <= i < |t| ==> IsCRLF(t[i])
    ensures r == [] || !IsCRLF(r[|r| - 1])
  {
    if |t| > 0 && IsCRLF(t[|t| - 1]) then StripCRLF(t[..|t| - 1]) else t
  }

  /** The length StripCRLF keeps is the only cut point with CR/LF after it and none just
      before it: whatever is removed is exactly the maximal trailing run. */
  lemma StripCRLFUnique(t: string, m: nat)
    requires m <= |t|
    requires forall i :: m <= i < |t| ==> IsCRLF(t[i])
    requires m == 0 || !IsCRLF(t[m - 1])
    ensures |StripCRLF(t)| == m
  {
    var r := StripCRLF(t);
    if 0 < |r| {
      assert r[|r| - 1] == t[|r| - 1];
    }
    if 0 < m {
      assert IsCRLF(t[m - 1]) == false;
    }
  }

  lemma {:induction false} StripCRLFIdempotent(t: string)
    ensures StripCRLF(StripCRLF(t)) == StripCRLF(t)
  {
    var r := StripCRLF(t);
    StripCRLFUnique(r, |r|);
  }

  /** The buffer after removeCRLF: every character of the trailing CR/LF run of the C string
      becomes NUL; the rest of the buffer, including what lies after the terminator, is kept. */
  function BlankCRLF(s: string): (r: string)
    ensures |r| == |s|
  {
    var n := CLen(s);
    var k := |StripCRLF(s[..n])|;
    s[..k] + seq(n - k, _ => '\0') + s[n..]
  }

  /** The three parts of the blanked buffer, position by position, with `n` the C-string
      length and `k` the length of the stripped line. */
  lemma BlankCRLFAt(s: string, i: nat, n: nat, k: nat)
    requires i < |s| && n == CLen(s) && k == |StripCRLF(s[..n])|
    ensures BlankCRLF(s)[i] == if k <= i < n then '\0' else s[i]
  {
  }

  /** removeCRLF blanks exactly the maximal trailing run of CR/LF characters of the string and
      leaves every other character of the buffer untouched. */
  lemma BlankCRLFExact(s: string, i: nat)
    requires i < |s|
    ensures BlankCRLF(s)[i] ==
      if i < CLen(s) && (forall j :: i <= j < CLen(s) ==> IsCRLF(s[j])) then '\0' else s[i]
  {
    var n := CLen(s);
    var t := s[..n];
    var r := StripCRLF(t);
    var k := |r|;
    BlankCRLFAt(s, i, n, k);
    if i < k {
      assert r[k - 1] == t[k - 1] == s[k - 1];
      assert !IsCRLF(s[k - 1]);
    } else if i < n {
      forall j | i <= j < n
        ensures IsCRLF(s[j])
      {
        assert t[j] == s[j];
      }
    }
  }

  /** Reading the blanked buffer back as a C string gives the stripped line. */
  lemma BlankCRLFText(s: string)
    ensures CStr(BlankCRLF(s)) == StripCRLF(CStr(s))
    ensures CLen(BlankCRLF(s)) == |StripCRLF(CStr(s))|
  {
    var n := CLen(s);
    var k := |StripCRLF(s[..n])|;
    var r := BlankCRLF(s);
    forall j | 0 <= j < k
      ensures r[j] == s[j] && r[j] != '\0'
    {
      BlankCRLFAt(s, j, n, k);
    }
    if k < |s| {
      BlankCRLFAt(s, k, n, k);
    }
    CLenUnique(r, k);
    assert r[..k] == s[..k];
  }

  /** removeCRLF is idempotent: a second call finds no trailing CR/LF left. */
  lemma BlankCRLFIdempotent(s: string)
    ensures BlankCRLF(BlankCRLF(s)) == BlankCRLF(s)
  {
    var r := BlankCRLF(s);
    BlankCRLFText(s);
    var k := CLen(r);
    assert r[..k] == StripCRLF(CStr(s));
    StripCRLFIdempotent(CStr(s));
    assert StripCRLF(r[..k]) == r[..k];
    assert BlankCRLF(r) == r[..k] + [] + r[k..];
  }

  /** removeCRLF: walks back from the end of the C string and overwrites CR and LF characters
      with NUL until it meets any other character. */
  method RemoveCRLF(buffer: array<char>)
    modifies buffer
    ensures buffer[..] == BlankCRLF(old(buffer[..]))
  {
    ghost var s := buffer[..];
    var n := CLen(buffer[..]);
    var i := n as int - 1;
    while i >= 0
      invariant -1 <= i < n
      invariant forall j :: 0 <= j < buffer.Length ==> buffer[j] == if i < j < n then '\0' else s[j]
      invariant forall j :: i < j < n ==> IsCRLF(s[j])
    {
      if buffer[i] == '\r' || buffer[i] == '\n' {
        buffer[i] := '\0';
      } else {
        break;
      }
      i := i - 1;
    }
    forall j | i + 1 <= j < n
      ensures IsCRLF(s[..n][j])
    {
    }
    StripCRLFUnique(s[..n], i + 1);
    forall j | 0 <= j < buffer.Length
      ensures buffer[j] == BlankCRLF(s)[j]
    {
      BlankCRLFAt(s, j, n, i + 1);
    }
  }

  // ---------------------------------------------------------------------------------------
  // strncmp prefix tests and sscanf("%d")

  /** `strncmp(prefix, line, strlen(prefix)) == 0` for a C string `line`. */
  predicate HasPrefix(line: string, prefix: string)
  {
    |prefix| <= |line| && line[..|prefix|] == prefix
  }

  /** The white space `%d` skips (isspace in the C locale). */
  predicate IsSpace(c: char)
  {
    c == ' ' || ('\t' <= c <= '\r')
  }

  predicate IsDigit(c: char)
  {
    '0' <= c <= '9'
  }

  predicate AllDigits(d: string)
  {
    forall i :: 0 <= i < |d| ==> IsDigit(d[i])
  }

  function DigitValue(c: char): nat
    requires IsDigit(c)
  {
    (c as int) - ('0' as int)
  }

  function DigitChar(v: nat): (c: char)
    requires v < 10
    ensures IsDigit(c) && DigitValue(c) == v
  {
    (('0' as int) + v) as char
  }

  /** The value of a string of decimal digits. */
  function DigitsValue(d: string): nat
    requires AllDigits(d)
  {
    if d == [] then 0 else DigitsValue(d[..|d| - 1]) * 10 + DigitValue(d[|d| - 1])
  }

  /** Nothing but white space. */
  predicate AllSpace(t: string)
  {
    forall i :: 0 <= i < |t| ==> IsSpace(t[i])
  }

  /** What `%d` leaves after skipping leading white space. */
  function SkipSpace(s: string): (r: string)
    ensures |r| <= |s| && r == s[|s| - |r|..]
    ensures AllSpace(s[..|s| - |r|])
    ensures r == [] || !IsSpace(r[0])
  {
    if |s| > 0 && IsSpace(s[0]) then SkipSpace(s[1..]) else s
  }

  /** The longest prefix of decimal digits. */
  function DigitRun(s: string): (d: string)
    ensures |d| <= |s| && d == s[..|d|] && AllDigits(d)
    ensures |d| < |s| ==> !IsDigit(s[|d|])
  {
    if |s| > 0 && IsDigit(s[0]) then [s[0]] + DigitRun(s[1..]) else []
  }

  /** `sscanf(s, "%d", &v) == 1`: white space, an optional sign, then at least one digit; the
      value is read from the maximal run of digits and anything after it is ignored. */
  function ScanInt(s: string): Option<int>
  {
    ScanSigned(SkipSpace(s))
  }

  /** `%d` after the leading white space: an optional sign, then the digits. */
  function ScanSigned(t: string): Option<int>
  {
    if |t| > 0 && t[0] == '-' then
      match ScanDigits(t[1..])
      case None => None
      case Some(v) => Some(-v)
    else if |t| > 0 && t[0] == '+' then ScanDigits(t[1..])
    else ScanDigits(t)
  }

  /** The value of the leading run of digits, which must not be empty. */
  function ScanDigits(u: string): Option<int>
  {
    var d := DigitRun(u);
    if d == [] then None else Some(DigitsValue(d))
  }

  /** The decimal text of a natural number (what `printf("%d")` writes). */
  function Decimal(n: nat): (d: string)
    ensures |d| >= 1 && AllDigits(d)
  {
    if n < 10 then [DigitChar(n)] else Decimal(n / 10) + [DigitChar(n % 10)]
  }

  lemma {:induction false} DecimalValue(n: nat)
    ensures DigitsValue(Decimal(n)) == n
  {
    if n >= 10 {
      var d := Decimal(n);
      assert d[..|d| - 1] == Decimal(n / 10);
      DecimalValue(n / 10);
    }
  }

  lemma {:induction false} DigitRunOfDigits(d: string, rest: string)
    requires AllDigits(d)
    requires rest == [] || !IsDigit(rest[0])
    ensures DigitRun(d + rest) == d
  {
    if d != [] {
      assert (d + rest)[1..] == d[1..] + rest;
      DigitRunOfDigits(d[1..], rest);
    } else {
      assert d + rest == rest;
    }
  }

  /** `sscanf("%d")` reads back the decimal text of a natural number, whatever non-digit text
      follows it. */
  lemma ScanIntDecimal(n: nat, rest: string)
    requires rest == [] || !IsDigit(rest[0])
    ensures ScanInt(Decimal(n) + rest) == Some(n)
  {
    var d := Decimal(n);
    var s := d + rest;
    assert s[0] == d[0] && IsDigit(d[0]);
    ScanIntUnsigned(s);
    DigitRunOfDigits(d, rest);
    DecimalValue(n);
  }

  /** Text starting with a digit is read as the value of its leading digit run. */
  lemma ScanIntUnsigned(s: string)
    requires s != [] && IsDigit(s[0])
    ensures DigitRun(s) != [] && ScanInt(s) == Some(DigitsValue(DigitRun(s)) as int)
  {
    assert SkipSpace(s) == s;
  }

  /** `%d` fails on an empty string and on text that starts with anything but white space, a
      sign or a digit. */
  lemma ScanIntRejects(s: string)
    requires s == [] || !(IsSpace(s[0]) || IsDigit(s[0]) || s[0] == '-' || s[0] == '+')
    ensures ScanInt(s) == None
  {
  }

  // ---------------------------------------------------------------------------------------
  // The ';'-separated token list of the "Streams = " header line

  /** The tokens of `s` between ';' separators; an empty string is one empty token, and so
      is the text after a trailing ';'. */
  function Split(s: string): (r: seq<string>)
    ensures |r| >= 1
  {
    if s == [] then [[]]
    else
      var rest := Split(s[1..]);
      if s[0] == ';' then [[]] + rest else [[s[0]] + rest[0]] + rest[1..]
  }

  /** No token holds a separator. */
  lemma {:induction false} SplitTokens(s: string)
    ensures forall i :: 0 <= i < |Split(s)| ==> ';' !in Split(s)[i]
  {
    if s != [] {
      SplitTokens(s[1..]);
      var rest := Split(s[1..]);
      if s[0] != ';' {
        assert forall x :: x in [s[0]] + rest[0] ==> x == s[0] || x in rest[0];
      }
    }
  }

  /** The inverse of Split: the tokens with ';' between them. */
  function Join(ts: seq<string>): string
    requires |ts| >= 1
  {
    if |ts| == 1 then ts[0] else ts[0] + ";" + Join(ts[1..])
  }

  lemma {:induction false} SplitAfterToken(t: string, s: string)
    requires ';' !in t
    ensures Split(t + s) == [t + Split(s)[0]] + Split(s)[1..]
  {
    if t != [] {
      assert t[0] in t;
      assert (t + s)[0] == t[0] != ';';
      assert (t + s)[1..] == t[1..] + s;
      assert forall x :: x in t[1..] ==> x in t;
      SplitAfterToken(t[1..], s);
      var rest := Split(t[1..] + s);
      assert Split(t + s) == [[t[0]] + rest[0]] + rest[1..];
      assert [t[0]] + (t[1..] + Split(s)[0]) == t + Split(s)[0];
    } else {
      assert t + s == s;
      assert [] + Split(s)[0] == Split(s)[0];
      assert [Split(s)[0]] + Split(s)[1..] == Split(s);
    }
  }

  /** Splitting a joined list of ';'-free tokens gives the tokens back. */
  lemma {:induction false} SplitJoin(ts: seq<string>)
    requires |ts| >= 1
    requires forall i :: 0 <= i < |ts| ==> ';' !in ts[i]
    ensures Split(Join(ts)) == ts
  {
    if |ts| == 1 {
      SplitAfterToken(ts[0], []);
      assert ts[0] + [] == ts[0];
    } else {
      var rest := Join(ts[1..]);
      SplitJoin(ts[1..]);
      assert Split(";" + rest) == [[]] + Split(rest) by {
        assert (";" + rest)[1..] == rest;
      }
      assert Join(ts) == ts[0] + (";" + rest);
      SplitAfterToken(ts[0], ";" + rest);
      assert ts[0] + [] == ts[0];
    }
  }

  /** Splitting one more character: a ';' opens a new empty token, anything else extends the
      last token. */
  lemma {:induction false} SplitSnoc(s: string, c: char)
    ensures var r := Split(s);
      Split(s + [c]) == if c == ';' then r + [[]] else r[..|r| - 1] + [r[|r| - 1] + [c]]
  {
    if c == ';' {
      SplitSnocSeparator(s);
    } else {
      SplitSnocChar(s, c);
    }
  }

  lemma {:induction false} SplitSnocSeparator(s: string)
    ensures Split(s + [';']) == Split(s) + [[]]
  {
    if s == [] {
      assert s + [';'] == [';'];
      assert [';'][1..] == [];
      assert Split([';']) == [[]] + [[]];
    } else {
      var r, r1 := Split(s), Split(s[1..]);
      assert (s + [';'])[0] == s[0];
      assert (s + [';'])[1..] == s[1..] + [';'];
      SplitSnocSeparator(s[1..]);
      if s[0] == ';' {
        assert [[]] + (r1 + [[]]) == r + [[]];
      } else {
        assert [[s[0]] + r1[0]] + (r1 + [[]])[1..] == r + [[]];
      }
    }
  }

  lemma {:induction false} SplitSnocChar(s: string, c: char)
    requires c != ';'
    ensures var r := Split(s); Split(s + [c]) == r[..|r| - 1] + [r[|r| - 1] + [c]]
  {
    if s == [] {
      assert s + [c] == [c];
      assert [c][1..] == [];
      assert Split([c]) == [[c] + []] + [[]][1..];
      var none: string, noTokens: seq<string> := [], [];
      assert [c] + none == none + [c] == [c];
      assert [none][1..] == noTokens;
    } else {
      SplitSnocChar(s[1..], c);
      SplitSnocCons(s, c, Split(s), Split(s[1..]), Split(s[1..] + [c]));
    }
  }

  /** The inductive step of SplitSnocChar, for a non-empty `s`. */
  lemma SplitSnocCons(s: string, c: char, r: seq<string>, r1: seq<string>, r2: seq<string>)
    requires s != [] && c != ';'
    requires r == Split(s) && r1 == Split(s[1..]) && r2 == Split(s[1..] + [c])
    requires r2 == r1[..|r1| - 1] + [r1[|r1| - 1] + [c]]
    ensures Split(s + [c]) == r[..|r| - 1] + [r[|r| - 1] + [c]]
  {
    var t := s + [c];
    assert t[0] == s[0] && t[1..] == s[1..] + [c];
    assert r == if s[0] == ';' then [[]] + r1 else [[s[0]] + r1[0]] + r1[1..];
    assert Split(t) == if s[0] == ';' then [[]] + r2 else [[s[0]] + r2[0]] + r2[1..];
    if s[0] == ';' {
      PushFront([], r1, c, r);
    } else if |r1| == 1 {
      SnocSingleToken(s[0], r1[0], c, r, r2, Split(t));
    } else {
      var x := [s[0]] + r1[0];
      SnocLaterToken(x, r1, c, r, r2, Split(t));
    }
  }

  /** SplitSnocChar's step when the rest of `s` is one token. */
  lemma SnocSingleToken(h: char, w: string, c: char, r: seq<string>, r2: seq<string>, rt: seq<string>)
    requires r == [[h] + w] + [[]][1..] && r2 == [[]][..0] + [w + [c]]
    requires rt == [[h] + r2[0]] + r2[1..]
    ensures rt == r[..|r| - 1] + [r[|r| - 1] + [c]]
  {
    assert ([h] + w) + [c] == [h] + (w + [c]);
  }

  /** SplitSnocChar's step when the rest of `s` has at least two tokens. */
  lemma SnocLaterToken(x: string, r1: seq<string>, c: char, r: seq<string>, r2: seq<string>, rt: seq<string>)
    requires |r1| >= 2 && r == [x] + r1[1..]
    requires r2 == r1[..|r1| - 1] + [r1[|r1| - 1] + [c]]
    requires |x| >= 1 && rt == [x[..1] + r2[0]] + r2[1..] && x == x[..1] + r1[0]
    ensures rt == r[..|r| - 1] + [r[|r| - 1] + [c]]
  {
    var q := r1[1..];
    var tail := q[..|q| - 1] + [q[|q| - 1] + [c]];
    assert r1[..|r1| - 1] == [r1[0]] + q[..|q| - 1];
    assert r2 == [r1[0]] + tail;
    PushFront(x, q, c, r);
  }

  /** Extending the last of a non-empty list of strings commutes with adding a first one. */
  lemma PushFront(x: string, q: seq<string>, c: char, r: seq<string>)
    requires |q| >= 1 && r == [x] + q
    ensures [x] + (q[..|q| - 1] + [q[|q| - 1] + [c]]) == r[..|r| - 1] + [r[|r| - 1] + [c]]
  {
    assert r[..|r| - 1] == [x] + q[..|q| - 1];
  }

  /** Splitting a longer string keeps the finished tokens and extends the open one. */
  lemma {:induction false} SplitExtends(s1: string, s2: string)
    requires s1 <= s2
    ensures TokensGrow(Split(s1), Split(s2))
  {
    if |s1| < |s2| {
      var s := s2[..|s2| - 1];
      var c := s2[|s2| - 1];
      assert s1 <= s;
      SplitExtends(s1, s);
      assert s + [c] == s2;
      SplitSnoc(s, c);
      if c == ';' {
        TokensGrowBySeparator(Split(s1), Split(s), Split(s2));
      } else {
        TokensGrowByChar(Split(s1), Split(s), Split(s2), c);
      }
    } else {
      assert s1 == s2;
    }
  }

  /** `r2` continues the token list `r1`: the closed tokens of r1 are kept and its open
      token is a prefix of the token at the same place in r2. */
  ghost predicate TokensGrow(r1: seq<string>, r2: seq<string>)
  {
    1 <= |r1| <= |r2| && r2[..|r1| - 1] == r1[..|r1| - 1] && r1[|r1| - 1] <= r2[|r1| - 1]
  }

  lemma TokensGrowBySeparator(r1: seq<string>, r: seq<string>, r2: seq<string>)
    requires TokensGrow(r1, r) && r2 == r + [[]]
    ensures TokensGrow(r1, r2)
  {
    var m := |r1| - 1;
    assert r2[..m] == r[..m];
    assert r2[m] == r[m];
  }

  lemma TokensGrowByChar(r1: seq<string>, r: seq<string>, r2: seq<string>, c: char)
    requires TokensGrow(r1, r) && r2 == r[..|r| - 1] + [r[|r| - 1] + [c]]
    ensures TokensGrow(r1, r2)
  {
    var m := |r1| - 1;
    assert r2[..m] == r[..m];
    assert r[m] <= r2[m];
  }
}
