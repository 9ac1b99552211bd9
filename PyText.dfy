/** The Python text operations the camera controller relies on: `str` of an
    integer, `int` of a string (base 10), `str.zfill`, and `str.split` /
    `str.join` on a one-character separator.  Strings are `seq<char>`. */
module PyText {

  datatype Option<+T> = None | Some(value: T)

  predicate IsDigit(c: char) { '0' <= c <= '9' }

  predicate AllDigits(s: string) { forall i :: 0 <= i < |s| ==> IsDigit(s[i]) }

  /** The characters Python's `int()` strips from both ends of its argument. */
  predicate IsSpace(c: char)
  {
    c == ' ' || c == '\t' || c == '\n' || c == '\r' || c as int == 11 || c as int == 12
  }

  function DigitChar(d: nat): (c: char)
    requires d < 10
    ensures IsDigit(c) && c as int - '0' as int == d
  {
    ('0' as int + d) as char
  }

  /** The value of a string of decimal digits (leading zeros allowed). */
  function DecValue(s: string): nat
    requires AllDigits(s)
  {
    if s == [] then 0 else DecValue(s[..|s| - 1]) * 10 + (s[|s| - 1] as int - '0' as int)
  }

  /** Python `str(n)` for n >= 0: decimal digits, no leading zero. */
  function NatToDec(n: nat): (s: string)
    ensures 1 <= |s| && AllDigits(s)
    ensures DecValue(s) == n
    ensures |s| > 1 ==> s[0] != '0'
  {
    if n < 10 then [DigitChar(n)]
    else
      var hi := NatToDec(n / 10);
      assert (hi + [DigitChar(n % 10)])[..|hi|] == hi;
      hi + [DigitChar(n % 10)]
  }

  /** Python `str(i)` for any integer. */
  function Str(i: int): string
  {
    if i < 0 then "-" + NatToDec(-i) else NatToDec(i)
  }

  function Zeros(k: nat): (z: string)
    ensures |z| == k && AllDigits(z)
  {
    seq(k, _ => '0')
  }

  /** Python `s.zfill(width)`: pad with zeros to `width`, after a leading sign;
      a string already that long is returned unchanged, never truncated. */
  function ZFill(s: string, width: int): (r: string)
    ensures |r| == if |s| >= width then |s| else width
  {
    if |s| >= width then s
    else if |s| > 0 && (s[0] == '+' || s[0] == '-') then [s[0]] + Zeros(width - |s|) + s[1..]
    else Zeros(width - |s|) + s
  }

  function TrimLeft(s: string): string
  {
    if |s| > 0 && IsSpace(s[0]) then TrimLeft(s[1..]) else s
  }

  function TrimRight(s: string): string
  {
    if |s| > 0 && IsSpace(s[|s| - 1]) then TrimRight(s[..|s| - 1]) else s
  }

  /** Python 2's `int(s)`: surrounding white space, an optional sign, more
      white space, then at least one decimal digit; anything else raises
      ValueError (here None). */
  function ParseInt(s: string): Option<int>
  {
    ParseTrimmed(TrimRight(TrimLeft(s)))
  }

  /** `int` of a text with no surrounding white space. */
  function ParseTrimmed(t: string): Option<int>
  {
    if |t| > 0 && (t[0] == '-' || t[0] == '+') then
      var body := TrimLeft(t[1..]);
      if |body| > 0 && AllDigits(body) then
        var v: int := DecValue(body);
        Some(if t[0] == '-' then -v else v)
      else None
    else if |t| > 0 && AllDigits(t) then Some(DecValue(t))
    else None
  }

  /** `str(int(text) + 1).zfill(width)`, the counter step of the saving tab. */
  function Bump(text: string, width: int): Option<string>
  {
    match ParseInt(text)
    case None => None
    case Some(v) => Some(ZFill(Str(v + 1), width))
  }

  /** A counter value shown with at least `width` digits. */
  function Pad(n: nat, width: int): string
  {
    ZFill(NatToDec(n), width)
  }

  lemma {:induction false} DecValueLeadingZeros(k: nat, s: string)
    requires AllDigits(s)
    ensures AllDigits(Zeros(k) + s) && DecValue(Zeros(k) + s) == DecValue(s)
    decreases |s|
  {
    var z := Zeros(k) + s;
    if s == [] {
      assert z == Zeros(k);
      ZerosValue(k);
    } else {
      assert z[..|z| - 1] == Zeros(k) + s[..|s| - 1];
      DecValueLeadingZeros(k, s[..|s| - 1]);
    }
  }

  lemma {:induction false} ZerosValue(k: nat)
    ensures DecValue(Zeros(k)) == 0
  {
    if k > 0 {
      assert Zeros(k)[..k - 1] == Zeros(k - 1);
      ZerosValue(k - 1);
    }
  }

  lemma {:induction false} TrimLeftNoSpace(s: string)
    requires |s| > 0 && !IsSpace(s[0])
    ensures TrimLeft(s) == s
  {
  }

  lemma {:induction false} TrimRightDigitEnd(s: string)
    requires |s| > 0 && IsDigit(s[|s| - 1])
    ensures TrimRight(s) == s
  {
  }

  /** `int` reads a plain or negated digit string as its value. */
  lemma ParseDigits(body: string)
    requires |body| > 0 && AllDigits(body)
    ensures ParseInt(body) == Some(DecValue(body))
    ensures ParseInt("-" + body) == Some(0 - DecValue(body) as int)
  {
    ParsePlain(body);
    ParseNegated(body);
  }

  lemma ParsePlain(body: string)
    requires |body| > 0 && AllDigits(body)
    ensures ParseInt(body) == Some(DecValue(body))
  {
    TrimLeftNoSpace(body);
    TrimRightDigitEnd(body);
    assert TrimRight(TrimLeft(body)) == body;
  }

  lemma ParseNegated(body: string)
    requires |body| > 0 && AllDigits(body)
    ensures ParseInt("-" + body) == Some(0 - DecValue(body) as int)
  {
    var neg := "-" + body;
    TrimLeftNoSpace(neg);
    assert neg[|neg| - 1] == body[|body| - 1];
    TrimRightDigitEnd(neg);
    ParseSigned(body);
  }

  lemma ParseSigned(body: string)
    requires |body| > 0 && AllDigits(body)
    requires TrimRight(TrimLeft("-" + body)) == "-" + body
    ensures ParseInt("-" + body) == Some(0 - DecValue(body) as int)
  {
    var t := "-" + body;
    assert t[0] == '-' && t[1..] == body;
    TrimLeftNoSpace(body);
    ParseSignedBody(t, body);
  }

  lemma ParseSignedBody(t: string, body: string)
    requires |t| > 0 && t[0] == '-' && TrimLeft(t[1..]) == body
    requires |body| > 0 && AllDigits(body)
    ensures ParseTrimmed(t) == Some(0 - DecValue(body) as int)
  {
  }

  /** White space between the sign and the digits is skipped: `int("- 7")`
      is -7, and the counter step turns "- 7" into "-006". */
  lemma SpaceAfterSign()
    ensures ParseInt("- 7") == Some(-7)
    ensures Bump("- 7", 4) == Some("-006")
  {
    var t := "- 7";
    TrimLeftNoSpace(t);
    assert IsDigit(t[|t| - 1]);
    TrimRightDigitEnd(t);
    assert t[1..] == " 7";
    assert TrimLeft(t[1..]) == TrimLeft(" 7"[1..]) == "7";
    assert DecValue("7") == 7;
    assert ParseInt(t) == Some(-7);
    assert NatToDec(6) == "6";
    assert Str(-6) == "-6";
    var k := ZFillSigned("-6", 4);
    assert Zeros(2) == "00";
    assert ZFill(Str(-7 + 1), 4) == [("-6")[0]] + Zeros(2) + ("-6")[1..] == "-006";
  }

  /** Formatting an integer with `str` and `zfill` and reading it back with
      `int` gives the integer again, whatever the width. */
  lemma ParseZFillStr(i: int, width: int)
    ensures ParseInt(ZFill(Str(i), width)) == Some(i)
  {
    if i < 0 {
      var d := NatToDec(-i);
      var r := ZFillNegative(d, width);
      ParseDigits(r);
    } else {
      var d := NatToDec(i);
      var r := ZFillDigits(d, width);
      ParseDigits(r);
    }
  }

  lemma ZFillDigits(d: string, width: int) returns (body: string)
    requires |d| > 0 && AllDigits(d)
    ensures ZFill(d, width) == body && |body| > 0 && AllDigits(body)
    ensures DecValue(body) == DecValue(d)
  {
    var k := if |d| >= width then 0 else width - |d|;
    DecValueLeadingZeros(k, d);
    body := Zeros(k) + d;
    assert IsDigit(d[0]);
    if |d| >= width {
      assert body == d;
    }
  }

  lemma ZFillNegative(d: string, width: int) returns (body: string)
    requires |d| > 0 && AllDigits(d)
    ensures ZFill("-" + d, width) == "-" + body && |body| > 0 && AllDigits(body)
    ensures DecValue(body) == DecValue(d)
  {
    var s := "-" + d;
    assert s[0] == '-' && s[1..] == d;
    var k := ZFillSigned(s, width);
    DecValueLeadingZeros(k, d);
    body := Zeros(k) + d;
    assert [s[0]] + Zeros(k) + s[1..] == "-" + body;
  }

  /** `zfill` on a string with a leading minus sign puts the zeros after it. */
  lemma ZFillSigned(s: string, width: int) returns (k: nat)
    requires |s| > 0 && s[0] == '-'
    ensures k == if |s| >= width then 0 else width - |s|
    ensures ZFill(s, width) == [s[0]] + Zeros(k) + s[1..]
  {
    k := if |s| >= width then 0 else width - |s|;
    if |s| >= width {
      assert [s[0]] + Zeros(0) + s[1..] == s;
    }
  }

  /** The counter step adds one to the value and pads to at least `width`
      characters without ever truncating; a text `int` rejects makes it fail. */
  lemma BumpCounts(text: string, width: int)
    ensures Bump(text, width).None? <==> ParseInt(text).None?
    ensures ParseInt(text).Some? ==>
              var r := Bump(text, width).value;
              && ParseInt(r) == Some(ParseInt(text).value + 1)
              && |r| >= width && |r| >= |Str(ParseInt(text).value + 1)|
  {
    if ParseInt(text).Some? {
      ParseZFillStr(ParseInt(text).value + 1, width);
    }
  }

  /** Counter step on a non-negative padded count. */
  lemma BumpPad(n: nat, width: int)
    ensures Bump(Pad(n, width), width) == Some(Pad(n + 1, width))
  {
    ParseZFillStr(n, width);
  }

  /** Padded counts are distinct for distinct values. */
  lemma PadInjective(j: nat, k: nat, width: int)
    requires j != k
    ensures Pad(j, width) != Pad(k, width)
  {
    ParseZFillStr(j, width);
    ParseZFillStr(k, width);
  }

  /** Python `s.split(sep)`: the pieces between separators, always at least one. */
  function Split(s: string, sep: char): (parts: seq<string>)
    ensures |parts| >= 1
  {
    if s == [] then [""]
    else
      var rest := Split(s[1..], sep);
      if s[0] == sep then [""] + rest else [[s[0]] + rest[0]] + rest[1..]
  }

  /** Python `sep.join(parts)`. */
  function Join(parts: seq<string>, sep: char): string
  {
    if |parts| == 0 then ""
    else if |parts| == 1 then parts[0]
    else parts[0] + [sep] + Join(parts[1..], sep)
  }

  lemma {:induction false} JoinConsChar(c: char, p: string, ps: seq<string>, sep: char)
    ensures Join([[c] + p] + ps, sep) == [c] + Join([p] + ps, sep)
  {
    assert ([[c] + p] + ps)[1..] == ps;
    assert ([p] + ps)[1..] == ps;
  }

  /** Splitting and joining again gives the original string back. */
  lemma {:induction false} JoinSplit(s: string, sep: char)
    ensures Join(Split(s, sep), sep) == s
    decreases |s|
  {
    if s != [] {
      var rest := Split(s[1..], sep);
      JoinSplit(s[1..], sep);
      if s[0] == sep {
        assert ([""] + rest)[1..] == rest;
      } else {
        assert rest == [rest[0]] + rest[1..];
        JoinConsChar(s[0], rest[0], rest[1..], sep);
      }
      assert s == [s[0]] + s[1..];
    }
  }

  /** Splitting at a separator splits the two sides independently. */
  lemma {:induction false} SplitAround(a: string, b: string, sep: char)
    ensures Split(a + [sep] + b, sep) == Split(a, sep) + Split(b, sep)
    decreases |a|
  {
    var s := a + [sep] + b;
    if a == [] {
      assert s[1..] == b;
    } else {
      assert s[1..] == a[1..] + [sep] + b;
      SplitAround(a[1..], b, sep);
    }
  }

  lemma {:induction false} SplitNoSep(a: string, sep: char)
    requires sep !in a
    ensures Split(a, sep) == [a]
    decreases |a|
  {
    if a != [] {
      assert sep !in a[1..];
      SplitNoSep(a[1..], sep);
      assert a == [a[0]] + a[1..];
    }
  }

  /** Joining separator-free pieces and splitting again gives the pieces back. */
  lemma {:induction false} SplitJoin(parts: seq<string>, sep: char)
    requires |parts| >= 1
    requires forall i :: 0 <= i < |parts| ==> sep !in parts[i]
    ensures Split(Join(parts, sep), sep) == parts
    decreases |parts|
  {
    if |parts| == 1 {
      SplitNoSep(parts[0], sep);
    } else {
      SplitNoSep(parts[0], sep);
      SplitJoin(parts[1..], sep);
      SplitAround(parts[0], Join(parts[1..], sep), sep);
      assert parts == [parts[0]] + parts[1..];
    }
  }

  lemma {:induction false} JoinAppend(ps: seq<string>, x: string, sep: char)
    requires |ps| >= 1
    ensures Join(ps + [x], sep) == Join(ps, sep) + [sep] + x
    decreases |ps|
  {
    if |ps| > 1 {
      assert (ps + [x])[1..] == ps[1..] + [x];
      JoinAppend(ps[1..], x, sep);
    }
  }

  lemma CancelPrefix(c: string, x: string, y: string)
    requires c + x == c + y
    ensures x == y
  {
    assert x == (c + x)[|c|..];
    assert y == (c + y)[|c|..];
  }

  lemma CancelSuffix(a: string, b: string, e: string)
    requires a + e == b + e
    ensures a == b
  {
    assert |a| == |b|;
    assert a == (a + e)[..|a|];
    assert b == (b + e)[..|b|];
  }

  lemma SplitAt(a: string, x: string, b: string, y: string)
    requires a + x == b + y && |a| == |b|
    ensures a == b && x == y
  {
    assert a == (a + x)[..|a|];
    assert b == (b + y)[..|b|];
    CancelPrefix(a, x, y);
  }
}
