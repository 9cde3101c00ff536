/** The string operations the content script borrows from JavaScript: `String.prototype.split`
    with a one-character separator, the decimal rendering of a number inside a template
    literal, and `parseInt(s, 10)`. */
module Text {
  import opened Wrappers

  // ---------------------------------------------------------------------------------------------
  // Splitting on one character
  // ---------------------------------------------------------------------------------------------

  /** `r` is what precedes the first `sep` of `s` (all of `s` when there is none). */
  predicate IsFirstPart(s: string, sep: char, r: string) {
    r <= s && sep !in r && (|r| == |s| || s[|r|] == sep)
  }

  /** `r` is what follows the last `sep` of `s` (all of `s` when there is none). */
  predicate IsLastPart(s: string, sep: char, r: string) {
    |r| <= |s| && s[|s| - |r|..] == r && sep !in r && (|r| == |s| || s[|s| - |r| - 1] == sep)
  }

  /** `s.split(sep)`: the pieces of `s` between the occurrences of `sep`, in order. An empty
      string splits into one empty piece, and a separator at either end yields an empty piece
      there. */
  function Split(s: string, sep: char): (parts: seq<string>)
    ensures |parts| >= 1
    ensures |parts| == 1 <==> sep !in s
    ensures forall i :: 0 <= i < |parts| ==> sep !in parts[i]
    decreases |s|
  {
    if s == [] then [""]
    else
      var rest := Split(s[1..], sep);
      if s[0] == sep then [""] + rest
      else
        assert s == [s[0]] + s[1..];
        [[s[0]] + rest[0]] + rest[1..]
  }

  /** The first piece is what precedes the first separator. */
  lemma {:induction false} FirstPartOfSplit(s: string, sep: char)
    ensures IsFirstPart(s, sep, Split(s, sep)[0])
    decreases |s|
  {
    if s != [] && s[0] != sep {
      FirstPartOfSplit(s[1..], sep);
      assert s == [s[0]] + s[1..];
    }
  }

  /** The last piece is what follows the last separator. */
  lemma {:induction false} LastPartOfSplit(s: string, sep: char)
    ensures IsLastPart(s, sep, Split(s, sep)[|Split(s, sep)| - 1])
    decreases |s|
  {
    if s != [] {
      var rest := Split(s[1..], sep);
      var r := rest[|rest| - 1];
      LastPartOfSplit(s[1..], sep);
      var parts := Split(s, sep);
      if s[0] == sep {
        assert parts == [""] + rest;
        assert parts[|parts| - 1] == r;
        assert s[1..][|s| - 1 - |r|..] == s[|s| - |r|..];
      } else if |rest| == 1 {
        assert sep !in s[1..];
        assert r == s[1..];
        assert parts == [[s[0]] + r];
        assert s == [s[0]] + s[1..];
      } else {
        assert parts == [[s[0]] + rest[0]] + rest[1..];
        assert parts[|parts| - 1] == r;
        assert sep in s[1..];
        assert |r| < |s| - 1;
        assert s[1..][|s| - 1 - |r|..] == s[|s| - |r|..];
        assert s[1..][|s| - 1 - |r| - 1] == s[|s| - |r| - 1];
      }
    }
  }

  /** `parts.join(sep)`. */
  function Join(parts: seq<string>, sep: char): string
    requires |parts| >= 1
    decreases |parts|
  {
    if |parts| == 1 then parts[0] else parts[0] + [sep] + Join(parts[1..], sep)
  }

  /** Splitting loses nothing: joining the pieces back with the separator gives the string. */
  lemma {:induction false} JoinSplit(s: string, sep: char)
    ensures Join(Split(s, sep), sep) == s
    decreases |s|
  {
    if s != [] {
      var rest := Split(s[1..], sep);
      JoinSplit(s[1..], sep);
      var parts := Split(s, sep);
      if s[0] == sep {
        assert parts[1..] == rest;
        assert s == [sep] + s[1..];
      } else {
        assert parts == [[s[0]] + rest[0]] + rest[1..];
        if |rest| > 1 {
          assert parts[1..] == rest[1..];
          assert Join(rest, sep) == rest[0] + [sep] + Join(rest[1..], sep);
        }
        assert s == [s[0]] + s[1..];
      }
    }
  }

  /** Two strings that both satisfy `IsFirstPart` for the same input are equal, so the
      predicate pins down the first piece completely. */
  lemma FirstPartUnique(s: string, sep: char, r1: string, r2: string)
    requires IsFirstPart(s, sep, r1) && IsFirstPart(s, sep, r2)
    ensures r1 == r2
  {
    if |r1| != |r2| {
      assert false;
    }
  }

  /** Likewise `IsLastPart` pins down the last piece. */
  lemma LastPartUnique(s: string, sep: char, r1: string, r2: string)
    requires IsLastPart(s, sep, r1) && IsLastPart(s, sep, r2)
    ensures r1 == r2
  {
    if |r1| != |r2| {
      assert false;
    }
  }

  // ---------------------------------------------------------------------------------------------
  // Decimal digits
  // ---------------------------------------------------------------------------------------------

  /** The characters `\d` matches in a JavaScript regular expression, and the digits
      `parseInt(_, 10)` accepts: ASCII `0` to `9`. */
  predicate IsDigit(c: char) {
    '0' <= c <= '9'
  }

  predicate AllDigits(s: string) {
    forall i :: 0 <= i < |s| ==> IsDigit(s[i])
  }

  function DigitValue(c: char): nat
    requires IsDigit(c)
  {
    c as int - '0' as int
  }

  function DigitChar(d: nat): (c: char)
    requires d < 10
    ensures IsDigit(c) && DigitValue(c) == d
  {
    ('0' as int + d) as char
  }

  /** The text `${n}` produces for a non-negative integer `n`: its decimal digits, most
      significant first, with no leading zero. */
  function NatToString(n: nat): (s: string)
    ensures |s| >= 1 && AllDigits(s)
    ensures s[0] == '0' ==> n == 0
    decreases n
  {
    if n < 10 then [DigitChar(n)] else NatToString(n / 10) + [DigitChar(n % 10)]
  }

  /** The number a non-empty run of decimal digits denotes (0 for no digits). */
  function DigitsValue(ds: string): nat
    requires AllDigits(ds)
    decreases |ds|
  {
    if ds == [] then 0 else DigitsValue(ds[..|ds| - 1]) * 10 + DigitValue(ds[|ds| - 1])
  }

  /** Reading the digits of `NatToString(n)` gives `n` back. */
  lemma {:induction false} DigitsValueOfNatToString(n: nat)
    ensures DigitsValue(NatToString(n)) == n
    decreases n
  {
    if n >= 10 {
      var s := NatToString(n);
      DigitsValueOfNatToString(n / 10);
      assert s[..|s| - 1] == NatToString(n / 10);
    }
  }

  /** The length of the run of decimal digits at the start of `s`. */
  function DigitRun(s: string): (n: nat)
    ensures n <= |s| && AllDigits(s[..n])
    ensures n == |s| || !IsDigit(s[n])
    decreases |s|
  {
    if s == [] || !IsDigit(s[0]) then 0 else 1 + DigitRun(s[1..])
  }

  // ---------------------------------------------------------------------------------------------
  // parseInt(s, 10)
  // ---------------------------------------------------------------------------------------------

  /** The characters `parseInt` skips before the number: ECMAScript's WhiteSpace (tab,
      vertical tab, form feed, space, no-break space, byte order mark and the other
      space separators) and LineTerminator (line feed, carriage return, U+2028, U+2029). */
  predicate IsJsSpace(c: char) {
    c in {'\t', '\n', '\U{B}', '\U{C}', '\r', ' ', '\U{A0}', '\U{1680}', '\U{2028}', '\U{2029}',
          '\U{202F}', '\U{205F}', '\U{3000}', '\U{FEFF}'}
    || ('\U{2000}' <= c <= '\U{200A}')
  }

  function TrimStart(s: string): (t: string)
    ensures t <= s || (|t| <= |s| && t == s[|s| - |t|..])
    ensures t == [] || !IsJsSpace(t[0])
    decreases |s|
  {
    if s != [] && IsJsSpace(s[0]) then TrimStart(s[1..]) else s
  }

  /** What follows an optional leading `+` or `-`. */
  function Unsigned(t: string): (b: string)
    ensures b == t || (|t| > 0 && (t[0] == '-' || t[0] == '+') && b == t[1..])
  {
    if |t| > 0 && (t[0] == '-' || t[0] == '+') then t[1..] else t
  }

  /** `parseInt(s, 10)`: after leading white space and an optional sign, the longest run of
      decimal digits; `None` stands for `NaN`, the result when there is no digit there. */
  function ParseInt(s: string): (r: Option<int>)
    ensures var b := Unsigned(TrimStart(s));
            r.None? <==> b == [] || !IsDigit(b[0])
    ensures var t := TrimStart(s);
            var b := Unsigned(t);
            r.Some? ==> exists n :: 0 < n <= |b| && AllDigits(b[..n]) && (n == |b| || !IsDigit(b[n])) &&
                                    r.value == (if t[0] == '-' then -(DigitsValue(b[..n]) as int) else DigitsValue(b[..n]))
  {
    ParseTrimmed(TrimStart(s))
  }

  /** The number read from text whose leading white space is already skipped. */
  function ParseTrimmed(t: string): Option<int> {
    var negative := |t| > 0 && t[0] == '-';
    var body := Unsigned(t);
    var n := DigitRun(body);
    if n == 0 then None
    else
      var v: int := DigitsValue(body[..n]);
      Some(if negative then -v else v)
  }

  /** Leading white space does not change what `parseInt` reads. */
  lemma ParseIntSkipsSpace(c: char, s: string)
    requires IsJsSpace(c)
    ensures ParseInt([c] + s) == ParseInt(s)
  {
    calc {
      ParseInt([c] + s);
      ParseTrimmed(TrimStart([c] + s));
      { TrimStartSkipsSpace(c, s); }
      ParseTrimmed(TrimStart(s));
      ParseInt(s);
    }
  }

  lemma TrimStartSkipsSpace(c: char, s: string)
    requires IsJsSpace(c)
    ensures TrimStart([c] + s) == TrimStart(s)
  {
    assert ([c] + s)[1..] == s;
  }

  /** A number written into markup with `${n}` is read back unchanged by `parseInt(_, 10)`. */
  lemma ParseIntOfNatToString(n: nat)
    ensures ParseInt(NatToString(n)) == Some(n)
  {
    var s := NatToString(n);
    assert !IsJsSpace(s[0]) && s[0] != '-' && s[0] != '+';
    assert TrimStart(s) == s;
    DigitRunAllDigits(s);
    assert s[..|s|] == s;
    DigitsValueOfNatToString(n);
  }

  lemma {:induction false} DigitRunAllDigits(s: string)
    requires AllDigits(s)
    ensures DigitRun(s) == |s|
    decreases |s|
  {
    if s != [] {
      DigitRunAllDigits(s[1..]);
    }
  }
}
