/** Bytes and hexadecimal text: the `x2` and `x8` number formats the dump
    prints, and `Convert.ToByte(token, 16)`, which the reverter parses with. */
module Hex {
  import opened Wrappers

  /** An octet; `byte` in the original program. */
  type byte = x: int | 0 <= x < 256

  function Pow16(n: nat): (p: nat)
    ensures p > 0
  {
    if n == 0 then 1 else 16 * Pow16(n - 1)
  }

  /** The lowercase hexadecimal digit for `d`. */
  function HexDigit(d: int): (c: char)
    requires 0 <= d < 16
    ensures IsLowerHexDigit(c)
    ensures DigitValue(c) == Some(d)
  {
    if d < 10 then ('0' as int + d) as char else ('a' as int + d - 10) as char
  }

  predicate IsLowerHexDigit(c: char) {
    '0' <= c <= '9' || 'a' <= c <= 'f'
  }

  /** The value of a hexadecimal digit of either case, `None` for any other character. */
  function DigitValue(c: char): (r: Option<nat>)
    ensures r.Some? ==> r.value < 16
  {
    if '0' <= c <= '9' then Some(c as int - '0' as int)
    else if 'a' <= c <= 'f' then Some(c as int - 'a' as int + 10)
    else if 'A' <= c <= 'F' then Some(c as int - 'A' as int + 10)
    else None
  }

  predicate IsHexDigits(s: string) {
    forall k | 0 <= k < |s| :: DigitValue(s[k]).Some?
  }

  /** The number a string of hexadecimal digits denotes, most significant digit first. */
  function DigitsValue(s: string): (v: nat)
    requires IsHexDigits(s)
    ensures v < Pow16(|s|)
  {
    if |s| == 0 then 0 else DigitsValue(s[..|s| - 1]) * 16 + DigitValue(s[|s| - 1]).value
  }

  /** The low `width` hexadecimal digits of `n`, zero-padded on the left. */
  function FixedHex(n: nat, width: nat): (r: string)
    ensures |r| == width
    ensures forall k | 0 <= k < |r| :: IsLowerHexDigit(r[k])
    ensures IsHexDigits(r)
    ensures n < Pow16(width) ==> DigitsValue(r) == n
  {
    if width == 0 then []
    else
      var r := FixedHex(n / 16, width - 1) + [HexDigit(n % 16)];
      assert r[..|r| - 1] == FixedHex(n / 16, width - 1);
      r
  }

  /** The number of hexadecimal digits `n` needs (at least one). */
  function HexWidth(n: nat): (w: nat)
    ensures 1 <= w && n < Pow16(w)
    ensures w > 1 ==> Pow16(w - 1) <= n
  {
    if n < 16 then 1 else 1 + HexWidth(n / 16)
  }

  /** `b.ToString("x2")` (the `{b:x2}` interpolation): exactly two lowercase
      digits that denote `b`. */
  function Hex2(b: byte): (r: string)
    ensures |r| == 2
    ensures forall k | 0 <= k < 2 :: IsLowerHexDigit(r[k])
    ensures IsHexDigits(r) && DigitsValue(r) == b
  {
    FixedHex(b, 2)
  }

  /** `n.ToString("x8")`: the lowercase hexadecimal digits of `n`, zero-padded
      to at least eight; exactly eight for every 32-bit value. */
  function HexLabel(n: nat): (r: string)
    ensures |r| >= 8
    ensures forall k | 0 <= k < |r| :: IsLowerHexDigit(r[k])
    ensures IsHexDigits(r) && DigitsValue(r) == n
    ensures n < 0x1_0000_0000 ==> |r| == 8
  {
    var w := HexWidth(n);
    if w <= 8 then
      FixedHex(n, 8)
    else
      Pow16Monotonic(8, w - 1);
      FixedHex(n, w)
  }

  lemma {:induction false} Pow16Monotonic(a: nat, b: nat)
    requires a <= b
    ensures Pow16(a) <= Pow16(b)
    decreases b - a
  {
    if a < b {
      Pow16Monotonic(a, b - 1);
    }
  }

  /** The length of the run of hexadecimal digits at the start of `s`. */
  function HexRun(s: string): (n: nat)
    ensures n <= |s| && IsHexDigits(s[..n])
    ensures n < |s| ==> DigitValue(s[n]).None?
  {
    if |s| == 0 || DigitValue(s[0]).None? then 0
    else
      var n := 1 + HexRun(s[1..]);
      assert forall k | 1 <= k < n :: s[..n][k] == s[1..][..n - 1][k - 1];
      n
  }

  /** A prefix of a string of digits denotes at most what the whole does. */
  lemma {:induction false} DigitsValuePrefix(t: string, j: nat)
    requires IsHexDigits(t) && j <= |t|
    ensures IsHexDigits(t[..j]) && DigitsValue(t[..j]) <= DigitsValue(t)
    decreases |t| - j
  {
    if j < |t| {
      var init := t[..|t| - 1];
      assert init[..j] == t[..j];
      DigitsValuePrefix(init, j);
    } else {
      assert t[..j] == t;
    }
  }

  /** `GrabInts` for base 16 and an unsigned result: reads the digits of `s`
      from index `i` on top of `acc`, and throws (`None`) when a further digit
      arrives while the value so far exceeds `0xFFFFFFFF / 16`. The result is
      the value and the index after the last digit read. */
  function GrabHex(s: string, i: nat, acc: nat): (r: Option<(nat, nat)>)
    requires i <= |s|
    decreases |s| - i
  {
    if i == |s| || DigitValue(s[i]).None? then Some((acc, i))
    else if acc > 0xFFFF_FFFF / 16 then None
    else GrabHex(s, i + 1, acc * 16 + DigitValue(s[i]).value)
  }

  /** One more digit of the run multiplies the value so far by 16 and adds
      the digit, and stays within the value of the whole run. */
  lemma RunStep(s: string, k: nat)
    requires k < HexRun(s)
    ensures IsHexDigits(s[..k]) && IsHexDigits(s[..k + 1]) && DigitValue(s[k]).Some?
    ensures DigitsValue(s[..k + 1]) == DigitsValue(s[..k]) * 16 + DigitValue(s[k]).value
    ensures DigitsValue(s[..k + 1]) <= DigitsValue(s[..HexRun(s)])
  {
    var n := HexRun(s);
    assert s[..n][k] == s[k];
    assert s[..n][..k + 1] == s[..k + 1];
    assert s[..k + 1][..k] == s[..k];
    DigitsValuePrefix(s[..n], k + 1);
    DigitsValuePrefix(s[..k + 1], k);
  }

  /** Resumed after `k` digits of the run, with their value as the
      accumulator, the digit loop throws exactly when the value of the whole
      run does not fit in 32 bits, and otherwise stops at the end of the run. */
  lemma {:induction false} GrabHexFrom(s: string, k: nat)
    requires k <= HexRun(s) && IsHexDigits(s[..k]) && DigitsValue(s[..k]) <= 0xFFFF_FFFF
    ensures var n := HexRun(s); var v := DigitsValue(s[..n]);
      GrabHex(s, k, DigitsValue(s[..k])) == if v <= 0xFFFF_FFFF then Some((v, n)) else None
    decreases |s| - k
  {
    var n := HexRun(s);
    var acc := DigitsValue(s[..k]);
    if k == n {
      assert GrabHex(s, k, acc) == Some((acc, k));
    } else {
      RunStep(s, k);
      var d := DigitValue(s[k]).value;
      if acc <= 0xFFFF_FFFF / 16 {
        assert GrabHex(s, k, acc) == GrabHex(s, k + 1, acc * 16 + d);
        GrabHexFrom(s, k + 1);
      } else {
        assert GrabHex(s, k, acc) == None;
      }
    }
  }

  /** The digit loop throws exactly when the value of the whole run of digits
      does not fit in 32 bits; otherwise it stops at the end of the run. */
  lemma GrabHexValue(s: string)
    ensures var n := HexRun(s); var v := DigitsValue(s[..n]);
      GrabHex(s, 0, 0) == if v <= 0xFFFF_FFFF then Some((v, n)) else None
  {
    assert s[..0] == [];
    GrabHexFrom(s, 0);
  }

  /** Where `ParseNumbers.StringToInt` starts reading digits: after an optional
      `+` and then an optional `0x` or `0X`, which it takes only when a
      character follows the `0`. */
  function DigitsStart(s: string): (i: nat)
    ensures i <= |s|
  {
    var i := if |s| > 0 && s[0] == '+' then 1 else 0;
    if i + 1 < |s| && s[i] == '0' && (s[i + 1] == 'x' || s[i + 1] == 'X') then i + 2 else i
  }

  /** What is skipped before the digits is nothing, a `+`, a `0x` or `0X`
      prefix, or a `+` and a prefix. */
  lemma DigitsStartSkips(s: string)
    ensures var i := DigitsStart(s);
      i == 0 || s[..i] == "+" || s[..i] == "0x" || s[..i] == "0X" || s[..i] == "+0x" || s[..i] == "+0X"
  {
    var i := DigitsStart(s);
    var j := if |s| > 0 && s[0] == '+' then 1 else 0;
    assert j == 1 ==> s[..j] == "+";
    if i == j + 2 {
      assert s[..i] == s[..j] + [s[j], s[j + 1]];
    }
  }

  /** The exceptions `Convert.ToByte(token, 16)` throws: `Empty` and
      `Negative` are the `ArgumentOutOfRangeException` and `ArgumentException`
      of an empty string and of a leading minus sign, `NotHexadecimal` the
      `FormatException` of a string without digits or with characters after
      them, `Overflow` the `OverflowException` of a value beyond 32 bits or
      beyond a byte. */
  datatype ByteError = Empty | Negative | NotHexadecimal | Overflow

  /** The part of `ParseNumbers.StringToInt` after the sign and the prefix:
      the digit loop, the check that no character follows the digits, and
      then `Convert.ToByte`'s range check. */
  function ReadDigits(d: string): (r: Result<byte, ByteError>)
    ensures r.Success? <==> |d| > 0 && IsHexDigits(d) && DigitsValue(d) < 256
    ensures r.Success? ==> r.value == DigitsValue(d)
    ensures r == Failure(Overflow) <==>
      var n := HexRun(d); n > 0 && (DigitsValue(d[..n]) > 0xFFFF_FFFF || (n == |d| && DigitsValue(d[..n]) > 0xFF))
    ensures r.Failure? ==> r.error == NotHexadecimal || r.error == Overflow
  {
    GrabHexValue(d);
    assert d[..|d|] == d;
    match GrabHex(d, 0, 0)
    case None => Failure(Overflow)
    case Some(p) =>
      if p.1 == 0 || p.1 < |d| then Failure(NotHexadecimal)
      else if p.0 > 0xFF then Failure(Overflow)
      else Success(p.0)
  }

  /** `Convert.ToByte(s, 16)`: `ParseNumbers.StringToInt` with the tight and
      unsigned flags, followed by the byte range check. */
  function ToByte(s: string): (r: Result<byte, ByteError>)
    ensures r == Failure(Empty) <==> |s| == 0
    ensures r == Failure(Negative) <==> |s| > 0 && s[0] == '-'
  {
    if |s| == 0 then Failure(Empty)
    else if s[0] == '-' then
      assert DigitsStart(s) == 0;
      Failure(Negative)
    else ReadDigits(s[DigitsStart(s)..])
  }

  /** A token reads as a byte exactly when, after the sign and prefix, it is
      a non-empty string of digits whose value fits in a byte; the byte is
      that value. */
  lemma ToByteSuccess(s: string)
    ensures var d := s[DigitsStart(s)..];
      ToByte(s).Success? <==> |d| > 0 && IsHexDigits(d) && DigitsValue(d) < 256
    ensures ToByte(s).Success? ==> ToByte(s).value == DigitsValue(s[DigitsStart(s)..])
  {
    if |s| > 0 && s[0] == '-' {
      assert DigitsStart(s) == 0 && DigitValue(s[0]).None?;
    }
  }

  /** The two overflows: a run of digits beyond 32 bits, whatever follows it,
      and a well-formed token whose value is beyond a byte. */
  lemma ToByteOverflow(s: string)
    ensures ToByte(s) == Failure(Overflow) <==>
      var d := s[DigitsStart(s)..]; var n := HexRun(d);
      n > 0 && (DigitsValue(d[..n]) > 0xFFFF_FFFF || (n == |d| && DigitsValue(d[..n]) > 0xFF))
  {
    if |s| > 0 && s[0] == '-' {
      assert DigitsStart(s) == 0 && HexRun(s) == 0;
    }
  }

  /** A string of digits has no sign and no `0x` prefix. */
  lemma DigitsStartOfDigits(t: string, junk: string)
    requires |t| > 0 && IsHexDigits(t)
    requires |t| > 1 || |junk| == 0 || (junk[0] != 'x' && junk[0] != 'X')
    ensures DigitsStart(t + junk) == 0 && (t + junk)[0] != '-'
  {
    var s := t + junk;
    assert DigitValue(t[0]).Some?;
    if |t| > 1 {
      assert s[1] == t[1] && DigitValue(t[1]).Some?;
    }
  }

  /** A token of digits alone reads as its value, or overflows. */
  lemma ToByteDigits(s: string)
    requires |s| > 0 && IsHexDigits(s)
    ensures ToByte(s) == if DigitsValue(s) < 256 then Success(DigitsValue(s)) else Failure(Overflow)
  {
    DigitsStartOfDigits(s, "");
    assert s + "" == s;
    HexRunPrefix(s, |s|);
    assert s[..|s|] == s;
    assert s[0..] == s;
  }

  /** A `+` sign, a `0x` or `0X` prefix, or both, in front of the digits
      change nothing. */
  lemma ToBytePrefixed(prefix: string, t: string)
    requires prefix == "+" || prefix == "0x" || prefix == "0X" || prefix == "+0x" || prefix == "+0X"
    requires |t| > 0 && IsHexDigits(t)
    ensures ToByte(prefix + t) == ToByte(t)
  {
    var s := prefix + t;
    DigitsStartOfDigits(t, "");
    assert t + "" == t;
    assert t[0..] == t;
    assert s[0] == prefix[0];
    assert DigitsStart(s) == |prefix| by {
      if prefix == "+" {
        assert s[1] == t[0];
        if |t| > 1 {
          assert s[2] == t[1] && DigitValue(t[1]).Some?;
        }
      } else if prefix == "+0x" || prefix == "+0X" {
        assert s[1] == '0' && s[2] == prefix[2];
      } else {
        assert s[1] == prefix[1];
      }
    }
    assert s[|prefix|..] == t;
  }

  /** Characters after a run of digits that fits in 32 bits make the token
      malformed, whatever the value of the digits. */
  lemma ToByteTrailing(t: string, junk: string)
    requires |t| > 0 && IsHexDigits(t) && DigitsValue(t) <= 0xFFFF_FFFF
    requires |junk| > 0 && DigitValue(junk[0]).None?
    requires |t| > 1 || (junk[0] != 'x' && junk[0] != 'X')
    ensures ToByte(t + junk) == Failure(NotHexadecimal)
  {
    var s := t + junk;
    DigitsStartOfDigits(t, junk);
    assert s[0..] == s;
    HexRunPrefix(s, |t|);
    assert s[..|t|] == t;
  }

  /** A run of digits beyond 32 bits overflows before the characters after it
      are looked at: `123456789z` is an overflow, not a malformed token. */
  lemma ToByteLongRun(t: string, junk: string)
    requires |t| > 0 && IsHexDigits(t) && DigitsValue(t) > 0xFFFF_FFFF
    requires |junk| == 0 || DigitValue(junk[0]).None?
    ensures ToByte(t + junk) == Failure(Overflow)
  {
    var s := t + junk;
    assert |t| > 1;
    DigitsStartOfDigits(t, junk);
    assert s[0..] == s;
    HexRunPrefix(s, |t|);
    assert s[..|t|] == t;
  }

  /** `HexRun` is the length of a digit prefix followed by a non-digit or the end. */
  lemma {:induction false} HexRunPrefix(s: string, n: nat)
    requires n <= |s| && IsHexDigits(s[..n])
    requires n == |s| || DigitValue(s[n]).None?
    ensures HexRun(s) == n
  {
    if n > 0 {
      assert s[..n][0] == s[0];
      assert s[1..][..n - 1] == s[..n][1..];
      HexRunPrefix(s[1..], n - 1);
    }
  }

  /** Reading back the two digits printed for a byte gives the byte. */
  lemma ToByteHex2(b: byte)
    ensures ToByte(Hex2(b)) == Success(b)
  {
    ToByteDigits(Hex2(b));
  }

  /** Two bytes printed without a separator read back as one token: its value
      is `256 * a + b`, so it overflows whenever `a` is not zero. */
  lemma ToByteOfTwoBytes(a: byte, b: byte)
    ensures ToByte(Hex2(a) + Hex2(b)) == if a == 0 then Success(b) else Failure(Overflow)
  {
    var s := Hex2(a) + Hex2(b);
    assert s[..3][..2] == Hex2(a);
    assert s[..3] == Hex2(a) + [s[2]];
    assert s[..|s| - 1] == s[..3];
    assert DigitsValue(s[..3]) == a * 16 + DigitValue(s[2]).value;
    assert Hex2(b)[..1] == [s[2]];
    assert b == DigitValue(s[2]).value * 16 + DigitValue(s[3]).value;
    assert DigitsValue(s) == a * 256 + b;
    ToByteDigits(s);
  }
}
