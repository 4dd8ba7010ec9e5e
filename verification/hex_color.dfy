/** The persisted form of a packed ARGB colour: eight upper-case hex
    digits when written, any base-16 `u32` literal when read. */
module HexColor {
  import opened Wrappers
  import opened Ints

  /** Why a string is not a base-16 `u32`, as the standard library's
      integer parser reports it. */
  datatype ParseError = Empty | InvalidDigit | PosOverflow

  predicate IsHexDigit(c: char)
  {
    '0' <= c <= '9' || 'a' <= c <= 'f' || 'A' <= c <= 'F'
  }

  predicate IsUpperHexDigit(c: char)
  {
    '0' <= c <= '9' || 'A' <= c <= 'F'
  }

  predicate AllHex(s: string)
  {
    forall i | 0 <= i < |s| :: IsHexDigit(s[i])
  }

  /** The value of a base-16 digit, in either case. */
  function DigitValue(c: char): (d: Option<nat>)
    ensures d.Some? <==> IsHexDigit(c)
    ensures d.Some? ==> d.value < 16
  {
    if '0' <= c <= '9' then Some(c as int - '0' as int)
    else if 'a' <= c <= 'f' then Some(c as int - 'a' as int + 10)
    else if 'A' <= c <= 'F' then Some(c as int - 'A' as int + 10)
    else None
  }

  /** The upper-case digit of value `d`. */
  function HexDigit(d: nat): (c: char)
    requires d < 16
    ensures IsUpperHexDigit(c) && DigitValue(c) == Some(d)
  {
    if d < 10 then ('0' as int + d) as char else ('A' as int + d - 10) as char
  }

  /** The number a string of hex digits denotes, most significant first. */
  function HexValue(s: string): nat
    requires AllHex(s)
  {
    if |s| == 0 then 0 else 16 * HexValue(s[..|s| - 1]) + DigitValue(s[|s| - 1]).value
  }

  function Pow16(k: nat): (p: nat)
    ensures p >= 1
  {
    if k == 0 then 1 else 16 * Pow16(k - 1)
  }

  /** `n` as exactly `width` upper-case hex digits, zero-padded: the
      digits are worth `n` modulo `16^width`, so only the low digits of a
      wider number are kept. */
  function ToHex(n: nat, width: nat): (s: string)
    ensures |s| == width && forall i | 0 <= i < |s| :: IsUpperHexDigit(s[i])
    ensures AllHex(s) && HexValue(s) == n % Pow16(width)
  {
    if width == 0 then ""
    else
      var high := ToHex(n / 16, width - 1);
      var s := high + [HexDigit(n % 16)];
      assert s[..|s| - 1] == high;
      LowDigits(n, Pow16(width - 1));
      s
  }

  /** Dropping the last hex digit and keeping `k` digits of the rest keeps
      `k + 1` digits of the whole. */
  lemma LowDigits(n: nat, p: nat)
    requires p > 0
    ensures n % (16 * p) == 16 * ((n / 16) % p) + n % 16
  {
    var q, d := n / 16, n % 16;
    var high, low := q / p, q % p;
    assert n == 16 * p * high + (16 * low + d) by {
      assert n == 16 * q + d;
      assert q == p * high + low;
    }
    assert 0 <= 16 * low + d < 16 * p;
    DivUnique(n, 16 * p, high, 16 * low + d);
  }

  lemma DivUnique(n: nat, m: nat, k: nat, t: nat)
    requires m > 0 && n == m * k + t && t < m
    ensures n % m == t
  {
    var k', t' := n / m, n % m;
    assert m * (k - k') == t' - t;
    if k > k' {
      assert m * (k - k') >= m by { MulAtLeast(m, k - k'); }
    } else if k < k' {
      assert m * (k' - k) >= m by { MulAtLeast(m, k' - k); }
    }
  }

  lemma MulAtLeast(x: nat, y: nat)
    requires y >= 1
    ensures x * y >= x
  {
    assert x * y == x * (y - 1) + x;
  }

  /** Write a colour as `{color:08X}` does: eight upper-case hex digits. */
  function Serialize(color: u32): (s: string)
    ensures |s| == 8 && forall i | 0 <= i < |s| :: IsUpperHexDigit(s[i])
  {
    ToHex(color as nat, 8)
  }

  /** The digit loop of the parser, from position `i` with the value of
      the digits before it in `acc`. At each digit it first rejects a
      character that is not a digit, then a multiply or add that would
      pass `u32::MAX`. */
  function ParseFrom(digits: string, i: nat, acc: u32): Result<u32, ParseError>
    requires i <= |digits|
    decreases |digits| - i
  {
    if i == |digits| then Success(acc)
    else
      var d := DigitValue(digits[i]);
      if d.None? then Failure(InvalidDigit)
      else if acc as int * 16 >= U32_LIMIT then Failure(PosOverflow)
      else if acc as int * 16 + d.value >= U32_LIMIT then Failure(PosOverflow)
      else ParseFrom(digits, i + 1, (acc as int * 16 + d.value) as u32)
  }

  /** The digits of a literal: everything after one optional leading `+`. */
  function Digits(s: string): string
  {
    if |s| > 0 && s[0] == '+' then s[1..] else s
  }

  /** `u32::from_str_radix(s, 16)`: the empty string and a lone sign are
      rejected, a leading `+` is skipped, and a `-` is an invalid digit for
      an unsigned type. */
  function Deserialize(s: string): (r: Result<u32, ParseError>)
    ensures s == "+" || s == "-" ==> r == Failure(InvalidDigit)
    ensures r == Failure(InvalidDigit) ==> s != "" && !WellFormed(s)
    ensures WellFormed(s) && HexValue(Digits(s)) >= U32_LIMIT ==> r == Failure(PosOverflow)
  {
    if |s| == 0 then Failure(Empty)
    else if (s[0] == '+' || s[0] == '-') && |s| == 1 then Failure(InvalidDigit)
    else
      assert Digits(s)[..0] == "";
      ParseFromValue(Digits(s), 0, 0);
      ParseFromErrors(Digits(s), 0, 0);
      ParseFrom(Digits(s), 0, 0)
  }

  /** On a string of digits the loop can only succeed or overflow. */
  lemma {:induction false} ParseFromErrors(digits: string, i: nat, acc: u32)
    requires i <= |digits|
    ensures AllHex(digits) ==> ParseFrom(digits, i, acc).Success? || ParseFrom(digits, i, acc) == Failure(PosOverflow)
    decreases |digits| - i
  {
    if i < |digits| {
      var d := DigitValue(digits[i]);
      if d.Some? && acc as int * 16 + d.value < U32_LIMIT {
        ParseFromErrors(digits, i + 1, (acc as int * 16 + d.value) as u32);
      }
    }
  }

  /** A prefix of a digit string is worth no more than the string. */
  lemma {:induction false} PrefixNoLarger(s: string, i: nat)
    requires AllHex(s) && i <= |s|
    ensures AllHex(s[..i]) && HexValue(s[..i]) <= HexValue(s)
    decreases |s| - i
  {
    if i < |s| {
      var t := s[..|s| - 1];
      assert t[..] == s[..|s| - 1];
      assert AllHex(t);
      PrefixNoLarger(t, i);
      assert t[..i] == s[..i];
    } else {
      assert s[..i] == s;
    }
  }

  /** From any position, the digit loop succeeds exactly when the whole
      string is digits worth at most `u32::MAX`, and then yields that
      value. */
  lemma {:induction false} ParseFromValue(digits: string, i: nat, acc: u32)
    requires i <= |digits| && AllHex(digits[..i]) && acc as int == HexValue(digits[..i])
    ensures var r := ParseFrom(digits, i, acc);
            (r.Success? <==> AllHex(digits) && HexValue(digits) < U32_LIMIT) &&
            (r.Success? ==> r.value as int == HexValue(digits))
    decreases |digits| - i
  {
    if i < |digits| {
      var next := digits[..i + 1];
      assert next[..i] == digits[..i];
      if DigitValue(digits[i]).Some? {
        assert AllHex(next);
        assert HexValue(next) == 16 * acc as int + DigitValue(digits[i]).value;
        if AllHex(digits) {
          PrefixNoLarger(digits, i + 1);
        }
        if acc as int * 16 + DigitValue(digits[i]).value < U32_LIMIT {
          ParseFromValue(digits, i + 1, (acc as int * 16 + DigitValue(digits[i]).value) as u32);
        }
      }
    } else {
      assert digits[..i] == digits;
    }
  }

  /** A literal is well formed when, after the optional `+`, it is one or
      more hex digits of either case. */
  predicate WellFormed(s: string)
  {
    |Digits(s)| > 0 && AllHex(Digits(s))
  }

  /** Reading succeeds exactly on well-formed literals worth at most
      `u32::MAX`, and yields their value; only the empty string is reported
      as empty. */
  lemma DeserializeValue(s: string)
    ensures Deserialize(s).Success? <==> WellFormed(s) && HexValue(Digits(s)) < U32_LIMIT
    ensures Deserialize(s).Success? ==> Deserialize(s).value as int == HexValue(Digits(s))
    ensures Deserialize(s) == Failure(Empty) <==> s == ""
  {
    if |s| > 0 && !((s[0] == '+' || s[0] == '-') && |s| == 1) {
      assert Digits(s)[..0] == "";
      ParseFromValue(Digits(s), 0, 0);
      assert ParseFrom(Digits(s), 0, 0) != Failure(Empty) by {
        EmptyNeverFromDigits(Digits(s), 0, 0);
      }
    }
  }

  /** The digit loop never reports an empty string. */
  lemma {:induction false} EmptyNeverFromDigits(digits: string, i: nat, acc: u32)
    requires i <= |digits|
    ensures ParseFrom(digits, i, acc) != Failure(Empty)
    decreases |digits| - i
  {
    if i < |digits| {
      var d := DigitValue(digits[i]);
      if d.Some? && acc as int * 16 + d.value < U32_LIMIT {
        EmptyNeverFromDigits(digits, i + 1, (acc as int * 16 + d.value) as u32);
      }
    }
  }

  /** Zero-padded hex digits are worth the number they were written from. */
  lemma {:induction false} ToHexValue(n: nat, width: nat)
    requires n < Pow16(width)
    ensures AllHex(ToHex(n, width)) && HexValue(ToHex(n, width)) == n
  {
    if width > 0 {
      ToHexValue(n / 16, width - 1);
      var s := ToHex(n, width);
      assert s[..|s| - 1] == ToHex(n / 16, width - 1);
    }
  }

  /** Upper-case digits are written back exactly from their value. */
  lemma {:induction false} HexValueToHex(s: string)
    requires forall i | 0 <= i < |s| :: IsUpperHexDigit(s[i])
    ensures AllHex(s) && HexValue(s) < Pow16(|s|) && ToHex(HexValue(s), |s|) == s
  {
    if |s| > 0 {
      var t := s[..|s| - 1];
      HexValueToHex(t);
      var d := DigitValue(s[|s| - 1]).value;
      assert HexValue(s) / 16 == HexValue(t) && HexValue(s) % 16 == d;
      assert HexDigit(d) == s[|s| - 1];
      assert s == t + [s[|s| - 1]];
    }
  }

  /** Reading back a written colour gives the colour. */
  lemma SerializeRoundTrip(color: u32)
    ensures Deserialize(Serialize(color)) == Success(color)
  {
    assert Pow16(8) == U32_LIMIT;
    ToHexValue(color as nat, 8);
    DeserializeValue(Serialize(color));
  }

  /** Writing a read colour gives back any eight-digit upper-case literal:
      the written form is the only canonical one. */
  lemma CanonicalRoundTrip(s: string)
    requires |s| == 8 && forall i | 0 <= i < |s| :: IsUpperHexDigit(s[i])
    ensures Deserialize(s).Success? && Serialize(Deserialize(s).value) == s
  {
    assert Pow16(8) == U32_LIMIT;
    HexValueToHex(s);
    DeserializeValue(s);
  }

  /** The default colour is written as `B2FF0000`. */
  lemma SerializeExample()
    ensures Serialize(0xB2FF0000) == "B2FF0000"
  {
    assert Deserialize("B2FF0000") == Success(0xB2FF0000);
    CanonicalRoundTrip("B2FF0000");
  }

  /** Lower case, a `+` and fewer than eight digits are read. */
  lemma DeserializeAccepts()
    ensures Deserialize("b2ff0000") == Success(0xB2FF0000)
    ensures Deserialize("+FF") == Success(0xFF)
  {
  }

  /** Leading zeros are read, even past eight digits. */
  lemma DeserializeLeadingZeros()
    ensures Deserialize("0000000FF") == Success(0xFF)
  {
    var s := "0000000FF";
    assert Digits(s) == s;
    ZerosSkipped(s, 7);
    assert ParseFrom(s, 7, 0) == Success(0xFF);
  }

  /** Leading zeros leave the accumulated value at zero. */
  lemma {:induction false} ZerosSkipped(digits: string, i: nat)
    requires i <= |digits| && forall j | 0 <= j < i :: digits[j] == '0'
    ensures ParseFrom(digits, 0, 0) == ParseFrom(digits, i, 0)
  {
    if i > 0 {
      ZerosSkipped(digits, i - 1);
    }
  }

  /** A `-`, a value past `u32::MAX` and the empty string are not. */
  lemma DeserializeRejects()
    ensures Deserialize("-1") == Failure(InvalidDigit)
    ensures Deserialize("100000000") == Failure(PosOverflow)
    ensures Deserialize("") == Failure(Empty)
  {
  }
}
