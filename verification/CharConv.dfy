/**
 `from_chars` and `to_chars` of pset3/lib.cc for 64-bit integers.
 */
module CharConv {
  import opened Wrappers
  import opened Arith

  const ULONG_END := 0x1_0000_0000_0000_0000   // 2^64
  const LONG_END := 0x8000_0000_0000_0000      // 2^63

  datatype Code = Ok | Inval | Range | Overflow
  predicate IsBase(base: nat) {
    2 <= base <= 36
  }

  // ------------------------------------------------------------------
  // Digits

  /** The digit a character stands for, in the order the code tests. */
  function DigitOf(c: char, base: nat): Option<nat> {
    var x := c as int;
    if '0' as int <= x < '0' as int + base then Some(x - '0' as int)
    else if 'a' as int <= x < 'a' as int + base - 10 then Some(x - 'a' as int + 10)
    else if 'A' as int <= x < 'A' as int + base - 10 then Some(x - 'A' as int + 10)
    else None
  }

  /** The character written for a digit. */
  function DigitChar(d: nat): char
    requires d < 36
  {
    if d < 10 then '0' + d as char else 'a' + (d - 10) as char
  }

  const ALPHABET := "0123456789abcdefghijklmnopqrstuvwxyz"

  /** The digits, written out: each is written as its letter and read back from it. */
  lemma {:induction false} DigitLetters(d: nat, base: nat)
    requires IsBase(base) && d < base
    ensures DigitChar(d) == ALPHABET[d] && DigitOf(ALPHABET[d], base) == Some(d)
  {
    if d < 10 {
      assert ALPHABET[d] == '0' + d as char;
    } else {
      Letters(d);
    }
    DigitBack(d, base);
  }

  lemma {:induction false} Letters(d: nat)
    requires 10 <= d < 36
    ensures ALPHABET[d] == 'a' + (d - 10) as char
  {
  }

  /** Capitals are read like small letters, in bases in which the characters after
      the digits do not reach them. */
  lemma {:induction false} CapitalLetters(d: nat, base: nat)
    requires 10 <= d < base <= 17
    ensures DigitOf("ABCDEFGHIJKLMNOPQRSTUVWXYZ"[d - 10], base) == Some(d)
  {
    assert "ABCDEFGHIJKLMNOPQRSTUVWXYZ"[d - 10] == 'A' + (d - 10) as char;
  }

  /** In bases up to 10, only the digits of the base are read. */
  lemma {:induction false} NoDigit(c: char, base: nat)
    requires IsBase(base) && base <= 10
    ensures DigitOf(c, base).Some? <==> exists d :: 0 <= d < base && c == ALPHABET[d]
  {
    forall d | 0 <= d < base
      ensures ALPHABET[d] == '0' + d as char
    {
      assert ALPHABET[d] == '0' + d as char;
    }
    if DigitOf(c, base).Some? {
      assert c == ALPHABET[DigitOf(c, base).value];
    }
  }

  lemma {:induction false} DigitBack(d: nat, base: nat)
    requires IsBase(base) && d < base
    ensures DigitOf(DigitChar(d), base) == Some(d)
  {
  }

  /** Number of characters at the start of `s` that are digits. */
  function DigitPrefix(s: string, base: nat): (n: nat)
    ensures n <= |s|
    ensures forall i :: 0 <= i < n ==> DigitOf(s[i], base).Some?
    ensures n < |s| ==> DigitOf(s[n], base).None?
  {
    if s == "" || DigitOf(s[0], base).None? then 0 else 1 + DigitPrefix(s[1..], base)
  }

  predicate AllDigits(s: string, base: nat) {
    forall i :: 0 <= i < |s| ==> DigitOf(s[i], base).Some?
  }

  /** The number that a string of digits denotes. */
  function Value(s: string, base: nat): nat
    requires AllDigits(s, base)
  {
    if s == "" then 0
    else
      var v := Value(s[..|s| - 1], base);
      NotNegative(v, base);
      v * base + DigitOf(s[|s| - 1], base).value
  }

  // ------------------------------------------------------------------
  // Reading

  lemma {:induction false} PrefixFrom(s: string, base: nat, i: nat)
    requires i <= |s| && AllDigits(s[..i], base)
    ensures DigitPrefix(s, base) == i + DigitPrefix(s[i..], base)
  {
    var k := DigitPrefix(s[i..], base);
    UniquePrefix(s, base, i + k) by {
      forall j | 0 <= j < i + k
        ensures DigitOf(s[j], base).Some?
      {
        if j < i {
          assert s[j] == s[..i][j];
        } else {
          assert s[j] == s[i..][j - i];
        }
      }
      if i + k < |s| {
        assert s[i + k] == s[i..][k];
      }
    }
  }

  lemma {:induction false} UniquePrefix(s: string, base: nat, n: nat)
    requires n <= |s| && (forall j :: 0 <= j < n ==> DigitOf(s[j], base).Some?)
    requires n < |s| ==> DigitOf(s[n], base).None?
    ensures DigitPrefix(s, base) == n
  {
    hide DigitOf;
  }

  /** `x > (-1UL - digit) / base` tests for overflow of `x * base + digit`. */
  lemma {:induction false} OverflowTest(x: nat, digit: nat, base: nat)
    requires IsBase(base) && digit < ULONG_END
    ensures x > (ULONG_END - 1 - digit) / base <==> x * base + digit >= ULONG_END
  {
    var m := ULONG_END - 1 - digit;
    Below(m, base, x);
    assert base * x == x * base;
  }

  lemma {:induction false} ValueGrows(v: nat, digit: nat, base: nat)
    requires IsBase(base)
    ensures v <= v * base + digit
  {
    assert v <= v * base;
  }

  /** `from_chars` for `unsigned long`; `consumed` is the returned pointer, and
      `value` is stored only on success. */
  method FromCharsUnsigned(s: string, base: nat) returns (consumed: nat, ec: Code, value: nat)
    requires IsBase(base)
    ensures consumed == DigitPrefix(s, base)
    ensures ec == Inval <==> consumed == 0
    ensures ec == Range <==> consumed > 0 && Value(s[..consumed], base) >= ULONG_END
    ensures ec == Ok <==> consumed > 0 && Value(s[..consumed], base) < ULONG_END
    ensures ec == Ok ==> value == Value(s[..consumed], base)
  {
    hide DigitOf, DigitPrefix;
    var x: nat := 0;
    var overflow := false;
    var i := 0;
    while i != |s|
      invariant i <= |s| && AllDigits(s[..i], base)
      invariant overflow <==> Value(s[..i], base) >= ULONG_END
      invariant !overflow ==> x == Value(s[..i], base)
      invariant x < ULONG_END
      decreases |s| - i
    {
      var d := DigitOf(s[i], base);
      if d.None? {
        break;
      }
      SmallDigit(s[i], base);
      assert s[..i + 1][..i] == s[..i];
      OverflowTest(x, d.value, base);
      ValueGrows(Value(s[..i], base), d.value, base);
      if x > (ULONG_END - 1 - d.value) / base {
        overflow := true;
      } else {
        x := x * base + d.value;
      }
      i := i + 1;
    }
    PrefixFrom(s, base, i);
    PrefixStops(s[i..], base);
    consumed := i;
    value := x;
    if i == 0 {
      ec := Inval;
    } else if overflow {
      ec := Range;
    } else {
      ec := Ok;
    }
  }

  lemma {:induction false} SmallDigit(c: char, base: nat)
    requires IsBase(base)
    ensures DigitOf(c, base).Some? ==> DigitOf(c, base).value < ULONG_END
  {
  }

  lemma {:induction false} PrefixStops(s: string, base: nat)
    ensures s == "" || DigitOf(s[0], base).None? ==> DigitPrefix(s, base) == 0
  {
  }

  /** `from_chars` for `long` */
  method FromChars(s: string, base: nat) returns (consumed: nat, ec: Code, value: int)
    requires IsBase(base)
    ensures var negative := s != "" && s[0] == '-';
            var t := if negative then s[1..] else s;
            var n := DigitPrefix(t, base);
            var v := if negative then 0 - Value(t[..n], base) else Value(t[..n], base);
            && (ec == Inval <==> n == 0)
            && (ec == Range <==> n > 0 && !(-LONG_END <= v < LONG_END))
            && (ec == Ok <==> n > 0 && -LONG_END <= v < LONG_END)
            && (ec == Ok ==> value == v)
            && consumed == (if ec == Inval then 0 else n + if negative then 1 else 0)
  {
    hide DigitPrefix, Value;
    var negative := s != "" && s[0] == '-';
    var skip := if negative then 1 else 0;
    assert s[0..] == s;
    var p, e, x := FromCharsUnsigned(s[skip..], base);
    value := 0;
    if e == Inval {
      consumed, ec := 0, Inval;
    } else if e == Range || x > LONG_END - (if negative then 0 else 1) {
      consumed, ec := skip + p, Range;
    } else {
      value := if negative then -x else x;
      consumed, ec := skip + p, Ok;
    }
  }

  // ------------------------------------------------------------------
  // Writing

  /** The digits of `v`, most significant first, with no leading zero. */
  function Digits(v: nat, base: nat): (s: string)
    requires IsBase(base)
    ensures |s| > 0
    decreases v
  {
    if v < base then [DigitChar(v)]
    else
      Shrinks(v, base);
      Digits(v / base, base) + [DigitChar(v % base)]
  }

  lemma {:induction false} NoDigits(base: nat)
    ensures AllDigits("", base) && Value("", base) == 0
  {
  }

  lemma {:induction false} ValueSnoc(s: string, c: char, base: nat)
    ensures AllDigits(s, base) && DigitOf(c, base).Some? ==>
              AllDigits(s + [c], base) && Value(s + [c], base) == Value(s, base) * base + DigitOf(c, base).value
  {
    hide DigitOf;
    assert (s + [c])[..|s|] == s;
  }

  lemma {:induction false} DigitsValue(v: nat, base: nat)
    requires IsBase(base)
    ensures AllDigits(Digits(v, base), base) && Value(Digits(v, base), base) == v
    ensures DigitPrefix(Digits(v, base), base) == |Digits(v, base)|
    decreases v
  {
    hide DigitOf, DigitChar, DigitPrefix, AllDigits, Value;
    var s := Digits(v, base);
    if v < base {
      DigitBack(v, base);
      ValueSnoc("", DigitChar(v), base);
      NoDigits(base);
      assert "" + s == s;
    } else {
      Shrinks(v, base);
      DigitsValue(v / base, base);
      DigitBack(v % base, base);
      ValueSnoc(Digits(v / base, base), DigitChar(v % base), base);
    }
    PrefixAll(s, base);
  }

  lemma {:induction false} PrefixAll(s: string, base: nat)
    requires AllDigits(s, base)
    ensures DigitPrefix(s, base) == |s|
  {
    assert s[..|s|] == s;
    PrefixFrom(s, base, |s|);
  }

  /** No shorter string of the written digits denotes `v`. */
  lemma {:induction false} Shortest(s: string, base: nat)
    requires IsBase(base) && s != "" && AllDigits(s, base)
    requires forall i :: 0 <= i < |s| ==> DigitOf(s[i], base).value < base
    ensures |Digits(Value(s, base), base)| <= |s|
    decreases |s|
  {
    hide DigitOf, DigitChar;
    var v := Value(s, base);
    var t := s[..|s| - 1];
    var d := DigitOf(s[|s| - 1], base).value;
    if |s| == 1 {
      assert t == "";
    } else if v >= base {
      assert forall i :: 0 <= i < |t| ==> t[i] == s[i];
      Shortest(t, base);
      LastDigit(Value(t, base), d, base);
    }
  }

  lemma {:induction false} LastDigit(v: nat, d: nat, base: nat)
    requires IsBase(base) && d < base
    ensures (v * base + d) / base == v && (v * base + d) % base == d
  {
    Quotient(v * base + d, base, v, d);
  }

  function Quot(v: nat, m: nat): nat
    requires m > 0
  {
    v / m
  }

  function Rem(v: nat, m: nat): nat
    requires m > 0
  {
    v % m
  }

  /** The square and the cube of the base. */
  predicate Powers(base: nat, b2: nat, b3: nat) {
    b2 == base * base && b3 == b2 * base
  }

  /** Three digits at a time. */
  lemma {:induction false} ThreeDigits(v: nat, base: nat, b2: nat, b3: nat)
    requires IsBase(base) && Powers(base, b2, b3)
    ensures base < b2 < b3
    ensures v < base ==> |Digits(v, base)| == 1
    ensures base <= v < b2 ==> |Digits(v, base)| == 2
    ensures b2 <= v < b3 ==> |Digits(v, base)| == 3
    ensures v >= b3 ==> |Digits(v, base)| == 3 + |Digits(Quot(v, b3), base)|
  {
    hide Digits, Quot, Powers;
    ThreeQuotients(v, base, b2, b3);
    var q1 := Quot(v, base);
    var q2 := Quot(q1, base);
    DigitsLen(v, base);
    DigitsLen(q1, base);
    DigitsLen(q2, base);
  }

  lemma {:induction false} ThreeQuotients(v: nat, base: nat, b2: nat, b3: nat)
    requires IsBase(base) && Powers(base, b2, b3)
    ensures base < b2 < b3
    ensures v < b2 <==> Quot(v, base) < base
    ensures v < b3 <==> Quot(Quot(v, base), base) < base
    ensures Quot(v, b3) == Quot(Quot(Quot(v, base), base), base)
  {
    Bigger(base);
    Below(v, base, base);
    DivDiv(v, base, base);
    Below(v, b2, base);
    DivDiv(v, b2, base);
  }

  lemma {:induction false} DigitsLen(v: nat, base: nat)
    requires IsBase(base)
    ensures |Digits(v, base)| == if v < base then 1 else 1 + |Digits(Quot(v, base), base)|
  {
    hide DigitChar;
  }

  lemma {:induction false} Bigger(base: nat)
    requires IsBase(base)
    ensures base < base * base < base * base * base
  {
    assert base * base >= 2 * base;
    assert base * base * base >= 2 * (base * base);
  }

  /** The length loop of `to_chars`. */
  method CountDigits(value: nat, base: nat) returns (n: nat)
    requires IsBase(base)
    ensures n == |Digits(value, base)|
  {
    hide Digits;
    var v: nat := value;
    var b2 := base * base;
    var b3 := b2 * base;
    n := 0;
    while true
      invariant n + |Digits(v, base)| == |Digits(value, base)|
      decreases v
    {
      ThreeDigits(v, base, b2, b3);
      if v < base {
        n := n + 1;
      } else if v < b2 {
        n := n + 2;
      } else {
        n := n + 3;
      }
      if v < b3 {
        break;
      }
      Shrinks(v, b3);
      v := v / b3;
    }
  }

  /** `to_chars` for `unsigned long`, into `buf[first..last]`. */
  method ToCharsUnsigned(buf: array<char>, first: nat, last: nat, value: nat, base: nat) returns (end: nat, ec: Code)
    requires IsBase(base) && first <= last <= buf.Length
    modifies buf
    ensures ec == Ok || ec == Overflow
    ensures ec == Overflow <==> last - first < |Digits(value, base)|
    ensures ec == Overflow ==> end == last && buf[..] == old(buf[..])
    ensures ec == Ok ==> end == first + |Digits(value, base)| && buf[first..end] == Digits(value, base)
    ensures ec == Ok ==> buf[..first] == old(buf[..first]) && buf[end..] == old(buf[end..])
  {
    hide DigitChar, Digits, Quot, Rem;
    var n := CountDigits(value, base);
    if last - first < n {
      return last, Overflow;
    }
    var s := first + n;
    var v: nat := value;
    while s > first
      invariant first <= s <= first + n
      invariant s > first ==> |Digits(v, base)| == s - first
      invariant s > first ==> Digits(value, base) == Digits(v, base) + buf[s..first + n]
      invariant s == first ==> buf[first..first + n] == Digits(value, base)
      invariant buf[..first] == old(buf[..first]) && buf[first + n..] == old(buf[first + n..])
    {
      s := s - 1;
      var digit := Rem(v, base);
      DigitsStep(v, base);
      ghost var tail := buf[s + 1..first + n];
      buf[s] := DigitChar(digit);
      assert buf[s..first + n] == [DigitChar(digit)] + tail;
      v := Quot(v, base);
    }
    return first + n, Ok;
  }

  lemma {:induction false} DigitsStep(v: nat, base: nat)
    requires IsBase(base)
    ensures Rem(v, base) < 36
    ensures |Digits(v, base)| == 1 ==> Digits(v, base) == [DigitChar(Rem(v, base))]
    ensures |Digits(v, base)| > 1 ==> Digits(v, base) == Digits(Quot(v, base), base) + [DigitChar(Rem(v, base))]
  {
    if v < base {
      SmallMod(v, base);
    }
  }

  /** What `to_chars` writes for a `long`. */
  function SignedDigits(value: int, base: nat): string
    requires IsBase(base)
  {
    if value < 0 then "-" + Digits(-value, base) else Digits(value, base)
  }

  /** `to_chars` for `long` */
  method ToChars(buf: array<char>, first: nat, last: nat, value: int, base: nat) returns (end: nat, ec: Code)
    requires IsBase(base) && first <= last <= buf.Length && -LONG_END <= value < LONG_END
    modifies buf
    ensures ec == Ok || ec == Overflow
    ensures ec == Overflow <==> last - first < |SignedDigits(value, base)|
    ensures ec == Ok ==> end == first + |SignedDigits(value, base)| && buf[first..end] == SignedDigits(value, base)
    ensures ec == Ok ==> buf[..first] == old(buf[..first]) && buf[end..] == old(buf[end..])
    // on overflow, the sign of a negative value has been written if it fits
    ensures ec == Overflow ==>
              && end == last
              && forall i :: 0 <= i < buf.Length ==>
                   buf[i] == if i == first < last && value < 0 then '-' else old(buf[i])
  {
    hide Digits;
    if first == last {
      return last, Overflow;
    } else if value < 0 {
      buf[first] := '-';
      label L:
      end, ec := ToCharsUnsigned(buf, first + 1, last, -value, base);
      if ec == Overflow {
        SameCells(buf, old@L(buf[..]));
      } else {
        assert buf[..first + 1][first] == '-';
        assert buf[first..end] == [buf[first]] + buf[first + 1..end];
        assert buf[..first] == buf[..first + 1][..first];
      }
    } else {
      end, ec := ToCharsUnsigned(buf, first, last, value, base);
      if ec == Overflow {
        SameCells(buf, old(buf[..]));
      }
    }
  }

  lemma {:induction false} SameCells(buf: array<char>, before: seq<char>)
    requires buf[..] == before
    ensures |before| == buf.Length && forall i :: 0 <= i < buf.Length ==> buf[i] == before[i]
  {
  }

  // ------------------------------------------------------------------
  // Round trips

  /** `to_chars` of an `unsigned long` into a buffer, and `from_chars` of what it
      wrote there. */
  method RoundTripUnsigned(buf: array<char>, first: nat, last: nat, value: nat, base: nat) returns (ec: Code, back: nat)
    requires IsBase(base) && first <= last <= buf.Length && value < ULONG_END
    modifies buf
    ensures ec == Overflow <==> last - first < |Digits(value, base)|
    ensures ec != Overflow ==> ec == Ok && back == value
  {
    hide Digits, Value, DigitPrefix;
    var end;
    end, ec := ToCharsUnsigned(buf, first, last, value, base);
    back := 0;
    if ec == Ok {
      DigitsValue(value, base);
      assert Digits(value, base)[..|Digits(value, base)|] == Digits(value, base);
      var n;
      n, ec, back := FromCharsUnsigned(buf[first..end], base);
    }
  }

  /** The same for a `long`. */
  method RoundTrip(buf: array<char>, first: nat, last: nat, value: int, base: nat) returns (ec: Code, back: int)
    requires IsBase(base) && first <= last <= buf.Length && -LONG_END <= value < LONG_END
    modifies buf
    ensures ec == Overflow <==> last - first < |SignedDigits(value, base)|
    ensures ec != Overflow ==> ec == Ok && back == value
  {
    hide Digits, Value, DigitPrefix;
    var end;
    end, ec := ToChars(buf, first, last, value, base);
    back := 0;
    if ec == Ok {
      ghost var m := if value < 0 then -value else value;
      DigitsValue(m, base);
      NoMinus(m, base);
      assert Digits(m, base)[..|Digits(m, base)|] == Digits(m, base);
      var s := buf[first..end];
      assert value < 0 ==> s[1..] == Digits(m, base);
      var n;
      n, ec, back := FromChars(s, base);
    }
  }

  /** The first digit of a number is not a minus sign. */
  lemma {:induction false} NoMinus(v: nat, base: nat)
    requires IsBase(base)
    ensures Digits(v, base)[0] != '-'
    decreases v
  {
    hide DigitChar;
    if v >= base {
      Shrinks(v, base);
      NoMinus(v / base, base);
    } else {
      NotMinus(v);
    }
  }

  lemma {:induction false} NotMinus(d: nat)
    requires d < 36
    ensures DigitChar(d) != '-'
  {
  }
}
