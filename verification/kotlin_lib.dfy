/**
 * The pieces of the Kotlin standard library that the codec and the ROM reader
 * rely on, with the behaviour they have on the JVM: unsigned bytes, 32-bit
 * `Int` arithmetic, `String.toInt(radix)`, `String.toUByte(radix)` and
 * `UByteArray.copyOfRange`.
 */
module KotlinLib {
  import opened Wrappers

  /** Kotlin's `UByte`, an unsigned 8-bit value. */
  newtype byte = x: int | 0 <= x < 256

  const INT_MIN: int := -0x8000_0000
  const INT_MAX: int := 0x7fff_ffff

  /** Kotlin's `Int`, a 32-bit two's-complement integer. */
  type int32 = x: int | INT_MIN <= x <= INT_MAX

  /** The exceptions the core can raise, as failure values. */
  datatype Error =
    | NumberFormat          // NumberFormatException from a string-to-number conversion
    | IndexOutOfBounds      // an array read or a range end outside the array
    | InvalidRange          // IllegalArgumentException from copyOfRange(from, to) with from > to
    | NoEncodingFor(ch: char)  // IllegalArgumentException from encodeText

  /** The 32-bit result of an `Int` operation whose exact value is `x` (two's-complement wrap-around). */
  function Wrap(x: int): int32 {
    var m := x % 0x1_0000_0000;
    if m <= INT_MAX then m else m - 0x1_0000_0000
  }

  /** Wrapping changes a value by a multiple of 2^32 only. */
  lemma WrapCongruent(x: int)
    ensures (Wrap(x) - x) % 0x1_0000_0000 == 0
  {
    var m := x % 0x1_0000_0000;
    assert x == (x / 0x1_0000_0000) * 0x1_0000_0000 + m;
    if m <= INT_MAX {
      assert Wrap(x) - x == -(x / 0x1_0000_0000) * 0x1_0000_0000;
    } else {
      assert Wrap(x) - x == -(x / 0x1_0000_0000 + 1) * 0x1_0000_0000;
    }
  }

  /** Arithmetic that stays in range does not wrap. */
  lemma WrapInRange(x: int)
    requires INT_MIN <= x <= INT_MAX
    ensures Wrap(x) == x
  {
    if x < 0 {
      assert x % 0x1_0000_0000 == x + 0x1_0000_0000;
    }
  }

  // ---------------------------------------------------------------------
  // Digits

  /** The value of `c` as a digit in `radix`, or nothing (ASCII digits and letters of either case). */
  function DigitOf(c: char, radix: nat): (r: Option<nat>)
    requires 2 <= radix <= 36
    ensures r.Some? ==> r.value < radix
  {
    var d :=
      if '0' <= c <= '9' then c as int - '0' as int
      else if 'a' <= c <= 'z' then c as int - 'a' as int + 10
      else if 'A' <= c <= 'Z' then c as int - 'A' as int + 10
      else radix;
    if d < radix then Some(d) else None
  }

  predicate AllDigits(s: string, radix: nat)
    requires 2 <= radix <= 36
  {
    forall i :: 0 <= i < |s| ==> DigitOf(s[i], radix).Some?
  }

  /** The number that the digit string `s` denotes in `radix`, most significant digit first. */
  function DigitsValue(s: string, radix: nat): nat
    requires 2 <= radix <= 36 && AllDigits(s, radix)
    decreases |s|
  {
    if s == [] then 0
    else DigitsValue(s[..|s| - 1], radix) * radix + DigitOf(s[|s| - 1], radix).value
  }

  /**
   * Kotlin's `String.toIntOrNull(radix)`: an optional leading `-` or `+`, then at
   * least one digit, and a value that fits in an `Int`. `toInt` throws
   * NumberFormatException exactly where this is `None`.
   */
  function ToInt(s: string, radix: nat): Option<int32>
    requires 2 <= radix <= 36
  {
    if s == [] then None
    else if s[0] < '0' && (|s| == 1 || (s[0] != '-' && s[0] != '+')) then None
    else
      var digits := if s[0] < '0' then s[1..] else s;
      if !AllDigits(digits, radix) then None
      else
        var v := DigitsValue(digits, radix);
        var n: int := if s[0] == '-' then -(v as int) else v;
        if INT_MIN <= n <= INT_MAX then Some(n) else None
  }

  /**
   * Kotlin's `String.toUByteOrNull(radix)`: an optional leading `+` (no `-`), then
   * at least one digit, and a value of at most 255.
   */
  function ToUByte(s: string, radix: nat): Option<byte>
    requires 2 <= radix <= 36
  {
    if s == [] then None
    else if s[0] < '0' && (|s| == 1 || s[0] != '+') then None
    else
      var digits := if s[0] < '0' then s[1..] else s;
      if !AllDigits(digits, radix) then None
      else
        var v := DigitsValue(digits, radix);
        if v <= 255 then Some(v as byte) else None
  }

  // ---------------------------------------------------------------------
  // Formatting, the inverse of digit parsing

  function DigitChar(d: nat): (c: char)
    requires d < 36
  {
    if d < 10 then ('0' as int + d) as char else ('a' as int + d - 10) as char
  }

  /** `n` written in `radix` without leading zeros (`"0"` for zero), lower-case letters. */
  function Digits(n: nat, radix: nat): (s: string)
    requires 2 <= radix <= 36
    ensures |s| >= 1
    decreases n
  {
    if n < radix then [DigitChar(n)] else Digits(n / radix, radix) + [DigitChar(n % radix)]
  }

  lemma DivLess(n: nat, radix: nat)
    requires 2 <= radix <= n
    ensures 1 <= n / radix < n
  {
  }

  lemma DigitOfDigitChar(d: nat, radix: nat)
    requires 2 <= radix <= 36 && d < radix
    ensures DigitOf(DigitChar(d), radix) == Some(d)
  {
  }

  /** Appending one digit multiplies the value so far by the radix and adds the digit. */
  lemma DigitsValueSnoc(front: string, c: char, radix: nat)
    requires 2 <= radix <= 36 && AllDigits(front, radix) && DigitOf(c, radix).Some?
    ensures AllDigits(front + [c], radix)
    ensures DigitsValue(front + [c], radix) == DigitsValue(front, radix) * radix + DigitOf(c, radix).value
  {
    var s := front + [c];
    assert s[..|s| - 1] == front;
    forall i | 0 <= i < |s| ensures DigitOf(s[i], radix).Some? {
      if i < |front| { assert s[i] == front[i]; }
    }
  }

  /** A number of at least `radix` is written as its quotient followed by its last digit. */
  lemma DigitsSplit(n: nat, radix: nat)
    requires 2 <= radix <= n && radix <= 36
    ensures n / radix < n && n == (n / radix) * radix + n % radix
    ensures Digits(n, radix) == Digits(n / radix, radix) + [DigitChar(n % radix)]
  {
    DivLess(n, radix);
  }

  /** Parsing the digits of `n` gives `n` back. */
  lemma {:induction false} DigitsRoundTrip(n: nat, radix: nat)
    requires 2 <= radix <= 36
    ensures AllDigits(Digits(n, radix), radix)
    ensures DigitsValue(Digits(n, radix), radix) == n
    decreases n
  {
    if n < radix {
      DigitOfDigitChar(n, radix);
      DigitsValueSnoc([], DigitChar(n), radix);
      assert [] + [DigitChar(n)] == Digits(n, radix);
    } else {
      var q, d := n / radix, n % radix;
      DigitsSplit(n, radix);
      DigitsRoundTrip(q, radix);
      DigitOfDigitChar(d, radix);
      DigitsValueSnoc(Digits(q, radix), DigitChar(d), radix);
    }
  }

  /** The first digit of a positive number is not `0`. */
  lemma {:induction false} DigitsNoLeadingZero(n: nat, radix: nat)
    requires 2 <= radix <= 36 && n >= 1
    ensures Digits(n, radix)[0] != '0'
    decreases n
  {
    if n >= radix {
      assert 1 <= n / radix < n by { DivLess(n, radix); }
      DigitsNoLeadingZero(n / radix, radix);
    }
  }

  lemma {:induction false} DigitsAreDigitChars(n: nat, radix: nat)
    requires 2 <= radix <= 36
    ensures forall i :: 0 <= i < |Digits(n, radix)| ==> '0' <= Digits(n, radix)[i]
    decreases n
  {
    var s := Digits(n, radix);
    if n >= radix {
      var q, d := n / radix, n % radix;
      assert q < n by { DivLess(n, radix); }
      DigitsAreDigitChars(q, radix);
      var front := Digits(q, radix);
      assert s == front + [DigitChar(d)];
      forall i | 0 <= i < |s| ensures '0' <= s[i] {
        if i < |front| { assert s[i] == front[i]; }
      }
    }
  }

  /** `toInt` reads back every non-negative `Int` written in its own radix. */
  lemma ToIntOfDigits(n: nat, radix: nat)
    requires 2 <= radix <= 36 && n <= INT_MAX
    ensures ToInt(Digits(n, radix), radix) == Some(n)
  {
    DigitsRoundTrip(n, radix);
    DigitsAreDigitChars(n, radix);
  }

  /** `toInt` reads back every negative `Int` written as `-` and its magnitude. */
  lemma ToIntOfNegative(n: nat, radix: nat)
    requires 2 <= radix <= 36 && 1 <= n <= -INT_MIN
    ensures ToInt("-" + Digits(n, radix), radix).Some?
    ensures ToInt("-" + Digits(n, radix), radix).value == -(n as int)
  {
    var s := "-" + Digits(n, radix);
    assert s[1..] == Digits(n, radix);
    DigitsRoundTrip(n, radix);
  }

  /** `toUByte` reads back every byte written in its own radix. */
  lemma ToUByteOfDigits(b: byte, radix: nat)
    requires 2 <= radix <= 36
    ensures ToUByte(Digits(b as nat, radix), radix) == Some(b)
  {
    DigitsRoundTrip(b as nat, radix);
    DigitsAreDigitChars(b as nat, radix);
  }

  // ---------------------------------------------------------------------
  // Arrays

  /**
   * `UByteArray.copyOfRange(from, to)`: IndexOutOfBounds when `to` is past the
   * end, IllegalArgumentException when `from > to`, ArrayIndexOutOfBounds when
   * `from` is negative; otherwise the elements `[from, to)`. The JVM tests
   * `from > to` as `to - from < 0` in 32-bit arithmetic, so for a negative `from`
   * far below `to` it names IllegalArgumentException instead; success and
   * failure are the same either way.
   */
  function CopyOfRange(a: seq<byte>, from: int, to: int): (r: Result<seq<byte>, Error>)
    ensures r.Success? <==> 0 <= from <= to <= |a|
    ensures r.Success? ==> r.value == a[from..to]
  {
    if to > |a| then Failure(IndexOutOfBounds)
    else if from > to then Failure(InvalidRange)
    else if from < 0 then Failure(IndexOutOfBounds)
    else Success(a[from..to])
  }
}
