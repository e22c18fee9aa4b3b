/** Shared building blocks of the firmware model: optional values, bytes,
    C's truncating integer division, and the decimal text that `%d` produces. */
module Support {

  datatype Option<+T> = None | Some(value: T)

  /** An 8-bit unsigned value (`uint8_t`). */
  type Byte = b: int | 0 <= b < 256

  /** A 32-bit signed value (`int` on the ESP32). */
  type Int32 = i: int | -0x8000_0000 <= i < 0x8000_0000

  /** C's `/` on integers: truncates toward zero (Dafny's `/` is Euclidean). */
  function CDiv(a: int, b: int): (q: int)
    requires b != 0
    ensures a >= 0 && b > 0 ==> q == a / b
    ensures b > 0 && a >= 0 ==> 0 <= a - q * b < b
    ensures b > 0 && a < 0 ==> -b < a - q * b <= 0
  {
    if a >= 0 then a / b
    else if b > 0 then -((-a) / b)
    else (-a) / (-b)
  }

  predicate IsDigit(c: char) { '0' <= c <= '9' }

  predicate AllDigits(s: string) { forall i :: 0 <= i < |s| ==> IsDigit(s[i]) }

  function DigitChar(d: nat): (c: char)
    requires d < 10
    ensures IsDigit(c) && c as int - '0' as int == d
  {
    ('0' as int + d) as char
  }

  /** The decimal digits `%d` prints for a non-negative value. */
  function NatToDecimal(n: nat): (s: string)
    ensures |s| >= 1 && AllDigits(s)
  {
    if n < 10 then [DigitChar(n)] else NatToDecimal(n / 10) + [DigitChar(n % 10)]
  }

  /** Text `%d` can print: digits, with a leading minus sign or not. */
  predicate SignedDecimal(s: string)
  {
    if |s| > 0 && s[0] == '-' then |s| >= 2 && AllDigits(s[1..]) else |s| >= 1 && AllDigits(s)
  }

  /** The value `%d` reads from such a text. */
  function SignedValue(s: string): int
    requires SignedDecimal(s)
  {
    if s[0] == '-' then -(DecimalValue(s[1..]) as int) else DecimalValue(s)
  }

  /** `%d` for any integer: led by a minus sign exactly when the value is
      negative (that the rest is digits is `IntDecimalRoundTrip`). */
  function IntToDecimal(i: int): (s: string)
    ensures |s| >= 1 && (s[0] == '-' <==> i < 0)
  {
    if i < 0 then "-" + NatToDecimal(-i) else NatToDecimal(i)
  }

  /** Reading back what `%d` printed gives the value printed, sign included. */
  lemma IntDecimalRoundTrip(i: int)
    ensures SignedDecimal(IntToDecimal(i)) && SignedValue(IntToDecimal(i)) == i
  {
    if i < 0 {
      assert IntToDecimal(i)[1..] == NatToDecimal(-i);
      DecimalRoundTrip(-i);
    } else {
      DecimalRoundTrip(i);
    }
  }

  /** The value of a string of decimal digits (the reading side of `%d`). */
  function DecimalValue(s: string): nat
    requires AllDigits(s)
  {
    if s == [] then 0 else 10 * DecimalValue(s[..|s| - 1]) + (s[|s| - 1] as int - '0' as int)
  }

  /** Reading back the digits `%d` printed gives the value printed. */
  lemma {:induction false} DecimalRoundTrip(n: nat)
    ensures DecimalValue(NatToDecimal(n)) == n
  {
    if n >= 10 {
      var s := NatToDecimal(n);
      assert s[..|s| - 1] == NatToDecimal(n / 10);
      DecimalRoundTrip(n / 10);
    }
  }

  function Pow10(k: nat): (p: nat)
    ensures p >= 1
  {
    if k == 0 then 1 else 10 * Pow10(k - 1)
  }

  /** A value below 10^k prints in at most k digits. */
  lemma {:induction false} DecimalLength(n: nat, k: nat)
    requires 1 <= k && n < Pow10(k)
    ensures |NatToDecimal(n)| <= k
  {
    if n >= 10 {
      DecimalLength(n / 10, k - 1);
    }
  }

  /** A value of at least 10^k prints in more than k digits. */
  lemma {:induction false} DecimalLengthAtLeast(n: nat, k: nat)
    requires n >= Pow10(k)
    ensures |NatToDecimal(n)| > k
  {
    if k > 0 {
      DecimalLengthAtLeast(n / 10, k - 1);
    }
  }

  /** What `snprintf` leaves in a buffer of `size` bytes: at most size - 1
      characters of the formatted text (the NUL takes the last byte). */
  function Snprintf(text: string, size: nat): (r: string)
    requires size >= 1
    ensures |r| <= size - 1 && r <= text
    ensures |text| < size ==> r == text
  {
    if |text| < size then text else text[..size - 1]
  }

  /** `snprintf` keeps the whole text exactly when it fits before the NUL. */
  lemma SnprintfWhole(text: string, size: nat)
    requires size >= 1
    ensures Snprintf(text, size) == text <==> |text| < size
  {
    if |text| >= size {
      assert |Snprintf(text, size)| < |text|;
    }
  }

  /** A value strictly between -10^(k-1) and 10^k prints in at most k
      characters, sign included. */
  lemma IntDecimalAtMost(t: int, k: nat)
    requires 1 <= k
    requires 0 < t + Pow10(k - 1) && t < Pow10(k)
    ensures |IntToDecimal(t)| <= k
  {
    if t >= 0 {
      DecimalLength(t, k);
    } else {
      DecimalLength(-t, k - 1);
    }
  }

  /** A value of at least 10^k, or at most -10^(k-1), prints in more than k
      characters, sign included. */
  lemma IntDecimalMore(t: int, k: nat)
    requires 1 <= k
    requires t >= Pow10(k) || t + Pow10(k - 1) <= 0
    ensures |IntToDecimal(t)| > k
  {
    if t >= 0 {
      DecimalLengthAtLeast(t, k);
    } else {
      DecimalLengthAtLeast(-t, k - 1);
    }
  }

  /** `snprintf` into a buffer of `size` bytes: the characters of `text` that
      fit, then a NUL; the bytes after the NUL are left as they were. */
  method SnprintfInto(output: array<char>, size: nat, text: string)
    requires 1 <= size <= output.Length
    modifies output
    ensures var written := Snprintf(text, size);
      && output[..|written|] == written
      && output[|written|] == '\0'
      && output[|written| + 1..] == old(output[|written| + 1..])
  {
    var written := Snprintf(text, size);
    var i := 0;
    while i < |written|
      invariant 0 <= i <= |written|
      invariant output[..i] == written[..i]
      invariant output[i..] == old(output[i..])
    {
      output[i] := written[i];
      i := i + 1;
    }
    output[i] := '\0';
  }

  /** `strlen`: the text of a NUL-terminated buffer, up to its first NUL. */
  method CStringOf(buffer: array<char>) returns (text: string)
    requires exists k :: 0 <= k < buffer.Length && buffer[k] == '\0'
    ensures |text| < buffer.Length && buffer[|text|] == '\0'
    ensures text == buffer[..|text|] && '\0' !in text
  {
    var i := 0;
    while buffer[i] != '\0'
      invariant 0 <= i < buffer.Length
      invariant exists k :: i <= k < buffer.Length && buffer[k] == '\0'
      invariant '\0' !in buffer[..i]
      decreases buffer.Length - i
    {
      assert buffer[..i + 1] == buffer[..i] + [buffer[i]];
      i := i + 1;
    }
    text := buffer[..i];
  }

  /** A buffer holding `written`, NUL-free, then a NUL reads back as `written`. */
  lemma CStringOfWritten(buffer: seq<char>, written: string, text: string)
    requires |written| < |buffer| && buffer[..|written|] == written && buffer[|written|] == '\0'
    requires '\0' !in written
    requires |text| < |buffer| && buffer[|text|] == '\0' && text == buffer[..|text|] && '\0' !in text
    ensures text == written
  {
  }
}
