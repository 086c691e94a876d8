/** The display date the crawler stores with each article:
    `strftime('%Y-%m-%d %H:%M')` of a local calendar time. */
module Strftime {

  /** A broken-down local time, as `datetime.fromtimestamp` yields it. */
  datatype CivilTime = CivilTime(year: nat, month: nat, day: nat, hour: nat, minute: nat)

  predicate IsDigit(c: char)
  {
    '0' <= c <= '9'
  }

  function DigitValue(c: char): nat
    requires IsDigit(c)
  {
    c as nat - '0' as nat
  }

  /** The decimal numeral of `n`, without leading zeros. */
  function Decimal(n: nat): string
  {
    var last := ('0' as nat + n % 10) as char;
    if n < 10 then [last] else Decimal(n / 10) + [last]
  }

  /** A numeral is a non-empty string of digits. */
  lemma {:induction false} DecimalIsDigits(n: nat)
    ensures |Decimal(n)| >= 1 && forall c <- Decimal(n) :: IsDigit(c)
  {
    if n >= 10 {
      DecimalIsDigits(n / 10);
    }
  }

  /** The number a string of digits denotes. */
  function DecimalValue(s: string): nat
    requires forall c <- s :: IsDigit(c)
  {
    if s == [] then 0 else 10 * DecimalValue(s[..|s| - 1]) + DigitValue(s[|s| - 1])
  }

  /** Reading the numeral back gives the number. */
  lemma {:induction false} DecimalRoundTrip(n: nat)
    ensures forall c <- Decimal(n) :: IsDigit(c)
    ensures DecimalValue(Decimal(n)) == n
  {
    DecimalIsDigits(n);
    if n >= 10 {
      DecimalRoundTrip(n / 10);
      var r := Decimal(n);
      assert r[..|r| - 1] == Decimal(n / 10);
    }
  }

  /** `k` zero digits. */
  function Zeros(k: nat): string
  {
    if k == 0 then [] else ['0'] + Zeros(k - 1)
  }

  lemma {:induction false} ZerosAreZeros(k: nat)
    ensures |Zeros(k)| == k && forall c <- Zeros(k) :: c == '0'
  {
    if k > 0 {
      ZerosAreZeros(k - 1);
    }
  }

  /** The numeral of `n` padded on the left with zeros to `width` digits,
      as the `%Y` (width 4), `%m`, `%d`, `%H` and `%M` (width 2) directives do. */
  function ZeroPadded(n: nat, width: nat): string
  {
    var d := Decimal(n);
    if |d| < width then Zeros(width - |d|) + d else d
  }

  /** A padded numeral is `width` digits long, or the numeral itself when that
      is longer, and it ends with the numeral after a run of zeros. */
  lemma ZeroPaddedShape(n: nat, width: nat)
    ensures var r, d := ZeroPadded(n, width), Decimal(n);
      |r| == (if |d| < width then width else |d|)
      && r[|r| - |d|..] == d
      && (forall k :: 0 <= k < |r| - |d| ==> r[k] == '0')
      && (forall c <- r :: IsDigit(c))
  {
    DecimalIsDigits(n);
    var d := Decimal(n);
    if |d| < width {
      ZerosAreZeros(width - |d|);
      var r := ZeroPadded(n, width);
      assert forall k :: 0 <= k < |r| - |d| ==> r[k] in Zeros(width - |d|);
    }
  }

  /** `%Y-%m-%d`. */
  function DayPart(t: CivilTime): string
  {
    ZeroPadded(t.year, 4) + "-" + ZeroPadded(t.month, 2) + "-" + ZeroPadded(t.day, 2)
  }

  /** `%H:%M`. */
  function ClockPart(t: CivilTime): string
  {
    ZeroPadded(t.hour, 2) + ":" + ZeroPadded(t.minute, 2)
  }

  /** `%Y-%m-%d %H:%M`. */
  function DateMinute(t: CivilTime): string
  {
    DayPart(t) + " " + ClockPart(t)
  }

  /** `datetime.fromtimestamp(t).strftime('%Y-%m-%d %H:%M')`, with `toLocal`
      standing for the conversion to local time. */
  function LocalDateMinute(toLocal: int -> CivilTime): int -> string
  {
    t => DateMinute(toLocal(t))
  }

  /** The date half holds only digits and dashes, the time half only digits
      and a colon: neither holds a space. */
  lemma DatePartsHaveNoSpace(t: CivilTime)
    ensures forall c <- DayPart(t) :: IsDigit(c) || c == '-'
    ensures forall c <- ClockPart(t) :: IsDigit(c) || c == ':'
  {
    ZeroPaddedShape(t.year, 4);
    ZeroPaddedShape(t.month, 2);
    ZeroPaddedShape(t.day, 2);
    ZeroPaddedShape(t.hour, 2);
    ZeroPaddedShape(t.minute, 2);
  }
}
