/**
 * The notification record shared by the connection handlers and the toast
 * queue (`Levels` and `Message` in src/App.tsx), and the decimal rendering of
 * a count used inside notification texts.
 */
module Messages {

  /** The three Bootstrap colour levels a notification or a status badge takes. */
  datatype Level = Danger | Warning | Success

  /**
   * A notification. It is an object: the toast queue removes entries by
   * reference identity, so two messages with the same level and text are
   * still two distinct entries. The random numeric `id` of the source is not
   * part of the model; the object reference plays its role.
   */
  class Message {
    const level: Level
    const text: string

    constructor (level: Level, text: string)
      ensures this.level == level && this.text == text
    {
      this.level := level;
      this.text := text;
    }
  }

  predicate IsDigit(c: char) {
    '0' <= c <= '9'
  }

  function DigitChar(d: nat): (c: char)
    requires d < 10
    ensures IsDigit(c)
  {
    "0123456789"[d]
  }

  function DigitValue(c: char): (d: nat)
    requires IsDigit(c)
    ensures d < 10
  {
    (c - '0') as nat
  }

  /**
   * The decimal text JavaScript produces when a non-negative integer below
   * 10^21 (and exactly representable) is interpolated into a string; larger
   * numbers print in exponent form, which the model does not cover.
   */
  function Decimal(n: nat): (s: string)
    ensures |s| >= 1
    ensures forall i :: 0 <= i < |s| ==> IsDigit(s[i])
    ensures |s| > 1 ==> s[0] != '0'
    decreases n
  {
    if n < 10 then [DigitChar(n)] else Decimal(n / 10) + [DigitChar(n % 10)]
  }

  /** The number a string of decimal digits denotes. */
  function DecimalValue(s: string): nat
    requires forall i :: 0 <= i < |s| ==> IsDigit(s[i])
  {
    if s == [] then 0 else DecimalValue(s[..|s| - 1]) * 10 + DigitValue(s[|s| - 1])
  }

  /** Reading back the decimal text of `n` gives `n`: the count in a message is reported exactly. */
  lemma {:induction false} DecimalRoundTrip(n: nat)
    ensures DecimalValue(Decimal(n)) == n
    decreases n
  {
    if n >= 10 {
      var s := Decimal(n);
      assert s[..|s| - 1] == Decimal(n / 10);
      DecimalRoundTrip(n / 10);
    }
  }
}
