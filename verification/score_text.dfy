/** The score label a correct click writes: "Score: " followed by the new
    score in decimal, the way JavaScript renders an integral number. */
module ScoreText {
  import opened Wrappers

  const Prefix: string := "Score: "

  predicate IsDigit(c: char) {
    '0' <= c <= '9'
  }

  function DigitChar(d: nat): (c: char)
    requires d < 10
    ensures IsDigit(c)
  {
    ('0' as int + d) as char
  }

  function DigitValue(c: char): (d: nat)
    requires IsDigit(c)
    ensures d < 10 && DigitChar(d) == c
  {
    c as int - '0' as int
  }

  /** Decimal digits of `n`, most significant first, with no leading zero. */
  function NatToDecimal(n: nat): (s: string)
    ensures 1 <= |s|
    ensures forall i :: 0 <= i < |s| ==> IsDigit(s[i])
    ensures s[0] == '0' ==> n == 0
    decreases n
  {
    if n < 10 then [DigitChar(n)] else NatToDecimal(n / 10) + [DigitChar(n % 10)]
  }

  /** Reads a non-empty run of decimal digits; anything else is `None`. */
  function DecimalToNat(s: string): (r: Option<nat>)
    decreases |s|
  {
    if |s| == 0 || !IsDigit(s[|s| - 1]) then None
    else if |s| == 1 then Some(DigitValue(s[0]))
    else
      match DecimalToNat(s[..|s| - 1])
      case None => None
      case Some(v) => Some(10 * v + DigitValue(s[|s| - 1]))
  }

  lemma {:induction false} NatDecimalRoundTrip(n: nat)
    ensures DecimalToNat(NatToDecimal(n)) == Some(n)
    decreases n
  {
    if n >= 10 {
      var s := NatToDecimal(n);
      NatDecimalRoundTrip(n / 10);
      assert s[..|s| - 1] == NatToDecimal(n / 10);
    }
  }

  /** JavaScript's rendering of an integral number: a minus sign for negatives. */
  function IntToDecimal(n: int): (s: string)
  {
    if n < 0 then "-" + NatToDecimal(-n) else NatToDecimal(n)
  }

  function DecimalToInt(s: string): (r: Option<int>)
  {
    if |s| > 0 && s[0] == '-' then
      match DecimalToNat(s[1..])
      case None => None
      case Some(v) => Some(-(v as int))
    else
      match DecimalToNat(s)
      case None => None
      case Some(v) => Some(v)
  }

  lemma IntDecimalRoundTrip(n: int)
    ensures DecimalToInt(IntToDecimal(n)) == Some(n)
  {
    var s := IntToDecimal(n);
    if n < 0 {
      var digits := NatToDecimal(-n);
      assert s[1..] == digits;
      NatDecimalRoundTrip(-n);
    } else {
      assert IsDigit(s[0]);
      NatDecimalRoundTrip(n);
    }
  }

  /** The text the score display is set to for a given score. */
  function ScoreLabel(score: int): (text: string)
    ensures |Prefix| < |text| && text[..|Prefix|] == Prefix
  {
    Prefix + IntToDecimal(score)
  }

  /** The score a label displays, if it is a score label at all. */
  function ReadScore(text: string): (r: Option<int>)
  {
    if |Prefix| <= |text| && text[..|Prefix|] == Prefix then DecimalToInt(text[|Prefix|..]) else None
  }

  /** The label shows exactly the score it was made from. */
  lemma ScoreLabelRoundTrip(score: int)
    ensures ReadScore(ScoreLabel(score)) == Some(score)
  {
    var text := ScoreLabel(score);
    assert text[|Prefix|..] == IntToDecimal(score);
    IntDecimalRoundTrip(score);
  }

  /** Two scores give the same label exactly when they are equal. */
  lemma ScoreLabelInjective(a: int, b: int)
    ensures ScoreLabel(a) == ScoreLabel(b) <==> a == b
  {
    ScoreLabelRoundTrip(a);
    ScoreLabelRoundTrip(b);
  }
}
