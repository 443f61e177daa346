/**
 * The HMI's three-slot LED panels. A temperature is drawn as three glyph
 * images: the units slot, the tens slot and the hundreds slot, each a digit
 * image, a blank image or a minus image. The image files are abstracted to
 * the glyph they show. The room panel and the set-point panel use the same
 * rules and differ only in the size of their images.
 */
module Led {
  import opened JavaLang

  datatype Glyph = Digit(d: nat) | Blank | Minus

  /** The glyphs of one panel, by slot. */
  datatype Panel = Panel(units: Glyph, tens: Glyph, hundreds: Glyph)

  /** The magnitude of a Java `int`, without `Math.abs`'s overflow. */
  function Magnitude(t: int32): (m: nat)
    ensures m == t as int || m == -(t as int)
  {
    if t < 0 then -(t as int) else t as int
  }

  /**
   * The text the slots draw from: `"000" + Integer.toString(Math.abs(t))`,
   * of which the last three characters are kept.
   */
  function PanelText(t: int32): (r: string)
    ensures |r| == 3
  {
    var s := "000" + IntToString(Abs(t));
    s[|s| - 3..]
  }

  /** The digit image named by a digit character. */
  function DigitGlyph(c: char): (g: Glyph)
    requires IsDigit(c)
    ensures g.Digit? && g.d <= 9 && DigitChar(g.d) == c
  {
    Digit(c as int - '0' as int)
  }

  /**
   * The panel showing `t`. The units slot always shows a digit. The tens
   * slot shows a digit from 10 up in magnitude, below that a minus sign for
   * a negative value and a blank otherwise. The hundreds slot shows a digit
   * from 100 up in magnitude, below that a minus sign for a negative value
   * of two digits and a blank otherwise. The magnitude is `Math.abs(t)`.
   * So the units slot shows the last digit of the true magnitude, and a
   * minus sign appears exactly for -99 to -1 and for `MIN_VALUE`.
   */
  function ShowPanel(t: int32): (p: Panel)
    ensures p.units == Digit(Magnitude(t) % 10)
    ensures p.tens == Minus || p.hundreds == Minus <==> -99 <= t <= -1 || t == MinInt
  {
    PanelTextValue(t);
    var a := Abs(t);
    var text := PanelText(t);
    Panel(DigitGlyph(text[2]),
          if a < 10 then (if t < 0 then Minus else Blank) else DigitGlyph(text[1]),
          if a < 100 then (if t < 0 && a > 9 then Minus else Blank) else DigitGlyph(text[0]))
  }

  /** The last three decimal digits of `n`, and how many digits `n` has below 100. */
  lemma {:induction false} NatToStringLast(n: nat)
    ensures |NatToString(n)| >= 1 && NatToString(n)[|NatToString(n)| - 1] == DigitChar(n % 10)
    ensures n < 10 ==> |NatToString(n)| == 1
    ensures n >= 10 ==> |NatToString(n)| >= 2 && NatToString(n)[|NatToString(n)| - 2] == DigitChar(n / 10 % 10)
    ensures 10 <= n < 100 ==> |NatToString(n)| == 2
    ensures n >= 100 ==> |NatToString(n)| >= 3 && NatToString(n)[|NatToString(n)| - 3] == DigitChar(n / 100 % 10)
  {
    if n >= 10 {
      NatToStringLast(n / 10);
      assert n / 10 / 10 == n / 100;
    }
  }

  /** The last three characters of `pad + NatToString(n)` are the last three digits of `n`, `pad` being zeros. */
  lemma PaddedLast(pad: string, n: nat)
    requires |pad| == 3 && forall i :: 0 <= i < 3 ==> pad[i] == '0'
    ensures var s := pad + NatToString(n);
            s[|s| - 3..] == [DigitChar(n / 100 % 10), DigitChar(n / 10 % 10), DigitChar(n % 10)]
  {
    var s := pad + NatToString(n);
    NatToStringLast(n);
    if n < 10 {
      assert s[|s| - 2] == pad[2] && s[|s| - 3] == pad[1];
    } else if n < 100 {
      assert s[|s| - 3] == pad[2];
    }
  }

  /** The sign of `Integer.MIN_VALUE` falls outside the last three characters. */
  lemma MinIntText()
    ensures var s := "000" + IntToString(MinInt as int);
            s[|s| - 3..] == ("000" + NatToString(0x8000_0000))[|"000" + NatToString(0x8000_0000)| - 3..]
  {
    var x := NatToString(0x8000_0000);
    NatToStringLast(0x8000_0000);
    var s := "000" + IntToString(MinInt as int);
    var u := "000" + x;
    assert s == "000-" + x;
    assert s[|s| - 3..] == x[|x| - 3..];
    assert u[|u| - 3..] == x[|x| - 3..];
  }

  /**
   * The panel text is the last three digits of the magnitude of `t`,
   * leading zeros included, also for `MIN_VALUE`, whose `Math.abs` is
   * negative.
   */
  lemma PanelTextValue(t: int32)
    ensures PanelText(t) == [DigitChar(Magnitude(t) / 100 % 10), DigitChar(Magnitude(t) / 10 % 10), DigitChar(Magnitude(t) % 10)]
  {
    if t == MinInt {
      MinIntText();
      PaddedLast("000", 0x8000_0000);
    } else {
      PaddedLast("000", Magnitude(t));
    }
  }

  /**
   * The tens slot: a minus sign for -9 to -1, a blank for 0 to 9, the tens
   * digit from 10 up in magnitude, except for `MIN_VALUE`, which takes the
   * minus sign.
   */
  lemma TensSlot(t: int32)
    ensures -9 <= t <= -1 || t == MinInt ==> ShowPanel(t).tens == Minus
    ensures 0 <= t <= 9 ==> ShowPanel(t).tens == Blank
    ensures t != MinInt && Magnitude(t) >= 10 ==> ShowPanel(t).tens == Digit(Magnitude(t) / 10 % 10)
  {
    PanelTextValue(t);
  }

  /**
   * The hundreds slot: a minus sign for -99 to -10, a blank for -9 to 99
   * and for `MIN_VALUE`, the hundreds digit from 100 up in magnitude; a
   * negative value of three or more digits therefore shows no sign.
   */
  lemma HundredsSlot(t: int32)
    ensures -99 <= t <= -10 ==> ShowPanel(t).hundreds == Minus
    ensures -9 <= t <= 99 || t == MinInt ==> ShowPanel(t).hundreds == Blank
    ensures t != MinInt && Magnitude(t) >= 100 ==> ShowPanel(t).hundreds == Digit(Magnitude(t) / 100 % 10)
  {
    PanelTextValue(t);
  }

  /** `MIN_VALUE` shows as a minus sign followed by 8. */
  lemma MinIntPanel()
    ensures ShowPanel(MinInt) == Panel(Digit(8), Minus, Blank)
  {
    TensSlot(MinInt);
    HundredsSlot(MinInt);
  }

  /** The value a viewer reads off a panel, if it reads as a number. */
  function ReadPanel(p: Panel): Option<int>
  {
    match (p.hundreds, p.tens, p.units)
    case (Digit(h), Digit(d), Digit(u)) => Some(100 * h + 10 * d + u)
    case (Blank, Digit(d), Digit(u)) => Some(10 * d + u)
    case (Blank, Blank, Digit(u)) => Some(u)
    case (Blank, Minus, Digit(u)) => Some(-(u as int))
    case (Minus, Digit(d), Digit(u)) => Some(-((10 * d + u) as int))
    case _ => None
  }

  /** Every value from -99 to 999 reads back from its panel exactly. */
  lemma PanelRoundTrip(t: int32)
    requires -99 <= t <= 999
    ensures ReadPanel(ShowPanel(t)) == Some(t as int)
  {
    var p := ShowPanel(t);
    TensSlot(t);
    HundredsSlot(t);
    ReadSlots(p, t as int);
  }

  /** A panel whose slots follow the rules for `t`, with -99 <= t <= 999, reads as `t`. */
  lemma ReadSlots(p: Panel, t: int)
    requires -99 <= t <= 999
    requires var m := if t < 0 then -t else t;
             p.units == Digit(m % 10) &&
             (if -9 <= t <= -1 then p.tens == Minus else if 0 <= t <= 9 then p.tens == Blank else p.tens == Digit(m / 10 % 10)) &&
             (if -99 <= t <= -10 then p.hundreds == Minus else if t <= 99 then p.hundreds == Blank else p.hundreds == Digit(m / 100 % 10))
    ensures ReadPanel(p) == Some(t)
  {
    var m := if t < 0 then -t else t;
    if m >= 100 {
      LastThreeDigits(m);
    } else if m >= 10 {
      TwoDigits(m);
    }
  }

  /** A number below 100 is made of its last two decimal digits. */
  lemma TwoDigits(m: nat)
    requires m < 100
    ensures m == 10 * (m / 10 % 10) + m % 10
  {
    assert m / 10 < 10;
  }

  /**
   * Only the last three digits are ever shown: a larger value reads back
   * modulo 1000, and a value below -99 reads back as its magnitude modulo
   * 1000, without its sign.
   */
  lemma PanelTruncates(t: int32)
    requires t >= 0 || (t <= -100 && t != MinInt)
    ensures ReadPanel(ShowPanel(t)) == Some(Magnitude(t) % 1000)
  {
    TensSlot(t);
    HundredsSlot(t);
    LastThreeDigits(Magnitude(t));
  }

  /** A number modulo 1000 is made of its last three decimal digits. */
  lemma LastThreeDigits(m: nat)
    ensures m % 1000 == 100 * (m / 100 % 10) + 10 * (m / 10 % 10) + m % 10
  {
    var q, u := m / 10, m % 10;
    var r, d := q / 10, q % 10;
    var h := r % 10;
    assert m == 10 * q + u;
    assert q == 10 * r + d;
    assert r == 10 * (r / 10) + h;
    assert m / 100 == r;
    assert m == 1000 * (r / 10) + (100 * h + 10 * d + u);
  }
}
