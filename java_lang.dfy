/**
 * The pieces of the Java platform the servers and handlers lean on, stated
 * explicitly: 32-bit `int`, `String.indexOf`, `String.trim`,
 * `Integer.toString` and `Integer.parseInt` / `Integer.valueOf`, and the
 * two exceptions those calls can raise.
 */
module JavaLang {

  /** Java's `int`: 32-bit two's complement. */
  newtype int32 = x: int | -0x8000_0000 <= x < 0x8000_0000

  const MinInt: int32 := -0x8000_0000
  const MaxInt: int32 := 0x7fff_ffff

  datatype Option<T> = None | Some(value: T)

  datatype Result<T, E> = Success(value: T) | Failure(error: E)

  /** The unchecked exceptions the modelled code can raise. */
  datatype JavaException =
    | NumberFormatException          // Integer.parseInt / Integer.valueOf on bad text
    | StringIndexOutOfBoundsException // String.substring past the end

  /** Java `int` arithmetic: the mathematical value reduced into 32 bits. */
  function Wrap(x: int): (r: int32)
    ensures MinInt as int <= x <= MaxInt as int ==> r as int == x
    ensures (r as int - x) % 0x1_0000_0000 == 0
  {
    ((x + 0x8000_0000) % 0x1_0000_0000 - 0x8000_0000) as int32
  }

  /** A sum of non-negative `int`s can only wrap past `MAX_VALUE`, into the negatives. */
  lemma WrapNonNegative(x: int)
    requires 0 <= x < 0x1_0000_0000
    ensures x <= MaxInt as int ==> Wrap(x) as int == x
    ensures x > MaxInt as int ==> Wrap(x) as int == x - 0x1_0000_0000 < 0
  {
  }

  /** `Math.abs(int)`: the negation of `MIN_VALUE` overflows back to `MIN_VALUE`. */
  function Abs(x: int32): (r: int)
    ensures x != MinInt ==> r >= 0 && (r == x as int || r == -(x as int))
    ensures x == MinInt ==> r == MinInt as int
  {
    if x == MinInt then MinInt as int else if x < 0 then -(x as int) else x as int
  }

  // ---------------------------------------------------------------------
  // String.indexOf(String, int) for a one-character needle
  // ---------------------------------------------------------------------

  /**
   * The first position at or after `from` holding `c`, or -1; like Java, a
   * `from` at or past the end finds nothing.
   */
  function IndexOf(s: string, c: char, from: nat): (r: int)
    decreases |s| - from
    ensures r == -1 || from <= r < |s|
    ensures r >= 0 ==> s[r] == c
  {
    if from >= |s| then -1
    else if s[from] == c then from
    else IndexOf(s, c, from + 1)
  }

  /** The first `c` at or after `from` is at `k`: then IndexOf finds `k`. */
  lemma IndexOfAt(s: string, c: char, from: nat, k: nat)
    requires from <= k < |s| && s[k] == c
    requires forall i :: from <= i < k ==> s[i] != c
    ensures IndexOf(s, c, from) == k
    decreases k - from
  {
    if from < k {
      IndexOfAt(s, c, from + 1, k);
    }
  }

  /** No `c` at or after `from`: IndexOf reports -1. */
  lemma IndexOfAbsent(s: string, c: char, from: nat)
    requires forall i :: from <= i < |s| ==> s[i] != c
    ensures IndexOf(s, c, from) == -1
    decreases |s| - from
  {
    if from < |s| {
      IndexOfAbsent(s, c, from + 1);
    }
  }

  /** What IndexOf finds is the first `c` from `from`; when it finds none, there is none. */
  lemma {:induction false} IndexOfFirst(s: string, c: char, from: nat)
    ensures IndexOf(s, c, from) >= 0 ==> forall i :: from <= i < IndexOf(s, c, from) ==> s[i] != c
    ensures IndexOf(s, c, from) == -1 ==> forall i :: from <= i < |s| ==> s[i] != c
    decreases |s| - from
  {
    if from < |s| && s[from] != c {
      IndexOfFirst(s, c, from + 1);
    }
  }

  /** With no `c` between `from` and `to`, searching from `from` is searching from `to`. */
  lemma IndexOfSkip(s: string, c: char, from: nat, to: nat)
    requires from <= to <= |s|
    requires forall i :: from <= i < to ==> s[i] != c
    ensures IndexOf(s, c, from) == IndexOf(s, c, to)
  {
    var r := IndexOf(s, c, to);
    IndexOfFirst(s, c, to);
    if r < 0 {
      IndexOfAbsent(s, c, from);
    } else {
      IndexOfAt(s, c, from, r);
    }
  }

  /** Searching in `p + q` past `p` is searching in `q`, shifted by |p|. */
  lemma IndexOfShift(p: string, q: string, c: char, k: nat)
    ensures IndexOf(p + q, c, |p| + k) ==
            (if IndexOf(q, c, k) < 0 then -1 else |p| + IndexOf(q, c, k))
  {
    var s := p + q;
    var r := IndexOf(q, c, k);
    IndexOfFirst(q, c, k);
    if r < 0 {
      forall i | |p| + k <= i < |s| ensures s[i] != c {
        assert s[i] == q[i - |p|];
      }
      IndexOfAbsent(s, c, |p| + k);
    } else {
      forall i | |p| + k <= i < |p| + r ensures s[i] != c {
        assert s[i] == q[i - |p|];
      }
      assert s[|p| + r] == q[r];
      IndexOfAt(s, c, |p| + k, |p| + r);
    }
  }

  // ---------------------------------------------------------------------
  // String.trim()
  // ---------------------------------------------------------------------

  /** Drops the leading characters at or below U+0020. */
  function StripLeading(s: string): (r: string)
    ensures |r| <= |s| && r == s[|s| - |r|..]
    ensures r == [] || r[0] > ' '
    ensures forall i :: 0 <= i < |s| - |r| ==> s[i] <= ' '
  {
    if s != [] && s[0] <= ' ' then StripLeading(s[1..]) else s
  }

  /** Drops the trailing characters at or below U+0020. */
  function StripTrailing(s: string): (r: string)
    ensures |r| <= |s| && r == s[..|r|]
    ensures r == [] || r[|r| - 1] > ' '
    ensures forall i :: |r| <= i < |s| ==> s[i] <= ' '
  {
    if s != [] && s[|s| - 1] <= ' ' then StripTrailing(s[..|s| - 1]) else s
  }

  /** `String.trim()`: both ends stripped of characters at or below U+0020. */
  function Trim(s: string): (r: string)
    ensures |r| <= |s|
    ensures r == [] || (r[0] > ' ' && r[|r| - 1] > ' ')
  {
    var l := StripLeading(s);
    var r := StripTrailing(l);
    assert r == [] || r[0] == l[0];
    r
  }

  /** Trimming yields nothing exactly when every character is at or below U+0020. */
  lemma TrimEmpty(s: string)
    ensures Trim(s) == [] <==> forall i :: 0 <= i < |s| ==> s[i] <= ' '
  {
    var l := StripLeading(s);
    if Trim(s) == [] {
    } else {
      var t := Trim(s);
      assert t[0] == l[0];
      assert l[0] == s[|s| - |l|];
    }
  }

  /** A trimmed text neither starts nor ends with a character at or below U+0020. */
  lemma TrimEnds(s: string)
    ensures var t := Trim(s); t == [] || (t[0] > ' ' && t[|t| - 1] > ' ')
  {
    var l := StripLeading(s);
    var t := Trim(s);
    if t != [] {
      assert t[0] == l[0];
    }
  }

  // ---------------------------------------------------------------------
  // Integer.toString(int)
  // ---------------------------------------------------------------------

  predicate IsDigit(c: char) { '0' <= c <= '9' }

  predicate AllDigits(s: string) { forall i :: 0 <= i < |s| ==> IsDigit(s[i]) }

  function DigitChar(d: int): char
    requires 0 <= d <= 9
  {
    ('0' as int + d) as char
  }

  /** Decimal digits of `n`, most significant first, no leading zeros. */
  function NatToString(n: nat): (r: string)
    ensures |r| > 0
    ensures n >= 10 ==> r[0] != '0'
  {
    if n < 10 then [DigitChar(n)] else NatToString(n / 10) + [DigitChar(n % 10)]
  }

  /** `Integer.toString(int)`: a minus sign for negatives, then the digits of the magnitude. */
  function IntToString(n: int): (r: string)
    ensures |r| > 0
  {
    if n < 0 then "-" + NatToString(-n) else NatToString(n)
  }

  /** The decimal rendering of a natural number is all digits. */
  lemma {:induction false} NatToStringDigits(n: nat)
    ensures AllDigits(NatToString(n))
  {
    if n >= 10 {
      NatToStringDigits(n / 10);
      var t := NatToString(n / 10);
      assert forall i :: 0 <= i < |t| ==> (t + [DigitChar(n % 10)])[i] == t[i];
    }
  }

  /** The decimal rendering of an integer is digits, after a minus sign when negative. */
  lemma IntToStringChars(n: int)
    ensures forall i :: 0 <= i < |IntToString(n)| ==> IsDigit(IntToString(n)[i]) || (i == 0 && n < 0 && IntToString(n)[i] == '-')
  {
    if n < 0 {
      var t := NatToString(-n);
      NatToStringDigits(-n);
      assert forall i :: 1 <= i < |t| + 1 ==> ("-" + t)[i] == t[i - 1];
    } else {
      NatToStringDigits(n);
    }
  }

  // ---------------------------------------------------------------------
  // Integer.parseInt(String) / Integer.valueOf(String)
  // ---------------------------------------------------------------------

  /**
   * The decimal digits of `s` from `i` on, accumulated onto `acc` from the
   * most significant; None at the first character that is not a digit.
   */
  function ParseDigits(s: string, i: nat, acc: nat): (r: Option<nat>)
    ensures r.Some? <==> forall k :: i <= k < |s| ==> IsDigit(s[k])
    decreases |s| - i
  {
    if i >= |s| then Some(acc)
    else if !IsDigit(s[i]) then None
    else ParseDigits(s, i + 1, acc * 10 + (s[i] as int - '0' as int))
  }

  /**
   * `Integer.parseInt(s)`: an optional `-` or `+`, then one or more decimal
   * digits whose value fits in 32 bits; anything else raises
   * NumberFormatException.
   */
  function ParseInt(s: string): (r: Result<int32, JavaException>)
    ensures r.Failure? ==> r.error == NumberFormatException
    ensures r.Success? ==> |s| > 0 && (IsDigit(s[0]) || ((s[0] == '-' || s[0] == '+') && |s| > 1))
    ensures r.Success? ==> forall k :: 0 < k < |s| ==> IsDigit(s[k])
    ensures r.Success? && r.value < 0 ==> s[0] == '-'
  {
    if |s| == 0 then Failure(NumberFormatException)
    else
      var negative := s[0] == '-';
      if s[0] < '0' && s[0] != '-' && s[0] != '+' then Failure(NumberFormatException)
      else
        var first := if s[0] < '0' then 1 else 0;
        if first == |s| then Failure(NumberFormatException)
        else
          match ParseDigits(s, first, 0)
          case None => Failure(NumberFormatException)
          case Some(magnitude) =>
            var v: int := if negative then -(magnitude as int) else magnitude;
            if MinInt as int <= v <= MaxInt as int then Success(v as int32)
            else Failure(NumberFormatException)
  }

  /** Accumulating one more digit at the end: the value so far times ten plus that digit. */
  lemma {:induction false} ParseDigitsSnoc(t: string, d: char, i: nat, acc: nat)
    requires i <= |t| && IsDigit(d)
    ensures ParseDigits(t + [d], i, acc) ==
            match ParseDigits(t, i, acc)
            case None => None
            case Some(v) => Some(v * 10 + (d as int - '0' as int))
    decreases |t| - i
  {
    if i < |t| {
      assert (t + [d])[i] == t[i];
      if IsDigit(t[i]) {
        ParseDigitsSnoc(t, d, i + 1, acc * 10 + (t[i] as int - '0' as int));
      }
    } else {
      assert (t + [d])[i] == d;
    }
  }

  /** A character put in front shifts the positions by one and changes nothing else. */
  lemma {:induction false} ParseDigitsCons(c: char, t: string, i: nat, acc: nat)
    ensures ParseDigits([c] + t, i + 1, acc) == ParseDigits(t, i, acc)
    decreases |t| - i
  {
    if i < |t| {
      assert ([c] + t)[i + 1] == t[i];
      if IsDigit(t[i]) {
        ParseDigitsCons(c, t, i + 1, acc * 10 + (t[i] as int - '0' as int));
      }
    }
  }

  /** The digits `Integer.toString` writes for `n` read back as `n`. */
  lemma {:induction false} ParseDigitsOfNatToString(n: nat)
    ensures ParseDigits(NatToString(n), 0, 0) == Some(n)
  {
    if n < 10 {
      assert ParseDigits(NatToString(n), 1, n) == Some(n);
    } else {
      ParseDigitsOfNatToString(n / 10);
      ParseDigitsSnoc(NatToString(n / 10), DigitChar(n % 10), 0, 0);
    }
  }

  /** `Integer.parseInt(Integer.toString(n)) == n` for every 32-bit `n`. */
  lemma ParseIntOfIntToString(n: int32)
    ensures ParseInt(IntToString(n as int)) == Success(n)
  {
    if n < 0 {
      var t := NatToString(-(n as int));
      ParseDigitsOfNatToString(-(n as int));
      ParseDigitsCons('-', t, 0, 0);
      assert IntToString(n as int) == ['-'] + t;
    } else {
      var t := NatToString(n as int);
      ParseDigitsOfNatToString(n as int);
      NatToStringDigits(n as int);
      assert IsDigit(t[0]);
    }
  }

  /** The accumulation meets the non-digit at `i` and fails, whatever it accumulated before. */
  lemma {:induction false} ParseDigitsMeetsNonDigit(s: string, j: nat, acc: nat, i: nat)
    requires j <= i < |s| && !IsDigit(s[i])
    ensures ParseDigits(s, j, acc) == None
    decreases i - j
  {
    if j < i && IsDigit(s[j]) {
      ParseDigitsMeetsNonDigit(s, j + 1, acc * 10 + (s[j] as int - '0' as int), i);
    }
  }

  /** Text holding a character that is neither a digit nor a leading sign is rejected. */
  lemma ParseIntRejectsNonDigit(s: string, i: nat)
    requires i < |s| && !IsDigit(s[i])
    requires i > 0 || (s[0] != '-' && s[0] != '+')
    ensures ParseInt(s) == Failure(NumberFormatException)
  {
    var first := if s[0] < '0' then 1 else 0;
    if first <= i && first < |s| {
      ParseDigitsMeetsNonDigit(s, first, 0, i);
    }
  }

  /** A lone sign, or empty text, is rejected. */
  lemma ParseIntRejectsNoDigits(s: string)
    requires s == [] || s == "-" || s == "+"
    ensures ParseInt(s) == Failure(NumberFormatException)
  {
  }
}
