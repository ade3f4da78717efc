/** `removeCommas`: drop every character outside `[0-9.]`, then read what is
    left as a decimal number the way `strconv.ParseFloat` does. */
module Numerals {
  import opened Wrappers

  predicate IsDigit(c: char) { '0' <= c <= '9' }

  /** The characters the pattern `[^0-9.]+` does not match. */
  predicate IsNumeralChar(c: char) { IsDigit(c) || c == '.' }

  function DigitValue(c: char): nat
    requires IsDigit(c)
  {
    c as int - '0' as int
  }

  predicate AllDigits(t: string)
  {
    forall i :: 0 <= i < |t| ==> IsDigit(t[i])
  }

  predicate HasDigit(t: string)
  {
    exists i :: 0 <= i < |t| && IsDigit(t[i])
  }

  function Pow10(n: nat): (p: nat)
    ensures p >= 1
  {
    if n == 0 then 1 else 10 * Pow10(n - 1)
  }

  // ---------------------------------------------------------------------
  // The character filter

  /** What `ReplaceAllString(str, "")` leaves of `s` for the pattern `[^0-9.]+`. */
  function KeepNumeralChars(s: string): (r: string)
    ensures |r| <= |s|
    ensures forall i :: 0 <= i < |r| ==> IsNumeralChar(r[i])
  {
    if s == [] then []
    else if IsNumeralChar(s[0]) then [s[0]] + KeepNumeralChars(s[1..])
    else KeepNumeralChars(s[1..])
  }

  /** The filter keeps exactly the digits and dots of `s`. */
  lemma {:induction false} KeepMembers(s: string)
    ensures forall c :: c in KeepNumeralChars(s) <==> c in s && IsNumeralChar(c)
  {
    if s != [] {
      KeepMembers(s[1..]);
      assert forall c :: c in s <==> c == s[0] || c in s[1..];
    }
  }

  /** The filter works piece by piece. */
  lemma {:induction false} KeepAppend(a: string, b: string)
    ensures KeepNumeralChars(a + b) == KeepNumeralChars(a) + KeepNumeralChars(b)
  {
    if a == [] {
      assert a + b == b;
    } else {
      assert (a + b)[0] == a[0];
      assert (a + b)[1..] == a[1..] + b;
      KeepAppend(a[1..], b);
    }
  }

  /** A string made of digits and dots passes the filter unchanged. */
  lemma {:induction false} KeepFixesNumeralChars(t: string)
    requires forall i :: 0 <= i < |t| ==> IsNumeralChar(t[i])
    ensures KeepNumeralChars(t) == t
  {
    if t != [] {
      KeepFixesNumeralChars(t[1..]);
    }
  }

  /** A string with no digit and no dot leaves nothing behind. */
  lemma {:induction false} KeepDropsNoise(s: string)
    requires forall i :: 0 <= i < |s| ==> !IsNumeralChar(s[i])
    ensures KeepNumeralChars(s) == []
  {
    if s != [] {
      KeepDropsNoise(s[1..]);
    }
  }

  /** A character outside `[0-9.]` (a comma, a space, a letter of a unit) can be
      inserted anywhere without changing what the filter keeps. */
  lemma KeepIgnoresNoise(a: string, c: char, b: string)
    requires !IsNumeralChar(c)
    ensures KeepNumeralChars(a + [c] + b) == KeepNumeralChars(a + b)
  {
    KeepAppend(a + [c], b);
    KeepAppend(a, [c]);
    KeepAppend(a, b);
    assert KeepNumeralChars([c]) == [];
  }

  // ---------------------------------------------------------------------
  // The numeral grammar `digit* ('.' digit*)?` with at least one digit, and its value

  /** Position of the first dot, or |t| when there is none. */
  function DotIndex(t: string): (k: nat)
    ensures k <= |t|
    ensures k < |t| ==> t[k] == '.'
    ensures forall i :: 0 <= i < k ==> t[i] != '.'
  {
    if t == [] || t[0] == '.' then 0 else 1 + DotIndex(t[1..])
  }

  function IntPart(t: string): string
  {
    t[..DotIndex(t)]
  }

  function FracPart(t: string): string
  {
    var k := DotIndex(t);
    if k < |t| then t[k + 1..] else []
  }

  /** `t` is digits, optionally one dot followed by digits, and has a digit somewhere. */
  predicate IsDecimalNumeral(t: string)
  {
    var k := DotIndex(t);
    && AllDigits(t[..k])
    && (k < |t| ==> AllDigits(t[k + 1..]))
    && HasDigit(t)
  }

  /** Value of a digit string read most significant digit first. */
  function DigitsValue(d: string): nat
    requires AllDigits(d)
  {
    if d == [] then 0 else 10 * DigitsValue(d[..|d| - 1]) + DigitValue(d[|d| - 1])
  }

  /** `d / 10^n`: a run of n fraction digits worth d. */
  function Shifted(d: nat, n: nat): real
  {
    d as real / Pow10(n) as real
  }

  /** The number written with integer digits `i` and fraction digits `f`. */
  function PartsValue(i: string, f: string): real
    requires AllDigits(i) && AllDigits(f)
  {
    DigitsValue(i) as real + Shifted(DigitsValue(f), |f|)
  }

  /** The exact number a decimal numeral denotes: integer part plus fraction. */
  function NumeralValue(t: string): real
    requires IsDecimalNumeral(t)
  {
    PartsValue(IntPart(t), FracPart(t))
  }

  /** A non-empty run of digits is a numeral worth its digit value. */
  lemma DigitsNumeral(t: string)
    requires AllDigits(t) && t != []
    ensures IsDecimalNumeral(t) && NumeralValue(t) == DigitsValue(t) as real
  {
    assert DotIndex(t) == |t|;
    assert t[..|t|] == t;
    assert IsDigit(t[0]);
  }

  // ---------------------------------------------------------------------
  // The parser: one left-to-right pass, as strconv's readFloat does it

  datatype NumError = InvalidSyntax

  /** `mantissa / 10^scale`, the digits read so far and how many followed the dot. */
  datatype Decimal = Decimal(mantissa: nat, scale: nat)
  {
    function Value(): real
    {
      mantissa as real / Pow10(scale) as real
    }
  }

  function Scan(t: string, i: nat, acc: Decimal, sawDot: bool, sawDigit: bool): Result<Decimal, NumError>
    requires i <= |t|
    decreases |t| - i
  {
    if i == |t| then
      if sawDigit then Success(acc) else Failure(InvalidSyntax)
    else if IsDigit(t[i]) then
      var scale := if sawDot then acc.scale + 1 else acc.scale;
      Scan(t, i + 1, Decimal(10 * acc.mantissa + DigitValue(t[i]), scale), sawDot, true)
    else if t[i] == '.' && !sawDot then
      Scan(t, i + 1, acc, true, sawDigit)
    else
      Failure(InvalidSyntax)
  }

  /** `strconv.ParseFloat(t, 64)` on a string of digits and dots, with exact arithmetic. */
  function ParseDecimal(t: string): (r: Result<real, NumError>)
    ensures t == [] ==> r.Failure?
    ensures r.Success? ==> 0.0 <= r.value
  {
    match Scan(t, 0, Decimal(0, 0), false, false)
    case Success(d) => Success(d.Value())
    case Failure(e) => Failure(e)
  }

  /** End of the run of digits that starts at `i`. */
  ghost function DigitRun(t: string, i: nat): (j: nat)
    requires i <= |t|
    ensures i <= j <= |t| && AllDigits(t[i..j])
    ensures j < |t| ==> !IsDigit(t[j])
    decreases |t| - i
  {
    if i == |t| || !IsDigit(t[i]) then i
    else
      var j := DigitRun(t, i + 1);
      assert forall k :: 0 < k < j - i ==> t[i..j][k] == t[i + 1..j][k - 1];
      j
  }

  /** The mantissa `m` with the digits `d` appended to it. */
  function Fold(m: nat, d: string): nat
    requires AllDigits(d)
  {
    m * Pow10(|d|) + DigitsValue(d)
  }

  /** One more digit at the end of a run: the mantissa arithmetic. */
  lemma DigitsStep(t: string, i: nat, j: nat, m: nat)
    requires i < j <= |t| && AllDigits(t[i..j])
    ensures AllDigits(t[i..j - 1]) && IsDigit(t[j - 1])
    ensures 10 * Fold(m, t[i..j - 1]) + DigitValue(t[j - 1]) == Fold(m, t[i..j])
  {
    assert t[i..j][..j - i - 1] == t[i..j - 1];
    assert t[i..j][j - i - 1] == t[j - 1];
    var p := Pow10(j - 1 - i);
    assert Pow10(j - i) == 10 * p;
    ShiftDigit(m, p, DigitsValue(t[i..j - 1]), DigitValue(t[j - 1]));
  }

  /** Scanning a run of digits folds them into the mantissa in one step. */
  lemma {:induction false} ScanDigits(t: string, i: nat, j: nat, acc: Decimal, sawDot: bool, sawDigit: bool)
    requires i <= j <= |t| && AllDigits(t[i..j])
    ensures Scan(t, i, acc, sawDot, sawDigit)
         == Scan(t, j, Decimal(Fold(acc.mantissa, t[i..j]), if sawDot then acc.scale + (j - i) else acc.scale),
                 sawDot, sawDigit || i < j)
    decreases j - i
  {
    if i == j {
      assert t[i..j] == [];
    } else {
      DigitsStep(t, i, j, acc.mantissa);
      ScanDigits(t, i, j - 1, acc, sawDot, sawDigit);
      var m := Fold(acc.mantissa, t[i..j - 1]);
      var sc := if sawDot then acc.scale + (j - 1 - i) else acc.scale;
      assert Scan(t, j - 1, Decimal(m, sc), sawDot, sawDigit || i < j - 1)
          == Scan(t, j, Decimal(10 * m + DigitValue(t[j - 1]), if sawDot then sc + 1 else sc), sawDot, true);
    }
  }

  lemma ShiftDivide(a: nat, b: nat, p: nat)
    requires p >= 1
    ensures (a * p + b) as real / p as real == a as real + b as real / p as real
  {
    assert (a * p + b) as real == a as real * p as real + b as real;
  }

  /** Case of `ParseDecimalCorrect`: the whole string is digits. */
  lemma ParseAllDigits(t: string)
    requires AllDigits(t)
    ensures ParseDecimal(t).Success? <==> IsDecimalNumeral(t)
    ensures IsDecimalNumeral(t) ==> ParseDecimal(t) == Success(NumeralValue(t))
  {
    ScanDigits(t, 0, |t|, Decimal(0, 0), false, false);
    assert t[0..|t|] == t;
    assert DotIndex(t) == |t|;
    assert t[..DotIndex(t)] == t;
    assert HasDigit(t) <==> 0 < |t| by {
      if 0 < |t| { assert IsDigit(t[0]); }
    }
    assert FracPart(t) == [];
    assert Decimal(DigitsValue(t), 0).Value() == DigitsValue(t) as real;
  }

  /** Case of `ParseDecimalCorrect`: digits, then a character that is neither digit nor dot. */
  lemma ParseBadChar(t: string, j: nat)
    requires j < |t| && AllDigits(t[..j]) && !IsDigit(t[j]) && t[j] != '.'
    ensures ParseDecimal(t).Failure? && !IsDecimalNumeral(t)
  {
    ScanDigits(t, 0, j, Decimal(0, 0), false, false);
    assert t[0..j] == t[..j];
    assert DotIndex(t) > j;
    assert t[..DotIndex(t)][j] == t[j];
  }

  /** Scanning digits, a dot and digits leaves the dot recorded and both runs
      folded into the mantissa, the second one counted in the scale. */
  lemma ScanThroughDot(t: string, j1: nat, j2: nat)
    requires j1 < j2 <= |t| && AllDigits(t[..j1]) && t[j1] == '.' && AllDigits(t[j1 + 1..j2])
    ensures DotIndex(t) == j1
    ensures Scan(t, 0, Decimal(0, 0), false, false)
         == Scan(t, j2, Decimal(DigitsValue(t[..j1]) * Pow10(j2 - j1 - 1) + DigitsValue(t[j1 + 1..j2]), j2 - j1 - 1),
                 true, 0 < j1 || j1 + 1 < j2)
  {
    ScanDigits(t, 0, j1, Decimal(0, 0), false, false);
    assert t[0..j1] == t[..j1];
    var acc1 := Decimal(DigitsValue(t[..j1]), 0);
    assert Scan(t, j1, acc1, false, 0 < j1) == Scan(t, j1 + 1, acc1, true, 0 < j1);
    ScanDigits(t, j1 + 1, j2, acc1, true, 0 < j1);
  }

  /** Case of `ParseDecimalCorrect`: digits, a dot, digits, end of input. */
  lemma ParseAfterDotAtEnd(t: string, j1: nat)
    requires j1 < |t| && AllDigits(t[..j1]) && t[j1] == '.' && AllDigits(t[j1 + 1..])
    ensures ParseDecimal(t).Success? <==> IsDecimalNumeral(t)
    ensures IsDecimalNumeral(t) ==> ParseDecimal(t) == Success(NumeralValue(t))
  {
    var j2 := |t|;
    assert t[j1 + 1..j2] == t[j1 + 1..];
    ScanThroughDot(t, j1, j2);
    var n := j2 - j1 - 1;
    assert FracPart(t) == t[j1 + 1..j2];
    assert HasDigit(t) <==> 0 < j1 || j1 + 1 < j2 by {
      if 0 < j1 { assert t[..j1][0] == t[0]; }
      else if j1 + 1 < j2 { assert t[j1 + 1..j2][0] == t[j1 + 1]; }
      else { assert |t| == 1 && t[0] == '.'; }
    }
    ShiftDivide(DigitsValue(t[..j1]), DigitsValue(t[j1 + 1..j2]), Pow10(n));
  }

  /** Case of `ParseDecimalCorrect`: digits, a dot, digits, then a character
      that is not a digit. */
  lemma ParseAfterDotBadChar(t: string, j1: nat, j2: nat)
    requires j1 < j2 < |t| && AllDigits(t[..j1]) && t[j1] == '.' && AllDigits(t[j1 + 1..j2])
    requires !IsDigit(t[j2])
    ensures ParseDecimal(t).Failure? && !IsDecimalNumeral(t)
  {
    ScanThroughDot(t, j1, j2);
    assert t[j1 + 1..][j2 - j1 - 1] == t[j2];
  }

  /** The one-pass parser accepts exactly the decimal numerals, and reads each
      one as its integer part plus its fraction. */
  lemma ParseDecimalCorrect(t: string)
    ensures ParseDecimal(t).Success? <==> IsDecimalNumeral(t)
    ensures IsDecimalNumeral(t) ==> ParseDecimal(t) == Success(NumeralValue(t))
  {
    var j1 := DigitRun(t, 0);
    assert t[0..j1] == t[..j1];
    if j1 == |t| {
      assert t[..j1] == t;
      ParseAllDigits(t);
    } else if t[j1] != '.' {
      ParseBadChar(t, j1);
    } else {
      var j2 := DigitRun(t, j1 + 1);
      if j2 == |t| {
        ParseAfterDotAtEnd(t, j1);
      } else {
        ParseAfterDotBadChar(t, j1, j2);
      }
    }
  }

  // ---------------------------------------------------------------------
  // removeCommas

  /** `removeCommas`: filter, then parse. Fails exactly when what is left is not
      a decimal numeral (the empty string, ".", "1.2.3"); the Go function returns
      0 beside the error, which the callers reach through `GetOr(0.0)`. */
  function RemoveCommas(s: string): (r: Result<real, NumError>)
    ensures r.Success? <==> IsDecimalNumeral(KeepNumeralChars(s))
    ensures r.Success? ==> r.value == NumeralValue(KeepNumeralChars(s))
  {
    ParseDecimalCorrect(KeepNumeralChars(s));
    ParseDecimal(KeepNumeralChars(s))
  }

  /** Adding or removing a comma, a space or a letter anywhere does not change the result. */
  lemma RemoveCommasIgnoresNoise(a: string, c: char, b: string)
    requires !IsNumeralChar(c)
    ensures RemoveCommas(a + [c] + b) == RemoveCommas(a + b)
  {
    KeepIgnoresNoise(a, c, b);
  }

  /** The filter is the only thing that looks at the non-numeral characters. */
  lemma RemoveCommasOfFiltered(s: string)
    ensures RemoveCommas(KeepNumeralChars(s)) == RemoveCommas(s)
  {
    KeepFixesNumeralChars(KeepNumeralChars(s));
  }

  /** A count or a size as the storage summary prints it, digits followed by
      a space and a unit or other letters, reads as the digits alone. */
  lemma RemoveCommasDigitsThenNoise(t: string, noise: string)
    requires AllDigits(t) && t != []
    requires forall i :: 0 <= i < |noise| ==> !IsNumeralChar(noise[i])
    ensures RemoveCommas(t + noise) == Success(DigitsValue(t) as real)
  {
    KeepAppend(t, noise);
    KeepFixesNumeralChars(t);
    KeepDropsNoise(noise);
    assert KeepNumeralChars(t + noise) == t;
    DigitsNumeral(t);
  }

  /** Digits, a dot and digits, with a digit on at least one side, read as the
      first run plus the second run shifted right by its length; a trailing
      zero in the fraction ("1234.50") changes nothing but the shift. */
  lemma RemoveCommasDecimal(a: string, b: string)
    requires AllDigits(a) && AllDigits(b) && (a != [] || b != [])
    ensures RemoveCommas(a + "." + b)
         == Success(PartsValue(a, b))
  {
    var t := a + "." + b;
    assert t[|a|] == '.';
    assert forall i :: 0 <= i < |a| ==> t[i] == a[i];
    assert DotIndex(t) == |a|;
    assert t[..|a|] == a && t[|a| + 1..] == b;
    assert HasDigit(t) by {
      if a != [] { assert IsDigit(t[0]); } else { assert IsDigit(t[|a| + 1]); }
    }
    KeepFixesNumeralChars(t);
  }

  /** Appending one digit to `x * p + y` is appending it to `y` with `p` grown tenfold. */
  lemma ShiftDigit(x: nat, p: nat, y: nat, d: nat)
    ensures 10 * (x * p + y) + d == x * (10 * p) + (10 * y + d)
  {
    assert 10 * (x * p) == x * (10 * p);
  }

  /** Digits read after other digits shift them left by their own count. */
  lemma {:induction false} DigitsValueAppend(a: string, b: string)
    requires AllDigits(a) && AllDigits(b)
    ensures AllDigits(a + b)
    ensures DigitsValue(a + b) == DigitsValue(a) * Pow10(|b|) + DigitsValue(b)
    decreases |b|
  {
    assert forall i :: 0 <= i < |a + b| ==> IsDigit((a + b)[i]) by {
      forall i | 0 <= i < |a + b|
        ensures IsDigit((a + b)[i])
      {
        if i >= |a| { assert (a + b)[i] == b[i - |a|]; }
      }
    }
    if b == [] {
      assert a + b == a;
    } else {
      var b' := b[..|b| - 1];
      assert (a + b)[..|a + b| - 1] == a + b';
      assert (a + b)[|a + b| - 1] == b[|b| - 1];
      DigitsValueAppend(a, b');
      assert b[..|b| - 1] == b';
      ShiftDigit(DigitsValue(a), Pow10(|b'|), DigitsValue(b'), DigitValue(b[|b| - 1]));
    }
  }

  /** A thousands separator between two runs of digits is read through: the
      result is the number the digits spell without it, that is
      `a * 10^|b| + b` by `DigitsValueAppend`. */
  lemma RemoveCommasGrouped(a: string, b: string)
    requires AllDigits(a) && AllDigits(b) && a != []
    ensures AllDigits(a + b)
    ensures RemoveCommas(a + "," + b) == Success(DigitsValue(a + b) as real)
  {
    assert a + "," + b == a + [','] + b;
    RemoveCommasIgnoresNoise(a, ',', b);
    DigitsValueAppend(a, b);
    RemoveCommasDigitsThenNoise(a + b, []);
    assert a + b + [] == a + b;
  }

  /** Nothing to parse, a lone dot and a second dot are rejected. */
  lemma RemoveCommasRejectExamples()
    ensures RemoveCommas("").Failure?
    ensures RemoveCommas(".").Failure?
    ensures RemoveCommas("1.2.3").Failure?
  {
    KeepFixesNumeralChars(".");
    KeepFixesNumeralChars("1.2.3");
    assert DotIndex("1.2.3") == 1;
    assert "1.2.3"[2..][1] == '.';
  }

  /** A dot at either end of the digits is accepted. */
  lemma RemoveCommasDotExamples()
    ensures RemoveCommas("5.") == Success(5.0)
    ensures RemoveCommas(".5") == Success(0.5)
  {
    KeepFixesNumeralChars("5.");
    assert DotIndex("5.") == 1 && "5."[..1] == "5";
    assert "5"[..0] == "";
    assert IsDigit("5."[0]);
    KeepFixesNumeralChars(".5");
    assert DotIndex(".5") == 0 && ".5"[..0] == "" && ".5"[1..] == "5";
    assert IsDigit(".5"[1]);
  }
}
