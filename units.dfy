/** `bytesConverter`: a number followed by a size unit, scaled to bytes. */
module Units {
  import opened Wrappers
  import opened Text
  import opened Numerals

  /** The unit names in the order they are tried; the one at index k scales by 1024^k. */
  const UnitNames: seq<string> := ["bytes", "KB", "MB", "GB", "TB"]

  function Pow1024(k: nat): nat
  {
    if k == 0 then 1 else 1024 * Pow1024(k - 1)
  }

  /** No unit name occurs in `s`. */
  predicate NoUnit(s: string)
  {
    forall j :: 0 <= j < |UnitNames| ==> !Contains(s, UnitNames[j])
  }

  /** The unit name at index `k` occurs in `s` and none before it in the table does. */
  predicate IsFirstUnit(s: string, k: nat)
  {
    && k < |UnitNames|
    && Contains(s, UnitNames[k])
    && forall j :: 0 <= j < k ==> !Contains(s, UnitNames[j])
  }

  /** The first unit name from index `from` on that occurs anywhere in `s`. */
  function FirstUnit(s: string, from: nat): (r: Option<nat>)
    requires from <= |UnitNames|
    requires forall j :: 0 <= j < from ==> !Contains(s, UnitNames[j])
    ensures r.Some? ==> IsFirstUnit(s, r.value)
    ensures r.None? <==> NoUnit(s)
    decreases |UnitNames| - from
  {
    if from == |UnitNames| then None
    else if Contains(s, UnitNames[from]) then Some(from)
    else FirstUnit(s, from + 1)
  }

  /** The search from the start of the table returns the first unit, whichever it is. */
  lemma FirstUnitFindsFirst(s: string)
    ensures forall k: nat :: IsFirstUnit(s, k) ==> FirstUnit(s, 0) == Some(k)
  {
    var u := FirstUnit(s, 0);
    forall k: nat | IsFirstUnit(s, k)
      ensures u == Some(k)
    {
      assert u.Some?;
      assert !(u.value < k) && !(k < u.value);
    }
  }

  /** `x` in the unit at index `k` of the table, in bytes. */
  function Scaled(x: real, k: nat): real
  {
    x * Pow1024(k) as real
  }

  datatype ConvertError = NotANumber(cause: NumError) | UnknownUnit

  /** `bytesConverter`. The number is read first, so a string that is not a
      number fails as such even when it names no unit; then the first unit name
      in table order that occurs in `s` (case-sensitive, anywhere in `s`) picks
      the power of 1024; if none occurs, the conversion fails. */
  function BytesConverter(s: string): (r: Result<real, ConvertError>)
    ensures RemoveCommas(s).Failure? ==> r == Failure(NotANumber(RemoveCommas(s).error))
    ensures RemoveCommas(s).Success? && NoUnit(s) ==> r == Failure(UnknownUnit)
    ensures forall k: nat :: RemoveCommas(s).Success? && IsFirstUnit(s, k)
                     ==> r == Success(Scaled(RemoveCommas(s).value, k))
  {
    var n := RemoveCommas(s);
    if n.Failure? then Failure(NotANumber(n.error))
    else
      FirstUnitFindsFirst(s);
      var u := FirstUnit(s, 0);
      if u.None? then Failure(UnknownUnit)
      else Success(Scaled(n.value, u.value))
  }

  /** The result is always the number times a power of 1024 between 1024^0 and 1024^4. */
  lemma BytesConverterScales(s: string)
    ensures BytesConverter(s).Success? <==> RemoveCommas(s).Success? && !NoUnit(s)
    ensures BytesConverter(s).Success?
            ==> exists k: nat :: IsFirstUnit(s, k)
                             && BytesConverter(s).value == Scaled(RemoveCommas(s).value, k)
  {
    if BytesConverter(s).Success? {
      var k := FirstUnit(s, 0).value;
      assert IsFirstUnit(s, k);
    }
  }

  /** One character of each unit name, in table order: a string holding
      none of them names no unit. */
  const UnitMarks: seq<char> := ['y', 'K', 'M', 'G', 'T']

  /** Characters that are neither part of a number nor the mark of a unit name. */
  predicate IsPlainNoise(u: string)
  {
    forall i :: 0 <= i < |u| ==> !IsNumeralChar(u[i]) && u[i] !in UnitMarks
  }

  /** The third postcondition of `BytesConverter` for one known unit index. */
  lemma BytesConverterAt(s: string, k: nat)
    requires RemoveCommas(s).Success? && IsFirstUnit(s, k)
    ensures BytesConverter(s) == Success(Scaled(RemoveCommas(s).value, k))
  {
  }

  /** Every unit name holds its mark, and the marks of the names tried
      before name `k` are neither digits nor in `" "` followed by name `k`. */
  lemma UnitNameFacts(k: nat)
    requires k < |UnitNames|
    ensures forall j :: 0 <= j < k ==> && UnitMarks[j] in UnitNames[j]
                                       && !IsDigit(UnitMarks[j])
                                       && UnitMarks[j] !in " " + UnitNames[k]
  {
    if k == 0 {
    } else if k == 1 {
    } else if k == 2 {
    } else if k == 3 {
    } else {
    }
  }

  /** A string without any unit mark contains no unit name. */
  lemma NoMarkNoUnit(s: string)
    requires forall i :: 0 <= i < |s| ==> s[i] !in UnitMarks
    ensures NoUnit(s)
  {
    forall j | 0 <= j < |UnitNames|
      ensures !Contains(s, UnitNames[j])
    {
      assert UnitMarks[j] in UnitNames[j];
      MissingChar(s, UnitNames[j], UnitMarks[j]);
    }
  }

  lemma NoMarkIn(u: string, c: char)
    requires IsPlainNoise(u) && c in UnitMarks
    ensures c !in u
  {
  }

  /** A letter is absent from digits followed by a text it is absent from. */
  lemma AbsentAfterDigits(t: string, u: string, c: char)
    requires AllDigits(t) && !IsDigit(c) && c !in u
    ensures c !in t + u
  {
  }

  /** A size as the storage summary writes it, digits, a space and a unit
      name, is the digits' value times that unit's power of 1024, whatever
      plain letters follow the name ("1 GBX" is one gigabyte). */
  lemma BytesConverterOfUnit(t: string, k: nat, rest: string)
    requires AllDigits(t) && t != [] && k < |UnitNames| && IsPlainNoise(rest)
    ensures BytesConverter(t + " " + UnitNames[k] + rest) == Success(Scaled(DigitsValue(t) as real, k))
  {
    var name := UnitNames[k];
    var u := " " + name + rest;
    var s := t + u;
    assert s == t + " " + name + rest;
    UnitNameFacts(k);
    RemoveCommasDigitsThenNoise(t, u);
    OccursAtEnd(t + " ", name);
    assert s == (t + " " + name) + rest;
    OccursExtend(t + " " + name, rest, name, |t| + 1);
    FoundAt(s, name, |t| + 1);
    forall j | 0 <= j < k
      ensures !Contains(s, UnitNames[j])
    {
      var c := UnitMarks[j];
      NoMarkIn(rest, c);
      assert u == (" " + name) + rest;
      AbsentAfterDigits(t, u, c);
      MissingChar(s, UnitNames[j], c);
    }
    BytesConverterAt(s, k);
  }

  /** Table order, not position in the string, decides: "KB" is tried before
      "MB" although "MB" comes first in the text. */
  lemma BytesConverterPriority(t: string)
    requires AllDigits(t) && t != []
    ensures BytesConverter(t + " MB, KB") == Success(Scaled(DigitsValue(t) as real, 1))
  {
    var s := t + " MB, KB";
    RemoveCommasDigitsThenNoise(t, " MB, KB");
    KilobytesFirst(t);
    BytesConverterAt(s, 1);
  }

  /** In digits followed by " MB, KB" the first unit in table order is "KB". */
  lemma KilobytesFirst(t: string)
    requires AllDigits(t)
    ensures IsFirstUnit(t + " MB, KB", 1)
  {
    var s := t + " MB, KB";
    assert s == (t + " MB, ") + "KB";
    AbsentAfterDigits(t, " MB, KB", 'b');
    MissingFirstChar(s, "bytes");
    OccursAtEnd(t + " MB, ", "KB");
    FoundAt(s, "KB", |t| + 5);
  }

  /** A number followed by anything that names no unit (a lower-case "kb", an
      unknown "PB") is rejected. */
  lemma BytesConverterUnknownUnit(t: string, u: string)
    requires AllDigits(t) && t != [] && IsPlainNoise(u)
    ensures BytesConverter(t + u) == Failure(UnknownUnit)
  {
    RemoveCommasDigitsThenNoise(t, u);
    NoMarkNoUnit(t + u);
  }

  /** With no digit at all the number is what fails, even when a unit is present. */
  lemma BytesConverterNoNumber(u: string)
    requires forall i :: 0 <= i < |u| ==> !IsDigit(u[i])
    ensures BytesConverter(u) == Failure(NotANumber(InvalidSyntax))
  {
    var t := KeepNumeralChars(u);
    KeepMembers(u);
    forall i | 0 <= i < |t|
      ensures !IsDigit(t[i])
    {
      assert t[i] in t;
    }
    assert !HasDigit(t);
    assert RemoveCommas(u).Failure?;
    assert RemoveCommas(u).error.InvalidSyntax?;
  }
}
