/**
 * The size selector of the GUI: a spin box whose value is kept in the list
 * 3^1, 3^2, ..., 3^10. The Qt base class is replaced by the one `value`
 * field it stores; Python's int(text) is a parameter `parse` that yields
 * None where int raises ValueError.
 */
module SpinBox {
  import opened Wrappers
  import opened Arith
  import opened Decimal

  /** The sizes the widget offers: 3^n for n in 1..10. */
  function AllowedSizes(): (s: seq<int>)
    ensures |s| == 10 && s[0] == 3 && s[|s| - 1] == 59049
  {
    seq(10, n requires 0 <= n < 10 => Pow3(n + 1))
  }

  /** The allowed sizes are 3, 9, ..., 59049, strictly increasing. */
  lemma AllowedSizesListed()
    ensures AllowedSizes() == [3, 9, 27, 81, 243, 729, 2187, 6561, 19683, 59049]
    ensures forall a, b :: 0 <= a < b < |AllowedSizes()| ==> AllowedSizes()[a] < AllowedSizes()[b]
  {
    var s := AllowedSizes();
    assert s[0] == 3 && s[1] == 9 && s[2] == 27 && s[3] == 81 && s[4] == 243;
    assert s[5] == 729 && s[6] == 2187 && s[7] == 6561 && s[8] == 19683 && s[9] == 59049;
  }

  /**
   * The initial value as the constructor computes it, entry 7 of the list:
   * that entry is 3^8 = 6561, not the 3^7 = 2187 the constructor's comment names.
   */
  function InitialValueAsWritten(): (v: int)
    ensures v in AllowedSizes()
    ensures v == 6561 && v != Pow3(7)
  {
    AllowedSizesListed();
    AllowedSizes()[7]
  }

  /** First position of v in s, as Python's list.index; None where it raises ValueError. */
  function IndexOf(s: seq<int>, v: int): (r: Option<nat>)
    ensures r.None? <==> v !in s
    ensures r.Some? ==> r.value < |s| && s[r.value] == v && v !in s[..r.value]
  {
    if |s| == 0 then None
    else if s[0] == v then Some(0)
    else match IndexOf(s[1..], v)
      case None => None
      case Some(k) => (assert s[..k + 1] == [s[0]] + s[1..][..k]; Some(k + 1))
  }

  /** Python's max(lo, min(x, hi)) for lo <= hi. */
  function Clamp(x: int, lo: int, hi: int): (r: int)
    requires lo <= hi
    ensures lo <= r <= hi
    ensures lo <= x <= hi ==> r == x
    ensures x < lo ==> r == lo
    ensures x > hi ==> r == hi
  {
    if x < lo then lo else if x > hi then hi else x
  }

  /** The value stepBy sets: the index of the current value (0 when unlisted) moved by steps and clamped. */
  function Stepped(current: int, steps: int): (r: int)
    ensures r in AllowedSizes()
  {
    var idx := match IndexOf(AllowedSizes(), current) case Some(k) => k case None => 0;
    AllowedSizes()[Clamp(idx + steps, 0, |AllowedSizes()| - 1)]
  }

  /** From entry idx of the list, stepBy lands on entry max(0, min(idx + steps, 9)). */
  lemma SteppedFromListed(idx: nat, steps: int)
    requires idx < |AllowedSizes()|
    ensures Stepped(AllowedSizes()[idx], steps) == AllowedSizes()[Clamp(idx + steps, 0, 9)]
  {
    AllowedSizesListed();
    var k := IndexOf(AllowedSizes(), AllowedSizes()[idx]).value;
    assert k == idx;
  }

  /** An unlisted value is treated as entry 0. */
  lemma SteppedFromUnlisted(current: int, steps: int)
    requires current !in AllowedSizes()
    ensures Stepped(current, steps) == AllowedSizes()[Clamp(steps, 0, 9)]
  {
  }

  /** Stepping up from 59049 stays at 59049. */
  lemma SteppingUpFromTopStays(steps: nat)
    ensures Stepped(59049, steps) == 59049
  {
    AllowedSizesListed();
    var s := AllowedSizes();
    assert s[9] == 59049;
    SteppedFromListed(9, steps);
    assert Clamp(9 + steps, 0, 9) == 9;
  }

  /** Stepping down from 3 stays at 3. */
  lemma SteppingDownFromBottomStays(steps: int)
    requires steps <= 0
    ensures Stepped(3, steps) == 3
  {
    AllowedSizesListed();
    var s := AllowedSizes();
    assert s[0] == 3;
    SteppedFromListed(0, steps);
    assert Clamp(steps, 0, 9) == 0;
  }

  /** Below the largest size, one step up and one step down returns to the start. */
  lemma StepUpThenDown(idx: nat)
    requires idx < |AllowedSizes()| - 1
    ensures Stepped(Stepped(AllowedSizes()[idx], 1), -1) == AllowedSizes()[idx]
  {
    SteppedFromListed(idx, 1);
    SteppedFromListed(idx + 1, -1);
  }

  /** Result of QValidator's validation of a text. */
  datatype ValidatorState = Invalid | Intermediate | Acceptable

  class PowerOfThreeSpinBox {
    var value: int

    ghost predicate Valid()
      reads this
    {
      value in AllowedSizes()
    }

    /** A new spin box shows 3^7 = 2187, entry 6 of the list (the source takes entry 7). */
    constructor ()
      ensures Valid() && value == Pow3(7) == 2187
    {
      AllowedSizesListed();
      value := AllowedSizes()[6];
    }

    /** Moves the value through the allowed sizes by `steps`, clamping at both ends. */
    method StepBy(steps: int)
      modifies this
      ensures value == Stepped(old(value), steps)
      ensures Valid()
    {
      var current := value;
      var idx := match IndexOf(AllowedSizes(), current) case Some(k) => k case None => 0;
      idx := Clamp(idx + steps, 0, |AllowedSizes()| - 1);
      value := AllowedSizes()[idx];
    }

    /** Acceptable for a listed size, Intermediate for any other integer, Invalid for non-integers; text and position come back unchanged. */
    function Validate(text: string, pos: int, parse: string -> Option<int>): (r: (ValidatorState, string, int))
      ensures r.1 == text && r.2 == pos
      ensures r.0 == Invalid <==> parse(text).None?
      ensures r.0 == Acceptable <==> parse(text).Some? && parse(text).value in AllowedSizes()
    {
      match parse(text)
      case None => (Invalid, text, pos)
      case Some(v) => if v in AllowedSizes() then (Acceptable, text, pos) else (Intermediate, text, pos)
    }

    /** The parsed size when it is listed, otherwise the current value. */
    function ValueFromText(text: string, parse: string -> Option<int>): (r: int)
      reads this
      ensures (parse(text) == Some(r) && r in AllowedSizes()) || r == value
      ensures parse(text).Some? && parse(text).value in AllowedSizes() ==> r == parse(text).value
      ensures Valid() ==> r in AllowedSizes()
    {
      match parse(text)
      case None => value
      case Some(v) => if v in AllowedSizes() then v else value
    }

    /** Python's str(value). */
    function TextFromValue(v: int): (s: string)
      ensures ParseDecimal(s) == Some(v)
    {
      IntTextRoundTrip(v);
      IntText(v)
    }

    /** Reading a value from a text agrees with validation: the parsed integer is taken exactly when it is Acceptable. */
    lemma ValueFromTextAgreesWithValidate(text: string, pos: int, parse: string -> Option<int>)
      requires Valid()
      ensures Validate(text, pos, parse).0 == Acceptable <==> parse(text) == Some(ValueFromText(text, parse))
      ensures Validate(text, pos, parse).0 != Acceptable ==> ValueFromText(text, parse) == value
    {
    }

    /** Round trip: a listed size formatted and read back is itself, for a parser that inverts the formatting. */
    lemma TextRoundTrip(v: int, parse: string -> Option<int>)
      requires v in AllowedSizes()
      requires parse(TextFromValue(v)) == Some(v)
      ensures ValueFromText(TextFromValue(v), parse) == v
      ensures Validate(TextFromValue(v), 0, parse).0 == Acceptable
    {
    }

    /** The decimal parser inverts the formatting, so the round trip holds for it. */
    lemma DecimalTextRoundTrip(v: int)
      requires v in AllowedSizes()
      ensures ValueFromText(TextFromValue(v), ParseDecimal) == v
    {
      TextRoundTrip(v, ParseDecimal);
    }
  }
}
