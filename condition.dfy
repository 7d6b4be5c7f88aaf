/** The condition evaluator (`check_condition` in main.py): a numeric
    comparison first, then a string comparison. Python's `float` is not
    modelled: the evaluator takes the parser as a parameter, and
    `DecimalParse` is one such parser, for plain decimal notation. */
module Condition {
  import opened Wrappers
  import opened Text

  /** The operators the add dialog offers, by their labels. */
  datatype Operator =
    | Greater | Less | Equal | GreaterEqual | LessEqual | NotEqual
    | Includes      // 包含
    | Excludes      // 不包含
    | UnknownOperator

  function OperatorOf(name: string): Operator {
    if name == ">" then Greater
    else if name == "<" then Less
    else if name == "=" then Equal
    else if name == ">=" then GreaterEqual
    else if name == "<=" then LessEqual
    else if name == "!=" then NotEqual
    else if name == "包含" then Includes
    else if name == "不包含" then Excludes
    else UnknownOperator
  }

  /** The six operators that the numeric branch decides. */
  predicate IsNumericOperator(op: Operator) {
    op in {Greater, Less, Equal, GreaterEqual, LessEqual, NotEqual}
  }

  /** The four operators that are false unless both sides are numbers. */
  predicate IsOrdering(op: Operator) {
    op in {Greater, Less, GreaterEqual, LessEqual}
  }

  /** `float(s) if s else 0`: the empty string counts as zero; `None` is a
      `ValueError` from the parser. */
  function NumberOf(s: string, parse: string -> Option<real>): (r: Option<real>)
    ensures s == "" ==> r == Some(0.0)
  {
    if s == "" then Some(0.0) else parse(s)
  }

  function Compare(op: Operator, a: real, b: real): bool
    requires IsNumericOperator(op)
  {
    match op
    case Greater => a > b
    case Less => a < b
    case Equal => a == b
    case GreaterEqual => a >= b
    case LessEqual => a <= b
    case NotEqual => a != b
  }

  /** `check_condition(current, condition, target)`. An ordering operator
      holds only between two numbers, and an unknown operator never holds. */
  function CheckCondition(current: string, condition: string, target: string,
                          parse: string -> Option<real>): (r: bool)
    ensures r && IsOrdering(OperatorOf(condition)) ==>
      NumberOf(current, parse).Some? && NumberOf(target, parse).Some?
    ensures OperatorOf(condition) == UnknownOperator ==> !r
  {
    var op := OperatorOf(condition);
    var c := NumberOf(current, parse);
    var t := NumberOf(target, parse);
    if c.Some? && t.Some? && IsNumericOperator(op) then
      Compare(op, c.value, t.value)
    else
      match op
      case Equal => current == target
      case NotEqual => current != target
      case Includes => IsSubstring(target, current)
      case Excludes => !IsSubstring(target, current)
      case _ => false
  }

  /** When both sides are numbers, the six comparison operators are decided
      numerically, whatever the two spellings. */
  lemma NumbersCompareNumerically(current: string, condition: string, target: string,
                                  parse: string -> Option<real>)
    requires IsNumericOperator(OperatorOf(condition))
    requires NumberOf(current, parse).Some? && NumberOf(target, parse).Some?
    ensures CheckCondition(current, condition, target, parse) ==
      Compare(OperatorOf(condition), NumberOf(current, parse).value, NumberOf(target, parse).value)
  {
  }

  /** Otherwise `=` and `!=` compare the strings, and the orderings fail. */
  lemma NonNumbersCompareAsStrings(current: string, condition: string, target: string,
                                   parse: string -> Option<real>)
    requires NumberOf(current, parse).None? || NumberOf(target, parse).None?
    ensures OperatorOf(condition) == Equal ==>
      CheckCondition(current, condition, target, parse) == (current == target)
    ensures OperatorOf(condition) == NotEqual ==>
      CheckCondition(current, condition, target, parse) == (current != target)
    ensures IsOrdering(OperatorOf(condition)) ==> !CheckCondition(current, condition, target, parse)
  {
  }

  /** `包含` and `不包含` are substring tests and never depend on the parser. */
  lemma TextOperatorsIgnoreNumbers(current: string, target: string,
                                   parse: string -> Option<real>, parse': string -> Option<real>)
    ensures CheckCondition(current, "包含", target, parse) == IsSubstring(target, current)
    ensures CheckCondition(current, "不包含", target, parse) == !IsSubstring(target, current)
    ensures CheckCondition(current, "包含", target, parse) == CheckCondition(current, "包含", target, parse')
  {
  }

  /** `!=` is exactly the negation of `=` on every input, on both branches. */
  lemma NotEqualNegatesEqual(current: string, target: string, parse: string -> Option<real>)
    ensures CheckCondition(current, "!=", target, parse) == !CheckCondition(current, "=", target, parse)
  {
  }

  /** Under a parser whose results are reals, every value equals itself, as
      a number or as a string. Python's `float` also yields NaN, which is
      unequal to itself; such a parser is outside this model. */
  lemma EqualIsReflexive(s: string, parse: string -> Option<real>)
    ensures CheckCondition(s, "=", s, parse)
  {
  }

  /** Ten to the power `n`. */
  function Pow10(n: nat): (r: nat)
    ensures r >= 1
  {
    if n == 0 then 1 else 10 * Pow10(n - 1)
  }

  /** A parser for plain decimal notation: an optional sign, digits, and an
      optional dot followed by digits, with at least one digit in all. It
      accepts a subset of what Python's `float` accepts and yields the exact
      decimal value, where `float` yields the nearest double. */
  function DecimalParse(s: string): Option<real> {
    var negative := |s| > 0 && s[0] == '-';
    var body := if |s| > 0 && (s[0] == '-' || s[0] == '+') then s[1..] else s;
    var whole := match IndexOf(body, '.') case None => body case Some(k) => body[..k];
    var frac := match IndexOf(body, '.') case None => "" case Some(k) => body[k + 1..];
    if AllDigits(whole) && AllDigits(frac) && |whole| + |frac| > 0 then
      var magnitude := DecimalValue(whole) as real + DecimalValue(frac) as real / Pow10(|frac|) as real;
      Some(if negative then -magnitude else magnitude)
    else None
  }

  /** The decimal parser reads back what `str` writes for a natural number. */
  lemma DecimalParseReadsNaturals(n: nat)
    ensures DecimalParse(NatToDecimal(n)) == Some(n as real)
  {
    var s := NatToDecimal(n);
    assert IsDigit(s[0]);
    assert '.' !in s;
  }

  lemma DecimalValueOne(ds: string)
    requires |ds| == 1 && IsDigit(ds[0])
    ensures AllDigits(ds) && DecimalValue(ds) == DigitValue(ds[0])
  {
    assert ds[..0] == [];
  }

  lemma DecimalValueTwo(ds: string)
    requires |ds| == 2 && IsDigit(ds[0]) && IsDigit(ds[1])
    ensures AllDigits(ds) && DecimalValue(ds) == DigitValue(ds[0]) * 10 + DigitValue(ds[1])
  {
    DecimalValueOne(ds[..1]);
  }

  /** A one-digit numeral. */
  lemma ParseOneDigit(s: string)
    requires |s| == 1 && IsDigit(s[0])
    ensures DecimalParse(s) == Some(DigitValue(s[0]) as real)
  {
    assert s[0] != '-' && s[0] != '+' && '.' !in s;
    DecimalValueOne(s);
    assert Pow10(0) == 1;
  }

  /** A two-digit numeral. */
  lemma ParseTwoDigits(s: string)
    requires |s| == 2 && IsDigit(s[0]) && IsDigit(s[1])
    ensures DecimalParse(s) == Some((DigitValue(s[0]) * 10 + DigitValue(s[1])) as real)
  {
    assert s[0] != '-' && s[0] != '+' && '.' !in s;
    DecimalValueTwo(s);
    assert Pow10(0) == 1;
  }

  /** Two digits, a dot and one digit. */
  lemma ParseTwoDotOne(s: string)
    requires |s| == 4 && IsDigit(s[0]) && IsDigit(s[1]) && s[2] == '.' && IsDigit(s[3])
    ensures DecimalParse(s) == Some((DigitValue(s[0]) * 10 + DigitValue(s[1])) as real + DigitValue(s[3]) as real / 10.0)
  {
    assert s[0] != '-' && s[0] != '+';
    assert IndexOf(s, '.') == Some(2);
    var whole := s[..2];
    var frac := s[3..];
    DecimalValueTwo(whole);
    DecimalValueOne(frac);
    assert |frac| == 1 && Pow10(1) == 10;
    assert DecimalValue(whole) as real + DecimalValue(frac) as real / Pow10(|frac|) as real
        == (DigitValue(s[0]) * 10 + DigitValue(s[1])) as real + DigitValue(s[3]) as real / 10.0;
  }

  lemma Parse42()
    ensures DecimalParse("42") == Some(42.0)
  {
    ParseTwoDigits("42");
  }

  lemma Parse42Point0()
    ensures DecimalParse("42.0") == Some(42.0)
  {
    ParseTwoDotOne("42.0");
  }

  lemma Parse42Point5()
    ensures DecimalParse("42.5") == Some(42.5)
  {
    ParseTwoDotOne("42.5");
  }

  lemma Parse0()
    ensures DecimalParse("0") == Some(0.0)
  {
    ParseOneDigit("0");
  }

  lemma EqualSign()
    ensures OperatorOf("=") == Equal
  {
  }

  /** "42" equals "42.0", and "" equals "0", under the decimal parser. */
  lemma NumericEqualityExamples()
    ensures CheckCondition("42", "=", "42.0", DecimalParse)
    ensures CheckCondition("", "=", "0", DecimalParse)
    ensures !CheckCondition("42", "=", "42.5", DecimalParse)
  {
    EqualSign();
    Parse42();
    Parse42Point0();
    Parse42Point5();
    Parse0();
    NumbersCompareNumerically("42", "=", "42.0", DecimalParse);
    NumbersCompareNumerically("", "=", "0", DecimalParse);
    NumbersCompareNumerically("42", "=", "42.5", DecimalParse);
  }

  lemma DiskOccurs()
    ensures IsSubstring("disk", "Error: disk full")
  {
    var s := "Error: disk full";
    assert s[7..11] == "disk";
    assert OccursAt("disk", s, 7);
  }

  lemma DiskAbsent()
    ensures !IsSubstring("disk", "ready")
  {
    forall i ensures !OccursAt("disk", "ready", i) {
      if 0 <= i && i + 4 <= 5 {
        assert "ready"[i] != 'd';
        assert "ready"[i..i + 4][0] == "ready"[i];
      }
    }
  }

  /** The text operators on sample values. */
  lemma TextOperatorExamples(parse: string -> Option<real>)
    ensures CheckCondition("Error: disk full", "包含", "disk", parse)
    ensures CheckCondition("ready", "不包含", "disk", parse)
  {
    DiskOccurs();
    DiskAbsent();
    TextOperatorsIgnoreNumbers("Error: disk full", "disk", parse, parse);
    TextOperatorsIgnoreNumbers("ready", "disk", parse, parse);
  }
}
