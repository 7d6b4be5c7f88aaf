/** The value transform applied to a raw element value before comparison
    (`extract_value` in main.py). The three regular-expression modes become
    scanners over ASCII digits; each is proved to return the leftmost, and at
    that position the longest, substring in the language of its expression,
    which is what `re.findall(...)[0]` returns for these expressions. */
module Transform {
  import opened Wrappers
  import opened Text

  /** The extraction modes, by the labels the add dialog offers. */
  datatype ExtractMode = Raw | ExtractNumber | ExtractInteger | ExtractDecimal | StripSpaces | Length | Unrecognised

  function ModeOf(name: string): ExtractMode {
    if name == "原始值" then Raw
    else if name == "提取数字" then ExtractNumber
    else if name == "提取整数" then ExtractInteger
    else if name == "提取小数" then ExtractDecimal
    else if name == "去除空格" then StripSpaces
    else if name == "取长度" then Length
    else Unrecognised
  }

  /** The three regular expressions used by the numeric modes. */
  datatype Pattern =
    | IntegerPattern   // -?\d+
    | NumberPattern    // -?\d+\.?\d*
    | DecimalPattern   // -?\d+\.\d+

  /** `t` is in the language of `-?\d+`. */
  ghost predicate IntegerToken(t: string) {
    (t != [] && AllDigits(t)) || (|t| > 1 && t[0] == '-' && AllDigits(t[1..]))
  }

  /** `t` is an integer token, a dot at `k`, then digits. */
  ghost predicate DottedAt(t: string, k: int) {
    0 < k < |t| && t[k] == '.' && IntegerToken(t[..k]) && AllDigits(t[k + 1..])
  }

  /** `t` is in the language of pattern `p`. */
  ghost predicate InLanguage(p: Pattern, t: string) {
    match p
    case IntegerPattern => IntegerToken(t)
    case NumberPattern => IntegerToken(t) || exists k :: DottedAt(t, k)
    case DecimalPattern => exists k :: DottedAt(t, k) && k + 1 < |t|
  }

  /** End of the maximal run of digits that starts at `i`. */
  function DigitRunEnd(s: string, i: nat): (e: nat)
    requires i <= |s|
    ensures i <= e <= |s|
    ensures forall k :: i <= k < e ==> IsDigit(s[k])
    ensures e == |s| || !IsDigit(s[e])
    decreases |s| - i
  {
    if i < |s| && IsDigit(s[i]) then DigitRunEnd(s, i + 1) else i
  }

  /** Where the digits of a match starting at `i` begin: after the minus sign
      when there is one. */
  function DigitsStart(s: string, i: nat): nat
    requires i <= |s|
  {
    if i < |s| && s[i] == '-' then i + 1 else i
  }

  /** The end of the greedy match of `p` that starts at `i`, if one starts there. */
  function MatchAt(p: Pattern, s: string, i: nat): Option<nat>
    requires i <= |s|
  {
    var j := DigitsStart(s, i);
    if j < |s| && IsDigit(s[j]) then
      var e := DigitRunEnd(s, j);
      match p
      case IntegerPattern => Some(e)
      case NumberPattern =>
        if e < |s| && s[e] == '.' then Some(DigitRunEnd(s, e + 1)) else Some(e)
      case DecimalPattern =>
        if e + 1 < |s| && s[e] == '.' && IsDigit(s[e + 1]) then Some(DigitRunEnd(s, e + 1)) else None
    else None
  }

  /** The digits of an integer token taken from `s[i..m]` are `s[DigitsStart(s, i)..m]`. */
  lemma IntegerTokenDigits(s: string, i: nat, m: nat)
    requires i <= m <= |s| && IntegerToken(s[i..m])
    ensures DigitsStart(s, i) < m
    ensures forall k :: DigitsStart(s, i) <= k < m ==> IsDigit(s[k])
  {
    var t := s[i..m];
    assert t[0] == s[i];
    if t != [] && AllDigits(t) {
      assert forall k :: i <= k < m ==> s[k] == t[k - i];
    } else {
      assert forall k :: i + 1 <= k < m ==> s[k] == t[1..][k - i - 1];
    }
  }

  /** A run of digits that stops at a non-digit ends where `DigitRunEnd` says. */
  lemma RunEndUnique(s: string, j: nat, x: nat)
    requires j <= x <= |s|
    requires forall k :: j <= k < x ==> IsDigit(s[k])
    requires x == |s| || !IsDigit(s[x])
    ensures DigitRunEnd(s, j) == x
  {
  }

  /** A run of digits starting at `j` ends no later than `DigitRunEnd(s, j)`. */
  lemma RunWithinRunEnd(s: string, j: nat, x: nat)
    requires j <= x <= |s|
    requires forall k :: j <= k < x ==> IsDigit(s[k])
    ensures x <= DigitRunEnd(s, j)
  {
  }

  /** A dotted token at `s[i..m]` has its dot right after the first run of
      digits, and its fraction inside the run that follows the dot. */
  lemma DottedTokenDot(s: string, i: nat, m: nat, k: int)
    requires i <= m <= |s| && DottedAt(s[i..m], k)
    ensures DigitsStart(s, i) < |s| && IsDigit(s[DigitsStart(s, i)])
    ensures i + k == DigitRunEnd(s, DigitsStart(s, i)) && s[i + k] == '.'
    ensures m <= DigitRunEnd(s, i + k + 1)
  {
    var t := s[i..m];
    assert t[..k] == s[i..i + k];
    IntegerTokenDigits(s, i, i + k);
    assert s[i + k] == t[k];
    RunEndUnique(s, DigitsStart(s, i), i + k);
    var frac := t[k + 1..];
    assert frac == s[i + k + 1..m];
    assert forall x :: i + k + 1 <= x < m ==> s[x] == frac[x - (i + k + 1)];
    RunWithinRunEnd(s, i + k + 1, m);
  }

  /** No pattern matches at `i` unless a digit follows the optional minus. */
  lemma MatchNeedsDigit(p: Pattern, s: string, i: nat, e': nat)
    requires i <= e' <= |s| && InLanguage(p, s[i..e'])
    ensures DigitsStart(s, i) < |s| && IsDigit(s[DigitsStart(s, i)])
  {
    if IntegerToken(s[i..e']) {
      IntegerTokenDigits(s, i, e');
    } else {
      var k :| DottedAt(s[i..e'], k);
      DottedTokenDot(s, i, e', k);
    }
  }

  /** The digits of `s[j..x]` are all digits when `x` is within the run at `j`. */
  lemma RunIsDigits(s: string, j: nat, x: nat)
    requires j <= |s| && j <= x <= DigitRunEnd(s, j)
    ensures AllDigits(s[j..x])
  {
    assert forall k :: 0 <= k < x - j ==> s[j..x][k] == s[j + k];
  }

  /** With a digit after the optional minus, the first run of digits (with
      the minus) is an integer token. */
  lemma IntegerRunIsToken(s: string, i: nat)
    requires i <= |s|
    requires DigitsStart(s, i) < |s| && IsDigit(s[DigitsStart(s, i)])
    ensures IntegerToken(s[i..DigitRunEnd(s, DigitsStart(s, i))])
  {
    var j := DigitsStart(s, i);
    var e := DigitRunEnd(s, j);
    RunIsDigits(s, j, e);
    if s[i] == '-' {
      assert s[i..e][1..] == s[j..e];
    } else {
      assert s[i..e] == s[j..e];
    }
  }

  /** Every integer token at `i` ends inside the first run of digits. */
  lemma IntegerTokensEndInRun(s: string, i: nat)
    requires i <= |s|
    ensures forall e' :: i <= e' <= |s| && IntegerToken(s[i..e']) ==> e' <= DigitRunEnd(s, DigitsStart(s, i))
  {
    var j := DigitsStart(s, i);
    forall e' | i <= e' <= |s| && IntegerToken(s[i..e'])
      ensures e' <= DigitRunEnd(s, j)
    {
      IntegerTokenDigits(s, i, e');
      RunWithinRunEnd(s, j, e');
    }
  }

  /** An integer token, a dot and digits make a dotted token. */
  lemma DottedOfParts(a: string, b: string)
    requires IntegerToken(a) && AllDigits(b)
    ensures DottedAt(a + "." + b, |a|)
  {
    var t := a + "." + b;
    assert t[..|a|] == a;
    assert t[|a| + 1..] == b;
  }

  /** An integer token, a dot and digits, read off consecutive slices. */
  lemma DottedSlice(s: string, i: nat, e: nat, f: nat)
    requires i < e < f <= |s|
    requires IntegerToken(s[i..e]) && s[e] == '.' && AllDigits(s[e + 1..f])
    ensures DottedAt(s[i..f], e - i)
  {
    assert s[i..f] == s[i..e] + "." + s[e + 1..f];
    DottedOfParts(s[i..e], s[e + 1..f]);
  }

  /** A dot right after the first run of digits, with the run that follows
      it, makes a dotted token. */
  lemma DottedRunIsToken(s: string, i: nat)
    requires i <= |s|
    requires DigitsStart(s, i) < |s| && IsDigit(s[DigitsStart(s, i)])
    requires DigitRunEnd(s, DigitsStart(s, i)) < |s| && s[DigitRunEnd(s, DigitsStart(s, i))] == '.'
    ensures var e := DigitRunEnd(s, DigitsStart(s, i));
      DottedAt(s[i..DigitRunEnd(s, e + 1)], e - i)
  {
    var e := DigitRunEnd(s, DigitsStart(s, i));
    var f := DigitRunEnd(s, e + 1);
    IntegerRunIsToken(s, i);
    RunIsDigits(s, e + 1, f);
    DottedSlice(s, i, e, f);
  }

  /** Every dotted token at `i` has its dot right after the first run of
      digits and its fraction inside the run after the dot. */
  lemma DottedTokensAt(s: string, i: nat)
    requires i <= |s|
    ensures var e := DigitRunEnd(s, DigitsStart(s, i));
      forall e', k :: i <= e' <= |s| && DottedAt(s[i..e'], k) ==>
        i + k == e && e < |s| && s[e] == '.' && e' <= DigitRunEnd(s, e + 1)
  {
    forall e', k | i <= e' <= |s| && DottedAt(s[i..e'], k)
      ensures i + k == DigitRunEnd(s, DigitsStart(s, i)) && s[i + k] == '.' && e' <= DigitRunEnd(s, i + k + 1)
    {
      DottedTokenDot(s, i, e', k);
    }
  }

  /** `-?\d+` at `i` matches exactly up to the end of the first run of digits. */
  lemma IntegerMatchIsLongest(s: string, i: nat)
    requires i <= |s| && DigitsStart(s, i) < |s| && IsDigit(s[DigitsStart(s, i)])
    ensures var e := MatchAt(IntegerPattern, s, i).value;
      i < e <= |s| && InLanguage(IntegerPattern, s[i..e]) &&
      forall e' :: e < e' <= |s| ==> !InLanguage(IntegerPattern, s[i..e'])
  {
    IntegerRunIsToken(s, i);
    IntegerTokensEndInRun(s, i);
  }

  /** `-?\d+\.?\d*` at `i` takes the dot and the digits after it when a dot
      follows the first run. */
  lemma NumberMatchIsLongest(s: string, i: nat)
    requires i <= |s| && DigitsStart(s, i) < |s| && IsDigit(s[DigitsStart(s, i)])
    ensures var e := MatchAt(NumberPattern, s, i).value;
      i < e <= |s| && InLanguage(NumberPattern, s[i..e]) &&
      forall e' :: e < e' <= |s| ==> !InLanguage(NumberPattern, s[i..e'])
  {
    var e := DigitRunEnd(s, DigitsStart(s, i));
    IntegerRunIsToken(s, i);
    IntegerTokensEndInRun(s, i);
    DottedTokensAt(s, i);
    if e < |s| && s[e] == '.' {
      DottedRunIsToken(s, i);
    }
  }

  /** `-?\d+\.\d+` at `i` needs a dot and a digit right after the first run. */
  lemma DecimalMatchIsLongest(s: string, i: nat)
    requires i <= |s| && DigitsStart(s, i) < |s| && IsDigit(s[DigitsStart(s, i)])
    ensures MatchAt(DecimalPattern, s, i).Some? ==>
      var e := MatchAt(DecimalPattern, s, i).value;
      i < e <= |s| && InLanguage(DecimalPattern, s[i..e]) &&
      forall e' :: e < e' <= |s| ==> !InLanguage(DecimalPattern, s[i..e'])
    ensures MatchAt(DecimalPattern, s, i).None? ==> forall e' :: i <= e' <= |s| ==> !InLanguage(DecimalPattern, s[i..e'])
  {
    var e := DigitRunEnd(s, DigitsStart(s, i));
    DottedTokensAt(s, i);
    if e + 1 < |s| && s[e] == '.' && IsDigit(s[e + 1]) {
      DottedRunIsToken(s, i);
    }
  }

  /** What `MatchAt` returns is the longest match of `p` at `i`, and it finds
      one whenever one exists. */
  lemma MatchAtIsLongestMatch(p: Pattern, s: string, i: nat)
    requires i <= |s|
    ensures MatchAt(p, s, i).Some? ==>
      var e := MatchAt(p, s, i).value;
      i < e <= |s| && InLanguage(p, s[i..e]) &&
      forall e' :: e < e' <= |s| ==> !InLanguage(p, s[i..e'])
    ensures MatchAt(p, s, i).None? ==> forall e' :: i <= e' <= |s| ==> !InLanguage(p, s[i..e'])
  {
    var j := DigitsStart(s, i);
    if j < |s| && IsDigit(s[j]) {
      match p
      case IntegerPattern => IntegerMatchIsLongest(s, i);
      case NumberPattern => NumberMatchIsLongest(s, i);
      case DecimalPattern => DecimalMatchIsLongest(s, i);
    } else {
      forall e' | i <= e' <= |s| && InLanguage(p, s[i..e'])
        ensures false
      {
        MatchNeedsDigit(p, s, i, e');
      }
    }
  }

  /** The first position at or after `i` where a match of `p` starts, with the
      end of that match. */
  function FindFirst(p: Pattern, s: string, i: nat): (r: Option<(nat, nat)>)
    requires i <= |s|
    ensures r.Some? ==> i <= r.value.0 < |s| && MatchAt(p, s, r.value.0) == Some(r.value.1)
    ensures forall a :: i <= a <= |s| && (r.None? || a < r.value.0) ==> MatchAt(p, s, a).None?
    decreases |s| - i
  {
    if i == |s| then None
    else match MatchAt(p, s, i)
      case Some(e) => Some((i, e))
      case None => FindFirst(p, s, i + 1)
  }

  /** What `re.findall(p, s)[0]` locates: the match with the leftmost start,
      and at that start the longest one; `None` when `p` matches nowhere. */
  function LeftmostMatch(p: Pattern, s: string): (r: Option<(nat, nat)>)
    ensures r.Some? ==>
      var (a, b) := r.value;
      a < b <= |s| && InLanguage(p, s[a..b]) &&
      (forall b' :: b < b' <= |s| ==> !InLanguage(p, s[a..b'])) &&
      (forall a', b' :: 0 <= a' < a && a' <= b' <= |s| ==> !InLanguage(p, s[a'..b']))
    ensures r.None? ==> forall a', b' :: 0 <= a' <= b' <= |s| ==> !InLanguage(p, s[a'..b'])
  {
    var r := FindFirst(p, s, 0);
    assert forall a', b' :: 0 <= a' <= b' <= |s| && (r.None? || a' < r.value.0) ==> !InLanguage(p, s[a'..b']) by {
      forall a', b' | 0 <= a' <= b' <= |s| && (r.None? || a' < r.value.0)
        ensures !InLanguage(p, s[a'..b'])
      {
        MatchAtIsLongestMatch(p, s, a');
      }
    }
    assert r.Some? ==> MatchAt(p, s, r.value.0) == Some(r.value.1);
    if r.Some? then
      MatchAtIsLongestMatch(p, s, r.value.0);
      r
    else
      r
  }

  /** The leftmost match of `p` in `s` as text, or "" when there is none. */
  function FirstMatchText(p: Pattern, s: string): string {
    match LeftmostMatch(p, s)
    case Some((a, b)) => s[a..b]
    case None => ""
  }

  predicate IsStripped(c: char) {
    c == ' ' || c == '\t' || c == '\n'
  }

  /** `s.replace(" ", "").replace("\t", "").replace("\n", "")`: no space, tab
      or newline remains, and every other character (carriage return
      included) keeps its number of occurrences. */
  function StripWhitespace(s: string): (r: string)
    ensures forall c :: c in r ==> !IsStripped(c)
    ensures forall c :: !IsStripped(c) ==> multiset(r)[c] == multiset(s)[c]
  {
    var spaces := RemoveChar(s, ' ');
    var tabs := RemoveChar(spaces, '\t');
    var r := RemoveChar(tabs, '\n');
    assert multiset(tabs)[' '] == 0 && multiset(r)[' '] == 0 && multiset(r)['\t'] == 0;
    r
  }

  lemma StripAppend(a: string, b: string)
    ensures StripWhitespace(a + b) == StripWhitespace(a) + StripWhitespace(b)
  {
    RemoveCharAppend(a, b, ' ');
    RemoveCharAppend(RemoveChar(a, ' '), RemoveChar(b, ' '), '\t');
    RemoveCharAppend(RemoveChar(RemoveChar(a, ' '), '\t'), RemoveChar(RemoveChar(b, ' '), '\t'), '\n');
  }

  /** The three chained replacements equal a single order-preserving filter. */
  lemma {:induction false} StripKeepsOrder(s: string)
    ensures StripWhitespace(s) == KeepUnstripped(s)
  {
    if s != [] {
      assert s == [s[0]] + s[1..];
      StripAppend([s[0]], s[1..]);
      StripKeepsOrder(s[1..]);
    }
  }

  /** Reference definition: the characters of `s` other than space, tab and
      newline, in their original order. */
  function KeepUnstripped(s: string): string {
    if s == [] then []
    else (if IsStripped(s[0]) then [] else [s[0]]) + KeepUnstripped(s[1..])
  }

  /** `extract_value(value, mode)`; `value` is `None` when the element was not found. */
  function ExtractValue(value: Option<string>, mode: string): (r: string)
    ensures value.None? ==> r == ""
    ensures value.Some? && ModeOf(mode) in {Raw, Unrecognised} ==> r == value.value
    ensures value.Some? && ModeOf(mode) == Length ==> AllDigits(r) && DecimalValue(r) == |value.value|
  {
    match value
    case None => ""
    case Some(v) =>
      match ModeOf(mode)
      case Raw => v
      case ExtractNumber => FirstMatchText(NumberPattern, v)
      case ExtractInteger => FirstMatchText(IntegerPattern, v)
      case ExtractDecimal =>
        if LeftmostMatch(DecimalPattern, v).Some? then FirstMatchText(DecimalPattern, v)
        else FirstMatchText(IntegerPattern, v)
      case StripSpaces => StripWhitespace(v)
      case Length => NatToDecimal(|v|)
      case Unrecognised => v
  }

  /** Every match of every pattern covers a digit. */
  lemma MatchHasDigit(p: Pattern, v: string, a: nat, b: nat)
    requires a <= b <= |v| && InLanguage(p, v[a..b])
    ensures exists x :: a <= x < b && IsDigit(v[x])
  {
    var t := v[a..b];
    if IntegerToken(t) {
      if t[0] == '-' { assert IsDigit(t[1..][0]) && t[1] == v[a + 1]; } else { assert t[0] == v[a]; }
    } else {
      var k :| DottedAt(t, k);
      var head := t[..k];
      if head[0] == '-' {
        assert IsDigit(head[1..][0]) && head[1] == v[a + 1];
      } else {
        assert head[0] == v[a];
      }
    }
  }

  lemma NoDigitNoMatch(p: Pattern, v: string)
    requires forall k :: 0 <= k < |v| ==> !IsDigit(v[k])
    ensures LeftmostMatch(p, v).None?
  {
    if LeftmostMatch(p, v).Some? {
      MatchHasDigit(p, v, LeftmostMatch(p, v).value.0, LeftmostMatch(p, v).value.1);
    }
  }

  /** The numeric modes return "" exactly when the value holds no digit. */
  lemma NumericModeEmptyIffNoDigit(v: string, mode: string)
    requires ModeOf(mode) in {ExtractNumber, ExtractInteger, ExtractDecimal}
    ensures ExtractValue(Some(v), mode) == "" <==> forall k :: 0 <= k < |v| ==> !IsDigit(v[k])
  {
    if k :| 0 <= k < |v| && IsDigit(v[k]) {
      var one := v[k..k + 1];
      assert AllDigits(one) && one != [];
      assert InLanguage(IntegerPattern, one) && InLanguage(NumberPattern, one);
      assert LeftmostMatch(IntegerPattern, v).Some? && LeftmostMatch(NumberPattern, v).Some?;
    } else {
      NoDigitNoMatch(NumberPattern, v);
      NoDigitNoMatch(IntegerPattern, v);
      NoDigitNoMatch(DecimalPattern, v);
    }
  }

  /** The text of the first match, read off the scan. */
  lemma FirstMatchTextOf(p: Pattern, s: string, a: nat, b: nat)
    requires FindFirst(p, s, 0) == Some((a, b))
    ensures LeftmostMatch(p, s).Some?
    ensures a <= b <= |s| && FirstMatchText(p, s) == s[a..b]
  {
    MatchAtWithin(p, s, a);
  }

  /** A match ends after its start and inside the string. */
  lemma MatchAtWithin(p: Pattern, s: string, i: nat)
    requires i <= |s| && MatchAt(p, s, i).Some?
    ensures i < MatchAt(p, s, i).value <= |s|
  {
  }

  /** No match when the scan finds nothing. */
  lemma NoMatchText(p: Pattern, s: string)
    requires FindFirst(p, s, 0).None?
    ensures LeftmostMatch(p, s).None? && FirstMatchText(p, s) == ""
  {
  }

  lemma NumberMode(v: string)
    ensures ExtractValue(Some(v), "提取数字") == FirstMatchText(NumberPattern, v)
  {
    assert ModeOf("提取数字") == ExtractNumber;
  }

  lemma IntegerMode(v: string)
    ensures ExtractValue(Some(v), "提取整数") == FirstMatchText(IntegerPattern, v)
  {
    assert ModeOf("提取整数") == ExtractInteger;
  }

  lemma DecimalMode(v: string)
    ensures LeftmostMatch(DecimalPattern, v).Some? ==> ExtractValue(Some(v), "提取小数") == FirstMatchText(DecimalPattern, v)
    ensures LeftmostMatch(DecimalPattern, v).None? ==> ExtractValue(Some(v), "提取小数") == FirstMatchText(IntegerPattern, v)
  {
    assert ModeOf("提取小数") == ExtractDecimal;
  }

  lemma VersionScan()
    ensures FindFirst(NumberPattern, "v1.2.3", 0) == Some((1, 4))
  {
    var s := "v1.2.3";
    assert MatchAt(NumberPattern, s, 0) == None;
    assert DigitRunEnd(s, 2) == 2 && DigitRunEnd(s, 4) == 4;
    assert MatchAt(NumberPattern, s, 1) == Some(4);
  }

  /** `提取数字` takes the first number, with at most one dot. */
  lemma NumberModeVersionExample()
    ensures ExtractValue(Some("v1.2.3"), "提取数字") == "1.2"
  {
    VersionScan();
    FirstMatchTextOf(NumberPattern, "v1.2.3", 1, 4);
    NumberMode("v1.2.3");
    assert "v1.2.3"[1..4] == "1.2";
  }

  lemma TrailingDotScan()
    ensures FindFirst(NumberPattern, "12.", 0) == Some((0, 3))
  {
    var s := "12.";
    assert DigitRunEnd(s, 2) == 2 && DigitRunEnd(s, 3) == 3;
    assert MatchAt(NumberPattern, s, 0) == Some(3);
  }

  /** `提取数字` keeps a trailing dot: the fraction digits are optional. */
  lemma NumberModeTrailingDotExample()
    ensures ExtractValue(Some("12."), "提取数字") == "12."
  {
    TrailingDotScan();
    FirstMatchTextOf(NumberPattern, "12.", 0, 3);
    NumberMode("12.");
    assert "12."[0..3] == "12.";
  }

  /** The scan passes over ten characters that start no match: neither a
      digit nor a minus sign. */
  lemma SkipLabel(p: Pattern, s: string)
    requires |s| >= 10
    requires forall a :: 0 <= a < 10 ==> !IsDigit(s[a]) && s[a] != '-'
    ensures FindFirst(p, s, 0) == FindFirst(p, s, 10)
  {
    FindFirstSkips(p, s, 0, 10);
  }

  /** In "Progress: dd%" the integer scan finds the two digits. */
  lemma ProgressScan(s: string)
    requires |s| == 13 && s[..10] == "Progress: " && IsDigit(s[10]) && IsDigit(s[11]) && s[12] == '%'
    ensures FindFirst(IntegerPattern, s, 0) == Some((10, 12))
  {
    assert forall a :: 0 <= a < 10 ==> s[a] == "Progress: "[a];
    SkipLabel(IntegerPattern, s);
    assert DigitRunEnd(s, 12) == 12;
    assert MatchAt(IntegerPattern, s, 10) == Some(12);
  }

  /** `提取整数` skips the leading text of a progress label. */
  lemma IntegerModeProgressExample()
    ensures ExtractValue(Some("Progress: 57%"), "提取整数") == "57"
  {
    var s := "Progress: 57%";
    assert s[..10] == "Progress: ";
    ProgressScan(s);
    FirstMatchTextOf(IntegerPattern, s, 10, 12);
    IntegerMode(s);
    assert s[10..12] == "57";
  }

  /** The same label at 12%. */
  lemma IntegerModeLowProgressExample()
    ensures ExtractValue(Some("Progress: 12%"), "提取整数") == "12"
  {
    var s := "Progress: 12%";
    assert s[..10] == "Progress: ";
    ProgressScan(s);
    FirstMatchTextOf(IntegerPattern, s, 10, 12);
    IntegerMode(s);
    assert s[10..12] == "12";
  }

  lemma NegativeScan()
    ensures FindFirst(IntegerPattern, "-3.14", 0) == Some((0, 2))
  {
    var s := "-3.14";
    assert DigitRunEnd(s, 2) == 2;
    assert MatchAt(IntegerPattern, s, 0) == Some(2);
  }

  /** `提取整数` keeps the sign and drops the fraction. */
  lemma IntegerModeNegativeExample()
    ensures ExtractValue(Some("-3.14"), "提取整数") == "-3"
  {
    NegativeScan();
    FirstMatchTextOf(IntegerPattern, "-3.14", 0, 2);
    IntegerMode("-3.14");
    assert "-3.14"[0..2] == "-3";
  }

  lemma PrefersDecimalScan()
    ensures FindFirst(DecimalPattern, "1 and 2.5", 0) == Some((6, 9))
  {
    var s := "1 and 2.5";
    assert DigitRunEnd(s, 1) == 1;
    forall a | 0 <= a < 6 ensures MatchAt(DecimalPattern, s, a) == None {
      assert a == 0 || (!IsDigit(s[a]) && s[a] != '-');
    }
    FindFirstSkips(DecimalPattern, s, 0, 6);
    assert DigitRunEnd(s, 9) == 9 && DigitRunEnd(s, 8) == 9 && DigitRunEnd(s, 7) == 7;
    assert MatchAt(DecimalPattern, s, 6) == Some(9);
  }

  /** `提取小数` prefers a later decimal over an earlier integer. */
  lemma DecimalModePrefersDecimalExample()
    ensures ExtractValue(Some("1 and 2.5"), "提取小数") == "2.5"
  {
    PrefersDecimalScan();
    FirstMatchTextOf(DecimalPattern, "1 and 2.5", 6, 9);
    DecimalMode("1 and 2.5");
    assert "1 and 2.5"[6..9] == "2.5";
  }

  lemma FallbackScans()
    ensures FindFirst(DecimalPattern, "7 items", 0).None?
    ensures FindFirst(IntegerPattern, "7 items", 0) == Some((0, 1))
  {
    var s := "7 items";
    assert DigitRunEnd(s, 1) == 1;
    forall a | 0 <= a <= |s| ensures MatchAt(DecimalPattern, s, a) == None {
      if 0 < a < |s| { assert !IsDigit(s[a]) && s[a] != '-'; }
    }
    FindFirstSkips(DecimalPattern, s, 0, |s|);
    assert MatchAt(IntegerPattern, s, 0) == Some(1);
  }

  /** `提取小数` falls back to the first integer when there is no decimal. */
  lemma DecimalModeFallbackExample()
    ensures ExtractValue(Some("7 items"), "提取小数") == "7"
  {
    FallbackScans();
    NoMatchText(DecimalPattern, "7 items");
    FirstMatchTextOf(IntegerPattern, "7 items", 0, 1);
    DecimalMode("7 items");
    assert "7 items"[0..1] == "7";
  }

  /** Positions where no match starts do not change the search's result. */
  lemma FindFirstSkips(p: Pattern, s: string, i: nat, j: nat)
    requires i <= j <= |s|
    requires forall a :: i <= a < j ==> MatchAt(p, s, a).None?
    ensures FindFirst(p, s, i) == FindFirst(p, s, j)
  {
    var r := FindFirst(p, s, i);
    var r' := FindFirst(p, s, j);
    if r.Some? {
      assert j <= r.value.0;
      assert r'.Some? && r'.value.0 <= r.value.0;
      assert r.value.0 <= r'.value.0;
    } else {
      assert r'.None?;
    }
  }


  /** `取长度` counts characters. */
  lemma LengthModeExample()
    ensures ExtractValue(Some("hello world"), "取长度") == "11"
  {
    assert |"hello world"| == 11;
    assert NatToDecimal(1) == "1";
    assert NatToDecimal(11) == NatToDecimal(1) + [DigitChar(1)];
  }

  /** `去除空格` keeps the carriage return. */
  lemma StripModeExample()
    ensures ExtractValue(Some("a b\tc\r\n"), "去除空格") == "abc\r"
  {
    var s := "a b\tc\r\n";
    assert ExtractValue(Some(s), "去除空格") == StripWhitespace(s) by {
      assert ModeOf("去除空格") == StripSpaces;
    }
    assert StripWhitespace(s) == KeepUnstripped(s) by {
      StripKeepsOrder(s);
    }
    KeepUnstrippedSample();
  }

  lemma KeepUnstrippedSample()
    ensures KeepUnstripped("a b\tc\r\n") == "abc\r"
  {
    KeepUnstrippedCons('\n', "");
    KeepUnstrippedCons('\r', "\n");
    KeepUnstrippedCons('c', "\r\n");
    KeepUnstrippedCons('\t', "c\r\n");
    KeepUnstrippedCons('b', "\tc\r\n");
    KeepUnstrippedCons(' ', "b\tc\r\n");
    KeepUnstrippedCons('a', " b\tc\r\n");
  }

  /** One character of the filter. */
  lemma KeepUnstrippedCons(c: char, rest: string)
    ensures KeepUnstripped([c] + rest) == (if IsStripped(c) then [] else [c]) + KeepUnstripped(rest)
  {
    assert ([c] + rest)[1..] == rest;
  }

  lemma {:induction false} KeepUnstrippedAppend(a: string, b: string)
    ensures KeepUnstripped(a + b) == KeepUnstripped(a) + KeepUnstripped(b)
  {
    if a != [] {
      assert (a + b)[1..] == a[1..] + b;
      KeepUnstrippedAppend(a[1..], b);
    } else {
      assert a + b == b;
    }
  }
}
