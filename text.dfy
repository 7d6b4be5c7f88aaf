/** String helpers shared by the transform, the evaluator and the resolver.
    Strings are `seq<char>`; digits are the ASCII digits only. */
module Text {
  import opened Wrappers

  predicate IsDigit(c: char) {
    '0' <= c <= '9'
  }

  predicate AllDigits(t: string) {
    forall k :: 0 <= k < |t| ==> IsDigit(t[k])
  }

  /** `t` occurs in `s` at offset `i`. */
  ghost predicate OccursAt(t: string, s: string, i: int) {
    0 <= i && i + |t| <= |s| && s[i..i + |t|] == t
  }

  /** Python's `t in s` for strings. */
  function IsSubstring(t: string, s: string): (r: bool)
    ensures r <==> exists i :: OccursAt(t, s, i)
    decreases |s|
  {
    if |t| > |s| then
      assert forall i :: !OccursAt(t, s, i);
      false
    else if s[..|t|] == t then
      assert OccursAt(t, s, 0);
      true
    else
      var rest := IsSubstring(t, s[1..]);
      assert forall i :: OccursAt(t, s[1..], i) <==> OccursAt(t, s, i + 1) by {
        forall i ensures OccursAt(t, s[1..], i) <==> OccursAt(t, s, i + 1) {
          if 0 <= i && i + |t| <= |s| - 1 {
            assert s[1..][i..i + |t|] == s[i + 1..i + 1 + |t|];
          }
        }
      }
      assert !OccursAt(t, s, 0);
      assert (exists i :: OccursAt(t, s, i)) ==> exists i :: OccursAt(t, s[1..], i) by {
        if i :| OccursAt(t, s, i) {
          assert i != 0;
          assert OccursAt(t, s[1..], i - 1);
        }
      }
      rest
  }

  /** Python's `sep.join(parts)`. */
  function Join(parts: seq<string>, sep: string): (r: string)
    ensures parts == [] ==> r == ""
    ensures |parts| == 1 ==> r == parts[0]
    ensures (exists k :: 0 <= k < |parts| && parts[k] != "") ==> r != ""
  {
    if parts == [] then ""
    else if |parts| == 1 then parts[0]
    else
      var tail := Join(parts[1..], sep);
      assert (exists k :: 0 <= k < |parts| && parts[k] != "") ==> parts[0] != "" || tail != "" by {
        if k :| 0 <= k < |parts| && parts[k] != "" {
          if k > 0 { assert parts[1..][k - 1] != ""; }
        }
      }
      parts[0] + sep + tail
  }

  /** Python's `s.replace(c, "")` for a single character `c`: every other
      character is kept, in order. */
  function RemoveChar(s: string, c: char): (r: string)
    ensures c !in r
    ensures forall x :: x != c ==> multiset(r)[x] == multiset(s)[x]
    ensures |r| <= |s|
  {
    if s == [] then []
    else
      var rest := RemoveChar(s[1..], c);
      assert s == [s[0]] + s[1..];
      if s[0] == c then rest else [s[0]] + rest
  }

  lemma {:induction false} RemoveCharAppend(a: string, b: string, c: char)
    ensures RemoveChar(a + b, c) == RemoveChar(a, c) + RemoveChar(b, c)
  {
    if a == [] {
      assert a + b == b;
    } else {
      assert (a + b)[1..] == a[1..] + b;
      RemoveCharAppend(a[1..], b, c);
    }
  }

  /** Python's `s.replace(pat, "")`: occurrences of `pat` are found left to
      right, without overlap, and dropped. */
  function RemoveAll(s: string, pat: string): (r: string)
    requires pat != ""
    ensures |r| <= |s|
    ensures !IsSubstring(pat, s) ==> r == s
    decreases |s|
  {
    if |s| >= |pat| && s[..|pat|] == pat then
      assert OccursAt(pat, s, 0);
      RemoveAll(s[|pat|..], pat)
    else if s == [] then []
    else
      assert !IsSubstring(pat, s) ==> !IsSubstring(pat, s[1..]) by {
        if IsSubstring(pat, s[1..]) {
          var i :| OccursAt(pat, s[1..], i);
          assert s[1..][i..i + |pat|] == s[i + 1..i + 1 + |pat|];
          assert OccursAt(pat, s, i + 1);
        }
      }
      [s[0]] + RemoveAll(s[1..], pat)
  }

  /** A suffix `pat` is removed and a prefix without `pat`'s first character is kept. */
  lemma {:induction false} RemoveAllTrailing(a: string, pat: string)
    requires pat != "" && pat[0] !in a
    ensures RemoveAll(a + pat, pat) == a
    decreases |a|
  {
    if a == [] {
      assert (a + pat)[..|pat|] == pat;
      assert (a + pat)[|pat|..] == [];
    } else {
      assert (a + pat)[0] != pat[0];
      assert (a + pat)[1..] == a[1..] + pat;
      RemoveAllTrailing(a[1..], pat);
    }
  }

  /** Index of the first occurrence of `c` in `s`. */
  function IndexOf(s: string, c: char): (r: Option<nat>)
    ensures r.None? <==> c !in s
    ensures r.Some? ==> r.value < |s| && s[r.value] == c && c !in s[..r.value]
  {
    if s == [] then None
    else if s[0] == c then Some(0)
    else
      match IndexOf(s[1..], c)
      case None => None
      case Some(k) =>
        assert s[..k + 1] == [s[0]] + s[1..][..k];
        Some(k + 1)
  }

  function DigitValue(c: char): nat
    requires IsDigit(c)
  {
    (c as int - '0' as int) as nat
  }

  function DigitChar(d: nat): (c: char)
    requires d < 10
    ensures IsDigit(c) && DigitValue(c) == d
  {
    ('0' as int + d) as char
  }

  /** The number a string of decimal digits denotes (most significant first). */
  function DecimalValue(ds: string): nat
    requires AllDigits(ds)
  {
    if ds == [] then 0
    else DecimalValue(ds[..|ds| - 1]) * 10 + DigitValue(ds[|ds| - 1])
  }

  /** Python's `str(n)` for a non-negative integer. */
  function NatToDecimal(n: nat): (r: string)
    ensures r != [] && AllDigits(r)
    ensures DecimalValue(r) == n
    ensures |r| > 1 ==> r[0] != '0'
  {
    if n < 10 then [DigitChar(n)]
    else
      var r := NatToDecimal(n / 10) + [DigitChar(n % 10)];
      assert r[..|r| - 1] == NatToDecimal(n / 10);
      r
  }
}
