/**
 * The string operations the greeter relies on: `string.Join` (used by
 * GreetMany), the decimal rendering of a non-negative integer inside an
 * interpolated string (used by GreetManyTimes), and the inverses that show
 * those renderings lose no information.
 */
module Text {
  import opened Wrappers

  predicate IsDigit(c: char) {
    '0' <= c <= '9'
  }

  predicate AllDigits(s: string) {
    forall i :: 0 <= i < |s| ==> IsDigit(s[i])
  }

  /** A decimal numeral as .NET prints a non-negative integer: no sign, no leading zero. */
  predicate IsCanonicalDecimal(s: string) {
    |s| >= 1 && AllDigits(s) && (|s| > 1 ==> s[0] != '0')
  }

  function DigitValue(c: char): (d: nat)
    requires IsDigit(c)
    ensures d < 10
  {
    (c as int) - ('0' as int)
  }

  function DigitChar(d: nat): (c: char)
    requires d < 10
    ensures IsDigit(c) && DigitValue(c) == d
  {
    (('0' as int) + d) as char
  }

  lemma DigitCharOfValue(c: char)
    requires IsDigit(c)
    ensures DigitChar(DigitValue(c)) == c
  {
  }

  /** The text `$"{n}"` produces for a non-negative integer `n`. */
  function NatToDecimal(n: nat): (s: string)
    ensures IsCanonicalDecimal(s)
    decreases n
  {
    if n < 10 then [DigitChar(n)] else NatToDecimal(n / 10) + [DigitChar(n % 10)]
  }

  /** The value of a string of decimal digits, most significant digit first. */
  function DecimalToNat(s: string): nat
    requires AllDigits(s)
  {
    if s == [] then 0 else DecimalToNat(s[..|s| - 1]) * 10 + DigitValue(s[|s| - 1])
  }

  /** Reading back a rendered number gives the number. */
  lemma {:induction false} DecimalRoundTrip(n: nat)
    ensures DecimalToNat(NatToDecimal(n)) == n
    decreases n
  {
    if n >= 10 {
      DecimalRoundTrip(n / 10);
      var s := NatToDecimal(n);
      assert s[..|s| - 1] == NatToDecimal(n / 10);
    }
  }

  /** A canonical numeral of more than one digit stands for at least 10. */
  lemma {:induction false} CanonicalAtLeastTen(s: string)
    requires IsCanonicalDecimal(s) && |s| > 1
    ensures DecimalToNat(s) >= 10
    decreases |s|
  {
    var p := s[..|s| - 1];
    assert p[0] == s[0];
    if |p| > 1 {
      CanonicalAtLeastTen(p);
    } else {
      assert p == [s[0]];
      assert DecimalToNat(p) == DigitValue(s[0]);
    }
  }

  /** Every canonical numeral is the rendering of its value: rendering is onto. */
  lemma {:induction false} DecimalCanonicalRoundTrip(s: string)
    requires IsCanonicalDecimal(s)
    ensures NatToDecimal(DecimalToNat(s)) == s
    decreases |s|
  {
    var last := s[|s| - 1];
    if |s| == 1 {
      assert s[..0] == [];
      DigitCharOfValue(last);
      assert s == [last];
    } else {
      var p := s[..|s| - 1];
      assert p[0] == s[0];
      if |p| > 1 {
        CanonicalAtLeastTen(p);
      } else {
        assert p == [s[0]];
        assert DecimalToNat(p) == DigitValue(s[0]);
      }
      DecimalCanonicalRoundTrip(p);
      DigitCharOfValue(last);
      var n := DecimalToNat(s);
      assert n == DecimalToNat(p) * 10 + DigitValue(last);
      assert n / 10 == DecimalToNat(p) && n % 10 == DigitValue(last);
      assert s == p + [last];
    }
  }

  /** `string.Join(sep, parts)`: the parts in order, with `sep` between neighbours only. */
  function Join(sep: string, parts: seq<string>): (r: string)
    ensures |parts| == 0 ==> r == ""
    ensures |parts| > 0 ==> |parts[0]| <= |r| && r[..|parts[0]|] == parts[0]
    decreases |parts|
  {
    if |parts| == 0 then ""
    else if |parts| == 1 then parts[0]
    else parts[0] + sep + Join(sep, parts[1..])
  }

  /** A join of at least one part ends with the last part. */
  lemma {:induction false} JoinEndsWithLast(sep: string, parts: seq<string>)
    requires |parts| > 0
    ensures |parts[|parts| - 1]| <= |Join(sep, parts)|
    ensures Join(sep, parts)[|Join(sep, parts)| - |parts[|parts| - 1]|..] == parts[|parts| - 1]
    decreases |parts|
  {
    if |parts| > 1 {
      JoinEndsWithLast(sep, parts[1..]);
      var last, rest := parts[|parts| - 1], Join(sep, parts[1..]);
      assert parts[1..][|parts| - 2] == last;
      var r := parts[0] + sep + rest;
      assert r[|r| - |last|..] == rest[|rest| - |last|..];
    }
  }

  /** Joining one more part adds exactly one separator, at the end. */
  lemma {:induction false} JoinSnoc(sep: string, parts: seq<string>, last: string)
    requires |parts| > 0
    ensures Join(sep, parts + [last]) == Join(sep, parts) + sep + last
    decreases |parts|
  {
    var all := parts + [last];
    if |parts| == 1 {
      assert all[1..] == [last];
    } else {
      assert all[1..] == parts[1..] + [last];
      JoinSnoc(sep, parts[1..], last);
    }
  }

  /** `pat` occurs in `s` starting at position `i`. */
  predicate OccursAt(s: string, pat: string, i: nat) {
    i + |pat| <= |s| && s[i..i + |pat|] == pat
  }

  /** The first position at which `pat` occurs in `s`, if any. */
  function Find(s: string, pat: string): (r: Option<nat>)
    requires |pat| > 0
    ensures r.Some? ==> OccursAt(s, pat, r.value)
    ensures r.Some? ==> forall i: nat :: i < r.value ==> !OccursAt(s, pat, i)
    ensures r.None? ==> forall i: nat :: !OccursAt(s, pat, i)
    decreases |s|
  {
    if |s| < |pat| then None
    else if s[..|pat|] == pat then Some(0)
    else
      OccursShift(s, pat);
      match Find(s[1..], pat)
        case None => None
        case Some(i) => Some(i + 1)
  }

  /** Occurrences in `s` after its first character are the occurrences in `s[1..]`, moved by one. */
  lemma OccursShift(s: string, pat: string)
    requires |s| > 0
    ensures forall i: nat | 0 < i :: OccursAt(s, pat, i) <==> OccursAt(s[1..], pat, i - 1)
  {
    forall i: nat | 0 < i
      ensures OccursAt(s, pat, i) <==> OccursAt(s[1..], pat, i - 1)
    {
      if i + |pat| <= |s| {
        var a, b := s[i..i + |pat|], s[1..][i - 1..i - 1 + |pat|];
        assert |a| == |b| && forall j :: 0 <= j < |a| ==> a[j] == b[j];
      }
    }
  }

  /** A string in which the first character of `pat` never occurs does not contain `pat`. */
  lemma {:induction false} FindAbsent(s: string, pat: string)
    requires |pat| > 0 && pat[0] !in s
    ensures Find(s, pat) == None
    decreases |s|
  {
    if |s| >= |pat| {
      assert s[..|pat|][0] == s[0];
      FindAbsent(s[1..], pat);
    }
  }

  /** If the first character of `sep` is not in `a`, the first `sep` in `a + sep + b` is right after `a`. */
  lemma {:induction false} FindAfter(a: string, sep: string, b: string)
    requires |sep| > 0 && sep[0] !in a
    ensures Find(a + sep + b, sep) == Some(|a|)
    decreases |a|
  {
    var s := a + sep + b;
    if a == [] {
      assert s[..|sep|] == sep;
    } else {
      assert s[..|sep|][0] == a[0];
      assert s[1..] == a[1..] + sep + b;
      FindAfter(a[1..], sep, b);
    }
  }

  /** Cutting `s` at every occurrence of `sep`, left to right. */
  function Split(s: string, sep: string): (parts: seq<string>)
    requires |sep| > 0
    ensures |parts| >= 1
    decreases |s|
  {
    match Find(s, sep)
      case None => [s]
      case Some(i) => [s[..i]] + Split(s[i + |sep|..], sep)
  }

  /** No part holds the separator's first character (for ", ": no part holds a comma). */
  predicate FreeOf(parts: seq<string>, c: char) {
    forall k :: 0 <= k < |parts| ==> c !in parts[k]
  }

  lemma FreeOfTail(parts: seq<string>, c: char)
    requires |parts| > 0 && FreeOf(parts, c)
    ensures c !in parts[0] && FreeOf(parts[1..], c)
  {
    forall k | 0 <= k < |parts| - 1 ensures c !in parts[1..][k] {
      assert parts[1..][k] == parts[k + 1];
    }
  }

  lemma SplitAt(s: string, sep: string, i: nat)
    requires |sep| > 0 && Find(s, sep) == Some(i)
    ensures i + |sep| <= |s| && Split(s, sep) == [s[..i]] + Split(s[i + |sep|..], sep)
  {
  }

  /** Splitting undoes joining, when no part can be mistaken for a separator. */
  lemma {:induction false} SplitJoin(sep: string, parts: seq<string>)
    requires |sep| > 0 && |parts| > 0 && FreeOf(parts, sep[0])
    ensures Split(Join(sep, parts), sep) == parts
    decreases |parts|
  {
    FreeOfTail(parts, sep[0]);
    if |parts| == 1 {
      FindAbsent(parts[0], sep);
    } else {
      var head, tail := parts[0], parts[1..];
      var rest := Join(sep, tail);
      var s := head + sep + rest;
      FindAfter(head, sep, rest);
      SplitAt(s, sep, |head|);
      assert s[..|head|] == head;
      assert s[|head| + |sep|..] == rest;
      SplitJoin(sep, tail);
      assert parts == [head] + tail;
    }
  }

  /** The last position of character `c` in `s`, if any. */
  function LastIndexOf(s: string, c: char): (r: Option<nat>)
    ensures r.Some? ==> r.value < |s| && s[r.value] == c && c !in s[r.value + 1..]
    ensures r.None? ==> c !in s
    decreases |s|
  {
    if |s| == 0 then None
    else if s[|s| - 1] == c then Some(|s| - 1)
    else LastIndexOf(s[..|s| - 1], c)
  }

  /** The last `c` in `a + [c] + t` is the one after `a` when `t` holds no `c`. */
  lemma {:induction false} LastIndexAfter(a: string, c: char, t: string)
    requires c !in t
    ensures LastIndexOf(a + [c] + t, c) == Some(|a|)
    decreases |t|
  {
    var s := a + [c] + t;
    if t != [] {
      assert s[|s| - 1] == t[|t| - 1];
      assert s[..|s| - 1] == a + [c] + t[..|t| - 1];
      LastIndexAfter(a, c, t[..|t| - 1]);
    }
  }
}
