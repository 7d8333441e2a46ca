/** ASCII digit runs, decimal values and literal substring removal: the
    string primitives that the cleaning rules are built from. */
module Text {
  import opened Wrappers

  predicate IsDigit(c: char) { '0' <= c <= '9' }

  predicate AllDigits(s: string) { forall i :: 0 <= i < |s| ==> IsDigit(s[i]) }

  function DigitValue(c: char): (d: nat)
    requires IsDigit(c)
    ensures d < 10
  {
    c as int - '0' as int
  }

  /** The value of a string of decimal digits, most significant digit first
      (the empty string reads as 0). */
  function DecimalValue(s: string): nat
    requires AllDigits(s)
  {
    if s == [] then 0 else 10 * DecimalValue(s[..|s| - 1]) + DigitValue(s[|s| - 1])
  }

  /** The canonical decimal rendering of a natural number: no leading zeros. */
  function Decimal(n: nat): (s: string)
    ensures |s| > 0 && AllDigits(s)
    ensures n < 10 <==> |s| == 1
  {
    if n < 10 then [('0' as int + n) as char]
    else Decimal(n / 10) + [('0' as int + n % 10) as char]
  }

  /** Reading back what Decimal writes gives the number again. */
  lemma {:induction false} DecimalRoundTrip(n: nat)
    ensures DecimalValue(Decimal(n)) == n
  {
    var s := Decimal(n);
    if n >= 10 {
      DecimalRoundTrip(n / 10);
      assert s[..|s| - 1] == Decimal(n / 10);
    }
  }

  /** The longest prefix of s made of digits. */
  function DigitPrefix(s: string): (p: string)
    ensures |p| <= |s| && p == s[..|p|]
    ensures AllDigits(p)
    ensures |p| == |s| || !IsDigit(s[|p|])
  {
    if s == [] || !IsDigit(s[0]) then [] else [s[0]] + DigitPrefix(s[1..])
  }

  /** The index of the first digit of s, or |s| when s has none. */
  function FirstDigitAt(s: string): (k: nat)
    ensures k <= |s|
    ensures forall i :: 0 <= i < k ==> !IsDigit(s[i])
    ensures k < |s| ==> IsDigit(s[k])
  {
    if s == [] then 0 else if IsDigit(s[0]) then 0 else 1 + FirstDigitAt(s[1..])
  }

  /** The text a search for one or more digits captures: the first maximal run
      of digits, or nothing when s holds no digit. */
  function FirstDigitRun(s: string): (r: Option<string>)
    ensures r.None? <==> forall i :: 0 <= i < |s| ==> !IsDigit(s[i])
    ensures r.Some? ==> |r.value| > 0 && AllDigits(r.value)
  {
    var k := FirstDigitAt(s);
    if k == |s| then None else Some(DigitPrefix(s[k..]))
  }

  /** The first run of digits begins at the first digit and stops before the
      first non-digit after it. */
  lemma FirstDigitRunIsMaximal(s: string)
    requires FirstDigitRun(s).Some?
    ensures var k, d := FirstDigitAt(s), FirstDigitRun(s).value;
      && k + |d| <= |s| && s[k..k + |d|] == d
      && (forall i :: 0 <= i < k ==> !IsDigit(s[i]))
      && (k + |d| == |s| || !IsDigit(s[k + |d|]))
  {
    var k := FirstDigitAt(s);
    var d := DigitPrefix(s[k..]);
    assert FirstDigitRun(s).value == d;
    assert s[k..][..|d|] == d;
    assert s[k..k + |d|] == s[k..][..|d|];
    assert |d| < |s[k..]| ==> s[k + |d|] == s[k..][|d|];
  }

  /** A string that starts with a digit run followed by a non-digit: the
      run is what the search finds. */
  lemma {:induction false} FirstDigitRunOfPrefix(d: string, t: string)
    requires |d| > 0 && AllDigits(d)
    requires t == [] || !IsDigit(t[0])
    ensures FirstDigitRun(d + t) == Some(d)
  {
    DigitPrefixOf(d, t);
  }

  /** A first maximal run with digit-free text before it is what the
      search finds. */
  lemma FirstDigitRunAround(u: string, d: string, t: string)
    requires forall i :: 0 <= i < |u| ==> !IsDigit(u[i])
    requires |d| > 0 && AllDigits(d) && (t == [] || !IsDigit(t[0]))
    ensures FirstDigitRun(u + d + t) == Some(d)
  {
    assert u + d + t == u + (d + t);
    FirstDigitRunSkips(u, d + t);
    FirstDigitRunOfPrefix(d, t);
  }

  lemma {:induction false} DigitPrefixOf(d: string, t: string)
    requires AllDigits(d)
    requires t == [] || !IsDigit(t[0])
    ensures DigitPrefix(d + t) == d
  {
    if d != [] {
      assert (d + t)[1..] == d[1..] + t;
      DigitPrefixOf(d[1..], t);
    }
  }

  /** Digit searches skip a prefix that holds no digit. */
  lemma {:induction false} FirstDigitRunSkips(u: string, s: string)
    requires forall i :: 0 <= i < |u| ==> !IsDigit(u[i])
    ensures FirstDigitRun(u + s) == FirstDigitRun(s)
  {
    FirstDigitAtSkips(u, s);
    var k := FirstDigitAt(s);
    assert (u + s)[|u| + k..] == s[k..];
  }

  lemma {:induction false} FirstDigitAtSkips(u: string, s: string)
    requires forall i :: 0 <= i < |u| ==> !IsDigit(u[i])
    ensures FirstDigitAt(u + s) == |u| + FirstDigitAt(s)
  {
    if u == [] {
      assert u + s == s;
    } else {
      assert (u + s)[1..] == u[1..] + s;
      FirstDigitAtSkips(u[1..], s);
    }
  }

  /** Every non-overlapping occurrence of pat removed, scanning left to right
      (a literal replace-with-nothing). */
  function RemoveAll(s: string, pat: string): (r: string)
    requires |pat| > 0
    ensures |r| <= |s|
    ensures forall ch :: ch in r ==> ch in s
  {
    if |s| < |pat| then s
    else if s[..|pat|] == pat then RemoveAll(s[|pat|..], pat)
    else [s[0]] + RemoveAll(s[1..], pat)
  }

  /** Removing a single character deletes exactly its occurrences and keeps
      the rest in order. */
  lemma {:induction false} RemoveCharSplits(a: string, b: string, c: char)
    ensures RemoveAll(a + b, [c]) == RemoveAll(a, [c]) + RemoveAll(b, [c])
  {
    if a == [] {
      assert a + b == b;
    } else {
      assert (a + b)[1..] == a[1..] + b;
      assert (a + b)[..1] == a[..1];
      RemoveCharSplits(a[1..], b, c);
    }
  }

  lemma {:induction false} RemoveCharGone(s: string, c: char)
    ensures c !in RemoveAll(s, [c])
  {
    if s != [] {
      RemoveCharGone(s[1..], c);
    }
  }

  /** Text that does not start pat anywhere is left unchanged. */
  lemma {:induction false} RemoveAllAbsent(s: string, pat: string)
    requires |pat| > 0
    requires pat[0] !in s
    ensures RemoveAll(s, pat) == s
  {
    if |s| >= |pat| {
      assert s[0] != pat[0];
      assert s[..|pat|] != pat;
      RemoveAllAbsent(s[1..], pat);
      assert [s[0]] + s[1..] == s;
    }
  }

  /** A first character that cannot start pat is kept. */
  lemma RemoveAllKeepsHead(s: string, pat: string)
    requires |pat| > 0 && s != [] && s[0] != pat[0]
    ensures RemoveAll(s, pat) == [s[0]] + RemoveAll(s[1..], pat)
  {
    if |s| < |pat| {
      assert RemoveAll(s[1..], pat) == s[1..];
      assert s == [s[0]] + s[1..];
    } else {
      assert s[..|pat|][0] == s[0];
    }
  }

  /** A leading run of digits is kept when the pattern does not start with
      a digit. */
  lemma {:induction false} RemoveAllAfterDigits(d: string, t: string, pat: string)
    requires |pat| > 0 && !IsDigit(pat[0]) && AllDigits(d)
    ensures RemoveAll(d + t, pat) == d + RemoveAll(t, pat)
  {
    if d == [] {
      assert d + t == t;
    } else {
      var s := d + t;
      assert s[0] == d[0] && s[1..] == d[1..] + t;
      RemoveAllKeepsHead(s, pat);
      RemoveAllAfterDigits(d[1..], t, pat);
      assert [d[0]] + (d[1..] + RemoveAll(t, pat)) == d + RemoveAll(t, pat);
    }
  }
}
