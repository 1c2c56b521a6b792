/** The two reporting helpers of common.py: `choice_str`, which turns a
    0-based choice number into its ordinal label, and `sum_dictionary`, which
    adds up the integer values of a dictionary. */
module Common {

  /** A dictionary key or value as the helpers see it: an integer, or some
      other value (such as the key "unassigned") that `int()` refuses. */
  datatype Scalar = Int(n: int) | Str(s: string)

  function DigitChar(d: nat): (c: char)
    requires d < 10
    ensures '0' <= c <= '9' && c as int - '0' as int == d
  {
    (d + '0' as int) as char
  }

  /** The value of a string of decimal digits. */
  function DigitsValue(s: string): nat
    requires forall i :: 0 <= i < |s| ==> '0' <= s[i] <= '9'
  {
    if s == [] then 0 else DigitsValue(s[..|s| - 1]) * 10 + (s[|s| - 1] as int - '0' as int)
  }

  /** `str(n)` for n >= 0: decimal digits, without leading zeros. */
  function NatToString(n: nat): (r: string)
    ensures |r| >= 1
    ensures forall i :: 0 <= i < |r| ==> '0' <= r[i] <= '9'
    ensures r[0] == '0' <==> n == 0
    ensures r[0] == '0' ==> |r| == 1
    decreases n
  {
    if n < 10 then [DigitChar(n)] else NatToString(n / 10) + [DigitChar(n % 10)]
  }

  /** How `str` writes an integer: an optional minus sign, then decimal
      digits with no leading zero, the only string starting with a zero
      being "0" itself (so there is no "-0"). */
  predicate Canonical(s: string) {
    s != [] && (s[0] == '-' || '0' <= s[0] <= '9')
    && (forall i :: 1 <= i < |s| ==> '0' <= s[i] <= '9')
    && (s[0] == '-' ==> |s| >= 2 && s[1] != '0')
    && (s[0] == '0' ==> |s| == 1)
  }

  /** `str(n)`: a minus sign before the digits of a negative number. */
  function IntToString(n: int): (r: string)
    ensures Canonical(r)
    ensures r[0] == '-' <==> n < 0
  {
    if n < 0 then "-" + NatToString(-n) else NatToString(n)
  }

  /** `int(s)` on what `str` produces: an optional minus sign and digits. */
  function ParseInt(s: string): int
    requires s != [] && (s[0] == '-' || '0' <= s[0] <= '9')
    requires forall i :: 1 <= i < |s| ==> '0' <= s[i] <= '9'
  {
    if s[0] == '-' then 0 - DigitsValue(s[1..]) else DigitsValue(s)
  }

  /** Reading back the digits of a natural number gives the number. */
  lemma {:induction false} NatToStringRoundTrip(n: nat)
    ensures DigitsValue(NatToString(n)) == n
    decreases n
  {
    var r := NatToString(n);
    if n >= 10 {
      NatToStringRoundTrip(n / 10);
      assert r[..|r| - 1] == NatToString(n / 10);
    }
  }

  /** `int(str(n)) == n` for every integer n. */
  lemma IntToStringRoundTrip(n: int)
    ensures ParseInt(IntToString(n)) == n
  {
    if n < 0 {
      NatToStringRoundTrip(-n);
      assert IntToString(n)[1..] == NatToString(-n);
    } else {
      NatToStringRoundTrip(n);
    }
  }

  function Pow10(e: nat): (r: nat)
    ensures r >= 1
  {
    if e == 0 then 1 else 10 * Pow10(e - 1)
  }

  /** A string of L digits is worth less than 10^L, and at least 10^(L-1)
      when it does not start with a zero. */
  lemma {:induction false} DigitsBounds(s: string)
    requires forall i :: 0 <= i < |s| ==> '0' <= s[i] <= '9'
    ensures DigitsValue(s) < Pow10(|s|)
    ensures |s| >= 1 && s[0] != '0' ==> DigitsValue(s) >= Pow10(|s| - 1)
  {
    if s != [] {
      var p := s[..|s| - 1];
      DigitsBounds(p);
      var v := DigitsValue(p);
      var d := s[|s| - 1] as int - '0' as int;
      assert DigitsValue(s) == v * 10 + d && 0 <= d <= 9;
      assert v * 10 + d < Pow10(|s|) by {
        assert v + 1 <= Pow10(|p|);
        assert (v + 1) * 10 <= Pow10(|p|) * 10;
      }
      if |s| >= 2 && s[0] != '0' {
        assert p[0] == s[0];
        assert v * 10 >= Pow10(|p| - 1) * 10;
      }
    }
  }

  lemma {:induction false} Pow10Grows(a: nat, b: nat)
    ensures a < b ==> Pow10(a) * 10 <= Pow10(b)
    decreases b
  {
    if a + 1 < b {
      Pow10Grows(a, b - 1);
    }
  }

  /** Two digit strings of the same length and value are the same string. */
  lemma {:induction false} DigitsInjective(a: string, b: string)
    requires forall i :: 0 <= i < |a| ==> '0' <= a[i] <= '9'
    requires forall i :: 0 <= i < |b| ==> '0' <= b[i] <= '9'
    requires |a| == |b| && DigitsValue(a) == DigitsValue(b)
    ensures a == b
  {
    if a != [] {
      var n := |a| - 1;
      var da := a[n] as int - '0' as int;
      var db := b[n] as int - '0' as int;
      LastDigit(DigitsValue(a[..n]), da, DigitsValue(b[..n]), db);
      DigitsInjective(a[..n], b[..n]);
      assert a == a[..n] + [a[n]] && b == b[..n] + [b[n]];
    }
  }

  lemma LastDigit(va: int, da: int, vb: int, db: int)
    requires 0 <= da <= 9 && 0 <= db <= 9 && va * 10 + da == vb * 10 + db
    ensures va == vb && da == db
  {
    var k := va - vb;
    assert k * 10 == db - da;
  }

  /** Digit strings without a leading zero (or "0" itself) of the same value
      are the same string. */
  lemma DigitsUnique(a: string, b: string)
    requires a != [] && b != []
    requires forall i :: 0 <= i < |a| ==> '0' <= a[i] <= '9'
    requires forall i :: 0 <= i < |b| ==> '0' <= b[i] <= '9'
    requires (a[0] == '0' ==> |a| == 1) && (b[0] == '0' ==> |b| == 1)
    requires DigitsValue(a) == DigitsValue(b)
    ensures a == b
  {
    DigitsBounds(a);
    DigitsBounds(b);
    if a[0] != '0' && b[0] != '0' {
      Pow10Grows(|a| - 1, |b| - 1);
      Pow10Grows(|b| - 1, |a| - 1);
    }
    DigitsInjective(a, b);
  }

  /** A canonical string starts with a minus sign exactly when its value is
      negative. */
  lemma NegativeSign(s: string)
    requires Canonical(s)
    ensures s[0] == '-' <==> ParseInt(s) < 0
  {
    if s[0] == '-' {
      DigitsBounds(s[1..]);
      assert s[1..][0] == s[1];
    }
  }

  /** `str` is the only canonical spelling of an integer: a canonical string
      that `int()` reads as n is `str(n)`. */
  lemma CanonicalIsIntToString(s: string, n: int)
    requires Canonical(s) && ParseInt(s) == n
    ensures s == IntToString(n)
  {
    var t := IntToString(n);
    IntToStringRoundTrip(n);
    NegativeSign(s);
    NegativeSign(t);
    if s[0] == '-' {
      DigitsUnique(s[1..], t[1..]);
      assert s == [s[0]] + s[1..] && t == [t[0]] + t[1..];
    } else {
      DigitsUnique(s, t);
    }
  }

  const Suffix: string := "th choice"

  /** `choice_str`: a value `int()` refuses comes back unchanged; choice
      numbers 0, 1 and 2 are the first three ordinals; any other number n is
      labelled with `str(n + 1)`, the canonical decimal form of n + 1,
      followed by "th choice". */
  function ChoiceStr(choice: Scalar): (r: string)
    ensures choice.Str? ==> r == choice.s
    ensures choice == Int(0) ==> r == "1st choice"
    ensures choice == Int(1) ==> r == "2nd choice"
    ensures choice == Int(2) ==> r == "3rd choice"
    ensures choice.Int? && !(0 <= choice.n <= 2) ==>
              |r| > |Suffix| && r[|r| - |Suffix|..] == Suffix
              && var k := |r| - |Suffix|;
              Canonical(r[..k]) && r[..k] == IntToString(choice.n + 1)
              && ParseInt(r[..k]) == choice.n + 1
  {
    match choice
    case Str(s) => s
    case Int(num) =>
      if num == 0 then "1st choice"
      else if num == 1 then "2nd choice"
      else if num == 2 then "3rd choice"
      else
        var digits := IntToString(num + 1);
        IntToStringRoundTrip(num + 1);
        assert (digits + Suffix)[..|digits|] == digits;
        digits + Suffix
  }

  /** What `sum_dictionary` adds up: the integer values of the entries, in
      iteration order, skipping the others. */
  function IntSum(dict: seq<(Scalar, Scalar)>): int {
    if dict == [] then 0 else IntSum(dict[..|dict| - 1]) + EntryValue(dict[|dict| - 1])
  }

  /** What one entry adds to the total: its value if `int()` accepts it. */
  function EntryValue(entry: (Scalar, Scalar)): int {
    match entry.1
    case Int(n) => n
    case Str(_) => 0
  }

  /** `sum_dictionary`: a running total over the dictionary, in iteration
      order; an entry `int()` refuses is skipped. */
  method SumDictionary(dict: seq<(Scalar, Scalar)>) returns (sum: int)
    ensures sum == IntSum(dict)
  {
    sum := 0;
    var i := 0;
    while i < |dict|
      invariant 0 <= i <= |dict|
      invariant sum == IntSum(dict[..i])
    {
      assert dict[..i + 1][..i] == dict[..i];
      if dict[i].1.Int? {
        sum := sum + dict[i].1.n;
      }
      i := i + 1;
    }
    assert dict[..i] == dict;
  }

  /** The total adds up part by part. */
  lemma {:induction false} IntSumAppend(a: seq<(Scalar, Scalar)>, b: seq<(Scalar, Scalar)>)
    ensures IntSum(a + b) == IntSum(a) + IntSum(b)
    decreases |b|
  {
    if b == [] {
      assert a + b == a;
    } else {
      assert (a + b)[..|a + b| - 1] == a + b[..|b| - 1];
      IntSumAppend(a, b[..|b| - 1]);
    }
  }

  /** The iteration order of the dictionary does not matter: any two orders
      of the same entries give the same total. */
  lemma {:induction false} IntSumPermutation(a: seq<(Scalar, Scalar)>, b: seq<(Scalar, Scalar)>)
    requires multiset(a) == multiset(b)
    ensures IntSum(a) == IntSum(b)
    decreases |a|
  {
    if a == [] {
      assert |b| == |multiset(b)| == 0;
    } else {
      var n := |a| - 1;
      var e := a[n];
      assert a == a[..n] + [e];
      assert e in multiset(b);
      var k :| 0 <= k < |b| && b[k] == e;
      var rest := b[..k] + b[k + 1..];
      assert b == b[..k] + [e] + b[k + 1..];
      assert multiset(a) == multiset(a[..n]) + multiset{e};
      assert multiset(b) == multiset(b[..k]) + multiset{e} + multiset(b[k + 1..]);
      assert multiset(rest) == multiset(b[..k]) + multiset(b[k + 1..]);
      Cancel(multiset(a[..n]), multiset(rest), multiset{e});
      IntSumPermutation(a[..n], rest);
      IntSumAppend(b[..k] + [e], b[k + 1..]);
      IntSumAppend(b[..k], [e]);
      IntSumAppend(b[..k], b[k + 1..]);
      assert [e][..0] == [];
    }
  }

  lemma Cancel(p: multiset<(Scalar, Scalar)>, q: multiset<(Scalar, Scalar)>, r: multiset<(Scalar, Scalar)>)
    requires p + r == q + r
    ensures p == q
  {
    assert forall x :: p[x] == (p + r)[x] - r[x] && q[x] == (q + r)[x] - r[x];
  }

  /** Swapping two blocks of entries changes nothing, an entry with a value
      `int()` refuses adds nothing, and the empty dictionary sums to 0. */
  lemma IntSumProperties(a: seq<(Scalar, Scalar)>, b: seq<(Scalar, Scalar)>, key: Scalar, s: string)
    ensures IntSum([]) == 0
    ensures IntSum(a + b) == IntSum(b + a)
    ensures IntSum(a + [(key, Str(s))] + b) == IntSum(a + b)
  {
    IntSumAppend(a, b);
    IntSumAppend(b, a);
    IntSumAppend(a + [(key, Str(s))], b);
    IntSumAppend(a, [(key, Str(s))]);
    assert [(key, Str(s))][..0] == [];
  }
}
