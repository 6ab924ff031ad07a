/** Ordinal string comparisons that ignore letter case
    (`StringComparison.OrdinalIgnoreCase`), and decimal formatting of counts. */
module Text {

  /** Upper-cases one character; only the ASCII letters have a case here. */
  function Fold(c: char): char {
    if 'a' <= c <= 'z' then (c as int - 32) as char else c
  }

  /** The string with every character folded. */
  function Upper(s: string): (r: string)
    ensures |r| == |s|
    ensures forall i :: 0 <= i < |s| ==> r[i] == Fold(s[i])
  {
    seq(|s|, i requires 0 <= i < |s| => Fold(s[i]))
  }

  /** `a.Equals(b, StringComparison.OrdinalIgnoreCase)`. */
  predicate EqualsIgnoreCase(a: string, b: string) {
    Upper(a) == Upper(b)
  }

  /** `s.EndsWith(suffix, StringComparison.OrdinalIgnoreCase)`, compared
      character by character from the end of both strings. */
  predicate EndsWithIgnoreCase(s: string, suffix: string)
    decreases |suffix|
  {
    if suffix == [] then true
    else if s == [] then false
    else Fold(s[|s| - 1]) == Fold(suffix[|suffix| - 1])
         && EndsWithIgnoreCase(s[..|s| - 1], suffix[..|suffix| - 1])
  }

  lemma FoldIdempotent(c: char)
    ensures Fold(Fold(c)) == Fold(c)
  {
  }

  /** Folding twice is folding once, so a string and its upper-cased form
      are equal ignoring case. */
  lemma UpperIdempotent(s: string)
    ensures Upper(Upper(s)) == Upper(s)
    ensures EqualsIgnoreCase(Upper(s), s)
  {
    forall i | 0 <= i < |s| ensures Upper(Upper(s))[i] == Upper(s)[i] {
      FoldIdempotent(s[i]);
    }
  }

  lemma UpperSlice(s: string, lo: nat, hi: nat)
    requires lo <= hi <= |s|
    ensures Upper(s[lo..hi]) == Upper(s)[lo..hi]
  {
  }

  /** The suffix test agrees with comparing the last |suffix| characters of
      `s` with `suffix` ignoring case. */
  lemma {:induction false} EndsWithIgnoreCaseIff(s: string, suffix: string)
    ensures EndsWithIgnoreCase(s, suffix)
            <==> |suffix| <= |s| && EqualsIgnoreCase(s[|s| - |suffix|..], suffix)
    decreases |suffix|
  {
    if suffix == [] {
      assert Upper(s[|s|..]) == Upper(suffix);
    } else if s == [] {
    } else {
      var s', x' := s[..|s| - 1], suffix[..|suffix| - 1];
      EndsWithIgnoreCaseIff(s', x');
      if |suffix| <= |s| {
        var tail := s[|s| - |suffix|..];
        assert tail[..|tail| - 1] == s'[|s'| - |x'|..];
        if EqualsIgnoreCase(tail, suffix) {
          assert Upper(tail)[|tail| - 1] == Upper(suffix)[|suffix| - 1];
          UpperSlice(tail, 0, |tail| - 1);
          UpperSlice(suffix, 0, |suffix| - 1);
          assert x' == suffix[0..|suffix| - 1];
        }
        if EndsWithIgnoreCase(s, suffix) {
          assert Upper(tail[..|tail| - 1]) == Upper(x');
          forall i | 0 <= i < |tail| ensures Upper(tail)[i] == Upper(suffix)[i] {
            if i < |tail| - 1 {
              assert Upper(tail[..|tail| - 1])[i] == Upper(tail)[i];
              assert Upper(x')[i] == Upper(suffix)[i];
            }
          }
        }
      } else {
        assert !(|x'| <= |s'|);
      }
    }
  }

  /** Strings equal ignoring case have the same length, fold to the same
      character at every index, and their prefixes are equal ignoring case. */
  lemma EqualsIgnoreCasePrefix(a: string, b: string, n: nat)
    requires EqualsIgnoreCase(a, b) && n <= |a|
    ensures |a| == |b|
    ensures forall i :: 0 <= i < |a| ==> Fold(a[i]) == Fold(b[i])
    ensures EqualsIgnoreCase(a[..n], b[..n])
  {
    assert |a| == |Upper(a)| == |Upper(b)| == |b|;
    forall i | 0 <= i < |a| ensures Fold(a[i]) == Fold(b[i]) {
      assert Upper(a)[i] == Upper(b)[i];
    }
  }

  /** The suffix test only sees the letters' folded forms: changing the case
      of either string does not change its answer. */
  lemma {:induction false} EndsWithIgnoreCaseRespectsCase(s: string, s': string, suffix: string, suffix': string)
    requires EqualsIgnoreCase(s, s') && EqualsIgnoreCase(suffix, suffix')
    ensures EndsWithIgnoreCase(s, suffix) == EndsWithIgnoreCase(s', suffix')
    decreases |suffix|
  {
    EqualsIgnoreCasePrefix(s, s', |s|);
    EqualsIgnoreCasePrefix(suffix, suffix', |suffix|);
    if suffix != [] && s != [] {
      EqualsIgnoreCasePrefix(s, s', |s| - 1);
      EqualsIgnoreCasePrefix(suffix, suffix', |suffix| - 1);
      EndsWithIgnoreCaseRespectsCase(s[..|s| - 1], s'[..|s| - 1], suffix[..|suffix| - 1], suffix'[..|suffix| - 1]);
    }
  }

  /** The number a string of decimal digits denotes, read left to right. */
  function DecimalValue(s: string): int {
    if s == [] then 0 else DecimalValue(s[..|s| - 1]) * 10 + (s[|s| - 1] as int - '0' as int)
  }

  /** The decimal digits of `n`, as `$"{n}"` formats an integer: digits only,
      denoting `n`, without a leading zero. */
  function NatToString(n: nat): (r: string)
    ensures |r| > 0
    ensures forall i :: 0 <= i < |r| ==> '0' <= r[i] <= '9'
    ensures DecimalValue(r) == n
    ensures r[0] != '0' || n == 0
    ensures |r| == 1 || r[0] != '0'
  {
    if n < 10 then
      assert [Digit(n)][..0] == [];
      [Digit(n)]
    else
      var init := NatToString(n / 10);
      assert (init + [Digit(n % 10)])[..|init|] == init;
      init + [Digit(n % 10)]
  }

  function Digit(d: nat): (c: char)
    requires d < 10
    ensures '0' <= c <= '9' && c as int - '0' as int == d
  {
    ('0' as int + d) as char
  }
}
