/**
 Decimal identifiers: `str.isdigit` followed by `int()` on the digit-only fast
 path, and `int()` with an optional sign on the fallback path. Digits are the
 ASCII ones.
 */
module Numbers {

  import opened Options

  predicate IsDigit(c: char)
  {
    '0' <= c <= '9'
  }

  predicate AllDigits(s: string)
  {
    forall i :: 0 <= i < |s| ==> IsDigit(s[i])
  }

  /** `s.isdigit()`: non-empty and made only of digits. */
  predicate IsDigits(s: string)
  {
    |s| > 0 && AllDigits(s)
  }

  function DigitValue(c: char): nat
    requires IsDigit(c)
  {
    (c as int) - ('0' as int)
  }

  function DigitChar(d: nat): (c: char)
    requires d < 10
    ensures IsDigit(c) && DigitValue(c) == d
  {
    (('0' as int) + d) as char
  }

  /** `int(s)` for a string of digits, read most significant digit first. */
  function DigitsValue(s: string): nat
    requires AllDigits(s)
  {
    PrefixValue(s, |s|)
  }

  /** The value of the first `n` digits of `s`. */
  function PrefixValue(s: string, n: nat): nat
    requires AllDigits(s) && n <= |s|
    decreases n
  {
    if n == 0 then 0 else 10 * PrefixValue(s, n - 1) + DigitValue(s[n - 1])
  }

  /** Appending digits does not change the value of a prefix. */
  lemma {:induction false} PrefixValueAppend(s: string, t: string, n: nat)
    requires AllDigits(s) && AllDigits(t) && n <= |s|
    ensures AllDigits(s + t) && PrefixValue(s + t, n) == PrefixValue(s, n)
    decreases n
  {
    assert AllDigits(s + t) by {
      forall i | 0 <= i < |s + t|
        ensures IsDigit((s + t)[i])
      {
        if i < |s| {
          assert (s + t)[i] == s[i];
        } else {
          assert (s + t)[i] == t[i - |s|];
        }
      }
    }
    if n > 0 {
      PrefixValueAppend(s, t, n - 1);
      assert (s + t)[n - 1] == s[n - 1];
    }
  }

  /** `str(n)`: the canonical decimal spelling, the inverse of `DigitsValue`. */
  function ShowNat(n: nat): (r: string)
    ensures IsDigits(r) && DigitsValue(r) == n
    ensures r[0] == '0' ==> n == 0
    decreases n
  {
    if n < 10 then
      var r := [DigitChar(n)];
      assert PrefixValue(r, 1) == 10 * PrefixValue(r, 0) + DigitValue(r[0]);
      r
    else
      var h := ShowNat(n / 10);
      var c := DigitChar(n % 10);
      PrefixValueAppend(h, [c], |h|);
      assert PrefixValue(h + [c], |h| + 1) == 10 * PrefixValue(h + [c], |h|) + DigitValue((h + [c])[|h|]);
      h + [c]
  }

  /** The spellings `int()` accepts once surrounding whitespace is gone: an
      optional sign, then at least one digit. */
  predicate IntSyntax(s: string)
  {
    IsDigits(s) || (|s| >= 2 && (s[0] == '+' || s[0] == '-') && IsDigits(s[1..]))
  }

  /** `int(s)` for an already stripped `s`: it succeeds exactly on an
      optional sign followed by digits, reads the digits as their value and
      negates them only after a leading `-`; anything else, such as `3 people`
      or `1a`, raises `ValueError`, which is `None` here. */
  function ParseInt(s: string): (r: Option<int>)
    ensures r.Some? <==> IntSyntax(s)
    ensures IsDigits(s) ==> r == Some(DigitsValue(s))
    ensures |s| >= 2 && s[0] == '+' && IsDigits(s[1..]) ==> r == Some(DigitsValue(s[1..]))
    ensures |s| >= 2 && s[0] == '-' && IsDigits(s[1..]) ==> r == Some(-(DigitsValue(s[1..]) as int))
    ensures r.Some? ==> |s| > 0 && (IsDigit(s[0]) || s[0] == '+' || s[0] == '-')
    ensures r.Some? && r.value < 0 ==> s[0] == '-'
  {
    if IsDigits(s) then Some(DigitsValue(s))
    else if |s| >= 2 && s[0] == '+' && IsDigits(s[1..]) then Some(DigitsValue(s[1..]))
    else if |s| >= 2 && s[0] == '-' && IsDigits(s[1..]) then Some(-(DigitsValue(s[1..]) as int))
    else None
  }

  /** `str(i)`. */
  function ShowInt(i: int): string
  {
    if i < 0 then "-" + ShowNat(-i) else ShowNat(i)
  }

  /** Every integer survives a trip through its decimal spelling. */
  lemma {:induction false} ParseShowInt(i: int)
    ensures ParseInt(ShowInt(i)) == Some(i)
  {
    if i < 0 {
      var t := ShowNat(-i);
      assert ("-" + t)[1..] == t;
      assert !IsDigits("-" + t) by {
        assert !IsDigit(("-" + t)[0]);
      }
    }
  }
}
