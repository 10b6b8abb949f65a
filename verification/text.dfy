/**
 Character classes and the string helpers the plugin borrows from Python:
 `str.isspace` / regex `\s`, `str.strip`, `str.lstrip` and the substring
 test `"<@" in text`.
 */
module Text {

  /** Python's whitespace (`str.isspace`), which is also what `\s` matches in a
      `str` pattern and what `strip()` removes. */
  predicate IsSpace(c: char)
  {
    || ('\t' <= c <= '\r')
    || ('\U{1C}' <= c <= '\U{1F}')
    || c == ' ' || c == '\U{85}' || c == '\U{A0}' || c == '\U{1680}'
    || ('\U{2000}' <= c <= '\U{200A}')
    || c == '\U{2028}' || c == '\U{2029}' || c == '\U{202F}' || c == '\U{205F}'
    || c == '\U{3000}'
  }

  /** The regex dot (without DOTALL) can consume every character of `s[a..b]`. */
  predicate NoBreak(s: string, a: nat, b: nat)
    requires a <= b <= |s|
  {
    forall p :: a <= p < b ==> s[p] != '\n'
  }

  /** Every character of `s[a..b]` is whitespace. */
  predicate AllSpace(s: string, a: nat, b: nat)
    requires a <= b <= |s|
  {
    forall p :: a <= p < b ==> IsSpace(s[p])
  }

  /** `"<@" in s`. */
  predicate HasOpen(s: string)
  {
    exists i :: 0 <= i < |s| - 1 && s[i] == '<' && s[i + 1] == '@'
  }

  /** `s.lstrip()`: the suffix left after the leading whitespace run. */
  function TrimLeft(s: string): (r: string)
    ensures |r| <= |s| && r == s[|s| - |r|..]
    ensures AllSpace(s, 0, |s| - |r|)
    ensures r == [] || !IsSpace(r[0])
  {
    if |s| > 0 && IsSpace(s[0]) then TrimLeft(s[1..]) else s
  }

  /** `s.rstrip()`: the prefix left before the trailing whitespace run. */
  function TrimRight(s: string): (r: string)
    ensures |r| <= |s| && r == s[..|r|]
    ensures AllSpace(s, |r|, |s|)
    ensures r == [] || !IsSpace(r[|r| - 1])
  {
    if |s| > 0 && IsSpace(s[|s| - 1]) then TrimRight(s[..|s| - 1]) else s
  }

  /** `s.strip()`: a slice of `s` with whitespace only outside it and no
      whitespace at either of its ends. */
  function Trim(s: string): (r: string)
    ensures exists a: nat :: TrimmedAt(s, a, r)
    ensures r == [] || (!IsSpace(r[0]) && !IsSpace(r[|r| - 1]))
  {
    TrimBothAt(s);
    TrimRight(TrimLeft(s))
  }

  /** Where `strip()` cuts: after the leading run that `lstrip` removes. */
  lemma {:induction false} TrimBothAt(s: string)
    ensures TrimmedAt(s, |s| - |TrimLeft(s)|, TrimRight(TrimLeft(s)))
    ensures var r := TrimRight(TrimLeft(s)); r == [] || (!IsSpace(r[0]) && !IsSpace(r[|r| - 1]))
  {
    var l := TrimLeft(s);
    var r := TrimRight(l);
    var a := |s| - |l|;
    assert r == s[a..a + |r|] && AllSpace(s, a + |r|, |s|) by {
      SliceOfSuffix(s, l, r, a);
    }
    assert r == [] || !IsSpace(r[0]) by {
      if r != [] {
        assert r[0] == l[0];
      }
    }
  }

  /** A prefix `r` of the suffix `l == s[a..]`, with only whitespace after it
      in `l`, is a slice of `s` with only whitespace after it in `s`. */
  lemma {:induction false} SliceOfSuffix(s: string, l: string, r: string, a: nat)
    requires a <= |s| && l == s[a..] && |r| <= |l| && r == l[..|r|] && AllSpace(l, |r|, |l|)
    ensures a + |r| <= |s| && r == s[a..a + |r|] && AllSpace(s, a + |r|, |s|)
  {
    forall p | a + |r| <= p < |s|
      ensures IsSpace(s[p])
    {
      assert s[p] == l[p - a];
    }
  }

  /** `r` is the slice of `s` starting at `a`, and everything around it is whitespace. */
  predicate TrimmedAt(s: string, a: nat, r: string)
  {
    a + |r| <= |s| && r == s[a..a + |r|] && AllSpace(s, 0, a) && AllSpace(s, a + |r|, |s|)
  }

  /** A string with no whitespace at either end is its own `strip()`. */
  lemma {:induction false} TrimOfTrimmed(s: string)
    requires s == [] || (!IsSpace(s[0]) && !IsSpace(s[|s| - 1]))
    ensures Trim(s) == s
  {
    var r := Trim(s);
    var a: nat :| TrimmedAt(s, a, r);
    if a > 0 {
      assert false;
    }
    if a + |r| < |s| {
      assert false;
    }
  }

  /** `strip()` is idempotent. */
  lemma {:induction false} TrimIdempotent(s: string)
    ensures Trim(Trim(s)) == Trim(s)
  {
    TrimOfTrimmed(Trim(s));
  }

  /** The characters of `s` that are not whitespace, in order. */
  function NonSpace(s: string): string
  {
    if |s| == 0 then ""
    else (if IsSpace(s[0]) then "" else [s[0]]) + NonSpace(s[1..])
  }

  lemma {:induction false} NonSpaceAppend(a: string, b: string)
    ensures NonSpace(a + b) == NonSpace(a) + NonSpace(b)
    decreases |a|
  {
    if |a| > 0 {
      assert (a + b)[1..] == a[1..] + b;
      NonSpaceAppend(a[1..], b);
    } else {
      assert a + b == b;
    }
  }

  lemma {:induction false} NonSpaceOfSpaces(s: string)
    requires AllSpace(s, 0, |s|)
    ensures NonSpace(s) == ""
    decreases |s|
  {
    if |s| > 0 {
      assert AllSpace(s[1..], 0, |s| - 1) by {
        forall p | 0 <= p < |s| - 1
          ensures IsSpace(s[1..][p])
        {
          assert s[1..][p] == s[p + 1];
        }
      }
      NonSpaceOfSpaces(s[1..]);
    }
  }

  /** Concatenation regroups freely; the step the solver needs named when
      spliced strings are compared. */
  lemma Assoc(a: string, b: string, c: string)
    ensures a + (b + c) == (a + b) + c
  {
  }
}
