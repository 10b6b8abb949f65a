/**
 `flatten_newlines`: the rewrite `(<@.*?>)\s+` -> `\1 ` applied to the raw
 completion text before the host splits it into messages.

 This pattern is not the marker scanner: its lazy group keeps growing past a
 `>` that is not followed by whitespace until it reaches one that is, so the
 "marker" it keeps may contain `>` characters.
 */
module Normalizer {

  import opened Options
  import opened Text

  /** `s[i..e]` is in the language of `(<@.*?>)\s+`, with the group's closing
      `>` at index `j`. */
  predicate GluedAt(s: string, i: nat, j: nat, e: nat)
  {
    && i + 2 <= j && j + 1 < e <= |s|
    && s[i] == '<' && s[i + 1] == '@' && s[j] == '>'
    && NoBreak(s, i + 2, j) && AllSpace(s, j + 1, e)
  }

  /** No match of `(<@.*?>)\s+` anywhere in `s`. */
  ghost predicate NoGlue(s: string)
  {
    forall i: nat, j: nat, e: nat :: !GluedAt(s, i, j, e)
  }

  /** The first `>` at or after `k` that is followed by whitespace, provided
      no line break comes before it. */
  function GluedCloseFrom(s: string, k: nat): (r: Option<nat>)
    ensures r.Some? ==> k <= r.value && r.value + 1 < |s| && s[r.value] == '>'
                        && IsSpace(s[r.value + 1]) && NoBreak(s, k, r.value)
    ensures r.Some? ==> forall p :: k <= p < r.value ==> !(s[p] == '>' && IsSpace(s[p + 1]))
    ensures r.None? ==> forall j :: k <= j && j + 1 < |s| && s[j] == '>' && IsSpace(s[j + 1])
                                    ==> !NoBreak(s, k, j)
    decreases |s| - k
  {
    if k >= |s| then None
    else if s[k] == '>' && k + 1 < |s| && IsSpace(s[k + 1]) then Some(k)
    else if s[k] == '\n' then None
    else GluedCloseFrom(s, k + 1)
  }

  /** The end of the maximal whitespace run starting at `k` (greedy `\s+`). */
  function SpaceRunEnd(s: string, k: nat): (r: nat)
    requires k <= |s|
    ensures k <= r <= |s| && AllSpace(s, k, r)
    ensures r == |s| || !IsSpace(s[r])
    decreases |s| - k
  {
    if k < |s| && IsSpace(s[k]) then SpaceRunEnd(s, k + 1) else k
  }

  /** One attempt of `(<@.*?>)\s+` at the start of `s`: the index of the
      group's `>` and the end of the match. The group is the shortest one
      that lets `\s+` match, and `\s+` then takes the whole run. */
  function GluedMarker(s: string): (r: Option<(nat, nat)>)
    ensures r.Some? ==> GluedAt(s, 0, r.value.0, r.value.1)
    ensures r.Some? ==> forall j: nat, e: nat :: j < r.value.0 ==> !GluedAt(s, 0, j, e)
    ensures r.Some? ==> r.value.1 == |s| || !IsSpace(s[r.value.1])
    ensures r.None? ==> forall j: nat, e: nat :: !GluedAt(s, 0, j, e)
  {
    if |s| >= 2 && s[0] == '<' && s[1] == '@' then
      match GluedCloseFrom(s, 2)
      case Some(j) =>
        assert forall j': nat, e: nat :: GluedAt(s, 0, j', e) ==> IsSpace(s[j' + 1]);
        Some((j, SpaceRunEnd(s, j + 1)))
      case None =>
        assert forall j': nat, e: nat :: GluedAt(s, 0, j', e) ==> IsSpace(s[j' + 1]);
        None
    else None
  }

  /** `re.sub(r'(<@.*?>)\s+', r'\1 ', s)`. */
  function Normalize(s: string): (r: string)
    ensures |r| <= |s|
    decreases |s|
  {
    if |s| == 0 then ""
    else match GluedMarker(s)
      case Some((j, e)) => s[..j + 1] + " " + Normalize(s[e..])
      case None => [s[0]] + Normalize(s[1..])
  }

  /** The output starts where the input does. */
  lemma {:induction false} NormalizeFirst(s: string)
    requires |s| > 0
    ensures |Normalize(s)| > 0 && Normalize(s)[0] == s[0]
  {
  }

  /** The whole whitespace run after the first glued marker becomes exactly
      one space: the marker is copied, then one space, then a character
      that is not whitespace (or the end). */
  lemma {:induction false} NormalizeCollapsesRun(s: string)
    requires GluedMarker(s).Some?
    ensures var (j, e) := GluedMarker(s).value;
      && |Normalize(s)| >= j + 2
      && Normalize(s)[..j + 2] == s[..j + 1] + " "
      && (|Normalize(s)| == j + 2 <==> e == |s|)
      && (e < |s| ==> Normalize(s)[j + 2] == s[e] && !IsSpace(Normalize(s)[j + 2]))
  {
    var (j, e) := GluedMarker(s).value;
    var r := Normalize(s[e..]);
    assert Normalize(s) == s[..j + 1] + " " + r;
    if e < |s| {
      NormalizeFirst(s[e..]);
    }
  }

  /** The attempt of `(<@.*?>)\s+` at position `p` of `s`. */
  function GlueAt(s: string, p: nat): Option<(nat, nat)>
    requires p <= |s|
  {
    GluedMarker(s[p..])
  }

  /** Up to the first position where `(<@.*?>)\s+` matches, the text is
      copied unchanged, whitespace included. */
  lemma {:induction false} NormalizeSkip(s: string, i: nat)
    requires i <= |s|
    requires forall p :: 0 <= p < i ==> GlueAt(s, p).None?
    ensures Normalize(s) == s[..i] + Normalize(s[i..])
    decreases i
  {
    if i > 0 {
      var t := s[1..];
      NormalizeCopies(s);
      GlueAtTail(s, i);
      NormalizeSkip(t, i - 1);
      SplitAfterFirst(s, i);
      Assoc([s[0]], t[..i - 1], Normalize(s[i..]));
    }
  }

  /** Where no match starts, the first character is copied. */
  lemma {:induction false} NormalizeCopies(s: string)
    requires |s| > 0 && GlueAt(s, 0).None?
    ensures Normalize(s) == [s[0]] + Normalize(s[1..])
  {
    assert s[0..] == s;
  }

  lemma {:induction false} GlueAtTail(s: string, i: nat)
    requires 0 < i <= |s|
    requires forall p :: 0 <= p < i ==> GlueAt(s, p).None?
    ensures forall p :: 0 <= p < i - 1 ==> GlueAt(s[1..], p).None?
  {
    forall p | 0 <= p < i - 1
      ensures GlueAt(s[1..], p).None?
    {
      assert s[1..][p..] == s[p + 1..];
      assert GlueAt(s, p + 1).None?;
    }
  }

  lemma {:induction false} SplitAfterFirst(s: string, i: nat)
    requires 0 < i <= |s|
    ensures s[..i] == [s[0]] + s[1..][..i - 1] && s[1..][i - 1..] == s[i..]
  {
  }

  /** The first match, wherever it starts: the text before it and its marker
      are copied, its whole whitespace run becomes one space, and the rest
      is flattened in turn. */
  lemma {:induction false} NormalizeGlueAt(s: string, i: nat, j: nat, e: nat)
    requires i < |s| && GlueAt(s, i) == Some((j, e))
    requires forall p :: 0 <= p < i ==> GlueAt(s, p).None?
    ensures i + j + 1 < i + e <= |s|
    ensures s[i + j] == '>' && AllSpace(s, i + j + 1, i + e) && (i + e == |s| || !IsSpace(s[i + e]))
    ensures Normalize(s) == s[..i + j + 1] + " " + Normalize(s[i + e..])
  {
    NormalizeSkip(s, i);
    GlueShape(s, i, j, e);
    NormalizeGlued(s[i..], j, e);
    SpliceGlued(s, i, j, e);
  }

  /** What the match at `i` says about `s` itself. */
  lemma {:induction false} GlueShape(s: string, i: nat, j: nat, e: nat)
    requires i < |s| && GlueAt(s, i) == Some((j, e))
    ensures i + j + 1 < i + e <= |s|
    ensures s[i + j] == '>' && AllSpace(s, i + j + 1, i + e) && (i + e == |s| || !IsSpace(s[i + e]))
  {
    var t := s[i..];
    assert GluedAt(t, 0, j, e);
    assert s[i + j] == t[j];
    assert AllSpace(s, i + j + 1, i + e) by {
      forall p | i + j + 1 <= p < i + e
        ensures IsSpace(s[p])
      {
        assert s[p] == t[p - i];
      }
    }
    if i + e < |s| {
      assert s[i + e] == t[e];
    }
  }

  /** A text that opens with a match. */
  lemma {:induction false} NormalizeGlued(t: string, j: nat, e: nat)
    requires GluedMarker(t) == Some((j, e))
    ensures j + 1 < e <= |t| && Normalize(t) == t[..j + 1] + " " + Normalize(t[e..])
  {
  }

  lemma {:induction false} SpliceGlued(s: string, i: nat, j: nat, e: nat)
    requires i + j + 1 < i + e <= |s|
    ensures s[..i] + (s[i..][..j + 1] + " " + Normalize(s[i..][e..]))
      == s[..i + j + 1] + " " + Normalize(s[i + e..])
  {
    var t := s[i..];
    assert t[e..] == s[i + e..];
    assert s[..i] + t[..j + 1] == s[..i + j + 1];
    Assoc(s[..i], t[..j + 1] + " ", Normalize(t[e..]));
    Assoc(s[..i], t[..j + 1], " ");
  }

  /** Normalizing only touches whitespace: the other characters come out
      unchanged and in order. */
  lemma {:induction false} NormalizeKeepsNonSpace(s: string)
    ensures NonSpace(Normalize(s)) == NonSpace(s)
    decreases |s|
  {
    if |s| > 0 {
      match GluedMarker(s)
      case Some((j, e)) =>
        NormalizeKeepsNonSpace(s[e..]);
        CollapseKeepsNonSpace(s, j, e, Normalize(s[e..]));
      case None =>
        NormalizeKeepsNonSpace(s[1..]);
        NonSpaceAppend([s[0]], Normalize(s[1..]));
        assert s == [s[0]] + s[1..];
        NonSpaceAppend([s[0]], s[1..]);
    }
  }

  /** Replacing the whitespace run `s[j + 1..e]` by one space, and the text
      after it by `r` with the same non-space characters, keeps the
      non-space characters. */
  lemma {:induction false} CollapseKeepsNonSpace(s: string, j: nat, e: nat, r: string)
    requires j + 1 <= e <= |s| && AllSpace(s, j + 1, e)
    requires NonSpace(r) == NonSpace(s[e..])
    ensures NonSpace(s[..j + 1] + " " + r) == NonSpace(s)
  {
    SpaceJoin(s[..j + 1], r);
    SpaceSplit(s, j + 1, e);
  }

  lemma {:induction false} SpaceJoin(a: string, r: string)
    ensures NonSpace(a + " " + r) == NonSpace(a) + NonSpace(r)
  {
    var sp := " ";
    assert NonSpace(sp) == "" by {
      assert IsSpace(sp[0]) && sp[1..] == "";
    }
    NonSpaceAppend(a, sp);
    NonSpaceAppend(a + sp, r);
  }

  lemma {:induction false} SpaceSplit(s: string, i: nat, e: nat)
    requires i <= e <= |s| && AllSpace(s, i, e)
    ensures NonSpace(s) == NonSpace(s[..i]) + NonSpace(s[e..])
  {
    var t := s[i..];
    assert s[..i] + t == s;
    NonSpaceAppend(s[..i], t);
    SpacePrefix(t, e - i);
    assert t[e - i..] == s[e..];
  }

  /** A leading whitespace run adds nothing to `NonSpace`. */
  lemma {:induction false} SpacePrefix(t: string, n: nat)
    requires n <= |t| && AllSpace(t, 0, n)
    ensures NonSpace(t) == NonSpace(t[n..])
  {
    var w := t[..n];
    assert w + t[n..] == t;
    NonSpaceAppend(w, t[n..]);
    assert AllSpace(w, 0, n);
    NonSpaceOfSpaces(w);
  }

  /** A match in the tail of `s` is a match in `s`, one position later. */
  lemma {:induction false} GluedShift(s: string, i: nat, j: nat, e: nat)
    requires |s| > 0 && GluedAt(s[1..], i, j, e)
    ensures GluedAt(s, i + 1, j + 1, e + 1)
  {
    var t := s[1..];
    assert forall p :: 0 <= p < |t| ==> t[p] == s[p + 1];
  }

  /** Text in which `(<@.*?>)\s+` never matches is left unchanged. */
  lemma {:induction false} NormalizeWithoutGlue(s: string)
    requires NoGlue(s)
    ensures Normalize(s) == s
    decreases |s|
  {
    if |s| > 0 {
      assert GluedMarker(s).None?;
      forall i: nat, j: nat, e: nat
        ensures !GluedAt(s[1..], i, j, e)
      {
        if GluedAt(s[1..], i, j, e) {
          GluedShift(s, i, j, e);
          assert false;
        }
      }
      NormalizeWithoutGlue(s[1..]);
      assert [s[0]] + s[1..] == s;
    }
  }

  /** In particular, text without `<@` is left unchanged. */
  lemma {:induction false} NormalizeWithoutOpen(s: string)
    requires !HasOpen(s)
    ensures Normalize(s) == s
  {
    forall i: nat, j: nat, e: nat
      ensures !GluedAt(s, i, j, e)
    {
      if GluedAt(s, i, j, e) {
        assert false;
      }
    }
    NormalizeWithoutGlue(s);
  }
}
