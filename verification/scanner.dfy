/**
 The marker pattern `<@(.*?)>` (`at_pattern`) as a scanner: `MatchAt` is one
 attempt of the regex at a position, `Scan` is `finditer` (leftmost,
 non-overlapping), and `Substitute` is `sub` with a replacement computed from
 each match.
 */
module Scanner {

  import opened Options
  import opened Text

  /** One match: the half-open span `[start, end)` of the text. */
  datatype Span = Span(start: nat, end: nat)

  /** `s[i..j]` is in the language of `<@(.*?)>`: the opening `<@`, characters
      the dot accepts (anything but a line break), and a closing `>`. */
  predicate PatternAt(s: string, i: nat, j: nat)
  {
    i + 3 <= j <= |s| && s[i] == '<' && s[i + 1] == '@' && s[j - 1] == '>' && NoBreak(s, i + 2, j - 1)
  }

  /** The lazy `.*?` makes the regex take the shortest span in the language. */
  predicate LazyMatch(s: string, i: nat, j: nat)
  {
    PatternAt(s, i, j) && forall j': nat :: j' < j ==> !PatternAt(s, i, j')
  }

  /** `s[m.start..m.end]` is delimited like a marker. */
  predicate ValidSpan(s: string, m: Span)
  {
    m.start + 3 <= m.end <= |s| && s[m.start] == '<' && s[m.start + 1] == '@' && s[m.end - 1] == '>'
  }

  /** The captured group, `match.group(1)`. */
  function Content(s: string, m: Span): string
    requires ValidSpan(s, m)
  {
    s[m.start + 2..m.end - 1]
  }

  /** A marker as written: the delimiters around its content. */
  function Literal(c: string): string
  {
    "<@" + c + ">"
  }

  /** The matched text, `match.group(0)`, is the content between its delimiters. */
  lemma {:induction false} SpanText(s: string, m: Span)
    requires ValidSpan(s, m)
    ensures s[m.start..m.end] == Literal(Content(s, m))
  {
    assert s[m.start..m.end] == s[m.start..m.start + 2] + Content(s, m) + s[m.end - 1..m.end];
  }

  /** `ms` are marker spans in `s`, in order, not overlapping, none before `from`. */
  predicate SpansFrom(s: string, ms: seq<Span>, from: nat)
  {
    && (forall k :: 0 <= k < |ms| ==> ValidSpan(s, ms[k]))
    && (|ms| > 0 ==> from <= ms[0].start)
    && (forall k :: 0 <= k < |ms| - 1 ==> ms[k].end <= ms[k + 1].start)
  }

  lemma {:induction false} SpansFromTail(s: string, ms: seq<Span>, last: nat)
    requires SpansFrom(s, ms, last) && |ms| > 0
    ensures ValidSpan(s, ms[0]) && last <= ms[0].start
    ensures SpansFrom(s, ms[1..], ms[0].end)
  {
  }

  /** The first `>` at or after `k`, provided no line break comes before it. */
  function CloseFrom(s: string, k: nat): (r: Option<nat>)
    ensures r.Some? ==> k <= r.value < |s| && s[r.value] == '>' && NoBreak(s, k, r.value)
    ensures r.Some? ==> forall p :: k <= p < r.value ==> s[p] != '>'
    ensures r.None? ==> forall j :: k <= j < |s| && s[j] == '>' ==> !NoBreak(s, k, j)
    decreases |s| - k
  {
    if k >= |s| then None
    else if s[k] == '>' then Some(k)
    else if s[k] == '\n' then None
    else CloseFrom(s, k + 1)
  }

  /** One attempt of `<@(.*?)>` at position `i`: the end of the match, if any. */
  function MatchAt(s: string, i: nat): (r: Option<nat>)
    ensures r.Some? ==> LazyMatch(s, i, r.value)
    ensures r.None? ==> forall j: nat :: !PatternAt(s, i, j)
  {
    if i + 1 < |s| && s[i] == '<' && s[i + 1] == '@' then
      match CloseFrom(s, i + 2)
      case Some(c) => Some(c + 1)
      case None => None
    else None
  }

  /** `finditer` from position `from`. */
  function Scan(s: string, from: nat): (ms: seq<Span>)
    ensures SpansFrom(s, ms, from)
    decreases |s| - from
  {
    if from >= |s| then []
    else match MatchAt(s, from)
      case Some(j) => [Span(from, j)] + Scan(s, j)
      case None => Scan(s, from + 1)
  }

  /** Every reported span is the regex's match at its start. */
  lemma {:induction false} ScanMatches(s: string, from: nat)
    ensures forall k :: 0 <= k < |Scan(s, from)| ==> MatchAt(s, Scan(s, from)[k].start) == Some(Scan(s, from)[k].end)
    ensures forall k :: 0 <= k < |Scan(s, from)| ==> LazyMatch(s, Scan(s, from)[k].start, Scan(s, from)[k].end)
    decreases |s| - from
  {
    if from < |s| {
      match MatchAt(s, from)
      case Some(j) =>
        ScanMatches(s, j);
        var ms := Scan(s, from);
        assert forall k :: 1 <= k < |ms| ==> ms[k] == Scan(s, j)[k - 1];
      case None =>
        ScanMatches(s, from + 1);
    }
  }

  /** Position `p` lies inside one of the spans. */
  predicate Covered(ms: seq<Span>, p: nat)
  {
    exists k :: 0 <= k < |ms| && ms[k].start <= p < ms[k].end
  }

  /** Leftmost matching: every position where the pattern could start a
      match is inside some reported span. */
  lemma {:induction false} ScanLeftmost(s: string, from: nat, p: nat)
    requires from <= p && MatchAt(s, p).Some?
    ensures Covered(Scan(s, from), p)
    decreases |s| - from
  {
    if from < |s| {
      match MatchAt(s, from)
      case Some(j) =>
        var ms := Scan(s, from);
        if p < j {
          assert ms[0] == Span(from, j);
        } else {
          ScanLeftmost(s, j, p);
          var k :| 0 <= k < |Scan(s, j)| && Scan(s, j)[k].start <= p < Scan(s, j)[k].end;
          assert ms[k + 1] == Scan(s, j)[k];
        }
      case None =>
        ScanLeftmost(s, from + 1, p);
    }
  }

  /** No marker starts at or after `from` when no `<@` does. */
  lemma {:induction false} ScanQuietFrom(s: string, from: nat)
    requires forall p :: from <= p < |s| - 1 ==> !(s[p] == '<' && s[p + 1] == '@')
    ensures Scan(s, from) == []
  {
    var ms := Scan(s, from);
    if |ms| > 0 {
      assert false;
    }
  }

  /** Text with no `<@` holds no marker. */
  lemma {:induction false} ScanWithoutOpen(s: string, from: nat)
    requires !HasOpen(s)
    ensures Scan(s, from) == []
  {
    var ms := Scan(s, from);
    if |ms| > 0 {
      assert false;
    }
  }

  /** The text of `s` from `last` to the end of the last span, with each
      span replaced by `f` of its content and the gaps kept verbatim. */
  function Interleave(s: string, ms: seq<Span>, last: nat, f: string -> string): string
    requires SpansFrom(s, ms, last)
    decreases |ms|
  {
    if |ms| == 0 then ""
    else s[last..ms[0].start] + f(Content(s, ms[0])) + Interleave(s, ms[1..], ms[0].end, f)
  }

  /** Where the last match ends (`last_end` after the loop). */
  function EndOf(ms: seq<Span>, last: nat): nat
  {
    if |ms| == 0 then last else ms[|ms| - 1].end
  }

  /** `at_pattern.sub(repl, s)` with a replacement computed from the group:
      a text without a match comes back unchanged. */
  function Substitute(s: string, f: string -> string): (r: string)
    ensures Scan(s, 0) == [] ==> r == s
  {
    var ms := Scan(s, 0);
    assert ms == [] ==> s[EndOf(ms, 0)..] == s;
    Interleave(s, ms, 0, f) + s[EndOf(ms, 0)..]
  }

  /** The replacement `\1`: a match's content. */
  function Inner(c: string): string
  {
    c
  }

  /** `at_pattern.sub(r"\1", s)`: every marker replaced by its raw content.
      Exactly the three delimiter characters of each match go, so the text
      is left alone exactly when it holds no match. */
  function StripMarkers(s: string): (r: string)
    ensures |r| == |s| - 3 * |Scan(s, 0)|
    ensures r == s <==> Scan(s, 0) == []
  {
    InterleaveContentLength(s, Scan(s, 0), 0);
    Substitute(s, Inner)
  }

  lemma {:induction false} EndOfBounds(s: string, ms: seq<Span>, last: nat)
    requires SpansFrom(s, ms, last) && last <= |s|
    ensures last <= EndOf(ms, last) <= |s|
    decreases |ms|
  {
    if |ms| > 1 {
      EndOfBounds(s, ms[1..], ms[0].end);
    }
  }

  /** `Interleave` only looks at the replacement of the given spans. */
  lemma {:induction false} InterleaveAgree(s: string, ms: seq<Span>, last: nat, f: string -> string, g: string -> string)
    requires SpansFrom(s, ms, last)
    requires forall k :: 0 <= k < |ms| ==> f(Content(s, ms[k])) == g(Content(s, ms[k]))
    ensures Interleave(s, ms, last, f) == Interleave(s, ms, last, g)
    decreases |ms|
  {
    if |ms| > 0 {
      SpansFromTail(s, ms, last);
      InterleaveAgree(s, ms[1..], ms[0].end, f, g);
    }
  }

  /** Putting each match's literal text back reproduces the scanned text. */
  lemma {:induction false} InterleaveLiteral(s: string, ms: seq<Span>, last: nat)
    requires SpansFrom(s, ms, last) && last <= |s|
    ensures last <= EndOf(ms, last) <= |s|
    ensures Interleave(s, ms, last, Literal) == s[last..EndOf(ms, last)]
    decreases |ms|
  {
    EndOfBounds(s, ms, last);
    if |ms| > 0 {
      var m := ms[0];
      SpansFromTail(s, ms, last);
      InterleaveLiteral(s, ms[1..], m.end);
      assert EndOf(ms[1..], m.end) == EndOf(ms, last);
      var e := EndOf(ms, last);
      SpanText(s, m);
      calc {
        Interleave(s, ms, last, Literal);
        s[last..m.start] + s[m.start..m.end] + s[m.end..e];
        { assert s[last..m.start] + s[m.start..m.end] == s[last..m.end]; }
        s[last..m.end] + s[m.end..e];
        s[last..e];
      }
    }
  }

  /** `sub` with each match replaced by itself is the identity: the scan
      partitions the text into gaps and markers. */
  lemma {:induction false} SubstituteLiteral(s: string)
    ensures Substitute(s, Literal) == s
  {
    var ms := Scan(s, 0);
    InterleaveLiteral(s, ms, 0);
    assert s[..EndOf(ms, 0)] + s[EndOf(ms, 0)..] == s;
  }

  lemma {:induction false} InterleaveContentLength(s: string, ms: seq<Span>, last: nat)
    requires SpansFrom(s, ms, last) && last <= |s|
    ensures last <= EndOf(ms, last) <= |s|
    ensures |Interleave(s, ms, last, Inner)| == EndOf(ms, last) - last - 3 * |ms|
    decreases |ms|
  {
    EndOfBounds(s, ms, last);
    if |ms| > 0 {
      SpansFromTail(s, ms, last);
      InterleaveContentLength(s, ms[1..], ms[0].end);
    }
  }
}
