/**
 `handle_at_conversion`: the fast exit, the private-chat strip, the group
 bail-out, and the group-chat rebuild of every `Plain` segment around its
 markers.

 The rebuild of one text is stated for any resolver `res` (a function from
 marker content to an optional id); the handler instantiates it with the
 directory lookup of `Directory.Resolve`.
 */
module Conversion {

  import opened Options
  import opened Text
  import opened Numbers
  import opened Scanner
  import opened Chain
  import opened Directory

  /** Marker content to an optional user id. */
  type Resolver = string -> Option<int>

  /** `Resolve` against a fixed directory. */
  function ResolverOf(d: map<string, int>): Resolver
  {
    (c: string) => Resolve(c, d)
  }

  /** What one match becomes in a group chat: a mention and a single space,
      or, when the content does not resolve, the match's own text. */
  function MarkerSegments(t: string, m: Span, res: Resolver): (r: seq<Segment>)
    requires ValidSpan(t, m)
    ensures NoOther(r) && MentionsSpaced(r) && NoEmptyPlain(r)
  {
    match res(Content(t, m))
    case Some(id) => [At(id), Plain(" ")]
    case None => [Plain(t[m.start..m.end])]
  }

  /** A resolved match becomes exactly a mention of its id and a space; an
      unresolved one becomes a single `Plain` with the full marker, `<@` and
      `>` included. */
  lemma {:induction false} MarkerOutcome(t: string, m: Span, res: Resolver)
    requires ValidSpan(t, m)
    ensures res(Content(t, m)).Some? ==> MarkerSegments(t, m, res) == [At(res(Content(t, m)).value), Plain(" ")]
    ensures res(Content(t, m)).None? ==> MarkerSegments(t, m, res) == [Plain(Literal(Content(t, m)))]
  {
    SpanText(t, m);
  }

  /** The text after the last match, left-stripped, dropped when empty. */
  function Remainder(t: string, last: nat): (r: seq<Segment>)
    ensures last <= |t| ==> PlainText(r) == TrimLeft(t[last..])
    ensures NoOther(r) && NoEmptyPlain(r) && Keep(r, IsAt) == []
  {
    if last < |t| then
      var rest := TrimLeft(t[last..]);
      assert PlainText([Plain(rest)]) == rest + PlainText([]);
      assert Keep([Plain(rest)], IsAt) == [] + Keep([], IsAt);
      if rest != "" then [Plain(rest)] else []
    else []
  }

  /** The text before a match (when there is any), then what the match
      becomes. */
  function Head(t: string, m: Span, last: nat, res: Resolver): (r: seq<Segment>)
    requires ValidSpan(t, m) && last <= m.start
    ensures NoOther(r) && MentionsSpaced(r) && NoEmptyPlain(r)
  {
    var gap := if m.start > last then [Plain(t[last..m.start])] else [];
    var mark := MarkerSegments(t, m, res);
    MentionsSpacedAppend(gap, mark);
    NoOtherAppend(gap, mark);
    NoEmptyPlainAppend(gap, mark);
    gap + mark
  }

  /** The loop over the matches `ms` of `t`, with `last_end == last`. */
  function Emit(t: string, ms: seq<Span>, last: nat, res: Resolver): (r: seq<Segment>)
    requires SpansFrom(t, ms, last)
    ensures NoOther(r) && MentionsSpaced(r) && NoEmptyPlain(r)
    decreases |ms|
  {
    if |ms| == 0 then Remainder(t, last)
    else
      SpansFromTail(t, ms, last);
      var h := Head(t, ms[0], last, res);
      var rest := Emit(t, ms[1..], ms[0].end, res);
      MentionsSpacedAppend(h, rest);
      NoOtherAppend(h, rest);
      NoEmptyPlainAppend(h, rest);
      h + rest
  }

  /** The segments one `Plain` text becomes in a group chat: only `Plain`
      and `At`, every mention followed by a space (`EmitPlainText` and
      `EmitMentions` say what they read as and which mentions they hold). */
  function RebuildText(t: string, res: Resolver): (r: seq<Segment>)
    ensures NoOther(r) && MentionsSpaced(r) && NoEmptyPlain(r)
  {
    Emit(t, Scan(t, 0), 0, res)
  }

  /** One group-chat component: a `Plain` is rebuilt, anything else kept. */
  function GroupSegment(x: Segment, res: Resolver): seq<Segment>
  {
    match x
    case Plain(t) => RebuildText(t, res)
    case _ => [x]
  }

  function GroupStep(res: Resolver): Segment -> seq<Segment>
  {
    (x: Segment) => GroupSegment(x, res)
  }

  /** The group-chat loop over the whole chain. Components other than
      `Plain` and `At` come out exactly as they went in, in order; the
      mentions are those the chain had, in place, plus one for each resolved
      marker of each `Plain`. */
  function GroupRebuild(c: seq<Segment>, res: Resolver): (r: seq<Segment>)
    ensures Keep(r, IsOther) == Keep(c, IsOther)
    ensures Keep(r, IsAt) == ConcatMap(c, MentionStep(res))
  {
    GroupStepKeepsOthers(res);
    ConcatMapPreserves(c, GroupStep(res), IsOther);
    GroupStepMentions(res);
    KeepConcatMap(c, GroupStep(res), IsAt, MentionStep(res));
    ConcatMap(c, GroupStep(res))
  }

  /** One private-chat component: a `Plain` loses its marker delimiters and
      is dropped when nothing is left; anything else is kept. */
  function PrivateSegment(x: Segment): (r: seq<Segment>)
    ensures Keep(r, IsNonPlain) == Keep([x], IsNonPlain) && Keep(r, IsAt) == Keep([x], IsAt)
    ensures NoEmptyPlain(r)
  {
    match x
    case Plain(t) =>
      var cleaned := StripMarkers(t);
      if cleaned != "" then [Plain(cleaned)] else []
    case _ => [x]
  }

  /** The private-chat loop over the whole chain. Every component that is
      not `Plain` (mentions included) is kept, in order, so no mention is
      added or removed; the `Plain` texts are the input's with their markers
      replaced by their content, the empty results dropped, so no `Plain`
      of the output is empty. */
  function PrivateStrip(c: seq<Segment>): (r: seq<Segment>)
    ensures Keep(r, IsNonPlain) == Keep(c, IsNonPlain)
    ensures Keep(r, IsAt) == Keep(c, IsAt)
    ensures Texts(r) == CleanTexts(Texts(c))
    ensures NoEmptyPlain(r)
  {
    ConcatMapPreserves(c, PrivateSegment, IsNonPlain);
    ConcatMapPreserves(c, PrivateSegment, IsAt);
    PrivateTexts(c);
    ConcatMap(c, PrivateSegment)
  }

  /** `handle_at_conversion`, with the result chain, the chat kind and the
      fetched group members (`None` when no group could be fetched) as inputs. */
  function HandleAtConversion(chain: seq<Segment>, isPrivate: bool, group: Option<seq<Member>>): (r: seq<Segment>)
    ensures Keep(r, IsOther) == Keep(chain, IsOther)
    ensures isPrivate ==> Keep(r, IsAt) == Keep(chain, IsAt)
  {
    if !HasTag(chain) then chain
    else if isPrivate then
      var r := PrivateStrip(chain);
      KeepKeep(chain, IsNonPlain, IsOther);
      KeepKeep(r, IsNonPlain, IsOther);
      r
    else if group.None? || |group.value| == 0 then chain
    else GroupRebuild(chain, ResolverOf(BuildDirectory(group.value)))
  }

  // ---------------------------------------------------------------------
  // One text in a group chat
  // ---------------------------------------------------------------------

  /** What a marker with content `c` contributes to the plain text of the
      rebuilt chain: the space after its mention, or its literal text when it
      did not resolve. */
  function Glue(c: string, res: Resolver): string
  {
    if res(c).Some? then " " else Literal(c)
  }

  function GlueOf(res: Resolver): string -> string
  {
    (c: string) => Glue(c, res)
  }

  /** Reading the rebuilt segments' text gives back the original text with
      each marker replaced by a space (resolved) or by itself (unresolved),
      the gaps verbatim, and only the leading whitespace of the remainder
      after the last marker removed. */
  lemma {:induction false} EmitPlainText(t: string, ms: seq<Span>, last: nat, res: Resolver)
    requires SpansFrom(t, ms, last) && last <= |t|
    ensures last <= EndOf(ms, last) <= |t|
    ensures PlainText(Emit(t, ms, last, res)) == Interleave(t, ms, last, GlueOf(res)) + TrimLeft(t[EndOf(ms, last)..])
    decreases |ms|
  {
    EndOfBounds(t, ms, last);
    if |ms| == 0 {
    } else {
      var m := ms[0];
      SpansFromTail(t, ms, last);
      var h := Head(t, m, last, res);
      var rest := Emit(t, ms[1..], m.end, res);
      var e := EndOf(ms, last);
      assert Emit(t, ms, last, res) == h + rest;
      EmitPlainText(t, ms[1..], m.end, res);
      assert EndOf(ms[1..], m.end) == e;
      HeadPlainText(t, m, last, res);
      PlainTextAppend(h, rest);
      var a, g := t[last..m.start], Glue(Content(t, m), res);
      var i, r := Interleave(t, ms[1..], m.end, GlueOf(res)), TrimLeft(t[e..]);
      assert PlainText(h) == a + g;
      assert PlainText(rest) == i + r;
      assert Interleave(t, ms, last, GlueOf(res)) == a + g + i;
      Assoc(a + g, i, r);
    }
  }

  lemma {:induction false} HeadPlainText(t: string, m: Span, last: nat, res: Resolver)
    requires ValidSpan(t, m) && last <= m.start
    ensures PlainText(Head(t, m, last, res)) == t[last..m.start] + Glue(Content(t, m), res)
  {
    var gap := if m.start > last then [Plain(t[last..m.start])] else [];
    var mark := MarkerSegments(t, m, res);
    PlainTextAppend(gap, mark);
    assert PlainText(gap) == t[last..m.start];
    match res(Content(t, m))
    case Some(id) =>
      assert mark[1..] == [Plain(" ")];
      assert PlainText(mark) == PlainText(mark[1..]);
    case None =>
      SpanText(t, m);
      assert PlainText(mark) == t[m.start..m.end] + PlainText([]);
  }

  /** The mentions a list of matches yields, in order. */
  function ResolvedMentions(t: string, ms: seq<Span>, res: Resolver): seq<Segment>
    requires forall k :: 0 <= k < |ms| ==> ValidSpan(t, ms[k])
    decreases |ms|
  {
    if |ms| == 0 then []
    else
      (match res(Content(t, ms[0])) case Some(id) => [At(id)] case None => [])
      + ResolvedMentions(t, ms[1..], res)
  }

  /** Each resolved match, and nothing else, produces a mention. */
  lemma {:induction false} EmitMentions(t: string, ms: seq<Span>, last: nat, res: Resolver)
    requires SpansFrom(t, ms, last)
    ensures Keep(Emit(t, ms, last, res), IsAt) == ResolvedMentions(t, ms, res)
    decreases |ms|
  {
    if |ms| == 0 {
      KeepNone(Remainder(t, last), IsAt);
    } else {
      var m := ms[0];
      SpansFromTail(t, ms, last);
      var h := Head(t, m, last, res);
      var rest := Emit(t, ms[1..], m.end, res);
      EmitMentions(t, ms[1..], m.end, res);
      HeadMentions(t, m, last, res);
      KeepAppend(h, rest, IsAt);
    }
  }

  lemma {:induction false} HeadMentions(t: string, m: Span, last: nat, res: Resolver)
    requires ValidSpan(t, m) && last <= m.start
    ensures Keep(Head(t, m, last, res), IsAt) == match res(Content(t, m)) case Some(id) => [At(id)] case None => []
  {
    var gap := if m.start > last then [Plain(t[last..m.start])] else [];
    var mark := MarkerSegments(t, m, res);
    KeepNone(gap, IsAt);
    KeepAppend(gap, mark, IsAt);
    match res(Content(t, m))
    case Some(id) =>
      assert Keep(mark, IsAt) == [At(id)] + Keep([Plain(" ")], IsAt);
    case None =>
      assert Keep(mark, IsAt) == Keep([], IsAt);
  }

  /** One text rebuilt in a group chat holds one mention per resolved match
      and no other, and, read as text, is the original with each resolved
      marker replaced by a space and each unresolved one kept as written, the
      gaps verbatim and only the leading whitespace after the last match
      gone. */
  lemma {:induction false} RebuildTextMeaning(t: string, res: Resolver)
    ensures Keep(RebuildText(t, res), IsAt) == ResolvedMentions(t, Scan(t, 0), res)
    ensures EndOf(Scan(t, 0), 0) <= |t|
    ensures PlainText(RebuildText(t, res))
      == Interleave(t, Scan(t, 0), 0, GlueOf(res)) + TrimLeft(t[EndOf(Scan(t, 0), 0)..])
  {
    EmitMentions(t, Scan(t, 0), 0, res);
    EmitPlainText(t, Scan(t, 0), 0, res);
  }

  // ---------------------------------------------------------------------
  // Where the mentions sit
  // ---------------------------------------------------------------------

  /** The chain written back as markup: a mention as the canonical marker of
      its id, a `Plain` as its text, any other component as nothing. */
  function Render(c: seq<Segment>): string
    decreases |c|
  {
    if |c| == 0 then ""
    else
      (match c[0]
       case Plain(text) => text
       case At(id) => Literal(ShowInt(id))
       case Other(_) => "")
      + Render(c[1..])
  }

  lemma {:induction false} RenderAppend(a: seq<Segment>, b: seq<Segment>)
    ensures Render(a + b) == Render(a) + Render(b)
    decreases |a|
  {
    if |a| > 0 {
      assert (a + b)[1..] == a[1..] + b;
      RenderAppend(a[1..], b);
    } else {
      assert a + b == b;
    }
  }

  /** How a match reads in the written-back chain: the canonical marker of
      the id it resolved to and the space after it, or its own text. */
  function Respell(c: string, res: Resolver): string
  {
    if res(c).Some? then Literal(ShowInt(res(c).value)) + " " else Literal(c)
  }

  function RespellOf(res: Resolver): string -> string
  {
    (c: string) => Respell(c, res)
  }

  /** Written back as markup, one rebuilt text is the original with every
      resolved marker respelled as the canonical marker of its id followed
      by a space, every unresolved marker and every gap as written, and the
      leading whitespace after the last match removed: each mention sits
      exactly where its marker was, and the space after it is its own. */
  lemma {:induction false} RebuildTextRender(t: string, res: Resolver)
    ensures EndOf(Scan(t, 0), 0) <= |t|
    ensures Render(RebuildText(t, res))
      == Interleave(t, Scan(t, 0), 0, RespellOf(res)) + TrimLeft(t[EndOf(Scan(t, 0), 0)..])
  {
    EmitRender(t, Scan(t, 0), 0, res);
  }

  lemma {:induction false} EmitRender(t: string, ms: seq<Span>, last: nat, res: Resolver)
    requires SpansFrom(t, ms, last) && last <= |t|
    ensures last <= EndOf(ms, last) <= |t|
    ensures Render(Emit(t, ms, last, res)) == Interleave(t, ms, last, RespellOf(res)) + TrimLeft(t[EndOf(ms, last)..])
    decreases |ms|
  {
    EndOfBounds(t, ms, last);
    if |ms| == 0 {
      RemainderRender(t, last);
    } else {
      var m := ms[0];
      SpansFromTail(t, ms, last);
      var h := Head(t, m, last, res);
      var rest := Emit(t, ms[1..], m.end, res);
      var e := EndOf(ms, last);
      assert Emit(t, ms, last, res) == h + rest;
      EmitRender(t, ms[1..], m.end, res);
      assert EndOf(ms[1..], m.end) == e;
      HeadRender(t, m, last, res);
      RenderAppend(h, rest);
      var a, g := t[last..m.start], Respell(Content(t, m), res);
      var i, r := Interleave(t, ms[1..], m.end, RespellOf(res)), TrimLeft(t[e..]);
      assert Render(h) == a + g;
      assert Render(rest) == i + r;
      assert Interleave(t, ms, last, RespellOf(res)) == a + g + i;
      Assoc(a + g, i, r);
    }
  }

  lemma {:induction false} RemainderRender(t: string, last: nat)
    requires last <= |t|
    ensures Render(Remainder(t, last)) == TrimLeft(t[last..])
  {
    if last < |t| {
      var rest := TrimLeft(t[last..]);
      assert Render([Plain(rest)]) == rest + Render([]);
    } else {
      assert t[last..] == "";
    }
  }

  lemma {:induction false} HeadRender(t: string, m: Span, last: nat, res: Resolver)
    requires ValidSpan(t, m) && last <= m.start
    ensures Render(Head(t, m, last, res)) == t[last..m.start] + Respell(Content(t, m), res)
  {
    var gap := if m.start > last then [Plain(t[last..m.start])] else [];
    var mark := MarkerSegments(t, m, res);
    RenderAppend(gap, mark);
    assert Render(gap) == t[last..m.start] by {
      if m.start > last {
        assert Render(gap) == t[last..m.start] + Render([]);
      }
    }
    match res(Content(t, m))
    case Some(id) =>
      assert mark == [At(id), Plain(" ")];
      assert mark[1..] == [Plain(" ")];
      assert Render(mark[1..]) == " " + Render([]);
      assert Render(mark) == Literal(ShowInt(id)) + Render(mark[1..]);
    case None =>
      SpanText(t, m);
      assert Render(mark) == t[m.start..m.end] + Render([]);
  }

  /** A `Plain` without markers (in a chain that has them elsewhere) loses
      its leading whitespace, and disappears when nothing else is left. */
  lemma {:induction false} RebuildTextWithoutMarkers(t: string, res: Resolver)
    requires Scan(t, 0) == []
    ensures RebuildText(t, res) == if TrimLeft(t) == "" then [] else [Plain(TrimLeft(t))]
  {
    if |t| == 0 {
      assert TrimLeft(t) == "";
    } else {
      assert t[0..] == t;
    }
  }

  /** When no marker resolves, the chain's text loses nothing but the
      leading whitespace of the remainder after the last marker. */
  lemma {:induction false} RebuildTextUnresolved(t: string, res: Resolver)
    requires forall k :: 0 <= k < |Scan(t, 0)| ==> res(Content(t, Scan(t, 0)[k])).None?
    ensures EndOf(Scan(t, 0), 0) <= |t|
    ensures PlainText(RebuildText(t, res)) == t[..EndOf(Scan(t, 0), 0)] + TrimLeft(t[EndOf(Scan(t, 0), 0)..])
  {
    var ms := Scan(t, 0);
    EmitPlainText(t, ms, 0, res);
    InterleaveAgree(t, ms, 0, GlueOf(res), Literal);
    InterleaveLiteral(t, ms, 0);
  }

  /** A marker holding an id's decimal spelling becomes a mention of that
      id followed by a space, whatever the directory holds. */
  lemma {:induction false} RebuildMentionById(n: nat, d: map<string, int>)
    ensures RebuildText("<@" + ShowNat(n) + ">", ResolverOf(d)) == [At(n), Plain(" ")]
  {
    var w := ShowNat(n);
    var s := "<@" + w + ">";
    assert forall p :: 2 <= p < |s| - 1 ==> s[p] == w[p - 2];
    assert NoBreak(s, 2, |s| - 1);
    assert s[|s| - 1] == '>';
    assert CloseFrom(s, 2) == Some(|s| - 1);
    assert MatchAt(s, 0) == Some(|s|);
    assert Scan(s, 0) == [Span(0, |s|)] + Scan(s, |s|);
    var m := Span(0, |s|);
    assert Content(s, m) == w;
    ResolveShownId(n, d);
    assert Scan(s, |s|) == [];
    assert SpansFrom(s, [m], 0);
    assert MarkerSegments(s, m, ResolverOf(d)) == [At(n), Plain(" ")];
    assert Head(s, m, 0, ResolverOf(d)) == [At(n), Plain(" ")];
    assert Emit(s, [m], 0, ResolverOf(d)) == Head(s, m, 0, ResolverOf(d)) + Emit(s, [], |s|, ResolverOf(d));
  }

  // ---------------------------------------------------------------------
  // The whole chain in a group chat
  // ---------------------------------------------------------------------

  /** A component that is not `Plain` stays where it was, between the
      rebuilt components before and after it. */
  lemma {:induction false} GroupKeepsPosition(a: seq<Segment>, x: Segment, b: seq<Segment>, res: Resolver)
    requires !x.Plain?
    ensures GroupRebuild(a + [x] + b, res) == GroupRebuild(a, res) + [x] + GroupRebuild(b, res)
  {
    ConcatMapKeepsPosition(a, x, b, GroupStep(res));
  }

  lemma {:induction false} GroupStepKeepsOthers(res: Resolver)
    ensures forall x :: Keep(GroupStep(res)(x), IsOther) == Keep([x], IsOther)
  {
    forall x
      ensures Keep(GroupStep(res)(x), IsOther) == Keep([x], IsOther)
    {
      GroupSegmentKeepsOthers(x, res);
    }
  }

  lemma {:induction false} GroupSegmentKeepsOthers(x: Segment, res: Resolver)
    ensures Keep(GroupSegment(x, res), IsOther) == Keep([x], IsOther)
  {
    if x.Plain? {
      KeepNoOther(RebuildText(x.text, res));
      assert Keep([x], IsOther) == [] + Keep([], IsOther);
    }
  }

  /** The mentions one component contributes after rebuilding. */
  function MentionsOf(x: Segment, res: Resolver): seq<Segment>
  {
    match x
    case Plain(t) => ResolvedMentions(t, Scan(t, 0), res)
    case At(_) => [x]
    case Other(_) => []
  }

  function MentionStep(res: Resolver): Segment -> seq<Segment>
  {
    (x: Segment) => MentionsOf(x, res)
  }

  lemma {:induction false} GroupStepMentions(res: Resolver)
    ensures forall x :: Keep(GroupStep(res)(x), IsAt) == MentionStep(res)(x)
  {
    forall x
      ensures Keep(GroupStep(res)(x), IsAt) == MentionStep(res)(x)
    {
      GroupSegmentMentions(x, res);
    }
  }

  lemma {:induction false} GroupSegmentMentions(x: Segment, res: Resolver)
    ensures Keep(GroupSegment(x, res), IsAt) == MentionsOf(x, res)
  {
    if x.Plain? {
      EmitMentions(x.text, Scan(x.text, 0), 0, res);
    } else {
      assert Keep([x], IsAt) == (if x.At? then [x] else []) + Keep([], IsAt);
    }
  }

  // ---------------------------------------------------------------------
  // Private chat
  // ---------------------------------------------------------------------

  /** A component that is not `Plain` stays where it was. */
  lemma {:induction false} PrivateKeepsPosition(a: seq<Segment>, x: Segment, b: seq<Segment>)
    requires !x.Plain?
    ensures PrivateStrip(a + [x] + b) == PrivateStrip(a) + [x] + PrivateStrip(b)
  {
    ConcatMapKeepsPosition(a, x, b, PrivateSegment);
  }

  /** The stripped texts, with the empty ones left out. */
  function CleanTexts(ts: seq<string>): seq<string>
    decreases |ts|
  {
    if |ts| == 0 then []
    else (if StripMarkers(ts[0]) == "" then [] else [StripMarkers(ts[0])]) + CleanTexts(ts[1..])
  }

  /** The texts of the private loop's output, and none of them empty. */
  lemma {:induction false} PrivateTexts(c: seq<Segment>)
    ensures Texts(ConcatMap(c, PrivateSegment)) == CleanTexts(Texts(c))
    ensures NoEmptyPlain(ConcatMap(c, PrivateSegment))
    decreases |c|
  {
    if |c| > 0 {
      PrivateTexts(c[1..]);
      var h := PrivateSegment(c[0]);
      var r := ConcatMap(c[1..], PrivateSegment);
      assert ConcatMap(c, PrivateSegment) == h + r;
      TextsAppend(h, r);
      assert Texts(c) == (if c[0].Plain? then [c[0].text] else []) + Texts(c[1..]);
      if c[0].Plain? {
        var ts := [c[0].text] + Texts(c[1..]);
        assert ts[0] == c[0].text && ts[1..] == Texts(c[1..]);
        var cleaned := StripMarkers(c[0].text);
        assert CleanTexts(ts) == (if cleaned == "" then [] else [cleaned]) + CleanTexts(Texts(c[1..]));
        if cleaned != "" {
          assert Texts(h) == [cleaned] + Texts([]);
        }
      } else {
        assert Texts(h) == Texts([c[0]]) == [] + Texts([]);
        assert Texts(c) == Texts(c[1..]);
        assert Texts(ConcatMap(c, PrivateSegment)) == Texts(r);
      }
    }
  }

  // ---------------------------------------------------------------------
  // The handler
  // ---------------------------------------------------------------------

  /** A one-text chain in a group chat with members is the rebuild of its
      text against the members' directory. */
  lemma {:induction false} HandleGroupText(t: string, members: seq<Member>)
    requires HasOpen(t) && |members| > 0
    ensures HandleAtConversion([Plain(t)], false, Some(members))
      == RebuildText(t, ResolverOf(BuildDirectory(members)))
  {
    assert [Plain(t)][0].Plain? && HasOpen([Plain(t)][0].text);
    HandleGroup([Plain(t)], members);
    GroupRebuildSingle(t, ResolverOf(BuildDirectory(members)));
  }

  /** Past the fast exit, a group chat with members rebuilds the chain
      against the members' directory. */
  lemma {:induction false} HandleGroup(chain: seq<Segment>, members: seq<Member>)
    requires HasTag(chain) && |members| > 0
    ensures HandleAtConversion(chain, false, Some(members)) == GroupRebuild(chain, ResolverOf(BuildDirectory(members)))
  {
  }

  /** Past the fast exit, a private chat strips the chain. */
  lemma {:induction false} HandlePrivate(chain: seq<Segment>, group: Option<seq<Member>>)
    requires HasTag(chain)
    ensures HandleAtConversion(chain, true, group) == PrivateStrip(chain)
  {
  }

  lemma {:induction false} GroupRebuildSingle(t: string, res: Resolver)
    ensures GroupRebuild([Plain(t)], res) == RebuildText(t, res)
  {
    var step := GroupStep(res);
    assert GroupRebuild([Plain(t)], res) == ConcatMap([Plain(t)], step);
    assert ConcatMap([Plain(t)], step) == step(Plain(t)) + ConcatMap([], step);
  }

  /** A one-text chain in a private chat is its stripped text, or nothing. */
  lemma {:induction false} HandlePrivateText(t: string, group: Option<seq<Member>>)
    requires HasOpen(t)
    ensures HandleAtConversion([Plain(t)], true, group)
      == if StripMarkers(t) == "" then [] else [Plain(StripMarkers(t))]
  {
    assert [Plain(t)][0].Plain? && HasOpen([Plain(t)][0].text);
    HandlePrivate([Plain(t)], group);
    assert ConcatMap([Plain(t)], PrivateSegment) == PrivateSegment(Plain(t)) + ConcatMap([], PrivateSegment);
  }

  /** Without `<@` in any `Plain` the chain is left exactly as it was. */
  lemma {:induction false} HandleWithoutTag(chain: seq<Segment>, isPrivate: bool, group: Option<seq<Member>>)
    requires !HasTag(chain)
    ensures HandleAtConversion(chain, isPrivate, group) == chain
  {
  }

  /** In a group chat without a fetched group or without members the chain
      is left exactly as it was, digit-only markers included. */
  lemma {:induction false} HandleWithoutMembers(chain: seq<Segment>, group: Option<seq<Member>>)
    requires group.None? || group.value == []
    ensures HandleAtConversion(chain, false, group) == chain
  {
  }
}
