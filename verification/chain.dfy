/**
 The host objects the plugin reads and writes: a message chain of components
 and the members of a group.
 */
module Chain {

  import opened Text

  /** A message component: `Comp.Plain`, `Comp.At`, or anything else (images,
      voice, replies, ...), which the plugin only carries along. */
  datatype Segment = Plain(text: string) | At(id: int) | Other(tag: string)

  /** A group member; an empty name stands for a missing (falsy) one. */
  datatype Member = Member(nickname: string, card: string, userId: int)

  predicate IsNonPlain(x: Segment) { !x.Plain? }

  predicate IsAt(x: Segment) { x.At? }

  predicate IsOther(x: Segment) { x.Other? }

  /** The segments of `c` that satisfy `p`, in order. */
  function Keep(c: seq<Segment>, p: Segment -> bool): seq<Segment>
    decreases |c|
  {
    if |c| == 0 then []
    else (if p(c[0]) then [c[0]] else []) + Keep(c[1..], p)
  }

  lemma {:induction false} KeepAppend(a: seq<Segment>, b: seq<Segment>, p: Segment -> bool)
    ensures Keep(a + b, p) == Keep(a, p) + Keep(b, p)
    decreases |a|
  {
    if |a| > 0 {
      assert (a + b)[1..] == a[1..] + b;
      KeepAppend(a[1..], b, p);
    } else {
      assert a + b == b;
    }
  }

  /** The texts of the `Plain` segments, in order. */
  function Texts(c: seq<Segment>): seq<string>
  {
    if |c| == 0 then []
    else (if c[0].Plain? then [c[0].text] else []) + Texts(c[1..])
  }

  lemma {:induction false} TextsAppend(a: seq<Segment>, b: seq<Segment>)
    ensures Texts(a + b) == Texts(a) + Texts(b)
    decreases |a|
  {
    if |a| > 0 {
      assert (a + b)[1..] == a[1..] + b;
      TextsAppend(a[1..], b);
    } else {
      assert a + b == b;
    }
  }

  /** The fast-exit test: some `Plain` segment contains `<@`. */
  predicate HasTag(c: seq<Segment>)
  {
    exists k :: 0 <= k < |c| && c[k].Plain? && HasOpen(c[k].text)
  }

  /** The texts of the `Plain` segments run together, as the chain reads once
      mentions are taken out. */
  function PlainText(c: seq<Segment>): string
    decreases |c|
  {
    if |c| == 0 then ""
    else (if c[0].Plain? then c[0].text else "") + PlainText(c[1..])
  }

  lemma {:induction false} PlainTextAppend(a: seq<Segment>, b: seq<Segment>)
    ensures PlainText(a + b) == PlainText(a) + PlainText(b)
    decreases |a|
  {
    if |a| > 0 {
      assert (a + b)[1..] == a[1..] + b;
      PlainTextAppend(a[1..], b);
    } else {
      assert a + b == b;
    }
  }

  lemma {:induction false} KeepNone(c: seq<Segment>, p: Segment -> bool)
    requires forall k :: 0 <= k < |c| ==> !p(c[k])
    ensures Keep(c, p) == []
    decreases |c|
  {
    if |c| > 0 {
      KeepNone(c[1..], p);
    }
  }

  /** No component other than `Plain` and `At`. */
  predicate NoOther(c: seq<Segment>)
  {
    forall k :: 0 <= k < |c| ==> !c[k].Other?
  }

  lemma {:induction false} NoOtherAppend(a: seq<Segment>, b: seq<Segment>)
    requires NoOther(a) && NoOther(b)
    ensures NoOther(a + b)
  {
    forall k | 0 <= k < |a + b|
      ensures !(a + b)[k].Other?
    {
      if k < |a| {
        assert (a + b)[k] == a[k];
      } else {
        assert (a + b)[k] == b[k - |a|];
      }
    }
  }

  lemma {:induction false} KeepNoOther(c: seq<Segment>)
    requires NoOther(c)
    ensures Keep(c, IsOther) == []
    decreases |c|
  {
    if |c| > 0 {
      KeepNoOther(c[1..]);
    }
  }

  /** No `Plain` component has empty text. */
  predicate NoEmptyPlain(c: seq<Segment>)
  {
    forall k :: 0 <= k < |c| && c[k].Plain? ==> c[k].text != ""
  }

  lemma {:induction false} NoEmptyPlainAppend(a: seq<Segment>, b: seq<Segment>)
    requires NoEmptyPlain(a) && NoEmptyPlain(b)
    ensures NoEmptyPlain(a + b)
  {
    forall k | 0 <= k < |a + b| && (a + b)[k].Plain?
      ensures (a + b)[k].text != ""
    {
      if k < |a| {
        assert (a + b)[k] == a[k];
      } else {
        assert (a + b)[k] == b[k - |a|];
      }
    }
  }

  /** Every mention is immediately followed by a single-space `Plain`. */
  predicate MentionsSpaced(c: seq<Segment>)
  {
    forall k :: 0 <= k < |c| && c[k].At? ==> k + 1 < |c| && c[k + 1] == Plain(" ")
  }

  lemma {:induction false} MentionsSpacedAppend(a: seq<Segment>, b: seq<Segment>)
    requires MentionsSpaced(a) && MentionsSpaced(b)
    ensures MentionsSpaced(a + b)
  {
    forall k | 0 <= k < |a + b| && (a + b)[k].At?
      ensures k + 1 < |a + b| && (a + b)[k + 1] == Plain(" ")
    {
      if k < |a| {
        assert a[k].At?;
      } else {
        assert b[k - |a|].At?;
      }
    }
  }

  /** Filtering a filtered chain by a stronger condition. */
  lemma {:induction false} KeepKeep(c: seq<Segment>, p: Segment -> bool, q: Segment -> bool)
    requires forall x :: q(x) ==> p(x)
    ensures Keep(Keep(c, p), q) == Keep(c, q)
    decreases |c|
  {
    if |c| > 0 {
      KeepKeep(c[1..], p, q);
      KeepAppend(if p(c[0]) then [c[0]] else [], Keep(c[1..], p), q);
    }
  }

  /** The chain obtained by replacing every component `x` by `f(x)`: the
      shape of both loops of the handler. */
  function ConcatMap(c: seq<Segment>, f: Segment -> seq<Segment>): seq<Segment>
    decreases |c|
  {
    if |c| == 0 then [] else f(c[0]) + ConcatMap(c[1..], f)
  }

  lemma {:induction false} ConcatMapAppend(a: seq<Segment>, b: seq<Segment>, f: Segment -> seq<Segment>)
    ensures ConcatMap(a + b, f) == ConcatMap(a, f) + ConcatMap(b, f)
    decreases |a|
  {
    if |a| > 0 {
      assert (a + b)[1..] == a[1..] + b;
      ConcatMapAppend(a[1..], b, f);
    } else {
      assert a + b == b;
    }
  }

  /** A component that `f` keeps as it is stays between the images of the
      components before and after it. */
  lemma {:induction false} ConcatMapKeepsPosition(a: seq<Segment>, x: Segment, b: seq<Segment>, f: Segment -> seq<Segment>)
    requires f(x) == [x]
    ensures ConcatMap(a + [x] + b, f) == ConcatMap(a, f) + [x] + ConcatMap(b, f)
  {
    ConcatMapAppend(a + [x], b, f);
    ConcatMapAppend(a, [x], f);
    assert ConcatMap([x], f) == f(x) + ConcatMap([], f);
  }

  /** Filtering the image is mapping the filtered images. */
  lemma {:induction false} KeepConcatMap(c: seq<Segment>, f: Segment -> seq<Segment>, p: Segment -> bool, g: Segment -> seq<Segment>)
    requires forall x :: Keep(f(x), p) == g(x)
    ensures Keep(ConcatMap(c, f), p) == ConcatMap(c, g)
    decreases |c|
  {
    if |c| > 0 {
      KeepConcatMap(c[1..], f, p, g);
      KeepAppend(f(c[0]), ConcatMap(c[1..], f), p);
    }
  }

  /** When `f` neither adds nor removes components satisfying `p`, the chain
      keeps exactly its components satisfying `p`, in order. */
  lemma {:induction false} ConcatMapPreserves(c: seq<Segment>, f: Segment -> seq<Segment>, p: Segment -> bool)
    requires forall x :: Keep(f(x), p) == Keep([x], p)
    ensures Keep(ConcatMap(c, f), p) == Keep(c, p)
    decreases |c|
  {
    if |c| > 0 {
      ConcatMapPreserves(c[1..], f, p);
      KeepAppend(f(c[0]), ConcatMap(c[1..], f), p);
      assert Keep([c[0]], p) == (if p(c[0]) then [c[0]] else []) + Keep([], p);
      assert Keep(c, p) == Keep([c[0]], p) + Keep(c[1..], p);
    }
  }
}
