/**
 Replies that open with one marker, followed through the scanner, the
 newline flattener and the whole handler.
 */
module Scenarios {

  import opened Options
  import opened Text
  import opened Numbers
  import opened Scanner
  import opened Chain
  import opened Directory
  import opened Normalizer
  import opened Conversion

  /** What the lazy `.*?` can cross before the first `>`. */
  predicate MarkerBody(c: string)
  {
    forall p :: 0 <= p < |c| ==> c[p] != '>' && c[p] != '\n'
  }

  /** A reply `<@c>` followed by text without `<@` holds exactly one match,
      whose content is `c`. */
  lemma {:induction false} LeadingScan(c: string, rest: string)
    requires MarkerBody(c) && !HasOpen(rest)
    ensures Scan(Literal(c) + rest, 0) == [Span(0, |c| + 3)]
    ensures Content(Literal(c) + rest, Span(0, |c| + 3)) == c
  {
    var s := Literal(c) + rest;
    var n := |c| + 3;
    assert forall p :: 2 <= p < n - 1 ==> s[p] == c[p - 2];
    assert s[n - 1] == '>';
    assert NoBreak(s, 2, n - 1);
    assert CloseFrom(s, 2) == Some(n - 1);
    assert MatchAt(s, 0) == Some(n);
    forall p | n <= p < |s| - 1
      ensures !(s[p] == '<' && s[p + 1] == '@')
    {
      assert s[p] == rest[p - n] && s[p + 1] == rest[p + 1 - n];
    }
    ScanQuietFrom(s, n);
    assert s[2..n - 1] == c;
  }

  /** What is left of a reply after its last marker: the text without its
      leading whitespace, or nothing. */
  function Tail(rest: string): seq<Segment>
  {
    var r := TrimLeft(rest);
    if r == "" then [] else [Plain(r)]
  }

  lemma {:induction false} RemainderTail(s: string, n: nat, rest: string)
    requires n <= |s| && s[n..] == rest
    ensures Remainder(s, n) == Tail(rest)
  {
    if n == |s| {
      assert rest == "";
    }
  }

  /** In a group chat such a reply becomes what the marker resolves to,
      then the rest of the reply without its leading whitespace. */
  lemma {:induction false} LeadingRebuild(c: string, rest: string, res: Resolver)
    requires MarkerBody(c) && !HasOpen(rest)
    ensures res(c).Some? ==> RebuildText(Literal(c) + rest, res) == [At(res(c).value), Plain(" ")] + Tail(rest)
    ensures res(c).None? ==> RebuildText(Literal(c) + rest, res) == [Plain(Literal(c))] + Tail(rest)
  {
    var s := Literal(c) + rest;
    var m := Span(0, |c| + 3);
    LeadingScan(c, rest);
    assert SpansFrom(s, [m], 0);
    assert Emit(s, [m], 0, res) == Head(s, m, 0, res) + Emit(s, [], m.end, res);
    assert Head(s, m, 0, res) == MarkerSegments(s, m, res);
    assert s[m.end..] == rest;
    RemainderTail(s, m.end, rest);
    MarkerOutcome(s, m, res);
  }

  /** In a private chat such a reply loses only the marker's delimiters. */
  lemma {:induction false} LeadingStrip(c: string, rest: string)
    requires MarkerBody(c) && !HasOpen(rest)
    ensures StripMarkers(Literal(c) + rest) == c + rest
  {
    var s := Literal(c) + rest;
    var ms := Scan(s, 0);
    var n := |c| + 3;
    LeadingScan(c, rest);
    assert SpansFrom(s, ms, 0);
    assert EndOf(ms, 0) == n;
    assert Interleave(s, [], n, Inner) == "";
    assert Interleave(s, ms, 0, Inner) == s[0..0] + Inner(c) + Interleave(s, [], n, Inner);
    assert s[n..] == rest;
  }

  /** Any whitespace run after a leading marker, line breaks included,
      becomes one space. */
  lemma {:induction false} FlattenLeading(c: string, w: string, t: string)
    requires MarkerBody(c) && |w| > 0 && AllSpace(w, 0, |w|)
    requires t == [] || !IsSpace(t[0])
    ensures Normalize(Literal(c) + w + t) == Literal(c) + " " + Normalize(t)
  {
    var s := Literal(c) + w + t;
    var j := |c| + 2;
    var e := j + 1 + |w|;
    assert s[..2] == "<@" && s[j] == '>';
    assert forall p :: 2 <= p < j ==> s[p] == c[p - 2];
    assert forall p :: j + 1 <= p < e ==> s[p] == w[p - j - 1];
    assert e < |s| ==> s[e] == t[0];
    FirstGlue(s, j, e);
    assert s[..j + 1] == Literal(c);
    assert s[e..] == t;
  }

  /** When the first `>` of a leading marker is followed by whitespace, the
      flattener keeps the marker, writes one space for the whole run, and
      goes on after it. */
  lemma {:induction false} FirstGlue(s: string, j: nat, e: nat)
    requires 2 <= j && j + 1 < e <= |s| && s[..2] == "<@" && s[j] == '>'
    requires forall p :: 2 <= p < j ==> s[p] != '>' && s[p] != '\n'
    requires AllSpace(s, j + 1, e) && (e == |s| || !IsSpace(s[e]))
    ensures Normalize(s) == s[..j + 1] + " " + Normalize(s[e..])
  {
    assert s[0] == s[..2][0] && s[1] == s[..2][1];
    assert NoBreak(s, 2, j);
    assert GluedAt(s, 0, j, e);
    var r := GluedMarker(s);
    assert r.Some?;
    var (j', e') := r.value;
    assert GluedAt(s, 0, j', e');
    assert j' <= j;
    assert s[j'] == '>' && 2 <= j';
    assert j' == j;
    assert AllSpace(s, j + 1, e') && (e' == |s| || !IsSpace(s[e']));
    assert e' == e;
  }

  // ---------------------------------------------------------------------
  // Whole replies through the handler
  // ---------------------------------------------------------------------

  /** A name with no padding that is not made only of digits. */
  predicate Word(w: string)
  {
    |w| > 0 && !IsSpace(w[0]) && !IsSpace(w[|w| - 1]) && !IsDigits(w)
  }

  /** Such a name resolves through the directory when it is there, and
      otherwise falls through to `int()`. */
  lemma {:induction false} ResolveWord(w: string, d: map<string, int>)
    requires Word(w)
    ensures Resolve(w, d) == if w in d then Some(d[w]) else ParseInt(w)
  {
    TrimOfTrimmed(w);
  }

  lemma {:induction false} OpensWithMarker(s: string)
    requires |s| >= 2 && s[..2] == "<@"
    ensures HasOpen(s)
  {
    assert s[0] == s[..2][0];
    assert s[1] == s[..2][1];
  }

  /** A group reply that opens with a marker the directory resolves becomes
      that mention, a space, and the rest of the reply without its leading
      whitespace. */
  lemma {:induction false} GroupLeadingResolved(c: string, rest: string, members: seq<Member>, res: Resolver, id: int)
    requires MarkerBody(c) && !HasOpen(rest) && |members| > 0
    requires res == ResolverOf(BuildDirectory(members)) && res(c) == Some(id)
    ensures HandleAtConversion([Plain(Literal(c) + rest)], false, Some(members))
      == [At(id), Plain(" ")] + Tail(rest)
  {
    var t := Literal(c) + rest;
    LiteralOpens(c, rest);
    LeadingResolved(c, rest, res, id);
    GroupOpening(t, members);
  }

  lemma LiteralOpens(c: string, rest: string)
    ensures |Literal(c) + rest| >= 2 && (Literal(c) + rest)[..2] == "<@"
  {
    assert (Literal(c) + rest)[..2] == Literal(c)[..2];
  }

  lemma {:induction false} LeadingResolved(c: string, rest: string, res: Resolver, id: int)
    requires MarkerBody(c) && !HasOpen(rest) && res(c) == Some(id)
    ensures RebuildText(Literal(c) + rest, res) == [At(id), Plain(" ")] + Tail(rest)
  {
    LeadingRebuild(c, rest, res);
  }

  /** A group reply that opens with a numeric id becomes a mention of that
      id, a space, and the rest of the reply without its leading whitespace. */
  lemma {:induction false} GroupLeadingId(n: nat, rest: string, members: seq<Member>)
    requires !HasOpen(rest) && |members| > 0
    ensures HandleAtConversion([Plain(Literal(ShowNat(n)) + rest)], false, Some(members))
      == [At(n), Plain(" ")] + Tail(rest)
  {
    var c := ShowNat(n);
    assert MarkerBody(c) by {
      forall p | 0 <= p < |c|
        ensures c[p] != '>' && c[p] != '\n'
      {
        assert IsDigit(c[p]);
      }
    }
    var res := ResolverOf(BuildDirectory(members));
    assert res(c) == Some(n) by {
      ResolveShownId(n, BuildDirectory(members));
    }
    GroupLeadingResolved(c, rest, members, res, n);
  }

  /** A group reply that opens with a member's name (one that does not look
      like a number) mentions the last member holding that name. */
  lemma {:induction false} GroupLeadingName(members: seq<Member>, k: nat, rest: string)
    requires k < |members| && !HasOpen(rest)
    requires Word(members[k].nickname) && MarkerBody(members[k].nickname)
    requires forall k' :: k < k' < |members| ==> !Holds(members[k'], members[k].nickname)
    ensures HandleAtConversion([Plain(Literal(members[k].nickname) + rest)], false, Some(members))
      == [At(members[k].userId), Plain(" ")] + Tail(rest)
  {
    var c := members[k].nickname;
    var res := ResolverOf(BuildDirectory(members));
    assert res(c) == Some(members[k].userId) by {
      DirectoryLookup(members, c, k);
      ResolveWord(c, BuildDirectory(members));
    }
    GroupLeadingResolved(c, rest, members, res, members[k].userId);
  }

  /** A group reply that opens with a marker nobody resolves keeps the marker
      as written. */
  lemma {:induction false} GroupLeadingUnresolved(c: string, rest: string, members: seq<Member>)
    requires MarkerBody(c) && !HasOpen(rest) && |members| > 0
    requires Resolve(c, BuildDirectory(members)).None?
    ensures HandleAtConversion([Plain(Literal(c) + rest)], false, Some(members))
      == [Plain(Literal(c))] + Tail(rest)
  {
    var t := Literal(c) + rest;
    var res := ResolverOf(BuildDirectory(members));
    assert RebuildText(t, res) == [Plain(Literal(c))] + Tail(rest) by {
      LeadingRebuild(c, rest, res);
      assert res(c).None?;
    }
    GroupOpening(t, members);
  }

  /** A group reply that opens with `<@` is rebuilt against the directory. */
  lemma {:induction false} GroupOpening(t: string, members: seq<Member>)
    requires |t| >= 2 && t[..2] == "<@" && |members| > 0
    ensures HandleAtConversion([Plain(t)], false, Some(members))
      == RebuildText(t, ResolverOf(BuildDirectory(members)))
  {
    OpensWithMarker(t);
    HandleGroupText(t, members);
  }

  /** A group without members leaves even a numeric marker alone. */
  lemma {:induction false} GroupWithoutMembers()
    ensures HandleAtConversion([Plain("<@123> 你好")], false, Some([])) == [Plain("<@123> 你好")]
  {
    HandleWithoutMembers([Plain("<@123> 你好")], Some([]));
  }

  /** A private reply that opens with a marker keeps the marker's content and
      everything after it; no mention appears. */
  lemma {:induction false} PrivateLeading(c: string, rest: string, group: Option<seq<Member>>)
    requires MarkerBody(c) && !HasOpen(rest)
    ensures HandleAtConversion([Plain(Literal(c) + rest)], true, group)
      == if c + rest == "" then [] else [Plain(c + rest)]
  {
    OpensWithMarker(Literal(c) + rest);
    HandlePrivateText(Literal(c) + rest, group);
    LeadingStrip(c, rest);
  }

  /** The private rewrite runs one pass: the first `>` closes the outer
      marker, so a nested one comes out whole. */
  lemma {:induction false} StripNested()
    ensures StripMarkers("<@<@a>>") == "<@a>"
  {
    assert Literal("<@a") + ">" == "<@<@a>>";
    assert !HasOpen(">");
    LeadingStrip("<@a", ">");
  }
}
