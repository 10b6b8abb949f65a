/**
 The member directory (`members_map`) and the resolution of a marker's
 content to a user id.
 */
module Directory {

  import opened Options
  import opened Text
  import opened Numbers
  import opened Chain

  /** `name` is one of the member's non-empty names. */
  predicate Holds(m: Member, name: string)
  {
    name != "" && (m.nickname == name || m.card == name)
  }

  /** One iteration of the directory loop: nickname first, card second. */
  function AddMember(d: map<string, int>, m: Member): map<string, int>
  {
    var d' := if m.nickname != "" then d[m.nickname := m.userId] else d;
    if m.card != "" then d'[m.card := m.userId] else d'
  }

  /** `members_map` after iterating over `ms` in order. It knows exactly the
      non-empty names of the members. */
  function BuildDirectory(ms: seq<Member>): (d: map<string, int>)
    ensures forall name :: name in d <==> exists k :: 0 <= k < |ms| && Holds(ms[k], name)
    decreases |ms|
  {
    if |ms| == 0 then map[]
    else
      var init := ms[..|ms| - 1];
      var d := AddMember(BuildDirectory(init), ms[|ms| - 1]);
      assert forall k :: 0 <= k < |init| ==> init[k] == ms[k];
      d
  }

  /** A name maps to the id of the LAST member that holds it, whether as
      nickname or as card; within one member the card is written second. */
  lemma {:induction false} DirectoryLookup(ms: seq<Member>, name: string, k: nat)
    requires k < |ms| && Holds(ms[k], name)
    requires forall k' :: k < k' < |ms| ==> !Holds(ms[k'], name)
    ensures name in BuildDirectory(ms) && BuildDirectory(ms)[name] == ms[k].userId
    decreases |ms|
  {
    if k < |ms| - 1 {
      var init := ms[..|ms| - 1];
      assert init[k] == ms[k];
      DirectoryLookup(init, name, k);
      assert !Holds(ms[|ms| - 1], name);
    }
  }

  /** When one member's nickname and a member's card at the same or a later
      position are the same name, and nobody after holds it, the card's
      owner is the one found. */
  lemma {:induction false} CardOverNickname(ms: seq<Member>, name: string, i: nat, k: nat)
    requires i <= k < |ms| && name != ""
    requires ms[i].nickname == name && ms[k].card == name
    requires forall k' :: k < k' < |ms| ==> !Holds(ms[k'], name)
    ensures name in BuildDirectory(ms) && BuildDirectory(ms)[name] == ms[k].userId
  {
    DirectoryLookup(ms, name, k);
  }

  /** `content.strip()`, then: digits only -> that number; a directory name ->
      its id; anything `int()` accepts -> that number; otherwise unresolved. */
  function Resolve(raw: string, d: map<string, int>): (r: Option<int>)
    ensures IsDigits(Trim(raw)) ==> r == Some(DigitsValue(Trim(raw)))
    ensures !IsDigits(Trim(raw)) && Trim(raw) in d ==> r == Some(d[Trim(raw)])
    ensures !IsDigits(Trim(raw)) && Trim(raw) !in d ==> r == ParseInt(Trim(raw))
    ensures r.None? <==> !IsDigits(Trim(raw)) && Trim(raw) !in d && !IntSyntax(Trim(raw))
  {
    var c := Trim(raw);
    if IsDigits(c) then Some(DigitsValue(c))
    else if c in d then Some(d[c])
    else ParseInt(c)
  }

  /** Surrounding whitespace never changes the outcome. */
  lemma {:induction false} ResolveIgnoresPadding(raw: string, d: map<string, int>)
    ensures Resolve(Trim(raw), d) == Resolve(raw, d)
  {
    TrimIdempotent(raw);
  }

  /** The decimal spelling of an id resolves to that id, whatever the
      directory holds. */
  lemma {:induction false} ResolveShownId(n: nat, d: map<string, int>)
    ensures Resolve(ShowNat(n), d) == Some(n)
  {
    var s := ShowNat(n);
    assert !IsSpace(s[0]) && !IsSpace(s[|s| - 1]) by {
      assert IsDigit(s[0]) && IsDigit(s[|s| - 1]);
    }
    TrimOfTrimmed(s);
  }

  /** A content whose stripped form is a member's name, and not a number,
      resolves through the directory to the last member holding that name. */
  lemma {:induction false} ResolveByName(ms: seq<Member>, raw: string, k: nat)
    requires k < |ms| && Holds(ms[k], Trim(raw))
    requires forall k' :: k < k' < |ms| ==> !Holds(ms[k'], Trim(raw))
    requires !IsDigits(Trim(raw))
    ensures Resolve(raw, BuildDirectory(ms)) == Some(ms[k].userId)
  {
    DirectoryLookup(ms, Trim(raw), k);
  }

  /** Content that still holds whitespace once stripped, such as
      `3 people`, and is not a directory name stays unresolved: `int()`
      rejects it. */
  lemma {:induction false} ResolveInnerSpace(raw: string, d: map<string, int>, p: nat)
    requires p < |Trim(raw)| && IsSpace(Trim(raw)[p]) && Trim(raw) !in d
    ensures Resolve(raw, d).None?
  {
    var c := Trim(raw);
    assert !IsDigit(c[p]);
  }

  /** Digit-only content is read as a number before the directory is consulted. */
  lemma {:induction false} ResolveDigitsFirst(raw: string, d: map<string, int>)
    requires IsDigits(Trim(raw))
    ensures Resolve(raw, d) == Resolve(raw, map[]) == Some(DigitsValue(Trim(raw)))
  {
  }

  /** A signed number that is not a directory name falls through to `int()`. */
  lemma {:induction false} ResolveSignedId(i: int, d: map<string, int>)
    requires i < 0 && ShowInt(i) !in d
    ensures Resolve(ShowInt(i), d) == Some(i)
  {
    var t := ShowNat(-i);
    var s := ShowInt(i);
    assert s == "-" + t;
    assert s[0] == '-';
    assert s[|s| - 1] == t[|t| - 1];
    assert !IsSpace(s[0]) && !IsSpace(s[|s| - 1]);
    TrimOfTrimmed(s);
    assert !IsDigits(s) by {
      assert !IsDigit(s[0]);
    }
    ParseShowInt(i);
  }
}
