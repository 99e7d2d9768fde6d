/** The saved puzzle list (newest first) and the operations on it: lookup by id, insert or
    replace, delete, and the deep-link check for link-only puzzles. */
module Puzzles {
  import opened Wrappers

  datatype Visibility = Public | Private | Link

  datatype Puzzle = Puzzle(
    id: string, name: string, visibility: Visibility, token: string,
    piecesCount: int, imageDataUrl: string, createdAt: int)

  /** `list.findIndex(p => p.id === id)`: the first index holding `id`, or -1. */
  function FindIndex(list: seq<Puzzle>, id: string): (i: int)
    ensures -1 <= i < |list|
    ensures i >= 0 ==> list[i].id == id && forall j :: 0 <= j < i ==> list[j].id != id
    ensures i < 0 ==> forall j :: 0 <= j < |list| ==> list[j].id != id
  {
    if list == [] then -1
    else if list[0].id == id then 0
    else
      var k := FindIndex(list[1..], id);
      if k < 0 then -1 else k + 1
  }

  /** Only one index can be the first to hold `id`. */
  lemma FindIndexIsFirst(list: seq<Puzzle>, id: string, i: int)
    requires 0 <= i < |list| && list[i].id == id
    requires forall j :: 0 <= j < i ==> list[j].id != id
    ensures FindIndex(list, id) == i
  {
  }

  /** `getPuzzleById`: `list.find(p => p.id === id) || null`. */
  function GetById(list: seq<Puzzle>, id: string): (r: Option<Puzzle>)
    ensures r.None? <==> forall j :: 0 <= j < |list| ==> list[j].id != id
    ensures r.Some? ==> r.value.id == id && r.value in list
    ensures r.Some? ==> exists i :: 0 <= i < |list| && list[i] == r.value
                          && forall j :: 0 <= j < i ==> list[j].id != id
  {
    var i := FindIndex(list, id);
    if i < 0 then None else Some(list[i])
  }

  /** The list `upsertPuzzle(p)` saves: the first puzzle with `p.id` replaced in place,
      or `p` put in front when there is none. */
  function Upserted(list: seq<Puzzle>, p: Puzzle): (r: seq<Puzzle>)
    ensures FindIndex(list, p.id) >= 0 ==>
      && |r| == |list| && r[FindIndex(list, p.id)] == p
      && forall j :: 0 <= j < |list| && j != FindIndex(list, p.id) ==> r[j] == list[j]
    ensures FindIndex(list, p.id) < 0 ==> r == [p] + list
  {
    var i := FindIndex(list, p.id);
    if i >= 0 then list[i := p] else [p] + list
  }

  /** After an upsert, looking up the puzzle's id finds exactly that puzzle. */
  lemma UpsertThenGet(list: seq<Puzzle>, p: Puzzle)
    ensures GetById(Upserted(list, p), p.id) == Some(p)
  {
    var r := Upserted(list, p);
    var i := FindIndex(list, p.id);
    if i >= 0 {
      FindIndexIsFirst(r, p.id, i);
    } else {
      FindIndexIsFirst(r, p.id, 0);
    }
  }

  /** An upsert leaves the lookup of every other id as it was. */
  lemma UpsertKeepsOthers(list: seq<Puzzle>, p: Puzzle, id: string)
    requires id != p.id
    ensures GetById(Upserted(list, p), id) == GetById(list, id)
  {
    var r := Upserted(list, p);
    var k := FindIndex(list, id);
    if k >= 0 {
      if FindIndex(list, p.id) >= 0 {
        FindIndexIsFirst(r, id, k);
      } else {
        FindIndexIsFirst(r, id, k + 1);
      }
    }
  }

  /** The delete button: `list.filter(x => x.id !== id)`. */
  function Without(list: seq<Puzzle>, id: string): (r: seq<Puzzle>)
    ensures forall x :: x in r <==> x in list && x.id != id
    ensures |r| <= |list|
    ensures (forall j :: 0 <= j < |list| ==> list[j].id != id) ==> r == list
  {
    if list == [] then []
    else (if list[0].id == id then [] else [list[0]]) + Without(list[1..], id)
  }

  /** Deleting keeps the survivors in their order: filtering distributes over concatenation. */
  lemma {:induction false} WithoutConcat(a: seq<Puzzle>, b: seq<Puzzle>, id: string)
    ensures Without(a + b, id) == Without(a, id) + Without(b, id)
  {
    if a == [] {
      assert a + b == b;
    } else {
      assert (a + b)[1..] == a[1..] + b;
      WithoutConcat(a[1..], b, id);
    }
  }

  /** After a delete, the id is gone. */
  lemma WithoutRemoves(list: seq<Puzzle>, id: string)
    ensures GetById(Without(list, id), id) == None
  {
  }

  /** A delete leaves the lookup of every other id as it was. */
  lemma WithoutKeepsOthers(list: seq<Puzzle>, id: string, other: string)
    requires other != id
    ensures GetById(Without(list, id), other) == GetById(list, other)
  {
    var k := FindIndex(list, other);
    if k >= 0 {
      WithoutKeepsFirst(list, id, other, k);
    } else {
      WithoutKeepsAbsent(list, id, other);
    }
  }

  lemma WithoutKeepsFirst(list: seq<Puzzle>, id: string, other: string, k: nat)
    requires other != id && k == FindIndex(list, other)
    ensures GetById(Without(list, id), other) == Some(list[k])
  {
    var w := Without(list[..k], id);
    SplitAt(list, k, id);
    var r := Without(list, id);
    assert r[|w|] == list[k];
    forall j | 0 <= j < |w| ensures r[j].id != other {
      assert r[j] == w[j] && w[j] in list[..k];
    }
    FindIndexIsFirst(r, other, |w|);
  }

  lemma WithoutKeepsAbsent(list: seq<Puzzle>, id: string, other: string)
    requires FindIndex(list, other) < 0
    ensures GetById(Without(list, id), other) == None
  {
    var r := Without(list, id);
    forall j | 0 <= j < |r| ensures r[j].id != other {
      assert r[j] in list;
    }
  }

  lemma SplitAt(list: seq<Puzzle>, k: nat, id: string)
    requires k < |list| && list[k].id != id
    ensures Without(list, id) == Without(list[..k], id) + [list[k]] + Without(list[k + 1..], id)
  {
    var before, x, after := list[..k], list[k], list[k + 1..];
    assert list == (before + [x]) + after;
    WithoutConcat(before + [x], after, id);
    WithoutConcat(before, [x], id);
    assert [x][1..] == [];
    assert Without([x], id) == [x];
  }

  /** The deep-link token check: a link-only puzzle refuses a token that is given, non-empty
      and not its own. A public puzzle, its own token, and a missing or empty token all pass. */
  predicate TokenRefused(p: Puzzle, token: Option<string>)
    ensures p.visibility != Link ==> !TokenRefused(p, token)
    ensures token == Some(p.token) ==> !TokenRefused(p, token)
    ensures token.None? || token == Some("") ==> !TokenRefused(p, token)
  {
    p.visibility == Link && token.Some? && token.value != "" && token.value != p.token
  }

  datatype DeepLinkOutcome = Ignored | NotFound | Refused | Opened(puzzle: Puzzle)

  /** `handleDeepLink` once `pid` and `t` are read from the address: nothing without a
      (non-empty) id, nothing for an unknown id, a refusal for a bad token, else the puzzle. */
  function DeepLink(list: seq<Puzzle>, pid: Option<string>, token: Option<string>): (o: DeepLinkOutcome)
    ensures o == Ignored <==> pid.None? || pid.value == ""
    ensures o == NotFound <==> pid.Some? && pid.value != "" && GetById(list, pid.value).None?
    ensures o == Refused <==>
      pid.Some? && pid.value != "" && GetById(list, pid.value).Some?
      && TokenRefused(GetById(list, pid.value).value, token)
    ensures o.Opened? ==>
      pid.Some? && GetById(list, pid.value) == Some(o.puzzle) && !TokenRefused(o.puzzle, token)
  {
    if pid.None? || pid.value == "" then Ignored
    else
      match GetById(list, pid.value)
      case None => NotFound
      case Some(pz) => if TokenRefused(pz, token) then Refused else Opened(pz)
  }

  /** The link a puzzle's share button builds (its id, and its token when link-only) opens it. */
  lemma ShareLinkOpens(list: seq<Puzzle>, p: Puzzle)
    requires p.id != "" && GetById(list, p.id) == Some(p)
    ensures DeepLink(list, Some(p.id), if p.visibility == Link then Some(p.token) else None) == Opened(p)
  {
  }

  /** As coded, a link-only puzzle also opens with no token or an empty one. */
  lemma LinkOnlyWithoutToken(list: seq<Puzzle>, p: Puzzle, token: Option<string>)
    requires p.id != "" && GetById(list, p.id) == Some(p)
    requires token.None? || token.value == ""
    ensures DeepLink(list, Some(p.id), token) == Opened(p)
  {
  }
}
