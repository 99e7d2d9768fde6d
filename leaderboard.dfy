/** Per-puzzle best times: the object `{name: bestMs}` stored under `lbKey(puzzleId)`,
    the merge done by the save-score button, and the ranking `renderLeaderboard` shows. */
module Leaderboard {

  const Prefix: string := "pg_leaderboard_v1_"

  /** `lbKey(puzzleId)`: the storage key of a puzzle's leaderboard. */
  function LbKey(puzzleId: string): (k: string)
    ensures Prefix <= k && k[|Prefix|..] == puzzleId
  {
    Prefix + puzzleId
  }

  /** Distinct puzzles never share a leaderboard. */
  lemma LbKeyInjective(a: string, b: string)
    ensures LbKey(a) == LbKey(b) <==> a == b
  {
    if LbKey(a) == LbKey(b) {
      assert LbKey(a)[|Prefix|..] == a;
    }
  }

  /** A leaderboard object: player name to best time in milliseconds. Names are compared
      exactly, so "Ann" and "ANN" are different players. */
  type Scores = map<string, int>

  /** The save-score condition `prev == null || timerMs < prev`, for own entries. */
  predicate Improves(lb: Scores, name: string, ms: int)
  {
    name !in lb || ms < lb[name]
  }

  /** The leaderboard after saving `ms` for `name`: written only on a strict improvement,
      so the entry becomes the smaller of the old and new times. */
  function Merged(lb: Scores, name: string, ms: int): (r: Scores)
    ensures r.Keys == lb.Keys + {name}
    ensures name !in lb ==> r[name] == ms
    ensures name in lb ==> r[name] == if ms < lb[name] then ms else lb[name]
    ensures forall k :: k in lb && k != name ==> r[k] == lb[k]
    ensures r == lb <==> !Improves(lb, name, ms)
  {
    if Improves(lb, name, ms) then lb[name := ms] else lb
  }

  /** Best-of merging does not depend on the order in which two results are saved. */
  lemma MergedCommutes(lb: Scores, a: string, x: int, b: string, y: int)
    ensures Merged(Merged(lb, a, x), b, y) == Merged(Merged(lb, b, y), a, x)
  {
    var l1 := Merged(Merged(lb, a, x), b, y);
    var l2 := Merged(Merged(lb, b, y), a, x);
    assert l1.Keys == l2.Keys;
    forall k | k in l1 ensures l1[k] == l2[k] {
    }
  }

  /** Saving the same result a second time changes nothing. */
  lemma MergedIdempotent(lb: Scores, name: string, ms: int)
    ensures Merged(Merged(lb, name, ms), name, ms) == Merged(lb, name, ms)
  {
  }

  // ---- The merge as written, looking names up on a plain JavaScript object ----

  /** The members every plain object inherits from `Object.prototype`. */
  const InheritedNames: set<string> := {
    "constructor", "__proto__", "__defineGetter__", "__defineSetter__", "__lookupGetter__",
    "__lookupSetter__", "hasOwnProperty", "isPrototypeOf", "propertyIsEnumerable",
    "toLocaleString", "toString", "valueOf"
  }

  /** What `lb[name]` yields: an own entry, an inherited member (a function, or the
      prototype itself for `__proto__`), or `undefined`. */
  datatype Lookup = Undefined | Own(ms: int) | Inherited

  function Get(lb: Scores, name: string): Lookup
  {
    if name in lb then Own(lb[name]) else if name in InheritedNames then Inherited else Undefined
  }

  /** `prev == null || timerMs < prev` as JavaScript evaluates it: an inherited member is not
      null, and `timerMs < prev` converts it to NaN, so the comparison is false. */
  predicate WritesAsWritten(lb: Scores, name: string, ms: int)
  {
    match Get(lb, name)
    case Undefined => true
    case Own(prev) => ms < prev
    case Inherited => false
  }

  /** The merge as written: it writes `ms` or leaves `lb` alone, writes only what the
      corrected merge would write, and never writes an inherited name that has no entry. */
  function MergedAsWritten(lb: Scores, name: string, ms: int): (r: Scores)
    ensures r == lb || r == lb[name := ms]
    ensures r != lb ==> r == Merged(lb, name, ms)
    ensures name in InheritedNames && name !in lb ==> r == lb
  {
    if WritesAsWritten(lb, name, ms) then lb[name := ms] else lb
  }

  /** A player called "toString" never gets a score saved, on any leaderboard without that entry. */
  lemma InheritedNameNeverSaved(lb: Scores, ms: int)
    requires "toString" !in lb
    ensures MergedAsWritten(lb, "toString", ms) == lb
    ensures "toString" !in MergedAsWritten(lb, "toString", ms)
    ensures "toString" in Merged(lb, "toString", ms)
  {
    assert "toString" in InheritedNames;
  }

  /** For every other name the code as written and the corrected merge agree. */
  lemma MergedAsWrittenElsewhere(lb: Scores, name: string, ms: int)
    requires name !in InheritedNames || name in lb
    ensures MergedAsWritten(lb, name, ms) == Merged(lb, name, ms)
  {
  }

  // ---- Ranking ----

  datatype Row = Row(name: string, ms: int)

  /** `order` lists each key of `lb` once: the order `Object.entries` returns them in. */
  predicate Enumerates(order: seq<string>, lb: Scores)
  {
    && (forall i :: 0 <= i < |order| ==> order[i] in lb)
    && (forall k :: k in lb ==> k in order)
    && (forall i, j :: 0 <= i < j < |order| ==> order[i] != order[j])
  }

  /** `Object.entries(lb).map(([name, ms]) => ({ name, ms }))`. */
  function Rows(lb: Scores, order: seq<string>): (r: seq<Row>)
    requires forall i :: 0 <= i < |order| ==> order[i] in lb
    ensures |r| == |order|
    ensures forall i :: 0 <= i < |r| ==> r[i] == Row(order[i], lb[order[i]])
  {
    seq(|order|, i requires 0 <= i < |order| => Row(order[i], lb[order[i]]))
  }

  predicate Sorted(s: seq<Row>)
  {
    forall i, j :: 0 <= i < j < |s| ==> s[i].ms <= s[j].ms
  }

  /** Place `x` before the first row that is not faster than it. */
  function Insert(x: Row, s: seq<Row>): (r: seq<Row>)
    ensures multiset(r) == multiset(s) + multiset{x}
    ensures Sorted(s) ==> Sorted(r)
  {
    if s == [] || x.ms <= s[0].ms then [x] + s
    else
      var t := Insert(x, s[1..]);
      assert s == [s[0]] + s[1..];
      SortedCons(s, x, t);
      [s[0]] + t
  }

  lemma SortedCons(s: seq<Row>, x: Row, t: seq<Row>)
    requires s != [] && s[0].ms < x.ms
    requires multiset(t) == multiset(s[1..]) + multiset{x}
    requires Sorted(s) ==> Sorted(t)
    ensures Sorted(s) ==> Sorted([s[0]] + t)
  {
    if Sorted(s) {
      forall j | 0 <= j < |t| ensures s[0].ms <= t[j].ms {
        assert t[j] in multiset(t);
        if t[j] != x {
          assert t[j] in multiset(s[1..]);
          var k :| 0 <= k < |s[1..]| && s[1..][k] == t[j];
          assert s[k + 1] == t[j];
        }
      }
      var u := [s[0]] + t;
      forall i, j | 0 <= i < j < |u| ensures u[i].ms <= u[j].ms {
        if i > 0 {
          assert u[i] == t[i - 1] && u[j] == t[j - 1];
        } else {
          assert u[j] == t[j - 1];
        }
      }
    }
  }

  /** `.sort((a, b) => a.ms - b.ms)`: a stable sort by ascending time. */
  function SortByTime(s: seq<Row>): (r: seq<Row>)
    ensures multiset(r) == multiset(s) && |r| == |s|
    ensures Sorted(r)
  {
    if s == [] then []
    else
      assert s == [s[0]] + s[1..];
      Insert(s[0], SortByTime(s[1..]))
  }

  /** The rows that took exactly `t` milliseconds, in order. */
  function WithTime(s: seq<Row>, t: int): seq<Row>
  {
    if s == [] then [] else (if s[0].ms == t then [s[0]] else []) + WithTime(s[1..], t)
  }

  lemma {:induction false} InsertWithTime(x: Row, s: seq<Row>, t: int)
    ensures WithTime(Insert(x, s), t) == (if x.ms == t then [x] else []) + WithTime(s, t)
  {
    if s == [] || x.ms <= s[0].ms {
      assert ([x] + s)[1..] == s;
      if s != [] && x.ms == t {
        assert s[0].ms >= t;
      }
    } else {
      var rest := Insert(x, s[1..]);
      InsertWithTime(x, s[1..], t);
      assert ([s[0]] + rest)[1..] == rest;
    }
  }

  /** The sort is stable: rows with equal times keep the order they came in. */
  lemma {:induction false} SortStable(s: seq<Row>, t: int)
    ensures WithTime(SortByTime(s), t) == WithTime(s, t)
  {
    if s != [] {
      SortStable(s[1..], t);
      InsertWithTime(s[0], SortByTime(s[1..]), t);
    }
  }

  const MaxRows: nat := 50

  /** `.slice(0, 50)`. */
  function Top(s: seq<Row>): (r: seq<Row>)
    ensures |r| == if |s| < MaxRows then |s| else MaxRows
    ensures r == s[..|r|]
    ensures Sorted(s) ==> Sorted(r)
  {
    if |s| <= MaxRows then s else s[..MaxRows]
  }

  /** The rows `renderLeaderboard` shows: sorted by time, then the first 50. */
  function Ranking(lb: Scores, order: seq<string>): (r: seq<Row>)
    requires Enumerates(order, lb)
    ensures Sorted(r)
    ensures |r| <= MaxRows && |r| <= |order|
  {
    Top(SortByTime(Rows(lb, order)))
  }

  lemma {:induction false} DistinctCard(order: seq<string>)
    requires forall i, j :: 0 <= i < j < |order| ==> order[i] != order[j]
    ensures |set k | k in order| == |order|
  {
    if order != [] {
      var rest := order[1..];
      DistinctCard(rest);
      assert (set k | k in order) == {order[0]} + (set k | k in rest);
      assert order[0] !in rest;
    }
  }

  lemma EnumerationSize(order: seq<string>, lb: Scores)
    requires Enumerates(order, lb)
    ensures |order| == |lb|
  {
    DistinctCard(order);
    assert (set k | k in order) == lb.Keys;
  }

  /** Every row shown is an entry of `lb`. */
  predicate RowsAreEntries(r: seq<Row>, lb: Scores)
  {
    forall i :: 0 <= i < |r| ==> r[i].name in lb && lb[r[i].name] == r[i].ms
  }

  predicate Shown(r: seq<Row>, k: string)
  {
    exists i :: 0 <= i < |r| && r[i].name == k
  }

  /** No entry of `lb` left out of `r` is faster than a row of `r`. */
  predicate NoFasterOmitted(r: seq<Row>, lb: Scores)
  {
    forall k, i :: k in lb && !Shown(r, k) && 0 <= i < |r| ==> r[i].ms <= lb[k]
  }

  /** The shown leaderboard: at most 50 rows, fastest first, every row an entry of `lb`,
      and no entry left out is faster than one shown. */
  lemma RankingProperties(lb: Scores, order: seq<string>)
    requires Enumerates(order, lb)
    ensures |Ranking(lb, order)| == if |lb| < MaxRows then |lb| else MaxRows
    ensures Sorted(Ranking(lb, order))
    ensures RowsAreEntries(Ranking(lb, order), lb)
    ensures NoFasterOmitted(Ranking(lb, order), lb)
    ensures multiset(Ranking(lb, order)) <= multiset(Rows(lb, order))
    ensures DistinctNames(Ranking(lb, order))
  {
    EnumerationSize(order, lb);
    var rows := Rows(lb, order);
    var sorted := SortByTime(rows);
    var r := Top(sorted);
    RankingEntries(lb, order, rows, sorted, r);
    RankingOmitted(lb, order, rows, sorted, r);
    PrefixSubMultiset(sorted, |r|);
    RankingDistinct(lb, order, rows, r);
  }

  /** No player appears on two rows. */
  predicate DistinctNames(r: seq<Row>)
  {
    forall i, j :: 0 <= i < j < |r| ==> r[i].name != r[j].name
  }

  lemma PrefixSubMultiset(s: seq<Row>, n: nat)
    requires n <= |s|
    ensures multiset(s[..n]) <= multiset(s)
  {
    assert s == s[..n] + s[n..];
  }

  /** A row repeated in a list occurs at least twice in its multiset. */
  lemma RepeatedRow(s: seq<Row>, i: nat, j: nat)
    requires i < j < |s| && s[i] == s[j]
    ensures multiset(s)[s[i]] >= 2
  {
    assert s == s[..j] + [s[j]] + s[j + 1..];
    assert s[i] == s[..j][i];
  }

  /** Each row of `Rows` occurs once when the enumerated names are distinct. */
  lemma {:induction false} RowsOnce(lb: Scores, order: seq<string>, x: Row)
    requires forall i :: 0 <= i < |order| ==> order[i] in lb
    requires forall i, j :: 0 <= i < j < |order| ==> order[i] != order[j]
    ensures multiset(Rows(lb, order))[x] <= 1
  {
    if order != [] {
      var rest := order[1..];
      forall i, j | 0 <= i < j < |rest| ensures rest[i] != rest[j] {
        assert rest[i] == order[i + 1] && rest[j] == order[j + 1];
      }
      RowsOnce(lb, rest, x);
      var rows := Rows(lb, order);
      assert rows == [rows[0]] + Rows(lb, rest);
      if rows[0] == x {
        forall k | 0 <= k < |rest| ensures Rows(lb, rest)[k] != x {
          assert order[k + 1] != order[0];
        }
        assert x !in Rows(lb, rest);
      }
    }
  }

  lemma RankingDistinct(lb: Scores, order: seq<string>, rows: seq<Row>, r: seq<Row>)
    requires Enumerates(order, lb) && rows == Rows(lb, order)
    requires multiset(r) <= multiset(rows) && RowsAreEntries(r, lb)
    ensures DistinctNames(r)
  {
    forall i, j | 0 <= i < j < |r| ensures r[i].name != r[j].name {
      if r[i].name == r[j].name {
        assert r[i] == r[j];
        RepeatedRow(r, i, j);
        RowsOnce(lb, order, r[i]);
        assert false;
      }
    }
  }

  lemma RankingEntries(lb: Scores, order: seq<string>, rows: seq<Row>, sorted: seq<Row>, r: seq<Row>)
    requires Enumerates(order, lb) && rows == Rows(lb, order)
    requires multiset(sorted) == multiset(rows) && |r| <= |sorted| && r == sorted[..|r|]
    ensures RowsAreEntries(r, lb)
  {
    forall i | 0 <= i < |r|
      ensures r[i].name in lb && lb[r[i].name] == r[i].ms
    {
      assert r[i] == sorted[i];
      assert r[i] in multiset(rows);
    }
  }

  lemma RankingOmitted(lb: Scores, order: seq<string>, rows: seq<Row>, sorted: seq<Row>, r: seq<Row>)
    requires Enumerates(order, lb) && rows == Rows(lb, order)
    requires multiset(sorted) == multiset(rows) && Sorted(sorted)
    requires |r| <= |sorted| && r == sorted[..|r|]
    ensures NoFasterOmitted(r, lb)
  {
    forall k, i | k in lb && !Shown(r, k) && 0 <= i < |r|
      ensures r[i].ms <= lb[k]
    {
      var m :| 0 <= m < |order| && order[m] == k;
      assert rows[m] in multiset(sorted);
      var j :| 0 <= j < |sorted| && sorted[j] == rows[m];
      assert j >= |r|;
      assert r[i] == sorted[i];
    }
  }
}
