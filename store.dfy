/** The browser's local storage as this program uses it: the puzzle list, one leaderboard
    object per puzzle, the last opened puzzle and the last player name. The handlers that
    read, change and write these back are methods here. */
module Storage {
  import opened Wrappers
  import opened Names
  import opened Puzzles
  import opened Leaderboard

  class Store {
    /** `pg_puzzles_v1`, newest first. */
    var puzzles: seq<Puzzle>
    /** `pg_leaderboard_v1_<puzzleId>`: each stored leaderboard object, by storage key. */
    var boards: map<string, Scores>
    /** `pg_lastPuzzleId_v1`. */
    var lastPuzzleId: string
    /** `pg_lastPlayerName_v1`. */
    var lastPlayerName: string

    constructor ()
      ensures puzzles == [] && boards == map[] && lastPuzzleId == "" && lastPlayerName == ""
    {
      puzzles, boards, lastPuzzleId, lastPlayerName := [], map[], "", "";
    }

    /** `readLeaderboard(puzzleId)`: the stored object, or `{}` when there is none. */
    function ScoresOf(puzzleId: string): (lb: Scores)
      reads this
      ensures LbKey(puzzleId) in boards ==> lb == boards[LbKey(puzzleId)]
      ensures LbKey(puzzleId) !in boards ==> lb == map[]
    {
      var key := LbKey(puzzleId);
      if key in boards then boards[key] else map[]
    }

    /** `upsertPuzzle(p)`: replace the first puzzle with `p.id` in place, else put `p` first. */
    method Upsert(p: Puzzle)
      modifies this`puzzles
      ensures puzzles == Upserted(old(puzzles), p)
      ensures GetById(puzzles, p.id) == Some(p)
    {
      var idx := FindIndex(puzzles, p.id);
      if idx >= 0 {
        puzzles := puzzles[idx := p];
      } else {
        puzzles := [p] + puzzles;
      }
      UpsertThenGet(old(puzzles), p);
    }

    /** The delete button: keep every puzzle whose id differs. */
    method Delete(id: string)
      modifies this`puzzles
      ensures puzzles == Without(old(puzzles), id)
      ensures GetById(puzzles, id) == None
    {
      puzzles := Without(puzzles, id);
    }

    /** `createPuzzleAndPlay`, with `uid()` and `Date.now()` passed in as `id`, `token` and
        `createdAt`: nothing happens without an image; otherwise the puzzle (named "Untitled"
        when the name is blank) is saved and becomes the last opened one. */
    method CreatePuzzle(id: string, rawName: string, visibility: Visibility, token: string,
                        piecesCount: int, imageDataUrl: string, createdAt: int)
      returns (created: Option<Puzzle>)
      modifies this`puzzles, this`lastPuzzleId
      ensures imageDataUrl == "" ==>
        created == None && puzzles == old(puzzles) && lastPuzzleId == old(lastPuzzleId)
      ensures imageDataUrl != "" ==>
        && created == Some(Puzzle(id, NameOr(rawName, "Untitled"), visibility, token,
                                  piecesCount, imageDataUrl, createdAt))
        && puzzles == Upserted(old(puzzles), created.value)
        && GetById(puzzles, id) == created
        && lastPuzzleId == id
    {
      if imageDataUrl == "" {
        return None;
      }
      var p := Puzzle(id, NameOr(rawName, "Untitled"), visibility, token, piecesCount, imageDataUrl, createdAt);
      Upsert(p);
      lastPuzzleId := p.id;
      created := Some(p);
    }

    /** `handleDeepLink` after the address is parsed: an opened puzzle becomes the last one. */
    method OpenDeepLink(pid: Option<string>, token: Option<string>) returns (o: DeepLinkOutcome)
      modifies this`lastPuzzleId
      ensures o == DeepLink(puzzles, pid, token)
      ensures lastPuzzleId == if o.Opened? then o.puzzle.id else old(lastPuzzleId)
    {
      o := DeepLink(puzzles, pid, token);
      if o.Opened? {
        lastPuzzleId := o.puzzle.id;
      }
    }

    /** The save-score button: without a current puzzle nothing happens; otherwise the name
        (trimmed, "Player" when blank) is remembered and the leaderboard is written back
        only when the time improves on the stored one. This is the best-of merge `Merged`;
        the lookup as written differs from it only for a name inherited from
        `Object.prototype` that has no entry yet (see `MergedAsWrittenElsewhere`). */
    method SaveScore(puzzleId: string, rawName: string, ms: int) returns (written: bool)
      modifies this`boards, this`lastPlayerName
      ensures puzzleId == "" ==>
        !written && boards == old(boards) && lastPlayerName == old(lastPlayerName)
      ensures puzzleId != "" ==>
        var name := NameOr(rawName, "Player");
        && lastPlayerName == name
        && written == Improves(old(ScoresOf(puzzleId)), name, ms)
        && boards == (if written then old(boards)[LbKey(puzzleId) := Merged(old(ScoresOf(puzzleId)), name, ms)]
                      else old(boards))
      ensures puzzleId != "" ==>
        ScoresOf(puzzleId) == Merged(old(ScoresOf(puzzleId)), NameOr(rawName, "Player"), ms)
      ensures forall other :: other != puzzleId ==> ScoresOf(other) == old(ScoresOf(other))
    {
      if puzzleId == "" {
        return false;
      }
      var name := NameOr(rawName, "Player");
      lastPlayerName := name;
      var lb := ScoresOf(puzzleId);
      written := Improves(lb, name, ms);
      if written {
        lb := lb[name := ms];
        boards := boards[LbKey(puzzleId) := lb];
      }
      forall other | other != puzzleId ensures ScoresOf(other) == old(ScoresOf(other)) {
        LbKeyInjective(other, puzzleId);
      }
    }
  }
}
