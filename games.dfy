/**
  Saved games and the ownership guard: create_game, get_games, get_hint,
  update_game and delete_game. The game collection is a map from game id to
  record; the caller is identified by the user id its session resolved to.
*/
module Games {
  import opened Wrappers
  import opened Candidates
  import opened Hints
  import opened Explanations

  datatype Game = Game(
    id: string,
    userId: string,
    board: seq<seq<int>>,
    initialPuzzle: seq<seq<int>>,
    solution: seq<seq<int>>,
    timePlayed: int,
    level: string,
    createdAt: int,
    isHidden: bool)

  datatype GameError =
    | NotFound       // no game with this id (404)
    | Forbidden      // the caller does not own the game (403)
    | NoHint         // no hint available (400)
    | MalformedGrid  // a stored grid is smaller than 9x9 (the source fails while indexing it)

  datatype HintReply = HintReply(hint: Hint, explanation: Explanation)

  /**
    The guard in front of get_hint, update_game and delete_game: an unknown id
    is reported first, then a caller who is not the owner.
  */
  function Authorize(games: map<string, Game>, gameId: string, callerId: string): (r: Outcome<GameError>)
    ensures r == Fail(NotFound) <==> gameId !in games
    ensures r == Fail(Forbidden) <==> gameId in games && games[gameId].userId != callerId
    ensures r == Pass <==> gameId in games && games[gameId].userId == callerId
  {
    if gameId !in games then Fail(NotFound)
    else if games[gameId].userId != callerId then Fail(Forbidden)
    else Pass
  }

  class GameStore {
    var games: map<string, Game>

    /** Every record is stored under its own id. */
    ghost predicate Valid()
      reads this
    {
      forall id | id in games :: games[id].id == id
    }

    constructor ()
      ensures Valid() && games == map[]
    {
      games := map[];
    }

    /**
      create_game: a caller may only create games for itself. The new id comes
      from the id generator and is not yet in use.
    */
    method CreateGame(newId: string, userId: string, board: seq<seq<int>>, initialPuzzle: seq<seq<int>>,
                      solution: seq<seq<int>>, timePlayed: int, level: string, isHidden: bool,
                      callerId: string, now: int) returns (r: Result<Game, GameError>)
      requires Valid() && newId !in games
      modifies this
      ensures Valid()
      ensures r.Failure? <==> userId != callerId
      ensures r.Failure? ==> r.error == Forbidden && games == old(games)
      ensures r.Success? ==>
        && r.value == Game(newId, userId, board, initialPuzzle, solution, timePlayed, level, now, isHidden)
        && games == old(games)[newId := r.value]
    {
      if userId != callerId {
        return Failure(Forbidden);
      }
      var game := Game(newId, userId, board, initialPuzzle, solution, timePlayed, level, now, isHidden);
      games := games[newId := game];
      r := Success(game);
    }

    /** get_games: a caller may only list its own games, and sees only those not hidden. */
    function VisibleGames(userId: string, callerId: string): (r: Result<set<Game>, GameError>)
      reads this
      ensures r.Failure? <==> userId != callerId
      ensures r.Failure? ==> r.error == Forbidden
      ensures r.Success? ==>
        forall g :: g in r.value <==> g in games.Values && g.userId == userId && !g.isHidden
      ensures Valid() && r.Success? ==> forall g | g in r.value :: g.id in games && games[g.id] == g
    {
      if userId != callerId then Failure(Forbidden)
      else Success(set id | id in games && games[id].userId == userId && !games[id].isHidden :: games[id])
    }

    /**
      get_hint: after the guard, the hint selected on the stored board and
      solution, with its explanation lists; "no hint" when selection finds none.
    */
    method GetHint(gameId: string, callerId: string) returns (r: Result<HintReply, GameError>)
      ensures Authorize(games, gameId, callerId).Fail? ==> r == Failure(Authorize(games, gameId, callerId).error)
      ensures Authorize(games, gameId, callerId).Pass? ==>
        var g := games[gameId];
        && (r == Failure(MalformedGrid) <==> !(IsGrid(g.board) && IsGrid(g.solution)))
        && (IsGrid(g.board) && IsGrid(g.solution) ==>
              && (r == Failure(NoHint) <==> HintSpec(g.board, g.solution, None))
              && (r.Success? || r == Failure(NoHint))
              && (r.Success? ==>
                    && HintSpec(g.board, g.solution, Some(r.value.hint))
                    && r.value.explanation == Explain(g.board, r.value.hint)))
    {
      var guard := Authorize(games, gameId, callerId);
      if guard.Fail? {
        return Failure(guard.error);
      }
      var g := games[gameId];
      if !(IsGrid(g.board) && IsGrid(g.solution)) {
        return Failure(MalformedGrid);
      }
      var hint := SelectHint(g.board, g.solution);
      if hint.None? {
        return Failure(NoHint);
      }
      r := Success(HintReply(hint.value, Explain(g.board, hint.value)));
    }

    /**
      update_game: after the guard, overwrite the board, the play time and the
      hidden flag of the record, and nothing else.
    */
    method UpdateGame(gameId: string, board: seq<seq<int>>, timePlayed: int, isHidden: bool, callerId: string)
      returns (r: Result<Game, GameError>)
      requires Valid()
      modifies this
      ensures Valid()
      ensures Authorize(old(games), gameId, callerId).Fail? ==>
        r == Failure(Authorize(old(games), gameId, callerId).error) && games == old(games)
      ensures Authorize(old(games), gameId, callerId).Pass? ==>
        && r == Success(old(games)[gameId].(board := board, timePlayed := timePlayed, isHidden := isHidden))
        && games == old(games)[gameId := r.value]
    {
      var guard := Authorize(games, gameId, callerId);
      if guard.Fail? {
        return Failure(guard.error);
      }
      var updated := games[gameId].(board := board, timePlayed := timePlayed, isHidden := isHidden);
      games := games[gameId := updated];
      r := Success(updated);
    }

    /** delete_game: after the guard, remove the record. */
    method DeleteGame(gameId: string, callerId: string) returns (r: Outcome<GameError>)
      requires Valid()
      modifies this
      ensures Valid()
      ensures r == Authorize(old(games), gameId, callerId)
      ensures r.Fail? ==> games == old(games)
      ensures r.Pass? ==> games == old(games) - {gameId}
    {
      r := Authorize(games, gameId, callerId);
      if r.Pass? {
        games := games - {gameId};
      }
    }
  }
}
