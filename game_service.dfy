/** The game service: starts games, routes guesses and solution requests to
    the right game, and tells the tournament service when a game ends. */
module Services {
  import opened JavaLang
  import opened Codes
  import opened Results
  import opened Errors
  import opened Games
  import opened Persist

  /** A call the service makes to one of its collaborators: the code
      generator, the code checker, or the tournament service. */
  datatype CollaboratorCall =
    | GenerateCode(code: Code)
    | CheckCode(secret: Code, guess: Code)
    | GameEnded(gameId: Uuid, status: GameStatus, guesses: nat)

  /** The tournament notifications about game `id`, in order. */
  ghost function EndedNotices(calls: seq<CollaboratorCall>, id: Uuid): seq<CollaboratorCall>
  {
    if calls == [] then []
    else (if calls[0].GameEnded? && calls[0].gameId == id then [calls[0]] else []) + EndedNotices(calls[1..], id)
  }

  lemma {:induction false} EndedNoticesAppend(a: seq<CollaboratorCall>, b: seq<CollaboratorCall>, id: Uuid)
    ensures EndedNotices(a + b, id) == EndedNotices(a, id) + EndedNotices(b, id)
  {
    if a != [] {
      assert (a + b)[1..] == a[1..] + b;
      EndedNoticesAppend(a[1..], b, id);
    } else {
      assert a + b == b;
    }
  }

  /** The notices a successful guess on game `id` adds: `notice`, if any,
      and for no other game. */
  lemma NoticesAfterGuess(before: seq<CollaboratorCall>, secret: Code, guess: Code,
                          notice: seq<CollaboratorCall>, id: Uuid, k: Uuid)
    requires notice == [] || (|notice| == 1 && notice[0].GameEnded? && notice[0].gameId == id)
    ensures EndedNotices(before + ([CheckCode(secret, guess)] + notice), k)
         == EndedNotices(before, k) + (if k == id then notice else [])
  {
    var check := [CheckCode(secret, guess)];
    EndedNoticesAppend(before, check + notice, k);
    EndedNoticesAppend(check, notice, k);
    assert EndedNotices(check, k) == [] by {
      assert check[1..] == [];
    }
    if notice != [] {
      assert notice[1..] == [];
    }
  }

  /** What the tournament service may have heard about `g`: nothing, or one
      notice, with `g`'s final status and number of guesses. */
  ghost predicate NoticesAgree(notices: seq<CollaboratorCall>, g: Game)
    reads g
  {
    notices == [] || (g.status != InProgress && notices == [GameEnded(g.id, g.status, |g.turns|)])
  }

  class GameService {
    const repository: InMemoryGameRepository
    const checker: Checker
    /** Every collaborator call made so far, in order. */
    ghost var calls: seq<CollaboratorCall>

    /** Games are stored under their ids and are well formed; the tournament
        service has heard at most once about any game, only about a stored
        one, and only once that game was finished. */
    ghost predicate Valid()
      reads this, repository, repository.games.Values
    {
      repository.Keyed() && forall k :: EntryValid(k)
    }

    /** The part of `Valid` about the id `k`. */
    ghost predicate EntryValid(k: Uuid)
      reads this, repository, repository.games.Values
    {
      if k in repository.games then
        repository.games[k].Valid() && NoticesAgree(EndedNotices(calls, k), repository.games[k])
      else
        EndedNotices(calls, k) == []
    }

    constructor (repository: InMemoryGameRepository, checker: Checker)
      requires repository.Keyed()
      requires forall k :: k in repository.games ==> repository.games[k].Valid()
      ensures this.repository == repository && this.checker == checker && calls == []
      ensures Valid()
    {
      this.repository := repository;
      this.checker := checker;
      calls := [];
    }

    /** `startNewGame`: asks the generator once (its answer is `generated`),
        stores an in-progress game with that secret under the fresh id, and
        touches neither the checker nor the tournament service. */
    method StartNewGame(newId: Uuid, generated: Code) returns (game: Game)
      requires Valid()
      requires newId !in repository.games
      modifies this, repository
      ensures Valid() && fresh(game)
      ensures game.id == newId && game.code == generated
      ensures game.status == InProgress && game.turns == [] && !game.IsFinished()
      ensures repository.games == old(repository.games)[newId := game]
      ensures FindById(newId) == Some(game)
      ensures calls == old(calls) + [GenerateCode(generated)]
    {
      calls := calls + [GenerateCode(generated)];
      game := new Game(newId, generated);
      var _ := repository.Persist(game);
      forall k
        ensures EntryValid(k)
      {
        assert old(EntryValid(k));
        EndedNoticesAppend(old(calls), [GenerateCode(generated)], k);
        assert [GenerateCode(generated)][1..] == [];
        if k != newId && k in repository.games {
          assert repository.games[k] == old(repository.games[k]);
        }
      }
    }

    /** `guessCode`. An unknown id fails with "Game does not exist" and calls
        nobody. Otherwise the game's `guess` decides: on a finished game it
        fails before any collaborator is called; else the checker is called
        once, its result returned, and the tournament service is told
        (id, status, number of guesses) exactly when this guess finished the
        game. No other game changes. */
    method GuessCode(gameId: Uuid, guess: Code) returns (r: Outcome<Result>)
      requires Valid()
      modifies this, if gameId in repository.games then {repository.games[gameId]} else {}
      ensures Valid()
      ensures repository.games == old(repository.games)
      ensures forall k :: k in repository.games && k != gameId ==>
        repository.games[k].State() == old(repository.games[k].State())
      ensures gameId !in repository.games ==> r == Failure(GameDoesNotExist) && calls == old(calls)
      ensures gameId in repository.games ==>
        var g := repository.games[gameId];
        && (r, g.State()) == GuessStep(old(g.State()), g.code, guess, checker)
        && calls == old(calls) + (if r.Failure? then []
                                  else [CheckCode(g.code, guess)]
                                       + (if g.IsFinished() then [GameEnded(gameId, g.status, |g.turns|)] else []))
      ensures gameId in repository.games ==>
        var g := repository.games[gameId];
        (r.Success? && g.IsFinished()) <==> (old(g.status) == InProgress && g.status != InProgress)
    {
      var found := repository.FindById(gameId);
      if found.None? {
        return Failure(GameDoesNotExist);
      }
      r := GuessStoredGame(found.value, guess);
    }

    /** The part of `guessCode` after the game was found. */
    method GuessStoredGame(game: Game, guess: Code) returns (r: Outcome<Result>)
      requires Valid()
      requires game.id in repository.games && repository.games[game.id] == game
      modifies this, game
      ensures Valid()
      ensures repository.games == old(repository.games)
      ensures (r, game.State()) == GuessStep(old(game.State()), game.code, guess, checker)
      ensures calls == old(calls) + (if r.Failure? then []
                                     else [CheckCode(game.code, guess)]
                                          + (if game.IsFinished() then [GameEnded(game.id, game.status, |game.turns|)] else []))
      ensures (r.Success? && game.IsFinished()) <==> (old(game.status) == InProgress && game.status != InProgress)
    {
      ghost var before := calls;
      assert EntryValid(game.id);
      r := game.Guess(guess, checker);
      if r.Failure? {
        forall k
          ensures EntryValid(k)
        {
          assert old(EntryValid(k));
        }
        return;
      }
      ghost var notice := if game.IsFinished() then [GameEnded(game.id, game.status, |game.turns|)] else [];
      calls := calls + [CheckCode(game.code, guess)];
      if game.IsFinished() {
        calls := calls + [GameEnded(game.id, game.status, |game.turns|)];
      }
      assert calls == before + ([CheckCode(game.code, guess)] + notice);
      forall k
        ensures EntryValid(k)
      {
        assert old(EntryValid(k));
        NoticesAfterGuess(before, game.code, guess, notice, game.id, k);
        if k != game.id && k in repository.games {
          assert repository.games[k].id == k;
        }
      }
    }

    /** `getSolution`: "Game does not exist" for an unknown id, "still in
        progress" while the game is being played, the secret once it is won
        or lost. */
    function GetSolution(gameId: Uuid): (r: Outcome<Code>)
      reads repository, repository.games.Values
      ensures gameId !in repository.games ==> r == Failure(GameDoesNotExist)
      ensures r == Failure(GameStillInProgress) <==>
        gameId in repository.games && repository.games[gameId].status == InProgress
      ensures r.Success? <==> gameId in repository.games && repository.games[gameId].status != InProgress
      ensures r.Success? ==> r.value == repository.games[gameId].code
    {
      match repository.FindById(gameId)
      case None => Failure(GameDoesNotExist)
      case Some(game) => game.GetCode()
    }

    /** `findById`, passed through to the repository. */
    function FindById(gameId: Uuid): (r: Option<Game>)
      reads repository
      ensures r.Some? <==> gameId in repository.games
      ensures r.Some? ==> r.value == repository.games[gameId]
    {
      repository.FindById(gameId)
    }

    /** `findAll`, passed through to the repository. */
    method FindAll() returns (all: seq<Game>)
      requires Valid()
      ensures |all| == |repository.games|
      ensures forall g :: g in all <==> g in repository.games.Values
      ensures forall i, j :: 0 <= i < j < |all| ==> all[i] != all[j]
    {
      all := repository.FindAll();
    }
  }
}
