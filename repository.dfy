/** The in-memory game repository: a map from game id to game object. */
module Persist {
  import opened JavaLang
  import opened Games

  class InMemoryGameRepository {
    var games: map<Uuid, Game>

    constructor ()
      ensures games == map[]
    {
      games := map[];
    }

    /** Every game is stored under its own id, as `Persist` stores it. */
    ghost predicate Keyed()
      reads this
    {
      forall k :: k in games ==> games[k].id == k
    }

    /** `findById`: the game stored under `id`, or empty when there is none. */
    function FindById(id: Uuid): (r: Option<Game>)
      reads this
      ensures r.Some? <==> id in games
      ensures r.Some? ==> r.value == games[id]
    {
      if id in games then Some(games[id]) else None
    }

    /** `persist`: stores `game` under its id, replacing any game stored there
        before, leaves every other id alone, and returns the same game. */
    method Persist(game: Game) returns (stored: Game)
      modifies this
      ensures stored == game
      ensures games == old(games)[game.id := game]
      ensures FindById(game.id) == Some(game)
      ensures forall k :: k != game.id ==> FindById(k) == old(FindById(k))
      ensures old(Keyed()) ==> Keyed()
    {
      games := games[game.id := game];
      stored := game;
    }

    /** `findAll`: one entry per stored game, each stored game present; when
        games are keyed by their ids no game is listed twice. */
    method FindAll() returns (all: seq<Game>)
      ensures |all| == |games|
      ensures forall g :: g in all <==> g in games.Values
      ensures Keyed() ==> forall i, j :: 0 <= i < j < |all| ==> all[i] != all[j]
    {
      all := [];
      var left := games.Keys;
      ghost var done: seq<Uuid> := [];
      while left != {}
        invariant left <= games.Keys
        invariant |all| == |done| && |all| + |left| == |games|
        invariant forall i :: 0 <= i < |done| ==> done[i] in games && done[i] !in left && all[i] == games[done[i]]
        invariant forall i, j :: 0 <= i < j < |done| ==> done[i] != done[j]
        invariant forall k :: k in games && k !in left ==> k in done
        decreases left
      {
        var k :| k in left;
        all := all + [games[k]];
        done := done + [k];
        left := left - {k};
      }
      forall g | g in games.Values
        ensures g in all
      {
        var k :| k in games && games[k] == g;
        var i :| 0 <= i < |done| && done[i] == k;
        assert all[i] == g;
      }
    }
  }
}
