/** The `Game` state machine: a secret code, the turns played so far and a
    status, changed only by `guess`. */
module Games {
  import opened Codes
  import opened Results
  import opened Turns
  import opened Errors

  /** A game ends after this many turns without a win. */
  const MAX_TURNS := 10

  datatype GameStatus = InProgress | Won | Lost

  /** A game id: a 128-bit UUID, supplied by the caller (it is random in the
      running system). */
  newtype Uuid = x: int | 0 <= x < 0x1_0000_0000_0000_0000_0000_0000_0000_0000

  /** The remote code checker, scoring `(secret, guess)`. How it scores is not
      part of this model. */
  type Checker = (Code, Code) -> Result

  /** Whether some turn is a winning one (a stream `anyMatch`). */
  function AnyWinning(turns: seq<Turn>): (b: bool)
    ensures b <==> exists i :: 0 <= i < |turns| && turns[i].IsWinning()
  {
    if turns == [] then false
    else turns[0].IsWinning() || AnyWinning(turns[1..])
  }

  /** `isFinished`, computed from the turns alone: the turn limit is reached
      or some turn won. */
  predicate Finished(turns: seq<Turn>)
  {
    |turns| >= MAX_TURNS || AnyWinning(turns)
  }

  /** The part of a game that `guess` changes. */
  datatype Play = Play(turns: seq<Turn>, status: GameStatus)

  /** A new game: no turns, in progress. */
  const NEW_PLAY := Play([], InProgress)

  /** The game invariant: at most `MAX_TURNS` turns; only the last turn can
      be a winning one; the status is `Won` exactly when some turn won,
      `Lost` exactly when the limit was reached without a win, and
      `InProgress` otherwise. */
  ghost predicate WellFormed(p: Play)
  {
    && |p.turns| <= MAX_TURNS
    && (forall i :: 0 <= i < |p.turns| - 1 ==> !p.turns[i].IsWinning())
    && p.status == (if AnyWinning(p.turns) then Won
                    else if |p.turns| == MAX_TURNS then Lost
                    else InProgress)
  }

  /** One `guess` on `p` with the secret `secret`: the outcome and the new
      state. */
  function GuessStep(p: Play, secret: Code, guess: Code, checker: Checker): (Outcome<Result>, Play)
  {
    if Finished(p.turns) then (Failure(GameAlreadyFinished), p)
    else
      var result := checker(secret, guess);
      var status := if result.blackPins as int == NumberOfPins(secret) then Won else p.status;
      var turns := p.turns + [Turn(guess, result)];
      var status' := if |turns| >= MAX_TURNS && status != Won then Lost else status;
      (Success(result), Play(turns, status'))
  }

  /** A new game is well formed, in progress and not finished. */
  lemma NewPlayIsFresh()
    ensures WellFormed(NEW_PLAY) && NEW_PLAY.status == InProgress && !Finished(NEW_PLAY.turns)
  {
  }

  /** `isFinished`, computed from the turns, always agrees with the status:
      finished exactly when the status is `Won` or `Lost`. */
  lemma FinishedIffNotInProgress(p: Play)
    requires WellFormed(p)
    ensures Finished(p.turns) <==> p.status != InProgress
  {
  }

  lemma AnyWinningAppend(turns: seq<Turn>, t: Turn)
    ensures AnyWinning(turns + [t]) <==> AnyWinning(turns) || t.IsWinning()
  {
    var ts := turns + [t];
    assert ts[|turns|] == t;
    if AnyWinning(turns) {
      var i :| 0 <= i < |turns| && turns[i].IsWinning();
      assert ts[i] == turns[i];
    }
    if AnyWinning(ts) && !t.IsWinning() {
      var i :| 0 <= i < |ts| && ts[i].IsWinning();
      assert turns[i] == ts[i];
    }
  }

  /** What one guess does to a well-formed game. On a finished game it fails
      with "already finished" and changes nothing. Otherwise it returns
      exactly the checker's result for (secret, guess), appends exactly one
      turn, and the status becomes `Won` on four black pins, else `Lost` on
      the tenth turn, else stays `InProgress` (so a win on the tenth turn is a
      win). The game stays well formed either way. */
  lemma GuessOutcome(p: Play, secret: Code, guess: Code, checker: Checker)
    requires WellFormed(p)
    ensures var (r, q) := GuessStep(p, secret, guess, checker);
      && WellFormed(q)
      && (p.status != InProgress ==> r == Failure(GameAlreadyFinished) && q == p)
      && (p.status == InProgress ==>
            && r == Success(checker(secret, guess))
            && q.turns == p.turns + [Turn(guess, checker(secret, guess))]
            && q.status == (if checker(secret, guess).blackPins == 4 then Won
                            else if |p.turns| + 1 == MAX_TURNS then Lost
                            else InProgress))
  {
    FinishedIffNotInProgress(p);
    if p.status == InProgress {
      AnyWinningAppend(p.turns, Turn(guess, checker(secret, guess)));
    }
  }

  /** A right first guess wins a new game with a single turn. */
  lemma FirstGuessWins(secret: Code, guess: Code, checker: Checker)
    requires checker(secret, guess).blackPins == 4
    ensures GuessStep(NEW_PLAY, secret, guess, checker)
         == (Success(checker(secret, guess)), Play([Turn(guess, checker(secret, guess))], Won))
  {
    assert NEW_PLAY.turns + [Turn(guess, checker(secret, guess))] == [Turn(guess, checker(secret, guess))];
  }

  /** A sequence of guesses, each applied to the state the previous one left. */
  function Replay(p: Play, secret: Code, guesses: seq<Code>, checker: Checker): Play
    decreases |guesses|
  {
    if guesses == [] then p
    else Replay(GuessStep(p, secret, guesses[0], checker).1, secret, guesses[1..], checker)
  }

  /** However many guesses are made, the game stays well formed (so never has
      more than ten turns) and its history only grows at the end. */
  lemma {:induction false} ReplayKeepsWellFormed(p: Play, secret: Code, guesses: seq<Code>, checker: Checker)
    requires WellFormed(p)
    ensures var q := Replay(p, secret, guesses, checker);
      WellFormed(q) && |q.turns| <= MAX_TURNS && p.turns <= q.turns
    decreases |guesses|
  {
    if guesses != [] {
      GuessOutcome(p, secret, guesses[0], checker);
      ReplayKeepsWellFormed(GuessStep(p, secret, guesses[0], checker).1, secret, guesses[1..], checker);
    }
  }

  /** `Won` and `Lost` are never left: further guesses change nothing. */
  lemma {:induction false} FinishedGameIgnoresGuesses(p: Play, secret: Code, guesses: seq<Code>, checker: Checker)
    requires WellFormed(p) && p.status != InProgress
    ensures Replay(p, secret, guesses, checker) == p
    decreases |guesses|
  {
    if guesses != [] {
      GuessOutcome(p, secret, guesses[0], checker);
      FinishedGameIgnoresGuesses(p, secret, guesses[1..], checker);
    }
  }

  /** Guesses that all miss keep the game in progress until the tenth turn,
      which loses it. */
  lemma {:induction false} MissesUntilLost(p: Play, secret: Code, guesses: seq<Code>, checker: Checker)
    requires WellFormed(p) && p.status == InProgress
    requires |p.turns| + |guesses| <= MAX_TURNS
    requires forall i :: 0 <= i < |guesses| ==> checker(secret, guesses[i]).blackPins != 4
    ensures var q := Replay(p, secret, guesses, checker);
      && |q.turns| == |p.turns| + |guesses|
      && q.status == (if |q.turns| == MAX_TURNS then Lost else InProgress)
    decreases |guesses|
  {
    if guesses != [] {
      GuessOutcome(p, secret, guesses[0], checker);
      var p' := GuessStep(p, secret, guesses[0], checker).1;
      if p'.status == InProgress {
        forall i | 0 <= i < |guesses[1..]|
          ensures checker(secret, guesses[1..][i]).blackPins != 4
        {
          assert guesses[1..][i] == guesses[i + 1];
        }
        MissesUntilLost(p', secret, guesses[1..], checker);
      } else {
        assert |guesses| == 1;
      }
    }
  }

  /** Ten missed guesses on a new game lose it with ten turns, and an eleventh
      guess fails with "already finished". */
  lemma TenMissesLose(secret: Code, guesses: seq<Code>, checker: Checker, eleventh: Code)
    requires |guesses| == MAX_TURNS
    requires forall i :: 0 <= i < |guesses| ==> checker(secret, guesses[i]).blackPins != 4
    ensures var q := Replay(NEW_PLAY, secret, guesses, checker);
      && q.status == Lost && |q.turns| == MAX_TURNS
      && GuessStep(q, secret, eleventh, checker).0 == Failure(GameAlreadyFinished)
  {
    MissesUntilLost(NEW_PLAY, secret, guesses, checker);
    ReplayKeepsWellFormed(NEW_PLAY, secret, guesses, checker);
    GuessOutcome(Replay(NEW_PLAY, secret, guesses, checker), secret, eleventh, checker);
  }

  /** A game object. `id` and `code` never change; `turns` and `status` are
      changed only by `Guess`. */
  class Game {
    const id: Uuid
    const code: Code
    var turns: seq<Turn>
    var status: GameStatus

    function State(): Play
      reads this
    {
      Play(turns, status)
    }

    ghost predicate Valid()
      reads this
    {
      WellFormed(State())
    }

    /** A new game: in progress, no turns, not finished. */
    constructor (id: Uuid, code: Code)
      ensures this.id == id && this.code == code
      ensures turns == [] && status == InProgress
      ensures Valid() && !IsFinished()
    {
      this.id := id;
      this.code := code;
      turns := [];
      status := InProgress;
    }

    /** `getCode`: refuses while the game is in progress, and gives the secret
        unchanged once it is won or lost. */
    function GetCode(): (r: Outcome<Code>)
      reads this
      ensures r.Failure? <==> status == InProgress
      ensures r.Failure? ==> r.error == GameStillInProgress
      ensures r.Success? ==> r.value == code
    {
      if status == InProgress then Failure(GameStillInProgress) else Success(code)
    }

    /** `isFinished`: computed from the turns, yet on a valid game it says
        exactly whether the status is `Won` or `Lost`. */
    function IsFinished(): (f: bool)
      reads this
      ensures Valid() ==> (f <==> status != InProgress)
    {
      Finished(turns)
    }

    /** `guess`, with the checker passed in. */
    method Guess(guess: Code, checker: Checker) returns (r: Outcome<Result>)
      requires Valid()
      modifies this
      ensures Valid()
      ensures (r, State()) == GuessStep(old(State()), code, guess, checker)
      ensures old(status) != InProgress ==>
        r == Failure(GameAlreadyFinished) && turns == old(turns) && status == old(status)
      ensures old(status) == InProgress ==>
        && r == Success(checker(code, guess))
        && turns == old(turns) + [Turn(guess, checker(code, guess))]
        && status == (if checker(code, guess).blackPins == 4 then Won
                      else if |turns| == MAX_TURNS then Lost
                      else InProgress)
    {
      GuessOutcome(State(), code, guess, checker);
      if IsFinished() {
        return Failure(GameAlreadyFinished);
      }
      var result := checker(code, guess);
      if result.blackPins as int == NumberOfPins(code) {
        status := Won;
      }
      turns := turns + [Turn(guess, result)];
      if |turns| >= MAX_TURNS && status != Won {
        status := Lost;
      }
      r := Success(result);
    }
  }
}
