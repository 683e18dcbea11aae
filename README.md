# Mastermind game service: a verified model of the game core

This project models the domain core of the game service from
`mocking-with-mock-server`, a Mastermind variant. In the game, a secret code of
four coloured pins is generated, and the player guesses. Each guess is scored
by a remote checker as black pins (right colour, right place) and white pins
(right colour, wrong place). Four black pins win. Ten turns without a win lose.
The service keeps the games in an in-memory repository. It also tells a remote
tournament service when a game ends.

Modules, following the Java packages:

- `JavaLang` (`java_lang.dfy`): Java `int` as `int32`, two's-complement wrap-around
  (`Wrap32`), and `Optional` as `Option`.
- `Codes` (`code.dfy`): `Code`, a sequence of exactly four `ColoredPin`s. It
  covers the constructor, `numberOfPins`, `getPin`, `equals(Object)`, `hashCode`
  (the `List.hashCode` fold, overflow included) and `toString`. `toString` is
  specified by a parser that reads its output back.
- `Results`, `Turns` (`result.dfy`, `turn.dfy`): the `Result` and `Turn` value
  types, and the winning-turn rule.
- `Errors` (`errors.dfy`): the exceptions the core throws, as values carrying
  the source's messages.
- `Games` (`game.dfy`): the `Game` state machine.
  - A pure layer:
    - `Play` holds the turns and the status;
    - `GuessStep` is one `guess`;
    - `Replay` is a sequence of guesses;
    - `WellFormed` is the game invariant.
  - `class Game`: the mutable object, whose `Guess` method is proved equal to
    `GuessStep`.
- `Persist` (`repository.dfy`): `InMemoryGameRepository`, a class holding a
  map from id to game.
- `Services` (`game_service.dfy`): `GameService`, which orchestrates the
  repository, the checker, the generator and the tournament service.

Collaborators:

- **Code checker.** A function parameter `(Code, Code) -> Result`. How it scores
  a guess is outside the core.
- **Code generator.** Its answer is an argument of `StartNewGame`.
- **Random ids.** Each new game's `UUID` is an argument of `StartNewGame`.
- **Collaborator calls.** Every call the service makes to the generator, the
  checker or the tournament service is appended to a ghost log, `calls`. The
  service's contracts state that log exactly.

The service invariant, `GameService.Valid`, states three things:

- every stored game is well formed and stored under its own id;
- the tournament service has heard nothing about an id that is not stored;
- for a stored game, it has heard either nothing or exactly one notice. That
  notice carries the game's final status and its number of turns.

Choices where the source is unusual or its files disagree:

- **Finished check.** `isFinished` is computed from the turns: ten turns, or
  some winning turn. It is not read from the status. `FinishedIffNotInProgress`
  and `Game.IsFinished` prove the two agree on every well-formed game.
- **Result range.** `Result` accepts any pair of `int`s; nothing keeps the
  counts non-negative.
- **Error messages.** The errors carry the source's exception messages.
- **Win test.** A win is tested as `blackPins == numberOfPins()`, and every code
  has four pins.
- **Constructor and `guess` signatures.** `Game.java` declares the constructor
  as `Game(CodeChecker, Code)` and `guess(Code)`. `GameService.java` and
  `GameTest.java` call `new Game(code)` and `guess(code, checker)`. The model
  follows the callers: the checker is an argument of `Guess`, and the
  constructor takes the id and the secret.
- **Number of guesses.** `getNumberOfGuesses`, used by `GameService.java:35`,
  is not defined in `Game.java`. It is modelled as the number of turns.

## Model

| member | source | states |
|---|---|---|
| Codes.NewCode | game-service/src/main/java/nl/jaapcoomans/demo/mockserver/gameservice/domain/Code.java:13-16 | the new code has four pins; `getPin(i)` is the i-th constructor argument for i in 0..3; every other index is out of range |
| Codes.NumberOfPins | game-service/src/main/java/nl/jaapcoomans/demo/mockserver/gameservice/domain/Code.java:18-20 | every code has exactly four pins |
| Codes.GetPin | game-service/src/main/java/nl/jaapcoomans/demo/mockserver/gameservice/domain/Code.java:22-24 | a pin is returned exactly for indices 0..3, and it is the pin at that position; any other index is the list's out-of-bounds failure |
| Codes.Equals | game-service/src/main/java/nl/jaapcoomans/demo/mockserver/gameservice/domain/Code.java:26-36 | `equals` is true exactly when the argument is a `Code` (of exactly that class) whose pins agree position by position; it is false for null and for any other class |
| Codes.EqualsIsEquivalence | game-service/src/main/java/nl/jaapcoomans/demo/mockserver/gameservice/domain/Code.java:26-36 | `equals` on codes is reflexive, symmetric and transitive |
| Codes.EqualCodesHashEqually | game-service/src/main/java/nl/jaapcoomans/demo/mockserver/gameservice/domain/Code.java:26-41 | the `equals`/`hashCode` contract: equal codes have equal hash codes |
| Codes.HashCode | game-service/src/main/java/nl/jaapcoomans/demo/mockserver/gameservice/domain/Code.java:38-41 | `hashCode`, the hash of the pin list: 31^4 + 31^3·h0 + 31^2·h1 + 31·h2 + h3 reduced to 32 bits, where hi is the hash of pin i |
| Codes.HashCodePolynomial | game-service/src/main/java/nl/jaapcoomans/demo/mockserver/gameservice/domain/Code.java:38-41 | the `List.hashCode` fold, starting from 1 with 32-bit overflow at every step, equals 31^4 + 31^3·h0 + 31^2·h1 + 31·h2 + h3 reduced to 32 bits once, where hi is the hash of pin i |
| Codes.ToString | game-service/src/main/java/nl/jaapcoomans/demo/mockserver/gameservice/domain/Code.java:43-52 | `toString`: "[Code: ", the pin names joined by ", ", then "]"; that text parses back (`ParseCode`) to the same code |
| Codes.ParsePrinted | game-service/src/main/java/nl/jaapcoomans/demo/mockserver/gameservice/domain/Code.java:43-52 | the text "[Code: ", the pin names joined by ", ", "]" parses back to the same code |
| Codes.ToStringInjective | game-service/src/main/java/nl/jaapcoomans/demo/mockserver/gameservice/domain/Code.java:43-52 | distinct codes print differently: `toString` loses no information |
| Codes.ReadJoinedPins | game-service/src/main/java/nl/jaapcoomans/demo/mockserver/gameservice/domain/Code.java:45-49 | the pin names joined by the separator, followed by any text, read back as exactly those pins followed by that text |
| Turns.Turn.IsWinning | game-service/src/main/java/nl/jaapcoomans/demo/mockserver/gameservice/domain/Turn.java:12-14 | a turn wins exactly when its result has four black pins |
| Turns.WhitePinsIrrelevant | game-service/src/main/java/nl/jaapcoomans/demo/mockserver/gameservice/domain/Turn.java:12-14 | the white-pin count has no effect on whether a turn wins |
| Games.AnyWinning | game-service/src/main/java/nl/jaapcoomans/demo/mockserver/gameservice/domain/Game.java:32 | the stream `anyMatch(Turn::isWinningTurn)`: true exactly when some turn in the history wins |
| Games.NewPlayIsFresh | game-service/src/main/java/nl/jaapcoomans/demo/mockserver/gameservice/domain/Game.java:13-17 | a new game (no turns, in progress) is well formed and not finished |
| Games.FinishedIffNotInProgress | game-service/src/main/java/nl/jaapcoomans/demo/mockserver/gameservice/domain/Game.java:31-33 | on a well-formed game, the turn-based `isFinished` is true exactly when the status is won or lost |
| Games.AnyWinningAppend | game-service/src/main/java/nl/jaapcoomans/demo/mockserver/gameservice/domain/Game.java:32 | appending a turn makes the history contain a win exactly when it did before or the new turn wins |
| Games.GuessOutcome | game-service/src/main/java/nl/jaapcoomans/demo/mockserver/gameservice/domain/Game.java:43-59 | about `GuessStep`, the model of `guess` on a game's turns and status: on a finished game, `guess` fails with "already finished" and changes nothing. Otherwise it returns the checker's result and appends exactly one turn. The status becomes won on four black pins (checked before the turn limit, so a tenth-turn win is a win), else lost on the tenth turn, else stays in progress. The game stays well formed |
| Games.FirstGuessWins | game-service/src/main/java/nl/jaapcoomans/demo/mockserver/gameservice/domain/Game.java:43-59 | a first guess scored with four black pins wins a new game with one turn and returns that result |
| Games.ReplayKeepsWellFormed | game-service/src/main/java/nl/jaapcoomans/demo/mockserver/gameservice/domain/Game.java:43-59 | after any sequence of guesses the game is still well formed, has at most ten turns, and its earlier history is a prefix of the new one |
| Games.FinishedGameIgnoresGuesses | game-service/src/main/java/nl/jaapcoomans/demo/mockserver/gameservice/domain/Game.java:44-46 | won and lost are terminal: any further guesses leave the game exactly as it is |
| Games.MissesUntilLost | game-service/src/main/java/nl/jaapcoomans/demo/mockserver/gameservice/domain/Game.java:53-56 | guesses that all miss add one turn each, and keep the game in progress until the tenth turn, which makes it lost |
| Games.TenMissesLose | game-service/src/main/java/nl/jaapcoomans/demo/mockserver/gameservice/domain/Game.java:44-56 | ten missed guesses on a new game lose it with exactly ten turns, and an eleventh guess fails with "already finished" |
| Games.Game.constructor | game-service/src/main/java/nl/jaapcoomans/demo/mockserver/gameservice/domain/Game.java:12-22 | a new game has the given id and secret, no turns, status in progress; it is well formed and not finished |
| Games.Game.GetCode | game-service/src/main/java/nl/jaapcoomans/demo/mockserver/gameservice/domain/Game.java:24-29 | `getCode` fails with "still in progress" exactly while the game is in progress; otherwise it returns the secret unchanged |
| Games.Game.IsFinished | game-service/src/main/java/nl/jaapcoomans/demo/mockserver/gameservice/domain/Game.java:31-33 | on a valid game, `isFinished` is true exactly when the status is won or lost |
| Games.Game.Guess | game-service/src/main/java/nl/jaapcoomans/demo/mockserver/gameservice/domain/Game.java:43-59 | the new turns and status, and the result, are those of `GuessStep` (the model of `guess` on values) on the old state (the decision table of `GuessOutcome`); the game invariant is kept |
| Persist.InMemoryGameRepository.constructor | game-service/src/main/java/nl/jaapcoomans/demo/mockserver/gameservice/persist/InMemoryGameRepository.java:12 | a new repository is empty |
| Persist.InMemoryGameRepository.FindById | game-service/src/main/java/nl/jaapcoomans/demo/mockserver/gameservice/persist/InMemoryGameRepository.java:14-17 | a game is found exactly when one is stored under the id, and it is that game |
| Persist.InMemoryGameRepository.Persist | game-service/src/main/java/nl/jaapcoomans/demo/mockserver/gameservice/persist/InMemoryGameRepository.java:19-23 | the game is stored under its own id, replacing any earlier one; lookups of every other id are unchanged; the same game is returned; games stay stored under their own ids |
| Persist.InMemoryGameRepository.FindAll | game-service/src/main/java/nl/jaapcoomans/demo/mockserver/gameservice/domain/GameRepository.java:12 | the list holds every stored game and nothing else, one entry per id, and no game twice when games are stored under their own ids |
| Services.GameService.constructor | game-service/src/main/java/nl/jaapcoomans/demo/mockserver/gameservice/domain/GameService.java:14-19 | the service keeps the given repository and checker, has called no collaborator yet, and its invariant holds |
| Services.GameService.StartNewGame | game-service/src/main/java/nl/jaapcoomans/demo/mockserver/gameservice/domain/GameService.java:21-27 | exactly one generator call; no checker or tournament call; a new game in progress with the generated secret and no turns is stored under its id and returned; the service invariant is kept |
| Services.GameService.GuessCode | game-service/src/main/java/nl/jaapcoomans/demo/mockserver/gameservice/domain/GameService.java:29-39 | an unknown id fails with "Game does not exist" and calls no collaborator. Otherwise the game changes exactly as one `guess`, and no other game changes. A failed guess calls nobody. A successful one calls the checker once, then the tournament service once with (id, status, turns), exactly when this guess ended the game. The invariant (at most one end notice per game) is kept |
| Services.GameService.GuessStoredGame | game-service/src/main/java/nl/jaapcoomans/demo/mockserver/gameservice/domain/GameService.java:33-38 | the steps of `guessCode` after the lookup: the guess, then the tournament call exactly when the game is finished after a successful guess |
| Services.GameService.GetSolution | game-service/src/main/java/nl/jaapcoomans/demo/mockserver/gameservice/domain/GameService.java:41-46 | an unknown id fails with "Game does not exist"; a game in progress fails with "still in progress"; a won or lost game yields its secret |
| Services.GameService.FindById | game-service/src/main/java/nl/jaapcoomans/demo/mockserver/gameservice/domain/GameService.java:52-54 | the repository's answer: the game stored under the id, or none |
| Services.GameService.FindAll | game-service/src/main/java/nl/jaapcoomans/demo/mockserver/gameservice/domain/GameService.java:48-50 | every stored game, once each, and nothing else |
| Services.NoticesAfterGuess | game-service/src/main/java/nl/jaapcoomans/demo/mockserver/gameservice/domain/GameService.java:33-36 | a checker call followed by at most one end notice for the guessed game adds no notice about any other game |

## Left out

- HTTP API, DTOs, remote collaborator clients and application wiring: these are boundary code, not part of the core.
- How the checker scores a guess: the remote checker is a function parameter, and its scoring rules are not part of this model.
- Codes.ColoredPin: the colour enumeration's source is not part of this model. The four colours the service is seen to use (red, green, blue, yellow) are modelled.
- Codes.NewCode: null pins are not modelled. `List.of` throws a `NullPointerException` for a null pin, for example when a guess body lacks a `pinN` field; that error path is lost.
- Codes.ToString: a pin prints as its constant name (`RED`, `GREEN`, ...). The enum might override `toString`, but its source is not part of this model.
- Codes.HashCode: an enum constant's hash is its JVM identity hash, which only the running JVM knows. It is a parameter `pinHash`.
- Codes.Equals: a subclass of `Code` is modelled as "another class", because the source compares classes exactly.
- Services.GameService.StartNewGame: the random `UUID.randomUUID()` id is an argument, and the model requires it not to be in use already. The running system relies on random ids not colliding.
- Services.GameService.StartNewGame: the code generator's answer is an argument; the generator call is recorded in the ghost log.
- Services.GameService.GuessCode: "notified exactly once per finished game" is stated per call. The invariant allows no notice at all for a game that was already finished when the service was built over an existing repository, because no guess through this service ended it.
- Persist.InMemoryGameRepository.FindAll: `findAll` is declared by `GameRepository` but not implemented by `InMemoryGameRepository` in the source. It is modelled from the interface: the stored games in an unspecified order.
- Exceptions: they are modelled as `Failure` values of `Outcome`, with the message each would carry. Stack unwinding and exception classes are not modelled.
- Collaborator transport errors: the generator, the checker and the tournament service never fail in this model.
- Concurrency: the source has no locking around the `HashMap` or the games, and the model is single-threaded: one request at a time.
- The getters `getId`, `getStatus`, `getBlackPins` and `getWhitePins` are field reads. JSON annotations on the `Code` constructor are not modelled.
