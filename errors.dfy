/** The exceptions of the game domain, as values. */
module Errors {

  /** `GameDoesNotExist` is the `RuntimeException` of the service's lookups;
      the other two are the `IllegalGameSateException`s of `Game`. */
  datatype GameError = GameDoesNotExist | GameStillInProgress | GameAlreadyFinished {

    /** The exception message. */
    function Message(): string
    {
      match this
      case GameDoesNotExist => "Game does not exist"
      case GameStillInProgress => "I'm not telling the code! The game is still in progress!"
      case GameAlreadyFinished => "No more guessing, the game is already finished!"
    }
  }

  /** A value, or the exception that was thrown instead. */
  datatype Outcome<+T> = Success(value: T) | Failure(error: GameError)
}
