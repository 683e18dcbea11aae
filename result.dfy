/** The `Result` value type: the black and white pin counts the checker
    reports for a guess. Fields are final and the constructor accepts any pair
    of `int`s without validation. */
module Results {
  import opened JavaLang

  /** `blackPins`: pins right in colour and position; `whitePins`: right
      colour, wrong position. */
  datatype Result = Result(blackPins: int32, whitePins: int32)
}
