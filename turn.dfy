/** The `Turn` value type: one guess and the result it got. */
module Turns {
  import opened Codes
  import opened Results

  datatype Turn = Turn(guess: Code, result: Result) {

    /** A turn wins when every pin of the guess is black. Since every code has
        four pins this is "four black pins", whatever the white count. */
    predicate IsWinning()
      ensures IsWinning() <==> result.blackPins == 4
    {
      NumberOfPins(guess) == result.blackPins as int
    }
  }

  /** White pins play no part in whether a turn wins. */
  lemma WhitePinsIrrelevant(guess: Code, black: JavaLang.int32, white1: JavaLang.int32, white2: JavaLang.int32)
    ensures Turn(guess, Result(black, white1)).IsWinning() == Turn(guess, Result(black, white2)).IsWinning()
  {
  }
}
