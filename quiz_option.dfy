/**
 One answer button of the quiz: which visual variant it takes and whether it
 can be clicked, decided from three booleans.
 */
module QuizOption {

  datatype Variant = Outline | Success | Destructive

  /**
   `getVariant`: before the reveal every option is plain; after it the correct
   option is marked a success whether or not it was chosen, a chosen wrong
   option is marked destructive, and any other option stays plain.
   */
  function GetVariant(isRevealed: bool, isCorrect: bool, isSelected: bool): (v: Variant)
    ensures v == Success <==> isRevealed && isCorrect
    ensures v == Destructive <==> isRevealed && isSelected && !isCorrect
    ensures v == Outline <==> !isRevealed || (!isCorrect && !isSelected)
  {
    if !isRevealed then Outline
    else if isCorrect then Success
    else if isSelected && !isCorrect then Destructive
    else Outline
  }

  /** What the button shows and whether it accepts clicks. */
  datatype OptionButton = OptionButton(text: string, variant: Variant, disabled: bool)

  /** The rendered button: labelled with its option, disabled exactly when revealed. */
  function Render(option: string, isCorrect: bool, isSelected: bool, isRevealed: bool): (b: OptionButton)
    ensures b.text == option
    ensures b.disabled <==> isRevealed
    ensures b.variant == GetVariant(isRevealed, isCorrect, isSelected)
    ensures !b.disabled ==> b.variant == Outline
  {
    OptionButton(option, GetVariant(isRevealed, isCorrect, isSelected), isRevealed)
  }
}
