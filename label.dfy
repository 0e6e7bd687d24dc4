/** label_to_type: the sentence shown to the user for the model's score. */
module Label {

  const Greeting: string := "contains a Greeting"
  const NoGreeting: string := "does not contain a Greeting"

  /** A score of at least 0.5 reads as a greeting, any lower score as none. */
  function LabelToType(score: real): (r: string)
    ensures r == Greeting || r == NoGreeting
    ensures r == Greeting <==> score >= 0.5
    ensures r == NoGreeting <==> score < 0.5
  {
    if score >= 0.5 then Greeting else NoGreeting
  }
}
