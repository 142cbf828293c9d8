/** The script's interactive questions are `while True` loops around
    `raw_input` that stop at the first acceptable answer. Here the terminal is
    the sequence of lines the user would type; running out of lines is where
    `raw_input` raises EOFError. */
module Prompts {
  import opened Builtins

  /** The index of the first answer the loop accepts, if any. */
  function FirstAccepted<T>(answers: seq<T>, accepted: T -> bool): (r: Option<nat>)
    ensures r.Some? ==> r.value < |answers| && accepted(answers[r.value])
    ensures r.Some? ==> forall j :: 0 <= j < r.value ==> !accepted(answers[j])
    ensures r.None? <==> forall j :: 0 <= j < |answers| ==> !accepted(answers[j])
  {
    if answers == [] then None
    else if accepted(answers[0]) then Some(0)
    else
      match FirstAccepted(answers[1..], accepted)
      case None => None
      case Some(k) => Some(k + 1)
  }

  /** The loop looks at the first answer before the rest. */
  lemma FirstAcceptedCons<T>(x: T, rest: seq<T>, accepted: T -> bool)
    ensures FirstAccepted([x] + rest, accepted)
            == if accepted(x) then Some(0)
               else match FirstAccepted(rest, accepted) case None => None case Some(k) => Some(k + 1)
  {
    assert ([x] + rest)[0] == x;
    assert ([x] + rest)[1..] == rest;
  }
}
