/** Stage 3: the optional operator approval (`_node_prompt_user`, core.py). */
module HumanGate {
  import opened PyStr

  /** What the console read produces: a typed line, a keyboard interrupt, or the
      end of input (`input()` raising `EOFError`). */
  datatype Answer = Typed(text: string) | Interrupted | EndOfInput

  /** The stage's result: a decision, or an exception that escapes the stage
      (only `KeyboardInterrupt` is caught there, so `EOFError` propagates). */
  datatype Decision = Decided(proceed: bool) | Escaped

  /** The answers `answer.lower() in ['y', 'yes']` admits. */
  predicate IsAffirmative(text: string)
  {
    Lower(text) in {"y", "yes"}
  }

  function PromptUser(autoConfirm: bool, answer: Answer): (r: Decision)
    ensures autoConfirm ==> r == Decided(true)
    ensures r.Escaped? <==> !autoConfirm && answer.EndOfInput?
    ensures r == Decided(true) <==> autoConfirm || (answer.Typed? && IsAffirmative(answer.text))
    ensures !autoConfirm && answer.Interrupted? ==> r == Decided(false)
  {
    if autoConfirm then Decided(true)
    else match answer
      case Typed(text) => Decided(IsAffirmative(text))
      case Interrupted => Decided(false)
      case EndOfInput => Escaped
  }

  /** The affirmative answers are exactly `y` and `yes` in any mix of case; nothing
      else, not even with surrounding spaces, is accepted. */
  lemma AffirmativeAnswers(text: string)
    ensures IsAffirmative(text) <==>
      text in {"y", "Y", "yes", "yeS", "yEs", "yES", "Yes", "YeS", "YEs", "YES"}
  {
    var l := Lower(text);
    if IsAffirmative(text) {
      assert |text| == 1 || |text| == 3;
      assert l[0] == 'y';
      assert text[0] == 'y' || text[0] == 'Y';
      if |text| == 3 {
        assert l[1] == 'e' && l[2] == 's';
        assert text[1] == 'e' || text[1] == 'E';
        assert text[2] == 's' || text[2] == 'S';
        assert text == [text[0], text[1], text[2]];
      } else {
        assert text == [text[0]];
      }
    }
    if text in {"y", "Y", "yes", "yeS", "yEs", "yES", "Yes", "YeS", "YEs", "YES"} {
      if |text| == 1 {
        assert l == "y";
      } else {
        assert l == "yes";
      }
    }
  }
}
