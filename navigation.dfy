/**
 * How one answer typed at a prompt is read: "b" goes back, "q" quits, and
 * anything else is the answer itself with surrounding whitespace removed.
 */
module Navigation {
  import opened PyText

  /** What the caller of a prompt ends up with. */
  datatype Answer = Back | Quit | Value(text: string)

  const BackSentinel: string := "__BACK__"
  const QuitSentinel: string := "__QUIT__"

  /** `prompt` as the program writes it: the two navigation answers come back
      as in-band sentinel strings, any other answer as the stripped text. */
  function PromptAsWritten(raw: string): (s: string)
    ensures Lower(Strip(raw)) == "b" ==> s == BackSentinel
    ensures Lower(Strip(raw)) == "q" ==> s == QuitSentinel
    ensures Lower(Strip(raw)) != "b" && Lower(Strip(raw)) != "q" ==> s == Strip(raw)
  {
    var ans := Strip(raw);
    var low := Lower(ans);
    if low == "b" then BackSentinel
    else if low == "q" then QuitSentinel
    else ans
  }

  /** The test every caller applies to the string `prompt` returned. */
  function ReadSentinel(s: string): (a: Answer)
    ensures a == Back <==> s == BackSentinel
    ensures a == Quit <==> s == QuitSentinel
    ensures a.Value? <==> s != BackSentinel && s != QuitSentinel
    ensures a.Value? ==> a.text == s
  {
    if s == BackSentinel then Back
    else if s == QuitSentinel then Quit
    else Value(s)
  }

  /** What a caller makes of a typed answer, as the program is written. */
  function ReadAsWritten(raw: string): Answer {
    ReadSentinel(PromptAsWritten(raw))
  }

  /** The answer classification the prompt documents: back exactly when the
      stripped answer is "b" in either case, quit exactly when it is "q", and
      otherwise the stripped answer itself. */
  function Classify(raw: string): (a: Answer)
    ensures a == Back <==> Lower(Strip(raw)) == "b"
    ensures a == Quit <==> Lower(Strip(raw)) == "q"
    ensures a.Value? ==> a.text == Strip(raw)
  {
    var ans := Strip(raw);
    var low := Lower(ans);
    if low == "b" then Back
    else if low == "q" then Quit
    else Value(ans)
  }

  /** Surrounding whitespace and letter case do not change the navigation answers. */
  lemma ClassifyNavigation(raw: string)
    ensures Classify(raw) == Back <==> Classify(Lower(Strip(raw))) == Back
    ensures Classify(raw) == Quit <==> Classify(Lower(Strip(raw))) == Quit
  {
    StripLower(raw);
    StripLower(Lower(raw));
    LowerIdempotent(Strip(raw));
  }

  /** The program reads every answer as documented except an answer whose
      stripped text is one of the sentinel strings themselves. */
  lemma AsWrittenAgrees(raw: string)
    requires Strip(raw) != BackSentinel && Strip(raw) != QuitSentinel
    ensures ReadAsWritten(raw) == Classify(raw)
  {
  }

  /** The sentinel strings are not themselves navigation answers. */
  lemma SentinelsAreNotNavigation()
    ensures Strip(BackSentinel) == BackSentinel && Strip(QuitSentinel) == QuitSentinel
    ensures Lower(BackSentinel) != "b" && Lower(BackSentinel) != "q"
    ensures Lower(QuitSentinel) != "b" && Lower(QuitSentinel) != "q"
  {
    StripUnchanged(BackSentinel);
    StripUnchanged(QuitSentinel);
    assert |Lower(BackSentinel)| == 8 && |Lower(QuitSentinel)| == 8;
  }

  /** An answer that is already stripped and is no navigation answer is
      classified as itself, and read by the program by the sentinel test alone. */
  lemma PlainAnswer(s: string)
    requires Strip(s) == s && Lower(s) != "b" && Lower(s) != "q"
    ensures Classify(s) == Value(s)
    ensures ReadAsWritten(s) == ReadSentinel(s)
  {
  }

  /** Typing the text `__BACK__` at any prompt is read as going back, and
      typing `__QUIT__` as quitting, although neither is "b" or "q". */
  lemma SentinelCollision()
    ensures Classify(BackSentinel) == Value(BackSentinel)
    ensures ReadAsWritten(BackSentinel) == Back
    ensures Classify(QuitSentinel) == Value(QuitSentinel)
    ensures ReadAsWritten(QuitSentinel) == Quit
  {
    SentinelsAreNotNavigation();
    PlainAnswer(BackSentinel);
    PlainAnswer(QuitSentinel);
  }
}
