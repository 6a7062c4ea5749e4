/**
 * The reply on a sample input: the whole path from the text read off the
 * image to the message sent.
 */
module ReplyExamples {
  import opened PyStrings
  import opened TextAnalyzer
  import opened AnalyzerExamples
  import opened Reply

  /** The image that reads `"git status"`: the reply annotates it as a
      terminal command, and as nothing else. */
  lemma GitStatusReply(text: string, detect: string -> Detection)
    requires text == "git status"
    ensures Contains(ReplyToText(text, detect), CommandNote)
    ensures !Contains(ReplyToText(text, detect), CodeNote)
  {
    GitStatusIsCommand(text, detect);
    AnalysisKind(text, detect);
    GitStatusUnmarked(text);
    ReplyNotes(text, detect);
  }

  lemma GitStatusUnmarked(text: string)
    requires text == "git status"
    ensures '\U{1F527}' !in text && '\U{1F4BB}' !in text
  {
  }
}
