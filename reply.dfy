/**
 * The reply `handle_image` in bot.py sends for a recognised text: a header,
 * the text inside a code fence, a note for commands and for code, and five
 * fixed suggestions. A blank recognition result gets a failure notice instead.
 */
module Reply {
  import opened PyStrings
  import opened TextAnalyzer

  /** The first line of every reply (U+1F4C4 is the page emoji). */
  const Header: string := "\U{1F4C4} Recognized text:\n\n"

  /** The note for a command (U+1F527 is the wrench emoji). */
  const CommandNote: string := "\U{1F527} Looks like a terminal command\n"

  /** The note for code (U+1F4BB is the laptop emoji). */
  const CodeNote: string := "\U{1F4BB} Looks like code\n"

  /** The line that introduces the suggestions (U+1F4A1 is the bulb emoji). */
  const HintsHeader: string := "\n\U{1F4A1} Possible actions:\n"

  /** The suggestions, in the order they are listed. */
  const Suggestions: seq<string> :=
    ["Check syntax", "Try running command", "Check logs", "Update dependencies", "Check permissions"]

  /** What the suggestion block reads, written out. */
  const HintsText: string :=
    HintsHeader
    + "\U{2022} Check syntax" + "\n"
    + "\U{2022} Try running command" + "\n"
    + "\U{2022} Check logs" + "\n"
    + "\U{2022} Update dependencies" + "\n"
    + "\U{2022} Check permissions"

  /** The notice sent when nothing was recognised (U+274C is the cross mark). */
  const NotRecognized: string := "\U{274C} Text could not be recognized."

  /** The recognised text inside a Markdown code fence, as the f-string builds it. */
  function Fenced(content: string): string {
    "```\n" + content + "\n```\n\n"
  }

  /** The annotation line selected by the kind of the analysis. */
  function Annotation(analysis: Analysis): string {
    if analysis.Command? then CommandNote
    else if analysis.Code? then CodeNote
    else ""
  }

  /** `f"• {s}"`. */
  function Bullet(s: string): string {
    "\U{2022} " + s
  }

  /** Every suggestion as a bulleted line. */
  function Bullets(ss: seq<string>): (r: seq<string>)
    ensures |r| == |ss|
  {
    seq(|ss|, i requires 0 <= i < |ss| => Bullet(ss[i]))
  }

  /** `"\n".join(lines)`. */
  function JoinLines(lines: seq<string>): string {
    if |lines| == 0 then ""
    else if |lines| == 1 then lines[0]
    else JoinLines(lines[..|lines| - 1]) + "\n" + lines[|lines| - 1]
  }

  /** The reply for an analysis, piece by piece as `handle_image` appends them.
      It opens with the header and the recognised text in its fence. */
  function ReplyFor(analysis: Analysis): (r: string)
    ensures StartsWith(r, Header)
    ensures StartsWith(r, Header + Fenced(analysis.content))
  {
    Header + Fenced(analysis.content) + Annotation(analysis)
      + HintsHeader + JoinLines(Bullets(Suggestions))
  }

  /** Lines 84-99 of `handle_image`: the reply is grown step by step in a
      local accumulator, the suggestions joined one bullet at a time. */
  method BuildReply(analysis: Analysis) returns (response: string)
    ensures response == ReplyFor(analysis)
  {
    response := Header;
    response := response + Fenced(analysis.content);
    if analysis.Command? {
      response := response + CommandNote;
    } else if analysis.Code? {
      response := response + CodeNote;
    }
    var joined := "";
    var i := 0;
    while i < |Suggestions|
      invariant 0 <= i <= |Suggestions|
      invariant joined == JoinLines(Bullets(Suggestions[..i]))
    {
      var done := Bullets(Suggestions[..i]);
      assert Bullets(Suggestions[..i + 1]) == done + [Bullet(Suggestions[i])];
      if i > 0 {
        joined := joined + "\n";
      }
      joined := joined + Bullet(Suggestions[i]);
      i := i + 1;
    }
    assert Suggestions[..i] == Suggestions;
    response := response + HintsHeader + joined;
  }

  /** The reply sent for a recognised text: the failure notice when the text
      is blank, the formatted analysis otherwise (lines 75-99). */
  function ReplyToText(text: string, detect: string -> Detection): (r: string)
    ensures r == NotRecognized || StartsWith(r, Header)
  {
    if Strip(text) == [] then NotRecognized
    else ReplyFor(AnalyzeText(text, detect))
  }

  // ---------------------------------------------------------------------
  // What every reply looks like

  /** Appending one more line to a join adds a newline and the line. */
  lemma JoinLinesSnoc(lines: seq<string>, line: string)
    requires lines != []
    ensures JoinLines(lines + [line]) == JoinLines(lines) + "\n" + line
  {
    assert (lines + [line])[..|lines|] == lines;
  }

  /** A join starts with its first line and ends with its last line. */
  lemma {:induction false} JoinLinesEnds(lines: seq<string>)
    requires lines != []
    ensures StartsWith(JoinLines(lines), lines[0])
    ensures |lines[|lines| - 1]| <= |JoinLines(lines)|
    ensures JoinLines(lines)[|JoinLines(lines)| - |lines[|lines| - 1]|..] == lines[|lines| - 1]
  {
    if |lines| > 1 {
      var init := lines[..|lines| - 1];
      JoinLinesEnds(init);
      assert init[0] == lines[0];
      var j := JoinLines(init);
      assert JoinLines(lines) == j + ("\n" + lines[|lines| - 1]);
      assert (j + ("\n" + lines[|lines| - 1]))[..|lines[0]|] == j[..|lines[0]|];
    }
  }

  /** Five lines joined with newlines, after a heading `h`. */
  lemma JoinFive(h: string, a: string, b: string, c: string, d: string, e: string)
    ensures h + JoinLines([a, b, c, d, e]) == h + a + "\n" + b + "\n" + c + "\n" + d + "\n" + e
  {
    JoinLinesSnoc([a], b);
    assert [a] + [b] == [a, b];
    JoinLinesSnoc([a, b], c);
    assert [a, b] + [c] == [a, b, c];
    JoinLinesSnoc([a, b, c], d);
    assert [a, b, c] + [d] == [a, b, c, d];
    JoinLinesSnoc([a, b, c, d], e);
    assert [a, b, c, d] + [e] == [a, b, c, d, e];
  }

  /** The suggestion block spelled out: five bullets in a fixed order. */
  lemma HintsSpelledOut()
    ensures HintsHeader + JoinLines(Bullets(Suggestions)) == HintsText
  {
    var b := Bullets(Suggestions);
    assert b == [Bullet(Suggestions[0]), Bullet(Suggestions[1]), Bullet(Suggestions[2]),
                 Bullet(Suggestions[3]), Bullet(Suggestions[4])];
    BulletLines();
    JoinFive(HintsHeader, b[0], b[1], b[2], b[3], b[4]);
  }

  lemma BulletLines()
    ensures Bullet(Suggestions[0]) == "\U{2022} Check syntax"
    ensures Bullet(Suggestions[1]) == "\U{2022} Try running command"
    ensures Bullet(Suggestions[2]) == "\U{2022} Check logs"
    ensures Bullet(Suggestions[3]) == "\U{2022} Update dependencies"
    ensures Bullet(Suggestions[4]) == "\U{2022} Check permissions"
  {
    BulletLine(Suggestions[0], "\U{2022} Check syntax");
    BulletLine(Suggestions[1], "\U{2022} Try running command");
    BulletLine(Suggestions[2], "\U{2022} Check logs");
    BulletLine(Suggestions[3], "\U{2022} Update dependencies");
    BulletLine(Suggestions[4], "\U{2022} Check permissions");
  }

  /** A bullet is the bullet sign, a space and the suggestion. */
  lemma BulletLine(s: string, line: string)
    requires |line| == |s| + 2 && line[0] == '\U{2022}' && line[1] == ' ' && line[2..] == s
    ensures Bullet(s) == line
  {
  }

  /** Three pieces in a row: the first is a prefix, the middle lies right
      after it, and the last is a suffix. */
  lemma PiecesInOrder(front: string, middle: string, back: string)
    ensures StartsWith(front + middle + back, front)
    ensures MatchAt(front + middle + back, middle, |front|)
    ensures (front + middle + back)[|front + middle + back| - |back|..] == back
  {
    assert (front + middle + back)[..|front|] == front;
    assert (front + middle + back)[|front|..|front| + |middle|] == middle;
  }

  /** The reply is the header, the fenced text, the note and the suggestions. */
  lemma ReplyPieces(analysis: Analysis)
    ensures ReplyFor(analysis) == Header + Fenced(analysis.content) + Annotation(analysis) + HintsText
  {
    HintsSpelledOut();
  }

  /** Whatever the analysis, the reply starts with the header and the fenced
      content, carries the note right after them, and ends with the same five
      suggestions in the same order. */
  lemma ReplyFrame(analysis: Analysis)
    ensures StartsWith(ReplyFor(analysis), Header + Fenced(analysis.content))
    ensures MatchAt(ReplyFor(analysis), Annotation(analysis), |Header + Fenced(analysis.content)|)
    ensures |ReplyFor(analysis)| >= |HintsText|
    ensures ReplyFor(analysis)[|ReplyFor(analysis)| - |HintsText|..] == HintsText
  {
    ReplyPieces(analysis);
    PiecesInOrder(Header + Fenced(analysis.content), Annotation(analysis), HintsText);
  }

  /** A character that occurs in no fixed part of the reply and not in the
      text occurs in the reply exactly when it occurs in the note. */
  lemma MarkInReply(analysis: Analysis, c: char)
    requires c !in Header && c !in "```\n" && c !in "\n```\n\n" && c !in HintsText
    requires c !in analysis.content
    ensures c in ReplyFor(analysis) <==> c in Annotation(analysis)
  {
    ReplyPieces(analysis);
  }

  /** The wrench and laptop emoji occur in no fixed part of the reply other
      than their own note. */
  lemma HeaderUnmarked()
    ensures '\U{1F527}' !in Header && '\U{1F4BB}' !in Header
  {
  }

  lemma FencesUnmarked()
    ensures '\U{1F527}' !in "```\n" && '\U{1F4BB}' !in "```\n"
    ensures '\U{1F527}' !in "\n```\n\n" && '\U{1F4BB}' !in "\n```\n\n"
  {
  }

  lemma NotesUnmarked()
    ensures '\U{1F527}' !in CodeNote && '\U{1F4BB}' !in CommandNote
  {
  }

  lemma HintsUnmarked()
    ensures '\U{1F527}' !in HintsText && '\U{1F4BB}' !in HintsText
  {
    HintsHeadUnmarked();
    HintsTailUnmarked();
  }

  lemma HintsHeadUnmarked()
    ensures '\U{1F527}' !in HintsHeader && '\U{1F4BB}' !in HintsHeader
    ensures '\U{1F527}' !in "\U{2022} Check syntax" && '\U{1F4BB}' !in "\U{2022} Check syntax"
    ensures '\U{1F527}' !in "\U{2022} Try running command"
    ensures '\U{1F4BB}' !in "\U{2022} Try running command"
  {
  }

  lemma HintsTailUnmarked()
    ensures '\U{1F527}' !in "\U{2022} Check logs" && '\U{1F4BB}' !in "\U{2022} Check logs"
    ensures '\U{1F527}' !in "\U{2022} Update dependencies"
    ensures '\U{1F4BB}' !in "\U{2022} Update dependencies"
    ensures '\U{1F527}' !in "\U{2022} Check permissions"
    ensures '\U{1F4BB}' !in "\U{2022} Check permissions"
  {
  }

  lemma NoticeUnmarked()
    ensures '\U{1F527}' !in NotRecognized && '\U{1F4BB}' !in NotRecognized
  {
  }

  /** With the content free of the wrench emoji, the reply contains the
      terminal-command note exactly when the text was classified a command. */
  lemma CommandNoteIffCommand(analysis: Analysis)
    requires '\U{1F527}' !in analysis.content
    ensures Contains(ReplyFor(analysis), CommandNote) <==> analysis.Command?
  {
    HeaderUnmarked();
    FencesUnmarked();
    HintsUnmarked();
    MarkInReply(analysis, '\U{1F527}');
    if analysis.Command? {
      ReplyFrame(analysis);
      ContainsWitness(ReplyFor(analysis), CommandNote, |Header + Fenced(analysis.content)|);
    }
    if Contains(ReplyFor(analysis), CommandNote) {
      ContainsChar(ReplyFor(analysis), CommandNote, '\U{1F527}');
      NotesUnmarked();
    }
  }

  /** With the content free of the laptop emoji, the reply contains the code
      note exactly when the text was classified code. */
  lemma CodeNoteIffCode(analysis: Analysis)
    requires '\U{1F4BB}' !in analysis.content
    ensures Contains(ReplyFor(analysis), CodeNote) <==> analysis.Code?
  {
    HeaderUnmarked();
    FencesUnmarked();
    HintsUnmarked();
    MarkInReply(analysis, '\U{1F4BB}');
    if analysis.Code? {
      ReplyFrame(analysis);
      ContainsWitness(ReplyFor(analysis), CodeNote, |Header + Fenced(analysis.content)|);
    }
    if Contains(ReplyFor(analysis), CodeNote) {
      ContainsChar(ReplyFor(analysis), CodeNote, '\U{1F4BB}');
      NotesUnmarked();
    }
  }

  /** A command's reply always carries the terminal-command note. */
  lemma CommandReplyHasNote(analysis: Analysis)
    requires analysis.Command?
    ensures Contains(ReplyFor(analysis), CommandNote)
  {
    ReplyFrame(analysis);
    ContainsWitness(ReplyFor(analysis), CommandNote, |Header + Fenced(analysis.content)|);
  }

  /** Code's reply always carries the code note. */
  lemma CodeReplyHasNote(analysis: Analysis)
    requires analysis.Code?
    ensures Contains(ReplyFor(analysis), CodeNote)
  {
    ReplyFrame(analysis);
    ContainsWitness(ReplyFor(analysis), CodeNote, |Header + Fenced(analysis.content)|);
  }

  /** The failure notice is sent exactly for blank text; every other text
      gets a formatted reply (which starts with the header, not the cross). */
  lemma NoticeIffBlank(text: string, detect: string -> Detection)
    ensures ReplyToText(text, detect) == NotRecognized <==> AllWhitespace(text)
  {
    if !AllWhitespace(text) {
      ReplyFrame(AnalyzeText(text, detect));
      assert ReplyToText(text, detect)[0] == Header[0] != NotRecognized[0];
    }
  }

  /** From the text read off the image to the reply, for every text: a
      command gets the command note, and code that is no command the code note. */
  lemma ReplyNotesFor(text: string, detect: string -> Detection)
    ensures IsCommand(text) ==> Contains(ReplyToText(text, detect), CommandNote)
    ensures !IsCommand(text) && IsCode(text) && !AllWhitespace(text) ==>
      Contains(ReplyToText(text, detect), CodeNote)
  {
    AnalysisKind(text, detect);
    var a := AnalyzeText(text, detect);
    if a.Command? {
      CommandReplyHasNote(a);
    } else if a.Code? {
      CodeReplyHasNote(a);
    }
  }

  /** From the text read off the image to the reply: when the text itself
      has neither emoji, the reply carries the command note exactly for a
      command, and the code note exactly for code that is no command. */
  lemma ReplyNotes(text: string, detect: string -> Detection)
    requires '\U{1F527}' !in text && '\U{1F4BB}' !in text
    ensures Contains(ReplyToText(text, detect), CommandNote) <==> IsCommand(text)
    ensures Contains(ReplyToText(text, detect), CodeNote) <==>
      !AllWhitespace(text) && !IsCommand(text) && IsCode(text)
  {
    AnalysisKind(text, detect);
    if AllWhitespace(text) {
      NoticeUnmarked();
      if Contains(NotRecognized, CommandNote) {
        ContainsChar(NotRecognized, CommandNote, '\U{1F527}');
      }
      if Contains(NotRecognized, CodeNote) {
        ContainsChar(NotRecognized, CodeNote, '\U{1F4BB}');
      }
    } else {
      CommandNoteIffCommand(AnalyzeText(text, detect));
      CodeNoteIffCode(AnalyzeText(text, detect));
    }
  }
}
