# Text analyzer and reply of a Telegram OCR bot, in Dafny

The bot receives a photo, runs OCR on it, classifies the recognised text and
answers with a formatted message. This project models the two parts of
`bot.py` that are logic rather than plumbing:

- `TextAnalyzer` (module `TextAnalyzer`). It sorts a text into one of four
  kinds — `empty`, `command`, `code`, or `text` with a language — by ordered
  rules where the first rule that fires decides. `is_code`, `is_command`,
  `detect_language` and `analyze_text` are pure and are modelled as
  predicates and functions.
- The reply that `handle_image` builds (module `Reply`). It is a header,
  the text inside a Markdown code fence, a note for commands and for code,
  and five fixed suggestions. A blank OCR result gets a failure notice
  instead. The source grows the reply in a local accumulator with `+=`. The
  model does the same in the method `BuildReply` and proves it equal to the
  function `ReplyFor`, about which the layout lemmas are stated.

Module `PyStrings` gives the Python string operations the analyzer uses,
over `seq<char>`:

- `str.isspace`, with the full Unicode set Python uses;
- `strip`, `lstrip` and `rstrip`;
- `startswith` and the substring test `in`;
- `len(re.findall("[...]", s))` for a one-character class, as a count of
  characters in a set.

Module `AnalyzerExamples` runs the rules on concrete texts: sample inputs
and the edge cases of the rules. Module `ReplyExamples` follows one sample
input from the recognised text to the reply.

The language detector `langdetect.detect` is a parameter
`detect: string -> Detection`. Its result is either `Detected(code)` or
`DetectionFailed`, the latter standing for `LangDetectException`.

`"a=b+c-d"` holds three characters of the class at `bot.py:22` (`=`, `+`,
`-`), one more than the threshold; `AnalyzerExamples.SymbolsAreCode` proves
the count.

## Model

| member | source | states |
|---|---|---|
| PyStrings.Strip | bot.py:38 | `text.strip()` neither starts nor ends with whitespace, and it is empty exactly when every character of the text is whitespace |
| PyStrings.StripPadded | bot.py:38 | the input is the stripped text with whitespace added on both sides |
| PyStrings.StripUnique | bot.py:38 | the stripped text is the only trimmed string the input pads, so `strip` removes all of the padding and nothing else |
| PyStrings.StripOfTrimmed | bot.py:27 | a text with no whitespace at either end is unchanged by `strip` |
| PyStrings.LStripSkips | bot.py:38 | `lstrip` removes exactly the leading run of whitespace |
| PyStrings.RStripSkips | bot.py:38 | `rstrip` removes exactly the trailing run of whitespace |
| PyStrings.StartsWith | bot.py:27 | `s.startswith(p)`: `s` is `p` followed by the rest of `s` |
| PyStrings.Contains | bot.py:19 | `p in s`, scanning `s` for a window that starts with `p`; the empty string occurs in every text and nothing longer than the text occurs in it |
| PyStrings.CountIn | bot.py:23 | `len(re.findall("[...]", s))` for a one-character class: the number of characters of `s` in the class, never more than the length of `s` |
| PyStrings.ContainsAt | bot.py:19 | the scanning substring test `p in s` holds exactly when some window of `s` equals `p` |
| PyStrings.StartsWithAnyAt | bot.py:27 | `any(s.startswith(p) for p in ps)` holds exactly when some listed prefix starts `s` |
| PyStrings.ContainsAnyAt | bot.py:19 | `any(p in s for p in ps)` holds exactly when some listed keyword occurs in `s` |
| PyStrings.CountInConcat | bot.py:23 | the count of code characters of a concatenation is the sum of the counts |
| PyStrings.CountInZero | bot.py:23 | the count is zero exactly when no character of the text is in the class |
| TextAnalyzer.IsCode | bot.py:15-23 | `is_code`: some of the 16 keywords occurs in the raw text, or more than two characters are in the class; as every keyword ends with a space, code has a space or at least three class characters |
| TextAnalyzer.IsCommand | bot.py:26-27 | `is_command`: the stripped text starts with one of the six prefixes; a command is never blank |
| TextAnalyzer.DetectLanguage | bot.py:30-34 | `detect_language`: the detector's answer, `'en'` when it fails; any other language than `'en'` is one the detector named |
| TextAnalyzer.AnalyzeText | bot.py:37-47 | every result's `content` is the input text, unstripped |
| TextAnalyzer.AnalysisKind | bot.py:38-47 | `empty` iff the text is all whitespace; `command` iff `is_command`; `code` iff non-blank, not a command and `is_code`; `text` iff none of the three rules fires |
| TextAnalyzer.CommandOutranksCode | bot.py:41-42 | a text whose stripped form starts with one of `$ # > sudo  git  docker ` is a command, whatever keywords or symbols it also holds |
| TextAnalyzer.SpacedPrefixNeedsArgument | bot.py:27 | since the text is stripped first, a prefix ending in a space matches only when something non-blank follows it |
| TextAnalyzer.SymbolThreshold | bot.py:22-23 | without a keyword, `is_code` holds exactly when at least three characters are in the class (the test is strictly greater than 2) |
| TextAnalyzer.AnalyzeIdempotent | bot.py:37-47 | analysing the returned content again gives the same record, for a detector that answers the same text the same way |
| TextAnalyzer.LanguageOfText | bot.py:30-34 | for kind `text`, the language is `'en'` when the detector fails and the detector's answer otherwise |
| TextAnalyzer.ContainsChar | bot.py:19 | every character of a keyword that occurs in the text occurs in the text |
| TextAnalyzer.MissingCharsNoKeyword | bot.py:16-20 | a text that misses one character of each of the 16 keywords contains none of them |
| TextAnalyzer.NoSpaceNoKeyword | bot.py:16-20 | every keyword ends with a space, so a text without a space has no keyword |
| AnalyzerExamples.DefinitionIsCode | bot.py:16-20 | `"def foo(): return 1"` is code |
| AnalyzerExamples.DollarIsCommand | bot.py:27 | `"$ ls -la"` is a command |
| AnalyzerExamples.GitStatusIsCommand | bot.py:27 | `"git status"` is a command |
| AnalyzerExamples.GreetingIsText | bot.py:44-47 | `"Hello, how are you today?"` is natural-language text, with the detector's language |
| AnalyzerExamples.BlankIsEmpty | bot.py:38-39 | `""` and `"   "` are `empty`, and the content keeps the spaces |
| AnalyzerExamples.SymbolsAreCode | bot.py:22-23 | `"a=b+c-d"` has no keyword and exactly three code characters, so it is code |
| AnalyzerExamples.TwoSymbolsAreText | bot.py:22-23 | `"f(x)"` has exactly two code characters and no keyword, so it is not code |
| AnalyzerExamples.EmbeddedGitIsCode | bot.py:41-45 | `"foo git bar"` is code, not a command: `git ` in the middle is a keyword but not a prefix |
| AnalyzerExamples.BareSudoIsText | bot.py:27 | a bare `"sudo"` matches neither the `sudo ` prefix nor the `sudo ` keyword, so it is text |
| AnalyzerExamples.SudoSpaceIsCode | bot.py:19 | `"sudo "` strips to `"sudo"`, which is no command, but the raw text holds the keyword `sudo `, so it is code |
| Reply.ReplyFor | bot.py:84-99 | the reply for an analysis, in the order `handle_image` appends its pieces; it opens with the header and the fenced text |
| Reply.ReplyToText | bot.py:75-99 | the message sent for a recognised text: the failure notice, or a reply that starts with the header |
| Reply.JoinLines | bot.py:99 | `"\n".join(lines)`, joining from the back |
| Reply.JoinLinesEnds | bot.py:99 | a join of at least one line starts with the first line and ends with the last |
| Reply.BuildReply | bot.py:84-99 | the reply grown step by step, with the bullets joined one at a time, equals `ReplyFor` of the analysis |
| Reply.HintsSpelledOut | bot.py:93-99 | the suggestion block is the bulb line followed by the five bulleted suggestions, one per line, in the fixed order |
| Reply.ReplyFrame | bot.py:84-99 | every reply starts with the header and the fenced content, has the note right after them, and ends with the same suggestion block |
| Reply.MarkInReply | bot.py:84-99 | a character absent from the content and from the fixed parts occurs in the reply exactly when it occurs in the note |
| Reply.CommandReplyHasNote | bot.py:87-88 | the reply for a command always contains the terminal-command note |
| Reply.CodeReplyHasNote | bot.py:89-90 | the reply for code always contains the code note |
| Reply.CommandNoteIffCommand | bot.py:87-88 | when the content has no wrench emoji, the reply contains the terminal-command note iff the kind is `command` |
| Reply.CodeNoteIffCode | bot.py:89-90 | when the content has no laptop emoji, the reply contains the code note iff the kind is `code` |
| Reply.NoticeIffBlank | bot.py:75-77 | the failure notice is sent exactly for blank text; any other text gets the formatted reply |
| Reply.ReplyNotesFor | bot.py:75-90 | for every recognised text, a command's reply contains the command note, and the reply of non-blank code that is no command contains the code note |
| Reply.ReplyNotes | bot.py:75-90 | from the OCR text to the reply: the command note appears iff `is_command`, and the code note iff non-blank, not a command and `is_code` |
| ReplyExamples.GitStatusReply | bot.py:84-90 | the reply for `"git status"` carries the command note and not the code note |

## Left out

- Telegram transport: `start`, `main`, reading `BOT_TOKEN`, the photo download and `reply_text` calls of `handle_image`, and its exception handler with logging (`bot.py:60-114`). This is async network I/O through a library whose code is not part of this model.
- OCR: `ImageProcessor.extract_text` is one `pytesseract` call with the constant config `--oem 3 --psm 6 -l rus+eng`. The model starts from the text it returns.
- `ImageProcessor.preprocess_image` is one PIL `convert('L')` call with no logic of its own.
- The internals of `langdetect.detect`, which is probabilistic. It is the parameter `detect`, which may fail.
- The fixed temporary file name `temp_image.jpg` and any race on it between concurrent messages (filesystem and concurrency).
- Markdown rendering on Telegram's side (`parse_mode='Markdown'`). The reply is modelled as the string sent, without escaping.
- Reply.CommandNoteIffCommand: the direction "note in the reply, so the kind is `command`" assumes the recognised text does not contain the wrench emoji; text that contains the note itself puts it in the reply whatever the kind. The other direction holds for every text (`Reply.CommandReplyHasNote`).
- Reply.CodeNoteIffCode: the same for the laptop emoji; the other direction is `Reply.CodeReplyHasNote`.
- Reply.ReplyNotes: the same for both emoji; the direction from the kind to the note holds for every text (`Reply.ReplyNotesFor`).
