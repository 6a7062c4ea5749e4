/**
 * `TextAnalyzer` of bot.py: the ordered rules that sort the text read off an
 * image into one of four kinds — blank, a terminal command, source code, or
 * natural-language text together with its detected language.
 */
module TextAnalyzer {
  import opened PyStrings

  /** What the external language detector (`langdetect.detect`) does with a
      text: it names a language, or it raises `LangDetectException`. */
  datatype Detection = Detected(code: string) | DetectionFailed

  /** The record `analyze_text` returns. Its `'type'` key is the constructor;
      only natural-language text carries a `'language'` key. */
  datatype Analysis =
    | Empty(content: string)
    | Command(content: string)
    | Code(content: string)
    | Text(content: string, language: string)

  /** Substrings that mark source code anywhere in the raw text. */
  const CodeKeywords: seq<string> :=
    ["def ", "class ", "import ", "from ", "return ", "if ", "else ", "for ", "while "]

  /** Substrings that mark an embedded command anywhere in the raw text. */
  const CommandKeywords: seq<string> :=
    ["$ ", "# ", "> ", "sudo ", "git ", "docker ", "python "]

  // The regular-expression class of the symbol-density rule: { } ( ) ; = < > + - * / % [ ]
  const CodeChars: set<char> :=
    {'{', '}', '(', ')', ';', '=', '<', '>', '+', '-', '*', '/', '%', '[', ']'}

  /** The prefixes that make the stripped text a command. */
  const CommandPrefixes: seq<string> := ["$", "#", ">", "sudo ", "git ", "docker "]

  /** The language reported when the detector fails. */
  const DefaultLanguage: string := "en"

  /** `code_keywords + command_keywords`, in the order `is_code` tries them. */
  const Keywords: seq<string> := CodeKeywords + CommandKeywords

  /** Some code or command keyword occurs in `text`. */
  predicate HasKeyword(text: string) {
    ContainsAny(text, Keywords)
  }

  /** `is_code`: a keyword occurs in the raw text, or more than two characters
      of it belong to the code character class. As every keyword ends with a
      space, code has a space or at least three such characters. */
  predicate IsCode(text: string)
    ensures IsCode(text) ==> ' ' in text || CountIn(text, CodeChars) >= 3
  {
    KeywordNeedsSpace(text);
    HasKeyword(text) || CountIn(text, CodeChars) > 2
  }

  /** `is_command`: the stripped text starts with one of the command prefixes.
      No prefix is empty, so a command is never blank. */
  predicate IsCommand(text: string)
    ensures IsCommand(text) ==> Strip(text) != [] && !AllWhitespace(text)
  {
    CommandNotBlank(Strip(text));
    StartsWithAny(Strip(text), CommandPrefixes)
  }

  /** `detect_language`: the detector's answer, or `'en'` when it fails. Any
      other language than the default is one the detector named. */
  function DetectLanguage(text: string, detect: string -> Detection): (language: string)
    ensures language != DefaultLanguage ==> detect(text) == Detected(language)
  {
    match detect(text)
    case Detected(code) => code
    case DetectionFailed => DefaultLanguage
  }

  /** `analyze_text`: the first rule that fires decides the kind; the content
      is always the text exactly as it was given. */
  function AnalyzeText(text: string, detect: string -> Detection): (r: Analysis)
    ensures r.content == text
  {
    if Strip(text) == [] then Empty(text)
    else if IsCommand(text) then Command(text)
    else if IsCode(text) then Code(text)
    else Text(text, DetectLanguage(text, detect))
  }

  /** The four rules partition all texts: each kind is described by its own
      rule and the failure of every earlier one. */
  lemma AnalysisKind(text: string, detect: string -> Detection)
    ensures AnalyzeText(text, detect).Empty? <==> AllWhitespace(text)
    ensures AnalyzeText(text, detect).Command? <==> IsCommand(text)
    ensures AnalyzeText(text, detect).Code? <==>
      !AllWhitespace(text) && !IsCommand(text) && IsCode(text)
    ensures AnalyzeText(text, detect).Text? <==>
      !AllWhitespace(text) && !IsCommand(text) && !IsCode(text)
  {
    if IsCommand(text) {
      StartsWithAnyAt(Strip(text), CommandPrefixes);
      var i :| 0 <= i < |CommandPrefixes| && StartsWith(Strip(text), CommandPrefixes[i]);
      CommandOutranksCode(text, detect, i);
    }
  }

  /** A command prefix wins over every code signal: keywords and symbols in
      a text whose stripped form starts with a prefix do not matter. */
  lemma CommandOutranksCode(text: string, detect: string -> Detection, i: nat)
    requires i < |CommandPrefixes| && StartsWith(Strip(text), CommandPrefixes[i])
    ensures AnalyzeText(text, detect) == Command(text)
  {
    PrefixNonEmpty(i);
    assert |Strip(text)| >= |CommandPrefixes[i]| > 0;
    StartsWithAnyAt(Strip(text), CommandPrefixes);
  }

  /** A text that starts with a command prefix is not empty. */
  lemma CommandNotBlank(s: string)
    ensures StartsWithAny(s, CommandPrefixes) ==> s != []
  {
    if StartsWithAny(s, CommandPrefixes) {
      StartsWithAnyAt(s, CommandPrefixes);
      var i :| 0 <= i < |CommandPrefixes| && StartsWith(s, CommandPrefixes[i]);
      PrefixNonEmpty(i);
    }
  }

  lemma PrefixNonEmpty(i: nat)
    requires i < |CommandPrefixes|
    ensures |CommandPrefixes[i]| > 0
  {
  }

  /** Since the text is stripped first, a prefix that ends in a space
      (`sudo `, `git `, `docker `) matches only when something other than
      whitespace follows it. */
  lemma SpacedPrefixNeedsArgument(text: string, p: string)
    requires p != [] && StartsWith(Strip(text), p) && p[|p| - 1] == ' '
    ensures |Strip(text)| > |p|
  {
    var s := Strip(text);
    assert s != [] && Trimmed(s);
    assert s[|p| - 1] == s[..|p|][|p| - 1] == ' ';
  }

  /** Without a keyword, `is_code` is exactly "at least three code characters". */
  lemma SymbolThreshold(text: string)
    requires !HasKeyword(text)
    ensures IsCode(text) <==> CountIn(text, CodeChars) >= 3
  {
  }

  /** The content is passed through unchanged, so analysing it again gives
      the same record (for a detector that answers the same text the same way). */
  lemma AnalyzeIdempotent(text: string, detect: string -> Detection)
    ensures AnalyzeText(AnalyzeText(text, detect).content, detect) == AnalyzeText(text, detect)
  {
  }

  /** Only natural-language text carries a language: the detector's answer,
      or `'en'` when detection fails. */
  lemma LanguageOfText(text: string, detect: string -> Detection)
    requires AnalyzeText(text, detect).Text?
    ensures detect(text).DetectionFailed? ==> AnalyzeText(text, detect).language == "en"
    ensures detect(text).Detected? ==> AnalyzeText(text, detect).language == detect(text).code
  {
    AnalysisKind(text, detect);
    assert Strip(text) != [] && !IsCommand(text) && !IsCode(text);
  }

  // ---------------------------------------------------------------------
  // Reasoning about concrete texts

  /** Every character of a substring occurs in the text. */
  lemma ContainsChar(s: string, p: string, c: char)
    requires Contains(s, p) && c in p
    ensures c in s
  {
    ContainsAt(s, p);
    var i: nat :| MatchAt(s, p, i);
    var j :| 0 <= j < |p| && p[j] == c;
    assert s[i + j] == s[i..i + |p|][j] == c;
  }

  /** A text misses every keyword when, for each keyword, some character of
      it is absent from the text. */
  lemma MissingCharsNoKeyword(text: string, absent: seq<char>)
    requires |absent| == |Keywords|
    requires forall i :: 0 <= i < |absent| ==> absent[i] in Keywords[i] && absent[i] !in text
    ensures !HasKeyword(text)
  {
    ContainsAnyAt(text, Keywords);
    forall i | 0 <= i < |Keywords| ensures !Contains(text, Keywords[i]) {
      if Contains(text, Keywords[i]) {
        ContainsChar(text, Keywords[i], absent[i]);
      }
    }
  }

  /** A text that holds a keyword holds a space. */
  lemma KeywordNeedsSpace(text: string)
    ensures HasKeyword(text) ==> ' ' in text
  {
    if ' ' !in text {
      NoSpaceNoKeyword(text);
    }
  }

  /** Every keyword ends with a space, so a text without spaces has none. */
  lemma NoSpaceNoKeyword(text: string)
    requires ' ' !in text
    ensures !HasKeyword(text)
  {
    MissingCharsNoKeyword(text, seq(|Keywords|, _ => ' '));
  }
}
