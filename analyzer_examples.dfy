/**
 * The analyzer on concrete texts: sample inputs and the edge
 * cases of its rules (stripping before the prefix test, keywords anywhere in
 * the raw text, the strict symbol threshold).
 *
 * Each scenario takes its text as a parameter fixed by `requires`, so that
 * the verifier reasons from the rules rather than by evaluating them.
 */
module AnalyzerExamples {
  import opened PyStrings
  import opened TextAnalyzer

  /** A text is no command when it starts with none of the six prefixes. */
  lemma NoCommandPrefix(s: string)
    requires s != [] && s[0] != '$' && s[0] != '#' && s[0] != '>'
    requires !StartsWith(s, "sudo ") && !StartsWith(s, "git ") && !StartsWith(s, "docker ")
    ensures !StartsWithAny(s, CommandPrefixes)
  {
    StartsWithAnyAt(s, CommandPrefixes);
  }

  /** The `i`-th keyword occurs in the text, so the text has a keyword. */
  lemma KeywordAt(text: string, i: nat)
    requires i < |Keywords| && Contains(text, Keywords[i])
    ensures HasKeyword(text)
  {
    ContainsAnyAt(text, Keywords);
  }

  /** A trimmed text that is no command but holds the `i`-th keyword is code. */
  lemma CodeByKeyword(text: string, detect: string -> Detection, i: nat)
    requires text != [] && Trimmed(text) && !StartsWithAny(text, CommandPrefixes)
    requires i < |Keywords| && Contains(text, Keywords[i])
    ensures AnalyzeText(text, detect) == Code(text)
  {
    StripOfTrimmed(text);
    KeywordAt(text, i);
  }

  /** A trimmed text with no command prefix, no keyword and at most two code
      characters is natural-language text. */
  lemma TextWhenPlain(text: string, detect: string -> Detection)
    requires text != [] && Trimmed(text) && !StartsWithAny(text, CommandPrefixes)
    requires !HasKeyword(text) && CountIn(text, CodeChars) <= 2
    ensures AnalyzeText(text, detect) == Text(text, DetectLanguage(text, detect))
  {
    StripOfTrimmed(text);
  }

  /** `"def foo(): return 1"` is code, found by the `def ` keyword. */
  lemma DefinitionIsCode(text: string, detect: string -> Detection)
    requires text == "def foo(): return 1"
    ensures AnalyzeText(text, detect) == Code(text)
  {
    assert text[0] == 'd' && text[|text| - 1] == '1' && Trimmed(text);
    assert text[..7][1] != "docker "[1];
    NoCommandPrefix(text);
    assert StartsWith(text, Keywords[0]);
    CodeByKeyword(text, detect, 0);
  }

  /** `"$ ls -la"` is a command, by the `$` prefix. */
  lemma DollarIsCommand(text: string, detect: string -> Detection)
    requires text == "$ ls -la"
    ensures AnalyzeText(text, detect) == Command(text)
  {
    assert text[0] == '$' && text[|text| - 1] == 'a';
    StripOfTrimmed(text);
    assert StartsWith(text, CommandPrefixes[0]);
    CommandOutranksCode(text, detect, 0);
  }

  /** `"git status"` is a command, by the `git ` prefix. */
  lemma GitStatusIsCommand(text: string, detect: string -> Detection)
    requires text == "git status"
    ensures AnalyzeText(text, detect) == Command(text)
  {
    assert text[0] == 'g' && text[|text| - 1] == 's';
    StripOfTrimmed(text);
    assert StartsWith(text, CommandPrefixes[4]);
    CommandOutranksCode(text, detect, 4);
  }

  /** `"Hello, how are you today?"` is natural-language text; its language is
      whatever the detector answers, `'en'` if it fails. */
  lemma GreetingIsText(text: string, detect: string -> Detection)
    requires text == "Hello, how are you today?"
    ensures AnalyzeText(text, detect) == Text(text, DetectLanguage(text, detect))
  {
    GreetingShape(text);
    GreetingNoCodeChars(text);
    GreetingHasNoKeyword(text);
    TextWhenPlain(text, detect);
  }

  lemma GreetingShape(text: string)
    requires text == "Hello, how are you today?"
    ensures text != [] && Trimmed(text) && !StartsWithAny(text, CommandPrefixes)
  {
    assert text[0] == 'H' && text[|text| - 1] == '?';
    NoCommandPrefix(text);
  }

  lemma GreetingNoCodeChars(text: string)
    requires text == "Hello, how are you today?"
    ensures CountIn(text, CodeChars) == 0
  {
    GreetingCount(text, CodeChars);
  }

  /** The characters the greeting is made of. */
  const GreetingChars: set<char> :=
    {'H', 'e', 'l', 'o', ',', ' ', 'h', 'w', 'a', 'r', 'y', 'u', 't', 'd', '?'}

  /** A piece of the greeting has no character of a class that avoids the
      greeting's characters. */
  lemma GreetingPiece(piece: string, cs: set<char>)
    requires piece in ["Hello, ", "how are", " you to", "day?"]
    requires cs !! GreetingChars
    ensures CountIn(piece, cs) == 0
  {
    CountInZero(piece, cs);
  }

  /** The greeting, counted piece by piece. */
  lemma GreetingCount(text: string, cs: set<char>)
    requires text == "Hello, how are you today?"
    requires cs !! GreetingChars
    ensures CountIn(text, cs) == 0
  {
    assert text == "Hello, " + "how are" + " you to" + "day?";
    GreetingPiece("Hello, ", cs);
    GreetingPiece("how are", cs);
    GreetingPiece(" you to", cs);
    GreetingPiece("day?", cs);
    NoneInFour("Hello, ", "how are", " you to", "day?", cs);
  }

  /** Four pieces without a character of the class make none together. */
  lemma NoneInFour(a: string, b: string, c: string, d: string, cs: set<char>)
    requires CountIn(a, cs) == 0 && CountIn(b, cs) == 0
    requires CountIn(c, cs) == 0 && CountIn(d, cs) == 0
    ensures CountIn(a + b + c + d, cs) == 0
  {
    CountInConcat(a, b, cs);
    CountInConcat(a + b, c, cs);
    CountInConcat(a + b + c, d, cs);
  }

  /** One character of each keyword, in the order of `Keywords`. */
  const KeywordMarks: string := "fcifnisfi$#>sgcp"

  lemma KeywordsMarked()
    ensures |KeywordMarks| == |Keywords|
    ensures forall i :: 0 <= i < |Keywords| ==> KeywordMarks[i] in Keywords[i]
  {
  }

  /** The greeting misses a character of every keyword. */
  lemma GreetingHasNoKeyword(text: string)
    requires text == "Hello, how are you today?"
    ensures !HasKeyword(text)
  {
    var marks := set i | 0 <= i < |KeywordMarks| :: KeywordMarks[i];
    GreetingCount(text, marks);
    CountInZero(text, marks);
    KeywordsMarked();
    MissingCharsNoKeyword(text, KeywordMarks);
  }

  /** Blank input is `Empty`, and its content keeps every space. */
  lemma BlankIsEmpty(text: string, detect: string -> Detection)
    requires text == "" || text == "   "
    ensures AnalyzeText(text, detect) == Empty(text)
  {
    assert AllWhitespace(text);
  }

  /** `"a=b+c-d"` has no keyword but three code characters: code. */
  lemma SymbolsAreCode(text: string, detect: string -> Detection)
    requires text == "a=b+c-d"
    ensures !HasKeyword(text) && CountIn(text, CodeChars) == 3
    ensures AnalyzeText(text, detect) == Code(text)
  {
    assert text[0] == 'a' && text[|text| - 1] == 'd' && Trimmed(text);
    StripOfTrimmed(text);
    NoCommandPrefix(text);
    NoSpaceNoKeyword(text);
    ThreeSymbols();
  }

  lemma ThreeSymbols()
    ensures CountIn("a=b+c-d", CodeChars) == 3
  {
    CountInConcat("a=b", "+c-d", CodeChars);
  }

  /** `"f(x)"` has only two code characters and no keyword: not code. */
  lemma TwoSymbolsAreText(text: string, detect: string -> Detection)
    requires text == "f(x)"
    ensures CountIn(text, CodeChars) == 2
    ensures AnalyzeText(text, detect) == Text(text, DetectLanguage(text, detect))
  {
    assert text[0] == 'f' && text[|text| - 1] == ')' && Trimmed(text);
    NoCommandPrefix(text);
    NoSpaceNoKeyword(text);
    TwoSymbols();
    TextWhenPlain(text, detect);
  }

  lemma TwoSymbols()
    ensures CountIn("f(x)", CodeChars) == 2
  {
  }

  /** `"foo git bar"`: `git ` in the middle is a code keyword, not a command
      prefix, so the text is code. */
  lemma EmbeddedGitIsCode(text: string, detect: string -> Detection)
    requires text == "foo git bar"
    ensures AnalyzeText(text, detect) == Code(text)
  {
    assert text[0] == 'f' && text[|text| - 1] == 'r' && Trimmed(text);
    NoCommandPrefix(text);
    assert text[4..8] == Keywords[13];
    ContainsWitness(text, Keywords[13], 4);
    CodeByKeyword(text, detect, 13);
  }

  /** A bare `"sudo"` matches neither the `sudo ` prefix nor the `sudo `
      keyword: it is natural-language text. */
  lemma BareSudoIsText(text: string, detect: string -> Detection)
    requires text == "sudo"
    ensures AnalyzeText(text, detect) == Text(text, DetectLanguage(text, detect))
  {
    assert text[0] == 's' && text[|text| - 1] == 'o' && Trimmed(text);
    NoCommandPrefix(text);
    NoSpaceNoKeyword(text);
    CountInZero(text, CodeChars);
    TextWhenPlain(text, detect);
  }

  /** `"sudo "` strips to `"sudo"`, which is no command, but the raw text
      holds the keyword `sudo `: it is code. */
  lemma SudoSpaceIsCode(text: string, detect: string -> Detection)
    requires text == "sudo "
    ensures Strip(text) == "sudo"
    ensures AnalyzeText(text, detect) == Code(text)
  {
    SudoSpaceStrips(text);
    BareSudoNoCommand(Strip(text));
    SudoSpaceKeyword(text);
  }

  lemma BareSudoNoCommand(s: string)
    requires s == "sudo"
    ensures s != [] && !StartsWithAny(s, CommandPrefixes)
  {
    NoCommandPrefix(s);
  }

  lemma SudoSpaceKeyword(text: string)
    requires text == "sudo "
    ensures HasKeyword(text)
  {
    assert StartsWith(text, Keywords[12]);
    KeywordAt(text, 12);
  }

  lemma SudoSpaceStrips(text: string)
    requires text == "sudo "
    ensures Strip(text) == "sudo"
  {
    assert text[0..4] == "sudo" && PaddedAt(text, "sudo", 0);
    StripUnique(text, "sudo");
  }
}
