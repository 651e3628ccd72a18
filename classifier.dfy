/**
 * The colour codes sent to the editor and the fixed-priority chain that maps a
 * tree-sitter node type to one of them (server.js lines 23-36 and 148-168).
 */
module Classifier {
  import opened Wrappers

  /** Reserved run length: "this run extends to the end of its line". It is never a colour. */
  const EOL := 0

  const PLAIN := 1
  const SYMBOL := 2
  const KEYWORD := 3
  const IDENTIFIER := 4
  const SPECIAL_CHAR := 5
  const STRING := 6
  const NUMBER := 7
  const ERROR := 8
  const COMMENT := 9

  /** A colour the editor knows how to paint. */
  type ColorCode = c: int | PLAIN <= c <= COMMENT witness PLAIN

  /** The space-separated keyword list of the source, word for word (`next` included). */
  const Keywords: set<string> :=
    {"class", "this", "else", "return", "var", "const", "let", "for", "while", "if", "try",
     "throw", "catch", "function", "next", "continue", "break", "of", "in", "new"}

  /**
   * The space-separated symbol list of the source, item for item: `<=`, `+`, `-` and `%`
   * occur twice, `>` does not occur at all, and the trailing space of the list makes the
   * empty string a member.
   */
  const Symbols: set<string> :=
    {"%", "(", ")", "[", "]", "{", "}", ",", "-", "+", ";", ".", "/", "=", "==", "===",
     "&&", "&", "|", "||", "<", "!=", "<=", "<=", ">=", "<=>", "=>", "\"", "'", "`", "${",
     "~", "^", "*", "**", "+", "-", "%", "!", ""}

  /** The classification chain, tried in the source's order; `None` is `null`, "no colour". */
  function Classify(kind: string): Option<ColorCode> {
    if kind == "program" || kind == "template_substitution" then Some(PLAIN)
    else if kind == "number" then Some(NUMBER)
    else if kind in Keywords then Some(KEYWORD)
    else if kind in Symbols then Some(SYMBOL)
    else if kind == "string" || kind == "template_string" then Some(STRING)
    else if kind == "identifier" || kind == "property_identifier" then Some(IDENTIFIER)
    else if kind == "escape_sequence" then Some(SPECIAL_CHAR)
    else if kind == "ERROR" then Some(ERROR)
    else if kind == "comment" then Some(COMMENT)
    else None
  }

  /** A type that starts with a letter, as every keyword and every named type does. */
  predicate Word(kind: string) {
    |kind| > 0 && ('a' <= kind[0] <= 'z' || 'A' <= kind[0] <= 'Z')
  }

  lemma KeywordsAreWords()
    ensures forall k :: k in Keywords ==> Word(k)
  {
  }

  lemma SymbolsAreNotWords()
    ensures forall k :: k in Symbols ==> !Word(k)
  {
  }

  /*
   * The groups of the chain never overlap, so its order decides nothing: each colour is
   * produced for exactly the types of its own group, and every other type is left
   * uncoloured (EOL, 0, is never produced, since it is not a ColorCode). The lemmas
   * below state this colour by colour.
   */

  lemma ClassifyPlainNumber(kind: string)
    ensures Classify(kind) == Some(PLAIN) <==> kind == "program" || kind == "template_substitution"
    ensures Classify(kind) == Some(NUMBER) <==> kind == "number"
  {
  }

  lemma ClassifyKeyword(kind: string)
    ensures Classify(kind) == Some(KEYWORD) <==> kind in Keywords
  {
  }

  lemma ClassifySymbol(kind: string)
    ensures Classify(kind) == Some(SYMBOL) <==> kind in Symbols
  {
    KeywordsAreWords();
    SymbolsAreNotWords();
  }

  lemma ClassifyStringIdentifier(kind: string)
    ensures Classify(kind) == Some(STRING) <==> kind == "string" || kind == "template_string"
    ensures Classify(kind) == Some(IDENTIFIER) <==> kind == "identifier" || kind == "property_identifier"
  {
    SymbolsAreNotWords();
  }

  lemma ClassifyEscapeErrorComment(kind: string)
    ensures Classify(kind) == Some(SPECIAL_CHAR) <==> kind == "escape_sequence"
    ensures Classify(kind) == Some(ERROR) <==> kind == "ERROR"
    ensures Classify(kind) == Some(COMMENT) <==> kind == "comment"
  {
    SymbolsAreNotWords();
  }

  /** Every type outside the chain's groups, and only such a type, is left uncoloured. */
  lemma ClassifyUncoloured(kind: string)
    ensures Classify(kind) == None <==>
              kind !in Keywords && kind !in Symbols &&
              kind !in {"program", "template_substitution", "number", "string", "template_string",
                        "identifier", "property_identifier", "escape_sequence", "ERROR", "comment"}
  {
  }

  /**
   * The odd members of the two lists act exactly as written: `next` is coloured as a
   * keyword, a node of empty type as a symbol, and `>` is not coloured at all.
   */
  lemma ListQuirks()
    ensures Classify("next") == Some(KEYWORD)
    ensures Classify("") == Some(SYMBOL)
    ensures Classify(">") == None
  {
    KeywordsAreWords();
  }
}
