/**
 * The search predicate the package exports on its own: whether one snippet
 * matches a search text.
 */
module SnippetIndex {
  import opened Wrappers
  import opened Types
  import Seqs
  import JsText
  import Snippets

  /** `snippetMatchesByText`: the group, the name or a non-empty description contains the text, ignoring case. */
  predicate SnippetMatchesByText(snippet: Snippet, text: string) {
    var lowerCaseText := JsText.ToLowerCase(text);
    JsText.Includes(JsText.ToLowerCase(snippet.group), lowerCaseText) ||
    JsText.Includes(JsText.ToLowerCase(snippet.name), lowerCaseText) ||
    match snippet.description
    case None => false
    case Some(d) => d != [] && JsText.Includes(JsText.ToLowerCase(d), lowerCaseText)
  }

  function MatchesText(text: string): Snippet -> bool {
    (snippet: Snippet) => SnippetMatchesByText(snippet, text)
  }

  /** Every snippet matches the empty text. */
  lemma SnippetMatchesEmptyText(snippet: Snippet)
    ensures SnippetMatchesByText(snippet, "")
  {
    JsText.IncludesEmpty(JsText.ToLowerCase(snippet.group));
  }

  /** A missing or empty description never decides a match: only the group and the name do. */
  lemma SnippetMatchesWithoutDescription(snippet: Snippet, text: string)
    requires snippet.description == None || snippet.description == Some("")
    ensures SnippetMatchesByText(snippet, text) <==>
      JsText.Includes(JsText.ToLowerCase(snippet.group), JsText.ToLowerCase(text)) ||
      JsText.Includes(JsText.ToLowerCase(snippet.name), JsText.ToLowerCase(text))
  {
  }

  /** The case of the search text does not matter. */
  lemma SnippetMatchesIgnoresCase(snippet: Snippet, text: string)
    ensures SnippetMatchesByText(snippet, JsText.ToUpperCase(text)) == SnippetMatchesByText(snippet, text)
    ensures SnippetMatchesByText(snippet, JsText.ToLowerCase(text)) == SnippetMatchesByText(snippet, text)
  {
    JsText.LowerCaseAbsorbs(text);
  }

  /** `filterSnippets` keeps exactly the snippets `snippetMatchesByText` accepts, in their order. */
  lemma FilterSnippetsMatches(snippets: seq<Snippet>, text: string)
    ensures Snippets.FilterSnippets(snippets, text) == Seqs.Filter(snippets, MatchesText(text))
  {
    var lower := JsText.ToLowerCase(text);
    forall x | x in snippets ensures Snippets.FilterBy(lower)(x) == MatchesText(text)(x) {
    }
    Seqs.FilterAgree(snippets, Snippets.FilterBy(lower), MatchesText(text));
  }
}
