/**
 * `WikiTextGenerator`: sanitizes a page's wikitext, hands it to the parser and lowers the
 * parsed page with one long-lived visitor whose counter is reset for every page.
 */
module Generator {
  import opened Wrappers
  import opened Strings
  import Utf8
  import opened Sanitizer
  import opened Lowering
  import opened Visitor

  class WikiTextGenerator {
    const visitor: HytaleWikiVisitor

    constructor()
      ensures fresh(visitor) && visitor.id == 0
    {
      visitor := new HytaleWikiVisitor();
    }

    /**
     * The eight rewriting steps. The result has no underscore, no three newlines in a row
     * and only newlines and printable ASCII characters.
     */
    method Sanitize(source: string) returns (r: string)
      ensures r == Sanitized(source)
      ensures '_' !in r && NoTripleNewline(r) && AllScrubbed(r)
    {
      var bytes := Utf8.Encode(source);
      var rebuilt := Scrub(bytes);
      assert rebuilt == Scrubbed(bytes);
      r := Rewrite(Trim(rebuilt));
      SanitizedShape(source);
    }

    /**
     * Sanitize, parse (the parser is a parameter), reset the counter and lower the page.
     * The ids of the result are distinct and numbered from zero up to the final counter.
     */
    method Generate(source: string, parse: string -> Node) returns (r: Option<Render>)
      modifies visitor
      ensures (r, visitor.id) == Lower(parse(Sanitized(source)), 0)
      ensures r.Some? ==> InRange(IdNumbers(r.value), 0, visitor.id) && Distinct(IdNumbers(r.value))
    {
      var cleaned := Sanitize(source);
      var root := parse(cleaned);
      visitor.Reset();
      r := visitor.Visit(root);
      LowerIds(root, 0);
    }
  }
}
