# hytalewiki-plugin: a Dafny model of the wiki-text pipeline and the wiki client

The plugin fetches pages from a MediaWiki site and renders them as in-game UI. This project
models its core in Dafny and proves properties of that model:

- **`WikiTextGenerator`** cleans raw wiki markup (`sanitize`) and turns the parsed page into UI
  elements (`generate`). Sanitizing runs eight steps in order:
  1. a per-byte scrub of the UTF-8 encoding, then `trim`;
  2. template removal;
  3. unwrapping of links in section headers;
  4. deleting pipes outside links (by way of a `!!!!` marker);
  5. category removal;
  6. capping newline runs at two;
  7. collapsing space runs;
  8. turning underscores into spaces.

  Each regular-expression step (`Pattern`/`replaceAll`) is a scanner written out by hand with
  Java's semantics:
  - a match is tried at every index from left to right;
  - lazy and greedy quantifiers behave as they do in Java;
  - `.` stops at Java's line terminators except under `DOTALL`;
  - the search resumes where the previous match ended.

  Below, "printable" text means text made of the characters from the space to DEL (0x20 to
  0x7F) and the newline: the characters the scrub can produce.
- **`HytaleWikiVisitor`** lowers the parsed wiki tree into labels and groups. Each label or group
  gets an id of the form `kind-n`, with `n` drawn from a counter.
  - Runs of neighbouring labels are merged into one label.
  - Line breaks do not count as content.
  - A container with exactly one child returns that child's own result.

  The visitor is a class with its counter as a field. Each `visit…` method is proved equal to a
  pure lowering function (`Lowering.Lower`), and the laws are proved about that function.
- **`WikiClient` and its `PathBuilder`** build page, edit and REST URLs:
  - the path's spaces become `_`;
  - the query is `?k=v&…` with values URL-encoded in UTF-8 (`URLEncoder.encode`);
  - parameters are kept in a `HashMap`, whose iteration order is left unspecified.
- **`WikiCommand`** strips the quotes from command arguments and looks for the search hit whose
  title equals the term, ignoring case.

Modules:

- `Wrappers`: `Option`.
- `Strings`: Java string operations.
- `Utf8`: the encoder.
- `UrlEncoding`: `URLEncoder` and a decoder as its partner.
- `Sanitizer`: the `sanitize` steps.
- `Lowering`: the visitor as pure functions.
- `Visitor`: the class.
- `Generator`: the class.
- `Client`: the URL builder.
- `Command`: the command helpers.

A container whose only child is a line break returns that line break's label
(`Lowering.LoneLineBreakKept`). Two or more line breaks alone yield nothing
(`Lowering.TwoLineBreaksElided`).

## Model

| member | source | states |
|---|---|---|
| `Generator.WikiTextGenerator.constructor` | src/main/java/org/hytalewiki/WikiTextGenerator.java:20-24 | The generator owns a fresh visitor whose counter is 0. |
| `Generator.WikiTextGenerator.Sanitize` | src/main/java/org/hytalewiki/WikiTextGenerator.java:26-63 | The cleaned text is the eight steps applied in order. It holds no `_` and no run of three newlines. It holds only printable ASCII and newlines. |
| `Generator.WikiTextGenerator.Generate` | src/main/java/org/hytalewiki/WikiTextGenerator.java:65-73 | The result is the lowering of the parse of the cleaned text, with the counter reset to 0. Every id number in the result is below the final counter, and no two are equal. |
| `Sanitizer.Scrubbed` | src/main/java/org/hytalewiki/WikiTextGenerator.java:30-38 | The scrubbed text as a function of the bytes: one character per byte, the byte itself when it is at least 32 as a signed byte, a newline for byte 10, a space otherwise. `Sanitizer.Scrub` is proved to compute it. |
| `Sanitizer.Scrub` | src/main/java/org/hytalewiki/WikiTextGenerator.java:30-38 | One character per byte. A byte that is at least 32 as a signed Java byte stays as it is. Byte 10 becomes a newline. Any other byte, control bytes and every byte of a multi-byte character included, becomes a space. |
| `Sanitizer.ScrubbedText` | src/main/java/org/hytalewiki/WikiTextGenerator.java:30-38 | Scrubbing the UTF-8 bytes of a text works character by character. Printable ASCII and newlines are kept. Any other character becomes as many spaces as it has bytes. The result is printable. |
| `Sanitizer.ScrubKeepsPrintable` | src/main/java/org/hytalewiki/WikiTextGenerator.java:30-38 | Text that is already printable ASCII and newlines comes out of the scrub unchanged. |
| `Utf8.EncodeChar` | src/main/java/org/hytalewiki/WikiTextGenerator.java:30 | A character encodes to one to four bytes. ASCII encodes to its own value. Every byte of a non-ASCII character is at least 0x80, which is negative as a Java byte. |
| `Utf8.EncodeAscii` | src/main/java/org/hytalewiki/WikiTextGenerator.java:30 | ASCII text encodes to one byte per character, of the same value. |
| `Strings.Trim` | src/main/java/org/hytalewiki/WikiTextGenerator.java:40 | Java's `trim`: the leading and then the trailing characters up to `' '` dropped. Its laws are the rows that follow. |
| `Strings.DropLeadingBlanks` | src/main/java/org/hytalewiki/WikiTextGenerator.java:40 | Removes exactly the leading characters up to `' '`: what remains is a suffix starting with a non-blank. |
| `Strings.DropTrailingBlanks` | src/main/java/org/hytalewiki/WikiTextGenerator.java:40 | Removes exactly the trailing characters up to `' '`: what remains is a prefix ending with a non-blank. |
| `Strings.TrimEmptyIff` | src/main/java/org/hytalewiki/WikiTextGenerator.java:40 | `trim` gives the empty string exactly when every character is at most `' '`. |
| `Strings.TrimEnds` | src/main/java/org/hytalewiki/WikiTextGenerator.java:40 | Trimmed text is empty or starts and ends with a non-blank character. |
| `Sanitizer.TrimKeepsScrubbed` | src/main/java/org/hytalewiki/WikiTextGenerator.java:40 | Trimming keeps text printable. |
| `Sanitizer.SanitizedPrintable` | src/main/java/org/hytalewiki/WikiTextGenerator.java:30-40 | For printable text with no blank at either end, the scrub and the trim change nothing. |
| `Sanitizer.StripTemplates` | src/main/java/org/hytalewiki/WikiTextGenerator.java:43-44 | `replaceAll` of the lazy, line-crossing `{{…}}` pattern by nothing: at each index a template match is dropped whole, and otherwise the character is kept and the scan moves on by one. |
| `Sanitizer.StripTemplatesLeavesNone` | src/main/java/org/hytalewiki/WikiTextGenerator.java:43-44 | After template removal no `{{…}}` match is left, across line breaks included. |
| `Sanitizer.StripTemplatesIdentity` | src/main/java/org/hytalewiki/WikiTextGenerator.java:43-44 | Text without a template match is unchanged. |
| `Sanitizer.StripTemplatesIdempotent` | src/main/java/org/hytalewiki/WikiTextGenerator.java:43-44 | Removing templates twice is the same as removing them once. |
| `Sanitizer.StripTemplatesUntouched` | src/main/java/org/hytalewiki/WikiTextGenerator.java:43-44 | Text with no `}}` after its first two characters is unchanged. |
| `Sanitizer.StripTemplatesPlainPrefix` | src/main/java/org/hytalewiki/WikiTextGenerator.java:43-44 | Text before the first `{` passes through untouched. |
| `Sanitizer.WholeTemplate` | src/main/java/org/hytalewiki/WikiTextGenerator.java:16 | `{{x}}` with no `}` in `x` is removed completely, even when `x` spans lines. |
| `Sanitizer.TemplateThenRest` | src/main/java/org/hytalewiki/WikiTextGenerator.java:16 | `{{x}}` with no `}` in `x` is removed whatever follows it, and removal goes on right after its `}}`. |
| `Sanitizer.FinalTemplateRemoved` | src/main/java/org/hytalewiki/WikiTextGenerator.java:43-44 | A template that ends the text is removed, and what precedes it is kept. |
| `Sanitizer.TrimBeforeTemplates` | src/main/java/org/hytalewiki/WikiTextGenerator.java:40-44 | `trim` runs before templates are removed. So plain text followed by a final template sanitizes to exactly that text, blank lines before the template included. |
| `Sanitizer.HeaderLinks` | src/main/java/org/hytalewiki/WikiTextGenerator.java:46-47 | `replaceAll` of the header-link pattern by `$1 $2 $3`: at each index a match on one line is replaced by its `=` runs and its name, with the ` [[` and `]] ` around the name turned into single spaces; otherwise the character is kept. |
| `Sanitizer.HeaderLinkUnwrapped` | src/main/java/org/hytalewiki/WikiTextGenerator.java:46-47 | A header line `={n} [[x]] ={m}` becomes `={n} x ={m}`, with the greedy group reaching the last `]] =` of the line. The text after the line is rewritten in turn. |
| `Sanitizer.HeaderLinksPrefixUntouched` | src/main/java/org/hytalewiki/WikiTextGenerator.java:46-47 | Text before the first `=` is not touched by the header rewrite. |
| `Sanitizer.HeaderLinksLineSplit` | src/main/java/org/hytalewiki/WikiTextGenerator.java:46-47 | Text that is empty or ends with a line terminator is rewritten the same way whatever follows it, and what follows is rewritten on its own. |
| `Sanitizer.HeaderLineAfterLines` | src/main/java/org/hytalewiki/WikiTextGenerator.java:46-47 | A header line `={n} [[x]] ={m}` after any earlier lines is unwrapped; the lines before and after it are rewritten on their own. |
| `Sanitizer.MarkLinkPipes` | src/main/java/org/hytalewiki/WikiTextGenerator.java:52 | `replaceAll` of the lazy link pattern by `[[$1!!!!$2]]`: at each index a match on one line has its separating pipe replaced by the marker and the scan resumes after its `]]`; otherwise the character is kept. |
| `Sanitizer.ProtectPipes` | src/main/java/org/hytalewiki/WikiTextGenerator.java:49-54 | The three chained rewrites: links marked, every pipe deleted, every marker turned back into a pipe. |
| `Sanitizer.LinkMatchFound` | src/main/java/org/hytalewiki/WikiTextGenerator.java:14 | On a link of target `a` and text `b` within one line, with no pipe in `a` and no `]` in `b`, the lazy link pattern matches with groups `a` and `b`. |
| `Sanitizer.LinkRecognised` | src/main/java/org/hytalewiki/WikiTextGenerator.java:52 | A link's pipe is replaced by the marker `!!!!`, and the scan resumes after the link. |
| `Sanitizer.MarkOneLink` | src/main/java/org/hytalewiki/WikiTextGenerator.java:52 | In text holding one link, only that link's pipe is marked. |
| `Sanitizer.MarkLinkPipesLineSplit` | src/main/java/org/hytalewiki/WikiTextGenerator.java:52 | Text that is empty or ends with a line terminator is marked the same way whatever follows it, and what follows is marked on its own. |
| `Sanitizer.MarkNoPipe` | src/main/java/org/hytalewiki/WikiTextGenerator.java:52 | Text without a pipe is not changed by the marking, plain links included. |
| `Sanitizer.DeletePipes` | src/main/java/org/hytalewiki/WikiTextGenerator.java:53 | Replacing the pipe by nothing removes every pipe and nothing else. |
| `Sanitizer.MarkerRestored` | src/main/java/org/hytalewiki/WikiTextGenerator.java:54 | The marker inside a link turns back into the link's pipe, and nothing else changes. |
| `Sanitizer.PipesOutsideLinksDeleted` | src/main/java/org/hytalewiki/WikiTextGenerator.java:49-54 | In text with a single link and no `[` or `!` outside it, the pipes outside the link are deleted and the link keeps its own pipe. |
| `Sanitizer.ProtectPipesLink` | src/main/java/org/hytalewiki/WikiTextGenerator.java:49-54 | Before a link, text with no `[` or `!` only loses its pipes. The link is kept whole with its pipe, and whatever follows is rewritten on its own, so any number of links in a row keep their pipes. |
| `Sanitizer.ProtectPipesLineSplit` | src/main/java/org/hytalewiki/WikiTextGenerator.java:49-54 | The three pipe rewrites never reach past a line end: text that is empty or ends a line is rewritten the same way whatever follows it. |
| `Sanitizer.ProtectPipesNoPipe` | src/main/java/org/hytalewiki/WikiTextGenerator.java:49-54 | Text with no pipe and no `!` passes the pipe rewrites unchanged, plain links included. |
| `Sanitizer.ProtectPipesNoBracket` | src/main/java/org/hytalewiki/WikiTextGenerator.java:49-54 | Text with no `[` and no `!` holds no link, so the pipe rewrites delete each of its pipes and change nothing else. |
| `Sanitizer.LabelPipeDeleted` | src/main/java/org/hytalewiki/WikiTextGenerator.java:49-54 | A second pipe inside a link, after its separator, is deleted; the separator is kept. |
| `Sanitizer.StrayPipeTakenAsSeparator` | src/main/java/org/hytalewiki/WikiTextGenerator.java:14 | When a plain link `[[a]]`, a space, a stray pipe, a space and a labelled link `[[b` pipe `c]]` share a line, the lazy first group starts at the plain link and takes the stray pipe as the separator. The stray pipe is kept and the labelled link loses its own pipe, giving `[[bc]]`. |
| `Sanitizer.StrayPipeExample` | src/main/java/org/hytalewiki/WikiTextGenerator.java:49-54 | The smallest such line: `[[a]]`, stray pipe, `[[b` pipe `c]]` comes out with the stray pipe kept and `[[bc]]`. |
| `Sanitizer.MarkerInTextBecomesPipe` | src/main/java/org/hytalewiki/WikiTextGenerator.java:52-54 | A literal `!!!!` in the text is taken for the marker and comes out as a pipe. |
| `Sanitizer.StripCategories` | src/main/java/org/hytalewiki/WikiTextGenerator.java:56 | `replaceAll` of the greedy category pattern by nothing: at each index a match, which reaches the last `]]` of its line, is dropped; otherwise the character is kept. |
| `Sanitizer.CategoryPrefixUntouched` | src/main/java/org/hytalewiki/WikiTextGenerator.java:56 | Text in which no `[[Category:` starts passes through the category step untouched, whatever follows it. |
| `Sanitizer.CategoryMatchFound` | src/main/java/org/hytalewiki/WikiTextGenerator.java:56 | A category match starting a line runs, greedily, up to the last `]]` of that line. |
| `Sanitizer.CategoryLinkRemoved` | src/main/java/org/hytalewiki/WikiTextGenerator.java:56 | When no `[[Category:` starts in the text before it, a category link is removed, the line break after it stays, and the text before it is kept. |
| `Sanitizer.StripCategoriesLineSplit` | src/main/java/org/hytalewiki/WikiTextGenerator.java:56 | Text that is empty or ends with a line terminator is rewritten the same way whatever follows it, and what follows is rewritten on its own. |
| `Sanitizer.CategoryLineRemoved` | src/main/java/org/hytalewiki/WikiTextGenerator.java:56 | A category link on its own line, after any earlier lines, is removed up to its line break; the lines before and after it are rewritten on their own. |
| `Sanitizer.CapNewlines` | src/main/java/org/hytalewiki/WikiTextGenerator.java:58 | `replaceAll` of `\n{2,}` by two newlines: the result is empty exactly when the input is, and starts with the same character. |
| `Sanitizer.CapNewlinesNoTriple` | src/main/java/org/hytalewiki/WikiTextGenerator.java:58 | After capping, no three newlines are in a row. |
| `Sanitizer.CapNewlinesKeepsText` | src/main/java/org/hytalewiki/WikiTextGenerator.java:58 | Capping removes newlines and nothing else. |
| `Sanitizer.CapNewlinesIdentity` | src/main/java/org/hytalewiki/WikiTextGenerator.java:58 | Text without three newlines in a row is unchanged. |
| `Sanitizer.CapNewlinesRun` | src/main/java/org/hytalewiki/WikiTextGenerator.java:58 | A run of two or more newlines, with no newline touching it on either side, becomes exactly two newlines; the text on each side is capped on its own. |
| `Sanitizer.CapNewlinesSplit` | src/main/java/org/hytalewiki/WikiTextGenerator.java:58 | Text that does not end with a newline is capped the same way whatever follows it. |
| `Strings.CollapseSpaces` | src/main/java/org/hytalewiki/WikiTextGenerator.java:60 | The result has no two spaces in a row. It is empty exactly when the input is, and it starts with the same character. |
| `Strings.CollapseSpacesRun` | src/main/java/org/hytalewiki/WikiTextGenerator.java:60 | A run of one or more spaces, with no space touching it on either side, becomes exactly one space; the text on each side is collapsed on its own. |
| `Strings.CollapseSpacesSplit` | src/main/java/org/hytalewiki/WikiTextGenerator.java:60 | Text that does not end with a space is collapsed the same way whatever follows it. |
| `Strings.CollapseSpacesKeepsText` | src/main/java/org/hytalewiki/WikiTextGenerator.java:60 | Collapsing removes spaces and nothing else. |
| `Strings.CollapseSpacesIdempotent` | src/main/java/org/hytalewiki/WikiTextGenerator.java:60 | Text without a double space is unchanged. |
| `Sanitizer.CollapseKeepsNoTripleNewline` | src/main/java/org/hytalewiki/WikiTextGenerator.java:58-60 | Collapsing spaces does not bring back a run of three newlines. |
| `Strings.Replace` | src/main/java/org/hytalewiki/WikiTextGenerator.java:53-54 | `String.replace(CharSequence, CharSequence)`: left to right, each occurrence of the target is replaced and the scan resumes after it. |
| `Strings.ReplaceSplit` | src/main/java/org/hytalewiki/WikiTextGenerator.java:53-54 | Text whose last character is not in the target is rewritten the same way whatever follows it. |
| `Strings.ReplaceCharAt` | src/main/java/org/hytalewiki/WikiTextGenerator.java:62 | Replacing one character by another keeps the length and changes exactly the positions that held it. |
| `Strings.ReplaceCharGone` | src/main/java/org/hytalewiki/WikiTextGenerator.java:62 | After the replacement, none of the replaced character is left. |
| `Sanitizer.UnderscoreStep` | src/main/java/org/hytalewiki/WikiTextGenerator.java:62 | The last step leaves no underscore and keeps the newline cap. |
| `Sanitizer.UnderscoreAfterCollapse` | src/main/java/org/hytalewiki/WikiTextGenerator.java:60-62 | Underscores are replaced after spaces are collapsed, so `a _b` sanitizes to `a  b`, with two spaces. |
| `Sanitizer.Rewrite` | src/main/java/org/hytalewiki/WikiTextGenerator.java:43-62 | The eight rewrite steps after the trim, applied in the order of the source. |
| `Sanitizer.Sanitized` | src/main/java/org/hytalewiki/WikiTextGenerator.java:26-63 | The whole of `sanitize`: UTF-8 bytes scrubbed, trimmed, then rewritten. |
| `Sanitizer.RewriteKeepsScrubbed` | src/main/java/org/hytalewiki/WikiTextGenerator.java:43-62 | No rewrite step brings in a character outside printable ASCII and newline. |
| `Sanitizer.PlainTextRewrite` | src/main/java/org/hytalewiki/WikiTextGenerator.java:43-62 | Text with no `{`, `=`, `[`, `!` or pipe, and no three newlines in a row, is only space-collapsed and has its underscores replaced. |
| `Sanitizer.PlainRewriteKeeps` | src/main/java/org/hytalewiki/WikiTextGenerator.java:43-62 | Text with no markup character, no underscore, no double space and no three newlines is unchanged by the rewrite. |
| `Sanitizer.SanitizedShape` | src/main/java/org/hytalewiki/WikiTextGenerator.java:26-63 | For every input, the cleaned text has no underscore, no three newlines in a row, and only printable characters. Two spaces in a row occur only where one of them was an underscore before the last step. |
| `Sanitizer.DoubleSpaceFromUnderscore` | src/main/java/org/hytalewiki/WikiTextGenerator.java:60-62 | Replacing underscores in text with no double space keeps its length, and any two spaces in a row come from at least one underscore. |
| `Visitor.HytaleWikiVisitor.constructor` | src/main/java/org/hytalewiki/ast/HytaleWikiVisitor.java:28 | The counter starts at 0. |
| `Visitor.HytaleWikiVisitor.NextId` | src/main/java/org/hytalewiki/ast/HytaleWikiVisitor.java:30-32 | Returns the counter and advances it by one. |
| `Visitor.HytaleWikiVisitor.Reset` | src/main/java/org/hytalewiki/ast/HytaleWikiVisitor.java:34-36 | The counter is 0 again. |
| `Visitor.HytaleWikiVisitor.BuildLabel` | src/main/java/org/hytalewiki/ast/HytaleWikiVisitor.java:42-50 | The label has the content with space runs collapsed and id `text-<counter>`. The counter advances by one. |
| `Visitor.HytaleWikiVisitor.VisitText` | src/main/java/org/hytalewiki/ast/HytaleWikiVisitor.java:63-70 | Result and new counter are those of the lowering function. |
| `Visitor.HytaleWikiVisitor.VisitBold` | src/main/java/org/hytalewiki/ast/HytaleWikiVisitor.java:72-83 | Result and new counter are those of the lowering function. |
| `Visitor.HytaleWikiVisitor.VisitLineBreak` | src/main/java/org/hytalewiki/ast/HytaleWikiVisitor.java:105-108 | Result and new counter are those of the lowering function. |
| `Visitor.HytaleWikiVisitor.VisitSection` | src/main/java/org/hytalewiki/ast/HytaleWikiVisitor.java:110-125 | Result and new counter are those of the lowering function. |
| `Visitor.HytaleWikiVisitor.VisitChildren` | src/main/java/org/hytalewiki/ast/HytaleWikiVisitor.java:143-149 | Result and new counter are those of the lowering function. |
| `Visitor.HytaleWikiVisitor.Visit` | src/main/java/org/hytalewiki/ast/HytaleWikiVisitor.java:52-141 | Dispatches on the node kind; XML elements give nothing; the result and the new counter are those of the lowering function. |
| `Visitor.HytaleWikiVisitor.ComposeChildren` | src/main/java/org/hytalewiki/ast/HytaleWikiVisitor.java:151-197 | The merging loop leaves the result and counter of the lowering function's fold. Its invariant ties the loop's variables to the fold after the first `i` children. |
| `Lowering.Lower` | src/main/java/org/hytalewiki/ast/HytaleWikiVisitor.java:52-141 | The visit of one node as a function of the node and the counter: its result and the counter after it, which is never below the counter before. |
| `Lowering.ComposeState` | src/main/java/org/hytalewiki/ast/HytaleWikiVisitor.java:160-183 | The merging loop's state after the first `i` children, each child visited in turn with the counter its predecessor left. |
| `Lowering.Compose` | src/main/java/org/hytalewiki/ast/HytaleWikiVisitor.java:151-197 | `composeChildren`: one child gives its own result; otherwise the fold over all children, flushed, gives nothing when no child has content and the group otherwise. |
| `Lowering.TextLaw` | src/main/java/org/hytalewiki/ast/HytaleWikiVisitor.java:63-70 | Text gives nothing exactly when it is empty, and then no id is used. Otherwise it gives a `text-` label with the next id: no double space, the same text apart from spaces. |
| `Lowering.BoldTextOfTextChildren` | src/main/java/org/hytalewiki/ast/HytaleWikiVisitor.java:74-77 | Only the text children of a bold node contribute to its content. |
| `Lowering.BoldLaw` | src/main/java/org/hytalewiki/ast/HytaleWikiVisitor.java:72-83 | Bold ignores its non-text children. It gives nothing exactly when its joined text trims to empty. Otherwise it gives one `text-` label with that text. |
| `Lowering.BlankBoldVersusBlankText` | src/main/java/org/hytalewiki/ast/HytaleWikiVisitor.java:63-83 | A bold node whose text is nonempty but all blank gives nothing (it is trimmed). A text node with the same text gives a label, since the code only asks whether it is empty. |
| `Lowering.LineBreakIdIff` | src/main/java/org/hytalewiki/ast/HytaleWikiVisitor.java:168 | The `line-break` prefix test recognises exactly the line-break ids. |
| `Lowering.SectionTitleLaw` | src/main/java/org/hytalewiki/ast/HytaleWikiVisitor.java:110-125 | A titled section takes ids in order: the title label uses the second, and the group is `section-` with the third. The group starts with the title label (spaces collapsed). After the title no two labels are adjacent. It is empty exactly when no child has content. |
| `Lowering.SingleChildLaw` | src/main/java/org/hytalewiki/ast/HytaleWikiVisitor.java:152-154 | A section or container with one child gives that child's result; only the container's own ids are spent first. |
| `Lowering.LoneLineBreakKept` | src/main/java/org/hytalewiki/ast/HytaleWikiVisitor.java:152-154 | A container whose one child is a line break gives that line break's label. |
| `Lowering.NoChildrenLaw` | src/main/java/org/hytalewiki/ast/HytaleWikiVisitor.java:192-196 | A section or container without children gives nothing, after spending its own ids. |
| `Lowering.LineBreaksOnlyElided` | src/main/java/org/hytalewiki/ast/HytaleWikiVisitor.java:192-194 | Any number of children other than one, all of them line breaks, gives nothing. |
| `Lowering.TwoLineBreaksElided` | src/main/java/org/hytalewiki/ast/HytaleWikiVisitor.java:166-170 | Two line breaks alone give nothing. |
| `Lowering.BlankTextBesideLineBreak` | src/main/java/org/hytalewiki/ast/HytaleWikiVisitor.java:166-170 | A blank text next to a line break counts as content, so the container is kept. |
| `Lowering.TwoTextsState` | src/main/java/org/hytalewiki/ast/HytaleWikiVisitor.java:160-171 | After two texts, the loop holds both labels' texts waiting to be merged, and nothing is in the group yet. |
| `Lowering.MergeTwoTexts` | src/main/java/org/hytalewiki/ast/HytaleWikiVisitor.java:185-190 | Two adjacent texts come out as one group holding one merged label, whose id is taken after the two spent on the originals. |
| `Lowering.StepInv` | src/main/java/org/hytalewiki/ast/HytaleWikiVisitor.java:161-182 | One child's result keeps the loop invariant: no two labels in a row, groups kept in order, every label a merged `text-` one, the waiting texts those since the last group, the content flag exact. Ids aside, the group so far is the children's results up to the last group, each run of labels merged into one space-collapsed text. |
| `Lowering.ComposeStateShape` | src/main/java/org/hytalewiki/ast/HytaleWikiVisitor.java:160-183 | The loop invariant holds after any number of children. |
| `Lowering.ComposeResult` | src/main/java/org/hytalewiki/ast/HytaleWikiVisitor.java:151-197 | The merged group is absent exactly when no child has content. Otherwise it keeps its id and its initial children and gets at least one more. Read without ids, the new children are the children's results with each maximal run of labels merged into one text, its texts joined and its spaces collapsed, and every group in its place. No two labels are in a row, and every new label is a newly made `text-` label. |
| `Lowering.LowerIds` | src/main/java/org/hytalewiki/ast/HytaleWikiVisitor.java:30-32 | Every id number in a lowered tree lies between the counter before and the counter after, and no two are equal. |
| `Lowering.TitledSectionIds` | src/main/java/org/hytalewiki/ast/HytaleWikiVisitor.java:115-123 | The same holds for a titled section, title and section ids included. |
| `Lowering.ComposeIds` | src/main/java/org/hytalewiki/ast/HytaleWikiVisitor.java:151-197 | The same holds for a merged group, merged labels included. |
| `Client.PathBuilder.constructor` | src/main/java/org/hytalewiki/net/WikiClient.java:55-61 | A builder starts with the given path and no parameters. |
| `Client.PathBuilder.AppendPath` | src/main/java/org/hytalewiki/net/WikiClient.java:63-66 | The suffix is appended to the path; the parameters are unchanged. |
| `Client.PathBuilder.Param` | src/main/java/org/hytalewiki/net/WikiClient.java:68-71 | The key maps to the value, replacing any earlier value; the path is unchanged. |
| `Client.PathBuilder.BuildQuery` | src/main/java/org/hytalewiki/net/WikiClient.java:73-85 | The query is empty exactly when there are no parameters. Otherwise it is `?` and one `key=encoded value` per parameter, joined by `&`, in an order that lists each key exactly once. Whatever that order, when no key holds `&` or `=`, the query reads back as the parameters. |
| `Client.PathBuilder.ToString` | src/main/java/org/hytalewiki/net/WikiClient.java:91-94 | The path with spaces turned into `_`, keeping its length, followed by the query, which reads back as the parameters when no key holds `&` or `=`. |
| `Client.Query` | src/main/java/org/hytalewiki/net/WikiClient.java:73-85 | The query for a given iteration order: empty without parameters, otherwise `?` and the `key=encoded value` entries joined by `&`. |
| `Client.EntriesJoin` | src/main/java/org/hytalewiki/net/WikiClient.java:77-82 | The loop's text, minus its last `&`, is the entries joined by `&`. |
| `Client.QueryParses` | src/main/java/org/hytalewiki/net/WikiClient.java:73-85 | The query reads back as its parameters: empty exactly when there are none. Otherwise, cut at `&` and then at `=`, it gives each key with its encoded value, in the iteration order. |
| `Client.QueryReadsBack` | src/main/java/org/hytalewiki/net/WikiClient.java:73-85 | For any iteration order, the query cut at `&` has one piece per parameter, and every key is found in some piece with its encoded value. |
| `Client.SingleParamQuery` | src/test/java/org/hytalewiki/net/WikiClientTests.java:30-32 | One parameter gives `?key=encoded value`. |
| `Client.TwoParamsEitherOrder` | src/test/java/org/hytalewiki/net/WikiClientTests.java:39-43 | Two parameters give their two entries in one order or the other; the map decides which. |
| `Client.SpaceEncoded` | src/test/java/org/hytalewiki/net/WikiClientTests.java:30-32 | A space between characters the encoder keeps becomes `+` (`Iron Shovel` to `Iron+Shovel`). |
| `Client.UrlEncodeConcat` | src/main/java/org/hytalewiki/net/WikiClient.java:79 | URL encoding works character by character. |
| `UrlEncoding.UrlEncode` | src/main/java/org/hytalewiki/net/WikiClient.java:79 | `URLEncoder.encode` with UTF-8, character by character: letters, digits and `.-*_` kept, space to `+`, every other byte as `%XX`. |
| `UrlEncoding.UrlEncodeAlphabet` | src/main/java/org/hytalewiki/net/WikiClient.java:79 | Encoded text holds only letters, digits and `.-*_+%`: never a space, `&` or `=`. |
| `UrlEncoding.UrlEncodeKept` | src/main/java/org/hytalewiki/net/WikiClient.java:79 | Text made of letters, digits and `.-*_` is unchanged by encoding. |
| `UrlEncoding.UrlDecodeEncode` | src/main/java/org/hytalewiki/net/WikiClient.java:79 | Decoding the encoded text gives back exactly the UTF-8 bytes of the original. |
| `Client.WikiClient.constructor` | src/main/java/org/hytalewiki/net/WikiClient.java:33-41 | The client keeps the base URL. |
| `Client.WikiClient.GetPageUrl` | src/main/java/org/hytalewiki/net/WikiClient.java:138-140 | The base URL, `/w/`, then the term character by character with spaces turned into `_`. |
| `Client.WikiClient.BuildPath` | src/main/java/org/hytalewiki/net/WikiClient.java:148-150 | A new builder whose path is the base URL followed by the path, without parameters. |
| `Client.WikiClient.BuildRestPath` | src/main/java/org/hytalewiki/net/WikiClient.java:152-156 | A new builder whose path is the base URL, `/rest.php/v1`, then the path, without parameters. |
| `Client.WikiClient.GetEditPageUrl` | src/main/java/org/hytalewiki/net/WikiClient.java:142-146 | The whole path, base URL included, with spaces turned into `_`, then `?action=edit`. |
| `Client.EditPageUrl` | src/main/java/org/hytalewiki/net/WikiClient.java:142-146 | The whole path, base URL included, with spaces turned into `_`, then `?action=edit`. |
| `Client.EditPageUrlShape` | src/main/java/org/hytalewiki/net/WikiClient.java:142-146 | With a base URL free of spaces, the edit URL is the base URL, `/w/`, the key with `_` for spaces, then `?action=edit`; it holds no space. |
| `Command.EqualsIgnoreCaseLowered` | src/main/java/org/hytalewiki/WikiCommand.java:288 | Two titles are equal ignoring case exactly when their lower-cased forms are equal. |
| `Command.EqualsIgnoreCaseEquivalence` | src/main/java/org/hytalewiki/WikiCommand.java:288 | Equality ignoring case is reflexive, symmetric and transitive. |
| `Command.FindExactMatch` | src/main/java/org/hytalewiki/WikiCommand.java:284-294 | No result exactly when no entry's title matches the term. Otherwise the result is the first entry whose title matches. |
| `Command.StripQuotes` | src/main/java/org/hytalewiki/WikiCommand.java:139-141 | The argument with every `"` removed and every other character kept in order. |
| `Command.StripQuotesIdempotent` | src/main/java/org/hytalewiki/WikiCommand.java:199-201 | Stripping twice is stripping once, and an argument without quotes is unchanged. |

## Left out

- HTTP requests, JSON decoding, the `html`, `page`, `search` and `searchTitle` calls, `CompletableFuture` and the command plumbing are I/O or framework code.
- The plugin class is framework code too, and so are the UI page builders, `makeHeader` and the HyUI styles and layout modes that labels and groups carry. Only the ids, texts and children of the rendered elements are modelled.
- The wiki-text parser is code this model cannot see. `Generate` takes it as a function parameter; a parser that throws is not modelled.
- The base visitor of the parser library is not part of this model. Categories, wiki links, lists and every other node kind go through its default, modelled as the node kind `Generic`, which calls `visitChildren`.
- `toURI` (`URI.create`) is not modelled; `ToString` gives the text it would parse.
- `SearchEntry` and `SearchResult` are reduced to the key and title that `findExactMatch` reads. Their other fields are not used by the core.
- `Client.PathBuilder.BuildQuery`: the order of `HashMap` iteration is not specified by Java. The contract states only that some order listing every key once is used; that order is a ghost out-parameter. `Client.TwoParamsEitherOrder` therefore proves one of two orders, where the test at `src/test/java/org/hytalewiki/net/WikiClientTests.java:39` expects one particular order.
- `Command.FindExactMatch`: `equalsIgnoreCase` is modelled for ASCII letters only. Java also folds non-ASCII letters, which this model leaves out.
- `Visitor.HytaleWikiVisitor.NextId`: the counter is unbounded. The wrap-around of `AtomicInteger` after 2^31 ids is not modelled.
- Strings are sequences of Unicode scalar values. A Java `String` may also hold a lone surrogate, which `getBytes` and `URLEncoder` both encode as `?`; such strings are not modelled.
- The visitor's `GroupBuilder` and its list of children are modelled as a sequence value, not as a shared mutable object.
- `Sanitizer.ProtectPipesLink`: requires no `[` in the text before the link on its line. A plain link earlier on the same line makes the lazy first group start there, so a stray pipe between the two links is taken as the separator; `Sanitizer.StrayPipeTakenAsSeparator` proves what the code then does. Earlier lines do not matter, by `Sanitizer.ProtectPipesLineSplit`.
- `Sanitizer.PipesOutsideLinksDeleted`: requires no `[` outside the one link, for the same reason.
- The sample page in `src/test/java/org/hytalewiki/net/WikiTextGeneratorTests.java` is not restated as one concrete string, and its expected output is not derived in one lemma. Its behaviours follow from general lemmas, applied line by line where the step works by lines:
  - header links unwrapped after earlier lines (`Sanitizer.HeaderLineAfterLines`);
  - the header, link and category steps rewrite each line on its own (`Sanitizer.HeaderLinksLineSplit`, `Sanitizer.ProtectPipesLineSplit`, `Sanitizer.StripCategoriesLineSplit`);
  - on the paragraph of plain links nothing changes (`Sanitizer.ProtectPipesNoPipe`), and on the line with two labelled links each keeps its pipe, link after link (`Sanitizer.ProtectPipesLink`); the gallery lines, which hold no `[`, only lose their pipes (`Sanitizer.ProtectPipesNoBracket`);
  - each category line removed up to its line break (`Sanitizer.CategoryLineRemoved`);
  - a template at the end of a section removed, whatever follows it (`Sanitizer.TemplateThenRest`);
  - the line breaks left behind by removed templates and category lines capped at two (`Sanitizer.CapNewlinesRun`).
