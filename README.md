# ebook-translator, modelled in Dafny

`ebook-translator.py` translates an EPUB book, one text fragment at a time,
with a chat-completion service. This project models its core and proves
properties of it:

- `should_translate`: the classifier that decides whether a stripped text
  fragment is prose or page numbering, a short fragment or a roman-numeral
  heading (module `Classifier`);
- `translate_text`: the fail-open wrapper around the remote call. It returns
  the stripped reply on success and the input unchanged on failure (module
  `TranslationClient`);
- `process_item`: the rewrite of one XHTML document. It takes a snapshot of
  the text leaves and visits each leaf once, in document order. A qualifying
  leaf is replaced by the translation of its stripped text (module
  `DocumentRewriter`). The loop is a method over an `array` of leaves, proved
  against the function `Rewrite`;
- `translate_epub`: the loop over the archive items that rewrites and
  re-encodes every document item in place, and the output file name (module
  `ArchiveTranslator`). Items are objects of class `EpubItem`, whose
  `content` the loop reassigns. The loop is proved against the function
  `TranslateEntries` on the items' values.

Module `Text` holds the string operations the script takes from Python, written
out over `string`: `str.strip()`, `str.isdigit()`, `str.upper()` and
`os.path.basename`.

Some parts are abstract:

- The remote service is a function from (call ordinal, text, source language,
  target language) to `Success(content)` or `Failure`. The ordinal counts the
  calls made so far in the run, so a service may answer the same text
  differently on two calls.
- The HTML library is a `Markup` value made of three functions: parse a
  payload, render a tree back to text, and encode text as UTF-8. A parsed
  document is an opaque skeleton plus its text leaves in document order. Each
  leaf is a (string class, parent tag name, text) triple. The string class
  is `NavigableString` or one of its subclasses, such as `Comment` or
  `CData`. The model names some of these subclasses, not all of them.

`should_translate` rejects every fragment of three characters or fewer, and
its roman-numeral list stops at XX. Neither can be configured.

Two behaviours of the script are easy to miss; the model follows the code:

- A successful reply that is all whitespace replaces the leaf with the empty
  string. The fragment is not kept.
- The text search also returns comments and CDATA sections, and the loop
  does not tell them from plain text. A comment whose stripped text passes
  the classifier is translated and replaced by a plain string, so the
  rendered document shows the translation as visible text and the comment
  markers are gone. This happens even when the service fails.

## Model

| member | source | states |
|---|---|---|
| Text.IsSpace | ebook-translator.py:41 | definition: the characters Python's `str.isspace()` accepts, which `strip()` removes; characterised through `Text.StripIsInnerPart` |
| Text.Strip | ebook-translator.py:41 | `strip()` yields a string with no whitespace at either end, no longer than the input, and leaves a stripped string alone |
| Text.StripIsInnerPart | ebook-translator.py:41 | what `strip()` keeps is the slice between the leading and the trailing whitespace, and everything removed is whitespace |
| Text.StripEmptyIff | ebook-translator.py:41-42 | a text strips to the empty string exactly when it is all whitespace, so the emptiness test of line 42 rejects exactly the blank leaves |
| Text.StripIdempotent | ebook-translator.py:41 | stripping twice is stripping once |
| Text.IsDigits | ebook-translator.py:27 | definition: `isdigit()` on ASCII, a non-empty string of decimal digits; used by `Classifier.DigitsNotTranslated` and `Classifier.ShouldTranslateExactly` |
| Text.Upper | ebook-translator.py:29 | `upper()` keeps the length and upper-cases each character on its own |
| Text.UpperKeepsDigits | ebook-translator.py:27-29 | upper-casing preserves `isdigit()` in both directions |
| Text.Basename | ebook-translator.py:53 | the base name contains no `/` |
| Text.BasenameIsLastComponent | ebook-translator.py:53 | the base name is the suffix of the path after its last `/`, or the whole path when it has none |
| Text.BasenameAppend | ebook-translator.py:53 | appending text without `/` to a path extends its base name by that text |
| Text.ListedIsMembership | ebook-translator.py:29-39 | the front-to-back search of a Python list literal is membership |
| Classifier.ShouldTranslate | ebook-translator.py:26-32 | definition: `should_translate` with its three tests in the source's order; `Classifier.ShouldTranslateExactly` gives the independent if-and-only-if |
| Classifier.DigitsNotTranslated | ebook-translator.py:27-28 | a non-empty all-digit fragment is never translated |
| Classifier.ShortNotTranslated | ebook-translator.py:27-28 | a fragment of at most three characters, the empty one included, is never translated |
| Classifier.NumeralsNotTranslated | ebook-translator.py:29-31 | a fragment whose upper case is one of I..XX is never translated |
| Classifier.LongNumeralsOfList | ebook-translator.py:27-30 | the numerals of the list longer than three characters are exactly VIII, XIII, XVII and XVIII |
| Classifier.ShouldTranslateExactly | ebook-translator.py:26-32 | a fragment is translated if and only if it is not all digits, is longer than three characters, and its upper case is not VIII, XIII, XVII or XVIII; the rest of the list is dead |
| Classifier.ShouldTranslateIgnoresCase | ebook-translator.py:27-31 | upper-casing a fragment first does not change the verdict |
| Classifier.ProseExample | ebook-translator.py:26-32 | "Hello world" is translated |
| Classifier.NumberingExample | ebook-translator.py:27-31 | "3", "1234", "Hi" and "vii" are not translated |
| Classifier.LongNumeralExample | ebook-translator.py:29-31 | "xviii" and "XIII" are not translated, whatever their case |
| Classifier.NumeralBeyondListExample | ebook-translator.py:29-32 | "XXIV", a numeral beyond the list, counts as prose |
| TranslationClient.TranslateText | ebook-translator.py:7-24 | on failure the input comes back unchanged; on success the result is stripped and no longer than the reply; a stripped input always gives a stripped result |
| TranslationClient.SuccessIsStrippedReply | ebook-translator.py:19-21 | on success the result is the stripped reply, and it is empty exactly when the reply is all whitespace |
| TranslationClient.FailOpen | ebook-translator.py:22-24 | with a service that always fails, translating is the identity |
| DocumentRewriter.Qualifies | ebook-translator.py:39-42 | definition: the loop body's test, true when the parent is not excluded, the stripped text is not empty and the classifier accepts it; it ignores the kind of the leaf, as the `isinstance` test of line 37 accepts every string class |
| DocumentRewriter.Translated | ebook-translator.py:41-44 | a replacement leaf is a plain `NavigableString` under the same parent, and carries stripped text |
| DocumentRewriter.Requests | ebook-translator.py:42-43 | one text is sent per qualifying leaf |
| DocumentRewriter.Rewrite | ebook-translator.py:36-44 | the leaves after the loop, one per leaf of the snapshot; `DocumentRewriter.RewriteAt` states each leaf's outcome |
| DocumentRewriter.RewriteDocument | ebook-translator.py:34-45 | definition: the result of `process_item` on a payload (the rendering of the skeleton with the rewritten leaves) and the texts sent; `DocumentRewriter.ProcessItem` is proved equal to it |
| DocumentRewriter.RewriteLeaves | ebook-translator.py:36-44 | the in-place loop over the leaf array leaves the array equal to `Rewrite` of the old leaves, and returns the texts sent, which are `Requests` of the old leaves |
| DocumentRewriter.ProcessItem | ebook-translator.py:34-45 | `process_item` returns the rendering of the parsed skeleton with the rewritten leaves, and sends exactly `Requests` of the parsed leaves |
| DocumentRewriter.RewriteStep | ebook-translator.py:36-44 | visiting leaf `i` extends the rewrite of the leaves before it by that leaf's own outcome |
| DocumentRewriter.RequestsStep | ebook-translator.py:41-43 | visiting leaf `i` adds its stripped text to the requests when it qualifies, and nothing otherwise |
| DocumentRewriter.RewriteAt | ebook-translator.py:36-44 | a qualifying leaf becomes the translation of its stripped text, made with the call numbered after the qualifying leaves before it; any other leaf (excluded parent, blank, or rejected by the classifier) stays exactly as it was, whitespace included |
| DocumentRewriter.RewriteKeepsShape | ebook-translator.py:36-44 | the rewrite keeps the number of leaves and every leaf's parent; a qualifying leaf becomes a stripped plain string, whatever its kind was; every other leaf keeps its kind |
| DocumentRewriter.RequestOf | ebook-translator.py:36-43 | qualifying leaf `i` is sent once, as the next request after those of the qualifying leaves before it: the translator sees the snapshot's qualifying leaves in document order |
| DocumentRewriter.RequestsAreProse | ebook-translator.py:41-43 | every text sent is non-empty, stripped and accepted by the classifier |
| DocumentRewriter.RequestsAppend | ebook-translator.py:36-43 | the requests of a split document are the requests of its first part followed by those of its second |
| DocumentRewriter.RewriteAppend | ebook-translator.py:36-44 | the rewrite of a split document is the rewrite of its parts, with the second part's calls numbered after the first's |
| DocumentRewriter.FailOpenLeaves | ebook-translator.py:22-44 | the fail-open outcome keeps the number of leaves |
| DocumentRewriter.RewriteWhenServiceFails | ebook-translator.py:22-44 | with a service that always fails, each qualifying leaf becomes a plain string holding its own stripped text, and every other leaf is identical |
| DocumentRewriter.FailOpenKeepsDocument | ebook-translator.py:22-44 | with a service that always fails, a document whose qualifying leaves are already stripped plain strings comes out unchanged |
| DocumentRewriter.FailOpenIdempotent | ebook-translator.py:22-44 | with a service that always fails, rewriting the result again changes nothing |
| DocumentRewriter.PaddedWordStrips | ebook-translator.py:41 | "Hello " strips to "Hello" |
| DocumentRewriter.PaddedWordQualifies | ebook-translator.py:37-42 | a paragraph leaf "Hello " qualifies, whatever its string class |
| DocumentRewriter.WordTranslated | ebook-translator.py:26-32 | the classifier accepts "Hello" |
| DocumentRewriter.ParagraphNotExcluded | ebook-translator.py:39 | `p` is not an excluded parent |
| DocumentRewriter.WhitespaceLostExample | ebook-translator.py:41-44 | even with a failing service the leaf "Hello " is replaced by "Hello", losing the space that separated it from the next leaf |
| DocumentRewriter.CommentExposedExample | ebook-translator.py:36-44 | even with a failing service, a comment "Hello " in a paragraph is replaced by the plain string "Hello": the comment becomes visible text |
| ArchiveTranslator.EpubItem.constructor | ebook-translator.py:49 | a new item has the given name, type and content |
| ArchiveTranslator.EpubItem.Snapshot | ebook-translator.py:49-52 | representation helper, no behaviour of its own: an item's value, its current name, type and content, in whose terms the loop's new state is stated |
| ArchiveTranslator.Entries | ebook-translator.py:49 | representation helper, no behaviour of its own: the values of the items, one per item, in `get_items()` order |
| ArchiveTranslator.TranslateEntry | ebook-translator.py:50-52 | one loop step keeps the entry's name and type, and leaves a non-document entry untouched with no call made |
| ArchiveTranslator.Sweep | ebook-translator.py:49-52 | a left-to-right pass with the call count threaded through keeps the number of entries; `ArchiveTranslator.SweepAt` states each entry's outcome |
| ArchiveTranslator.TranslateEntries | ebook-translator.py:49-52 | the loop keeps the number of entries |
| ArchiveTranslator.TranslateEpub | ebook-translator.py:47-55 | afterwards the items hold `TranslateEntries` of their old values, the texts sent are the ones that loop sends, and the output path is `OutputPath(tgt, filePath)` |
| ArchiveTranslator.TranslateItems | ebook-translator.py:49-52 | the in-place loop over the items leaves each item holding its entry of the pass over the old values, and returns the texts that pass sends |
| ArchiveTranslator.TranslateItem | ebook-translator.py:50-52 | one loop iteration sets the item to the outcome of the loop step on its old value, and returns the texts that step sends |
| ArchiveTranslator.SweepAt | ebook-translator.py:49-52 | entry `i` after the loop is its own step's outcome, with its calls numbered after those of the entries before it |
| ArchiveTranslator.TranslateKeepsLayout | ebook-translator.py:49-52 | the loop keeps every entry's name and type and the order of entries, and an entry that is not a document is not touched |
| ArchiveTranslator.NoDocumentsNoCalls | ebook-translator.py:49-52 | a book without document entries is left exactly as it was, and the translator is never called |
| ArchiveTranslator.ArchiveWhenServiceFails | ebook-translator.py:22-52 | with a service that always fails, every document becomes the encoding of its rendering with each qualifying leaf turned into a plain string holding its stripped text, and every other entry is kept |
| ArchiveTranslator.SweepGathers | ebook-translator.py:49-52 | when what a step sends depends on the entry alone, the loop sends each entry's texts in archive order |
| ArchiveTranslator.SentTextsFixedByBook | ebook-translator.py:43-52 | what the run sends is the requests of its documents, in archive order, whatever the service replies |
| ArchiveTranslator.SentTextsAreProse | ebook-translator.py:41-52 | every text the run sends is non-empty, stripped and accepted by the classifier |
| ArchiveTranslator.OutputPath | ebook-translator.py:53 | definition: `"translated_" + tgt + "_"` followed by the input's base name; the lemmas below state its properties |
| ArchiveTranslator.BasenameOfPlainName | ebook-translator.py:53 | a name without `/` is its own base name |
| ArchiveTranslator.OutputPathEndsWithBasename | ebook-translator.py:53 | the output path ends with the input's base name |
| ArchiveTranslator.OutputPathIsPlainName | ebook-translator.py:53-54 | with a target language free of `/`, the output is a plain file name in the working directory, whatever directory the input came from |
| ArchiveTranslator.OutputPathDiffersFromInput | ebook-translator.py:53-54 | the output path never equals the input path, so the book is never overwritten |

## Left out

- The remote call itself is abstract: the model, prompt, `max_tokens` and `temperature` of the chat-completion request are not modelled (ebook-translator.py:10-18). A reply without content counts as `Failure`, like any exception.
- HTML parsing and serialisation (`BeautifulSoup`, `str(soup)`) are the abstract `parse` and `render` of `Markup`. Parsing is total; the model does not capture an exception the parser might raise.
- `render` is abstract, so the model records that a translated comment or CDATA section becomes a plain `NavigableString`, but not how the library prints it.
- Reading and writing the archive (`read_epub`, `write_epub`) and the UTF-8 codec are left out or abstract (`encode`). `TranslateEpub` returns the output path and does not write the book.
- `Text.Basename` follows POSIX `os.path.basename`, which splits at `/` only. On Windows, Python also splits at `\` and after a drive letter such as `C:`. The output-path lemmas (`OutputPathEndsWithBasename`, `OutputPathIsPlainName`, `OutputPathDiffersFromInput`) hold for the POSIX form only.
- The log lines (`print`) and `main` (the API-key check and the interactive prompts) are left out.
- `Text.IsDigits` and `Text.Upper` cover ASCII only: Python's Unicode digits and case mappings (for example `'²'.isdigit()` or `'ß'.upper()`) are not modelled. `Text.IsSpace` lists the characters Python's `str.isspace()` accepts.
- `TranslateEpub` requires the items to be distinct objects, as the archive's manifest lists each item once. Aliased items are not modelled.
- `DocumentRewriter.RewriteLeaves` tests the three conditions of the loop body (parent not excluded, stripped text not empty, classifier accepts) as one predicate, `Qualifies`. That predicate has the same outcome as the two nested tests.
