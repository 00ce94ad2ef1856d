# WordPress export to Markdown: a Dafny model of the converter's core

The converter reads a WordPress export (WXR) file in the browser. It keeps
the items that are published posts (or drafts too, when the option asks for
them), turns each one into a Markdown file with an optional YAML front matter,
and packs the files into a Zip archive with one folder per category. This
project models the part of `main.js` that decides what goes into that archive:

- **Filtering the items** (`parseWordPressXml`). Every item is kept or skipped
  in document order. The post type is tested before the status. Each skip is
  counted once and tallied under the message of its own reason. A kept item
  becomes a post record with the source's fallbacks for title, slug and id.
- **Looking up a field** (`getElementText`). The exact tag name is tried
  first, then the local name after the last colon. The third attempt is the
  `wp:`-prefixed name for a name without a colon; a name with a colon is
  looked up again unchanged, which finds nothing new. Each name is tried
  only when the one before found no element. The text of the first element
  found is trimmed.
- **Categories and tags** (`extractCategories`, `extractTags`). `category`
  elements are filtered by their `domain` attribute, in order. A category's
  slug is its `nicename`, or else the sanitised name.
- **Slugs** (`sanitizeCategoryName`). The chain of rewrites always yields a
  non-empty slug of lower-case ASCII letters, digits, `_` and single inner
  hyphens. The chain is idempotent.
- **Dates, file names and YAML strings** (`formatDate`, `generateFilename`,
  `escapeYaml`).
- **The Markdown file** (`convertItemToMarkdown`). The front matter is
  accumulated line by line, then the converted body follows. The file name
  and the category folder are chosen here too.
- **The archive** (`buildZipFromPosts`). Each file is written under
  `<folder>/<filename>`, and a later post with the same path replaces an
  earlier one.

The DOM is replaced by plain values. An `item` arrives as its descendant
elements in document order, each with its qualified name and text content,
together with its `category` elements and their attributes. The JavaScript
string primitives the code relies on are modelled exactly where the result
depends on them:

- `trim`, and `\s`, use the full ECMAScript white-space set, including
  U+3000.
- `\d` is `[0-9]` and `\w` is `[A-Za-z0-9_]`: the regular expressions
  here are case-sensitive, and only a case-insensitive Unicode expression
  widens `\w`.
- `a || b` on strings picks `b` exactly when `a` is empty.

Loops that accumulate become methods with loop invariants. Each method is
proved equal to a specification function, and the properties are proved about
those functions:

- the filter loop, the two taxonomy loops and the front-matter loops;
- the archive loop, which updates a `Zip` object in place.

`escapeYaml` escapes double quotes only. A backslash in a title or a tag
passes through unchanged, and the model keeps that behaviour. The round-trip
lemmas read the text back by removing the backslashes the escaping inserted;
a YAML parser would read it differently.

Two behaviours of the code are easy to misread, and the model follows the
code in both:

- A field lookup stops at the first name for which an element is present,
  even when its text is empty. It does not go on to the next name. Only the
  `||` at the call site moves on to the second name.
- The `status` line is written only for a status that is non-empty and not
  `publish`.

## Model

| member | source | states |
|---|---|---|
| JsStrings.TrimIsInfix | wp-to-markdown-Converter/main.js:194 | `trim` removes exactly the leading and trailing ECMAScript white space: the result is a contiguous part of the input with no white space at either end |
| JsStrings.Or | wp-to-markdown-Converter/main.js:129 | `a \|\| b` on strings is `a` when `a` is non-empty and `b` when it is empty |
| JsStrings.NatToString | wp-to-markdown-Converter/main.js:151-152 | the index fallback renders as a non-empty string of decimal digits with no leading zero |
| JsStrings.NatToStringRoundTrip | wp-to-markdown-Converter/main.js:152 | the rendered index reads back as the same number, so distinct indices give distinct fallback ids |
| ElementText.FirstNamedFindsFirst | wp-to-markdown-Converter/main.js:180 | `getElementsByTagName(name)[0]` is the first element in document order with that name, and there is none exactly when no element has the name |
| ElementText.PlainTagIsLocalName | wp-to-markdown-Converter/main.js:184 | replacing an escaped colon and taking the last `:`-separated segment gives the local name after the last colon |
| ElementText.ChosenElementOrder | wp-to-markdown-Converter/main.js:178-195 | the element read is the first with the exact name, else the first with the local name, else (for a name without a colon) the first `wp:`-prefixed one; each fallback happens only when no element had the name before it, and nothing is found exactly when all tried names are absent |
| ElementText.GetElementTextExact | wp-to-markdown-Converter/main.js:180-194 | when an element has the exact name, the result is the trimmed text of the first such element, even when that text is empty |
| ElementText.GetElementTextFallbacks | wp-to-markdown-Converter/main.js:183-194 | without the exact name, the text comes from the first element with the local name; without either, and only for a name without a colon, from the first `wp:`-prefixed one |
| ElementText.GetElementTextAbsent | wp-to-markdown-Converter/main.js:194 | when no tried name is present the result is the empty string |
| Slug.ToLowerCaseShape | wp-to-markdown-Converter/main.js:247 | the lowered text has no upper-case ASCII letter and adds no character other than lower-case ASCII letters and the combining dot of a lowered dotted capital I |
| Slug.ToLowerCaseIdentity | wp-to-markdown-Converter/main.js:247 | text without ASCII capitals, Kelvin sign or dotted capital I is left unchanged |
| Slug.ToLowerCaseMapsEach | wp-to-markdown-Converter/main.js:247 | for text without a dotted capital I, lower-casing keeps the length and maps each position on its own: an ASCII capital to its small letter, the Kelvin sign to `k`, every other character to itself |
| Slug.ReplaceRunsKeepsChars | wp-to-markdown-Converter/main.js:248-251 | replacing runs of a character class empties nothing, turns a leading run into the replacement and keeps any other first character, and brings in no character but the replacement |
| Slug.ReplaceRunsLeavesNoRun | wp-to-markdown-Converter/main.js:248-251 | no member of the class is left, or, when the replacement belongs to the class, no two in a row |
| Slug.ReplaceRunsIdentity | wp-to-markdown-Converter/main.js:248-251 | text whose class characters are all the replacement, none next to another, is left unchanged |
| Slug.ReplaceRunsKeepsOthers | wp-to-markdown-Converter/main.js:248-251 | every character outside the class other than the replacement occurs as often in the result as in the input |
| Slug.ReplaceRunsCountsRuns | wp-to-markdown-Converter/main.js:248-251 | the replacement occurs once per maximal run of the class, plus the occurrences of it that were already there when it is outside the class |
| Slug.DeleteNonWordShape | wp-to-markdown-Converter/main.js:250 | after deletion only ASCII letters, digits, `_` and `-` remain, all taken from the input; text made of them only is unchanged |
| Slug.DeleteNonWordContents | wp-to-markdown-Converter/main.js:250 | every ASCII letter, digit, `_` and `-` occurs as often after deletion as before |
| Slug.TrimLeadingHyphens | wp-to-markdown-Converter/main.js:252 | the result is a suffix of the input that does not start with a hyphen, and the input itself when it did not |
| Slug.TrimLeadingHyphensDropsHyphens | wp-to-markdown-Converter/main.js:252 | the prefix the leading trim drops is hyphens only |
| Slug.TrimTrailingHyphens | wp-to-markdown-Converter/main.js:253 | the result is a prefix of the input that does not end with a hyphen, and the input itself when it did not |
| Slug.TrimTrailingHyphensDropsHyphens | wp-to-markdown-Converter/main.js:253 | the suffix the trailing trim drops is hyphens only |
| Slug.SanitizeIsSlug | wp-to-markdown-Converter/main.js:245-254 | every sanitised name is a non-empty slug: lower-case ASCII letters, digits, `_` and `-`, no hyphen at either end and no two hyphens in a row |
| Slug.SlugIsFixedPoint | wp-to-markdown-Converter/main.js:245-254 | sanitising a slug gives it back unchanged |
| Slug.SanitizeIdempotent | wp-to-markdown-Converter/main.js:245-254 | sanitising twice gives the same result as sanitising once |
| Slug.SanitizeKeepsWordChars | wp-to-markdown-Converter/main.js:245-254 | the lower-case ASCII letters, digits and underscores of the slug are exactly those of the lower-cased name, in the same order; when the lower-cased name has none, the result is `uncategorized` |
| Slug.WordsJoinedByHyphen | wp-to-markdown-Converter/main.js:247-254 | two words whose lower case is already a slug, separated by any non-empty white space, become the two lower-cased words joined by one hyphen |
| Slug.SanitizeExample | wp-to-markdown-Converter/main.js:245-254 | `Hello World` becomes `hello-world` |
| Slug.NameWithoutWordCharsIsUncategorized | wp-to-markdown-Converter/main.js:250-253 | a name with no ASCII letter, digit or underscore, such as a Japanese name (hyphens and spaces allowed), falls back to `uncategorized`, unless it holds a Kelvin sign or a dotted capital I, which lower-case into ASCII letters |
| Taxonomy.SlugOf | wp-to-markdown-Converter/main.js:213 | a non-empty `nicename` is the slug; an absent or empty one gives the sanitised name, which is a valid slug |
| Taxonomy.MakeCategory | wp-to-markdown-Converter/main.js:209-214 | a category is named by the trimmed text of its element and always has a non-empty slug |
| Taxonomy.ExtractCategories | wp-to-markdown-Converter/main.js:202-219 | the loop returns the categories of the elements whose domain is `category`, in document order |
| Taxonomy.ExtractTags | wp-to-markdown-Converter/main.js:226-238 | the loop returns the trimmed texts of the elements whose domain is `post_tag`, in document order |
| Taxonomy.CategoriesInDocumentOrder | wp-to-markdown-Converter/main.js:206-216 | the k-th category comes from the k-th element with domain `category`, and there is one category per such element |
| Taxonomy.TagsInDocumentOrder | wp-to-markdown-Converter/main.js:230-235 | the k-th tag is the trimmed text of the k-th element with domain `post_tag`, one tag per such element |
| Taxonomy.CategorySlugsNonEmpty | wp-to-markdown-Converter/main.js:213 | no extracted category has an empty slug, so no post is filed under an empty folder name |
| Parse.ReasonMessageRoundTrip | wp-to-markdown-Converter/main.js:132 | a tally key can be read back as the reason and the offending value it was made from |
| Parse.ReasonMessageInjective | wp-to-markdown-Converter/main.js:132-142 | distinct skip reasons are tallied under distinct keys |
| Parse.Verdict | wp-to-markdown-Converter/main.js:129-144 | an item is kept iff its post type is `post` and its status is `publish` or drafts are included; a wrong post type is the reason whatever the status, and only otherwise the status is |
| Parse.MakePost | wp-to-markdown-Converter/main.js:147-156 | a kept item's post takes its title, content, date, slug and id from the first non-empty lookup; an empty title becomes `Untitled`, an empty slug `post-<index>` and an empty id `<index>`, so none of the three is ever empty; it carries the status that was tested and the item's categories and tags |
| Parse.SkipStep | wp-to-markdown-Converter/main.js:130-143 | a skipped item adds no post, adds one to the skip count and adds one to the tally of its own reason |
| Parse.KeepStep | wp-to-markdown-Converter/main.js:146-158 | a kept item appends its post and changes neither the count nor the tally |
| Parse.ParseWordPressXml | wp-to-markdown-Converter/main.js:127-159 | the loop returns the kept posts, the skip count and the skip tally of all the items |
| Parse.PostsInDocumentOrder | wp-to-markdown-Converter/main.js:127-159 | the k-th post is built from the k-th kept item and its position, with one post per kept item |
| Parse.KeptPlusSkipped | wp-to-markdown-Converter/main.js:127-144 | the kept posts and the skipped items together number exactly the items |
| Parse.KeptPostsStatus | wp-to-markdown-Converter/main.js:138-144 | without drafts every kept post has status `publish` |
| Parse.TallyCountsReasons | wp-to-markdown-Converter/main.js:131-142 | the tally of a message is the number of items skipped with that message, and messages no item was skipped with are absent |
| Naming.FindDate | wp-to-markdown-Converter/main.js:382 | the regular expression match is the leftmost position holding `DDDD-DD-DD`, or there is none anywhere |
| Naming.FormatDateLeftmost | wp-to-markdown-Converter/main.js:378-388 | an empty date stays empty, a date with a match becomes its leftmost `DDDD-DD-DD` substring, and one without a match is returned unchanged |
| Naming.FormatDateIsInfix | wp-to-markdown-Converter/main.js:382-387 | the result is the input itself or a ten-character date taken from it |
| Naming.FormatDateIdempotent | wp-to-markdown-Converter/main.js:378-388 | normalising a normalised date changes nothing |
| Naming.FilenameShape | wp-to-markdown-Converter/main.js:396-410 | every file name ends in `.md` after a stem ending in the slug (or `untitled`); `date-slug` puts the normalised date and a hyphen first, `id-slug` the id and a hyphen, and any other rule the slug alone |
| Yaml.EscapeYaml | wp-to-markdown-Converter/main.js:369-371 | escaping lengthens the text by exactly the number of double quotes in it |
| Yaml.UnescapeEscapeYaml | wp-to-markdown-Converter/main.js:370 | removing the inserted backslashes gives the original text back |
| Yaml.EscapeYamlQuotesEscaped | wp-to-markdown-Converter/main.js:370 | every double quote of the escaped text is preceded by a backslash |
| Yaml.EscapeYamlStart | wp-to-markdown-Converter/main.js:370 | the escaped text never starts with a double quote |
| Yaml.EscapeYamlWithoutQuotes | wp-to-markdown-Converter/main.js:370 | text without double quotes is left as it is |
| Markdown.ConvertItemToMarkdown | wp-to-markdown-Converter/main.js:283-340 | the file is the front matter followed by the converted body (Turndown's, or the fallback's when Turndown throws), or the body alone without front matter; its name comes from the filename rule; its folder is the first category's slug or `uncategorized`; the post is carried along |
| Markdown.AppendLinesAppendsBlock | wp-to-markdown-Converter/main.js:309-311 | appending the list lines one by one appends the whole list block, one quoted line per value in order |
| Markdown.BlockAppended | wp-to-markdown-Converter/main.js:307-312 | a header line followed by its accumulated list lines is the header and the block appended to the text so far |
| Markdown.FrontMatterLayout | wp-to-markdown-Converter/main.js:294-322 | the front matter is the opening delimiter and the title, date, slug and id lines; then the status line only for a status that is non-empty and not `publish`; then the categories block only when there are categories and the tags block only when there are tags; then the closing delimiter and a blank line |
| Markdown.FrontMatterDelimited | wp-to-markdown-Converter/main.js:297-321 | the front matter starts with `---` and the title line and ends with `---` and a blank line |
| Markdown.TitleLineRecoversTitle | wp-to-markdown-Converter/main.js:298 | the title line is `title: "…"` and the title is recovered from the part between the quotes |
| Markdown.ListLineRecoversValue | wp-to-markdown-Converter/main.js:310 | each list line is `  - "…"` and its value is recovered from the part between the quotes |
| Archive.Zip.constructor | wp-to-markdown-Converter/main.js:418 | a new archive has no files |
| Archive.Zip.File | wp-to-markdown-Converter/main.js:423 | adding a file stores its content under its path and replaces any earlier content there, leaving other paths alone |
| Archive.BuildZipFromPosts | wp-to-markdown-Converter/main.js:421-424 | the loop leaves a fresh archive holding the posts' files, added in order |
| Archive.ArchivePaths | wp-to-markdown-Converter/main.js:421-424 | the archive has a file at a path iff some post has `<folder>/<filename>` equal to it |
| Archive.LastWriteWins | wp-to-markdown-Converter/main.js:421-424 | a post's path holds its content unless a later post has the same path |
| Archive.SamePathSameFolderAndName | wp-to-markdown-Converter/main.js:422 | for folders without a slash, two posts share a path only when they have the same folder and the same file name |

## Left out

- Reading the file (`readFileAsText`), the `DOMParser` parse and its `parsererror` check are not modelled. Their browser APIs have no counterpart here, so the model starts from the items already parsed.
- How `getElementsByTagName` matches qualified names against namespaces is not modelled. An element is found when its qualified name equals the looked-up name.
- The `category` elements are kept apart from the elements used by field lookups. No field the converter looks up is named `category`, so nothing changes.
- `textContent` is taken as given for each element. Concatenating descendant text nodes is DOM work.
- Turndown (`TurndownService.turndown`) is a function parameter. It returns no value when it throws, and its ATX-heading and fenced-code settings are not modelled. It is a third-party library.
- `simpleHtmlToMarkdown` is a function parameter and its regular expressions are not modelled. It only produces the body text and takes no part in any property proved here.
- Slug.ToLowerCaseMapsEach: stated for text without a dotted capital I, whose lower case is two characters long and shifts every later position.
- Slug.ToLowerCase: only ASCII letters, the Kelvin sign and the dotted capital I are lowered. Every other character keeps its case. The later deletion step removes every non-ASCII result anyway, so the slug is the same. The full Unicode case mapping is not modelled.
- The `post_id` fallback is a number in the source. Here it is the decimal text that the template literal and the file name render it as.
- Logging (`addLog`), the skip report at lines 161-167 and the reading of the options from the page (`getOptions`) are not modelled. They are presentation only.
- The folder entries JSZip's `file` records for each parent folder of a path (`<folder>/`, its `createFolders` option) are not modelled. `Zip.files` holds the file entries only, and these are the same either way.
- `generateAsync`, DEFLATE compression and the download are not modelled. They are JSZip and browser I/O. The model stops at the archive's files.
- The orchestration in the convert button's click handler and the file input handler are not modelled. They are event wiring around the functions above.
