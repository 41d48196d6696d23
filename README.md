# cardcutter card pipeline, modelled in Dafny

cardcutter is a browser extension for debate evidence. The user selects text
on a page and picks "Cut card". The background script injects a function into
the page. That function reads the selection and the page metadata: `<meta>`
tags, JSON-LD scripts, the title and the location. The result goes into a
draft slot. The popup opens a draft card from that slot. It derives an author
line and an MLA web citation from the metadata. It splits the evidence into
sentences, and the user ticks the ones to highlight. The popup previews the
card as Markdown and HTML and saves it to the card list. The library page
lists the saved cards newest first. It can search them, copy one card, export
all cards, delete one card, clear the library, or send a card back to the
popup.

The model covers that pipeline with the browser removed:

- `sentences.dfy`: the sentence splitter `/[^.!?]+[.!?]+(\s|$)/g || [txt]`, written as the left-to-right scan a global regular-expression match performs.
- `citation.dfy`: `toAuthorLine` and `toMLAWeb`. The current year, today's date and the date formatter are parameters.
- `render.dfy`: one card renderer. The popup's `generateMarkdown`/`generateHTML` and the library's `copyCard`/`exportAllCards` all call it.
- `popup.dfy`: the popup's `state` as the class `Draft`. Its methods are `init`, the input and checkbox handlers, and `save`.
- `library.dfy`: the library page's `allCards`/`filteredCards` as the class `Page`. Loading, filtering, deleting and clearing are its methods. Copy, export and edit are functions of the card list.
- `metadata.dfy`: the injected capture function. The page is a value. The JSON-LD scan is a loop with `break`. The fallback chains are JavaScript `||` chains.
- `cards.dfy`: the card record and the stored card list (`Store`).
- `text.dfy` and `seqs.dfy`: the JavaScript string and array built-ins the code relies on: `trim`, `includes`, `split`, `join`, `filter`, `Array.from(new Set(…))` and the stable `sort`.
- `scenarios.dfy`: worked inputs.

Some behaviours of the code are easy to miss, and the model keeps them:

- Joining the sentence pieces does not give back the text. `a.b. ` splits to `["b. "]` (`Scenarios.LeadingFragmentDropped`).
- Text without `.`, `!` or `?` comes back untrimmed (`Scenarios.NoTerminatorsUntrimmed`).
- The citation of an empty source prints `undefined` for the title, site and URL. The author and date segments fall back to `N.p.` and `n.d.` (`Citation.Show`, `Citation.MlaWeb`).
- `highlights` is an array, not a set. Checking a box keeps only the first occurrence of each index. Only membership affects rendering (`Render.HighlightsActAsSet`).
- Editing a card sends back only its evidence text and source. Saving afterwards appends a new card (`Library.EditPayload`).

## Model

| member | source | states |
|---|---|---|
| Text.TrimStart | popup.js:134 | the result is a suffix of the input, everything cut off is whitespace, and it does not start with whitespace |
| Text.TrimEnd | popup.js:134 | the result is a prefix of the input, everything cut off is whitespace, and it does not end with whitespace |
| Text.Trim | popup.js:134 | `trim`: the result is the input minus a whitespace prefix and a whitespace suffix. It neither starts nor ends with whitespace. |
| Text.TrimKeepsTrimmed | popup.js:134 | text that neither starts nor ends with whitespace is unchanged by `trim` |
| Text.TrimDropsTrailing | popup.js:134 | `trim` removes the whitespace character after a sentence that already has none at its ends |
| Text.ToLower | options.js:17-21 | `toLowerCase`: the same length, no upper-case ASCII letter left, each upper-case ASCII letter replaced by its lower-case partner and every other character kept |
| Text.Contains | options.js:18-21 | `includes`: true exactly when the term occurs at some position of the string |
| Text.Prefix | popup.js:18 | `slice(0, n)`: a prefix of the string, `n` long or all of it when shorter |
| Text.Split | popup.js:19 | `split` with a one-character separator: at least one piece, and no piece holds the separator |
| Text.Join | popup.js:134 | `join`: the pieces with the separator between neighbours. Its properties are stated by `JoinEnds`, `JoinAppend` and `SplitJoin`. |
| Text.JoinEnds | popup.js:134 | a joined list starts with its first piece and ends with its last |
| Text.SplitJoin | popup.js:19 | `split(' ')`: joining the pieces back with the separator gives the original string |
| Text.SplitLast | popup.js:19 | the last piece of `split` is a separator-free suffix. It is preceded by the separator, or it is the whole string. |
| Text.JoinAppend | options.js:191 | `join`: joining one more piece appends the separator and that piece |
| Seqs.Filter | options.js:129 | `filter`: a subsequence of the input whose members are exactly the accepted elements of the input |
| Seqs.FilterCounts | options.js:129 | `filter` keeps every accepted element as often as it occurs in the input and drops every other one entirely |
| Seqs.FilterDropsOne | popup.js:80 | filtering out one rejected element that sits between accepted ones leaves exactly the others, in order |
| Seqs.FilterKeepsAll | options.js:17-22 | a filter whose predicate accepts every element returns the list unchanged |
| Seqs.FilterNoDuplicates | popup.js:80 | filtering a list without duplicates leaves no duplicates |
| Seqs.Dedup | popup.js:79 | `Array.from(new Set(s))`: no duplicates, the same members, and an input without duplicates is returned as is |
| Seqs.DedupPrefix | popup.js:79 | the elements keep the order of their first occurrence: deduplicating any prefix of the input gives a prefix of the result |
| Seqs.InsertDesc | options.js:11 | inserting adds exactly one occurrence of the element and changes nothing else in the multiset |
| Seqs.InsertDescSorted | options.js:11 | inserting into a list in descending key order keeps it in descending order |
| Seqs.SortDesc | options.js:11 | `sort` with a descending numeric comparator: a permutation, sorted largest key first |
| Seqs.InsertDescStable | options.js:11 | insertion keeps equal-key elements in order |
| Seqs.SortDescStable | options.js:11 | the sort is stable: elements with equal keys keep their input order |
| Sentences.NonTerminatorRunEnd | popup.js:15 | `[^.!?]+` takes the longest terminator-free run |
| Sentences.TerminatorRunEnd | popup.js:15 | `[.!?]+` takes the longest terminator run |
| Sentences.MatchAt | popup.js:15 | an anchored attempt that succeeds ends after its start and within the text |
| Sentences.MatchAtIff | popup.js:15 | the attempt at `i` ends at `e` if and only if `s[i..e]` matches the pattern: non-terminators, terminators, then one whitespace character or the end of the text |
| Sentences.Scan | popup.js:15 | the global match: every span is a match at its start, and the spans are in order and disjoint |
| Sentences.ScanSkipsOnlyFailures | popup.js:15 | the scan passes over only positions where the pattern fails |
| Sentences.SentenceSplit | popup.js:14-15 | never empty. It is the matched pieces, or exactly `[txt]` when nothing matches. |
| Sentences.MatchIsSentence | popup.js:15 | a matched piece has at least one non-terminator, then terminators, then optionally one whitespace character |
| Sentences.SplitPieces | popup.js:14-15 | each piece is the substring at its span and a whole sentence. The spans are in input order and do not overlap. |
| Sentences.SplitIsLeftmost | popup.js:15 | every match of the pattern starts inside a chosen piece, so no sentence is missed |
| Sentences.ScanWithoutTerminators | popup.js:15 | text with no terminator yields no match |
| Sentences.SplitWithoutTerminators | popup.js:15 | text with no terminator splits to itself, untrimmed |
| Citation.Year | popup.js:18 | the first four characters of a non-empty date (all of it when shorter), else the current year |
| Citation.Surname | popup.js:19 | the surname is always one non-empty word without spaces |
| Citation.AuthorLine | popup.js:17-21 | exactly `<surname> in <year> writes,`: the line starts with the surname and ` in `, ends with ` in <year> writes,`, and its length leaves nothing between them. The year is the first four characters of a non-empty date (all of it when shorter), and the current year without a date. |
| Citation.SurnameIsLastWord | popup.js:19 | the surname is the non-empty word after the last space. A missing author, an empty one, or one ending in a space gives `Author`. |
| Citation.SurnameAfterLastSpace | popup.js:19 | an author ending in a space and then a space-free non-empty word has that word as surname, whatever precedes it |
| Citation.MlaWeb | popup.js:23-33 | starts with `<name>. "<title>." <site>, `, where the name is the author or `N.p.` without one, and a missing title or site prints `undefined`. So it starts with `N.p.. "` without an author and with `<author>. "` with one. It ends with `<date>, <url>. Accessed <today>.`, and its length leaves nothing between the two parts. The date segment is `n.d.` without a date. |
| Render.FormatNamed | options.js:89 | `'markdown'` selects Markdown. Anything else selects HTML. |
| Render.Mark | popup.js:134 | the emphasised form `**__t__**` (HTML `<b><u>t</u></b>`) is produced if and only if the sentence is highlighted. Otherwise the piece is `t` (HTML: `t` in the 8pt span). |
| Render.MarkAll | popup.js:133-134 | one piece per sentence. Piece `i` is `**__trim(s_i)__**` (HTML `<b><u>…</u></b>`) if and only if `i` is highlighted. Otherwise it is `trim(s_i)` (HTML: the 8pt span). |
| Render.EvidenceText | popup.js:133-134 | the evidence paragraph: the marked pieces of `MarkAll` joined by single spaces. Its properties are stated by `MarkAll` and `HighlightsActAsSet`. |
| Render.HighlightsActAsSet | popup.js:133-134 | order, repeats and out-of-range indices in `highlights` do not change the evidence |
| Render.RenderCard | popup.js:132-156 | the Markdown card is the five blocks, claim to impact, joined by blank lines, with the fields verbatim. The HTML card is the same five blocks as `<p>` paragraphs, one per line. |
| Render.CardBlock | options.js:156-191 | one card of the export: the Markdown card followed by a blank line and `---`, or the HTML card inside `<div class="card">`. Its properties are stated by `ExportOne` and `ExportAllAppend`. |
| Render.ExportAll | options.js:150-195 | the export is nothing if and only if there are no cards. Otherwise the Markdown export starts with the `# Card Library Export` heading, and the HTML export starts with the document head and ends with `</body></html>`. The cards' blocks are fixed by `ExportOne` and `ExportAllAppend`. |
| Render.ExportAppend | options.js:156-191 | the joined card blocks of one more card are the earlier joined blocks, a blank line and that card's block |
| Render.ExportAllAppend | options.js:150-195 | exporting one more card: the Markdown export gains a blank line and that card's block at its end, and the HTML export gains them just before its closing `</body></html>`. The rest stays as it was. With `ExportOne` this fixes every export. |
| Render.ExportOne | options.js:193-195 | a one-card export is the heading, then the card, then `---` (Markdown), or the card in a `<div class="card">` inside the HTML wrapper |
| Cards.Store.constructor | popup.js:101 | a missing card list reads as empty |
| Popup.SetHighlight | popup.js:79-80 | checking yields no duplicates and adds exactly `i`. Unchecking removes every `i` and keeps every other index in order, with the same multiplicity. Either way a list without duplicates stays without duplicates. |
| Popup.CheckAppends | popup.js:79 | on a duplicate-free list, checking appends `i` if absent and otherwise changes nothing |
| Popup.CheckThenUncheck | popup.js:79-80 | checking, then unchecking, an index that was not highlighted restores the list |
| Popup.FilterAppendDropped | popup.js:80 | unchecking removes an index appended at the end |
| Popup.UncheckRemovesOnly | popup.js:80 | unchecking an index that occurs once removes it and keeps every other index in order |
| Popup.Draft.constructor | popup.js:3-12 | the initial state: every field empty and the source `{}`. The highlights hold no duplicates (`Valid`). |
| Popup.Draft.Init | popup.js:183-190 | the evidence is the payload's text, the source is its metadata, and the author line and citation are derived from it. With no payload, the evidence is empty and the source is `{}`. Nothing else changes, so the highlights stay without duplicates. |
| Popup.Draft.OnClaimInput | popup.js:56-59 | the claim becomes the input's value |
| Popup.Draft.OnAuthorLineInput | popup.js:61-64 | the author line becomes the input's value |
| Popup.Draft.OnMlaInput | popup.js:66-69 | the citation becomes the input's value |
| Popup.Draft.OnImpactInput | popup.js:71-74 | the impact becomes the input's value |
| Popup.Draft.OnCheckboxChange | popup.js:76-83 | the highlights become the toggled list. They hold no duplicates after checking, and stay without duplicates after unchecking. |
| Popup.Draft.GenerateMarkdown | popup.js:132-144 | the Markdown preview is the draft's five blocks, from the claim line to the impact line, joined by blank lines |
| Popup.Draft.GenerateHtml | popup.js:146-156 | the HTML preview is the same five blocks as `<p>` paragraphs, one per line |
| Popup.Draft.NewCard | popup.js:86-100 | the saved card renders exactly as the draft's previews do. It carries the given id and instant, the draft's source, and no topic tags. |
| Popup.Draft.Save | popup.js:85-103 | exactly one card, built from the draft, is appended after the existing cards, which are unchanged |
| Library.NewestFirst | options.js:11 | `loadCards`' sort: a permutation with the newest card first |
| Library.NewestFirstStable | options.js:11 | cards created at the same instant keep their stored order |
| Library.Matches | options.js:17-22 | every card matches the empty term |
| Library.Search | options.js:15-22 | a subsequence of the cards. A card is kept if and only if the lower-cased term occurs in its lower-cased claim, citation, source title or source author. A kept card appears as often as in the input. |
| Library.ContainsEmpty | options.js:18 | every string includes the empty string |
| Library.EmptySearchShowsAll | options.js:16-22 | an empty search keeps every card, in order |
| Library.FindCard | options.js:82 | `find`: nothing if and only if no card has the id, otherwise the first card with it |
| Library.FindAppended | options.js:82 | a card appended under a fresh id is the one found, in the stored order and after sorting newest first |
| Library.CopyCard | options.js:81-115 | no output if and only if no card has the id; otherwise the first card with the id, rendered by `RenderCard` in the named format |
| Library.MissingHighlightsArePlain | options.js:86 | a card stored without highlights is rendered with every sentence plain |
| Library.SavedCardCopiesAsPreviewed | options.js:81-115 | a card saved from the popup under a fresh id is copied exactly as the popup previewed it, in Markdown and in HTML. This holds in the stored list, where the save appended it, and in the page's newest-first list. |
| Library.ExportAllCards | options.js:150-195 | the export is nothing if and only if the library is empty |
| Library.ExportAllCardsAppend | options.js:150-195 | exporting one more card puts its block after a blank line at the end of the Markdown export, or just before `</body></html>` in the HTML export |
| Library.ExportOneIsCopy | options.js:156-195 | the export of a one-card library is that card's copy output in the export frame |
| Library.EditPayload | options.js:135-148 | nothing if and only if no card has the id, otherwise the first such card's evidence text and source |
| Library.WithoutId | options.js:129 | every card with the id is removed. Every other card stays, in order, with its multiplicity. |
| Library.DeleteAbsent | options.js:129 | deleting an id no card has changes nothing |
| Library.Page.constructor | options.js:6-7 | both lists start empty |
| Library.Page.FilterCards | options.js:15-22 | the visible cards become the search result over all cards |
| Library.Page.LoadCards | options.js:9-13 | all cards become the stored cards newest first, and the visible ones are filtered from them |
| Library.Page.DeleteCard | options.js:126-131 | when confirmed, the cards with the id are removed, the rest is stored and refiltered. Otherwise nothing changes. |
| Library.Page.ClearAllCards | options.js:206-211 | when confirmed, the store and both lists are empty. Otherwise nothing changes. |
| Metadata.MetaTag | background.js:18-20 | the `name` tag's content if non-empty, else the `property` tag's, else `""` |
| Metadata.FindArticle | background.js:27 | `find` stops at the first element it does not pass over. It yields that element exactly when its `@type` names an article (a string containing `Article`, an array holding it), and throws exactly when that element is `null` or has a non-callable `includes`. It yields nothing if and only if every element is passed over. |
| Metadata.Accept | background.js:26-28 | a script that does not parse contributes nothing. A non-array script contributes its own fields exactly when it is an object with a truthy `datePublished`, `author` or `headline`. An array script contributes the fields of the element `find` yields, under the same condition, and nothing when `find` throws or yields nothing. |
| Metadata.FirstAccepted | background.js:23-30 | the JSON-LD is `{}` exactly when no script contributes; otherwise it is the contribution of a script before which no script contributes |
| Metadata.FirstAcceptedIsFirst | background.js:23-30 | the first contributing script wins, whatever scripts follow it |
| Metadata.NoneAccepted | background.js:23 | when no script contributes, the JSON-LD is `{}` |
| Metadata.UnparseableIgnored | background.js:25-29 | dropping every unparseable script leaves the result unchanged |
| Metadata.ScanJsonLd | background.js:23-30 | the loop with `break` computes the first contribution |
| Metadata.JsonLdAuthor | background.js:34 | the JSON-LD author's truthy `name`, else the author itself |
| Metadata.Or | background.js:32-35 | `a \|\| … \|\| z`: the first truthy value, or the last value when none is truthy |
| Metadata.Resolve | background.js:37-40 | the returned text is the selection and the URL is `location.href` |
| Metadata.CaptureAsWritten | background.js:15-41 | the injected function returns the resolved record |
| Metadata.TitlePrecedence | background.js:32 | headline, else a non-empty `og:title`, else the document title |
| Metadata.TitleChainPicks | background.js:32 | the title chain yields the truthy headline, else the non-empty `og:title`, else the document title |
| Metadata.SitePrecedence | background.js:33 | a non-empty `og:site_name`, else the host name |
| Metadata.AuthorPrecedence | background.js:34 | the JSON-LD author's truthy `name`, else that author, else the author meta tag, else `""` |
| Metadata.AuthorChainPicks | background.js:34 | the author chain yields the truthy `name`, else the truthy author, else the non-empty meta tag, else `""` |
| Metadata.DatePrecedence | background.js:35 | the JSON-LD `datePublished`, else `article:published_time`, else `""` |
| Metadata.DateChainPicks | background.js:35 | the date chain yields the truthy `datePublished`, else the non-empty meta tag, else `""` |
| Metadata.NoJsonLdFallsBack | background.js:32-35 | with no JSON-LD, every field comes from the meta tags and the document |
| Metadata.AsText | background.js:34 | only string values are kept as text |
| Metadata.ResolveText | background.js:32-40 | every field is a string, and the URL is `location.href` |
| Metadata.TextTitlePrecedence | background.js:32 | the text title is the JSON-LD headline when it is a non-empty string, else a non-empty `og:title`, else the document title. A headline of another type is passed over. |
| Metadata.TextTitleChainPicks | background.js:32 | the text title chain picks exactly that value |
| Metadata.TextAuthorPrecedence | background.js:34 | the text author is the JSON-LD author's `name` when it is a non-empty string, else the author when it is a non-empty string, else a non-empty author meta tag, else `""`. An array, an object without a string name or a number is passed over. |
| Metadata.TextAuthorChainPicks | background.js:34 | the text author chain picks exactly that value |
| Metadata.TextDatePrecedence | background.js:35 | the text date is the JSON-LD `datePublished` when it is a non-empty string, else a non-empty `article:published_time`, else `""` |
| Metadata.TextDateChainPicks | background.js:35 | the text date chain picks exactly that value |
| Metadata.TitleAgrees | background.js:32 | where the original title is a string, the text capture gives the same title |
| Metadata.TitleChainsAgree | background.js:32 | whenever the original title chain picks a string, the text chain picks the same value |
| Metadata.SiteAgrees | background.js:33 | the site is the same string in both captures |
| Metadata.AuthorAgrees | background.js:34 | where the original author is a string, the text capture gives the same author |
| Metadata.AuthorChainsAgree | background.js:34 | whenever the original author chain picks a string, the text chain picks the same value |
| Metadata.DateAgrees | background.js:35 | where the original date is a string, the text capture gives the same date |
| Metadata.DateChainsAgree | background.js:35 | whenever the original date chain picks a string, the text chain picks the same value |
| Metadata.AuthorListAccepted | background.js:23-30 | the example page's article script is the JSON-LD the capture uses |
| Metadata.AuthorListChains | background.js:34 | on the example page the author chain as written yields the author array, and the text author chain yields the empty string |
| Metadata.AuthorListPassesThrough | background.js:34 | an author array in JSON-LD comes out of the original capture as that same array. The text capture gives `""` instead. |
| Metadata.CapturePayload | background.js:37-44 | the draft slot receives the selection and the text capture of the metadata, with the page URL |
| Scenarios.SplitTwoSentences | popup.js:14-15 | `Sentence one. Sentence two.` splits into `Sentence one. ` and `Sentence two.` |
| Scenarios.MarkFirstOfTwo | popup.js:133-134 | with sentence 0 highlighted, of two sentences the first is emphasised and trimmed, the second trimmed and plain |
| Scenarios.HighlightFirstSentence | popup.js:133-134 | highlighting sentence 0 renders `**__Sentence one.__** Sentence two.` |
| Scenarios.LeadingFragmentDropped | popup.js:15 | `a.b. ` splits to `["b. "]` |
| Scenarios.GluedMatches | popup.js:15 | on `a.b. ` the pattern fails at 0 and 1 and matches `b. ` at 2 |
| Scenarios.NoTerminatorsUntrimmed | popup.js:15 | unpunctuated text comes back whole, with its spaces |
| Scenarios.AuthorLineOfFullName | popup.js:17-21 | `John Smith` with date `2021-03-15` gives `Smith in 2021 writes,`, whatever the current year |
| Scenarios.MlaWebOfFullSource | popup.js:32 | a source by John Smith titled `T` on site `S` is cited starting `John Smith. "T." S, ` |
| Scenarios.AuthorLineFallback | popup.js:17-21 | with no author and no date: `Author in <current year> writes,` |
| Scenarios.CheckAppendsLast | popup.js:79 | checking 1 on `[0, 2]` gives `[0, 2, 1]` |
| Scenarios.UncheckRemoves | popup.js:80 | unchecking 2 on `[0, 2, 1]` gives `[0, 1]` |

## Left out

- Browser I/O is not modelled: `chrome.storage` (local and session), context menus, `scripting.executeScript` and `action.openPopup`. The stored card list is the `Store` object. The draft slot is the `Payload` passed to `Draft.Init`.
- The clock, the locale and randomness are parameters: `new Date`, `getFullYear`, `toLocaleDateString` and `crypto.randomUUID`. The current year, today's date, the date formatter, the new card's id and its creation instant are passed in.
- `createdAt` is stored as an ISO string and compared through `new Date`. Here it is the integer instant. A timestamp that does not parse (a `NaN` comparison) is not modelled.
- `JSON.parse` is not modelled. Scripts arrive parsed, or as nothing when parsing fails. `document.querySelector` is also not modelled. The page's meta tags are maps holding the content of the first tag with each name or property. Selector injection through names containing quotes is not modelled.
- The UI is not modelled: the clipboard, notifications, copy and save feedback, tab switching, the DOM built by `render`/`renderCards`, `updateStats` and `updatePreview`. The `confirm` dialog is the `confirmed` parameter.
- `escapeHtml` is not modelled. It delegates to the browser's DOM serializer.
- content.js is not modelled. It only answers a message with the page selection.
- The `editCard` entry that the library writes into the draft slot is never read by the popup, so it is not modelled.
- Text.ToLower: lower-cases ASCII letters only. Unicode case mapping is not modelled.
- Library.Search: inherits the ASCII-only lower-casing of `Text.ToLower`. A non-ASCII search term matches only where the cases agree exactly.
- Text.Prefix: counts characters as code points. JavaScript's `slice` counts UTF-16 code units, and the two differ only outside the Basic Multilingual Plane.
- Metadata.CapturePayload: the draft slot is filled from the corrected, all-string capture `ResolveText`, not from `Resolve` as written. A non-string JSON-LD value, which the original stores as is, never reaches the model's popup.
- Metadata.Resolve: the original capture keeps non-string JSON-LD values in the record. The popup's reaction to them is not modelled, because the popup's `Meta` holds strings. A truthy author that is not a string, or a truthy date without a `slice` method, makes `toAuthorLine` throw a `TypeError`. Other non-string values are printed through their string conversion. See the finding below.

## Findings

| source | as written | input that shows it | evidently intended | confidence | as-written member | corrected member |
|---|---|---|---|---|---|---|
| background.js:34 | The author is `jsonld.author.name \|\| jsonld.author` with no type check. A JSON-LD author list therefore reaches the popup as an array. popup.js:19 then calls `author?.split(' ')`, which an array does not have, so `init` throws before the form is filled or wired. | a page whose JSON-LD is `{"@type":"NewsArticle","author":[{"@type":"Person","name":"Jane Doe"}]}` and that has no author meta tag | every metadata field reaches the popup as a string. A value that is not a string is passed over like a missing one. | high; not executed | Metadata.AuthorListPassesThrough | Metadata.ResolveText |
