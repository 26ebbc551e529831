# Articles à Gogo — a Dafny model of the scraper's core

`scraper.py` keeps a small news site up to date. One run of
`sauvegarder_et_index` does three things:

1. It reads the trending search terms off the Google Trends daily page
   (`scraper_google_trends`). A line of the page text counts as a term when:
   - the stripped line after it shows a search volume (`k+` or `M+`);
   - its own stripped text is 3 to 49 characters long;
   - its lower-cased text holds none of ten blacklisted words.

   The terms are kept once each, in order of first appearance, and at most
   ten are returned.
2. It publishes the terms. Every term gives a file name: the term
   lower-cased, spaces turned into `_`, and `.html` appended.
   - A term whose file already exists in `mon_site_news` is skipped.
   - Otherwise the text generator is asked for an article
     (`generer_article`).
   - If the answer starts with three backticks, everything through its
     first newline is cut off (only the backticks when there is no newline).
     Then three backticks at its very end are cut off, and the rest is
     stripped. A fence that does not sit exactly at the start or the end stays.
   - If some text is left, it is parsed into a description, keywords and a
     body (`[DESCRIPTION]`, `[KEYWORDS]` and `[BODY]` markers, with defaults),
     and the page is written.
3. It rebuilds the home page (`generer_index`). There is one card per
   `.html` file of the folder, fixed pages excluded. Each card links into
   `mon_site_news/` and shows a title made from the file name. With no
   article at all, a placeholder is shown instead.

The model has one Dafny module per concern:

| file | module | models |
|---|---|---|
| `text.dfy` | `Text` | the Python `str` operations used: `strip`, `lower`, `title`, `in`, `find`, `startswith`, `endswith`, `split`, `replace` |
| `seqs.dfy` | `Seqs` | the "append if not yet there" de-duplication |
| `trends.dfy` | `Trends` | term extraction from the page lines, as a function `Extract` and as the loop `ScrapeTerms` |
| `fence.dfy` | `Fence` | the code-fence clean-up of the generator's answer |
| `sections.dfy` | `Sections` | the marker parsing, including its `try/except: pass` behaviour |
| `site.dfy` | `Site` | the article folder name and the `.html` suffix |
| `publish.dfy` | `Publish` | file names, `generer_article`, and the publication loop as a fold over a folder |
| `index.dfy` | `Index` | the card list of `generer_index` |
| `pipeline.dfy` | `Pipeline` | the whole run: the publication loop as a method, the folder listing, the index |

How the outside world is represented:

- The page text is the input: a sequence of lines.
- The text generator is a function `Generator` from a term to `Option<string>`. `None` stands for a call that raises.
- The article folder is the set of its file names.
- A written page is recorded by its title and its three parsed fields.

## Model

Functions that only compute carry no contract of their own. The lemmas
about them are these rows:

- `Text.Lower`: Text.LowerAt.
- `Text.Title` and `Text.TitleFrom`: Text.TitleFromAt.
- `Text.Replace`: Text.ReplaceIsSplitJoin and Text.ReplaceChar.
- `Seqs.Dedup`: the four `Seqs.Dedup…` lemmas.
- `Trends.Keep` and `Trends.ScanRows`: Trends.ScanTurn and Trends.ScanRowsIsDedup.
- `Fence.OpeningLength`: Fence.OpeningFence.
- `Fence.ClosingLength`: Fence.FencedBlock and Fence.UnfencedOnlyStripped.
- `Index.LinkPrefix` and `Index.CardsFor`: Index.CardsMatchArticles and Index.CardsForAppend.
- `Index.DisplayTitle`: Index.DisplayTitleHasNoUnderscore and Index.TwoArticlesExample.
- `Publish.PageOf`: Publish.PublishOne and Publish.WrittenPages.

| member | source | states |
|---|---|---|
| Text.Strip | scraper.py:36-37 | the stripped text is no longer than the input and has no whitespace, in Python's `isspace` sense, at either end |
| Text.StripTrims | scraper.py:36-37 | `strip()` removes only whitespace: the input is the result with whitespace added before and after it |
| Text.LowerAt | scraper.py:41 | `lower()` maps each character to its lower-case form, in place |
| Text.LowerHasNoUpper | scraper.py:41 | no upper-case letter is left after `lower()` |
| Text.TitleFromAt | scraper.py:94 | `title()` writes each character by itself: an uncased character is kept, and a cased one is upper-cased when the character before it is uncased or it starts the text, lower-cased otherwise |
| Text.TitleExample | scraper.py:94 | `"ab cµD".title()` is `"Ab Cµd"`: each word starts upper-case, and the micro sign counts as a letter |
| Text.TitleFromPreservesLetters | scraper.py:94 | `title()` changes only letter case: lower-casing its result gives the lower-cased input, and a character is cased after it exactly when it was before |
| Text.Find | scraper.py:72 | `find` gives -1 exactly when the text does not occur, and otherwise the index of its first occurrence |
| Text.Split | scraper.py:237 | `split` gives at least one piece, and two or more exactly when the separator occurs |
| Text.SplitJoin | scraper.py:237-239 | `split` loses nothing: joining the pieces with the separator gives the input back |
| Text.SplitPiecesFree | scraper.py:237-239 | no piece of `split` contains the separator |
| Text.ReplaceIsSplitJoin | scraper.py:94 | `replace` equals splitting at the pattern and joining with the replacement |
| Text.ReplaceChar | scraper.py:225 | replacing one character by another keeps the length and substitutes exactly the matching positions |
| Text.FindAfterPrefix | scraper.py:237 | a bracketed marker that does not occur in a prefix is first found right after that prefix |
| Text.NotContainsAround | scraper.py:237-239 | gluing marker-free texts around a different bracketed marker creates no occurrence of the first marker |
| Seqs.DedupSnoc | scraper.py:42-43 | one more candidate is appended to the found terms exactly when it is not among them |
| Seqs.DedupMembers | scraper.py:42-43 | the found terms are exactly the candidates, as a set |
| Seqs.DedupNoDup | scraper.py:42-43 | no term is found twice |
| Seqs.DedupOrder | scraper.py:42-43 | the found terms keep the order in which they first appear among the candidates |
| Trends.ContainsAnyIff | scraper.py:41 | the `any(...)` blacklist test holds exactly when some blacklisted word occurs |
| Trends.PassingMembers | scraper.py:35-41 | the texts of the passing rows are exactly the texts of rows that pass |
| Trends.ScanRowsIsDedup | scraper.py:35-43 | the scan with its duplicate check is the de-duplication of the passing texts, in page order |
| Trends.CandidatesMembers | scraper.py:35-41 | a text is a candidate exactly when it is the stripped text of a line, other than the last, that passes every test with the line after it |
| Trends.Cut | scraper.py:45 | `mots_cles[:10]` is a prefix of the list: the whole list when it has fewer than ten terms, and exactly ten terms otherwise |
| Trends.Extract | scraper.py:34-45 | at most ten terms, none twice, and none from a page of fewer than two lines |
| Trends.ExtractSound | scraper.py:35-43 | every term is the stripped text of a line that passes every test with the line after it |
| Trends.TermShape | scraper.py:36-41 | every term is stripped, 3 to 49 characters long, holds no blacklisted word once lower-cased, and its line is followed by a volume |
| Trends.ExtractComplete | scraper.py:35-45 | a qualifying line's text is a candidate. It is among the terms unless ten terms were kept and each of them first qualified earlier on the page |
| Trends.ExtractOrder | scraper.py:42-45 | the terms come in the order in which they first qualify on the page |
| Trends.ScanTurn | scraper.py:36-43 | one turn of the loop, with its nested tests, appends the line's text exactly as the scan's step on that row does |
| Trends.ScanLines | scraper.py:34-43 | the loop over `range(len(lignes) - 1)` computes the scan of all its rows |
| Trends.ScrapeTerms | scraper.py:34-45 | the loop and the final cut return exactly `Extract` of the lines |
| Fence.StripFences | scraper.py:71-79 | the cleaned answer is stripped and no longer than the raw answer |
| Fence.StripFencesIsPiece | scraper.py:71-79 | the cleaned answer is a contiguous piece of the raw answer |
| Fence.OpeningFence | scraper.py:71-76 | the opening fence runs through the first newline, or is the three backticks alone when there is no newline, and is empty when the text does not start with three backticks |
| Fence.UnfencedOnlyStripped | scraper.py:71-79 | an answer that neither starts nor ends with three backticks is only stripped |
| Fence.FencedBlock | scraper.py:71-79 | an answer made of a fence line with a language tag, a body and a closing fence gives the stripped body |
| Fence.HtmlFenceExample | scraper.py:71-79 | an `html`-fenced `<h1>X</h1>` comes out as exactly `<h1>X</h1>` |
| Sections.ParseSections | scraper.py:231-243 | without both `[DESCRIPTION]` and `[BODY]` all three fields keep their defaults; otherwise each field is its default or a stripped text |
| Sections.SplitOnce | scraper.py:237-241 | splitting at a marker that occurs once gives exactly the text before it and the text after it |
| Sections.NoOtherMarker | scraper.py:237-241 | a marker between marker-free texts brings in no other marker |
| Sections.WellFormedAnswer | scraper.py:231-241 | an answer with the three markers once each and in order gives the three stripped texts between them |
| Sections.MissingKeywords | scraper.py:231-243 | without `[KEYWORDS]`, the description becomes everything after `[DESCRIPTION]`, body section included, and keywords and body keep their defaults |
| Sections.BodyBeforeDescription | scraper.py:231-243 | when the only `[BODY]` comes before `[DESCRIPTION]`, description and keywords are parsed and the body stays the whole answer |
| Publish.Slug | scraper.py:225 | the file name is the term lower-cased, with spaces turned into underscores, position by position, followed by `.html` |
| Publish.SlugIgnoresCase | scraper.py:225 | terms that differ only in letter case get the same file name |
| Publish.FirstOfSameFileWins | scraper.py:224-229 | of two terms sharing a missing file name, when the first one's answer has text, the generator is called for it alone and only its page is written |
| Publish.FailedFirstLeavesSecond | scraper.py:224-229 | of two terms sharing a missing file name, when the first one's answer is unusable and the second one's is not, both are asked for and the second one's page is written |
| Publish.SlugExample | scraper.py:225 | "Intelligence Artificielle" is stored as `intelligence_artificielle.html` |
| Publish.Generate | scraper.py:67-81 | `generer_article` gives `None` exactly when the generator call fails |
| Publish.GenerateIsCleanPiece | scraper.py:69-79 | what `generer_article` returns is stripped and is a contiguous piece of the generator's raw answer |
| Publish.PublishOne | scraper.py:224-243 | one term calls the generator only when its file is missing. It adds its file exactly when the file was missing and the answer has text, and it writes only that file, with the parsed answer |
| Publish.PublishAll | scraper.py:224-229 | the loop only adds files, and the files it writes are exactly the new ones |
| Publish.CallsOnlyForMissing | scraper.py:226-228 | the generator is called only for terms of the run whose file was missing at the start |
| Publish.WrittenPages | scraper.py:228-243 | every written page belongs to a term with a usable answer and holds that answer parsed |
| Publish.Covered | scraper.py:224-229 | after the loop every term has its file unless its answer was unusable |
| Publish.NothingNew | scraper.py:224-229 | when every term has its file or an unusable answer, the loop writes nothing |
| Publish.AllPresent | scraper.py:226-227 | when every term's file exists, the loop neither calls the generator nor writes |
| Publish.Idempotent | scraper.py:224-229 | a second run on the same terms with the same generator adds no file |
| Publish.TwoTerms | scraper.py:224-229 | two new terms where only the first is answered leave exactly the first term's file |
| Publish.TwoTermsExample | scraper.py:224-229 | the trends "Intelligence Artificielle" and "Paris", with only the first answered, leave only `intelligence_artificielle.html` |
| Index.Articles | scraper.py:90-92 | the listed articles are exactly the given names that are not fixed pages |
| Index.BuildIndex | scraper.py:90-105 | the placeholder is shown exactly when there is no article, and otherwise there is one card per article |
| Index.CardsMatchArticles | scraper.py:88-103 | the i-th card links to the i-th article behind the folder's link prefix (`mon_site_news/` at the site root, nothing elsewhere) and shows its display title |
| Index.CardsForAppend | scraper.py:90-103 | the cards of two name lists in a row are the cards of each, one after the other |
| Index.HtmlNames | scraper.py:291 | the kept names are exactly the listed names ending in `.html` |
| Index.DisplayTitleHasNoUnderscore | scraper.py:94 | a card title holds no underscore |
| Index.TitleKeepsUncased | scraper.py:94 | `title()` leaves every uncased character unchanged and every cased one cased |
| Index.TwoArticles | scraper.py:88-103 | two one-letter article files `x.html` and `y.html` at the site root give, in listing order, the cards titled by their upper-cased letters and linked into `mon_site_news/` |
| Index.TwoArticlesExample | scraper.py:88-105 | `a.html` and `b.html` at the site root give the cards "A" and "B" linked into `mon_site_news/` |
| Index.EmptyIndexIsPlaceholder | scraper.py:105 | a folder holding only fixed pages gives the placeholder |
| Pipeline.ListFolder | scraper.py:291 | the listing names every file of the folder once and nothing else |
| Pipeline.PublishTerms | scraper.py:224-288 | the loop over the terms leaves the folder and the written pages that the fold `PublishAll` describes |
| Pipeline.TurnKeepsFold | scraper.py:224-229 | one turn of the loop moves a term from the fold still to come into the state reached |
| Pipeline.IndexOfNames | scraper.py:88-105 | the root index built over a list of names has a card for exactly its non-fixed names |
| Pipeline.Run | scraper.py:218-293 | the run publishes the extracted terms as the fold describes. The index has a card for exactly the `.html` files of the folder afterwards that are not fixed pages, or the placeholder when there are none |

## Left out

- Loading the Trends page (Selenium, the 15-second wait, `driver.quit`) and the `split('\n')` of the body text are outside the model. The lines are its input.
- The call to the Gemini model is a `Generator` parameter. A call that raises, including an answer whose `text` is missing, is `None`.
- The prompt text and the full HTML templates of the article page, the index page, `faq.html` and the privacy page are static text and are not modelled. A page is recorded by its title and its three parsed fields, and the home page by its card list.
- The teaser sentence of each card, which repeats the title lower-cased, is not modelled. It adds nothing beyond the title.
- A file write is modelled as adding its name to the set of the folder's files. `os.makedirs`, which creates the folder when it is missing, is modelled by starting from the empty set `existing == {}`.
- Pipeline.ListFolder: `os.listdir` returns the files in an order the operating system chooses. The model fixes the set and leaves the order open, so the cards' order is not stated for a whole run.
- Text.LowerAt: letter case covers ASCII and Latin-1 only, and letters outside that range are left unchanged.
- Text.TitleFromPreservesLetters: `ß`, `ÿ` and `µ` stay as they are when title-cased. Python maps them to `Ss`, `Ÿ` (U+0178) and `Μ` (U+039C); `Ss` changes the length, and the other two lie outside Latin-1. `ª` and `º` also stay, as in Python.
- Publish.Slug: lower-cases through the same Latin-1 case table as `Text.LowerAt`.
- The `IndexError` that `split("[DESCRIPTION]")[1]` could raise cannot happen once the marker is known to occur. The later `[1]` lookups that can fail are modelled as stopping the parse with the fields already assigned.
- Publish.PublishOne: a term containing `/`, such as "AC/DC", names a file in a sub-folder that does not exist. Python calls the generator, then `open(chemin, "w")` at scraper.py:287 raises `FileNotFoundError`, and nothing catches it. The model treats the file name as a plain name and records the file as written.
- Pipeline.Run: after such a term, Python stops the whole run. Later terms are not published and the index is not rebuilt. The model keeps going with the later terms and builds the index, with a card for that name.
