# Simple Web Scraper: the scraping core in Dafny

This project models `app/scraper.py`, the part of the web scraper that does
the actual work behind its HTTP API:

- `is_dynamic_website` probes a URL once and decides whether the page needs
  JavaScript to show its content. A page counts as dynamic if it has fewer
  than 100 characters of text, more than 10 `script` elements, or an element
  with id `root` or `app`. If anything goes wrong while probing, the page
  counts as dynamic.
- `get_visible_text` removes every `script`, `style` and `noscript` element
  from the parsed page. It then returns `get_text(separator=" ", strip=True)`:
  every text string in document order, stripped of Python whitespace, with
  empty strings dropped and the rest joined with single spaces.
- `extract_text_from_url` probes the URL. When the page is dynamic it raises
  `"URL is dynamic, skipping."`. Otherwise it fetches the page a second time
  and returns its visible text.
- `extract_texts_from_urls` handles a list of URLs one at a time, in order.
  For each URL it builds a record `{"url": ...}` holding either `text` or
  `error`. A failure for one URL is caught into that URL's record.

What each module covers:

- `PyString` models `str.strip()` and `" ".join` (`Strip`, `JoinSpace`) and
  the stripping step of `strip=True` (`StrippedStrings`).
- `Soup` models the parsed page as a tree of tags and text nodes. It defines
  `get_text`, `find_all`, `find(id=…)` and the removal done by `decompose`.
  It adds an independent description of the visible text, `Occurrences`:
  each string paired with the names of the tags it sits under.
- `Classifier` models the probe's verdict.
- `Scraper` models the single-URL extraction and the batch loop.

The network is a parameter
`Web(probe, fetch)`: the response the probe GET and the content GET of each
URL would get (the two are separate requests). Each extraction also returns
the sequence of GETs it issued, so that "no content GET for a dynamic URL" and
"one URL at a time, in input order" can be stated. The batch loop is
an imperative method proved equal to `Batch`, the list of per-URL outcomes
of `ExtractTextFromUrl`; the source writes that loop out inline instead of
calling `extract_text_from_url`, and the method's contract shows the two agree.

Two places where the program's own text suggests more than its code does;
the model follows the code:

- Heuristic 1 is commented "Very little visible text" and reads a variable
  named `visible_text` (`app/scraper.py:13-14`), but line 13 takes `get_text`
  of the whole parsed page, not the text `get_visible_text` returns. Text
  inside `noscript` and, in the bs4 behaviour modelled here, inside `script`
  and `style` counts toward the 100 characters.
  `Classifier.HiddenTextCountsTowardThreshold` gives a page that is static as
  written but would be dynamic if only visible text counted.
- The API describes itself as extracting text "from static and dynamic web
  pages" (`app/main.py:9`), but a URL classified as dynamic is skipped, not
  rendered (`app/scraper.py:39` and `app/scraper.py:52`). Its record
  carries the error `"URL is dynamic, skipping."`.

## Model

| member | source | states |
|---|---|---|
| Classifier.IsDynamicWebsite | app/scraper.py:6-26 | any failure of the probe (transport error, timeout, error status, parse error), whatever its message, gives "dynamic" |
| Classifier.Decide | app/scraper.py:14-24 | the chain of heuristics answers "static" exactly when the text length is at least 100, the script count at most 10 and there is no mount point |
| Classifier.ElementsMeasured | app/scraper.py:12-22 | the measured script count is the number of `script` elements at any depth, and a mount point is found exactly when some element at any depth has id `root` or `app` |
| Classifier.StaticExactlyWhen | app/scraper.py:12-24 | a probed page is static if and only if its `get_text` has at least 100 characters, it has at most 10 `script` elements, and no element has id `root` or `app`; stated over the code's queries and over the tree's elements |
| Classifier.DecideMonotone | app/scraper.py:14-24 | no less text, no more scripts and no new mount point never turn a static verdict into a dynamic one |
| Classifier.StaticByVisibleTextIsStatic | app/scraper.py:13-16 | a page that would be static if heuristic 1 measured only the visible text is static under the rule as written |
| Classifier.HiddenTextCountsTowardThreshold | app/scraper.py:13-16 | a page whose only text is 100 characters inside `noscript` is static as written, yet has empty visible text and would be dynamic if only visible text counted |
| Soup.GetText | app/scraper.py:13 | `get_text(separator=" ", strip=True)` never starts or ends with whitespace |
| Soup.FindAll | app/scraper.py:18 | every element `find_all` returns is a tag whose name is one of the names asked for |
| Soup.FindAllIsNamed | app/scraper.py:18 | `find_all` returns exactly the elements of the tree, at any depth, whose name is one of the names asked for, in document order |
| Soup.FindAllAppend | app/scraper.py:18 | `find_all` over two sibling runs is the matches of the first run followed by those of the second |
| Soup.Named | app/scraper.py:18 | the reference filter keeps exactly the elements with one of the names |
| Soup.FindById | app/scraper.py:22 | an element that `find(id=…)` returns is a tag carrying that id |
| Soup.FirstWithId | app/scraper.py:22 | the reference search finds nothing exactly when no element has the id, and otherwise finds the first element that has it |
| Soup.FindByIdIsFirst | app/scraper.py:22 | `find(id=…)` returns the first element of the tree in document order whose id is the value asked for |
| Soup.FindByIdNone | app/scraper.py:22 | `find(id=…)` finds nothing exactly when no element at any depth has that id |
| Soup.Decompose | app/scraper.py:31-32 | no top-level node left by the removal is a `script`, `style` or `noscript` element |
| Soup.DecomposeLeavesNoHidden | app/scraper.py:31-32 | after the removal loop, no `script`, `style` or `noscript` element is left at any depth |
| Soup.DecomposeIdempotent | app/scraper.py:31-32 | running the removal on a page that has already been cleaned changes nothing |
| Soup.VisibleText | app/scraper.py:28-35 | the visible text never starts or ends with whitespace |
| Soup.HiddenElementChangesNothing | app/scraper.py:28-35 | adding a `script`, `style` or `noscript` element, with any content, anywhere among the top-level nodes of the page leaves the visible text unchanged |
| Soup.DecomposeKeepsUnhidden | app/scraper.py:31-34 | the strings left after the removal are exactly the strings that have no `script`/`style`/`noscript` ancestor, in document order |
| Soup.VisibleTextOfOccurrences | app/scraper.py:28-35 | `get_visible_text` is the strip-and-join of exactly the strings outside any hidden element, in document order |
| Soup.VisibleTextEmpty | app/scraper.py:28-35 | the visible text is empty exactly when every string outside the hidden elements is whitespace only |
| Soup.GetTextOfOccurrences | app/scraper.py:13 | the probe's `get_text` is the strip-and-join of every string of the page, hidden or not, in document order |
| Soup.VisibleTextNoLonger | app/scraper.py:13-34 | the visible text is never longer than the probe's `get_text` of the same page |
| Soup.AllStringsAppend | app/scraper.py:34 | the strings of two sibling runs are those of the first followed by those of the second |
| PyString.SkipSpace | app/scraper.py:34 | the scan from the front stops at the first character that is not whitespace, and everything it passes is whitespace |
| PyString.SkipSpaceBack | app/scraper.py:34 | the scan from the back stops after the last character that is not whitespace, and everything it passes is whitespace |
| PyString.Strip | app/scraper.py:34 | `str.strip()`: the input is the result with only whitespace before and after it, and the result neither starts nor ends with whitespace |
| PyString.StripIdempotent | app/scraper.py:34 | stripping twice is stripping once |
| PyString.StripEmptyIffAllSpace | app/scraper.py:34 | a string strips to `""` exactly when it consists of whitespace only |
| PyString.JoinSpace | app/scraper.py:34 | `" ".join`: the length is the sum of the part lengths plus one separator between each pair of neighbours |
| PyString.JoinSpaceAppend | app/scraper.py:34 | joining two non-empty runs of parts puts exactly one space between the two joins |
| PyString.JoinSpaceStripped | app/scraper.py:34 | joining non-empty stripped parts yields a stripped string, empty exactly when there are no parts |
| PyString.StrippedStrings | app/scraper.py:34 | what `strip=True` keeps: no more parts than strings, each part non-empty and stripped |
| PyString.StrippedStringsEmpty | app/scraper.py:34 | `strip=True` keeps nothing exactly when every string is whitespace only |
| PyString.StrippedStringsAppend | app/scraper.py:34 | the stripping step treats each string independently: two runs of strings give their kept parts one after the other |
| PyString.StrippedStringsOfStripped | app/scraper.py:34 | strings that are already stripped and non-empty are all kept, unchanged |
| Scraper.ExtractTextFromUrl | app/scraper.py:37-44 | the probe GET comes first; a dynamic verdict gives the skip message with no content GET; otherwise the content is fetched once, and the text is returned exactly when the fetch succeeds, as that page's visible text, while a failed fetch's message propagates |
| Scraper.OwnProbes | app/scraper.py:38 | one extraction probes its URL exactly once |
| Scraper.OwnFetches | app/scraper.py:38-41 | one extraction fetches its URL's content exactly once when static and never when dynamic |
| Scraper.ToRecord | app/scraper.py:49-60 | a record carries its URL and exactly one of `text` (the extracted text) and `error` (the message) |
| Scraper.Batch | app/scraper.py:46-62 | the batch has exactly one record per input URL, record `i` names `urls[i]`, and each record has exactly one of `text` and `error` |
| Scraper.BatchRequests | app/scraper.py:46-62 | every GET the batch issues is for one of the input URLs |
| Scraper.ExtractTextsFromUrls | app/scraper.py:46-62 | the loop returns `Batch` and its GETs: one record per input URL, in input order, each equal to the record of that URL's own outcome |
| Scraper.BatchAt | app/scraper.py:48-61 | record `i` is the outcome of extracting `urls[i]` on its own |
| Scraper.BatchEntry | app/scraper.py:49-60 | record `i` has url `urls[i]` and exactly one of text and error: the skip message when dynamic, the fetch's message when the fetch fails, the visible text otherwise |
| Scraper.BatchIsolation | app/scraper.py:50-60 | record `i` depends only on the responses for `urls[i]`: changing any other URL's responses leaves it as it is |
| Scraper.BatchAppend | app/scraper.py:48-61 | handling `a + b` gives the records for `a` followed by those for `b` |
| Scraper.BatchRequestsAppend | app/scraper.py:48-61 | handling `a + b` issues the GETs for `a` followed by those for `b` |
| Scraper.BatchProbesInOrder | app/scraper.py:48-51 | the probe GETs of a batch are the input URLs, each once, in input order |
| Scraper.BatchFetchesStaticInOrder | app/scraper.py:51-57 | the content GETs of a batch are one per URL judged static, in input order |
| Scraper.NoFetchOfDynamicUrl | app/scraper.py:51-57 | no content GET is ever issued for a URL whose probe says dynamic |

## Left out

- `app/main.py` is not part of this model: the FastAPI routes, CORS, request
  validation and mapping errors to HTTP 400 are plumbing around the core.
- Networking (httpx, the 10-second timeout, redirects, `raise_for_status`) is
  the `Web` parameter. Every way a GET can fail is one `Failure(message)`, and
  a URL gets the same answer each time it appears in a batch.
- Exception messages (`str(e)`) are opaque strings taken from the `Failure`;
  their wording is not modelled.
- HTML parsing is not modelled: the page is given as a tree. Comments,
  doctypes, CDATA and processing instructions are absent. An element has at
  most one id. Attributes other than the id are absent.
- `Soup.Decompose`: the in-place `decompose()` loop is modelled as a filter
  that returns the tree without those elements. The tree is a local value no
  one else sees, so nothing depends on the mutation itself.
- `Soup.GetText`: every text string counts, including those inside `script`
  and `style`, as in bs4 releases before 4.9.0. From 4.9.0 on, bs4 stores
  the strings of `script` and `style` (and later also `template`, `rt` and
  `rp`) as separate string types that `get_text` skips. Text inside
  `noscript` counts in every release, which is why
  `Classifier.HiddenTextCountsTowardThreshold` uses `noscript`.
- `Soup.HiddenElementChangesNothing` is stated for insertion among the
  top-level nodes of the page; deeper insertions are covered by
  `Soup.DecomposeKeepsUnhidden`, which describes the visible strings at any
  depth.
- Async execution and cancellation are left out. Each `await` is modelled as
  a plain call, because the loop awaits each URL before starting the next.
- Exceptions outside `Exception` (cancellation, interrupts) are left out.
