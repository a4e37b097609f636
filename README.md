# Saving crawled pages: a Dafny model

The firecrawl-scraper skill ships a Python template that crawls a website and
saves the result. Its `save_crawled_data` step takes the crawled pages, a list
of dictionaries whose `url`, `markdown` and `metadata` keys may each be
missing. For each page, in order, it:

- derives a file name from the page's URL. The `https://` pass removes every
  occurrence in its input, then the `http://` pass removes every occurrence in
  what remains, `/` and `:` become `_`, the page
  index is prefixed as `f"{i:04d}_"`, and `.md` is appended;
- writes that file into the `markdown` directory. The file holds a
  `# <title>` heading, a `**Source**: <url>` line, a `---` rule and then the
  page's markdown. A page without a title gets the heading `Untitled`;
- appends a metadata record to a list. The record holds the file name, the
  URL and the page's `title`, `description` and `language`, each absent when
  the page lacks it;
- finally dumps the metadata list as JSON.

The model has these modules:

- `Text` models Python's `str.replace` as `ReplaceAll`: left to right, with
  non-overlapping occurrences, and the inserted text is never rescanned. It
  also has a first-character search, `FindChar`.
- `DecimalFormat` models `f"{i:04d}"` for the non-negative indices that
  `enumerate` produces (`Pad4`). It also has `Value`, the inverse that reads
  the digits back.
- `SafeFilename` holds the file-name derivation and `ParseIndex`, which reads
  the index back from a file name.
- `PageRender` holds the file content (`Render`, the four writes
  concatenated) and `ParseRendered`, an inverse that splits the content back
  into title, URL and markdown.
- `Pages` holds the page datatype (`Page`, with optional fields), the
  defaults for missing keys, the heading title and the metadata record
  (`RecordFor`).
- `CrawlSave` holds the loop itself. `SaveCrawledData` is a method with a
  `while` loop over the pages, and `SavePage` is one turn of that loop.
  The markdown directory is a `map` from file name to content. It is passed
  in, because the directory is created with `exist_ok=True` and may already
  hold files, and it is returned after the writes. The metadata list is
  returned instead of being serialised.

What is proved:

- The file name holds no `/` and no `:`. It ends in `.md`. It starts with the
  index digits and `_`, and those digits give back the index. Below 10000 the
  prefix is exactly four zero-padded digits, and it is four wide only below
  10000.
- Distinct indices give distinct names, even for identical URLs. The URL part
  alone does collide: `https://a/b` and `http://a:b` give the same body.
- The body contains no scheme string. It is never longer than the URL. It
  equals the URL with `/` and `:` mapped to `_` when the URL has no scheme
  string, and it equals the URL when there is no `/` or `:`.
- The file content (as a string, before any newline translation) ends with
  the page's markdown unchanged. It parses back
  into title, URL and markdown when the title and URL are single lines.
- The metadata list is exactly the pages' records, in order. Each page's file
  is in the directory with its rendered content, and no page's file overwrites
  another's. Files already in the directory keep their content unless a page
  uses the same name.

The file name is "safe" only with respect to `/` and `:`. The derivation
keeps every other character, for example `\`, `?` or `*`. It also removes
only the scheme strings, so `BodyOfPlainUrl` holds for URLs that contain such
characters as well.

## Model

| member | source | states |
|---|---|---|
| Text.ReplaceAllAbsent | skills/firecrawl-scraper/templates/firecrawl-crawl-example.py:124-125 | when the pattern does not occur, `str.replace` returns the string unchanged |
| Text.ReplaceAllNotLonger | skills/firecrawl-scraper/templates/firecrawl-crawl-example.py:124-125 | a replacement no longer than the pattern never lengthens the string |
| Text.ReplaceAllKeepsOut | skills/firecrawl-scraper/templates/firecrawl-crawl-example.py:124-125 | a character found neither in the input nor in the replacement is not in the result |
| Text.ReplaceCharIsMap | skills/firecrawl-scraper/templates/firecrawl-crawl-example.py:125 | replacing one character by another is the character-wise map (reference definition `MapChar`) |
| Text.ReplaceAllDropsLeading | skills/firecrawl-scraper/templates/firecrawl-crawl-example.py:124 | an occurrence at the start is replaced and the scan resumes right behind it |
| Text.ReplaceAllSkipsPrefix | skills/firecrawl-scraper/templates/firecrawl-crawl-example.py:124 | text that cannot start an occurrence passes through unchanged, and replacing continues in the rest |
| DecimalFormat.ValueOfDecimal | skills/firecrawl-scraper/templates/firecrawl-crawl-example.py:126 | reading back the decimal digits of `n` gives `n` |
| DecimalFormat.ValueLeadingZeros | skills/firecrawl-scraper/templates/firecrawl-crawl-example.py:126 | zero padding does not change the number the digits denote |
| DecimalFormat.Pad4Digits | skills/firecrawl-scraper/templates/firecrawl-crawl-example.py:126 | `f"{i:04d}"` is all digits, at least four of them, and denotes `i` |
| DecimalFormat.Pad4Small | skills/firecrawl-scraper/templates/firecrawl-crawl-example.py:126 | below 10000 the padded index is the thousands, hundreds, tens and units digits of `i` |
| DecimalFormat.Pad4Width | skills/firecrawl-scraper/templates/firecrawl-crawl-example.py:126 | the padded index is exactly four characters wide if and only if `i < 10000` |
| SafeFilename.BodyHasNoSeparators | skills/firecrawl-scraper/templates/firecrawl-crawl-example.py:123-125 | the URL part of the name contains no `/` and no `:` |
| SafeFilename.BodyHasNoScheme | skills/firecrawl-scraper/templates/firecrawl-crawl-example.py:124-125 | no `https://` or `http://` survives in the URL part |
| SafeFilename.BodyNotLonger | skills/firecrawl-scraper/templates/firecrawl-crawl-example.py:124-125 | the URL part is never longer than the URL |
| SafeFilename.BodyOfSchemeFreeUrl | skills/firecrawl-scraper/templates/firecrawl-crawl-example.py:124-125 | for a URL with no scheme string, the URL part has the same length and maps `/` and `:` to `_`, keeping every other character |
| SafeFilename.BodyOfPlainUrl | skills/firecrawl-scraper/templates/firecrawl-crawl-example.py:124-125 | a URL with no `/` and no `:` is the URL part unchanged |
| SafeFilename.BodyDropsLeadingScheme | skills/firecrawl-scraper/templates/firecrawl-crawl-example.py:124 | a leading `https://` or `http://` does not change the URL part |
| SafeFilename.HttpsPassKeepsHttp | skills/firecrawl-scraper/templates/firecrawl-crawl-example.py:124 | the `https://` pass leaves a leading `http://` for the second pass |
| SafeFilename.BodyCollides | skills/firecrawl-scraper/templates/firecrawl-crawl-example.py:124-126 | two different URLs can give the same URL part, so only the index prefix keeps names apart |
| SafeFilename.FilenameHasNoSeparators | skills/firecrawl-scraper/templates/firecrawl-crawl-example.py:123-126 | the file name contains no `/` and no `:`, so on POSIX it names a file directly inside the markdown directory |
| SafeFilename.FilenameEndsWithMd | skills/firecrawl-scraper/templates/firecrawl-crawl-example.py:126 | the file name ends with `.md` |
| SafeFilename.ParseIndexOfFilename | skills/firecrawl-scraper/templates/firecrawl-crawl-example.py:126 | the text before the first `_` is the index in decimal, and reading it back gives the index |
| SafeFilename.FilenamePrefixSmall | skills/firecrawl-scraper/templates/firecrawl-crawl-example.py:126 | for indices below 10000 the name starts with exactly four zero-padded digits and `_` |
| SafeFilename.FilenameInjective | skills/firecrawl-scraper/templates/firecrawl-crawl-example.py:118-126 | distinct page indices give distinct file names, whatever the URLs |
| PageRender.RenderEndsWithMarkdown | skills/firecrawl-scraper/templates/firecrawl-crawl-example.py:130-134 | the content starts with `# `, has the header's exact length, and ends with the page markdown unmodified |
| PageRender.ParseRenderRoundTrip | skills/firecrawl-scraper/templates/firecrawl-crawl-example.py:130-134 | with a single-line title and URL, the content splits back into exactly the title, the URL and the markdown |
| Pages.Lookup | skills/firecrawl-scraper/templates/firecrawl-crawl-example.py:142-144 | `metadata.get(key)` is present exactly when the key is, with the key's value |
| Pages.PageContent | skills/firecrawl-scraper/templates/firecrawl-crawl-example.py:119-134 | the file content is `"# " + title + "\n\n**Source**: " + url + "\n\n---\n\n" + markdown`, with the defaults for missing keys, and ends with the markdown |
| Pages.RecordFor | skills/firecrawl-scraper/templates/firecrawl-crawl-example.py:119-145 | the record names the page's file and its URL (`""` when missing); title, description and language are absent exactly when the page's metadata lacks them, and otherwise equal `metadata[key]` |
| Pages.HeaderTitleMatchesRecord | skills/firecrawl-scraper/templates/firecrawl-crawl-example.py:131-142 | the heading shows the record's title when there is one, and `Untitled` when the record's title is absent (a present title `"Untitled"` also shows `Untitled`) |
| CrawlSave.FilenamesDistinct | skills/firecrawl-scraper/templates/firecrawl-crawl-example.py:118-129 | no two pages of one crawl share a file name |
| CrawlSave.WriteNext | skills/firecrawl-scraper/templates/firecrawl-crawl-example.py:129-134 | writing a file under a fresh name keeps every file written before and every older file of another name |
| CrawlSave.SavePage | skills/firecrawl-scraper/templates/firecrawl-crawl-example.py:119-145 | one turn of the loop yields the page's file name, its rendered content and its record, and the record names that file |
| CrawlSave.SaveStep | skills/firecrawl-scraper/templates/firecrawl-crawl-example.py:116-145 | one turn of the loop extends the record list by the page's record and the directory by the page's file |
| CrawlSave.SaveCrawledData | skills/firecrawl-scraper/templates/firecrawl-crawl-example.py:101-150 | the metadata list is the pages' records in page order, and the directory is the old directory with every page's file written |
| CrawlSave.SavedDirectory | skills/firecrawl-scraper/templates/firecrawl-crawl-example.py:113-134 | after saving, each page's file holds its content, names are pairwise distinct, the directory gained exactly the pages' files, and other files are untouched |
| CrawlSave.RecordsMatchPages | skills/firecrawl-scraper/templates/firecrawl-crawl-example.py:116-145 | one record per page, in order, whose file name is that page's file and whose URL is that page's URL |
| CrawlSave.NoPagesSaveNothing | skills/firecrawl-scraper/templates/firecrawl-crawl-example.py:116-150 | an empty page list gives an empty metadata list and leaves the directory as it was |

## Left out

- `crawl_website` is not modelled: it reads `FIRECRAWL_API_KEY`, calls the crawl API with polling, and re-raises exceptions. These are network and environment effects of an external client library.
- `skills/firecrawl-scraper/templates/firecrawl-scrape-python.py` is not modelled. It is the same kind of network client code.
- `main` in both templates is not modelled. It is fixed configuration and console output.
- The file system is not modelled. `mkdir` is not modelled: the markdown directory is a map that already exists. UTF-8 encoding and the file handles are not modelled, and each file is its final content.
- The metadata list is returned. Writing it to `metadata.json` with `json.dump(indent=2, ensure_ascii=False)` is library formatting and is not modelled.
- All `print` calls are left out. They are console output only.
- Values of the wrong type are not modelled: page fields and metadata values are strings or missing. In the source:
  - a `url` of `None` or another non-string makes `url.replace` (line 124) raise before anything is written for that page;
  - a `markdown` of `None` or another non-string makes `f.write(markdown)` (line 134) raise `TypeError` after the three header writes, so a partial file is left and `metadata.json` is never written;
  - a `metadata` of `None` makes `metadata.get` (line 131) raise `AttributeError` after `open` (line 130) has created or truncated the page's file, so an empty file is left and `metadata.json` (lines 148-150) is never written;
  - a non-string `title` is formatted into the heading with `str()`, and a non-string `title`, `description` or `language` is copied into the record unchanged (lines 142-144).
- The model assumes POSIX paths and no newline translation. On Windows, `open(..., "w")` (line 130) writes every `"\n"` as `"\r\n"`, so the file would not end with the markdown unchanged, and `\` is a path separator that the derivation keeps, so `markdown_dir / filename` (line 129) could point into a subdirectory. The content and directory properties hold for the strings written and for `/` as the only separator.
- Strings are sequences of characters. Unicode encoding and normalisation are not modelled.
- `ReplaceAll` requires a non-empty pattern. The source only calls `str.replace` with the constants `"https://"`, `"http://"`, `"/"` and `":"`, so Python's empty-pattern behaviour is not modelled.
- Operating-system limits on file names, such as length, reserved characters other than `/`, and case-insensitive file systems, are not modelled.
- `skills/cloudflare-full-stack-scaffold/scaffold/vite.config.ts` is not modelled. It is a declarative binding and plugin manifest read by external build tooling.
- `skills/cloudflare-full-stack-scaffold/scaffold/src/App.tsx` is not modelled. It is a static UI shell with no state.
- `skills/cloudflare-full-stack-scaffold/scaffold/backend/src/index.ts` is not modelled. Its health route returns the clock (`Date.now()`), and its AI route passes a fixed prompt to an external binding.
