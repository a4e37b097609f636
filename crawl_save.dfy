/**
 * `save_crawled_data`: for each crawled page, in order, write its markdown
 * file into the markdown directory and append its metadata record.
 *
 * The markdown directory is a map from file name to content: it may hold
 * files before the call (it is created with `exist_ok=True`), and a write
 * replaces the content of a file of the same name. The metadata list is
 * returned instead of being dumped as JSON.
 */
module CrawlSave {
  import opened SafeFilename
  import opened PageRender
  import opened Pages

  /** The file name used for each page, in page order. */
  function Filenames(pages: seq<Page>): (names: seq<string>)
    ensures |names| == |pages|
    ensures forall k :: 0 <= k < |pages| ==> names[k] == Filename(k, PageUrl(pages[k]))
  {
    seq(|pages|, k requires 0 <= k < |pages| => Filename(k, PageUrl(pages[k])))
  }

  /** The content written for each page, in page order. */
  function Contents(pages: seq<Page>): (contents: seq<string>)
    ensures |contents| == |pages|
    ensures forall k :: 0 <= k < |pages| ==> contents[k] == PageContent(pages[k])
  {
    seq(|pages|, k requires 0 <= k < |pages| => PageContent(pages[k]))
  }

  /** The metadata record of each page, in page order. */
  function Records(pages: seq<Page>): (records: seq<MetadataRecord>)
    ensures |records| == |pages|
    ensures forall k :: 0 <= k < |pages| ==> records[k] == RecordFor(k, pages[k])
  {
    seq(|pages|, k requires 0 <= k < |pages| => RecordFor(k, pages[k]))
  }

  /**
   * `dir` is `before` after writing the first `n` files: each of them holds
   * its content, and every other file is as it was.
   */
  ghost predicate Written(before: map<string, string>, dir: map<string, string>,
                    names: seq<string>, contents: seq<string>, n: nat)
    requires n <= |names| == |contents|
  {
    (forall k :: 0 <= k < n ==> names[k] in dir && dir[names[k]] == contents[k]) &&
    (forall name :: name in dir <==> name in before || name in names[..n]) &&
    (forall name :: name in before && name !in names[..n] ==> dir[name] == before[name])
  }

  /** No two pages share a file name, so no page's file overwrites another's. */
  lemma FilenamesDistinct(pages: seq<Page>)
    ensures forall j, k :: 0 <= j < k < |pages| ==> Filenames(pages)[j] != Filenames(pages)[k]
  {
    forall k | 0 <= k < |pages| {
      FilenameFresh(pages, k);
    }
  }

  /** Writing a file under a name not used before keeps the earlier files. */
  lemma WriteNext(before: map<string, string>, dir: map<string, string>,
                  names: seq<string>, contents: seq<string>, n: nat)
    requires n < |names| == |contents|
    requires forall k :: 0 <= k < n ==> names[k] != names[n]
    requires Written(before, dir, names, contents, n)
    ensures Written(before, dir[names[n] := contents[n]], names, contents, n + 1)
  {
  }

  /**
   * One turn of the loop: the page's file name, the content written to its
   * file, and its metadata record.
   */
  method SavePage(i: nat, page: Page) returns (filename: string, content: string, record: MetadataRecord)
    ensures filename == Filename(i, PageUrl(page))
    ensures content == PageContent(page)
    ensures record == RecordFor(i, page) && record.filename == filename
  {
    var url := page.url.GetOr("");
    var markdown := page.markdown.GetOr("");
    var metadata := page.metadata.GetOr(map[]);

    filename := Filename(i, url);

    var title := if "title" in metadata then metadata["title"] else "Untitled";
    content := Render(title, url, markdown);

    record := MetadataRecord(
      filename,
      url,
      Lookup(metadata, "title"),
      Lookup(metadata, "description"),
      Lookup(metadata, "language"));
  }

  /** Page `n`'s file name differs from every earlier page's. */
  lemma FilenameFresh(pages: seq<Page>, n: nat)
    requires n < |pages|
    ensures forall k :: 0 <= k < n ==> Filenames(pages)[k] != Filenames(pages)[n]
  {
    forall k | 0 <= k < n ensures Filenames(pages)[k] != Filenames(pages)[n] {
      FilenameInjective(k, n, PageUrl(pages[k]), PageUrl(pages[n]));
    }
  }

  /** One turn of the loop keeps the loop's invariant. */
  lemma SaveStep(pages: seq<Page>, before: map<string, string>, dir: map<string, string>,
                 metadataList: seq<MetadataRecord>, i: nat,
                 filename: string, content: string, record: MetadataRecord)
    requires i < |pages|
    requires metadataList == Records(pages)[..i]
    requires Written(before, dir, Filenames(pages), Contents(pages), i)
    requires filename == Filename(i, PageUrl(pages[i]))
    requires content == PageContent(pages[i])
    requires record == RecordFor(i, pages[i])
    ensures metadataList + [record] == Records(pages)[..i + 1]
    ensures Written(before, dir[filename := content], Filenames(pages), Contents(pages), i + 1)
  {
    FilenameFresh(pages, i);
    WriteNext(before, dir, Filenames(pages), Contents(pages), i);
    assert Records(pages)[..i + 1] == Records(pages)[..i] + [Records(pages)[i]];
  }

  /**
   * Writes each page's markdown file into `markdownDir` and collects the
   * metadata records: the records are the pages' records in page order, and
   * the directory is `markdownDir` with every page's file written.
   */
  method SaveCrawledData(pages: seq<Page>, markdownDir: map<string, string>)
    returns (dir: map<string, string>, metadataList: seq<MetadataRecord>)
    ensures metadataList == Records(pages)
    ensures Written(markdownDir, dir, Filenames(pages), Contents(pages), |pages|)
  {
    dir := markdownDir;
    metadataList := [];
    var i := 0;
    while i < |pages|
      invariant 0 <= i <= |pages|
      invariant metadataList == Records(pages)[..i]
      invariant Written(markdownDir, dir, Filenames(pages), Contents(pages), i)
    {
      var filename, content, record := SavePage(i, pages[i]);
      SaveStep(pages, markdownDir, dir, metadataList, i, filename, content, record);
      dir := dir[filename := content];
      metadataList := metadataList + [record];
      i := i + 1;
    }
    assert Records(pages)[..|pages|] == Records(pages);
  }

  /**
   * After saving, each page's file exists under its own name with its
   * rendered content, no two pages share a file, the directory gained
   * exactly the pages' files, and every other file is untouched.
   */
  lemma SavedDirectory(pages: seq<Page>, before: map<string, string>, dir: map<string, string>)
    requires Written(before, dir, Filenames(pages), Contents(pages), |pages|)
    ensures forall k :: 0 <= k < |pages| ==>
      Filename(k, PageUrl(pages[k])) in dir && dir[Filename(k, PageUrl(pages[k]))] == PageContent(pages[k])
    ensures forall j, k :: 0 <= j < k < |pages| ==> Filenames(pages)[j] != Filenames(pages)[k]
    ensures forall name :: name in dir <==> name in before || name in Filenames(pages)
    ensures forall name :: name in before && name !in Filenames(pages) ==> dir[name] == before[name]
  {
    FilenamesDistinct(pages);
    assert Filenames(pages)[..|pages|] == Filenames(pages);
  }

  /** The metadata list has one record per page, in page order, naming that page's file and URL. */
  lemma RecordsMatchPages(pages: seq<Page>)
    ensures |Records(pages)| == |pages|
    ensures forall k :: 0 <= k < |pages| ==>
      Records(pages)[k].filename == Filenames(pages)[k] && Records(pages)[k].url == PageUrl(pages[k])
  {
  }

  /** Without pages, no record is collected and the directory is left as it was. */
  lemma NoPagesSaveNothing(before: map<string, string>, dir: map<string, string>)
    requires Written(before, dir, Filenames([]), Contents([]), 0)
    ensures Records([]) == []
    ensures dir == before
  {
  }
}
