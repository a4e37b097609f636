/**
 * A crawled page as the crawler returns it (a dictionary whose `url`,
 * `markdown` and `metadata` keys may be missing), and the metadata record
 * kept for each saved page.
 */
module Pages {
  import opened Wrappers
  import opened SafeFilename
  import opened PageRender

  /** Page metadata: a dictionary from keys such as `title` to text. */
  type Metadata = map<string, string>

  datatype Page = Page(url: Option<string>, markdown: Option<string>, metadata: Option<Metadata>)

  /** One entry of the metadata list; a `None` field is a key the page's metadata lacked. */
  datatype MetadataRecord = MetadataRecord(
    filename: string,
    url: string,
    title: Option<string>,
    description: Option<string>,
    language: Option<string>)

  /** `page.get("url", "")`. */
  function PageUrl(p: Page): string {
    p.url.GetOr("")
  }

  /** `page.get("markdown", "")`. */
  function PageMarkdown(p: Page): string {
    p.markdown.GetOr("")
  }

  /** `page.get("metadata", {})`. */
  function PageMetadata(p: Page): Metadata {
    p.metadata.GetOr(map[])
  }

  /** `metadata.get(key)`: `None` when the key is missing. */
  function Lookup(m: Metadata, key: string): (r: Option<string>)
    ensures r.Some? <==> key in m
    ensures r.Some? ==> r.value == m[key]
  {
    if key in m then Some(m[key]) else None
  }

  /** `metadata.get('title', 'Untitled')`: the title shown in the file's heading. */
  function HeaderTitle(p: Page): string {
    Lookup(PageMetadata(p), "title").GetOr("Untitled")
  }

  /** The content written to the page's markdown file. */
  function PageContent(p: Page): (c: string)
    ensures c == "# " + HeaderTitle(p) + SourceTag + PageUrl(p) + Rule + PageMarkdown(p)
    ensures c[|c| - |PageMarkdown(p)|..] == PageMarkdown(p)
  {
    RenderEndsWithMarkdown(HeaderTitle(p), PageUrl(p), PageMarkdown(p));
    RenderLayout(HeaderTitle(p), PageUrl(p), PageMarkdown(p));
    Render(HeaderTitle(p), PageUrl(p), PageMarkdown(p))
  }

  /** The metadata record appended for page `i`. */
  function RecordFor(i: nat, p: Page): (r: MetadataRecord)
    ensures r.filename == Filename(i, r.url)
    ensures r.url == if p.url.Some? then p.url.value else ""
    ensures r.title.None? <==> (p.metadata.None? || "title" !in p.metadata.value)
    ensures r.description.None? <==> (p.metadata.None? || "description" !in p.metadata.value)
    ensures r.language.None? <==> (p.metadata.None? || "language" !in p.metadata.value)
    ensures r.title.Some? ==> p.metadata.Some? && r.title.value == p.metadata.value["title"]
    ensures r.description.Some? ==> p.metadata.Some? && r.description.value == p.metadata.value["description"]
    ensures r.language.Some? ==> p.metadata.Some? && r.language.value == p.metadata.value["language"]
  {
    var m := PageMetadata(p);
    MetadataRecord(
      Filename(i, PageUrl(p)),
      PageUrl(p),
      Lookup(m, "title"),
      Lookup(m, "description"),
      Lookup(m, "language"))
  }

  /**
   * The heading and the record agree on a title the page has; only the
   * heading substitutes `Untitled` for a missing one, and the record keeps
   * it missing.
   */
  lemma HeaderTitleMatchesRecord(i: nat, p: Page)
    ensures RecordFor(i, p).title.Some? ==> HeaderTitle(p) == RecordFor(i, p).title.value
    ensures RecordFor(i, p).title.None? ==> HeaderTitle(p) == "Untitled"
    ensures RecordFor(i, p).title.Some? <==> p.metadata.Some? && "title" in p.metadata.value
  {
  }
}
