/**
 * The content of a page's markdown file: a title heading, a source line,
 * a horizontal rule, then the page's markdown exactly as crawled.
 */
module PageRender {
  import opened Wrappers
  import opened Text

  const SourceTag: string := "\n\n**Source**: "
  const Rule: string := "\n\n---\n\n"

  /** The four writes to the file, in order, concatenated. */
  function Render(title: string, url: string, markdown: string): string {
    ("# " + title + "\n\n") + ("**Source**: " + url + "\n\n") + "---\n\n" + markdown
  }

  /**
   * Splits `s` at its first line break, which must open `tag`: the line
   * before it and the text after `tag`.
   */
  function SplitLine(s: string, tag: string): Option<(string, string)> {
    var k := FindChar(s, '\n');
    var after := s[k..];
    if |after| < |tag| || after[..|tag|] != tag then None
    else Some((s[..k], after[|tag|..]))
  }

  /**
   * Splits rendered content back into title, source URL and markdown: the
   * title runs to the first line break, the URL to the next one.
   */
  function ParseRendered(c: string): Option<(string, string, string)> {
    if |c| < 2 || c[..2] != "# " then None
    else match SplitLine(c[2..], SourceTag)
      case None => None
      case Some((title, rest)) =>
        match SplitLine(rest, Rule)
        case None => None
        case Some((url, markdown)) => Some((title, url, markdown))
  }

  /** The header, as one string. */
  lemma RenderLayout(title: string, url: string, markdown: string)
    ensures Render(title, url, markdown) == "# " + title + SourceTag + url + Rule + markdown
  {
  }

  /** The page markdown is an unmodified suffix of the content, after a header that starts with `# `. */
  lemma RenderEndsWithMarkdown(title: string, url: string, markdown: string)
    ensures |Render(title, url, markdown)| == 2 + |title| + |SourceTag| + |url| + |Rule| + |markdown|
    ensures Render(title, url, markdown)[..2] == "# "
    ensures Render(title, url, markdown)[|Render(title, url, markdown)| - |markdown|..] == markdown
  {
  }

  lemma SplitLineOf(line: string, tag: string, rest: string)
    requires '\n' !in line
    requires tag != [] && tag[0] == '\n'
    ensures SplitLine(line + tag + rest, tag) == Some((line, rest))
  {
    var s := line + tag + rest;
    assert s == line + (tag + rest);
    FindCharAfter(line, tag + rest, '\n');
    assert s[|line|..] == tag + rest;
    assert s[..|line|] == line;
  }

  /**
   * When the title and the URL are single lines, the content determines
   * them and the markdown, whatever the markdown holds.
   */
  lemma ParseRenderRoundTrip(title: string, url: string, markdown: string)
    requires '\n' !in title && '\n' !in url
    ensures ParseRendered(Render(title, url, markdown)) == Some((title, url, markdown))
  {
    RenderLayout(title, url, markdown);
    var c := Render(title, url, markdown);
    var body := url + Rule + markdown;
    assert c == "# " + (title + SourceTag + body);
    assert c[2..] == title + SourceTag + body;
    SplitLineOf(title, SourceTag, body);
    SplitLineOf(url, Rule, markdown);
  }
}
