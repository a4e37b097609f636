/**
 * The markdown file name of a crawled page: the URL with its scheme
 * strings removed and `/` and `:` turned into `_`, prefixed with the
 * zero-padded page index and `_`, suffixed with `.md`.
 */
module SafeFilename {
  import opened Wrappers
  import opened Text
  import opened DecimalFormat

  const HttpsScheme: string := "https://"
  const HttpScheme: string := "http://"

  /** `url.replace("https://", "").replace("http://", "")`. */
  function StripSchemes(url: string): string {
    ReplaceAll(ReplaceAll(url, HttpsScheme, ""), HttpScheme, "")
  }

  /** The URL part of the file name: the scheme-stripped URL with `.replace("/", "_").replace(":", "_")`. */
  function Body(url: string): string {
    ReplaceAll(ReplaceAll(StripSchemes(url), "/", "_"), ":", "_")
  }

  /** `f"{i:04d}_{body}.md"`. */
  function Filename(i: nat, url: string): string {
    Pad4(i) + "_" + Body(url) + ".md"
  }

  /**
   * Reads the page index back from a file name: the text before the first
   * `_` must be a non-empty run of decimal digits.
   */
  function ParseIndex(name: string): Option<nat> {
    var k := FindChar(name, '_');
    if k == 0 || k == |name| || !AllDigits(name[..k]) then None
    else Some(Value(name[..k]))
  }

  /** The body holds neither of the characters that could form a path or a drive/port separator. */
  lemma BodyHasNoSeparators(url: string)
    ensures '/' !in Body(url) && ':' !in Body(url)
  {
    var stripped := StripSchemes(url);
    var slashFree := ReplaceAll(stripped, "/", "_");
    ReplaceCharIsMap(stripped, '/', '_');
    assert '/' !in slashFree;
    ReplaceCharIsMap(slashFree, ':', '_');
  }

  /** No scheme string survives in the body, wherever it stood in the URL. */
  lemma BodyHasNoScheme(url: string)
    ensures !Contains(Body(url), HttpsScheme)
    ensures !Contains(Body(url), HttpScheme)
  {
    BodyHasNoSeparators(url);
    if Contains(Body(url), HttpsScheme) {
      ContainsHasChars(Body(url), HttpsScheme, 6);
      assert false;
    }
    if Contains(Body(url), HttpScheme) {
      ContainsHasChars(Body(url), HttpScheme, 5);
      assert false;
    }
  }

  /** Every step deletes characters or swaps one for one, so the body is never longer than the URL. */
  lemma BodyNotLonger(url: string)
    ensures |Body(url)| <= |url|
  {
    ReplaceAllNotLonger(url, HttpsScheme, "");
    var a := ReplaceAll(url, HttpsScheme, "");
    ReplaceAllNotLonger(a, HttpScheme, "");
    var b := ReplaceAll(a, HttpScheme, "");
    ReplaceAllNotLonger(b, "/", "_");
    ReplaceAllNotLonger(ReplaceAll(b, "/", "_"), ":", "_");
  }

  /**
   * A URL with no scheme string anywhere keeps its length, and each
   * character is kept except `/` and `:`, which become `_`.
   */
  lemma BodyOfSchemeFreeUrl(url: string)
    requires !Contains(url, HttpsScheme) && !Contains(url, HttpScheme)
    ensures |Body(url)| == |url|
    ensures forall k :: 0 <= k < |url| ==>
      Body(url)[k] == if url[k] == '/' || url[k] == ':' then '_' else url[k]
  {
    ReplaceAllAbsent(url, HttpsScheme, "");
    ReplaceAllAbsent(url, HttpScheme, "");
    ReplaceCharIsMap(url, '/', '_');
    ReplaceCharIsMap(ReplaceAll(url, "/", "_"), ':', '_');
  }

  /** A URL with no `/` and no `:` (hence no scheme string) is the body unchanged. */
  lemma BodyOfPlainUrl(url: string)
    requires '/' !in url && ':' !in url
    ensures Body(url) == url
  {
    if Contains(url, HttpsScheme) {
      ContainsHasChars(url, HttpsScheme, 6);
      assert false;
    }
    if Contains(url, HttpScheme) {
      ContainsHasChars(url, HttpScheme, 5);
      assert false;
    }
    BodyOfSchemeFreeUrl(url);
  }

  /** The file name has no `/` or `:`, so on POSIX it names a file directly inside the markdown directory. */
  lemma FilenameHasNoSeparators(i: nat, url: string)
    ensures '/' !in Filename(i, url) && ':' !in Filename(i, url)
  {
    BodyHasNoSeparators(url);
    Pad4Digits(i);
    var f := Filename(i, url);
    forall k | 0 <= k < |f| ensures f[k] != '/' && f[k] != ':' {
      var p := |Pad4(i)|;
      if k < p {
        assert f[k] == Pad4(i)[k];
      } else if k > p && k < p + 1 + |Body(url)| {
        assert f[k] == Body(url)[k - p - 1];
      }
    }
  }

  /** The file name ends with `.md`, right after the body. */
  lemma FilenameEndsWithMd(i: nat, url: string)
    ensures |Filename(i, url)| >= 3
    ensures Filename(i, url)[|Filename(i, url)| - 3..] == ".md"
  {
  }

  /**
   * The file name starts with the decimal index followed by `_`, and the
   * index is recovered from the text before the first `_`.
   */
  lemma {:induction false} ParseIndexOfFilename(i: nat, url: string)
    ensures ParseIndex(Filename(i, url)) == Some(i)
  {
    Pad4Digits(i);
    var p := Pad4(i);
    var f := Filename(i, url);
    assert '_' !in p by {
      forall k | 0 <= k < |p| ensures p[k] != '_' { assert IsDigit(p[k]); }
    }
    assert f == p + ("_" + Body(url) + ".md");
    FindCharAfter(p, "_" + Body(url) + ".md", '_');
    assert f[..|p|] == p;
  }

  /** For the first 10000 pages the file name starts with exactly four digits, then `_`. */
  lemma FilenamePrefixSmall(i: nat, url: string)
    requires i < 10000
    ensures Filename(i, url)[..5] == FourDigits(i) + "_"
  {
    Pad4Small(i);
    assert Filename(i, url) == (FourDigits(i) + "_") + (Body(url) + ".md");
  }

  /** Distinct page indices give distinct file names, even for the same URL. */
  lemma FilenameInjective(i: nat, j: nat, u: string, v: string)
    requires i != j
    ensures Filename(i, u) != Filename(j, v)
  {
    ParseIndexOfFilename(i, u);
    ParseIndexOfFilename(j, v);
  }

  /** The body alone does not tell URLs apart; only the index prefix keeps names unique. */
  lemma BodyCollides()
    ensures Body("https://a/b") == Body("http://a:b") == "a_b"
  {
    BodyOfSchemeFreeShortUrl("a/b");
    BodyOfSchemeFreeShortUrl("a:b");
    BodyDropsLeadingScheme("a/b");
    BodyDropsLeadingScheme("a:b");
    assert HttpsScheme + "a/b" == "https://a/b";
    assert HttpScheme + "a:b" == "http://a:b";
  }

  lemma BodyOfSchemeFreeShortUrl(url: string)
    requires url == "a/b" || url == "a:b"
    ensures Body(url) == "a_b"
  {
    BodyOfSchemeFreeUrl(url);
  }

  /** A leading `https://` or `http://` is dropped from the body. */
  lemma BodyDropsLeadingScheme(rest: string)
    ensures Body(HttpsScheme + rest) == Body(rest)
    ensures Body(HttpScheme + rest) == Body(rest)
  {
    var a := ReplaceAll(rest, HttpsScheme, "");
    ReplaceAllDropsLeading(HttpsScheme, rest, "");
    assert "" + a == a;
    assert StripSchemes(HttpsScheme + rest) == StripSchemes(rest);
    HttpsPassKeepsHttp(rest);
    ReplaceAllDropsLeading(HttpScheme, a, "");
    assert "" + ReplaceAll(a, HttpScheme, "") == ReplaceAll(a, HttpScheme, "");
    assert StripSchemes(HttpScheme + rest) == StripSchemes(rest);
  }

  /** The `https://` pass leaves a leading `http://` in place. */
  lemma HttpsPassKeepsHttp(rest: string)
    ensures ReplaceAll(HttpScheme + rest, HttpsScheme, "") == HttpScheme + ReplaceAll(rest, HttpsScheme, "")
  {
    var t := HttpScheme + rest;
    var a := ReplaceAll(rest, HttpsScheme, "");
    if |t| < 8 {
      assert ReplaceAll(rest, HttpsScheme, "") == rest;
    } else {
      assert t[..8] != HttpsScheme by { assert t[4] == ':'; }
      assert t[1..] == "ttp://" + rest;
      ReplaceAllSkipsPrefix("ttp://", rest, HttpsScheme, "");
      assert ['h'] + ("ttp://" + a) == HttpScheme + a;
    }
  }
}
