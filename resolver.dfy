/**
 * The URL resolver, `parse_book_url`: from a book's landing-page URL, its
 * title, its author and a format name to the direct download URL and the
 * human-friendly local file name.
 */
module Resolver {
  import opened Wrappers
  import opened Strings

  /** The direct download URL and the local file name for one format. */
  datatype Resolved = Resolved(downloadUrl: string, fileName: string)

  /** `ValueError("Unsupported format: ...")`, carrying the lower-cased format. */
  datatype ResolveError = UnsupportedFormat(format: string)

  /** The value of a hexadecimal digit (either case), or -1. */
  function HexValue(c: char): (v: int)
    ensures -1 <= v < 16
  {
    if '0' <= c <= '9' then c as int - '0' as int
    else if 'a' <= c <= 'f' then c as int - 'a' as int + 10
    else if 'A' <= c <= 'F' then c as int - 'A' as int + 10
    else -1
  }

  /** The upper-case hexadecimal digit for `v`. */
  function HexDigit(v: int): (c: char)
    requires 0 <= v < 16
    ensures HexValue(c) == v
  {
    if v < 10 then ('0' as int + v) as char else ('A' as int + v - 10) as char
  }

  /** `s` starts with an escape `%XX` that stands for an ASCII character. */
  predicate AsciiEscapeAt(s: string)
  {
    |s| >= 3 && s[0] == '%' && HexValue(s[1]) >= 0 && HexValue(s[2]) >= 0
    && HexValue(s[1]) * 16 + HexValue(s[2]) < 0x80
  }

  /** The character an escape at the start of `s` stands for. */
  function EscapeChar(s: string): char
    requires AsciiEscapeAt(s)
  {
    (HexValue(s[1]) * 16 + HexValue(s[2])) as char
  }

  /** Whether an escape starts the text depends on its first three characters only. */
  lemma EscapeOfPrefix(p: string, r: string)
    requires AsciiEscapeAt(p)
    ensures AsciiEscapeAt(p + r) && EscapeChar(p + r) == EscapeChar(p) && (p + r)[3..] == p[3..] + r
  {
    var s := p + r;
    assert s[0] == p[0] && s[1] == p[1] && s[2] == p[2];
  }

  /** A `%` among the first three characters, or a different start, rules out an escape. */
  lemma NoEscapeBeforePercent(p: string, r: string)
    requires p != [] && !AsciiEscapeAt(p) && r != [] && r[0] == '%'
    ensures !AsciiEscapeAt(p + r) && (p + r)[0] == p[0] && (p + r)[1..] == p[1..] + r
  {
    var s := p + r;
    if |p| >= 3 {
      assert s[0] == p[0] && s[1] == p[1] && s[2] == p[2];
    } else {
      assert s[|p|] == '%';
    }
    assert s[1..] == p[1..] + r;
  }

  /**
   * `urllib.parse.unquote(s)` for escapes of ASCII characters: each `%XX`
   * with two hexadecimal digits and a value below 0x80 becomes that
   * character, scanning left to right; anything else is kept as it is.
   */
  function Unquote(s: string): (r: string)
    ensures |r| <= |s|
    decreases |s|
  {
    if s == [] then []
    else if AsciiEscapeAt(s) then
      [EscapeChar(s)] + Unquote(s[3..])
    else [s[0]] + Unquote(s[1..])
  }

  /** Text without `%` is left as it is. */
  lemma {:induction false} UnquotePlain(s: string)
    requires '%' !in s
    ensures Unquote(s) == s
    decreases |s|
  {
    if s != [] {
      assert s[0] in s;
      assert !AsciiEscapeAt(s);
      assert forall k :: 0 <= k < |s| - 1 ==> s[1..][k] == s[k + 1];
      UnquotePlain(s[1..]);
      assert [s[0]] + s[1..] == s;
    }
  }

  /** The escape of an ASCII character decodes back to that character. */
  lemma UnquoteEscape(c: char, rest: string)
    requires c as int < 0x80
    ensures Unquote(['%', HexDigit(c as int / 16), HexDigit(c as int % 16)] + rest) == [c] + Unquote(rest)
  {
    var s := ['%', HexDigit(c as int / 16), HexDigit(c as int % 16)] + rest;
    assert AsciiEscapeAt(s);
    assert s[3..] == rest;
  }

  /** Sanitising a title or an author: each `/` becomes `_`. */
  function Sanitize(s: string): (r: string)
    ensures '/' !in r
  {
    Translate(s, '/', '_')
  }

  /** The text that replaces `book` for a supported format. */
  function Rewrite(fmt: string): string
  {
    if fmt == "pdf" then "content/" + fmt else "download/" + fmt
  }

  /**
   * The direct download URL for a supported (lower-cased) format: the
   * decoded URL with every `book` rewritten, followed by the extension.
   */
  function DownloadUrl(url: string, fmt: string): (d: string)
    ensures EndsWith(d, "." + fmt)
  {
    ReplaceAll(Unquote(url), "book", Rewrite(fmt)) + ("." + fmt)
  }

  /**
   * The local file name: sanitised title and author and the last segment
   * of the download URL, joined by " - ".
   */
  function FileName(title: string, author: string, downloadUrl: string): (n: string)
    ensures '/' !in n
    ensures EndsWith(n, PathTail(downloadUrl))
  {
    var tail := PathTail(downloadUrl);
    var n := Sanitize(title) + " - " + Sanitize(author) + " - " + tail;
    assert n[|n| - |tail|..] == tail;
    n
  }

  /** The last segment of a download URL ends with the extension. */
  lemma TailKeepsExtension(url: string, fmt: string)
    requires '/' !in fmt
    ensures EndsWith(PathTail(DownloadUrl(url, fmt)), "." + fmt)
  {
    var base := ReplaceAll(Unquote(url), "book", Rewrite(fmt));
    PathTailAppend(base, "." + fmt);
    var tail := PathTail(base);
    assert (tail + ("." + fmt))[|tail|..] == "." + fmt;
  }

  /** Ending with a suffix of a suffix. */
  lemma EndsWithTrans(s: string, t: string, u: string)
    requires EndsWith(s, t) && EndsWith(t, u)
    ensures EndsWith(s, u)
  {
    assert s[|s| - |u|..] == s[|s| - |t|..][|t| - |u|..];
  }

  /**
   * `parse_book_url(url, title, author, format)`. The format is compared
   * after lower-casing; only `pdf` and `epub` are accepted. The resulting
   * file name is a single path component ending in the extension.
   */
  function ParseBookUrl(url: string, title: string, author: string, format: string): (r: Result<Resolved, ResolveError>)
    ensures r.Ok? <==> Lower(format) == "pdf" || Lower(format) == "epub"
    ensures r.Err? ==> r.error == UnsupportedFormat(Lower(format))
    ensures r.Ok? ==> EndsWith(r.value.downloadUrl, "." + Lower(format))
    ensures r.Ok? ==> '/' !in r.value.fileName && EndsWith(r.value.fileName, "." + Lower(format))
  {
    var fmt := Lower(format);
    if fmt == "pdf" || fmt == "epub" then Ok(Resolve(url, title, author, fmt))
    else Err(UnsupportedFormat(fmt))
  }

  /**
   * The accepted branch of `parse_book_url`, for a format already lower
   * case: the direct URL and a file name without `/`, both ending in the
   * format's extension.
   */
  function Resolve(url: string, title: string, author: string, fmt: string): (r: Resolved)
    requires fmt == "pdf" || fmt == "epub"
    ensures EndsWith(r.downloadUrl, "." + fmt)
    ensures '/' !in r.fileName && EndsWith(r.fileName, "." + fmt)
  {
    var d := DownloadUrl(url, fmt);
    var n := FileName(title, author, d);
    FormatWithoutSlash(fmt);
    TailKeepsExtension(url, fmt);
    EndsWithTrans(n, PathTail(d), "." + fmt);
    Resolved(d, n)
  }

  /** Neither accepted format contains `/`. */
  lemma FormatWithoutSlash(fmt: string)
    requires fmt == "pdf" || fmt == "epub"
    ensures '/' !in fmt
  {
  }

  /** The two format names the downloader passes are already lower case. */
  lemma LowerFormats()
    ensures Lower("pdf") == "pdf" && Lower("epub") == "epub"
  {
  }

  /** The format is matched case-insensitively: `"PDF"` resolves exactly like `"pdf"`. */
  lemma FormatIsCaseInsensitive(url: string, title: string, author: string, format: string)
    ensures ParseBookUrl(url, title, author, format) == ParseBookUrl(url, title, author, Lower(format))
  {
    LowerIdempotent(format);
  }

  /** A decoded URL without `book` is only extended by the extension. */
  lemma NoBookKeepsUrl(url: string, title: string, author: string, format: string)
    requires Lower(format) == "pdf" || Lower(format) == "epub"
    requires forall i :: !OccursAt(Unquote(url), "book", i)
    ensures ParseBookUrl(url, title, author, format).value.downloadUrl == Unquote(url) + "." + Lower(format)
  {
    ReplaceNoMatch(Unquote(url), "book", Rewrite(Lower(format)));
  }

  /**
   * The first `book` of the decoded URL becomes `content/pdf` or
   * `download/epub`; the text before it is kept, and when no other `book`
   * follows, so is the text after it.
   */
  lemma FirstBookRewritten(url: string, title: string, author: string, format: string, a: string, b: string)
    requires Lower(format) == "pdf" || Lower(format) == "epub"
    requires Unquote(url) == a + "book" + b
    requires forall i :: 0 <= i < |a| ==> !OccursAt(Unquote(url), "book", i)
    ensures var fmt := Lower(format);
      var seg := if fmt == "pdf" then "content/pdf" else "download/epub";
      var d := ParseBookUrl(url, title, author, format).value.downloadUrl;
      && d == a + seg + ReplaceAll(b, "book", seg) + "." + fmt
      && ((forall i :: !OccursAt(b, "book", i)) ==> d == a + seg + b + "." + fmt)
  {
    var fmt := Lower(format);
    var seg := Rewrite(fmt);
    assert seg == if fmt == "pdf" then "content/pdf" else "download/epub";
    var d := ParseBookUrl(url, title, author, format).value.downloadUrl;
    assert d == ReplaceAll(a + "book" + b, "book", seg) + ("." + fmt);
    ReplaceFirstMatch(a, b, "book", seg);
    assert d == a + seg + ReplaceAll(b, "book", seg) + "." + fmt;
    if forall i :: !OccursAt(b, "book", i) {
      ReplaceNoMatch(b, "book", seg);
    }
  }

  /**
   * Sanitising keeps the length, turns each `/` into `_` and keeps every
   * other character.
   */
  lemma SanitizeMapsSlashes(s: string)
    ensures |Sanitize(s)| == |s|
    ensures forall i :: 0 <= i < |s| ==> Sanitize(s)[i] == (if s[i] == '/' then '_' else s[i])
    ensures '/' in s ==> Sanitize(s) != s
  {
    if '/' in s {
      var k :| 0 <= k < |s| && s[k] == '/';
      assert Sanitize(s)[k] == '_';
    }
  }

  /**
   * The file name is the sanitised title, the sanitised author and the
   * download URL's last segment (what follows its last `/`), joined by " - ".
   */
  lemma FileNameStructure(url: string, title: string, author: string, format: string)
    requires Lower(format) == "pdf" || Lower(format) == "epub"
    ensures var r := ParseBookUrl(url, title, author, format).value;
      var tail := PathTail(r.downloadUrl);
      && r.fileName == Sanitize(title) + " - " + Sanitize(author) + " - " + tail
      && EndsWith(r.downloadUrl, tail)
      && (|tail| < |r.downloadUrl| ==> r.downloadUrl[|r.downloadUrl| - |tail| - 1] == '/')
  {
    PathTailIsLastSegment(DownloadUrl(url, Lower(format)));
  }

  /**
   * An escape cannot reach across a `%`: text starting with `%` is decoded
   * on its own, after what precedes it.
   */
  lemma {:induction false} UnquoteSplitAtPercent(p: string, r: string)
    requires r != [] && r[0] == '%'
    ensures Unquote(p + r) == Unquote(p) + Unquote(r)
    decreases |p|, 1
  {
    if p == [] {
      assert p + r == r;
    } else if AsciiEscapeAt(p) {
      UnquoteSplitEscape(p, r);
    } else {
      UnquoteSplitPlain(p, r);
    }
  }

  /** The case of `UnquoteSplitAtPercent` where an escape starts the text. */
  lemma {:induction false} UnquoteSplitEscape(p: string, r: string)
    requires r != [] && r[0] == '%' && AsciiEscapeAt(p)
    ensures Unquote(p + r) == Unquote(p) + Unquote(r)
    decreases |p|, 0
  {
    EscapeOfPrefix(p, r);
    UnquoteSplitAtPercent(p[3..], r);
    var c := [EscapeChar(p)];
    var tail := Unquote(p[3..]);
    assert c + (tail + Unquote(r)) == (c + tail) + Unquote(r);
  }

  /** The case of `UnquoteSplitAtPercent` where the first character is kept. */
  lemma {:induction false} UnquoteSplitPlain(p: string, r: string)
    requires r != [] && r[0] == '%' && p != [] && !AsciiEscapeAt(p)
    ensures Unquote(p + r) == Unquote(p) + Unquote(r)
    decreases |p|, 0
  {
    NoEscapeBeforePercent(p, r);
    UnquoteSplitAtPercent(p[1..], r);
    var tail := Unquote(p[1..]);
    assert [p[0]] + (tail + Unquote(r)) == ([p[0]] + tail) + Unquote(r);
  }

  /** An encoded slash followed by plain text decodes to a real slash. */
  lemma DecodeEncodedSlash(p: string, q: string)
    requires '%' !in q
    ensures Unquote(p + "%2F" + q) == Unquote(p) + "/" + q
  {
    assert p + "%2F" + q == p + ("%2F" + q);
    UnquoteSplitAtPercent(p, "%2F" + q);
    assert AsciiEscapeAt("%2F" + q);
    assert ("%2F" + q)[3..] == q;
    UnquotePlain(q);
  }

  /** A slash followed by text without `book` holds no `book` to rewrite. */
  lemma RewriteStopsAtSlash(x: string, q: string, seg: string)
    requires forall i :: !OccursAt(q, "book", i)
    ensures ReplaceAll(x + "/" + q, "book", seg) == ReplaceAll(x, "book", seg) + "/" + q
  {
    var z := "/" + q;
    assert x + "/" + q == x + z;
    ReplaceSplit(x, z, "book", seg);
    assert !OccursAt(z, "book", 0) by {
      assert z[0] == '/';
    }
    ReplacePastChar(z, "book", seg);
    assert z[1..] == q;
    ReplaceNoMatch(q, "book", seg);
  }

  /** What follows the last slash. */
  lemma TailAfterSlash(x: string, q: string)
    requires '/' !in q
    ensures PathTail(x + "/" + q) == q
  {
    PathTailAppend(x + "/", q);
    assert PathTail(x + "/") == [];
  }

  /**
   * A landing URL ending in an encoded slash `%2F` followed by plain text
   * (as a DOI is, with its prefix before the `%2F`) decodes to a real
   * separator, so the file name ends in that text and the extension only:
   * everything before the `%2F` is not part of the name.
   */
  lemma EncodedSlashEndsFileName(url: string, title: string, author: string, format: string, p: string, q: string)
    requires Lower(format) == "pdf" || Lower(format) == "epub"
    requires url == p + "%2F" + q
    requires '%' !in q && '/' !in q && forall i :: !OccursAt(q, "book", i)
    ensures var r := ParseBookUrl(url, title, author, format).value;
      var fmt := Lower(format);
      && r.downloadUrl == ReplaceAll(Unquote(p), "book", Rewrite(fmt)) + "/" + q + ("." + fmt)
      && r.fileName == Sanitize(title) + " - " + Sanitize(author) + " - " + (q + ("." + fmt))
  {
    var fmt := Lower(format);
    var d := DownloadUrl(url, fmt);
    EncodedSlashUrl(p, q, fmt);
    EncodedSlashTail(ReplaceAll(Unquote(p), "book", Rewrite(fmt)), q, fmt);
    assert ParseBookUrl(url, title, author, format).value == Resolved(d, FileName(title, author, d));
  }

  /** `EncodedSlashEndsFileName` on the download URL. */
  lemma EncodedSlashUrl(p: string, q: string, fmt: string)
    requires '%' !in q && forall i :: !OccursAt(q, "book", i)
    ensures DownloadUrl(p + "%2F" + q, fmt) == ReplaceAll(Unquote(p), "book", Rewrite(fmt)) + "/" + q + ("." + fmt)
  {
    DecodeEncodedSlash(p, q);
    RewriteStopsAtSlash(Unquote(p), q, Rewrite(fmt));
  }

  /** `EncodedSlashEndsFileName` on the last segment. */
  lemma EncodedSlashTail(x: string, q: string, fmt: string)
    requires '/' !in q && '/' !in fmt
    ensures PathTail(x + "/" + q + ("." + fmt)) == q + ("." + fmt)
  {
    assert x + "/" + q + ("." + fmt) == x + "/" + (q + ("." + fmt));
    TailAfterSlash(x, q + ("." + fmt));
  }
}
