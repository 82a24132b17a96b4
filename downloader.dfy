/**
 * The single-book downloader, `download_book`, and the batch coordinator,
 * `download_books`, over an abstract filesystem and network.
 *
 * The filesystem is a map from paths to file contents plus a set of
 * directories. The network is an oracle: the reply to the n-th request for
 * a URL, after redirects, or an exception. Every request is appended to a
 * log, so the model can say how many requests were made and for what.
 */
module Downloader {
  import opened Wrappers
  import opened Strings
  import opened Resolver
  import opened Catalog

  newtype byte = b: int | 0 <= b < 256

  type Path = string

  /**
   * What `requests.get(url)` gives: an exception (connection error, too many
   * redirects, ...) or a response with its final URL, status and body.
   */
  datatype Response = Raised | Reply(url: string, status: int, content: seq<byte>)

  /** The network: the response to request number `n` (counted from 0) for a URL. */
  type Web = (nat, string) -> Response

  /** One entry of the `success` dict: `None`, `"exists"`, `False` or `True`. */
  datatype Status = Unset | Exists | Done(ok: bool)

  /** The `success` dict, with its keys `pdf` and `epub`. */
  datatype Success = Success(pdf: Status, epub: Status)

  /** Files with their contents, directories, and every request made so far. */
  datatype World = World(files: map<Path, seq<byte>>, dirs: set<Path>, log: seq<string>)

  /** `dir / name`. */
  function JoinPath(dir: Path, name: string): Path
  {
    dir + "/" + name
  }

  /** `path.exists()`: a file or a directory is there. */
  predicate PathExists(w: World, path: Path)
  {
    path in w.files || path in w.dirs
  }

  /** `path` is a file name directly inside directory `dir`. */
  predicate DirectlyIn(path: Path, dir: Path)
  {
    |path| > |dir| + 1 && path[..|dir| + 1] == dir + "/" && '/' !in path[|dir| + 1..]
  }

  /** The directory a path is in: everything before its last `/`. */
  function Parent(p: Path): Path
  {
    PathTailIsLastSegment(p);
    var t := PathTail(p);
    if |t| < |p| then p[..|p| - |t| - 1] else ""
  }

  /** A name without `/` joined to a directory is directly inside that directory. */
  lemma ParentOfJoin(dir: Path, name: string)
    requires '/' !in name
    ensures Parent(JoinPath(dir, name)) == dir
  {
    PathTailAppend(dir + "/", name);
    assert PathTail(dir + "/") == [];
    PathTailIsLastSegment(JoinPath(dir, name));
  }

  /**
   * Making `dst / name` for a slash-free name succeeds exactly when it is
   * already a directory, or when no file is in the way and `dst` exists.
   */
  lemma MkdirNeedsParent(w: World, dst: Path, name: string)
    requires '/' !in name
    ensures MkdirWorld(w, JoinPath(dst, name)).Some?
      <==> JoinPath(dst, name) in w.dirs || (JoinPath(dst, name) !in w.files && dst in w.dirs)
  {
    ParentOfJoin(dst, name);
  }

  /**
   * `dir.mkdir(exist_ok=True)`: nothing happens when the directory exists;
   * it raises (None) when a file is in the way or the parent directory is
   * missing.
   */
  function MkdirWorld(w: World, dir: Path): Option<World>
  {
    if dir in w.dirs then Some(w)
    else if dir in w.files || Parent(dir) !in w.dirs then None
    else Some(w.(dirs := w.dirs + {dir}))
  }

  /** The outcome of one format: a status, or an exception that ends the book. */
  datatype Step = Step(world: World, status: Status) | Abort(world: World)

  /**
   * The decision for one target file: an existing target is `"exists"` and
   * nothing is fetched; otherwise the status is `False`, the direct URL is
   * fetched, and a 200 reply is written to the target, the status becoming
   * whether the body was non-empty.
   */
  function FetchAsset(w: World, web: Web, path: Path, url: string): Step
  {
    if PathExists(w, path) then Step(w, Exists)
    else
      var fetched := w.(log := w.log + [url]);
      match web(|w.log|, url)
      case Raised => Abort(fetched)
      case Reply(_, status, content) =>
        if status == 200 then Step(fetched.(files := fetched.files[path := content]), Done(|content| > 0))
        else Step(fetched, Done(false))
  }

  /** A pdf or an epub directly inside `dir`: the only kind of file the downloader writes. */
  predicate BookFile(path: Path, dir: Path)
  {
    DirectlyIn(path, dir) && (EndsWith(path, ".pdf") || EndsWith(path, ".epub"))
  }

  /** The two extensions a format gives its target. */
  lemma KnownExtension(fmt: string)
    requires fmt == "pdf" || fmt == "epub"
    ensures "." + fmt == ".pdf" || "." + fmt == ".epub"
  {
  }

  /** The direct URL and the target path of one format, from the landing page's final URL. */
  function Target(dir: Path, landing: string, title: string, author: string, fmt: string): (t: Resolved)
    requires fmt == "pdf" || fmt == "epub"
    ensures DirectlyIn(t.fileName, dir) && EndsWith(t.fileName, "." + fmt) && BookFile(t.fileName, dir)
    ensures EndsWith(t.downloadUrl, "." + fmt)
  {
    var r := Resolve(landing, title, author, fmt);
    var path := JoinPath(dir, r.fileName);
    assert path[..|dir| + 1] == dir + "/" && path[|dir| + 1..] == r.fileName;
    EndsWithTrans(path, r.fileName, "." + fmt);
    KnownExtension(fmt);
    Resolved(r.downloadUrl, path)
  }

  /** One format of one book: resolve it, then `FetchAsset` on its target. */
  function FormatStep(w: World, web: Web, dir: Path, landing: string, title: string, author: string, fmt: string): Step
    requires fmt == "pdf" || fmt == "epub"
  {
    var t := Target(dir, landing, title, author, fmt);
    FetchAsset(w, web, t.fileName, t.downloadUrl)
  }

  /** How a call of `download_book` ends: it returns `True`, or it raises. */
  datatype Run = Completed(world: World, success: Success) | Failed(world: World)

  /** The `success` key a run leaves on the book: set when it completed, absent when it raised. */
  function Outcome(run: Run): Option<Success>
  {
    if run.Completed? then Some(run.success) else None
  }

  /**
   * The formats of a book once its landing page answered: the pdf target,
   * then, when asked, the epub target; an exception in either ends the book.
   */
  function FetchFormats(w: World, web: Web, pdf: Resolved, epub: Resolved, getEpub: bool): Run
  {
    match FetchAsset(w, web, pdf.fileName, pdf.downloadUrl)
    case Abort(w1) => Failed(w1)
    case Step(w1, p) =>
      if !getEpub then Completed(w1, Success(p, Unset))
      else
        match FetchAsset(w1, web, epub.fileName, epub.downloadUrl)
        case Abort(w2) => Failed(w2)
        case Step(w2, e) => Completed(w2, Success(p, e))
  }

  /**
   * `download_book(book, dst, get_epub)`: make the package directory, fetch
   * the landing page once, then the pdf and, when asked, the epub, both
   * resolved from the landing page's final URL.
   */
  function DownloadBookRun(w: World, web: Web, book: BookInfo, dst: Path, getEpub: bool): Run
  {
    var dir := JoinPath(dst, book.pkg);
    match MkdirWorld(w, dir)
    case None => Failed(w)
    case Some(made) =>
      var landed := made.(log := made.log + [book.url]);
      match web(|made.log|, book.url)
      case Raised => Failed(landed)
      case Reply(landing, _, _) =>
        FetchFormats(landed, web, Target(dir, landing, book.title, book.author, "pdf"),
                     Target(dir, landing, book.title, book.author, "epub"), getEpub)
  }

  /** The final state of a batch and the `success` key each book is left with. */
  datatype Batch = Batch(world: World, outcomes: seq<Option<Success>>)

  /** What the batch does with one book: a run of it on the current state. */
  type Runner = (World, BookInfo) -> Run

  /** `download_book` with the batch's network, destination and `get_epub` fixed. */
  function BookRunner(web: Web, dst: Path, getEpub: bool): Runner
  {
    (w: World, book: BookInfo) => DownloadBookRun(w, web, book, dst, getEpub)
  }

  /** One more book of a batch, run on the state the earlier ones left. */
  function BatchStep(before: Batch, runner: Runner, book: BookInfo): (after: Batch)
  {
    var run := runner(before.world, book);
    Batch(run.world, before.outcomes + [Outcome(run)])
  }

  /**
   * A batch up to its `n`-th book, one book after the other in table order:
   * each book runs on the state the earlier ones left, whether they
   * completed or not.
   */
  function BatchPrefix(w: World, runner: Runner, books: seq<BookInfo>, n: nat): (b: Batch)
    requires n <= |books|
    ensures |b.outcomes| == n
  {
    if n == 0 then Batch(w, [])
    else BatchStep(BatchPrefix(w, runner, books, n - 1), runner, books[n - 1])
  }

  /** `download_books` on all the books. */
  function BatchRun(w: World, web: Web, books: seq<BookInfo>, dst: Path, getEpub: bool): (b: Batch)
  {
    BatchPrefix(w, BookRunner(web, dst, getEpub), books, |books|)
  }

  /** A book dict: the four catalog keys, and `success` once `download_book` returned. */
  class BookRecord {
    const title: string
    const author: string
    const pkg: string
    const url: string
    var success: Option<Success>

    constructor (info: BookInfo)
      ensures Info() == info && success == None
    {
      title, author, pkg, url := info.title, info.author, info.pkg, info.url;
      success := None;
    }

    function Info(): BookInfo
    {
      BookInfo(title, author, pkg, url)
    }
  }

  /** The filesystem and the network, as the downloader sees them. */
  class Machine {
    var files: map<Path, seq<byte>>
    var dirs: set<Path>
    var log: seq<string>
    const web: Web

    constructor (files0: map<Path, seq<byte>>, dirs0: set<Path>, web0: Web)
      ensures State() == World(files0, dirs0, []) && web == web0
    {
      files, dirs, log := files0, dirs0, [];
      web := web0;
    }

    function State(): World
      reads this
    {
      World(files, dirs, log)
    }

    /** `dir.mkdir(exist_ok=True)`; false when it raises. */
    method Mkdir(dir: Path) returns (ok: bool)
      modifies this
      ensures var r := MkdirWorld(old(State()), dir);
        ok == r.Some? && State() == (if ok then r.value else old(State()))
    {
      if dir in dirs {
        return true;
      }
      if dir in files || Parent(dir) !in dirs {
        return false;
      }
      dirs := dirs + {dir};
      ok := true;
    }

    /** `path.exists()`. */
    method ExistsAt(path: Path) returns (b: bool)
      ensures b == PathExists(State(), path)
    {
      b := path in files || path in dirs;
    }

    /** `requests.get(url)`: one request, logged. */
    method Get(url: string) returns (response: Response)
      modifies this
      ensures response == web(|old(log)|, url)
      ensures State() == old(State()).(log := old(log) + [url])
    {
      response := web(|log|, url);
      log := log + [url];
    }

    /** `open(path, "wb").write(content)`: returns the number of bytes written. */
    method Write(path: Path, content: seq<byte>) returns (written: nat)
      modifies this
      ensures written == |content|
      ensures State() == old(State()).(files := old(files)[path := content])
    {
      files := files[path := content];
      written := |content|;
    }

    /** One format of `download_book`; `ok` is false when a request raised. */
    method DownloadFormat(dir: Path, landing: string, title: string, author: string, fmt: string)
      returns (ok: bool, status: Status)
      requires fmt == "pdf" || fmt == "epub"
      modifies this
      ensures var step := FormatStep(old(State()), web, dir, landing, title, author, fmt);
        State() == step.world && ok == step.Step? && (ok ==> status == step.status)
    {
      var target := Target(dir, landing, title, author, fmt);
      var present := ExistsAt(target.fileName);
      if present {
        return true, Exists;
      }
      status := Done(false);
      var response := Get(target.downloadUrl);
      if response.Raised? {
        return false, status;
      }
      if response.status == 200 {
        var written := Write(target.fileName, response.content);
        status := Done(written > 0);
      }
      ok := true;
    }

    /**
     * `download_book(book, dst, get_epub)`: `ok` is true when it returns
     * `True`, and then the book's `success` is set; when it raises, the book
     * is untouched and the filesystem keeps what was done before the error.
     */
    method DownloadBook(book: BookRecord, dst: Path, getEpub: bool) returns (ok: bool)
      modifies this, book
      ensures var run := DownloadBookRun(old(State()), web, book.Info(), dst, getEpub);
        && State() == run.world
        && ok == run.Completed?
        && book.success == (if ok then Some(run.success) else old(book.success))
    {
      var bookDir := JoinPath(dst, book.pkg);
      var made := Mkdir(bookDir);
      if !made {
        return false;
      }
      var success := Success(Unset, Unset);
      var request := Get(book.url);
      if request.Raised? {
        return false;
      }
      var pdfOk, pdf := DownloadFormat(bookDir, request.url, book.title, book.author, "pdf");
      if !pdfOk {
        return false;
      }
      success := success.(pdf := pdf);
      if getEpub {
        var epubOk, epub := DownloadFormat(bookDir, request.url, book.title, book.author, "epub");
        if !epubOk {
          return false;
        }
        success := success.(epub := epub);
      }
      book.success := Some(success);
      ok := true;
    }

    /** One fresh record per catalog entry, in order, none with `success` yet. */
    method NewRecords(infos: seq<BookInfo>) returns (books: seq<BookRecord>)
      ensures |books| == |infos|
      ensures forall i :: 0 <= i < |books| ==> fresh(books[i])
      ensures forall i, j :: 0 <= i < j < |books| ==> books[i] != books[j]
      ensures forall i :: 0 <= i < |books| ==> books[i].Info() == infos[i] && books[i].success == None
    {
      books := [];
      var i := 0;
      while i < |infos|
        invariant 0 <= i <= |infos| && |books| == i
        invariant forall k :: 0 <= k < i ==> fresh(books[k])
        invariant forall k, l :: 0 <= k < l < i ==> books[k] != books[l]
        invariant forall k :: 0 <= k < i ==> books[k].Info() == infos[k] && books[k].success == None
      {
        var record := new BookRecord(infos[i]);
        books := books + [record];
        i := i + 1;
      }
    }

    /**
     * `download_book` on record `i` of a batch: the batch over the first `i`
     * records grows into the batch over the first `i + 1`, and the other
     * records are untouched.
     */
    method DownloadNext(books: seq<BookRecord>, ghost infos: seq<BookInfo>, i: nat, dst: Path, getEpub: bool,
                        ghost start: World, ghost before: Batch)
      returns (ghost after: Batch)
      requires i < |books| == |infos|
      requires forall k, l :: 0 <= k < l < |books| ==> books[k] != books[l]
      requires books[i].Info() == infos[i]
      requires before == BatchPrefix(start, BookRunner(web, dst, getEpub), infos, i)
      requires files == before.world.files && dirs == before.world.dirs && log == before.world.log
      requires forall k :: 0 <= k < |books| ==> books[k].success == if k < i then before.outcomes[k] else None
      modifies this, books[i]
      ensures after == BatchPrefix(start, BookRunner(web, dst, getEpub), infos, i + 1)
      ensures files == after.world.files && dirs == after.world.dirs && log == after.world.log
      ensures forall k :: 0 <= k < |books| ==> books[k].success == if k < i + 1 then after.outcomes[k] else None
    {
      ghost var run := DownloadBookRun(before.world, web, infos[i], dst, getEpub);
      var _ := DownloadBook(books[i], dst, getEpub);
      after := Batch(run.world, before.outcomes + [Outcome(run)]);
      assert after == BatchStep(before, BookRunner(web, dst, getEpub), infos[i]);
      assert after.outcomes[i] == Outcome(run) == books[i].success;
      forall k | 0 <= k < |books|
        ensures books[k].success == if k < i + 1 then after.outcomes[k] else None
      {
        if k != i {
          assert books[k] != books[i];
          assert books[k].success == old(books[k].success);
          assert k < i ==> after.outcomes[k] == before.outcomes[k];
        }
      }
    }

    /** `download_book` on every record in turn, on the state the previous ones left. */
    method DownloadAll(books: seq<BookRecord>, ghost infos: seq<BookInfo>, dst: Path, getEpub: bool)
      requires |books| == |infos|
      requires forall i, j :: 0 <= i < j < |books| ==> books[i] != books[j]
      requires forall i :: 0 <= i < |books| ==> books[i].Info() == infos[i] && books[i].success == None
      modifies this, books
      ensures var batch := BatchRun(old(State()), web, infos, dst, getEpub);
        && files == batch.world.files && dirs == batch.world.dirs && log == batch.world.log
        && forall i :: 0 <= i < |books| ==> books[i].success == batch.outcomes[i]
    {
      ghost var start := State();
      ghost var batch := Batch(start, []);
      var i := 0;
      while i < |books|
        invariant 0 <= i <= |books|
        invariant batch == BatchPrefix(start, BookRunner(web, dst, getEpub), infos, i)
        invariant files == batch.world.files && dirs == batch.world.dirs && log == batch.world.log
        invariant forall k :: 0 <= k < |books| ==> books[k].success == if k < i then batch.outcomes[k] else None
      {
        batch := DownloadNext(books, infos, i, dst, getEpub, start, batch);
        i := i + 1;
      }
      assert batch == BatchRun(start, web, infos, dst, getEpub);
    }

    /**
     * `download_books(dst, table, get_epub)`: one record per row, in table
     * order, each passed to `download_book`; an exception leaves its record
     * without `success` and the batch goes on.
     */
    method DownloadBooks(dst: Path, table: seq<Row>, getEpub: bool) returns (books: seq<BookRecord>)
      modifies this
      ensures |books| == |table|
      ensures forall i :: 0 <= i < |books| ==> fresh(books[i])
      ensures forall i, j :: 0 <= i < j < |books| ==> books[i] != books[j]
      ensures forall i :: 0 <= i < |books| ==> books[i].Info() == BookInfoFromTable(table)[i]
      ensures var batch := BatchRun(old(State()), web, BookInfoFromTable(table), dst, getEpub);
        && State() == batch.world
        && forall i :: 0 <= i < |books| ==> books[i].success == batch.outcomes[i]
    {
      var infos := BookInfoFromTable(table);
      books := NewRecords(infos);
      DownloadAll(books, infos, dst, getEpub);
    }
  }

  // Properties of one format.

  /**
   * Nothing is taken away: every file keeps its contents, and directories
   * and the request log only grow.
   */
  predicate Grows(w: World, w2: World)
  {
    && (forall p :: p in w.files ==> p in w2.files && w2.files[p] == w.files[p])
    && w.dirs <= w2.dirs
    && w.log <= w2.log
  }

  lemma GrowsTrans(w1: World, w2: World, w3: World)
    requires Grows(w1, w2) && Grows(w2, w3)
    ensures Grows(w1, w3)
  {
  }

  /**
   * What `FetchAsset` reports: `"exists"` exactly when the target was there,
   * and then nothing changes and nothing is fetched; otherwise exactly one
   * request for the direct URL, an exception exactly when that request
   * raised, and `True` exactly when it answered 200 with a non-empty body.
   */
  lemma FetchAssetStatus(w: World, web: Web, path: Path, url: string)
    ensures var step := FetchAsset(w, web, path, url);
      && (step == Step(w, Exists) <==> PathExists(w, path))
      && (!PathExists(w, path) ==> step.world.log == w.log + [url] && step != Step(w, Exists))
      && (step.Abort? <==> !PathExists(w, path) && web(|w.log|, url).Raised?)
      && (step == Step(step.world, Done(true)) <==>
            !PathExists(w, path) && web(|w.log|, url).Reply?
            && web(|w.log|, url).status == 200 && |web(|w.log|, url).content| > 0)
  {
  }

  /**
   * `FetchAsset` never overwrites: the one file it may write is the target,
   * which was absent, and it holds the body of a 200 reply; an absent target
   * answered with 200 is always written.
   */
  lemma FetchAssetWritesTarget(w: World, web: Web, path: Path, url: string)
    ensures var step := FetchAsset(w, web, path, url);
      && Grows(w, step.world)
      && step.world.dirs == w.dirs
      && (forall p :: p in step.world.files && p !in w.files ==> p == path)
      && (path in step.world.files && path !in w.files ==>
            web(|w.log|, url) == Reply(web(|w.log|, url).url, 200, step.world.files[path]))
      && (!PathExists(w, path) && web(|w.log|, url).Reply? && web(|w.log|, url).status == 200 ==>
            step.world.files == w.files[path := web(|w.log|, url).content])
  {
  }

  /**
   * An absent target is fetched with exactly one logged request; unless it
   * raised, a 200 reply is written to the target whatever its length (an
   * empty body gives an empty file), any other status writes nothing, and
   * the status is `True` exactly for a non-empty 200 body, else `False`.
   */
  lemma FetchAssetFetches(w: World, web: Web, path: Path, url: string)
    requires !PathExists(w, path) && web(|w.log|, url).Reply?
    ensures var reply := web(|w.log|, url);
      FetchAsset(w, web, path, url)
        == Step(w.(log := w.log + [url], files := if reply.status == 200 then w.files[path := reply.content] else w.files),
                Done(reply.status == 200 && |reply.content| > 0))
  {
  }

  /** After `"exists"` or `True` the target is there. */
  lemma FetchAssetLeavesTarget(w: World, web: Web, path: Path, url: string)
    requires var step := FetchAsset(w, web, path, url);
      step.Step? && (step.status == Exists || step.status == Done(true))
    ensures PathExists(FetchAsset(w, web, path, url).world, path)
  {
  }

  /** A format whose file was found or fetched with content. */
  predicate Fetched(s: Status)
  {
    s == Exists || s == Done(true)
  }

  // Properties of the formats of one book.

  /**
   * The formats of a book only add: nothing is overwritten, no directory is
   * made, the log only grows, and the only new files are the pdf target and,
   * when asked for, the epub target.
   */
  lemma FetchFormatsWrites(w: World, web: Web, pdf: Resolved, epub: Resolved, getEpub: bool)
    ensures var run := FetchFormats(w, web, pdf, epub, getEpub);
      && Grows(w, run.world) && run.world.dirs == w.dirs
      && forall p :: p in run.world.files && p !in w.files ==> p == pdf.fileName || (getEpub && p == epub.fileName)
  {
    FetchAssetWritesTarget(w, web, pdf.fileName, pdf.downloadUrl);
    var first := FetchAsset(w, web, pdf.fileName, pdf.downloadUrl);
    if first.Step? && getEpub {
      FetchAssetWritesTarget(first.world, web, epub.fileName, epub.downloadUrl);
      GrowsTrans(w, first.world, FetchAsset(first.world, web, epub.fileName, epub.downloadUrl).world);
    }
  }

  /** On completion the pdf entry is set, and the epub entry exactly when it was asked for. */
  lemma FetchFormatsStatuses(w: World, web: Web, pdf: Resolved, epub: Resolved, getEpub: bool)
    ensures var run := FetchFormats(w, web, pdf, epub, getEpub);
      run.Completed? ==> run.success.pdf != Unset && (run.success.epub == Unset <==> !getEpub)
  {
    FetchAssetStatus(w, web, pdf.fileName, pdf.downloadUrl);
    var first := FetchAsset(w, web, pdf.fileName, pdf.downloadUrl);
    if first.Step? && getEpub {
      FetchAssetStatus(first.world, web, epub.fileName, epub.downloadUrl);
    }
  }

  /** The log only grows, and when the network never raises the formats complete. */
  lemma FetchFormatsLogs(w: World, web: Web, pdf: Resolved, epub: Resolved, getEpub: bool)
    ensures var run := FetchFormats(w, web, pdf, epub, getEpub);
      w.log <= run.world.log && (NeverRaises(web) ==> run.Completed?)
  {
    FetchAssetWritesTarget(w, web, pdf.fileName, pdf.downloadUrl);
    var first := FetchAsset(w, web, pdf.fileName, pdf.downloadUrl);
    if first.Step? && getEpub {
      FetchAssetWritesTarget(first.world, web, epub.fileName, epub.downloadUrl);
    }
  }

  /**
   * An absent pdf target is the next request, and a completed run reports
   * the pdf as `"exists"` exactly when its target was there.
   */
  lemma FetchFormatsPdf(w: World, web: Web, pdf: Resolved, epub: Resolved, getEpub: bool)
    ensures var run := FetchFormats(w, web, pdf, epub, getEpub);
      && (!PathExists(w, pdf.fileName) ==> |run.world.log| > |w.log| && run.world.log[|w.log|] == pdf.downloadUrl)
      && (run.Completed? ==> (run.success.pdf == Exists <==> PathExists(w, pdf.fileName)))
  {
    FetchAssetStatus(w, web, pdf.fileName, pdf.downloadUrl);
    var first := FetchAsset(w, web, pdf.fileName, pdf.downloadUrl);
    if first.Step? && getEpub {
      FetchAssetWritesTarget(first.world, web, epub.fileName, epub.downloadUrl);
    }
  }

  /** After a completed run, every format that was found or fetched has its target there. */
  lemma FetchFormatsFound(w: World, web: Web, pdf: Resolved, epub: Resolved, getEpub: bool)
    requires var run := FetchFormats(w, web, pdf, epub, getEpub);
      run.Completed? && Fetched(run.success.pdf) && (getEpub ==> Fetched(run.success.epub))
    ensures var run := FetchFormats(w, web, pdf, epub, getEpub);
      PathExists(run.world, pdf.fileName) && (getEpub ==> PathExists(run.world, epub.fileName))
  {
    var first := FetchAsset(w, web, pdf.fileName, pdf.downloadUrl);
    FetchAssetLeavesTarget(w, web, pdf.fileName, pdf.downloadUrl);
    if getEpub {
      FetchAssetLeavesTarget(first.world, web, epub.fileName, epub.downloadUrl);
      FetchAssetWritesTarget(first.world, web, epub.fileName, epub.downloadUrl);
    }
  }

  /** The direct URL of each absent target, the epub's only when asked for, in order. */
  function Requested(w: World, pdf: Resolved, epub: Resolved, getEpub: bool): seq<string>
  {
    (if PathExists(w, pdf.fileName) then [] else [pdf.downloadUrl])
      + (if getEpub && !PathExists(w, epub.fileName) then [epub.downloadUrl] else [])
  }

  /** Fetching the pdf does not change whether a different epub target exists. */
  lemma PdfLeavesEpub(w: World, web: Web, pdf: Resolved, epub: Resolved)
    requires pdf.fileName != epub.fileName
    ensures PathExists(FetchAsset(w, web, pdf.fileName, pdf.downloadUrl).world, epub.fileName) == PathExists(w, epub.fileName)
  {
    FetchAssetWritesTarget(w, web, pdf.fileName, pdf.downloadUrl);
  }

  /**
   * The requests of the formats: exactly the direct URLs of the absent
   * targets, in order, when they complete, and a prefix of those when a
   * request raised; no epub request when it was not asked for.
   */
  lemma FetchFormatsRequests(w: World, web: Web, pdf: Resolved, epub: Resolved, getEpub: bool)
    requires pdf.fileName != epub.fileName
    ensures var run := FetchFormats(w, web, pdf, epub, getEpub);
      && run.world.log <= w.log + Requested(w, pdf, epub, getEpub)
      && (run.Completed? ==> run.world.log == w.log + Requested(w, pdf, epub, getEpub))
  {
    var first := FetchAsset(w, web, pdf.fileName, pdf.downloadUrl);
    FetchAssetStatus(w, web, pdf.fileName, pdf.downloadUrl);
    PdfLeavesEpub(w, web, pdf, epub);
    var asked := Requested(w, pdf, epub, getEpub);
    var pdfPart := if PathExists(w, pdf.fileName) then [] else [pdf.downloadUrl];
    var epubPart := if getEpub && !PathExists(w, epub.fileName) then [epub.downloadUrl] else [];
    assert first.world.log == w.log + pdfPart;
    assert w.log + asked == first.world.log + epubPart;
    if first.Step? && getEpub {
      FetchAssetStatus(first.world, web, epub.fileName, epub.downloadUrl);
    }
  }

  /**
   * With epubs asked for and a pdf target of its own, a completed run
   * reports the epub as `"exists"` exactly when its target was there.
   */
  lemma FetchFormatsEpub(w: World, web: Web, pdf: Resolved, epub: Resolved, getEpub: bool)
    requires getEpub && pdf.fileName != epub.fileName
    ensures var run := FetchFormats(w, web, pdf, epub, getEpub);
      run.Completed? ==> (run.success.epub == Exists <==> PathExists(w, epub.fileName))
  {
    var first := FetchAsset(w, web, pdf.fileName, pdf.downloadUrl);
    PdfLeavesEpub(w, web, pdf, epub);
    FetchAssetStatus(first.world, web, epub.fileName, epub.downloadUrl);
  }

  /** When every target is there, nothing is fetched and every entry is `"exists"`. */
  lemma FetchFormatsAllExist(w: World, web: Web, pdf: Resolved, epub: Resolved, getEpub: bool)
    requires PathExists(w, pdf.fileName) && (getEpub ==> PathExists(w, epub.fileName))
    ensures FetchFormats(w, web, pdf, epub, getEpub) == Completed(w, Success(Exists, if getEpub then Exists else Unset))
  {
  }

  // Properties of `download_book`.

  /** The package directory of a book. */
  function BookDir(dst: Path, book: BookInfo): Path
  {
    JoinPath(dst, book.pkg)
  }

  /** Every file `w2` has and `w` had not is a pdf or an epub directly inside `dir`. */
  predicate NewFilesIn(w: World, w2: World, dir: Path)
  {
    forall p :: p in w2.files && p !in w.files ==> BookFile(p, dir)
  }

  /** A successful `mkdir` adds its directory and nothing else. */
  lemma MkdirAdds(w: World, dir: Path)
    requires MkdirWorld(w, dir).Some?
    ensures var made := MkdirWorld(w, dir).value;
      made.files == w.files && made.log == w.log && made.dirs == w.dirs + {dir}
  {
  }

  /**
   * `download_book` never overwrites or deletes a file, never removes a
   * directory, and only appends to the request log.
   */
  lemma DownloadBookGrows(w: World, web: Web, book: BookInfo, dst: Path, getEpub: bool)
    ensures Grows(w, DownloadBookRun(w, web, book, dst, getEpub).world)
  {
    var dir := BookDir(dst, book);
    match MkdirWorld(w, dir)
    case None =>
    case Some(made) =>
      MkdirAdds(w, dir);
      var landed := made.(log := made.log + [book.url]);
      match web(|made.log|, book.url)
      case Raised =>
      case Reply(landing, _, _) =>
        var pdf := Target(dir, landing, book.title, book.author, "pdf");
        var epub := Target(dir, landing, book.title, book.author, "epub");
        FetchFormatsWrites(landed, web, pdf, epub, getEpub);
        GrowsTrans(w, landed, FetchFormats(landed, web, pdf, epub, getEpub).world);
  }

  /**
   * Everything `download_book` adds lies in the book's package directory:
   * that directory is the only one it may create, and every new file is a
   * pdf or an epub directly inside it.
   */
  lemma DownloadBookStaysInBookDir(w: World, web: Web, book: BookInfo, dst: Path, getEpub: bool)
    ensures var run := DownloadBookRun(w, web, book, dst, getEpub);
      run.world.dirs <= w.dirs + {BookDir(dst, book)} && NewFilesIn(w, run.world, BookDir(dst, book))
  {
    var dir := BookDir(dst, book);
    match MkdirWorld(w, dir)
    case None =>
    case Some(made) =>
      MkdirAdds(w, dir);
      var landed := made.(log := made.log + [book.url]);
      match web(|made.log|, book.url)
      case Raised =>
      case Reply(landing, _, _) =>
        var pdf := Target(dir, landing, book.title, book.author, "pdf");
        var epub := Target(dir, landing, book.title, book.author, "epub");
        FetchFormatsWrites(landed, web, pdf, epub, getEpub);
  }

  /**
   * The shape of a `success` dict: the pdf entry is always set, the epub
   * entry exactly when epubs were asked for.
   */
  lemma DownloadBookStatuses(w: World, web: Web, book: BookInfo, dst: Path, getEpub: bool)
    ensures var run := DownloadBookRun(w, web, book, dst, getEpub);
      run.Completed? ==> run.success.pdf != Unset && (run.success.epub == Unset <==> !getEpub)
  {
    var dir := BookDir(dst, book);
    match MkdirWorld(w, dir)
    case None =>
    case Some(made) =>
      var landed := made.(log := made.log + [book.url]);
      match web(|made.log|, book.url)
      case Raised =>
      case Reply(landing, _, _) =>
        var pdf := Target(dir, landing, book.title, book.author, "pdf");
        var epub := Target(dir, landing, book.title, book.author, "epub");
        FetchFormatsStatuses(landed, web, pdf, epub, getEpub);
  }

  /** The network never raises. */
  ghost predicate NeverRaises(web: Web)
  {
    forall n, url :: web(n, url).Reply?
  }

  /**
   * Once the directory is made and the landing page answered, the book is
   * its two formats, resolved from the landing page's final URL, on the
   * state after the landing request.
   */
  lemma DownloadBookLanded(w: World, web: Web, book: BookInfo, dst: Path, getEpub: bool)
    requires MkdirWorld(w, BookDir(dst, book)).Some? && web(|w.log|, book.url).Reply?
    ensures var dir := BookDir(dst, book);
      var landing := web(|w.log|, book.url).url;
      DownloadBookRun(w, web, book, dst, getEpub)
        == FetchFormats(w.(dirs := w.dirs + {dir}, log := w.log + [book.url]), web,
                        Target(dir, landing, book.title, book.author, "pdf"),
                        Target(dir, landing, book.title, book.author, "epub"), getEpub)
  {
    var dir := BookDir(dst, book);
    MkdirAdds(w, dir);
    assert MkdirWorld(w, dir).value.(log := w.log + [book.url]) == w.(dirs := w.dirs + {dir}, log := w.log + [book.url]);
  }

  /**
   * When it raises: a failing `mkdir` ends the book before any request, and
   * otherwise the landing page is the first request. Without network
   * exceptions, a book whose directory can be made always completes.
   */
  lemma DownloadBookFailures(w: World, web: Web, book: BookInfo, dst: Path, getEpub: bool)
    ensures var run := DownloadBookRun(w, web, book, dst, getEpub);
      && (MkdirWorld(w, BookDir(dst, book)).None? ==> run == Failed(w))
      && (MkdirWorld(w, BookDir(dst, book)).Some? ==>
            |run.world.log| > |w.log| && run.world.log[|w.log|] == book.url)
      && (MkdirWorld(w, BookDir(dst, book)).Some? && NeverRaises(web) ==> run.Completed?)
  {
    if MkdirWorld(w, BookDir(dst, book)).Some? {
      DownloadBookLandingFirst(w, web, book, dst, getEpub);
      if NeverRaises(web) {
        DownloadBookCompletes(w, web, book, dst, getEpub);
      }
    }
  }

  /** A book whose directory can be made requests its landing page first. */
  lemma DownloadBookLandingFirst(w: World, web: Web, book: BookInfo, dst: Path, getEpub: bool)
    requires MkdirWorld(w, BookDir(dst, book)).Some?
    ensures var run := DownloadBookRun(w, web, book, dst, getEpub);
      |run.world.log| > |w.log| && run.world.log[|w.log|] == book.url
  {
    var dir := BookDir(dst, book);
    var landed := w.(dirs := w.dirs + {dir}, log := w.log + [book.url]);
    MkdirAdds(w, dir);
    assert landed.log[|w.log|] == book.url;
    if web(|w.log|, book.url).Reply? {
      DownloadBookLanded(w, web, book, dst, getEpub);
      var landing := web(|w.log|, book.url).url;
      FetchFormatsLogs(landed, web, Target(dir, landing, book.title, book.author, "pdf"),
                       Target(dir, landing, book.title, book.author, "epub"), getEpub);
    } else {
      assert DownloadBookRun(w, web, book, dst, getEpub) == Failed(MkdirWorld(w, dir).value.(log := w.log + [book.url]));
      assert MkdirWorld(w, dir).value.(log := w.log + [book.url]) == landed;
    }
  }

  /** Without network exceptions, a book whose directory can be made completes. */
  lemma DownloadBookCompletes(w: World, web: Web, book: BookInfo, dst: Path, getEpub: bool)
    requires MkdirWorld(w, BookDir(dst, book)).Some? && NeverRaises(web)
    ensures DownloadBookRun(w, web, book, dst, getEpub).Completed?
  {
    var dir := BookDir(dst, book);
    var landed := w.(dirs := w.dirs + {dir}, log := w.log + [book.url]);
    assert web(|w.log|, book.url).Reply?;
    DownloadBookLanded(w, web, book, dst, getEpub);
    var landing := web(|w.log|, book.url).url;
    FetchFormatsLogs(landed, web, Target(dir, landing, book.title, book.author, "pdf"),
                     Target(dir, landing, book.title, book.author, "epub"), getEpub);
  }

  /**
   * The target of either format is the one `parse_book_url` gives for the
   * landing page's final URL, with the file name placed in the package
   * directory.
   */
  lemma TargetFromParseBookUrl(dir: Path, landing: string, title: string, author: string, fmt: string)
    requires fmt == "pdf" || fmt == "epub"
    ensures ParseBookUrl(landing, title, author, fmt).Ok?
    ensures var r := ParseBookUrl(landing, title, author, fmt).value;
      Target(dir, landing, title, author, fmt) == Resolved(r.downloadUrl, JoinPath(dir, r.fileName))
  {
    LowerFormats();
  }

  /** The last character of a text is the last character of any non-empty suffix. */
  lemma LastOfSuffix(s: string, suffix: string)
    requires suffix != [] && EndsWith(s, suffix)
    ensures s[|s| - 1] == suffix[|suffix| - 1]
  {
    assert s[|s| - |suffix|..][|suffix| - 1] == s[|s| - 1];
  }

  /** No path ends in both `.pdf` and `.epub`. */
  lemma DifferentExtensions(pdf: Path, epub: Path)
    requires EndsWith(pdf, "." + "pdf") && EndsWith(epub, "." + "epub")
    ensures pdf != epub
  {
    LastOfSuffix(pdf, "." + "pdf");
    LastOfSuffix(epub, "." + "epub");
  }

  /** The pdf and the epub target of a book are different files. */
  lemma TargetsDiffer(dir: Path, landing: string, title: string, author: string)
    ensures Target(dir, landing, title, author, "pdf").fileName != Target(dir, landing, title, author, "epub").fileName
  {
    DifferentExtensions(Target(dir, landing, title, author, "pdf").fileName,
                        Target(dir, landing, title, author, "epub").fileName);
  }

  /**
   * A book whose directory is made and whose landing page answers makes
   * the landing request and then exactly the requests for its absent
   * targets, in order, when it completes, and a prefix of those when it
   * raised.
   */
  lemma DownloadBookRequests(w: World, web: Web, book: BookInfo, dst: Path, getEpub: bool)
    requires MkdirWorld(w, BookDir(dst, book)).Some? && web(|w.log|, book.url).Reply?
    ensures var made := MkdirWorld(w, BookDir(dst, book)).value;
      var landing := web(|w.log|, book.url).url;
      var pdf := Target(BookDir(dst, book), landing, book.title, book.author, "pdf");
      var epub := Target(BookDir(dst, book), landing, book.title, book.author, "epub");
      var asked := w.log + [book.url] + Requested(made, pdf, epub, getEpub);
      var run := DownloadBookRun(w, web, book, dst, getEpub);
      run.world.log <= asked && (run.Completed? ==> run.world.log == asked)
  {
    var dir := BookDir(dst, book);
    var landed := w.(dirs := w.dirs + {dir}, log := w.log + [book.url]);
    var landing := web(|w.log|, book.url).url;
    var pdf := Target(dir, landing, book.title, book.author, "pdf");
    var epub := Target(dir, landing, book.title, book.author, "epub");
    MkdirAdds(w, dir);
    assert forall p :: PathExists(landed, p) == PathExists(MkdirWorld(w, dir).value, p);
    assert Requested(landed, pdf, epub, getEpub) == Requested(MkdirWorld(w, dir).value, pdf, epub, getEpub);
    DownloadBookLanded(w, web, book, dst, getEpub);
    TargetsDiffer(dir, landing, book.title, book.author);
    FetchFormatsRequests(landed, web, pdf, epub, getEpub);
  }

  /** At most one request per format asked for. */
  lemma RequestedCount(w: World, pdf: Resolved, epub: Resolved, getEpub: bool)
    ensures |Requested(w, pdf, epub, getEpub)| <= if getEpub then 2 else 1
  {
  }

  /** A book whose landing page answers makes at most one request per format after it. */
  lemma DownloadBookRequestBound(w: World, web: Web, book: BookInfo, dst: Path, getEpub: bool)
    requires MkdirWorld(w, BookDir(dst, book)).Some? && web(|w.log|, book.url).Reply?
    ensures |DownloadBookRun(w, web, book, dst, getEpub).world.log| <= |w.log| + if getEpub then 3 else 2
  {
    var made := MkdirWorld(w, BookDir(dst, book)).value;
    var landing := web(|w.log|, book.url).url;
    var pdf := Target(BookDir(dst, book), landing, book.title, book.author, "pdf");
    var epub := Target(BookDir(dst, book), landing, book.title, book.author, "epub");
    DownloadBookRequests(w, web, book, dst, getEpub);
    RequestedCount(made, pdf, epub, getEpub);
  }

  /**
   * How many requests `download_book` makes: none when `mkdir` raises,
   * otherwise the landing page and at most one per format asked for.
   */
  lemma DownloadBookRequestCount(w: World, web: Web, book: BookInfo, dst: Path, getEpub: bool)
    ensures var run := DownloadBookRun(w, web, book, dst, getEpub);
      var added := |run.world.log| - |w.log|;
      && w.log <= run.world.log
      && (MkdirWorld(w, BookDir(dst, book)).None? ==> added == 0)
      && (MkdirWorld(w, BookDir(dst, book)).Some? ==> 1 <= added <= if getEpub then 3 else 2)
  {
    var dir := BookDir(dst, book);
    if MkdirWorld(w, dir).Some? {
      DownloadBookLandingFirst(w, web, book, dst, getEpub);
      DownloadBookGrows(w, web, book, dst, getEpub);
      if web(|w.log|, book.url).Reply? {
        DownloadBookRequestBound(w, web, book, dst, getEpub);
      } else {
        MkdirAdds(w, dir);
        assert DownloadBookRun(w, web, book, dst, getEpub).world.log == w.log + [book.url];
      }
    }
  }

  /**
   * `mkdir` needs the destination: a book with a slash-free package name
   * whose directory and destination are both missing raises before any
   * request and changes nothing.
   */
  lemma DownloadBookNeedsDestination(w: World, web: Web, book: BookInfo, dst: Path, getEpub: bool)
    requires '/' !in book.pkg && BookDir(dst, book) !in w.dirs && dst !in w.dirs
    ensures DownloadBookRun(w, web, book, dst, getEpub) == Failed(w)
  {
    MkdirNeedsParent(w, dst, book.pkg);
  }

  /**
   * The pdf of a book: when its target is absent, the request right after
   * the landing page is for its direct URL, and a completed run reports
   * `"exists"` exactly when the target was there.
   */
  lemma DownloadBookPdf(w: World, web: Web, book: BookInfo, dst: Path, getEpub: bool)
    requires MkdirWorld(w, BookDir(dst, book)).Some? && web(|w.log|, book.url).Reply?
    ensures var made := MkdirWorld(w, BookDir(dst, book)).value;
      var t := Target(BookDir(dst, book), web(|w.log|, book.url).url, book.title, book.author, "pdf");
      var run := DownloadBookRun(w, web, book, dst, getEpub);
      && (!PathExists(made, t.fileName) ==> |run.world.log| >= |w.log| + 2 && run.world.log[|w.log| + 1] == t.downloadUrl)
      && (run.Completed? ==> (run.success.pdf == Exists <==> PathExists(made, t.fileName)))
  {
    var dir := BookDir(dst, book);
    var landed := w.(dirs := w.dirs + {dir}, log := w.log + [book.url]);
    var landing := web(|w.log|, book.url).url;
    MkdirAdds(w, dir);
    assert forall p :: PathExists(landed, p) == PathExists(MkdirWorld(w, dir).value, p);
    DownloadBookLanded(w, web, book, dst, getEpub);
    FetchFormatsPdf(landed, web, Target(dir, landing, book.title, book.author, "pdf"),
                    Target(dir, landing, book.title, book.author, "epub"), getEpub);
  }

  /**
   * The epub of a book, when asked for: a completed run reports it as
   * `"exists"` exactly when its target was there.
   */
  lemma DownloadBookEpub(w: World, web: Web, book: BookInfo, dst: Path)
    requires MkdirWorld(w, BookDir(dst, book)).Some? && web(|w.log|, book.url).Reply?
    ensures var made := MkdirWorld(w, BookDir(dst, book)).value;
      var t := Target(BookDir(dst, book), web(|w.log|, book.url).url, book.title, book.author, "epub");
      var run := DownloadBookRun(w, web, book, dst, true);
      run.Completed? ==> (run.success.epub == Exists <==> PathExists(made, t.fileName))
  {
    var dir := BookDir(dst, book);
    var landed := w.(dirs := w.dirs + {dir}, log := w.log + [book.url]);
    var landing := web(|w.log|, book.url).url;
    MkdirAdds(w, dir);
    assert forall p :: PathExists(landed, p) == PathExists(MkdirWorld(w, dir).value, p);
    DownloadBookLanded(w, web, book, dst, true);
    TargetsDiffer(dir, landing, book.title, book.author);
    FetchFormatsEpub(landed, web, Target(dir, landing, book.title, book.author, "pdf"),
                     Target(dir, landing, book.title, book.author, "epub"), true);
  }

  /** A completed run in which every format asked for was found or fetched. */
  predicate AllFetched(run: Run, getEpub: bool)
  {
    run.Completed? && Fetched(run.success.pdf) && (getEpub ==> Fetched(run.success.epub))
  }

  /** Requests `m` and `n` for `url` both answer, with the same final URL. */
  predicate SameLanding(web: Web, url: string, m: nat, n: nat)
  {
    web(m, url).Reply? && web(n, url).Reply? && web(m, url).url == web(n, url).url
  }

  /**
   * Running a book again after it completed, with the landing page leading
   * to the same place: every format that was found or fetched is now
   * `"exists"`, and when all of them were, the only effect is the one
   * request for the landing page.
   */
  lemma DownloadBookRerun(w: World, web: Web, book: BookInfo, dst: Path, getEpub: bool)
    requires var run := DownloadBookRun(w, web, book, dst, getEpub);
      AllFetched(run, getEpub) && SameLanding(web, book.url, |w.log|, |run.world.log|)
    ensures var run := DownloadBookRun(w, web, book, dst, getEpub);
      DownloadBookRun(run.world, web, book, dst, getEpub)
        == Completed(run.world.(log := run.world.log + [book.url]), Success(Exists, if getEpub then Exists else Unset))
  {
    var run := DownloadBookRun(w, web, book, dst, getEpub);
    var dir := BookDir(dst, book);
    assert MkdirWorld(w, dir).Some?;
    MkdirAdds(w, dir);
    DownloadBookLanded(w, web, book, dst, getEpub);
    var landed := w.(dirs := w.dirs + {dir}, log := w.log + [book.url]);
    var landing := web(|w.log|, book.url).url;
    var pdf := Target(dir, landing, book.title, book.author, "pdf");
    var epub := Target(dir, landing, book.title, book.author, "epub");
    FetchFormatsFound(landed, web, pdf, epub, getEpub);
    FetchFormatsWrites(landed, web, pdf, epub, getEpub);
    assert MkdirWorld(run.world, dir) == Some(run.world);
    var again := run.world.(log := run.world.log + [book.url]);
    FetchFormatsAllExist(again, web, pdf, epub, getEpub);
  }

  // Properties of `download_books`.

  /**
   * Book `i` of a batch runs on the state the books before it left, and the
   * outcome recorded for it is that run's.
   */
  lemma {:induction false} BatchOutcome(w: World, runner: Runner, books: seq<BookInfo>, n: nat, i: nat)
    requires i < n <= |books|
    ensures BatchPrefix(w, runner, books, n).outcomes[i]
      == Outcome(runner(BatchPrefix(w, runner, books, i).world, books[i]))
    decreases n
  {
    var prev := BatchPrefix(w, runner, books, n - 1);
    assert BatchPrefix(w, runner, books, n).outcomes == prev.outcomes + [Outcome(runner(prev.world, books[n - 1]))];
    if i < n - 1 {
      BatchOutcome(w, runner, books, n - 1, i);
    }
  }

  /** A batch whose every run only adds, only adds. */
  lemma {:induction false} BatchGrows(w: World, runner: Runner, books: seq<BookInfo>, n: nat)
    requires n <= |books|
    requires forall v, book :: Grows(v, runner(v, book).world)
    ensures Grows(w, BatchPrefix(w, runner, books, n).world)
  {
    if n > 0 {
      var before := BatchPrefix(w, runner, books, n - 1).world;
      BatchGrows(w, runner, books, n - 1);
      GrowsTrans(w, before, runner(before, books[n - 1]).world);
    }
  }

  /**
   * `download_books` never overwrites or deletes a file, and only adds
   * directories and requests.
   */
  lemma DownloadBooksGrows(w: World, web: Web, books: seq<BookInfo>, dst: Path, getEpub: bool)
    ensures Grows(w, BatchRun(w, web, books, dst, getEpub).world)
  {
    forall v, book ensures Grows(v, BookRunner(web, dst, getEpub)(v, book).world) {
      DownloadBookGrows(v, web, book, dst, getEpub);
    }
    BatchGrows(w, BookRunner(web, dst, getEpub), books, |books|);
  }

  /** Each new file of a batch is a new file of one of its runs. */
  lemma {:induction false} BatchStaysInBookDirs(w: World, runner: Runner, books: seq<BookInfo>, n: nat, dst: Path)
    requires n <= |books|
    requires forall v, book :: NewFilesIn(v, runner(v, book).world, BookDir(dst, book))
    ensures var after := BatchPrefix(w, runner, books, n).world;
      forall p :: p in after.files && p !in w.files ==>
        exists k :: 0 <= k < n && DirectlyIn(p, BookDir(dst, books[k]))
          && (EndsWith(p, ".pdf") || EndsWith(p, ".epub"))
  {
    if n > 0 {
      var before := BatchPrefix(w, runner, books, n - 1).world;
      BatchStaysInBookDirs(w, runner, books, n - 1, dst);
      assert NewFilesIn(before, runner(before, books[n - 1]).world, BookDir(dst, books[n - 1]));
    }
  }

  /**
   * Every file `download_books` adds is a pdf or an epub directly inside
   * the package directory of one of its books.
   */
  lemma DownloadBooksStayInBookDirs(w: World, web: Web, books: seq<BookInfo>, dst: Path, getEpub: bool)
    ensures var after := BatchRun(w, web, books, dst, getEpub).world;
      forall p :: p in after.files && p !in w.files ==>
        exists k :: 0 <= k < |books| && DirectlyIn(p, BookDir(dst, books[k]))
          && (EndsWith(p, ".pdf") || EndsWith(p, ".epub"))
  {
    forall v, book ensures NewFilesIn(v, BookRunner(web, dst, getEpub)(v, book).world, BookDir(dst, book)) {
      DownloadBookStaysInBookDir(v, web, book, dst, getEpub);
    }
    BatchStaysInBookDirs(w, BookRunner(web, dst, getEpub), books, |books|, dst);
  }

  /**
   * Book `i` of `download_books` is left with the outcome of `download_book`
   * on the state the books before it left.
   */
  lemma DownloadBooksOutcome(w: World, web: Web, books: seq<BookInfo>, i: nat, dst: Path, getEpub: bool)
    requires i < |books|
    ensures BatchRun(w, web, books, dst, getEpub).outcomes[i]
      == Outcome(DownloadBookRun(BatchPrefix(w, BookRunner(web, dst, getEpub), books, i).world, web, books[i], dst, getEpub))
  {
    BatchOutcome(w, BookRunner(web, dst, getEpub), books, |books|, i);
  }
}
