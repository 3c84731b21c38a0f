/**
 * The sync run of scripts/ready-ai/main.ts, with the change check of
 * scripts/ready-ai/scraper.ts it starts with.
 *
 * A run is a function of the store it starts from, the command-line flags
 * and a `World` holding everything the run gets from outside: the two page
 * captures (or the error each scrape failed with), the HTML library's view of
 * a page, the MD5 implementation, the clock and which history folders the file
 * system lets go. It gives back the store it leaves, the trace of the steps it
 * took and the exit code of the process.
 */
module Sync {
  import opened Common
  import opened Strings
  import opened Time
  import opened Dicts
  import Hash
  import Parser
  import Converter
  import Store

  /** The number of days of history a run keeps. */
  const RetentionDays: nat := 30

  // ---------------------------------------------------------------------------
  // Inputs
  // ---------------------------------------------------------------------------

  /** `--verbose`, `--force-sync`, `--skip-cleanup` and `--dry-run`; verbosity only changes logging. */
  datatype Flags = Flags(verbose: bool, forceSync: bool, skipCleanup: bool, dryRun: bool)

  /** What one scrape reads off the site: the page, its styles and the time it was taken. */
  datatype Page = Page(html: string, css: string, timestamp: DateTime)

  /**
   * The outside of a run. `sourceUrl` is the configured address of the site;
   * `check` and `sync` are the two scrapes, each a page or the error it failed
   * with; `load` is the HTML library's reading of a page once the builder's
   * own elements and attributes are removed, and `matches` its selector
   * engine; `parse` and `render` are its reading and serialising of one
   * component. The three stages the run calls into, `parseHtml`, `convertAll`
   * and `resolve`, are carried as values; `Wired` says they are the parser's
   * and the converter's.
   */
  datatype World = World(
    sourceUrl: string,
    md5: Hash.Md5,
    check: Result<Page>,
    sync: Result<Page>,
    load: string -> seq<Parser.Element>,
    matches: Parser.Matcher,
    parse: string -> seq<Converter.Node>,
    render: seq<Converter.Node> -> string,
    parseHtml: (string, string) -> seq<Parser.Component>,
    convertAll: seq<Parser.Component> -> seq<Converter.ConversionResult>,
    resolve: seq<Converter.ConversionResult> -> seq<Converter.ConversionResult>,
    now: DateTime,
    removable: string -> bool)

  /**
   * The stages are `parseHtmlContent`, `convertAllComponents` and
   * `resolveDependencies` over the world's HTML library.
   */
  ghost predicate Wired(w: World) {
    && (forall html, css :: w.parseHtml(html, css) == Parser.IdentifyComponents(w.load(html), w.matches, css))
    && (forall cs :: w.convertAll(cs) == Converter.ConvertAll(cs, w.parse, w.render))
    && (forall rs :: w.resolve(rs) == Converter.ResolveDependencies(rs))
  }

  /** The world with its stages set to the parser's and the converter's. */
  function Wire(w: World): (r: World)
    ensures Wired(r)
    ensures r.check == w.check && r.sync == w.sync && r.now == w.now && r.md5 == w.md5 && r.sourceUrl == w.sourceUrl
  {
    w.(parseHtml := (html, css) => Parser.IdentifyComponents(w.load(html), w.matches, css),
       convertAll := cs => Converter.ConvertAll(cs, w.parse, w.render),
       resolve := rs => Converter.ResolveDependencies(rs))
  }

  /** Every clock reading of a run is a real date. */
  predicate Clocks(w: World) {
    && Valid(w.now)
    && (w.check.Success? ==> Valid(w.check.value.timestamp))
    && (w.sync.Success? ==> Valid(w.sync.value.timestamp))
  }

  // ---------------------------------------------------------------------------
  // The trace
  // ---------------------------------------------------------------------------

  /** One step of a run, with what it reports. */
  datatype Effect =
    | Measured(usage: Store.Usage)
    | Scraped(hash: string)
    | Parsed(count: nat)
    | Converted(count: nat)
    | Resolved
    | Saved(filename: string)
    | CleanedUp(deleted: nat)
  {
    function Kind(): Kind {
      match this
      case Measured(_) => Measure
      case Scraped(_) => Scrape
      case Parsed(_) => Parse
      case Converted(_) => Convert
      case Resolved => Resolve
      case Saved(_) => Save
      case CleanedUp(_) => Cleanup
    }
  }

  datatype Kind = Measure | Scrape | Parse | Convert | Resolve | Save | Cleanup

  /** What a run leaves: the store, the steps taken in order, and the exit code. */
  datatype Outcome = Outcome(store: Store.Store, effects: seq<Effect>, exitCode: nat)

  /** The number of steps of kind `k`. */
  function Count(es: seq<Effect>, k: Kind): (n: nat)
    ensures n <= |es|
  {
    if |es| == 0 then 0 else (if es[0].Kind() == k then 1 else 0) + Count(es[1..], k)
  }

  lemma {:induction false} CountConcat(a: seq<Effect>, b: seq<Effect>, k: Kind)
    ensures Count(a + b, k) == Count(a, k) + Count(b, k)
  {
    if |a| == 0 {
      assert a + b == b;
    } else {
      assert (a + b)[1..] == a[1..] + b;
      CountConcat(a[1..], b, k);
    }
  }

  /** No step of kind `k` is counted exactly when none occurs. */
  lemma {:induction false} CountZero(es: seq<Effect>, k: Kind)
    ensures Count(es, k) == 0 <==> forall i :: 0 <= i < |es| ==> es[i].Kind() != k
  {
    if |es| > 0 {
      CountZero(es[1..], k);
      assert forall i :: 1 <= i < |es| ==> es[i] == es[1..][i - 1];
    }
  }

  /** Every step of kind `k1` comes before every step of kind `k2`. */
  predicate Before(es: seq<Effect>, k1: Kind, k2: Kind) {
    forall i, j :: 0 <= i < |es| && 0 <= j < |es| && es[i].Kind() == k1 && es[j].Kind() == k2 ==> i < j
  }

  /** The steps recording each saved result, in order. */
  function SaveEffects(rs: seq<Converter.ConversionResult>): (es: seq<Effect>)
    ensures |es| == |rs|
    ensures forall i :: 0 <= i < |rs| ==> es[i] == Saved(rs[i].filename)
  {
    if |rs| == 0 then [] else [Saved(rs[0].filename)] + SaveEffects(rs[1..])
  }

  /** The save steps of a batch are saves only. */
  lemma SaveEffectsCount(rs: seq<Converter.ConversionResult>, k: Kind)
    ensures Count(SaveEffects(rs), k) == if k == Save then |rs| else 0
  {
    var es := SaveEffects(rs);
    if k == Save {
      SaveCountAll(es);
    } else {
      CountZero(es, k);
    }
  }

  lemma {:induction false} SaveCountAll(es: seq<Effect>)
    requires forall i :: 0 <= i < |es| ==> es[i].Saved?
    ensures Count(es, Save) == |es|
  {
    if |es| > 0 {
      assert forall i :: 0 <= i < |es[1..]| ==> es[1..][i] == es[i + 1];
      SaveCountAll(es[1..]);
    }
  }

  // ---------------------------------------------------------------------------
  // The change check
  // ---------------------------------------------------------------------------

  /** A capture of `page`: its fingerprint is the digest of the page and styles together. */
  function Capture(md5: Hash.Md5, url: string, page: Page): (d: Store.SiteData)
    ensures Hash.Digest(d.hash) && d.sourceUrl == url
    ensures d.html == page.html && d.css == page.css && d.timestamp == page.timestamp
  {
    Store.SiteData(page.html, page.css, Hash.ChangeHash(md5, page.html, page.css), page.timestamp, url)
  }

  /** `getPreviousHash`: the trimmed `hash.txt` of `current`, or nothing when there is none. */
  function PreviousHash(current: Dict<string>): (r: Option<string>)
    ensures r.Some? <==> HasKey(current, Store.HashFile)
  {
    match Get(current, Store.HashFile)
    case None => None
    case Some(text) => Some(Trim(text))
  }

  /** What the change check reports. */
  datatype ChangeCheck = ChangeCheck(hasChanges: bool, previousHash: Option<string>, currentHash: string)

  /** The change check's result: the store after its scrape, the capture and the report. */
  datatype Checked = Checked(store: Store.Store, capture: Store.SiteData, check: ChangeCheck)

  /**
   * `checkForChanges`: read the previous fingerprint, scrape (which saves the
   * capture), and report a change unless the two fingerprints agree. A failed
   * scrape fails the check.
   */
  function CheckForChanges(s: Store.Store, md5: Hash.Md5, url: string, scrape: Result<Page>): (r: Result<Checked>)
    requires scrape.Success? ==> Valid(scrape.value.timestamp)
    ensures r.Failure? <==> scrape.Failure?
    ensures r.Success? ==>
              && r.value.capture == Capture(md5, url, scrape.value)
              && r.value.check.previousHash == PreviousHash(s.current)
              && r.value.check.currentHash == r.value.capture.hash
              && (r.value.check.hasChanges <==> PreviousHash(s.current) != Some(r.value.capture.hash))
              && r.value.store == Store.SaveScrapedData(s, r.value.capture)
  {
    match scrape
    case Failure(e) => Failure(e)
    case Success(page) =>
      var data := Capture(md5, url, page);
      var previous := PreviousHash(s.current);
      Success(Checked(Store.SaveScrapedData(s, data), data, ChangeCheck(previous != Some(data.hash), previous, data.hash)))
  }

  /** A digest has nothing for `trim` to remove. */
  lemma DigestTrimmed(d: string)
    requires Hash.Digest(d)
    ensures Trim(d) == d
  {
    TrimUnchanged(d);
  }

  /** A store that has never been written reports a change. */
  lemma CheckFirstRun(s: Store.Store, md5: Hash.Md5, url: string, page: Page)
    requires Valid(page.timestamp) && !HasKey(s.current, Store.HashFile)
    ensures CheckForChanges(s, md5, url, Success(page)).value.check.hasChanges
  {
  }

  /**
   * Checking again, against a page with the same markup and styles, reports
   * no change: the saved fingerprint reads back as the new one.
   */
  lemma CheckAgainUnchanged(s: Store.Store, md5: Hash.Md5, url: string, first: Page, second: Page)
    requires Valid(first.timestamp) && Valid(second.timestamp)
    requires first.html == second.html && first.css == second.css
    ensures var s1 := CheckForChanges(s, md5, url, Success(first)).value.store;
      !CheckForChanges(s1, md5, url, Success(second)).value.check.hasChanges
  {
    var data := Capture(md5, url, first);
    Store.SaveGet(s, data, Store.HashFile);
    DigestTrimmed(data.hash);
  }

  /** A page with a different fingerprint from the saved one is reported as a change. */
  lemma CheckAgainChanged(s: Store.Store, md5: Hash.Md5, url: string, first: Page, second: Page)
    requires Valid(first.timestamp) && Valid(second.timestamp)
    requires Capture(md5, url, first).hash != Capture(md5, url, second).hash
    ensures var s1 := CheckForChanges(s, md5, url, Success(first)).value.store;
      CheckForChanges(s1, md5, url, Success(second)).value.check.hasChanges
  {
    var data := Capture(md5, url, first);
    Store.SaveGet(s, data, Store.HashFile);
    DigestTrimmed(data.hash);
  }

  // ---------------------------------------------------------------------------
  // Saving conversions
  // ---------------------------------------------------------------------------

  /** The successful results, in order. */
  function Successes(rs: seq<Converter.ConversionResult>): (r: seq<Converter.ConversionResult>)
    ensures |r| == Converter.SuccessCount(rs)
    ensures forall i :: 0 <= i < |r| ==> r[i].success && r[i] in rs
    ensures forall i :: 0 <= i < |rs| && rs[i].success ==> rs[i] in r
  {
    if |rs| == 0 then []
    else if rs[0].success then [rs[0]] + Successes(rs[1..])
    else Successes(rs[1..])
  }

  /** Each result saved in turn, every record stamped with the one clock reading of the run. */
  function SaveAll(s: Store.Store, rs: seq<Converter.ConversionResult>, now: DateTime): (r: Store.Store)
    requires Valid(now)
    ensures r.current == s.current && r.history == s.history
    decreases |rs|
  {
    if |rs| == 0 then s else SaveAll(Store.SaveConversionResult(s, rs[0], now), rs[1..], now)
  }

  /** Every result of the batch is a success. */
  predicate AllSucceed(rs: seq<Converter.ConversionResult>) {
    forall j :: 0 <= j < |rs| ==> rs[j].success
  }

  /** No two results share a name. */
  predicate DistinctNames(rs: seq<Converter.ConversionResult>) {
    forall i, j :: 0 <= i < j < |rs| ==> rs[i].filename != rs[j].filename
  }

  lemma SuffixInjective(f: string, g: string, x: string)
    requires f != g
    ensures f + x != g + x
  {
    if |f| == |g| {
      assert (f + x)[..|f|] == f;
      assert (g + x)[..|g|] == g;
    } else {
      assert |f + x| != |g + x|;
    }
  }

  /** A component file name is never a style sheet name. */
  lemma AstroNotCss(f: string, g: string)
    ensures f + ".astro" != g + ".css"
  {
    var a, c := f + ".astro", g + ".css";
    assert a[|a| - 1] == 'o';
    assert c[|c| - 1] == 's';
  }

  /** A component file no result of the batch is named after keeps what it held. */
  lemma {:induction false} SaveAllUntouched(s: Store.Store, rs: seq<Converter.ConversionResult>, now: DateTime, k: string)
    requires Valid(now)
    requires forall i :: 0 <= i < |rs| ==> k != rs[i].filename + ".astro" && k != rs[i].filename + ".css"
    ensures Get(SaveAll(s, rs, now).components, k) == Get(s.components, k)
    decreases |rs|
  {
    if |rs| > 0 {
      Store.SaveConversionResultGet(s, rs[0], now, k);
      AvoidsTail(rs, k);
      SaveAllUntouched(Store.SaveConversionResult(s, rs[0], now), rs[1..], now, k);
    }
  }

  lemma AvoidsTail(rs: seq<Converter.ConversionResult>, k: string)
    requires |rs| > 0
    requires forall i :: 0 <= i < |rs| ==> k != rs[i].filename + ".astro" && k != rs[i].filename + ".css"
    ensures k != rs[0].filename + ".astro" && k != rs[0].filename + ".css"
    ensures forall i :: 0 <= i < |rs[1..]| ==> k != rs[1..][i].filename + ".astro" && k != rs[1..][i].filename + ".css"
  {
    assert forall i :: 0 <= i < |rs[1..]| ==> rs[1..][i] == rs[i + 1];
  }

  /** Saving a batch of successes with distinct names leaves each one's component file holding its text. */
  lemma {:induction false} SaveAllWritten(s: Store.Store, rs: seq<Converter.ConversionResult>, now: DateTime, i: nat)
    requires Valid(now) && i < |rs|
    requires AllSucceed(rs) && DistinctNames(rs)
    ensures Get(SaveAll(s, rs, now).components, rs[i].filename + ".astro") == Some(rs[i].astroComponent)
    decreases |rs|
  {
    if i == 0 {
      SaveAllFirstWritten(s, rs, now);
    } else {
      var s1 := Store.SaveConversionResult(s, rs[0], now);
      SuccessesTail(rs, i);
      SaveAllWritten(s1, rs[1..], now, i - 1);
      SaveAllStep(s, rs, now);
    }
  }

  lemma SaveAllStep(s: Store.Store, rs: seq<Converter.ConversionResult>, now: DateTime)
    requires Valid(now) && |rs| > 0
    ensures SaveAll(s, rs, now) == SaveAll(Store.SaveConversionResult(s, rs[0], now), rs[1..], now)
  {
  }

  lemma SuccessesTail(rs: seq<Converter.ConversionResult>, i: nat)
    requires 0 < i < |rs|
    requires AllSucceed(rs) && DistinctNames(rs)
    ensures rs[1..][i - 1] == rs[i]
    ensures AllSucceed(rs[1..]) && DistinctNames(rs[1..])
  {
    assert forall j :: 0 <= j < |rs[1..]| ==> rs[1..][j] == rs[j + 1];
  }

  /** The first result's component file, once written, is not touched by the rest of the batch. */
  lemma SaveAllFirstWritten(s: Store.Store, rs: seq<Converter.ConversionResult>, now: DateTime)
    requires Valid(now) && |rs| > 0 && rs[0].success
    requires DistinctNames(rs)
    ensures Get(SaveAll(s, rs, now).components, rs[0].filename + ".astro") == Some(rs[0].astroComponent)
  {
    var s1 := Store.SaveConversionResult(s, rs[0], now);
    var k := rs[0].filename + ".astro";
    Store.SaveConversionResultGet(s, rs[0], now, k);
    forall j | 0 <= j < |rs[1..]|
      ensures k != rs[1..][j].filename + ".astro" && k != rs[1..][j].filename + ".css"
    {
      SuffixInjective(rs[0].filename, rs[j + 1].filename, ".astro");
      AstroNotCss(rs[0].filename, rs[j + 1].filename);
    }
    SaveAllUntouched(s1, rs[1..], now, k);
  }

  // ---------------------------------------------------------------------------
  // The run
  // ---------------------------------------------------------------------------

  /** A cleanup entry for the trace when one ran. */
  function CleanupSteps(deleted: Option<nat>): (es: seq<Effect>)
    ensures |es| == (if deleted.Some? then 1 else 0) && forall i :: 0 <= i < |es| ==> es[i].CleanedUp?
  {
    if deleted.None? then [] else [CleanedUp(deleted.value)]
  }

  /**
   * The steps of a converting run after parsing: the conversion, the one
   * resolution, a save per success, the cleanup if it ran, and the final
   * measurement.
   */
  function ConvertSteps(n: nat, saved: seq<Converter.ConversionResult>, deleted: Option<nat>, usage: Store.Usage): seq<Effect> {
    [Converted(n)] + [Resolved] + SaveEffects(saved) + CleanupSteps(deleted) + [Measured(usage)]
  }

  /** `cleanupOldHistory(30)` unless skipped: the store left and, when it ran, the number deleted. */
  function MaybeCleanup(s: Store.Store, skip: bool, now: DateTime, removable: string -> bool): (r: (Store.Store, Option<nat>))
    requires Valid(now)
    ensures r.1.None? <==> skip
    ensures skip ==> r.0 == s
    ensures r.0.current == s.current && r.0.processed == s.processed && r.0.components == s.components
  {
    if skip then (s, None)
    else
      var (cleaned, n) := Store.Cleanup(s, now, RetentionDays, removable);
      (cleaned, Some(n))
  }

  /**
   * Everything after the second save: identify the components; stop when
   * there are none or on a dry run; otherwise convert them all, resolve their
   * imports once, save the successes, clean up history unless told not to, and
   * measure the store again.
   */
  function Process(s: Store.Store, data: Store.SiteData, flags: Flags, w: World): (o: Outcome)
    requires Valid(w.now)
    ensures o.exitCode == 0 && o.store.current == s.current
    ensures |o.effects| > 0 && o.effects[0] == Parsed(|w.parseHtml(data.html, data.css)|)
  {
    var n := |w.parseHtml(data.html, data.css)|;
    if n == 0 || flags.dryRun then Outcome(s, [Parsed(n)], 0)
    else
      var (s4, deleted) := Finish(s, data, flags, w);
      Outcome(s4, [Parsed(n)] + ConvertSteps(n, SavedOf(data, w), deleted, Store.StorageUsage(s4)), 0)
  }

  /** The successful results of converting and resolving the components of `data`. */
  function SavedOf(data: Store.SiteData, w: World): (r: seq<Converter.ConversionResult>)
    ensures forall i :: 0 <= i < |r| ==> r[i].success
  {
    Successes(w.resolve(w.convertAll(w.parseHtml(data.html, data.css))))
  }

  /** Saving the successes and cleaning up: the store left and, when cleanup ran, the number deleted. */
  function Finish(s: Store.Store, data: Store.SiteData, flags: Flags, w: World): (r: (Store.Store, Option<nat>))
    requires Valid(w.now)
    ensures r.0.current == s.current
  {
    MaybeCleanup(SaveAll(s, SavedOf(data, w), w.now), flags.skipCleanup, w.now, w.removable)
  }

  /**
   * `main`: measure the store, check for changes, and stop when nothing
   * changed and no sync is forced; otherwise scrape again and process the new
   * capture. A failed scrape ends the run with exit code 1.
   */
  function Main(s: Store.Store, flags: Flags, w: World): (o: Outcome)
    requires Clocks(w)
    ensures o.exitCode <= 1
    ensures |o.effects| > 0 && o.effects[0] == Measured(Store.StorageUsage(s))
  {
    var measured := Measured(Store.StorageUsage(s));
    match CheckForChanges(s, w.md5, w.sourceUrl, w.check)
    case Failure(_) => Outcome(s, [measured], 1)
    case Success(checked) =>
      var scraped := Scraped(checked.capture.hash);
      if !checked.check.hasChanges && !flags.forceSync then Outcome(checked.store, [measured, scraped], 0)
      else
        match w.sync
        case Failure(_) => Outcome(checked.store, [measured, scraped], 1)
        case Success(page) =>
          var data := Capture(w.md5, w.sourceUrl, page);
          var rest := Process(Store.SaveScrapedData(checked.store, data), data, flags, w);
          Outcome(rest.store, [measured, scraped, Scraped(data.hash)] + rest.effects, rest.exitCode)
  }

  // ---------------------------------------------------------------------------
  // What a run decides
  // ---------------------------------------------------------------------------

  function FirstCapture(w: World): Store.SiteData
    requires w.check.Success?
  {
    Capture(w.md5, w.sourceUrl, w.check.value)
  }

  function SecondCapture(w: World): Store.SiteData
    requires w.sync.Success?
  {
    Capture(w.md5, w.sourceUrl, w.sync.value)
  }

  /** The run goes on to the second scrape: the check succeeded and found a change, or a sync is forced. */
  predicate Syncs(s: Store.Store, flags: Flags, w: World) {
    w.check.Success? && (PreviousHash(s.current) != Some(FirstCapture(w).hash) || flags.forceSync)
  }

  /** The store the second scrape leaves. */
  function Synced(s: Store.Store, w: World): Store.Store
    requires Clocks(w) && w.check.Success? && w.sync.Success?
  {
    Store.SaveScrapedData(Store.SaveScrapedData(s, FirstCapture(w)), SecondCapture(w))
  }

  function Components(w: World): seq<Parser.Component>
    requires w.sync.Success?
  {
    w.parseHtml(SecondCapture(w).html, SecondCapture(w).css)
  }

  /** The run converts: it scraped twice, found components, and is not a dry run. */
  predicate Converts(s: Store.Store, flags: Flags, w: World) {
    Syncs(s, flags, w) && w.sync.Success? && |Components(w)| > 0 && !flags.dryRun
  }

  /** The results a converting run saves from. */
  function ResolvedResults(w: World): seq<Converter.ConversionResult>
    requires w.sync.Success?
  {
    w.resolve(w.convertAll(Components(w)))
  }

  // ---------------------------------------------------------------------------
  // Counting and ordering the steps
  // ---------------------------------------------------------------------------

  lemma CountOne(e: Effect, k: Kind)
    ensures Count([e], k) == if e.Kind() == k then 1 else 0
  {
    assert [e][1..] == [];
  }

  /** A cleanup entry counts as one cleanup step when present. */
  lemma CleanupStepsCount(deleted: Option<nat>, k: Kind)
    ensures Count(CleanupSteps(deleted), k) == if deleted.Some? && k == Cleanup then 1 else 0
  {
    if deleted.Some? {
      CountOne(CleanedUp(deleted.value), k);
    }
  }

  /** The steps of each kind in a converting run after parsing. */
  lemma ConvertStepsCount(n: nat, saved: seq<Converter.ConversionResult>, deleted: Option<nat>, usage: Store.Usage, k: Kind)
    ensures Count(ConvertSteps(n, saved, deleted, usage), k)
         == match k
            case Measure => 1
            case Scrape => 0
            case Parse => 0
            case Convert => 1
            case Resolve => 1
            case Save => |saved|
            case Cleanup => if deleted.Some? then 1 else 0
  {
    var c, r, sv, d, m := [Converted(n)], [Resolved], SaveEffects(saved), CleanupSteps(deleted), [Measured(usage)];
    CountOne(Converted(n), k);
    CountOne(Resolved, k);
    CountOne(Measured(usage), k);
    SaveEffectsCount(saved, k);
    CleanupStepsCount(deleted, k);
    CountConcat(c, r, k);
    CountConcat(c + r, sv, k);
    CountConcat(c + r + sv, d, k);
    CountConcat(c + r + sv + d, m, k);
  }

  /** Every `k1` step of `a + b` is in `a` and every `k2` step in `b`: the `k1` steps come first. */
  lemma BeforeSplit(a: seq<Effect>, b: seq<Effect>, k1: Kind, k2: Kind)
    requires forall i :: 0 <= i < |a| ==> a[i].Kind() != k2
    requires forall i :: 0 <= i < |b| ==> b[i].Kind() != k1
    ensures Before(a + b, k1, k2)
  {
  }

  /**
   * In a converting run, parsing precedes conversion, conversion precedes the
   * resolution, the resolution precedes every save, and every save precedes
   * the cleanup.
   */
  lemma ConvertStepsOrder(n: nat, saved: seq<Converter.ConversionResult>, deleted: Option<nat>, usage: Store.Usage)
    ensures Ordered([Parsed(n)] + ConvertSteps(n, saved, deleted, usage))
  {
    var p, c, r := [Parsed(n)], [Converted(n)], [Resolved];
    var sv, d, m := SaveEffects(saved), CleanupSteps(deleted), [Measured(usage)];
    assert [Parsed(n)] + ConvertSteps(n, saved, deleted, usage) == p + c + r + sv + d + m;
    ParseBeforeConvert(p, c, r, sv, d, m);
    ConvertBeforeResolve(p, c, r, sv, d, m);
    ResolveBeforeSave(p, c, r, sv, d, m);
    SaveBeforeCleanup(p, c, r, sv, d, m);
  }

  /** The shape of the trace of processing that converts, piece by piece. */
  predicate ConvertPieces(p: seq<Effect>, c: seq<Effect>, r: seq<Effect>, sv: seq<Effect>, d: seq<Effect>, m: seq<Effect>) {
    && |p| == 1 && p[0].Parsed?
    && |c| == 1 && c[0].Converted?
    && r == [Resolved]
    && (forall i :: 0 <= i < |sv| ==> sv[i].Saved?)
    && (forall i :: 0 <= i < |d| ==> d[i].CleanedUp?)
    && |m| == 1 && m[0].Measured?
  }

  lemma ParseBeforeConvert(p: seq<Effect>, c: seq<Effect>, r: seq<Effect>, sv: seq<Effect>, d: seq<Effect>, m: seq<Effect>)
    requires ConvertPieces(p, c, r, sv, d, m)
    ensures Before(p + c + r + sv + d + m, Parse, Convert)
  {
    var rest := c + r + sv + d + m;
    assert p + c + r + sv + d + m == p + rest;
    BeforeSplit(p, rest, Parse, Convert);
  }

  lemma ConvertBeforeResolve(p: seq<Effect>, c: seq<Effect>, r: seq<Effect>, sv: seq<Effect>, d: seq<Effect>, m: seq<Effect>)
    requires ConvertPieces(p, c, r, sv, d, m)
    ensures Before(p + c + r + sv + d + m, Convert, Resolve)
  {
    var rest := r + sv + d + m;
    assert p + c + r + sv + d + m == (p + c) + rest;
    BeforeSplit(p + c, rest, Convert, Resolve);
  }

  lemma ResolveBeforeSave(p: seq<Effect>, c: seq<Effect>, r: seq<Effect>, sv: seq<Effect>, d: seq<Effect>, m: seq<Effect>)
    requires ConvertPieces(p, c, r, sv, d, m)
    ensures Before(p + c + r + sv + d + m, Resolve, Save)
  {
    var rest := sv + d + m;
    assert p + c + r + sv + d + m == (p + c + r) + rest;
    BeforeSplit(p + c + r, rest, Resolve, Save);
  }

  lemma SaveBeforeCleanup(p: seq<Effect>, c: seq<Effect>, r: seq<Effect>, sv: seq<Effect>, d: seq<Effect>, m: seq<Effect>)
    requires ConvertPieces(p, c, r, sv, d, m)
    ensures Before(p + c + r + sv + d + m, Save, Cleanup)
  {
    var rest := d + m;
    assert p + c + r + sv + d + m == (p + c + r + sv) + rest;
    BeforeSplit(p + c + r + sv, rest, Save, Cleanup);
  }

  /** Steps in front that are neither `k1` nor `k2` keep the order of the rest. */
  lemma BeforePrefix(a: seq<Effect>, b: seq<Effect>, k1: Kind, k2: Kind)
    requires forall i :: 0 <= i < |a| ==> a[i].Kind() != k1 && a[i].Kind() != k2
    requires Before(b, k1, k2)
    ensures Before(a + b, k1, k2)
  {
    var c := a + b;
    forall i, j | 0 <= i < |c| && 0 <= j < |c| && c[i].Kind() == k1 && c[j].Kind() == k2
      ensures i < j
    {
      assert c[i] == b[i - |a|];
      assert c[j] == b[j - |a|];
    }
  }

  /** The steps of each kind in the measurement and scrapes a run starts with. */
  lemma PrefixCount(u: Store.Usage, first: string, second: string, k: Kind)
    ensures Count([Measured(u), Scraped(first)], k) == (if k == Measure then 1 else if k == Scrape then 1 else 0)
    ensures Count([Measured(u), Scraped(first), Scraped(second)], k)
         == (if k == Measure then 1 else if k == Scrape then 2 else 0)
  {
    CountOne(Measured(u), k);
    CountOne(Scraped(first), k);
    CountOne(Scraped(second), k);
    CountConcat([Measured(u)], [Scraped(first)], k);
    assert [Measured(u), Scraped(first)] == [Measured(u)] + [Scraped(first)];
    CountConcat([Measured(u), Scraped(first)], [Scraped(second)], k);
    assert [Measured(u), Scraped(first), Scraped(second)] == [Measured(u), Scraped(first)] + [Scraped(second)];
  }

  /** Processing that converts: the parse, the conversion's steps, and the store after saving and cleanup. */
  lemma ProcessConverts(s: Store.Store, data: Store.SiteData, flags: Flags, w: World)
    requires Valid(w.now) && |w.parseHtml(data.html, data.css)| > 0 && !flags.dryRun
    ensures var n, f := |w.parseHtml(data.html, data.css)|, Finish(s, data, flags, w);
      && Process(s, data, flags, w).effects == [Parsed(n)] + ConvertSteps(n, SavedOf(data, w), f.1, Store.StorageUsage(f.0))
      && Process(s, data, flags, w).store == f.0
  {
  }

  /** Processing that finds nothing, or is a dry run, only parses. */
  lemma ProcessStops(s: Store.Store, data: Store.SiteData, flags: Flags, w: World)
    requires Valid(w.now) && (|w.parseHtml(data.html, data.css)| == 0 || flags.dryRun)
    ensures Process(s, data, flags, w) == Outcome(s, [Parsed(|w.parseHtml(data.html, data.css)|)], 0)
  {
  }

  /** The steps of each kind in the trace of processing that converts. */
  lemma ConvertTraceCounts(n: nat, saved: seq<Converter.ConversionResult>, deleted: Option<nat>, usage: Store.Usage)
    ensures var es := [Parsed(n)] + ConvertSteps(n, saved, deleted, usage);
      && Count(es, Scrape) == 0
      && Count(es, Parse) == 1
      && Count(es, Convert) == 1
      && Count(es, Resolve) == 1
      && Count(es, Save) == |saved|
      && Count(es, Cleanup) == (if deleted.Some? then 1 else 0)
  {
    var rest := ConvertSteps(n, saved, deleted, usage);
    ConvertTraceCount(n, rest, Scrape);
    ConvertTraceCount(n, rest, Parse);
    ConvertTraceCount(n, rest, Convert);
    ConvertTraceCount(n, rest, Resolve);
    ConvertTraceCount(n, rest, Save);
    ConvertTraceCount(n, rest, Cleanup);
    ConvertStepsCount(n, saved, deleted, usage, Scrape);
    ConvertStepsCount(n, saved, deleted, usage, Parse);
    ConvertStepsCount(n, saved, deleted, usage, Convert);
    ConvertStepsCount(n, saved, deleted, usage, Resolve);
    ConvertStepsCount(n, saved, deleted, usage, Save);
    ConvertStepsCount(n, saved, deleted, usage, Cleanup);
  }

  lemma ConvertTraceCount(n: nat, rest: seq<Effect>, k: Kind)
    ensures Count([Parsed(n)] + rest, k) == (if k == Parse then 1 else 0) + Count(rest, k)
  {
    CountOne(Parsed(n), k);
    CountConcat([Parsed(n)], rest, k);
  }

  /** Processing keeps the order of the steps. */
  lemma ProcessOrder(s: Store.Store, data: Store.SiteData, flags: Flags, w: World)
    requires Valid(w.now)
    ensures Ordered(Process(s, data, flags, w).effects)
  {
    var n := |w.parseHtml(data.html, data.css)|;
    if n > 0 && !flags.dryRun {
      var f := Finish(s, data, flags, w);
      ProcessConverts(s, data, flags, w);
      ConvertStepsOrder(n, SavedOf(data, w), f.1, Store.StorageUsage(f.0));
    } else {
      ProcessStops(s, data, flags, w);
      ParsedOrdered(n);
    }
  }

  /** A lone parse is trivially in order. */
  lemma ParsedOrdered(n: nat)
    ensures Ordered([Parsed(n)])
  {
  }

  /** A run that scrapes twice records the measurement, both scrapes, and then the processing of the second capture. */
  lemma MainShape(s: Store.Store, flags: Flags, w: World)
    requires Clocks(w) && Syncs(s, flags, w) && w.sync.Success?
    ensures Main(s, flags, w)
         == var rest := Process(Synced(s, w), SecondCapture(w), flags, w);
            Outcome(rest.store,
                    [Measured(Store.StorageUsage(s)), Scraped(FirstCapture(w).hash), Scraped(SecondCapture(w).hash)]
                    + rest.effects,
                    0)
  {
    var checked := CheckForChanges(s, w.md5, w.sourceUrl, w.check).value;
    assert checked.capture == FirstCapture(w);
  }

  /** A run whose check fails records only the measurement and leaves the store alone. */
  lemma MainCheckFails(s: Store.Store, flags: Flags, w: World)
    requires Clocks(w) && w.check.Failure?
    ensures Main(s, flags, w) == Outcome(s, [Measured(Store.StorageUsage(s))], 1)
  {
  }

  /**
   * A run whose check succeeds but that does not scrape again, or whose second
   * scrape fails, records the measurement and the first scrape only.
   */
  lemma MainStopsAfterCheck(s: Store.Store, flags: Flags, w: World)
    requires Clocks(w) && w.check.Success? && !(Syncs(s, flags, w) && w.sync.Success?)
    ensures Main(s, flags, w).effects == [Measured(Store.StorageUsage(s)), Scraped(FirstCapture(w).hash)]
  {
    if Syncs(s, flags, w) {
      MainSyncFails(s, flags, w);
    } else {
      MainNoSync(s, flags, w);
    }
  }

  /** Such a run leaves the store holding the first capture. */
  lemma MainStopsStore(s: Store.Store, flags: Flags, w: World)
    requires Clocks(w) && w.check.Success? && !(Syncs(s, flags, w) && w.sync.Success?)
    ensures Main(s, flags, w).store == Store.SaveScrapedData(s, FirstCapture(w))
  {
    if Syncs(s, flags, w) {
      MainSyncFails(s, flags, w);
    } else {
      MainNoSync(s, flags, w);
    }
  }

  lemma MainSyncFails(s: Store.Store, flags: Flags, w: World)
    requires Clocks(w) && Syncs(s, flags, w) && w.sync.Failure?
    ensures var o := Main(s, flags, w);
      && o.effects == [Measured(Store.StorageUsage(s)), Scraped(FirstCapture(w).hash)]
      && o.store == Store.SaveScrapedData(s, FirstCapture(w))
  {
    var checked := CheckForChanges(s, w.md5, w.sourceUrl, w.check).value;
    assert checked.capture == FirstCapture(w);
  }

  lemma MainNoSync(s: Store.Store, flags: Flags, w: World)
    requires Clocks(w) && w.check.Success? && !Syncs(s, flags, w)
    ensures var o := Main(s, flags, w);
      && o.effects == [Measured(Store.StorageUsage(s)), Scraped(FirstCapture(w).hash)]
      && o.store == Store.SaveScrapedData(s, FirstCapture(w))
  {
    var checked := CheckForChanges(s, w.md5, w.sourceUrl, w.check).value;
    assert checked.capture == FirstCapture(w);
  }

  // ---------------------------------------------------------------------------
  // Properties of a run
  // ---------------------------------------------------------------------------

  /** The process fails exactly when a scrape it attempted failed. */
  lemma MainExit(s: Store.Store, flags: Flags, w: World)
    requires Clocks(w)
    ensures Main(s, flags, w).exitCode == 1 <==> w.check.Failure? || (Syncs(s, flags, w) && w.sync.Failure?)
  {
    if w.check.Success? {
      var checked := CheckForChanges(s, w.md5, w.sourceUrl, w.check).value;
      assert checked.capture == FirstCapture(w);
    }
  }

  /**
   * The number of scrapes: none recorded when the check failed, one when the
   * run stops after the check, two when it goes on to sync.
   */
  lemma MainScrapes(s: Store.Store, flags: Flags, w: World)
    requires Clocks(w)
    ensures Count(Main(s, flags, w).effects, Scrape)
         == if w.check.Failure? then 0 else if Syncs(s, flags, w) && w.sync.Success? then 2 else 1
  {
    if w.check.Failure? {
      MainCheckFails(s, flags, w);
      CountOne(Measured(Store.StorageUsage(s)), Scrape);
    } else if Syncs(s, flags, w) && w.sync.Success? {
      MainScrapesSynced(s, flags, w);
    } else {
      MainStopsAfterCheck(s, flags, w);
      PrefixCount(Store.StorageUsage(s), FirstCapture(w).hash, FirstCapture(w).hash, Scrape);
    }
  }

  lemma MainScrapesSynced(s: Store.Store, flags: Flags, w: World)
    requires Clocks(w) && Syncs(s, flags, w) && w.sync.Success?
    ensures Count(Main(s, flags, w).effects, Scrape) == 2
  {
    var u, first, second := Store.StorageUsage(s), FirstCapture(w).hash, SecondCapture(w).hash;
    var rest := Process(Synced(s, w), SecondCapture(w), flags, w).effects;
    ProcessScrapesNothing(Synced(s, w), SecondCapture(w), flags, w);
    PrefixCount(u, first, second, Scrape);
    CountConcat([Measured(u), Scraped(first), Scraped(second)], rest, Scrape);
    MainShape(s, flags, w);
  }

  /** Processing never scrapes. */
  lemma ProcessScrapesNothing(s: Store.Store, data: Store.SiteData, flags: Flags, w: World)
    requires Valid(w.now)
    ensures Count(Process(s, data, flags, w).effects, Scrape) == 0
  {
    var n := |w.parseHtml(data.html, data.css)|;
    if n > 0 && !flags.dryRun {
      var f := Finish(s, data, flags, w);
      ProcessConverts(s, data, flags, w);
      ConvertTraceCounts(n, SavedOf(data, w), f.1, Store.StorageUsage(f.0));
    } else {
      ProcessStops(s, data, flags, w);
      CountOne(Parsed(n), Scrape);
    }
  }

  /** The steps of kind `k`, for a kind other than measuring and scraping, all come from processing. */
  lemma MainCount(s: Store.Store, flags: Flags, w: World, k: Kind)
    requires Clocks(w) && k != Measure && k != Scrape
    ensures Count(Main(s, flags, w).effects, k)
         == if Syncs(s, flags, w) && w.sync.Success?
            then Count(Process(Synced(s, w), SecondCapture(w), flags, w).effects, k) else 0
  {
    var u := Store.StorageUsage(s);
    if w.check.Failure? {
      MainCheckFails(s, flags, w);
      CountOne(Measured(u), k);
    } else if Syncs(s, flags, w) && w.sync.Success? {
      MainShape(s, flags, w);
      var prefix := [Measured(u), Scraped(FirstCapture(w).hash), Scraped(SecondCapture(w).hash)];
      PrefixCount(u, FirstCapture(w).hash, SecondCapture(w).hash, k);
      CountConcat(prefix, Process(Synced(s, w), SecondCapture(w), flags, w).effects, k);
    } else {
      MainStopsAfterCheck(s, flags, w);
      PrefixCount(u, FirstCapture(w).hash, FirstCapture(w).hash, k);
    }
  }

  /**
   * A run parses once exactly when it scrapes twice; it converts and resolves
   * once exactly when it also finds components and is not a dry run, and not
   * at all otherwise; it saves once per successful result and cleans up once
   * unless told to skip it.
   */
  lemma MainCounts(s: Store.Store, flags: Flags, w: World)
    requires Clocks(w)
    ensures var es := Main(s, flags, w).effects;
      && Count(es, Parse) == (if Syncs(s, flags, w) && w.sync.Success? then 1 else 0)
      && Count(es, Convert) == (if Converts(s, flags, w) then 1 else 0)
      && Count(es, Resolve) == (if Converts(s, flags, w) then 1 else 0)
      && Count(es, Save) == (if Converts(s, flags, w) then Converter.SuccessCount(ResolvedResults(w)) else 0)
      && Count(es, Cleanup) == (if Converts(s, flags, w) && !flags.skipCleanup then 1 else 0)
  {
    MainParses(s, flags, w);
    MainConversions(s, flags, w);
    MainSaves(s, flags, w);
    MainCleanups(s, flags, w);
  }

  lemma MainParses(s: Store.Store, flags: Flags, w: World)
    requires Clocks(w)
    ensures Count(Main(s, flags, w).effects, Parse) == if Syncs(s, flags, w) && w.sync.Success? then 1 else 0
  {
    MainCount(s, flags, w, Parse);
    if Syncs(s, flags, w) && w.sync.Success? {
      ProcessKindCounts(Synced(s, w), SecondCapture(w), flags, w);
    }
  }

  lemma MainConversions(s: Store.Store, flags: Flags, w: World)
    requires Clocks(w)
    ensures Count(Main(s, flags, w).effects, Convert) == if Converts(s, flags, w) then 1 else 0
    ensures Count(Main(s, flags, w).effects, Resolve) == if Converts(s, flags, w) then 1 else 0
  {
    MainCount(s, flags, w, Convert);
    MainCount(s, flags, w, Resolve);
    if Syncs(s, flags, w) && w.sync.Success? {
      ProcessKindCounts(Synced(s, w), SecondCapture(w), flags, w);
    }
  }

  lemma MainSaves(s: Store.Store, flags: Flags, w: World)
    requires Clocks(w)
    ensures Count(Main(s, flags, w).effects, Save)
         == if Converts(s, flags, w) then Converter.SuccessCount(ResolvedResults(w)) else 0
  {
    MainCount(s, flags, w, Save);
    if Syncs(s, flags, w) && w.sync.Success? {
      ProcessKindCounts(Synced(s, w), SecondCapture(w), flags, w);
    }
  }

  lemma MainCleanups(s: Store.Store, flags: Flags, w: World)
    requires Clocks(w)
    ensures Count(Main(s, flags, w).effects, Cleanup) == if Converts(s, flags, w) && !flags.skipCleanup then 1 else 0
  {
    MainCount(s, flags, w, Cleanup);
    if Syncs(s, flags, w) && w.sync.Success? {
      ProcessKindCounts(Synced(s, w), SecondCapture(w), flags, w);
    }
  }

  /** The parse, conversion, resolution, save and cleanup steps after the second save. */
  lemma ProcessKindCounts(s: Store.Store, data: Store.SiteData, flags: Flags, w: World)
    requires Valid(w.now)
    ensures var es := Process(s, data, flags, w).effects;
      var converts := |w.parseHtml(data.html, data.css)| > 0 && !flags.dryRun;
      && Count(es, Parse) == 1
      && Count(es, Convert) == (if converts then 1 else 0)
      && Count(es, Resolve) == (if converts then 1 else 0)
      && Count(es, Save) == (if converts then Converter.SuccessCount(w.resolve(w.convertAll(w.parseHtml(data.html, data.css)))) else 0)
      && Count(es, Cleanup) == (if converts && !flags.skipCleanup then 1 else 0)
  {
    var n := |w.parseHtml(data.html, data.css)|;
    if n > 0 && !flags.dryRun {
      var f := Finish(s, data, flags, w);
      ProcessConverts(s, data, flags, w);
      ConvertTraceCounts(n, SavedOf(data, w), f.1, Store.StorageUsage(f.0));
    } else {
      ProcessStops(s, data, flags, w);
      ParsedCounts(n);
    }
  }

  lemma ParsedCounts(n: nat)
    ensures Count([Parsed(n)], Parse) == 1
    ensures Count([Parsed(n)], Convert) == 0 && Count([Parsed(n)], Resolve) == 0
    ensures Count([Parsed(n)], Save) == 0 && Count([Parsed(n)], Cleanup) == 0
  {
    CountOne(Parsed(n), Parse);
    CountOne(Parsed(n), Convert);
    CountOne(Parsed(n), Resolve);
    CountOne(Parsed(n), Save);
    CountOne(Parsed(n), Cleanup);
  }

  /**
   * In every run, parsing comes before conversion, conversion before the
   * resolution, the resolution before every save, and every save before the
   * cleanup.
   */
  lemma MainOrder(s: Store.Store, flags: Flags, w: World)
    requires Clocks(w)
    ensures Ordered(Main(s, flags, w).effects)
  {
    if w.check.Failure? {
      MainCheckFails(s, flags, w);
      MeasuredOrdered(Store.StorageUsage(s));
    } else if Syncs(s, flags, w) && w.sync.Success? {
      MainOrderSynced(s, flags, w);
    } else {
      MainOrderStops(s, flags, w);
    }
  }

  lemma MainOrderStops(s: Store.Store, flags: Flags, w: World)
    requires Clocks(w) && w.check.Success? && !(Syncs(s, flags, w) && w.sync.Success?)
    ensures Ordered(Main(s, flags, w).effects)
  {
    MainStopsAfterCheck(s, flags, w);
    CheckedOrdered(Store.StorageUsage(s), FirstCapture(w).hash);
  }

  /** The trace of a run whose check failed is trivially in order. */
  lemma MeasuredOrdered(u: Store.Usage)
    ensures Ordered([Measured(u)])
  {
    OnlyMeasureScrape([Measured(u)]);
  }

  /** The trace of a run that stops after the check is trivially in order. */
  lemma CheckedOrdered(u: Store.Usage, h: string)
    ensures Ordered([Measured(u), Scraped(h)])
  {
    OnlyMeasureScrape([Measured(u), Scraped(h)]);
  }

  lemma MainOrderSynced(s: Store.Store, flags: Flags, w: World)
    requires Clocks(w) && Syncs(s, flags, w) && w.sync.Success?
    ensures Ordered(Main(s, flags, w).effects)
  {
    var rest := Process(Synced(s, w), SecondCapture(w), flags, w).effects;
    ProcessOrder(Synced(s, w), SecondCapture(w), flags, w);
    StagesAfterScrapes(Store.StorageUsage(s), FirstCapture(w).hash, SecondCapture(w).hash, rest);
    MainShape(s, flags, w);
  }

  /** The order of the stages holds of a trace of measurements and scrapes only. */
  lemma OnlyMeasureScrape(es: seq<Effect>)
    requires forall i :: 0 <= i < |es| ==> es[i].Measured? || es[i].Scraped?
    ensures Ordered(es)
  {
  }

  /** The stages, in the order a run takes them. */
  predicate Ordered(es: seq<Effect>) {
    Before(es, Parse, Convert) && Before(es, Convert, Resolve) && Before(es, Resolve, Save) && Before(es, Save, Cleanup)
  }

  lemma StagesAfterPrefix(prefix: seq<Effect>, rest: seq<Effect>)
    requires forall i :: 0 <= i < |prefix| ==> prefix[i].Measured? || prefix[i].Scraped?
    requires Ordered(rest)
    ensures Ordered(prefix + rest)
  {
    BeforePrefix(prefix, rest, Parse, Convert);
    BeforePrefix(prefix, rest, Convert, Resolve);
    BeforePrefix(prefix, rest, Resolve, Save);
    BeforePrefix(prefix, rest, Save, Cleanup);
  }

  /** The measurement and both scrapes in front keep the order of the stages. */
  lemma StagesAfterScrapes(u: Store.Usage, first: string, second: string, rest: seq<Effect>)
    requires Ordered(rest)
    ensures Ordered([Measured(u), Scraped(first), Scraped(second)] + rest)
  {
    StagesAfterPrefix([Measured(u), Scraped(first), Scraped(second)], rest);
  }

  // ---------------------------------------------------------------------------
  // What a run leaves in the store
  // ---------------------------------------------------------------------------

  /** Reading the latest capture looks only at `current`; reading a named folder looks only at the history. */
  lemma LoadSees(a: Store.Store, b: Store.Store, name: Option<string>)
    requires (name.None? || name.value == "") ==> a.current == b.current
    requires (name.Some? && name.value != "") ==> a.history == b.history
    ensures Store.LoadScrapedData(a, name) == Store.LoadScrapedData(b, name)
  {
  }

  /** A run that stops after the check leaves the first capture as the latest one. */
  lemma MainKeepsCapture(s: Store.Store, flags: Flags, w: World)
    requires Clocks(w) && w.check.Success? && !(Syncs(s, flags, w) && w.sync.Success?)
    ensures Store.LoadScrapedData(Main(s, flags, w).store, None) == Some(Store.Reloaded(FirstCapture(w)))
  {
    MainStopsStore(s, flags, w);
    Store.LoadAfterSave(s, FirstCapture(w));
  }

  /** Processing leaves the history alone when there is no cleanup. */
  lemma ProcessKeepsHistory(s: Store.Store, data: Store.SiteData, flags: Flags, w: World)
    requires Valid(w.now)
    requires flags.skipCleanup || |w.parseHtml(data.html, data.css)| == 0 || flags.dryRun
    ensures Process(s, data, flags, w).store.history == s.history
  {
    if |w.parseHtml(data.html, data.css)| > 0 && !flags.dryRun {
      ProcessConverts(s, data, flags, w);
    } else {
      ProcessStops(s, data, flags, w);
    }
  }

  /** The store a run that scrapes twice leaves is the processing of the second capture. */
  lemma MainSyncedStore(s: Store.Store, flags: Flags, w: World)
    requires Clocks(w) && Syncs(s, flags, w) && w.sync.Success?
    ensures Main(s, flags, w).store == Process(Synced(s, w), SecondCapture(w), flags, w).store
  {
    MainShape(s, flags, w);
  }

  /** A run that scrapes twice leaves the second capture as the latest one. */
  lemma MainLoadsLatest(s: Store.Store, flags: Flags, w: World)
    requires Clocks(w) && Syncs(s, flags, w) && w.sync.Success?
    ensures Store.LoadScrapedData(Main(s, flags, w).store, None) == Some(Store.Reloaded(SecondCapture(w)))
  {
    MainSyncedStore(s, flags, w);
    var first := Store.SaveScrapedData(s, FirstCapture(w));
    Store.LoadAfterSave(first, SecondCapture(w));
    LoadSees(Main(s, flags, w).store, Synced(s, w), None);
  }

  /**
   * A run that scrapes twice and cleans up nothing keeps the first capture
   * loadable from the history folder named after its time, provided that
   * name was free for a folder.
   */
  lemma MainArchivesFirst(s: Store.Store, flags: Flags, w: World)
    requires Clocks(w) && Syncs(s, flags, w) && w.sync.Success?
    requires flags.skipCleanup || !Converts(s, flags, w)
    requires var h := Store.SaveScrapedData(s, FirstCapture(w)).history;
      Store.FolderFiles(Get(h, FolderName(FirstCapture(w).timestamp))).Some?
    ensures var name := FolderName(FirstCapture(w).timestamp);
      Store.LoadScrapedData(Main(s, flags, w).store, Some(name)) == Some(Store.Reloaded(FirstCapture(w)))
  {
    var name := FolderName(FirstCapture(w).timestamp);
    MainSyncedStore(s, flags, w);
    ProcessKeepsHistory(Synced(s, w), SecondCapture(w), flags, w);
    Store.SaveTwice(s, FirstCapture(w), SecondCapture(w));
    LoadSees(Main(s, flags, w).store, Synced(s, w), Some(name));
  }

  /** Processing that converts writes each saved component under its name, when the names are distinct. */
  lemma ProcessWrites(s: Store.Store, data: Store.SiteData, flags: Flags, w: World, i: nat)
    requires Valid(w.now) && |w.parseHtml(data.html, data.css)| > 0 && !flags.dryRun
    requires DistinctNames(SavedOf(data, w)) && i < |SavedOf(data, w)|
    ensures var r := SavedOf(data, w)[i];
      Get(Process(s, data, flags, w).store.components, r.filename + ".astro") == Some(r.astroComponent)
  {
    ProcessConverts(s, data, flags, w);
    assert AllSucceed(SavedOf(data, w));
    SaveAllWritten(s, SavedOf(data, w), w.now, i);
  }

  /**
   * A converting run leaves every successful component in the components
   * folder, under its name, holding its resolved text, when no two share a
   * name.
   */
  lemma MainWritesComponents(s: Store.Store, flags: Flags, w: World, i: nat)
    requires Clocks(w) && Converts(s, flags, w)
    requires DistinctNames(SavedOf(SecondCapture(w), w)) && i < |SavedOf(SecondCapture(w), w)|
    ensures var r := SavedOf(SecondCapture(w), w)[i];
      Get(Main(s, flags, w).store.components, r.filename + ".astro") == Some(r.astroComponent)
  {
    MainSyncedStore(s, flags, w);
    ProcessWrites(Synced(s, w), SecondCapture(w), flags, w, i);
  }

  /** Processing that does not convert leaves the component and processed folders alone. */
  lemma ProcessStopsKeeps(s: Store.Store, data: Store.SiteData, flags: Flags, w: World)
    requires Valid(w.now) && (|w.parseHtml(data.html, data.css)| == 0 || flags.dryRun)
    ensures Process(s, data, flags, w).store == s
  {
    ProcessStops(s, data, flags, w);
  }

  /** A run that does not convert leaves the component and processed folders as they were. */
  lemma MainNoConversion(s: Store.Store, flags: Flags, w: World)
    requires Clocks(w) && !Converts(s, flags, w)
    ensures Main(s, flags, w).store.components == s.components
    ensures Main(s, flags, w).store.processed == s.processed
  {
    if w.check.Failure? {
      MainCheckFails(s, flags, w);
    } else if Syncs(s, flags, w) && w.sync.Success? {
      MainSyncedStore(s, flags, w);
      ProcessStopsKeeps(Synced(s, w), SecondCapture(w), flags, w);
    } else {
      MainStopsStore(s, flags, w);
    }
  }

  // ---------------------------------------------------------------------------
  // The run over the real stages
  // ---------------------------------------------------------------------------

  /**
   * Over the parser and the converter, the components are those identified
   * in the second capture, and the results saved from are as many successes
   * as converting them gives.
   */
  lemma WiredResults(w: World)
    requires Wired(w) && w.sync.Success?
    ensures Components(w) == Parser.IdentifyComponents(w.load(w.sync.value.html), w.matches, w.sync.value.css)
    ensures Converter.SuccessCount(ResolvedResults(w))
         == Converter.SuccessCount(Converter.ConvertAll(Components(w), w.parse, w.render))
  {
    Converter.ResolveKeepsSuccessCount(Converter.ConvertAll(Components(w), w.parse, w.render));
  }

  /** No selector value of a found component holds a double quote. */
  predicate QuoteFree(w: World)
    requires w.sync.Success?
  {
    forall i :: 0 <= i < |Components(w)| ==> Converter.AllQuoteFree(Converter.SelectorValues(Components(w)[i].props))
  }

  /** Over the real stages, every component converts when no selector value holds a quote. */
  lemma WiredAllSucceed(w: World)
    requires Wired(w) && w.sync.Success? && QuoteFree(w)
    ensures Converter.SuccessCount(ResolvedResults(w)) == |Components(w)|
  {
    WiredResults(w);
    Converter.ConvertAllSucceeds(Components(w), w.parse, w.render);
  }

  /** A converting run over the real stages saves every component when no selector value holds a quote. */
  lemma MainSavesEveryComponent(s: Store.Store, flags: Flags, w: World)
    requires Clocks(w) && Wired(w) && Converts(s, flags, w) && QuoteFree(w)
    ensures Count(Main(s, flags, w).effects, Save) == |Components(w)|
  {
    WiredAllSucceed(w);
    MainSaves(s, flags, w);
  }
}
