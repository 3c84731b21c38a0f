/**
 * The on-disk data store of the sync pipeline: the `current` capture, the
 * timestamped `history` folders, the `processed` conversion records and the
 * generated component files, with the operations that save, rotate, load,
 * list, prune and measure them.
 */
module Store {
  import opened Common
  import opened Strings
  import opened Dicts
  import opened Time
  import Meta
  import Converter

  // ---------------------------------------------------------------------------
  // State
  // ---------------------------------------------------------------------------

  /** A directory entry of `history`: a plain file, or a folder of files. */
  datatype Entry = File(content: string) | Folder(files: Dict<string>)

  /**
   * The four directories, each as its listing: `current`, `history` and
   * `processed` under the data root, and the component directory.
   */
  datatype Store = Store(
    current: Dict<string>, history: Dict<Entry>, processed: Dict<string>, components: Dict<string>)

  /** Directory listings never name an entry twice. */
  predicate WellFormed(s: Store) {
    DistinctKeys(s.current) && DistinctKeys(s.history) && DistinctKeys(s.processed)
    && DistinctKeys(s.components)
    && forall i :: 0 <= i < |s.history| && s.history[i].1.Folder? ==> DistinctKeys(s.history[i].1.files)
  }

  /** One capture of the site. */
  datatype SiteData = SiteData(html: string, css: string, hash: string, timestamp: DateTime, sourceUrl: string)

  /** A capture read back: its date is absent when the recorded text is not a date. */
  datatype Loaded = Loaded(html: string, css: string, hash: string, timestamp: Option<DateTime>, sourceUrl: string)

  const IndexFile: string := "index.html"
  const StylesFile: string := "styles.css"
  const HashFile: string := "hash.txt"
  const MetadataFile: string := "metadata.json"

  /** The files of one capture, in the order they are moved. */
  const CaptureFiles: seq<string> := [IndexFile, StylesFile, HashFile, MetadataFile]

  lemma CaptureFilesDistinct()
    ensures forall i, j :: 0 <= i < j < |CaptureFiles| ==> CaptureFiles[i] != CaptureFiles[j]
  {
    assert IndexFile[0] == 'i' && StylesFile[0] == 's' && HashFile[0] == 'h' && MetadataFile[0] == 'm';
  }

  // ---------------------------------------------------------------------------
  // Saving and rotating
  // ---------------------------------------------------------------------------

  /** The record written next to a capture; sizes are JavaScript string lengths. */
  function MetadataOf(data: SiteData): (m: Meta.Metadata)
    requires Valid(data.timestamp)
    ensures ParseIso(m.timestamp) == Some(data.timestamp)
    ensures m.sourceUrl == data.sourceUrl && m.hash == data.hash
    ensures m.htmlSize == Meta.Utf16Length(data.html) && m.cssSize == Meta.Utf16Length(data.css)
    ensures m.htmlSize >= |data.html| && m.cssSize >= |data.css|
  {
    ParseIsoString(data.timestamp);
    Meta.Metadata(
      IsoString(data.timestamp), data.sourceUrl, data.hash,
      Meta.Utf16Length(data.html), Meta.Utf16Length(data.css))
  }

  /**
   * The history folder the capture in `current` belongs in, named after its
   * recorded timestamp; `None` when there is no record, it does not parse, or
   * its timestamp is not a date.
   */
  function CurrentFolder(current: Dict<string>): (r: Option<string>)
    ensures r.Some? ==> HasKey(current, MetadataFile) && |r.value| == 24
  {
    match Get(current, MetadataFile)
    case None => None
    case Some(text) =>
      match Meta.Decode(text)
      case None => None
      case Some(m) =>
        match ParseIso(m.timestamp)
        case None => None
        case Some(t) => Some(FolderName(t))
  }

  /** Renames each of `names` present in `current` into `folder`, overwriting; absent names are skipped. */
  function MoveFiles(current: Dict<string>, folder: Dict<string>, names: seq<string>): (r: (Dict<string>, Dict<string>))
    decreases |names|
  {
    if |names| == 0 then (current, folder)
    else
      match Get(current, names[0])
      case None => MoveFiles(current, folder, names[1..])
      case Some(c) => MoveFiles(Remove(current, names[0]), Put(folder, names[0], c), names[1..])
  }

  predicate DistinctNames(names: seq<string>) {
    forall i, j :: 0 <= i < j < |names| ==> names[i] != names[j]
  }

  /**
   * After the moves, a moved name is gone from `current` and the folder holds
   * what `current` held under it (or what it held before, when the file was
   * absent); every other name is untouched on both sides.
   */
  lemma {:induction false} MoveFilesGet(current: Dict<string>, folder: Dict<string>, names: seq<string>, k: string)
    requires DistinctNames(names)
    ensures var r := MoveFiles(current, folder, names);
      if k in names then
        Get(r.0, k) == None && Get(r.1, k) == (if HasKey(current, k) then Get(current, k) else Get(folder, k))
      else
        Get(r.0, k) == Get(current, k) && Get(r.1, k) == Get(folder, k)
    decreases |names|
  {
    if |names| > 0 {
      var n := names[0];
      assert k in names <==> k == n || k in names[1..];
      assert n !in names[1..] by {
        forall j | 0 <= j < |names| - 1 ensures names[1..][j] != n {
          assert names[1..][j] == names[j + 1];
        }
      }
      match Get(current, n)
      case None =>
        MoveFilesGet(current, folder, names[1..], k);
      case Some(c) =>
        MoveFilesGet(Remove(current, n), Put(folder, n, c), names[1..], k);
        PutGet(folder, n, c, k);
    }
  }

  /**
   * What the history entry `e` lets a capture be filed into: a new empty
   * folder when absent, the folder's files when it is one, and nothing when a
   * plain file holds the name.
   */
  function FolderFiles(e: Option<Entry>): (r: Option<Dict<string>>)
    ensures r.None? <==> e.Some? && e.value.File?
  {
    match e
    case None => Some([])
    case Some(Folder(files)) => Some(files)
    case Some(File(_)) => None
  }

  /** Files the capture files of `current` into history folder `name`, which held `folder`. */
  function Archive(s: Store, name: string, folder: Dict<string>): (r: Store)
    ensures r.processed == s.processed && r.components == s.components
  {
    var (current, files) := MoveFiles(s.current, folder, CaptureFiles);
    s.(current := current, history := Put(s.history, name, Folder(files)))
  }

  /**
   * `moveCurrentToHistory`: when `current` holds a readable record, the capture
   * files present move into the history folder named after its timestamp,
   * which is created when absent. A plain file of that name blocks the moves.
   */
  function Rotate(s: Store): (r: Store)
    ensures r.processed == s.processed && r.components == s.components
    ensures CurrentFolder(s.current).None? ==> r == s
  {
    match CurrentFolder(s.current)
    case None => s
    case Some(name) =>
      match FolderFiles(Get(s.history, name))
      case None => s
      case Some(folder) => Archive(s, name, folder)
  }

  /**
   * Filing moves the capture: each capture file of `current` is now in the
   * folder, `current` keeps only its other files, and no other history entry
   * changes.
   */
  lemma ArchiveMoves(s: Store, name: string, folder: Dict<string>, k: string)
    ensures var r := Archive(s, name, folder);
      var files := MoveFiles(s.current, folder, CaptureFiles).1;
      HistoryFiles(r.history, name) == Some(files)
      && (k in CaptureFiles && HasKey(s.current, k) ==> Get(files, k) == Get(s.current, k))
      && (k in CaptureFiles ==> !HasKey(r.current, k))
      && (k !in CaptureFiles ==> Get(r.current, k) == Get(s.current, k))
      && (k != name ==> Get(r.history, k) == Get(s.history, k))
  {
    CaptureFilesDistinct();
    MoveFilesGet(s.current, folder, CaptureFiles, k);
    var files := MoveFiles(s.current, folder, CaptureFiles).1;
    PutGet(s.history, name, Folder(files), k);
    PutGet(s.history, name, Folder(files), name);
  }

  /** Rotation leaves every history entry other than the capture's own folder as it was. */
  lemma RotateOtherFolders(s: Store, k: string)
    requires CurrentFolder(s.current).Some? ==> k != CurrentFolder(s.current).value
    ensures Get(Rotate(s).history, k) == Get(s.history, k)
  {
    match CurrentFolder(s.current)
    case None =>
    case Some(name) =>
      match FolderFiles(Get(s.history, name))
      case None =>
      case Some(folder) => ArchiveMoves(s, name, folder, k);
  }

  /**
   * `saveScrapedData`: rotate the previous capture into history, then write
   * the page, its styles, its hash and its record into `current`.
   */
  function SaveScrapedData(s: Store, data: SiteData): (r: Store)
    requires Valid(data.timestamp)
    ensures r.history == Rotate(s).history
    ensures r.processed == s.processed && r.components == s.components
  {
    var rotated := Rotate(s);
    var current := Put(Put(Put(Put(rotated.current,
      IndexFile, data.html),
      StylesFile, data.css),
      HashFile, data.hash),
      MetadataFile, Meta.Encode(MetadataOf(data)));
    rotated.(current := current)
  }

  /** After a save, `current` holds the four files of the new capture and nothing else changed in it. */
  lemma SaveGet(s: Store, data: SiteData, k: string)
    requires Valid(data.timestamp)
    ensures var c := SaveScrapedData(s, data).current;
      Get(c, IndexFile) == Some(data.html) && Get(c, StylesFile) == Some(data.css)
      && Get(c, HashFile) == Some(data.hash)
      && Get(c, MetadataFile) == Some(Meta.Encode(MetadataOf(data)))
      && (k !in CaptureFiles ==> Get(c, k) == Get(Rotate(s).current, k))
  {
    CaptureFilesDistinct();
    var c0 := Rotate(s).current;
    var c1 := Put(c0, IndexFile, data.html);
    var c2 := Put(c1, StylesFile, data.css);
    var c3 := Put(c2, HashFile, data.hash);
    var text := Meta.Encode(MetadataOf(data));
    PutGet(c3, MetadataFile, text, IndexFile);
    PutGet(c3, MetadataFile, text, StylesFile);
    PutGet(c3, MetadataFile, text, HashFile);
    PutGet(c3, MetadataFile, text, k);
    PutGet(c2, HashFile, data.hash, IndexFile);
    PutGet(c2, HashFile, data.hash, StylesFile);
    PutGet(c2, HashFile, data.hash, k);
    PutGet(c1, StylesFile, data.css, IndexFile);
    PutGet(c1, StylesFile, data.css, k);
    PutGet(c0, IndexFile, data.html, k);
  }

  /** The record a save writes names the folder its capture will be rotated into. */
  lemma SavedFolder(s: Store, data: SiteData)
    requires Valid(data.timestamp)
    ensures CurrentFolder(SaveScrapedData(s, data).current) == Some(FolderName(data.timestamp))
  {
    SaveGet(s, data, MetadataFile);
    Meta.DecodeEncode(MetadataOf(data));
  }

  // ---------------------------------------------------------------------------
  // Loading
  // ---------------------------------------------------------------------------

  /** The files of history folder `name`, when it is a folder. */
  function HistoryFiles(history: Dict<Entry>, name: string): (r: Option<Dict<string>>)
    ensures r.Some? <==> HasKey(history, name) && Get(history, name).value.Folder?
  {
    var e: Option<Entry> := Get(history, name);
    match e
    case Some(Folder(files)) => Some(files)
    case _ => None
  }

  /** Reads a capture from the files of one directory. */
  function LoadFiles(files: Dict<string>): (r: Option<Loaded>)
    ensures r.Some? ==> forall k :: k in CaptureFiles ==> HasKey(files, k)
  {
    match (Get(files, IndexFile), Get(files, StylesFile), Get(files, HashFile), Get(files, MetadataFile))
    case (Some(html), Some(css), Some(hash), Some(text)) =>
      (match Meta.Decode(text)
       case None => None
       case Some(m) => Some(Loaded(html, css, Trim(hash), ParseIso(m.timestamp), m.sourceUrl)))
    case _ => None
  }

  /**
   * `loadScrapedData`: read the capture from `current`, or from history folder
   * `timestamp` when one is given and not empty. A missing folder, a missing
   * file or an unreadable record gives `None`; the hash is trimmed.
   */
  function LoadScrapedData(s: Store, timestamp: Option<string>): (r: Option<Loaded>)
    ensures timestamp.Some? && timestamp.value != "" && HistoryFiles(s.history, timestamp.value).None? ==> r.None?
    ensures (timestamp.None? || timestamp.value == "") && r.Some? ==> HasKey(s.current, MetadataFile)
  {
    if timestamp.Some? && timestamp.value != "" then
      match HistoryFiles(s.history, timestamp.value)
      case None => None
      case Some(files) => LoadFiles(files)
    else LoadFiles(s.current)
  }

  /** What loading a saved capture gives back. */
  function Reloaded(data: SiteData): Loaded {
    Loaded(data.html, data.css, Trim(data.hash), Some(data.timestamp), data.sourceUrl)
  }

  /** `files` holds the four files a save of `data` writes. */
  predicate Holds(files: Dict<string>, data: SiteData)
    requires Valid(data.timestamp)
  {
    Get(files, IndexFile) == Some(data.html) && Get(files, StylesFile) == Some(data.css)
    && Get(files, HashFile) == Some(data.hash)
    && Get(files, MetadataFile) == Some(Meta.Encode(MetadataOf(data)))
  }

  /** A directory holding the four files a save writes loads back as that capture. */
  lemma LoadFilesOfCapture(files: Dict<string>, data: SiteData)
    requires Valid(data.timestamp) && Holds(files, data)
    ensures LoadFiles(files) == Some(Reloaded(data))
  {
    Meta.DecodeEncode(MetadataOf(data));
  }

  /** Loading right after a save gives back the capture just saved. */
  lemma LoadAfterSave(s: Store, data: SiteData)
    requires Valid(data.timestamp)
    ensures LoadScrapedData(SaveScrapedData(s, data), None) == Some(Reloaded(data))
  {
    SaveGet(s, data, IndexFile);
    LoadFilesOfCapture(SaveScrapedData(s, data).current, data);
  }

  /** Filing a saved capture into a folder keeps it loadable from there. */
  lemma ArchiveKeepsCapture(current: Dict<string>, folder: Dict<string>, data: SiteData)
    requires Valid(data.timestamp) && Holds(current, data)
    ensures Holds(MoveFiles(current, folder, CaptureFiles).1, data)
  {
    CaptureFilesDistinct();
    MoveFilesGet(current, folder, CaptureFiles, IndexFile);
    MoveFilesGet(current, folder, CaptureFiles, StylesFile);
    MoveFilesGet(current, folder, CaptureFiles, HashFile);
    MoveFilesGet(current, folder, CaptureFiles, MetadataFile);
  }

  /** The record of a held capture names its folder. */
  lemma HoldsFolder(files: Dict<string>, data: SiteData)
    requires Valid(data.timestamp) && Holds(files, data)
    ensures CurrentFolder(files) == Some(FolderName(data.timestamp))
  {
    Meta.DecodeEncode(MetadataOf(data));
  }

  /** Rotation into a folder that can take the capture leaves that folder holding the moved files. */
  lemma RotateFiles(s: Store, name: string, folder: Dict<string>)
    requires CurrentFolder(s.current) == Some(name)
    requires FolderFiles(Get(s.history, name)) == Some(folder)
    ensures HistoryFiles(Rotate(s).history, name) == Some(MoveFiles(s.current, folder, CaptureFiles).1)
  {
    ArchiveMoves(s, name, folder, name);
  }

  /**
   * A save files the capture held in `current` under its folder name, from
   * where it loads back unchanged, unless a plain file holds that name.
   */
  lemma LoadArchived(s: Store, first: SiteData, second: SiteData)
    requires Valid(first.timestamp) && Valid(second.timestamp)
    requires Holds(s.current, first)
    requires FolderFiles(Get(s.history, FolderName(first.timestamp))).Some?
    ensures LoadScrapedData(SaveScrapedData(s, second), Some(FolderName(first.timestamp))) == Some(Reloaded(first))
  {
    var files := RotateArchives(s, first);
    LoadFromHistory(SaveScrapedData(s, second), FolderName(first.timestamp), files);
  }

  /** Loading by a non-empty name reads the files of that history folder. */
  lemma LoadFromHistory(s: Store, name: string, files: Dict<string>)
    requires name != "" && HistoryFiles(s.history, name) == Some(files)
    ensures LoadScrapedData(s, Some(name)) == LoadFiles(files)
  {
  }

  /** Rotation files the held capture under its folder name, from where it loads back. */
  lemma RotateArchives(s: Store, first: SiteData) returns (files: Dict<string>)
    requires Valid(first.timestamp)
    requires Holds(s.current, first)
    requires FolderFiles(Get(s.history, FolderName(first.timestamp))).Some?
    ensures HistoryFiles(Rotate(s).history, FolderName(first.timestamp)) == Some(files)
    ensures LoadFiles(files) == Some(Reloaded(first))
  {
    var name := FolderName(first.timestamp);
    var folder := FolderFiles(Get(s.history, name)).value;
    files := MoveFiles(s.current, folder, CaptureFiles).1;
    HoldsFolder(s.current, first);
    RotateFiles(s, name, folder);
    ArchiveKeepsCapture(s.current, folder, first);
    LoadFilesOfCapture(files, first);
  }

  /** Two saves in a row: the first capture loads back from its history folder. */
  lemma SaveTwice(s: Store, first: SiteData, second: SiteData)
    requires Valid(first.timestamp) && Valid(second.timestamp)
    requires var h := SaveScrapedData(s, first).history;
      FolderFiles(Get(h, FolderName(first.timestamp))).Some?
    ensures var s2 := SaveScrapedData(SaveScrapedData(s, first), second);
      LoadScrapedData(s2, Some(FolderName(first.timestamp))) == Some(Reloaded(first))
  {
    SaveGet(s, first, IndexFile);
    LoadArchived(SaveScrapedData(s, first), first, second);
  }

  // ---------------------------------------------------------------------------
  // Listing history
  // ---------------------------------------------------------------------------

  /** The names of the folders of a listing, in listing order. */
  function FolderNames(h: Dict<Entry>): (r: seq<string>)
    ensures |r| <= |h|
  {
    if |h| == 0 then []
    else if h[0].1.Folder? then [h[0].0] + FolderNames(h[1..])
    else FolderNames(h[1..])
  }

  /** Exactly the names of folder entries are listed. */
  lemma {:induction false} FolderNamesMember(h: Dict<Entry>, n: string)
    ensures n in FolderNames(h) <==> exists i :: 0 <= i < |h| && h[i].0 == n && h[i].1.Folder?
  {
    if |h| > 0 {
      FolderNamesMember(h[1..], n);
      if exists i :: 0 <= i < |h| && h[i].0 == n && h[i].1.Folder? {
        var i :| 0 <= i < |h| && h[i].0 == n && h[i].1.Folder?;
        if i > 0 {
          assert h[1..][i - 1] == h[i];
        }
      }
      if exists i :: 0 <= i < |h| - 1 && h[1..][i].0 == n && h[1..][i].1.Folder? {
        var i :| 0 <= i < |h| - 1 && h[1..][i].0 == n && h[1..][i].1.Folder?;
        assert h[i + 1] == h[1..][i];
      }
    }
  }

  /** In a listing without repeated names, a name is listed exactly when it is a folder. */
  lemma FolderNamesGet(h: Dict<Entry>, n: string)
    requires DistinctKeys(h)
    ensures n in FolderNames(h) <==> HistoryFiles(h, n).Some?
  {
    FolderNamesMember(h, n);
    if n in FolderNames(h) {
      var i :| 0 <= i < |h| && h[i].0 == n && h[i].1.Folder?;
      GetDistinct(h, i);
    }
    if HistoryFiles(h, n).Some? {
      var i :| 0 <= i < |h| && h[i] == (n, Get(h, n).value);
      assert h[i].0 == n && h[i].1.Folder?;
    }
  }

  lemma {:induction false} FolderNamesDistinct(h: Dict<Entry>)
    requires DistinctKeys(h)
    ensures DistinctNames(FolderNames(h))
  {
    if |h| > 0 {
      DistinctCons(h);
      FolderNamesDistinct(h[1..]);
      var rest := FolderNames(h[1..]);
      if h[0].1.Folder? {
        FolderNamesMember(h[1..], h[0].0);
        assert h[0].0 !in rest;
        var r := [h[0].0] + rest;
        forall i, j | 0 <= i < j < |r|
          ensures r[i] != r[j]
        {
          assert r[j] == rest[j - 1];
          if i > 0 {
            assert r[i] == rest[i - 1];
          }
        }
      }
    }
  }

  /** Newest first: no name comes before a name it sorts below. */
  predicate Descending(xs: seq<string>) {
    forall i, j :: 0 <= i < j < |xs| ==> !LexLess(xs[i], xs[j])
  }

  /** Puts `x` into a descending list in its place. */
  function InsertDescending(x: string, xs: seq<string>): (r: seq<string>)
    requires Descending(xs)
    ensures Descending(r)
    ensures multiset(r) == multiset(xs) + multiset{x}
  {
    if |xs| == 0 then [x]
    else if !LexLess(x, xs[0]) then
      assert forall j :: 0 <= j < |xs| ==> !LexLess(x, xs[j]) by {
        forall j | 0 <= j < |xs|
          ensures !LexLess(x, xs[j])
        {
          if j > 0 {
            NotLexLessTransitive(x, xs[0], xs[j]);
          }
        }
      }
      DescendingCons(x, xs);
      assert multiset([x] + xs) == multiset(xs) + multiset{x};
      [x] + xs
    else
      LexLessAsymmetric(x, xs[0]);
      var rest := InsertDescending(x, xs[1..]);
      HeadAboveRest(x, xs, rest);
      DescendingCons(xs[0], rest);
      assert xs == [xs[0]] + xs[1..];
      [xs[0]] + rest
  }

  /** A name that no later name sorts above can head a descending list. */
  lemma DescendingCons(y: string, rest: seq<string>)
    requires Descending(rest)
    requires forall j :: 0 <= j < |rest| ==> !LexLess(y, rest[j])
    ensures Descending([y] + rest)
  {
    var r := [y] + rest;
    forall i, j | 0 <= i < j < |r|
      ensures !LexLess(r[i], r[j])
    {
      assert r[j] == rest[j - 1];
      if i > 0 {
        assert r[i] == rest[i - 1];
      }
    }
  }

  /** The head of a descending list stays above the rest once a smaller `x` joins it. */
  lemma HeadAboveRest(x: string, xs: seq<string>, rest: seq<string>)
    requires Descending(xs) && |xs| > 0 && !LexLess(xs[0], x)
    requires multiset(rest) == multiset(xs[1..]) + multiset{x}
    ensures forall j :: 0 <= j < |rest| ==> !LexLess(xs[0], rest[j])
  {
    forall j | 0 <= j < |rest|
      ensures !LexLess(xs[0], rest[j])
    {
      var e := rest[j];
      assert e in multiset(rest);
      if e != x {
        assert e in multiset(xs[1..]);
        var k :| 0 <= k < |xs| - 1 && xs[1..][k] == e;
        assert xs[k + 1] == e;
      }
    }
  }

  /** `sort()` followed by `reverse()`: the names in descending order. */
  function SortDescending(xs: seq<string>): (r: seq<string>)
    ensures Descending(r)
    ensures multiset(r) == multiset(xs)
  {
    if |xs| == 0 then []
    else
      assert xs == [xs[0]] + xs[1..];
      InsertDescending(xs[0], SortDescending(xs[1..]))
  }

  /** `getHistoryList`: the history folders, newest name first. */
  function HistoryList(s: Store): (r: seq<string>)
    ensures Descending(r)
    ensures multiset(r) == multiset(FolderNames(s.history))
  {
    SortDescending(FolderNames(s.history))
  }

  lemma {:induction false} DistinctCount(xs: seq<string>, v: string)
    requires DistinctNames(xs)
    ensures multiset(xs)[v] <= 1
  {
    if |xs| > 0 {
      assert xs == [xs[0]] + xs[1..];
      assert DistinctNames(xs[1..]) by {
        forall i, j | 0 <= i < j < |xs| - 1
          ensures xs[1..][i] != xs[1..][j]
        {
          assert xs[1..][i] == xs[i + 1] && xs[1..][j] == xs[j + 1];
        }
      }
      DistinctCount(xs[1..], v);
      if xs[0] == v {
        forall k | 0 <= k < |xs| - 1
          ensures xs[1..][k] != v
        {
          assert xs[1..][k] == xs[k + 1];
        }
        assert v !in xs[1..];
      }
    }
  }

  lemma TwiceCount(ys: seq<string>, i: nat, j: nat)
    requires i < j < |ys|
    ensures ys[i] == ys[j] ==> multiset(ys)[ys[i]] >= 2
  {
    assert ys == ys[..j] + ys[j..];
    assert ys[i] == ys[..j][i] && ys[j] == ys[j..][0];
    assert ys[i] in multiset(ys[..j]) && ys[j] in multiset(ys[j..]);
  }

  /** A rearrangement of distinct names has distinct names. */
  lemma DistinctPermutation(xs: seq<string>, ys: seq<string>)
    requires DistinctNames(xs) && multiset(xs) == multiset(ys)
    ensures DistinctNames(ys)
  {
    forall i, j | 0 <= i < j < |ys|
      ensures ys[i] != ys[j]
    {
      TwiceCount(ys, i, j);
      DistinctCount(xs, ys[i]);
    }
  }

  /** The list names every history folder once, and nothing else. */
  lemma HistoryListMember(s: Store, n: string)
    requires DistinctKeys(s.history)
    ensures n in HistoryList(s) <==> HistoryFiles(s.history, n).Some?
    ensures DistinctNames(HistoryList(s))
  {
    var r := HistoryList(s);
    assert n in r <==> n in multiset(r);
    assert n in FolderNames(s.history) <==> n in multiset(FolderNames(s.history));
    FolderNamesGet(s.history, n);
    FolderNamesDistinct(s.history);
    DistinctPermutation(FolderNames(s.history), r);
  }

  /** Folders named by `FolderName` are listed newest first. */
  lemma HistoryNewestFirst(s: Store, i: nat, j: nat, a: DateTime, b: DateTime)
    requires i < j < |HistoryList(s)|
    requires Valid(a) && Valid(b)
    requires HistoryList(s)[i] == FolderName(a) && HistoryList(s)[j] == FolderName(b)
    ensures !Before(a, b)
  {
    FolderNameOrder(a, b);
  }

  // ---------------------------------------------------------------------------
  // Pruning history
  // ---------------------------------------------------------------------------

  /** The instant `retentionDays` days before `now`, in milliseconds. */
  function Cutoff(now: DateTime, retentionDays: int): int
    requires Valid(now)
  {
    Millis(now) - retentionDays * MillisPerDay
  }

  /** The intended age test: the folder name reads back as an instant before the cutoff. */
  predicate Expired(name: string, cutoff: int) {
    match FolderDate(name)
    case None => false
    case Some(t) => Millis(t) < cutoff
  }

  /**
   * The age test as written: the name with every '-' turned into ':' is read
   * as a date, and an invalid date compares false.
   */
  predicate ExpiredAsWritten(name: string, cutoff: int) {
    match ParseIso(RestoreAsWritten(name))
    case None => false
    case Some(t) => Millis(t) < cutoff
  }

  /** A folder named after `t` is expired exactly when `t` is before the cutoff. */
  lemma ExpiredFolderName(t: DateTime, cutoff: int)
    requires Valid(t)
    ensures Expired(FolderName(t), cutoff) <==> Millis(t) < cutoff
  {
    FolderDateOfName(t);
  }

  /** Deletes each of `names` that `doomed` picks, counting the deletions. */
  function Prune(history: Dict<Entry>, names: seq<string>, doomed: string -> bool): (r: (Dict<Entry>, nat))
    ensures r.1 <= |names|
    decreases |names|
  {
    if |names| == 0 then (history, 0)
    else if doomed(names[0]) then
      var (h, n) := Prune(Remove(history, names[0]), names[1..], doomed);
      (h, n + 1)
    else Prune(history, names[1..], doomed)
  }

  /** A picked name is gone after pruning; every other entry is as it was. */
  lemma {:induction false} PruneGet(history: Dict<Entry>, names: seq<string>, doomed: string -> bool, k: string)
    ensures Get(Prune(history, names, doomed).0, k)
            == if k in names && doomed(k) then None else Get(history, k)
    decreases |names|
  {
    if |names| > 0 {
      assert k in names <==> k == names[0] || k in names[1..];
      if doomed(names[0]) {
        PruneGet(Remove(history, names[0]), names[1..], doomed, k);
      } else {
        PruneGet(history, names[1..], doomed, k);
      }
    }
  }

  /** When nothing is picked, nothing is deleted. */
  lemma {:induction false} PruneNothing(history: Dict<Entry>, names: seq<string>, doomed: string -> bool)
    requires forall i :: 0 <= i < |names| ==> !doomed(names[i])
    ensures Prune(history, names, doomed) == (history, 0)
    decreases |names|
  {
    if |names| > 0 {
      assert !doomed(names[0]);
      PruneNothing(history, names[1..], doomed);
    }
  }

  function IsFolder(e: Entry): nat {
    if e.Folder? then 1 else 0
  }

  /** How many folders a listing holds. */
  function FolderCount(h: Dict<Entry>): nat {
    Total(h, IsFolder)
  }

  /**
   * Pruning distinct folder names: the count returned is exactly the number
   * of folders that went.
   */
  lemma {:induction false} PruneCount(history: Dict<Entry>, names: seq<string>, doomed: string -> bool)
    requires DistinctKeys(history) && DistinctNames(names)
    requires forall i :: 0 <= i < |names| ==> HistoryFiles(history, names[i]).Some?
    ensures var (h, n) := Prune(history, names, doomed); FolderCount(h) + n == FolderCount(history)
    decreases |names|
  {
    if |names| > 0 {
      var n0 := names[0];
      assert DistinctNames(names[1..]) by {
        forall i, j | 0 <= i < j < |names| - 1
          ensures names[1..][i] != names[1..][j]
        {
          assert names[1..][i] == names[i + 1] && names[1..][j] == names[j + 1];
        }
      }
      if doomed(n0) {
        var h1 := Remove(history, n0);
        RemoveDistinct(history, n0);
        TotalRemove(history, n0, IsFolder);
        forall i | 0 <= i < |names| - 1
          ensures HistoryFiles(h1, names[1..][i]).Some?
        {
          assert names[1..][i] == names[i + 1] && names[i + 1] != n0;
        }
        PruneCount(h1, names[1..], doomed);
      } else {
        forall i | 0 <= i < |names| - 1
          ensures HistoryFiles(history, names[1..][i]).Some?
        {
          assert names[1..][i] == names[i + 1];
        }
        PruneCount(history, names[1..], doomed);
      }
    }
  }

  /**
   * `cleanupOldHistory` with the intended age test: every listed folder older
   * than the retention period that `removable` lets go is deleted; the result
   * carries the number deleted.
   */
  function Cleanup(s: Store, now: DateTime, retentionDays: int, removable: string -> bool): (r: (Store, nat))
    requires Valid(now)
    ensures r.0.current == s.current && r.0.processed == s.processed && r.0.components == s.components
  {
    var cutoff := Cutoff(now, retentionDays);
    var (h, n) := Prune(s.history, HistoryList(s), name => Expired(name, cutoff) && removable(name));
    (s.(history := h), n)
  }

  /**
   * After cleanup, a history entry is gone exactly when it is a folder whose
   * name dates it before the cutoff and that could be removed; and the count
   * plus the folders left is the folders there were.
   */
  lemma CleanupEffect(s: Store, now: DateTime, retentionDays: int, removable: string -> bool, k: string)
    requires Valid(now) && DistinctKeys(s.history)
    ensures var (s', n) := Cleanup(s, now, retentionDays, removable);
      Get(s'.history, k)
        == (if HistoryFiles(s.history, k).Some? && Expired(k, Cutoff(now, retentionDays)) && removable(k)
            then None else Get(s.history, k))
      && FolderCount(s'.history) + n == FolderCount(s.history)
  {
    var cutoff := Cutoff(now, retentionDays);
    var doomed := name => Expired(name, cutoff) && removable(name);
    var names := HistoryList(s);
    HistoryListMember(s, k);
    PruneGet(s.history, names, doomed, k);
    forall i | 0 <= i < |names|
      ensures HistoryFiles(s.history, names[i]).Some?
    {
      HistoryListMember(s, names[i]);
    }
    PruneCount(s.history, names, doomed);
  }

  /** `cleanupOldHistory` as written. */
  function CleanupAsWritten(s: Store, now: DateTime, retentionDays: int, removable: string -> bool): (r: (Store, nat))
    requires Valid(now)
    ensures r.0.current == s.current && r.0.processed == s.processed && r.0.components == s.components
  {
    var cutoff := Cutoff(now, retentionDays);
    var (h, n) := Prune(s.history, HistoryList(s), name => ExpiredAsWritten(name, cutoff) && removable(name));
    (s.(history := h), n)
  }

  /** Every history folder carries a name the rotation gives: a folder-layout timestamp. */
  predicate ProgramNamed(s: Store) {
    forall i :: 0 <= i < |HistoryList(s)| ==> FolderDate(HistoryList(s)[i]).Some?
  }

  /**
   * As written, cleanup deletes none of the folders the rotation names and
   * reports zero, whatever their ages.
   */
  lemma CleanupAsWrittenKeepsAll(s: Store, now: DateTime, retentionDays: int, removable: string -> bool)
    requires Valid(now) && ProgramNamed(s)
    ensures CleanupAsWritten(s, now, retentionDays, removable) == (s, 0)
  {
    var cutoff := Cutoff(now, retentionDays);
    var names := HistoryList(s);
    forall i | 0 <= i < |names|
      ensures !ExpiredAsWritten(names[i], cutoff)
    {
      RestoreAsWrittenNeverParses(names[i]);
    }
    PruneNothing(s.history, names, name => ExpiredAsWritten(name, cutoff) && removable(name));
  }

  /**
   * The input that shows it: one folder a day older than a one-day retention
   * period. The intended cleanup deletes it; the written one keeps it.
   */
  lemma CleanupAsWrittenMissesOldFolder(now: DateTime, earlier: DateTime)
    requires Valid(now) && Valid(earlier) && Millis(earlier) + MillisPerDay < Millis(now)
    ensures var s := Store([], [(FolderName(earlier), Folder([]))], [], []);
      Cleanup(s, now, 1, _ => true).1 == 1 && CleanupAsWritten(s, now, 1, _ => true).1 == 0
  {
    var name := FolderName(earlier);
    var s := Store([], [(name, Folder([]))], [], []);
    assert FolderNames(s.history) == [name];
    assert HistoryList(s) == [name];
    ExpiredFolderName(earlier, Cutoff(now, 1));
    FolderDateOfName(earlier);
    CleanupAsWrittenKeepsAll(s, now, 1, _ => true);
  }

  // ---------------------------------------------------------------------------
  // Conversion results
  // ---------------------------------------------------------------------------

  /** The record name of a conversion made at `now`: the component name and a folder-style timestamp. */
  function ProcessedName(filename: string, now: DateTime): string
    requires Valid(now)
  {
    filename + "-" + FolderName(now) + ".astro"
  }

  /**
   * `saveConversionResult`: the converted text is always recorded under
   * `processed`; a successful conversion also becomes the component file,
   * with its style sheet beside it when it has styles.
   */
  function SaveConversionResult(s: Store, result: Converter.ConversionResult, now: DateTime): (r: Store)
    requires Valid(now)
    ensures r.current == s.current && r.history == s.history
    ensures !result.success ==> r.components == s.components
  {
    var astro := result.filename + ".astro";
    var css := result.filename + ".css";
    var processed := Put(s.processed, ProcessedName(result.filename, now), result.astroComponent);
    var components :=
      if !result.success then s.components
      else if result.styles == "" then Put(s.components, astro, result.astroComponent)
      else Put(Put(s.components, astro, result.astroComponent), css, result.styles);
    s.(processed := processed, components := components)
  }

  /**
   * What a saved conversion leaves behind: the record reads the converted
   * text; the component file reads it exactly when the conversion succeeded;
   * the style sheet reads the styles exactly when it succeeded with styles;
   * every other file reads as before.
   */
  lemma SaveConversionResultGet(s: Store, result: Converter.ConversionResult, now: DateTime, k: string)
    requires Valid(now)
    ensures var r := SaveConversionResult(s, result, now);
      var astro := result.filename + ".astro";
      var css := result.filename + ".css";
      Get(r.processed, ProcessedName(result.filename, now)) == Some(result.astroComponent)
      && (k != ProcessedName(result.filename, now) ==> Get(r.processed, k) == Get(s.processed, k))
      && Get(r.components, astro) == (if result.success then Some(result.astroComponent) else Get(s.components, astro))
      && Get(r.components, css)
         == (if result.success && result.styles != "" then Some(result.styles) else Get(s.components, css))
      && (k != astro && k != css ==> Get(r.components, k) == Get(s.components, k))
  {
    var astro := result.filename + ".astro";
    var css := result.filename + ".css";
    assert astro != css by {
      assert |astro| != |css|;
    }
    PutGet(s.processed, ProcessedName(result.filename, now), result.astroComponent, k);
    var c1 := Put(s.components, astro, result.astroComponent);
    PutGet(s.components, astro, result.astroComponent, k);
    PutGet(s.components, astro, result.astroComponent, css);
    PutGet(c1, css, result.styles, k);
    PutGet(c1, css, result.styles, astro);
  }

  // ---------------------------------------------------------------------------
  // Storage usage
  // ---------------------------------------------------------------------------

  /** How many bytes UTF-8 takes for a character. */
  function Utf8Units(c: char): (n: nat)
    ensures 1 <= n <= 4
  {
    if c as int < 0x80 then 1 else if c as int < 0x800 then 2 else if c as int < 0x10000 then 3 else 4
  }

  /** The size in bytes of a file written from `s` as UTF-8. */
  function Utf8Length(s: string): (n: nat)
    ensures |s| <= n <= 4 * |s|
  {
    if |s| == 0 then 0 else Utf8Units(s[0]) + Utf8Length(s[1..])
  }

  /** The bytes of a directory of files. */
  function DirSize(files: Dict<string>): nat {
    Total(files, Utf8Length)
  }

  /** The bytes under a history entry: a file's own, or its folder's files. */
  function EntrySize(e: Entry): nat {
    match e
    case File(content) => Utf8Length(content)
    case Folder(files) => DirSize(files)
  }

  datatype Usage = Usage(totalSize: nat, currentSize: nat, historySize: nat, processedSize: nat)

  /** `getStorageUsage`: the bytes under `current`, `history` and `processed`, and their sum. */
  function StorageUsage(s: Store): (u: Usage)
    ensures u.totalSize == u.currentSize + u.historySize + u.processedSize
    ensures u.currentSize >= Total(s.current, (c: string) => |c|)
  {
    TotalBound(s.current);
    var current := DirSize(s.current);
    var history := Total(s.history, EntrySize);
    var processed := DirSize(s.processed);
    Usage(current + history + processed, current, history, processed)
  }

  /** A file takes at least a byte per character. */
  lemma {:induction false} TotalBound(files: Dict<string>)
    ensures DirSize(files) >= Total(files, (c: string) => |c|)
  {
    if |files| > 0 {
      TotalBound(files[1..]);
    }
  }

  /** Moving files into a folder that does not hold them keeps the bytes on both sides together. */
  lemma {:induction false} MoveFilesTotal(current: Dict<string>, folder: Dict<string>, names: seq<string>)
    requires DistinctKeys(current) && DistinctKeys(folder) && DistinctNames(names)
    requires forall i :: 0 <= i < |names| ==> !HasKey(folder, names[i])
    ensures var (c, f) := MoveFiles(current, folder, names);
      DirSize(c) + DirSize(f) == DirSize(current) + DirSize(folder)
    decreases |names|
  {
    if |names| > 0 {
      var n := names[0];
      assert DistinctNames(names[1..]) by {
        forall i, j | 0 <= i < j < |names| - 1
          ensures names[1..][i] != names[1..][j]
        {
          assert names[1..][i] == names[i + 1] && names[1..][j] == names[j + 1];
        }
      }
      match Get(current, n)
      case None =>
        forall i | 0 <= i < |names| - 1
          ensures !HasKey(folder, names[1..][i])
        {
          assert names[1..][i] == names[i + 1];
        }
        MoveFilesTotal(current, folder, names[1..]);
      case Some(c) =>
        var f1 := Put(folder, n, c);
        RemoveDistinct(current, n);
        PutDistinct(folder, n, c);
        TotalRemove(current, n, Utf8Length);
        TotalPutFresh(folder, n, c, Utf8Length);
        forall i | 0 <= i < |names| - 1
          ensures !HasKey(f1, names[1..][i])
        {
          assert names[1..][i] == names[i + 1] && names[i + 1] != n;
          PutGet(folder, n, c, names[i + 1]);
        }
        MoveFilesTotal(Remove(current, n), f1, names[1..]);
    }
  }

  /**
   * Rotation into a new folder only moves bytes: `current` and `history`
   * together hold as many as before, and `processed` is untouched.
   */
  lemma RotateKeepsBytes(s: Store)
    requires WellFormed(s)
    requires CurrentFolder(s.current).Some? ==> !HasKey(s.history, CurrentFolder(s.current).value)
    ensures var u, v := StorageUsage(s), StorageUsage(Rotate(s));
      v.currentSize + v.historySize == u.currentSize + u.historySize && v.processedSize == u.processedSize
  {
    match CurrentFolder(s.current)
    case None =>
    case Some(name) =>
      assert FolderFiles(Get(s.history, name)) == Some([]);
      assert Rotate(s) == Archive(s, name, []);
      ArchiveKeepsBytes(s, name);
  }

  /** Filing into a new folder moves bytes from `current` to `history` and loses none. */
  lemma ArchiveKeepsBytes(s: Store, name: string)
    requires DistinctKeys(s.current) && !HasKey(s.history, name)
    ensures var r := Archive(s, name, []);
      DirSize(r.current) + Total(r.history, EntrySize) == DirSize(s.current) + Total(s.history, EntrySize)
  {
    CaptureFilesDistinct();
    MoveFilesTotal(s.current, [], CaptureFiles);
    var files := MoveFiles(s.current, [], CaptureFiles).1;
    TotalPutFresh(s.history, name, Folder(files), EntrySize);
  }

  // ---------------------------------------------------------------------------
  // Human-readable sizes
  // ---------------------------------------------------------------------------

  const SizeUnits: seq<string> := ["B", "KB", "MB", "GB"]

  function Pow1024(k: nat): (p: nat)
    ensures p >= 1
  {
    if k == 0 then 1 else 1024 * Pow1024(k - 1)
  }

  /** The unit a size is shown in: the largest one the size reaches, up to gigabytes. */
  function UnitFor(bytes: nat): (k: nat)
    ensures k < |SizeUnits|
    ensures k == 3 || bytes < Pow1024(k + 1)
    ensures k == 0 || bytes >= Pow1024(k)
  {
    if bytes < 1024 then 0 else if bytes < 1048576 then 1 else if bytes < 1073741824 then 2 else 3
  }

  /**
   * `(bytes / scale).toFixed(1)` as a count of tenths: the nearest tenth, a
   * tie going to the larger one.
   */
  function Tenths(bytes: nat, scale: nat): (n: nat)
    requires scale >= 1
    ensures -(scale as int) < 2 * (n * scale - 10 * bytes) <= scale
  {
    (20 * bytes + scale) / (2 * scale)
  }

  /** A count of tenths written with one decimal place. */
  function TenthsText(n: nat): string {
    NatToString(n / 10) + "." + [DigitChar(n % 10)]
  }

  /**
   * `formatFileSize`: divide by 1024 while at least 1024 remains and a larger
   * unit exists, then show one decimal place and the unit.
   */
  method FormatFileSize(bytes: nat) returns (text: string)
    ensures text == TenthsText(Tenths(bytes, Pow1024(UnitFor(bytes)))) + " " + SizeUnits[UnitFor(bytes)]
  {
    var scale := 1;
    var unitIndex := 0;
    while bytes >= 1024 * scale && unitIndex < |SizeUnits| - 1
      invariant unitIndex < |SizeUnits|
      invariant scale == Pow1024(unitIndex)
      invariant unitIndex == 0 || bytes >= scale
      decreases |SizeUnits| - unitIndex
    {
      scale := scale * 1024;
      unitIndex := unitIndex + 1;
    }
    assert unitIndex == UnitFor(bytes);
    text := TenthsText(Tenths(bytes, scale)) + " " + SizeUnits[unitIndex];
  }
}
