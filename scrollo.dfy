/** The `scrollo` reward: a content-addressed cache of decorated user text
    under `.scrollocache/`, keyed by the decimal CRC-32 of the text, and the
    hard link `scrollo.txt` that a streaming overlay displays. */
module Scrollo {
  import opened Base
  import opened Files
  import Crc32
  import Decimal

  const CACHE_DIR: string := ".scrollocache/"
  const OBS_SCROLLO_FILE: string := "scrollo.txt"

  /** `strconv.FormatUint(uint64(crc32 of the text), 10)`. */
  function CacheKey(text: string): (key: string)
    ensures Decimal.ParseUint(Utf8(key)) == Success(Crc32.Checksum(Utf8(text)) as int)
  {
    Decimal.ParseFormat(Crc32.Checksum(Utf8(text)) as int);
    Decimal.FormatUint(Crc32.Checksum(Utf8(text)) as int)
  }

  /** `filepath.Join(".scrollocache/", key)`: the key is non-empty and has
      no separator, so joining is concatenation. */
  function CachePath(text: string): (path: string)
    ensures |path| > |CACHE_DIR| && path[..|CACHE_DIR|] == CACHE_DIR
    ensures path != OBS_SCROLLO_FILE
  {
    var path := CACHE_DIR + CacheKey(text);
    assert path[0] == '.' && OBS_SCROLLO_FILE[0] == 's';
    path
  }

  /** What follows `.scrollocache/` in the path is that key. */
  lemma CachePathKey(text: string)
    ensures CachePath(text)[|CACHE_DIR|..] == CacheKey(text)
    ensures Decimal.ParseUint(Utf8(CachePath(text)[|CACHE_DIR|..])) == Success(Crc32.Checksum(Utf8(text)) as int)
  {
  }

  /** The first `n` characters of `s`, as the precision of `%.256s` keeps. */
  function Prefix(s: string, n: nat): (p: string)
    ensures |p| <= n && |p| <= |s| && p == s[..|p|]
    ensures |s| <= n ==> p == s
    ensures |s| > n ==> |p| == n
  {
    if |s| <= n then s else s[..n]
  }

  /** `fmt.Sprintf(" %.256s ✨✨✨ ", params)`. */
  function Render(text: string): (r: string)
    ensures var n := if |text| <= 256 then |text| else 256;
      && |r| == n + 6 && r[0] == ' ' && r[1..n + 1] == text[..n]
      && r[n + 1..] == " \U{2728}\U{2728}\U{2728} "
  {
    " " + Prefix(text, 256) + " \U{2728}\U{2728}\U{2728} "
  }

  /** Where the scrollo branch of `handleWebhook` gives up. */
  datatype ScrolloError = UnknownState | CreateFailed | WriteFailed | LinkFailed

  /** Refusals by the operating system at each of the four calls. */
  datatype Faults = Faults(stat: bool, create: bool, write: bool, link: bool)

  const NO_FAULTS := Faults(false, false, false, false)

  /** The scrollo branch on a snapshot: `os.Stat` on the cache path;
      when the entry is absent `os.Create` and `WriteString` of the
      rendered text; then, whether the entry is new or old,
      `os.Link(cachePath, "scrollo.txt")`. Each failure returns at once. */
  function CacheAndLinkIn(st: FsState, text: string, faults: Faults): (r: (FsState, Result<(), ScrolloError>))
    requires WellFormed(st)
    ensures WellFormed(r.0)
  {
    var path := CachePath(text);
    match StatOf(st, path, faults.stat)
    case StatFailed => (st, Failure(UnknownState))
    case Exists => LinkEntry(st, path, faults)
    case NotExist =>
      var (st1, created) := CreateIn(st, path, faults.create);
      if created.Failure? then (st1, Failure(CreateFailed))
      else
        var (st2, written) := WriteIn(st1, created.value, Render(text), faults.write);
        if written.Failure? then (st2, Failure(WriteFailed))
        else LinkEntry(st2, path, faults)
  }

  function LinkEntry(st: FsState, path: string, faults: Faults): (r: (FsState, Result<(), ScrolloError>))
    requires WellFormed(st)
    ensures WellFormed(r.0)
  {
    var (st', linked) := LinkIn(st, path, OBS_SCROLLO_FILE, faults.link);
    (st', if linked.Failure? then Failure(LinkFailed) else Success(()))
  }

  /** The scrollo branch of `handleWebhook`, step by step on the file
      system, with the early returns of the source. */
  method CacheAndLink(fs: FileSystem, text: string, faults: Faults) returns (r: Result<(), ScrolloError>)
    requires fs.Valid()
    modifies fs
    ensures fs.Valid()
    ensures (fs.State(), r) == CacheAndLinkIn(old(fs.State()), text, faults)
  {
    var scrolloFile := CACHE_DIR + CacheKey(text);
    var stat := fs.Stat(scrolloFile, faults.stat);
    if stat == NotExist {
      // only create the file if it does not exist
      var f := fs.Create(scrolloFile, faults.create);
      if f.Failure? {
        return Failure(CreateFailed);
      }
      var written := fs.WriteString(f.value, Render(text), faults.write);
      if written.Failure? {
        return Failure(WriteFailed);
      }
    } else if stat == StatFailed {
      return Failure(UnknownState);
    }
    var linked := fs.Link(scrolloFile, OBS_SCROLLO_FILE, faults.link);
    if linked.Failure? {
      return Failure(LinkFailed);
    }
    return Success(());
  }

  /** No name that existed before is lost or rebound, and no file that
      existed before changes content: cache entries are never rewritten
      and `scrollo.txt` is never repointed. */
  lemma ExistingFilesKept(st: FsState, text: string, faults: Faults)
    requires WellFormed(st)
    ensures forall p :: p in st.names ==>
              p in CacheAndLinkIn(st, text, faults).0.names &&
              CacheAndLinkIn(st, text, faults).0.names[p] == st.names[p]
    ensures forall id :: id in st.contents ==>
              id in CacheAndLinkIn(st, text, faults).0.contents &&
              CacheAndLinkIn(st, text, faults).0.contents[id] == st.contents[id]
  {
    var path := CachePath(text);
    if !faults.stat && path !in st.names && !faults.create {
      var (st1, created) := CreateIn(st, path, faults.create);
      assert Kept(st, st1);
      if !faults.write {
        var (st2, _) := WriteIn(st1, created.value, Render(text), faults.write);
        assert Kept(st, st2);
        LinkEntryKept(st2, path, faults);
      }
    } else if !faults.stat {
      LinkEntryKept(st, path, faults);
    }
  }

  /** Every name and every file of `st` survives unchanged in `st'`. */
  predicate Kept(st: FsState, st': FsState)
  {
    && (forall p :: p in st.names ==> p in st'.names && st'.names[p] == st.names[p])
    && (forall id :: id in st.contents ==> id in st'.contents && st'.contents[id] == st.contents[id])
  }

  lemma LinkEntryKept(st: FsState, path: string, faults: Faults)
    requires WellFormed(st)
    ensures Kept(st, LinkEntry(st, path, faults).0)
  {
  }

  /** An absent entry is created holding the rendered text, unless the
      creation itself is refused. */
  lemma AbsentEntryCreated(st: FsState, text: string, faults: Faults)
    requires WellFormed(st)
    requires CachePath(text) !in st.names
    requires !faults.stat && !faults.create && !faults.write
    ensures CachePath(text) in CacheAndLinkIn(st, text, faults).0.names
    ensures Read(CacheAndLinkIn(st, text, faults).0, CachePath(text)) == Render(text)
  {
  }

  /** An entry that exists keeps its content, whatever the text now is. */
  lemma PresentEntryUnchanged(st: FsState, text: string, faults: Faults)
    requires WellFormed(st)
    requires CachePath(text) in st.names
    ensures CachePath(text) in CacheAndLinkIn(st, text, faults).0.names
    ensures Read(CacheAndLinkIn(st, text, faults).0, CachePath(text)) == Read(st, CachePath(text))
  {
    ExistingFilesKept(st, text, faults);
  }

  /** Repeating a text leaves its cache entry as the first delivery made it. */
  lemma RepeatIdempotent(st: FsState, text: string, first: Faults, second: Faults)
    requires WellFormed(st)
    requires CachePath(text) in CacheAndLinkIn(st, text, first).0.names
    ensures CachePath(text) in CacheAndLinkIn(CacheAndLinkIn(st, text, first).0, text, second).0.names
    ensures Read(CacheAndLinkIn(CacheAndLinkIn(st, text, first).0, text, second).0, CachePath(text)) ==
            Read(CacheAndLinkIn(st, text, first).0, CachePath(text))
  {
    PresentEntryUnchanged(CacheAndLinkIn(st, text, first).0, text, second);
  }

  /** Failing before the link step, the link is not touched. */
  lemma NoLinkBeforeEntry(st: FsState, text: string, faults: Faults)
    requires WellFormed(st)
    requires CacheAndLinkIn(st, text, faults).1.Failure?
    requires CacheAndLinkIn(st, text, faults).1.error != LinkFailed
    ensures OBS_SCROLLO_FILE in CacheAndLinkIn(st, text, faults).0.names <==> OBS_SCROLLO_FILE in st.names
    ensures forall p :: p != CachePath(text) ==>
              (p in CacheAndLinkIn(st, text, faults).0.names <==> p in st.names)
  {
  }

  /** On success `scrollo.txt` is a hard link to the cache entry, it did
      not exist before, and no other name changed. */
  lemma SuccessLinksEntry(st: FsState, text: string, faults: Faults)
    requires WellFormed(st)
    requires CacheAndLinkIn(st, text, faults).1.Success?
    ensures OBS_SCROLLO_FILE !in st.names
    ensures var st' := CacheAndLinkIn(st, text, faults).0;
      && OBS_SCROLLO_FILE in st'.names && CachePath(text) in st'.names
      && st'.names[OBS_SCROLLO_FILE] == st'.names[CachePath(text)]
      && Read(st', OBS_SCROLLO_FILE) == Read(st', CachePath(text))
      && forall p :: p != OBS_SCROLLO_FILE && p != CachePath(text) ==>
           (p in st'.names <==> p in st.names) && (p in st.names ==> st'.names[p] == st.names[p])
  {
    var path := CachePath(text);
    if path in st.names {
      LinkEntrySucceeded(st, path, faults);
    } else {
      var (st1, created) := CreateIn(st, path, faults.create);
      var (st2, _) := WriteIn(st1, created.value, Render(text), faults.write);
      assert st2.names == st.names[path := created.value];
      LinkEntrySucceeded(st2, path, faults);
    }
  }

  lemma LinkEntrySucceeded(st: FsState, path: string, faults: Faults)
    requires WellFormed(st)
    requires LinkEntry(st, path, faults).1.Success?
    ensures OBS_SCROLLO_FILE !in st.names && path in st.names
    ensures LinkEntry(st, path, faults).0 ==
              st.(names := st.names[OBS_SCROLLO_FILE := st.names[path]])
  {
  }

  /** `os.Link` does not replace: while `scrollo.txt` exists, every scrollo
      delivery fails and the link keeps its old target. */
  lemma ExistingLinkKept(st: FsState, text: string, faults: Faults)
    requires WellFormed(st)
    requires OBS_SCROLLO_FILE in st.names
    ensures CacheAndLinkIn(st, text, faults).1.Failure?
    ensures var st' := CacheAndLinkIn(st, text, faults).0;
      OBS_SCROLLO_FILE in st'.names && st'.names[OBS_SCROLLO_FILE] == st.names[OBS_SCROLLO_FILE]
  {
    ExistingFilesKept(st, text, faults);
  }

  /** A refused write leaves an empty cache entry, which later deliveries
      of the same text find and link as it is. */
  lemma FailedWriteLeavesEmptyEntry(st: FsState, text: string, faults: Faults)
    requires WellFormed(st)
    requires CachePath(text) !in st.names
    requires !faults.stat && !faults.create && faults.write
    ensures CacheAndLinkIn(st, text, faults).1 == Failure(WriteFailed)
    ensures CachePath(text) in CacheAndLinkIn(st, text, faults).0.names
    ensures Read(CacheAndLinkIn(st, text, faults).0, CachePath(text)) == ""
  {
  }

  /** The cache key determines the checksum: texts have the same entry
      exactly when their checksums agree. */
  lemma OneEntryPerChecksum(a: string, b: string)
    ensures CachePath(a) == CachePath(b) <==>
            Crc32.Checksum(Utf8(a)) as int == Crc32.Checksum(Utf8(b)) as int
  {
    if CachePath(a) == CachePath(b) {
      SamePathSameKey(a, b);
      Decimal.FormatInjective(Crc32.Checksum(Utf8(a)) as int, Crc32.Checksum(Utf8(b)) as int);
    }
  }

  lemma SamePathSameKey(a: string, b: string)
    requires CachePath(a) == CachePath(b)
    ensures CacheKey(a) == CacheKey(b)
  {
    assert CachePath(a)[|CACHE_DIR|..] == CacheKey(a);
    assert CachePath(b)[|CACHE_DIR|..] == CacheKey(b);
  }

  /** A first `scrollo` into an empty file system, with no refusals,
      makes the entry holding the rendered text and links `scrollo.txt` to
      it. */
  lemma FirstIntoEmptyCache(text: string)
    ensures var st' := CacheAndLinkIn(FsState(map[], map[], 0), text, NO_FAULTS).0;
      && CacheAndLinkIn(FsState(map[], map[], 0), text, NO_FAULTS).1.Success?
      && CachePath(text) in st'.names && OBS_SCROLLO_FILE in st'.names
      && Read(st', CachePath(text)) == Render(text)
      && st'.names[OBS_SCROLLO_FILE] == st'.names[CachePath(text)]
  {
  }

  /** The same scenario on a new file system object: the first delivery
      succeeds, and both the cache entry and `scrollo.txt` read back as the
      rendered text. */
  method FirstDelivery(text: string) returns (r: Result<(), ScrolloError>, cached: string, shown: string)
    ensures r.Success? && cached == Render(text) && shown == Render(text)
  {
    var fs := new FileSystem();
    r := CacheAndLink(fs, text, NO_FAULTS);
    FirstIntoEmptyCache(text);
    cached := fs.contents[fs.names[CachePath(text)]];
    shown := fs.contents[fs.names[OBS_SCROLLO_FILE]];
  }

  /** The cached text of `hello`. */
  lemma RenderHello()
    ensures Render("hello") == " hello \U{2728}\U{2728}\U{2728} "
  {
  }
}
