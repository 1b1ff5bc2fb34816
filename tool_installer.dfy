/**
 * The current installer: download with progress, checksum, extraction into a
 * staging directory with retries, and removal of an installed version.
 * Network, hashing and archive libraries are parameters: a `Response` says what
 * the server sends, `digest` is the SHA-256 hex digest, and an `ExtractEnv`
 * says what the archive unpacks to and which file operations succeed.
 */
module ToolInstaller {
  import opened Wrappers
  import opened Strings
  import opened FileSystem
  import opened PathService

  // ---------------------------------------------------------------------------
  // Artifact file name and install paths

  /** A path separator of `path.basename` on the given platform. */
  predicate IsSep(c: char, platform: Platform)
  {
    c == '/' || (platform == Win32 && c == '\\')
  }

  predicate NoSep(s: string, platform: Platform)
  {
    forall i :: 0 <= i < |s| ==> !IsSep(s[i], platform)
  }

  /** `s` without its trailing separators. */
  function TrimTrailingSeps(s: string, platform: Platform): (r: string)
    ensures |r| <= |s| && r == s[..|r|]
    ensures r == [] || !IsSep(r[|r| - 1], platform)
  {
    if |s| > 0 && IsSep(s[|s| - 1], platform) then TrimTrailingSeps(s[..|s| - 1], platform) else s
  }

  /** The text after the last separator of `s`. */
  function AfterLastSep(s: string, platform: Platform): (r: string)
    ensures |r| <= |s| && r == s[|s| - |r|..]
    ensures NoSep(r, platform)
    ensures |r| < |s| ==> IsSep(s[|s| - |r| - 1], platform)
  {
    if s == [] then []
    else if IsSep(s[|s| - 1], platform) then []
    else AfterLastSep(s[..|s| - 1], platform) + [s[|s| - 1]]
  }

  /** `path.basename(s)` (the win32 drive-letter prefix is not modelled). */
  function Basename(s: string, platform: Platform): string
  {
    AfterLastSep(TrimTrailingSeps(s, platform), platform)
  }

  /** `s.split('?')[0]`: everything before the first question mark. */
  function BeforeQuery(s: string): (r: string)
    ensures |r| <= |s| && r == s[..|r|]
    ensures '?' !in r
    ensures |r| < |s| ==> s[|r|] == '?'
  {
    if s == [] || s[0] == '?' then [] else [s[0]] + BeforeQuery(s[1..])
  }

  /** The artifact name: the basename of the whole URL, cut at the first `?`. */
  function FileName(url: string, platform: Platform): (r: string)
    ensures NoSep(r, platform) && '?' !in r
  {
    BeforeQuery(Basename(url, platform))
  }

  /** `bin/<toolName>/<version>`: the download folder and the extraction target. */
  function InstallDir(env: Env, toolName: string, version: string): Path
  {
    Join(Join(BinDir(env), toolName), version)
  }

  /** `bin/<toolName>/<version>/<fileName>`: where the artifact is downloaded. */
  function ArtifactPath(env: Env, toolName: string, version: string, url: string): Path
  {
    Join(InstallDir(env, toolName, version), FileName(url, env.platform))
  }

  lemma {:induction false} AfterLastSepOfSuffix(prefix: string, name: string, platform: Platform)
    requires NoSep(name, platform)
    requires prefix == [] || IsSep(prefix[|prefix| - 1], platform)
    ensures AfterLastSep(prefix + name, platform) == name
    decreases |name|
  {
    if name == [] {
      assert prefix + name == prefix;
    } else {
      var init := name[..|name| - 1];
      var last := name[|name| - 1];
      NoSepOfPrefix(name, platform);
      AfterLastSepOfSuffix(prefix, init, platform);
      SplitLast(prefix, name);
      AfterLastSepKeepsLast(prefix + init, last, platform);
    }
  }

  lemma NoSepOfPrefix(name: string, platform: Platform)
    requires name != [] && NoSep(name, platform)
    ensures NoSep(name[..|name| - 1], platform) && !IsSep(name[|name| - 1], platform)
  {
    var init := name[..|name| - 1];
    forall i | 0 <= i < |init| ensures !IsSep(init[i], platform) {
      assert init[i] == name[i];
    }
  }

  /** A last character that is no separator belongs to the text after the last separator. */
  lemma AfterLastSepKeepsLast(s: string, c: char, platform: Platform)
    requires !IsSep(c, platform)
    ensures AfterLastSep(s + [c], platform) == AfterLastSep(s, platform) + [c]
  {
    var t := s + [c];
    assert t[|t| - 1] == c && t[..|t| - 1] == s;
  }

  lemma {:induction false} BeforeQueryOfPrefix(name: string, query: string)
    requires '?' !in name
    requires query == [] || query[0] == '?'
    ensures BeforeQuery(name + query) == name
    decreases |name|
  {
    if name == [] {
      assert name + query == query;
    } else {
      var t := name + query;
      assert name[0] in name;
      assert '?' !in name[1..] by {
        forall c | c in name[1..] ensures c in name { }
      }
      assert t[0] == name[0] && t[0] != '?';
      assert t[1..] == name[1..] + query;
      BeforeQueryOfPrefix(name[1..], query);
      assert [name[0]] + name[1..] == name;
    }
  }

  /**
   * For a URL `<prefix>/<name><query>` whose query holds no separator, the
   * artifact name is exactly `name`.
   */
  lemma FileNameOfUrl(prefix: string, name: string, query: string, platform: Platform)
    requires name != [] && NoSep(name, platform) && '?' !in name
    requires NoSep(query, platform) && (query == [] || query[0] == '?')
    ensures FileName(prefix + "/" + name + query, platform) == name
  {
    var url := prefix + "/" + name + query;
    var tail := name + query;
    assert url == (prefix + "/") + tail;
    assert NoSep(tail, platform) by {
      forall i | 0 <= i < |tail| ensures !IsSep(tail[i], platform) {
        if i < |name| { assert tail[i] == name[i]; } else { assert tail[i] == query[i - |name|]; }
      }
    }
    assert tail[|tail| - 1] == (if query == [] then name[|name| - 1] else query[|query| - 1]);
    assert TrimTrailingSeps(url, platform) == url;
    AfterLastSepOfSuffix(prefix + "/", tail, platform);
    BeforeQueryOfPrefix(name, query);
  }

  /**
   * A separator inside the query moves the basename into the query: for
   * `<path>?<query>/<name>` the artifact name is `name`, whatever file the
   * path names.
   */
  lemma FileNameTakesBasenameOfWholeUrl(path: string, query: string, name: string, platform: Platform)
    requires name != [] && NoSep(name, platform) && '?' !in name
    ensures FileName(path + "?" + query + "/" + name, platform) == name
  {
    FileNameOfUrl(path + "?" + query, name, "", platform);
    assert path + "?" + query + "/" + name + "" == path + "?" + query + "/" + name;
  }

  /** The artifact lies in the install folder, which lies under bin. */
  lemma ArtifactInInstallDir(env: Env, toolName: string, version: string, url: string)
    requires toolName != "" && version != ""
    ensures StrictlyUnder(BinDir(env), InstallDir(env, toolName, version))
    ensures Under(InstallDir(env, toolName, version), ArtifactPath(env, toolName, version, url))
    ensures FileName(url, env.platform) != "" ==>
      Dirname(ArtifactPath(env, toolName, version, url)) == InstallDir(env, toolName, version)
  {
    InstallDirShape(env, toolName, version);
    JoinFacts(InstallDir(env, toolName, version), FileName(url, env.platform));
  }

  lemma InstallDirShape(env: Env, toolName: string, version: string)
    requires toolName != "" && version != ""
    ensures StrictlyUnder(BinDir(env), InstallDir(env, toolName, version))
  {
    var b := BinDir(env);
    var d := InstallDir(env, toolName, version);
    assert d == b + [toolName, version];
    assert d[..|b|] == b;
  }

  /** `path.join(p, seg)` lies under `p`, and `p` is its `dirname` when `seg` is not empty. */
  lemma JoinFacts(p: Path, seg: string)
    ensures Under(p, Join(p, seg))
    ensures seg != "" ==> Dirname(Join(p, seg)) == p
  {
    if seg != "" {
      assert (p + [seg])[..|p|] == p;
    }
  }


  /** Distinct non-empty (tool, version) pairs get distinct install folders. */
  lemma InstallDirInjective(env: Env, t1: string, v1: string, t2: string, v2: string)
    requires t1 != "" && v1 != "" && t2 != "" && v2 != ""
    requires InstallDir(env, t1, v1) == InstallDir(env, t2, v2)
    ensures t1 == t2 && v1 == v2
  {
    var b := BinDir(env);
    assert InstallDir(env, t1, v1)[|b|] == t1;
    assert InstallDir(env, t2, v2)[|b|] == t2;
    assert InstallDir(env, t1, v1)[|b| + 1] == v1;
    assert InstallDir(env, t2, v2)[|b| + 1] == v2;
  }

  // ---------------------------------------------------------------------------
  // Progress arithmetic (integers; halves round up, as `Math.round` does)

  /** `Math.round(received / total * 100)`. */
  function Percent(received: nat, total: nat): (p: nat)
    requires total > 0
    ensures 2 * total * p <= 200 * received + total < 2 * total * (p + 1)
  {
    (200 * received + total) / (2 * total)
  }

  /** `Math.round(pct * 0.7)`: raw download percent mapped into the 0..70 band. */
  function Overall(pct: nat): (q: nat)
    ensures 10 * q <= 7 * pct + 5 < 10 * (q + 1)
  {
    (7 * pct + 5) / 10
  }

  lemma MulMonotone(k: nat, x: int, y: int)
    requires x <= y
    ensures k * x <= k * y
  {
    if k > 0 {
      MulMonotone(k - 1, x, y);
      assert k * x == (k - 1) * x + x;
      assert k * y == (k - 1) * y + y;
    }
  }

  lemma PercentMonotone(r1: nat, r2: nat, total: nat)
    requires total > 0 && r1 <= r2
    ensures Percent(r1, total) <= Percent(r2, total)
  {
    var p1, p2 := Percent(r1, total), Percent(r2, total);
    var t2 := 2 * total;
    assert t2 * p1 <= 200 * r1 + total;
    assert 200 * r2 + total < t2 * (p2 + 1);
    if p1 > p2 {
      MulMonotone(t2, p2 + 1, p1);
    }
  }

  /** While no more than `total` bytes have arrived the percentage stays in 0..100, and is 100 at `total`. */
  lemma PercentBounds(received: nat, total: nat)
    requires 0 < total && received <= total
    ensures Percent(received, total) <= 100
    ensures received == total ==> Percent(received, total) == 100
  {
    var p := Percent(received, total);
    var t2 := 2 * total;
    assert t2 * p <= 200 * received + total < t2 * (p + 1);
    if p > 100 {
      MulMonotone(t2, 101, p);
    }
    if received == total && p < 100 {
      MulMonotone(t2, p + 1, 100);
    }
  }

  lemma OverallBounds(pct: nat)
    requires pct <= 100
    ensures Overall(pct) <= 70
    ensures pct == 100 ==> Overall(pct) == 70
  {
  }

  lemma OverallMonotone(p1: nat, p2: nat)
    requires p1 <= p2
    ensures Overall(p1) <= Overall(p2)
  {
  }

  // ---------------------------------------------------------------------------
  // Download

  /** What the server does: no response at all, or a status, a content length and a body. */
  datatype Response =
    | RequestError
    | Reply(status: nat, contentLength: nat, chunks: seq<Bytes>, streamError: bool)

  datatype DownloadError = NetworkError | HttpError(status: nat) | StreamError

  /** The bytes of the given chunks, in arrival order. */
  function Concat(chunks: seq<Bytes>): (b: Bytes)
  {
    if chunks == [] then [] else Concat(chunks[..|chunks| - 1]) + chunks[|chunks| - 1]
  }

  /** Number of bytes received once the first `n` chunks have arrived. */
  function ReceivedAfter(chunks: seq<Bytes>, n: nat): nat
    requires n <= |chunks|
  {
    |Concat(chunks[..n])|
  }

  /** The percentages passed to `onProgress`: one per chunk, none without a content length. */
  function Reports(chunks: seq<Bytes>, total: nat): (ps: seq<nat>)
    ensures total == 0 ==> ps == []
    ensures total > 0 ==> |ps| == |chunks|
  {
    if total == 0 then []
    else seq(|chunks|, i requires 0 <= i < |chunks| => Percent(ReceivedAfter(chunks, i + 1), total))
  }

  /** One more chunk appends its bytes and, with a content length, one more report. */
  lemma ReportsSnoc(chunks: seq<Bytes>, total: nat, i: nat)
    requires i < |chunks|
    ensures Concat(chunks[..i + 1]) == Concat(chunks[..i]) + chunks[i]
    ensures total > 0 ==>
      Reports(chunks[..i + 1], total) == Reports(chunks[..i], total) + [Percent(|Concat(chunks[..i + 1])|, total)]
  {
    var pre, next := chunks[..i], chunks[..i + 1];
    assert next[..|next| - 1] == pre;
    if total > 0 {
      var a, b := Reports(next, total), Reports(pre, total) + [Percent(|Concat(next)|, total)];
      assert |a| == |b|;
      forall j | 0 <= j < |a| ensures a[j] == b[j] {
        assert next[..j + 1] == if j < i then pre[..j + 1] else next;
        if j == i { assert next[..|next|] == next; }
      }
    }
  }

  datatype DownloadOutcome = DownloadOutcome(result: Result<Path, DownloadError>, fs: Fs, progress: seq<nat>)

  /**
   * The effect of `downloadWithProgress(url, dest)`: the parent directory is
   * created first; a failed request or a status of 400 or more rejects before
   * any file is written; a stream error removes `dest` and rejects; otherwise
   * `dest` holds the body.
   */
  function DownloadSpec(fs: Fs, dest: Path, resp: Response): DownloadOutcome
  {
    var fs1 := MkdirAll(fs, Dirname(dest));
    match resp
    case RequestError => DownloadOutcome(Failure(NetworkError), fs1, [])
    case Reply(status, total, chunks, streamError) =>
      if status >= 400 then DownloadOutcome(Failure(HttpError(status)), fs1, [])
      else if streamError then
        DownloadOutcome(Failure(StreamError), Fs(fs1.files - {dest}, fs1.dirs), Reports(chunks, total))
      else DownloadOutcome(Success(dest), Fs(fs1.files[dest := Concat(chunks)], fs1.dirs), Reports(chunks, total))
  }

  /** `downloadWithProgress`: the `received` counter accumulates chunk lengths. */
  method Download(fs: Fs, dest: Path, resp: Response) returns (out: DownloadOutcome)
    ensures out == DownloadSpec(fs, dest, resp)
  {
    var fs1 := MkdirAll(fs, Dirname(dest));
    if resp.RequestError? {
      return DownloadOutcome(Failure(NetworkError), fs1, []);
    }
    if resp.status >= 400 {
      return DownloadOutcome(Failure(HttpError(resp.status)), fs1, []);
    }
    var total := resp.contentLength;
    var chunks := resp.chunks;
    var written: Bytes := [];
    var received := 0;
    var progress: seq<nat> := [];
    var i := 0;
    while i < |chunks|
      invariant 0 <= i <= |chunks|
      invariant written == Concat(chunks[..i])
      invariant received == |written|
      invariant progress == Reports(chunks[..i], total)
    {
      ReportsSnoc(chunks, total, i);
      written := written + chunks[i];
      received := received + |chunks[i]|;
      if total != 0 {
        progress := progress + [Percent(received, total)];
      }
      i := i + 1;
    }
    assert chunks[..i] == chunks;
    if resp.streamError {
      return DownloadOutcome(Failure(StreamError), Fs(fs1.files - {dest}, fs1.dirs), progress);
    }
    return DownloadOutcome(Success(dest), Fs(fs1.files[dest := written], fs1.dirs), progress);
  }

  /**
   * A download leaves either the whole body at `dest` or, after a stream
   * error, nothing at `dest`; on an HTTP or network error no file is touched;
   * files other than `dest` never change.
   */
  lemma DownloadNoPartialFile(fs: Fs, dest: Path, resp: Response)
    ensures var out := DownloadSpec(fs, dest, resp);
      && (out.result.Success? ==> resp.Reply? && dest in out.fs.files && out.fs.files[dest] == Concat(resp.chunks))
      && (out.result == Failure(StreamError) ==> dest !in out.fs.files)
      && (out.result.Failure? && out.result.error != StreamError ==> out.fs.files == fs.files && out.progress == [])
      && (forall q :: q != dest ==> (q in out.fs.files <==> q in fs.files))
      && (forall q :: q != dest && q in fs.files ==> out.fs.files[q] == fs.files[q])
  {
  }

  lemma ReceivedAfterMonotone(chunks: seq<Bytes>, m: nat, n: nat)
    requires m <= n <= |chunks|
    ensures ReceivedAfter(chunks, m) <= ReceivedAfter(chunks, n)
    decreases n - m
  {
    if m < n {
      ReceivedAfterMonotone(chunks, m, n - 1);
      assert chunks[..n][..n - 1] == chunks[..n - 1];
    }
  }

  /**
   * The reported percentages never decrease; while the body is no longer than
   * the announced length they stay within 0..100, and a complete body ends on 100.
   */
  lemma ReportsShape(chunks: seq<Bytes>, total: nat)
    ensures var ps := Reports(chunks, total);
      forall i, j :: 0 <= i <= j < |ps| ==> ps[i] <= ps[j]
    ensures total > 0 && |Concat(chunks)| <= total ==>
      forall p :: p in Reports(chunks, total) ==> p <= 100
    ensures total > 0 && chunks != [] && |Concat(chunks)| == total ==>
      Reports(chunks, total)[|chunks| - 1] == 100
  {
    if total > 0 {
      ReportsMonotone(chunks, total);
      if |Concat(chunks)| <= total {
        ReportsBounded(chunks, total);
      }
      if chunks != [] && |Concat(chunks)| == total {
        assert chunks[..|chunks|] == chunks;
        PercentBounds(total, total);
      }
    }
  }

  lemma ReportsMonotone(chunks: seq<Bytes>, total: nat)
    requires total > 0
    ensures var ps := Reports(chunks, total);
      forall i, j :: 0 <= i <= j < |ps| ==> ps[i] <= ps[j]
  {
    var ps := Reports(chunks, total);
    forall i, j | 0 <= i <= j < |ps| ensures ps[i] <= ps[j] {
      ReceivedAfterMonotone(chunks, i + 1, j + 1);
      PercentMonotone(ReceivedAfter(chunks, i + 1), ReceivedAfter(chunks, j + 1), total);
    }
  }

  lemma ReportsBounded(chunks: seq<Bytes>, total: nat)
    requires total > 0 && |Concat(chunks)| <= total
    ensures forall p :: p in Reports(chunks, total) ==> p <= 100
  {
    var ps := Reports(chunks, total);
    assert chunks[..|chunks|] == chunks;
    forall p | p in ps ensures p <= 100 {
      var i :| 0 <= i < |ps| && ps[i] == p;
      ReceivedAfterMonotone(chunks, i + 1, |chunks|);
      PercentBounds(ReceivedAfter(chunks, i + 1), total);
    }
  }


  // ---------------------------------------------------------------------------
  // Checksum

  const Sha256Prefix: string := "sha256:"

  /** `expected.replace(/^sha256:/, '')`: one leading `sha256:` is removed. */
  function ExpectedHex(expected: string): (r: string)
    ensures StartsWith(expected, Sha256Prefix) ==> Sha256Prefix + r == expected
    ensures !StartsWith(expected, Sha256Prefix) ==> r == expected
  {
    if StartsWith(expected, Sha256Prefix) then expected[|Sha256Prefix|..] else expected
  }

  /**
   * `verifyChecksum(filePath, expected)`: SHA-256 is used whatever the prefix
   * says (`digest` is that one hash), and the hex digest must equal the
   * expected text exactly, letter case included. Reading a missing file fails.
   */
  function VerifyChecksum(fs: Fs, filePath: Path, expected: string, digest: Bytes -> string): (r: Result<bool, Path>)
    ensures r.Failure? <==> filePath !in fs.files
    ensures r == Success(true) <==> filePath in fs.files && digest(fs.files[filePath]) == ExpectedHex(expected)
  {
    if filePath !in fs.files then Failure(filePath)
    else Success(digest(fs.files[filePath]) == ExpectedHex(expected))
  }

  /**
   * The prefix is documentation only: a digest with or without `sha256:` in
   * front is accepted alike, but only one prefix is removed.
   */
  lemma ChecksumPrefixIsIgnored(fs: Fs, filePath: Path, hex: string, digest: Bytes -> string)
    requires !StartsWith(hex, Sha256Prefix)
    ensures VerifyChecksum(fs, filePath, Sha256Prefix + hex, digest) == VerifyChecksum(fs, filePath, hex, digest)
    ensures filePath in fs.files && digest(fs.files[filePath]) == hex ==>
      VerifyChecksum(fs, filePath, Sha256Prefix + Sha256Prefix + hex, digest) == Success(false)
  {
    var once := Sha256Prefix + hex;
    assert StartsWith(once, Sha256Prefix) by { assert once[..|Sha256Prefix|] == Sha256Prefix; }
    assert ExpectedHex(once) == hex by { assert once[|Sha256Prefix|..] == hex; }
    var twice := Sha256Prefix + once;
    assert StartsWith(twice, Sha256Prefix) by { assert twice[..|Sha256Prefix|] == Sha256Prefix; }
    assert ExpectedHex(twice) == once by { assert twice[|Sha256Prefix|..] == once; }
    assert once != hex by { assert |once| == |hex| + 7; }
  }

  // ---------------------------------------------------------------------------
  // Extraction

  datatype ArtifactKind = ZipArchive | TarArchive | PlainFile

  /** By suffix: `.zip`, then `.tar.gz` or `.tgz`, anything else is a plain file. */
  function KindOf(name: string): (k: ArtifactKind)
    ensures k == ZipArchive <==> EndsWith(name, ".zip")
    ensures k == TarArchive <==> !EndsWith(name, ".zip") && (EndsWith(name, ".tar.gz") || EndsWith(name, ".tgz"))
    ensures k == PlainFile <==> !EndsWith(name, ".zip") && !EndsWith(name, ".tar.gz") && !EndsWith(name, ".tgz")
  {
    if EndsWith(name, ".zip") then ZipArchive
    else if EndsWith(name, ".tar.gz") || EndsWith(name, ".tgz") then TarArchive
    else PlainFile
  }

  function LastSegment(p: Path): string
  {
    if p == [] then "" else p[|p| - 1]
  }

  /** A top-level entry of the staging directory. */
  datatype Entry = Entry(name: string, content: Bytes)

  /**
   * The surroundings of `tryExtract`: what the archive library puts into the
   * staging directory, and for attempt `k` whether staging succeeds, whether
   * renaming entry `i` succeeds and whether the fallback copy succeeds, and
   * whether the final clean-up of the staging directory succeeds.
   */
  datatype ExtractEnv = ExtractEnv(
    unpacked: seq<Entry>,
    stageOk: nat -> bool,
    renameOk: (nat, nat) -> bool,
    copyOk: (nat, nat) -> bool,
    cleanupOk: bool)

  /**
   * What staging puts into the staging directory: the archive's entries, or
   * for a plain file a copy named by its basename (which needs the file).
   */
  function Staged(fs: Fs, filePath: Path, env: ExtractEnv): Option<seq<Entry>>
  {
    if KindOf(LastSegment(filePath)) != PlainFile then Some(env.unpacked)
    else if filePath in fs.files then Some([Entry(LastSegment(filePath), fs.files[filePath])])
    else None
  }

  predicate DistinctNames(es: seq<Entry>)
  {
    forall i, j :: 0 <= i < j < |es| ==> es[i].name != es[j].name
  }

  /** Writes the staged entries below `dir`. */
  function WriteEntries(fs: Fs, dir: Path, es: seq<Entry>): Fs
  {
    if es == [] then fs
    else
      var last := es[|es| - 1];
      var r0 := WriteEntries(fs, dir, es[..|es| - 1]);
      Fs(r0.files[dir + [last.name] := last.content], r0.dirs)
  }

  /** Staging adds one file per entry below `dir` and changes nothing else. */
  lemma {:induction false} WriteEntriesFrame(fs: Fs, dir: Path, es: seq<Entry>)
    ensures var r := WriteEntries(fs, dir, es);
      && r.dirs == fs.dirs
      && r.files.Keys == fs.files.Keys + (set e | e in es :: dir + [e.name])
      && (forall q :: q in fs.files && !StrictlyUnder(dir, q) ==> r.files[q] == fs.files[q])
  {
    if es != [] {
      var last := es[|es| - 1];
      var init := es[..|es| - 1];
      WriteEntriesFrame(fs, dir, init);
      assert forall e :: e in es <==> e in init || e == last;
      assert (set e | e in es :: dir + [e.name]) == (set e | e in init :: dir + [e.name]) + {dir + [last.name]};
    }
  }

  /** With distinct names each entry's file holds that entry's content. */
  lemma {:induction false} WriteEntriesContent(fs: Fs, dir: Path, es: seq<Entry>)
    requires DistinctNames(es)
    ensures forall e :: e in es ==>
      dir + [e.name] in WriteEntries(fs, dir, es).files &&
      WriteEntries(fs, dir, es).files[dir + [e.name]] == e.content
  {
    if es != [] {
      var last := es[|es| - 1];
      var init := es[..|es| - 1];
      var r0 := WriteEntries(fs, dir, init);
      var r := WriteEntries(fs, dir, es);
      assert r.files == r0.files[dir + [last.name] := last.content];
      assert DistinctNames(init);
      WriteEntriesContent(fs, dir, init);
      forall e | e in es
        ensures dir + [e.name] in r.files && r.files[dir + [e.name]] == e.content
      {
        if e != last {
          var j :| 0 <= j < |es| && es[j] == e;
          assert j < |es| - 1 && init[j] == e;
          assert e.name != last.name;
          assert dir + [e.name] != dir + [last.name] by {
            assert (dir + [e.name])[|dir|] == e.name;
          }
        }
      }
    }
  }

  /** `fsp.rename(src, dst)`. */
  function Rename(fs: Fs, src: Path, dst: Path): Fs
    requires src in fs.files
  {
    Fs((fs.files - {src})[dst := fs.files[src]], fs.dirs)
  }

  /** `fsp.copyFile(src, dst)`. */
  function CopyFile(fs: Fs, src: Path, dst: Path): Fs
    requires src in fs.files
  {
    Fs(fs.files[dst := fs.files[src]], fs.dirs)
  }

  datatype MoveOutcome = MoveOutcome(ok: bool, fs: Fs)

  /**
   * Moving entries `i..` of attempt `k` from `tmpDir` into `destDir`: rename,
   * else copy, else the attempt throws and the remaining entries stay put.
   */
  function MoveFrom(fs: Fs, tmpDir: Path, destDir: Path, es: seq<Entry>, env: ExtractEnv, k: nat, i: nat): MoveOutcome
    requires i <= |es|
    decreases |es| - i
  {
    if i == |es| then MoveOutcome(true, fs)
    else
      var src, dst := tmpDir + [es[i].name], destDir + [es[i].name];
      if src in fs.files && env.renameOk(k, i) then MoveFrom(Rename(fs, src, dst), tmpDir, destDir, es, env, k, i + 1)
      else if src in fs.files && env.copyOk(k, i) then MoveFrom(CopyFile(fs, src, dst), tmpDir, destDir, es, env, k, i + 1)
      else MoveOutcome(false, fs)
  }

  /** One attempt: create the staging directory, stage, create `destDir`, move every entry. */
  function Attempt(fs: Fs, filePath: Path, tmpDir: Path, destDir: Path, env: ExtractEnv, k: nat): MoveOutcome
  {
    var fs1 := MkdirAll(fs, tmpDir);
    var staged := Staged(fs1, filePath, env);
    if !env.stageOk(k) || staged.None? then MoveOutcome(false, fs1)
    else MoveFrom(MkdirAll(WriteEntries(fs1, tmpDir, staged.value), destDir), tmpDir, destDir, staged.value, env, k, 0)
  }

  const MaxAttempts: nat := 3

  /** The wait after failed attempt `k` (0-based): 250 ms times `k + 1`. */
  function Backoff(k: nat): nat
  {
    250 * (k + 1)
  }

  datatype ExtractOutcome = ExtractOutcome(ok: bool, fs: Fs, delays: seq<nat>)

  function Delayed(ds: seq<nat>, o: ExtractOutcome): ExtractOutcome
  {
    o.(delays := ds + o.delays)
  }

  /** Attempts `k..2` of `tryExtract`; the first full success cleans up and stops. */
  function TryFrom(fs: Fs, filePath: Path, tmpDir: Path, destDir: Path, env: ExtractEnv, k: nat): ExtractOutcome
    decreases MaxAttempts - k
  {
    if k >= MaxAttempts then ExtractOutcome(false, fs, [])
    else
      var a := Attempt(fs, filePath, tmpDir, destDir, env, k);
      if a.ok then ExtractOutcome(true, if env.cleanupOk then RemoveTree(a.fs, tmpDir) else a.fs, [])
      else Delayed([Backoff(k)], TryFrom(a.fs, filePath, tmpDir, destDir, env, k + 1))
  }

  /** The inner loop of `tryExtract`: rename or copy each staged entry in listing order. */
  method MoveEntries(fs: Fs, tmpDir: Path, destDir: Path, es: seq<Entry>, env: ExtractEnv, k: nat)
    returns (out: MoveOutcome)
    ensures out == MoveFrom(fs, tmpDir, destDir, es, env, k, 0)
  {
    var cur := fs;
    var i := 0;
    while i < |es|
      invariant 0 <= i <= |es|
      invariant MoveFrom(fs, tmpDir, destDir, es, env, k, 0) == MoveFrom(cur, tmpDir, destDir, es, env, k, i)
    {
      var src, dst := tmpDir + [es[i].name], destDir + [es[i].name];
      if src in cur.files && env.renameOk(k, i) {
        cur := Rename(cur, src, dst);
      } else if src in cur.files && env.copyOk(k, i) {
        cur := CopyFile(cur, src, dst);
      } else {
        return MoveOutcome(false, cur);
      }
      i := i + 1;
    }
    return MoveOutcome(true, cur);
  }

  /** The body of one iteration of the attempt loop, up to the point where it succeeds or throws. */
  method RunAttempt(fs: Fs, filePath: Path, tmpDir: Path, destDir: Path, env: ExtractEnv, k: nat)
    returns (out: MoveOutcome)
    ensures out == Attempt(fs, filePath, tmpDir, destDir, env, k)
  {
    var fs1 := MkdirAll(fs, tmpDir);
    var staged := Staged(fs1, filePath, env);
    if !env.stageOk(k) || staged.None? {
      return MoveOutcome(false, fs1);
    }
    var fs2 := MkdirAll(WriteEntries(fs1, tmpDir, staged.value), destDir);
    out := MoveEntries(fs2, tmpDir, destDir, staged.value, env, k);
  }

  /**
   * `tryExtract(filePath, destDir)` with staging directory `tmpDir`: at most
   * three attempts, a wait of `Backoff(k)` after each failed one (the last
   * included), and `true` on the first attempt that stages and moves everything.
   */
  method TryExtract(fs: Fs, filePath: Path, tmpDir: Path, destDir: Path, env: ExtractEnv)
    returns (out: ExtractOutcome)
    ensures out == TryFrom(fs, filePath, tmpDir, destDir, env, 0)
  {
    var cur := fs;
    var delays: seq<nat> := [];
    var attempt := 0;
    while attempt < MaxAttempts
      invariant 0 <= attempt <= MaxAttempts
      invariant TryFrom(fs, filePath, tmpDir, destDir, env, 0) == Delayed(delays, TryFrom(cur, filePath, tmpDir, destDir, env, attempt))
    {
      var a := RunAttempt(cur, filePath, tmpDir, destDir, env, attempt);
      if a.ok {
        cur := a.fs;
        if env.cleanupOk {
          cur := RemoveTree(cur, tmpDir);
        }
        return ExtractOutcome(true, cur, delays);
      }
      assert TryFrom(cur, filePath, tmpDir, destDir, env, attempt)
          == Delayed([Backoff(attempt)], TryFrom(a.fs, filePath, tmpDir, destDir, env, attempt + 1));
      cur := a.fs;
      delays := delays + [Backoff(attempt)];
      attempt := attempt + 1;
    }
    return ExtractOutcome(false, cur, delays);
  }

  // Properties of tryExtract

  /**
   * The waits: after failed attempt `k` the wait is 250 ms times `k + 1`; a
   * success after `n` failures has waited `n` times, a failure three times.
   */
  lemma {:induction false} TryFromDelays(fs: Fs, filePath: Path, tmpDir: Path, destDir: Path, env: ExtractEnv, k: nat)
    requires k <= MaxAttempts
    ensures var o := TryFrom(fs, filePath, tmpDir, destDir, env, k);
      && (forall j :: 0 <= j < |o.delays| ==> o.delays[j] == Backoff(k + j))
      && (o.ok ==> |o.delays| < MaxAttempts - k)
      && (!o.ok ==> |o.delays| == MaxAttempts - k)
    decreases MaxAttempts - k
  {
    if k < MaxAttempts {
      var a := Attempt(fs, filePath, tmpDir, destDir, env, k);
      if !a.ok {
        var rest := TryFrom(a.fs, filePath, tmpDir, destDir, env, k + 1);
        TryFromDelays(a.fs, filePath, tmpDir, destDir, env, k + 1);
        assert TryFrom(fs, filePath, tmpDir, destDir, env, k) == Delayed([Backoff(k)], rest);
        DelayedShift(k, rest);
      }
    }
  }

  /** One more backoff in front shifts each later backoff by one attempt. */
  lemma DelayedShift(k: nat, rest: ExtractOutcome)
    requires forall j :: 0 <= j < |rest.delays| ==> rest.delays[j] == Backoff(k + 1 + j)
    ensures var o := Delayed([Backoff(k)], rest);
      && o.ok == rest.ok && |o.delays| == |rest.delays| + 1
      && forall j :: 0 <= j < |o.delays| ==> o.delays[j] == Backoff(k + j)
  {
    var o := Delayed([Backoff(k)], rest);
    forall j | 0 <= j < |o.delays| ensures o.delays[j] == Backoff(k + j) {
      if j > 0 {
        assert o.delays[j] == rest.delays[j - 1];
      }
    }
  }

  lemma ExtractWaits(fs: Fs, filePath: Path, tmpDir: Path, destDir: Path, env: ExtractEnv)
    ensures var o := TryFrom(fs, filePath, tmpDir, destDir, env, 0);
      && (!o.ok ==> o.delays == [250, 500, 750])
      && (o.ok ==> |o.delays| < 3 && o.delays == [250, 500, 750][..|o.delays|])
  {
    TryFromDelays(fs, filePath, tmpDir, destDir, env, 0);
  }

  /** Files neither at or below `tmpDir` nor at or below `destDir` are the same in both states. */
  ghost predicate SameOutside(fs: Fs, fs': Fs, tmpDir: Path, destDir: Path)
  {
    forall q :: !Under(tmpDir, q) && !Under(destDir, q) ==>
      (q in fs.files <==> q in fs'.files) && (q in fs.files ==> fs'.files[q] == fs.files[q])
  }

  /** Files outside `tmpDir` are never removed, and directories outside it neither. */
  ghost predicate KeptOutside(fs: Fs, fs': Fs, tmpDir: Path)
  {
    && (forall q :: q in fs.files && !Under(tmpDir, q) ==> q in fs'.files)
    && (forall d :: d in fs.dirs && !Under(tmpDir, d) ==> d in fs'.dirs)
  }

  lemma {:induction false} MoveFromFrame(fs: Fs, tmpDir: Path, destDir: Path, es: seq<Entry>, env: ExtractEnv, k: nat, i: nat)
    requires i <= |es|
    ensures var m := MoveFrom(fs, tmpDir, destDir, es, env, k, i);
      SameOutside(fs, m.fs, tmpDir, destDir) && KeptOutside(fs, m.fs, tmpDir) && m.fs.dirs == fs.dirs
    decreases |es| - i
  {
    if i < |es| {
      var src, dst := tmpDir + [es[i].name], destDir + [es[i].name];
      assert Under(tmpDir, src) && Under(destDir, dst);
      if src in fs.files && env.renameOk(k, i) {
        MoveFromFrame(Rename(fs, src, dst), tmpDir, destDir, es, env, k, i + 1);
      } else if src in fs.files && env.copyOk(k, i) {
        MoveFromFrame(CopyFile(fs, src, dst), tmpDir, destDir, es, env, k, i + 1);
      }
    }
  }

  lemma AttemptFrame(fs: Fs, filePath: Path, tmpDir: Path, destDir: Path, env: ExtractEnv, k: nat)
    ensures var a := Attempt(fs, filePath, tmpDir, destDir, env, k);
      SameOutside(fs, a.fs, tmpDir, destDir) && KeptOutside(fs, a.fs, tmpDir)
      && fs.dirs <= a.fs.dirs && (tmpDir != [] ==> tmpDir in a.fs.dirs)
  {
    var fs1 := MkdirAll(fs, tmpDir);
    var staged := Staged(fs1, filePath, env);
    if env.stageOk(k) && staged.Some? {
      var fs2 := MkdirAll(WriteEntries(fs1, tmpDir, staged.value), destDir);
      WriteEntriesFrame(fs1, tmpDir, staged.value);
      MoveFromFrame(fs2, tmpDir, destDir, staged.value, env, k, 0);
    }
  }

  /** Whatever happens, files outside the staging and destination directories are untouched. */
  lemma {:induction false} TryFromFrame(fs: Fs, filePath: Path, tmpDir: Path, destDir: Path, env: ExtractEnv, k: nat)
    ensures var o := TryFrom(fs, filePath, tmpDir, destDir, env, k);
      SameOutside(fs, o.fs, tmpDir, destDir) && KeptOutside(fs, o.fs, tmpDir)
      && (!o.ok && k < MaxAttempts && tmpDir != [] ==> tmpDir in o.fs.dirs)
    decreases MaxAttempts - k
  {
    if k < MaxAttempts {
      var a := Attempt(fs, filePath, tmpDir, destDir, env, k);
      AttemptFrame(fs, filePath, tmpDir, destDir, env, k);
      if !a.ok {
        TryFromFrame(a.fs, filePath, tmpDir, destDir, env, k + 1);
        var o := TryFrom(a.fs, filePath, tmpDir, destDir, env, k + 1);
        if k + 1 < MaxAttempts {
        } else {
          assert o.fs == a.fs;
        }
      }
    }
  }

  /**
   * Staging is cleaned up only after a success: when every attempt fails the
   * staging directory is still there.
   */
  lemma FailureLeavesStagingDir(fs: Fs, filePath: Path, tmpDir: Path, destDir: Path, env: ExtractEnv)
    requires tmpDir != []
    ensures var o := TryFrom(fs, filePath, tmpDir, destDir, env, 0);
      !o.ok ==> tmpDir in o.fs.dirs
  {
    TryFromFrame(fs, filePath, tmpDir, destDir, env, 0);
  }

  /** How many entries staging lists: one for a plain file, the archive's entries otherwise. */
  function ListingSize(filePath: Path, env: ExtractEnv): nat
  {
    if KindOf(LastSegment(filePath)) == PlainFile then 1 else |env.unpacked|
  }

  /** In attempt `k` staging works and every entry can be renamed or else copied. */
  predicate MovesAll(filePath: Path, env: ExtractEnv, k: nat)
  {
    && env.stageOk(k)
    && forall i :: 0 <= i < ListingSize(filePath, env) ==> env.renameOk(k, i) || env.copyOk(k, i)
  }

  /** Attempt `k` finds something to stage and moves all of it. */
  predicate CanSucceed(fs: Fs, filePath: Path, env: ExtractEnv, k: nat)
  {
    && (KindOf(LastSegment(filePath)) == PlainFile ==> filePath in fs.files)
    && MovesAll(filePath, env, k)
  }

  /** The staging and destination trees do not overlap. */
  predicate Disjoint(tmpDir: Path, destDir: Path)
  {
    !Under(tmpDir, destDir) && !Under(destDir, tmpDir)
  }

  lemma MoveFromAllOk(fs: Fs, tmpDir: Path, destDir: Path, es: seq<Entry>, env: ExtractEnv, k: nat, i: nat)
    requires i <= |es| && DistinctNames(es) && Disjoint(tmpDir, destDir)
    requires forall j :: i <= j < |es| ==> tmpDir + [es[j].name] in fs.files
    ensures var m := MoveFrom(fs, tmpDir, destDir, es, env, k, i);
      && (m.ok <==> forall j :: i <= j < |es| ==> env.renameOk(k, j) || env.copyOk(k, j))
      && (m.ok ==> forall j :: i <= j < |es| ==>
            destDir + [es[j].name] in m.fs.files && m.fs.files[destDir + [es[j].name]] == fs.files[tmpDir + [es[j].name]])
      && (forall q :: q in fs.files && !Under(tmpDir, q) && (forall j :: i <= j < |es| ==> q != destDir + [es[j].name]) ==>
            q in m.fs.files && m.fs.files[q] == fs.files[q])
  {
    MoveFromOkIff(fs, tmpDir, destDir, es, env, k, i);
    MoveFromPlaces(fs, tmpDir, destDir, es, env, k, i);
    var m := MoveFrom(fs, tmpDir, destDir, es, env, k, i);
    forall q | q in fs.files && !Under(tmpDir, q) && (forall j :: i <= j < |es| ==> q != destDir + [es[j].name])
      ensures q in m.fs.files && m.fs.files[q] == fs.files[q]
    {
      MoveFromKeeps(fs, tmpDir, destDir, es, env, k, i, q);
    }
  }

  /** The effect of moving entry `i` when it can be renamed or copied. */
  lemma MoveStep(fs: Fs, tmpDir: Path, destDir: Path, es: seq<Entry>, env: ExtractEnv, k: nat, i: nat)
    requires i < |es| && DistinctNames(es) && Disjoint(tmpDir, destDir)
    requires forall j :: i <= j < |es| ==> tmpDir + [es[j].name] in fs.files
    requires env.renameOk(k, i) || env.copyOk(k, i)
    ensures var src, dst := tmpDir + [es[i].name], destDir + [es[i].name];
      var next := if env.renameOk(k, i) then Rename(fs, src, dst) else CopyFile(fs, src, dst);
      && MoveFrom(fs, tmpDir, destDir, es, env, k, i) == MoveFrom(next, tmpDir, destDir, es, env, k, i + 1)
      && dst in next.files && next.files[dst] == fs.files[src]
      && (forall j :: i < j < |es| ==>
            && tmpDir + [es[j].name] in next.files && next.files[tmpDir + [es[j].name]] == fs.files[tmpDir + [es[j].name]]
            && destDir + [es[j].name] != dst)
  {
    var src, dst := tmpDir + [es[i].name], destDir + [es[i].name];
    MoveOne(fs, src, dst, env.renameOk(k, i));
    NotUnderOther(tmpDir, destDir, es[i].name);
    ChildStrictlyUnderDir(tmpDir, es[i].name);
    forall j | i < j < |es|
      ensures tmpDir + [es[j].name] != src && tmpDir + [es[j].name] != dst && destDir + [es[j].name] != dst
    {
      NotUnderOther(tmpDir, destDir, es[j].name);
      ChildStrictlyUnderDir(tmpDir, es[j].name);
      ChildrenDiffer(tmpDir, es[j].name, es[i].name);
      ChildrenDiffer(destDir, es[j].name, es[i].name);
    }
  }

  lemma {:induction false} MoveFromOkIff(fs: Fs, tmpDir: Path, destDir: Path, es: seq<Entry>, env: ExtractEnv, k: nat, i: nat)
    requires i <= |es| && DistinctNames(es) && Disjoint(tmpDir, destDir)
    requires forall j :: i <= j < |es| ==> tmpDir + [es[j].name] in fs.files
    ensures MoveFrom(fs, tmpDir, destDir, es, env, k, i).ok <==> forall j :: i <= j < |es| ==> env.renameOk(k, j) || env.copyOk(k, j)
    decreases |es| - i
  {
    if i < |es| {
      if env.renameOk(k, i) || env.copyOk(k, i) {
        MoveStep(fs, tmpDir, destDir, es, env, k, i);
        var src, dst := tmpDir + [es[i].name], destDir + [es[i].name];
        var next := if env.renameOk(k, i) then Rename(fs, src, dst) else CopyFile(fs, src, dst);
        MoveFromOkIff(next, tmpDir, destDir, es, env, k, i + 1);
      }
    }
  }

  lemma {:induction false} MoveFromKeeps(fs: Fs, tmpDir: Path, destDir: Path, es: seq<Entry>, env: ExtractEnv, k: nat, i: nat, q: Path)
    requires i <= |es|
    requires q in fs.files && !Under(tmpDir, q)
    requires forall j :: i <= j < |es| ==> q != destDir + [es[j].name]
    ensures var m := MoveFrom(fs, tmpDir, destDir, es, env, k, i);
      q in m.fs.files && m.fs.files[q] == fs.files[q]
    decreases |es| - i
  {
    if i < |es| {
      var src, dst := tmpDir + [es[i].name], destDir + [es[i].name];
      if src in fs.files && (env.renameOk(k, i) || env.copyOk(k, i)) {
        ChildStrictlyUnderDir(tmpDir, es[i].name);
        MoveOne(fs, src, dst, env.renameOk(k, i));
        var next := if env.renameOk(k, i) then Rename(fs, src, dst) else CopyFile(fs, src, dst);
        MoveFromKeeps(next, tmpDir, destDir, es, env, k, i + 1, q);
      }
    }
  }

  lemma {:induction false} MoveFromPlaces(fs: Fs, tmpDir: Path, destDir: Path, es: seq<Entry>, env: ExtractEnv, k: nat, i: nat)
    requires i <= |es| && DistinctNames(es) && Disjoint(tmpDir, destDir)
    requires forall j :: i <= j < |es| ==> tmpDir + [es[j].name] in fs.files
    ensures var m := MoveFrom(fs, tmpDir, destDir, es, env, k, i);
      m.ok ==> forall j :: i <= j < |es| ==>
        destDir + [es[j].name] in m.fs.files && m.fs.files[destDir + [es[j].name]] == fs.files[tmpDir + [es[j].name]]
    decreases |es| - i
  {
    if i < |es| {
      if env.renameOk(k, i) || env.copyOk(k, i) {
        MoveStep(fs, tmpDir, destDir, es, env, k, i);
        var src, dst := tmpDir + [es[i].name], destDir + [es[i].name];
        var next := if env.renameOk(k, i) then Rename(fs, src, dst) else CopyFile(fs, src, dst);
        MoveFromPlaces(next, tmpDir, destDir, es, env, k, i + 1);
        NotUnderOther(tmpDir, destDir, es[i].name);
        MoveFromKeeps(next, tmpDir, destDir, es, env, k, i + 1, dst);
      }
    }
  }

  lemma ChildStrictlyUnderDir(dir: Path, n: string)
    ensures Under(dir, dir + [n])
  {
    assert (dir + [n])[..|dir|] == dir;
  }

  /** Renaming or copying `src` to `dst` puts its content at `dst` and keeps every other path but `src`. */
  lemma MoveOne(fs: Fs, src: Path, dst: Path, rename: bool)
    requires src in fs.files
    ensures var next := if rename then Rename(fs, src, dst) else CopyFile(fs, src, dst);
      && dst in next.files && next.files[dst] == fs.files[src]
      && forall q :: q in fs.files && q != src && q != dst ==> q in next.files && next.files[q] == fs.files[q]
  {
  }

  /** A child of the destination never lies under the staging directory. */
  lemma NotUnderOther(tmpDir: Path, destDir: Path, n: string)
    requires Disjoint(tmpDir, destDir)
    ensures !Under(tmpDir, destDir + [n])
  {
    var dst := destDir + [n];
    if |tmpDir| <= |destDir| {
      assert dst[..|tmpDir|] == destDir[..|tmpDir|];
    } else if |tmpDir| == |dst| {
      assert dst[..|destDir|] == destDir;
    }
  }

  lemma ChildrenDiffer(dir: Path, a: string, b: string)
    requires a != b
    ensures dir + [a] != dir + [b]
  {
    assert (dir + [a])[|dir|] == a;
  }

  /** After staging, each listed entry sits under the staging directory with its content. */
  lemma StagedInTmp(fs1: Fs, tmpDir: Path, destDir: Path, es: seq<Entry>)
    requires DistinctNames(es)
    ensures var fs2 := MkdirAll(WriteEntries(fs1, tmpDir, es), destDir);
      forall j :: 0 <= j < |es| ==>
        tmpDir + [es[j].name] in fs2.files && fs2.files[tmpDir + [es[j].name]] == es[j].content
  {
    WriteEntriesContent(fs1, tmpDir, es);
    var fs2 := MkdirAll(WriteEntries(fs1, tmpDir, es), destDir);
    forall j | 0 <= j < |es|
      ensures tmpDir + [es[j].name] in fs2.files && fs2.files[tmpDir + [es[j].name]] == es[j].content
    {
      assert es[j] in es;
    }
  }

  /**
   * One attempt succeeds exactly when it can; after a success every staged
   * entry sits in the destination with its staged content.
   */
  lemma AttemptOkIff(fs: Fs, filePath: Path, tmpDir: Path, destDir: Path, env: ExtractEnv, k: nat)
    requires Disjoint(tmpDir, destDir)
    requires KindOf(LastSegment(filePath)) != PlainFile ==> DistinctNames(env.unpacked)
    ensures var a := Attempt(fs, filePath, tmpDir, destDir, env, k);
      && (a.ok <==> CanSucceed(fs, filePath, env, k))
      && (a.ok ==> Staged(fs, filePath, env).Some? && forall e :: e in Staged(fs, filePath, env).value ==>
            destDir + [e.name] in a.fs.files && a.fs.files[destDir + [e.name]] == e.content)
  {
    var fs1 := MkdirAll(fs, tmpDir);
    var staged := Staged(fs1, filePath, env);
    assert staged == Staged(fs, filePath, env);
    if env.stageOk(k) && staged.Some? {
      var es := staged.value;
      assert DistinctNames(es);
      assert |es| == ListingSize(filePath, env);
      var fs2 := MkdirAll(WriteEntries(fs1, tmpDir, es), destDir);
      StagedInTmp(fs1, tmpDir, destDir, es);
      MoveFromAllOk(fs2, tmpDir, destDir, es, env, k, 0);
      var m := MoveFrom(fs2, tmpDir, destDir, es, env, k, 0);
      assert Attempt(fs, filePath, tmpDir, destDir, env, k) == m;
      if m.ok {
        forall e | e in es ensures destDir + [e.name] in m.fs.files && m.fs.files[destDir + [e.name]] == e.content {
          var j :| 0 <= j < |es| && es[j] == e;
        }
      }
    }
  }

  /** A failed attempt leaves the listing of the next attempt as it was. */
  lemma FailedAttemptKeepsListing(fs: Fs, filePath: Path, tmpDir: Path, destDir: Path, env: ExtractEnv, k: nat)
    requires Disjoint(tmpDir, destDir) && !Under(tmpDir, filePath)
    requires !Attempt(fs, filePath, tmpDir, destDir, env, k).ok
    ensures Staged(Attempt(fs, filePath, tmpDir, destDir, env, k).fs, filePath, env) == Staged(fs, filePath, env)
  {
    var a := Attempt(fs, filePath, tmpDir, destDir, env, k);
    if KindOf(LastSegment(filePath)) == PlainFile {
      var fs1 := MkdirAll(fs, tmpDir);
      var staged := Staged(fs1, filePath, env);
      if env.stageOk(k) && staged.Some? {
        var es := staged.value;
        var base := LastSegment(filePath);
        var fs2 := MkdirAll(WriteEntries(fs1, tmpDir, es), destDir);
        WriteEntriesFrame(fs1, tmpDir, es);
        assert es == [Entry(base, fs.files[filePath])];
        assert filePath != tmpDir + [base];
        assert tmpDir + [es[0].name] in fs2.files;
        MoveFromAllOk(fs2, tmpDir, destDir, es, env, k, 0);
        assert a.fs == fs2;
      }
    }
  }

  /**
   * `tryExtract` returns true exactly when one of its three attempts can
   * succeed; then every entry that staging lists (the archive's entries, or
   * the plain file under its basename) is in the destination with its
   * content, and, when clean-up works, nothing is left in the staging directory.
   */
  lemma TryFromOkIff(fs: Fs, filePath: Path, tmpDir: Path, destDir: Path, env: ExtractEnv, k: nat)
    requires Disjoint(tmpDir, destDir) && !Under(tmpDir, filePath)
    requires KindOf(LastSegment(filePath)) != PlainFile ==> DistinctNames(env.unpacked)
    ensures var o := TryFrom(fs, filePath, tmpDir, destDir, env, k);
      && (o.ok <==> exists j :: k <= j < MaxAttempts && CanSucceed(fs, filePath, env, j))
      && (o.ok ==> Staged(fs, filePath, env).Some? && forall e :: e in Staged(fs, filePath, env).value ==>
            destDir + [e.name] in o.fs.files && o.fs.files[destDir + [e.name]] == e.content)
      && (o.ok && env.cleanupOk ==> forall q :: q in o.fs.files ==> !Under(tmpDir, q))
  {
    TryFromOk(fs, filePath, tmpDir, destDir, env, k);
    TryFromPlaces(fs, filePath, tmpDir, destDir, env, k);
    TryFromCleans(fs, filePath, tmpDir, destDir, env, k);
  }

  /** Some attempt from `k` on can succeed exactly when attempt `k` can or a later one can. */
  lemma ChancesFrom(fs: Fs, filePath: Path, env: ExtractEnv, k: nat)
    requires k < MaxAttempts
    ensures (exists j :: k <= j < MaxAttempts && CanSucceed(fs, filePath, env, j))
      <==> CanSucceed(fs, filePath, env, k) || exists j :: k + 1 <= j < MaxAttempts && CanSucceed(fs, filePath, env, j)
  {
    if exists j :: k <= j < MaxAttempts && CanSucceed(fs, filePath, env, j) {
      var j :| k <= j < MaxAttempts && CanSucceed(fs, filePath, env, j);
      if j > k {
        assert k + 1 <= j;
      }
    }
  }

  /** Two file systems with the same listing give every attempt the same chance. */
  lemma SameChances(fs: Fs, fs': Fs, filePath: Path, env: ExtractEnv)
    requires Staged(fs', filePath, env) == Staged(fs, filePath, env)
    ensures forall j :: CanSucceed(fs', filePath, env, j) == CanSucceed(fs, filePath, env, j)
  {
  }

  lemma {:induction false} TryFromOk(fs: Fs, filePath: Path, tmpDir: Path, destDir: Path, env: ExtractEnv, k: nat)
    requires Disjoint(tmpDir, destDir) && !Under(tmpDir, filePath)
    requires KindOf(LastSegment(filePath)) != PlainFile ==> DistinctNames(env.unpacked)
    ensures TryFrom(fs, filePath, tmpDir, destDir, env, k).ok <==> exists j :: k <= j < MaxAttempts && CanSucceed(fs, filePath, env, j)
    decreases MaxAttempts - k
  {
    if k < MaxAttempts {
      var a := Attempt(fs, filePath, tmpDir, destDir, env, k);
      AttemptOkIff(fs, filePath, tmpDir, destDir, env, k);
      ChancesFrom(fs, filePath, env, k);
      if !a.ok {
        FailedAttemptKeepsListing(fs, filePath, tmpDir, destDir, env, k);
        SameChances(fs, a.fs, filePath, env);
        TryFromOk(a.fs, filePath, tmpDir, destDir, env, k + 1);
        assert TryFrom(fs, filePath, tmpDir, destDir, env, k).ok == TryFrom(a.fs, filePath, tmpDir, destDir, env, k + 1).ok;
      }
    }
  }

  lemma {:induction false} TryFromPlaces(fs: Fs, filePath: Path, tmpDir: Path, destDir: Path, env: ExtractEnv, k: nat)
    requires Disjoint(tmpDir, destDir) && !Under(tmpDir, filePath)
    requires KindOf(LastSegment(filePath)) != PlainFile ==> DistinctNames(env.unpacked)
    ensures var o := TryFrom(fs, filePath, tmpDir, destDir, env, k);
      o.ok ==> Staged(fs, filePath, env).Some? && forall e :: e in Staged(fs, filePath, env).value ==>
        destDir + [e.name] in o.fs.files && o.fs.files[destDir + [e.name]] == e.content
    decreases MaxAttempts - k
  {
    if k < MaxAttempts {
      var a := Attempt(fs, filePath, tmpDir, destDir, env, k);
      AttemptOkIff(fs, filePath, tmpDir, destDir, env, k);
      if a.ok {
        var o := TryFrom(fs, filePath, tmpDir, destDir, env, k);
        forall e | e in Staged(fs, filePath, env).value
          ensures destDir + [e.name] in o.fs.files && o.fs.files[destDir + [e.name]] == e.content
        {
          NotUnderOther(tmpDir, destDir, e.name);
        }
      } else {
        FailedAttemptKeepsListing(fs, filePath, tmpDir, destDir, env, k);
        TryFromPlaces(a.fs, filePath, tmpDir, destDir, env, k + 1);
      }
    }
  }

  lemma {:induction false} TryFromCleans(fs: Fs, filePath: Path, tmpDir: Path, destDir: Path, env: ExtractEnv, k: nat)
    ensures var o := TryFrom(fs, filePath, tmpDir, destDir, env, k);
      o.ok && env.cleanupOk ==> forall q :: q in o.fs.files ==> !Under(tmpDir, q)
    decreases MaxAttempts - k
  {
    if k < MaxAttempts {
      var a := Attempt(fs, filePath, tmpDir, destDir, env, k);
      if !a.ok {
        TryFromCleans(a.fs, filePath, tmpDir, destDir, env, k + 1);
      }
    }
  }


  /**
   * The move into the destination is not atomic: when the second of two
   * entries can be neither renamed nor copied, the attempt fails with the first
   * entry already in the destination and gone from the staging directory.
   */
  lemma FailedMoveLeavesPartialDestination(fs: Fs, tmpDir: Path, destDir: Path, e0: Entry, e1: Entry, env: ExtractEnv, k: nat)
    requires Disjoint(tmpDir, destDir) && e0.name != e1.name
    requires tmpDir + [e0.name] in fs.files && tmpDir + [e1.name] in fs.files
    requires env.renameOk(k, 0) && !env.renameOk(k, 1) && !env.copyOk(k, 1)
    ensures var m := MoveFrom(fs, tmpDir, destDir, [e0, e1], env, k, 0);
      && !m.ok
      && destDir + [e0.name] in m.fs.files && m.fs.files[destDir + [e0.name]] == fs.files[tmpDir + [e0.name]]
      && tmpDir + [e0.name] !in m.fs.files
  {
    var src0, dst0 := tmpDir + [e0.name], destDir + [e0.name];
    var src1 := tmpDir + [e1.name];
    assert src1 != src0 by { assert src1[|tmpDir|] != src0[|tmpDir|]; }
    assert src0 != dst0 by {
      if |tmpDir| == |destDir| { assert src0[..|tmpDir|] == tmpDir; assert dst0[..|destDir|] == destDir; }
      else { assert |src0| != |dst0|; }
    }
    var fs1 := Rename(fs, src0, dst0);
    assert src1 in fs1.files;
    assert MoveFrom(fs1, tmpDir, destDir, [e0, e1], env, k, 1) == MoveOutcome(false, fs1);
  }

  // ---------------------------------------------------------------------------
  // installTool and uninstallTool

  datatype InstallError =
    | DownloadFailed(cause: DownloadError)
    | ChecksumReadFailed
    | ChecksumMismatch
    | ExtractionFailed

  /** The result (or the error thrown), the file system afterwards, the progress reports and the extraction waits. */
  datatype InstallOutcome = InstallOutcome(result: Result<Path, InstallError>, fs: Fs, progress: seq<nat>, delays: seq<nat>)

  /** Download percentages as `installTool` forwards them: mapped into 0..70. */
  function Scaled(ps: seq<nat>): (qs: seq<nat>)
    ensures |qs| == |ps| && forall i :: 0 <= i < |ps| ==> qs[i] == Overall(ps[i])
  {
    seq(|ps|, i requires 0 <= i < |ps| => Overall(ps[i]))
  }

  /** The three config folders `installTool` creates last. */
  function WithConfigDirs(fs: Fs, env: Env): (r: Fs)
    ensures r.files == fs.files && fs.dirs <= r.dirs
    ensures ConfigDir(env) in r.dirs && NginxConfigDir(env) in r.dirs && PhpConfigDir(env) in r.dirs
  {
    MkdirAll(MkdirAll(MkdirAll(fs, ConfigDir(env)), NginxConfigDir(env)), PhpConfigDir(env))
  }

  /** Extraction of the downloaded artifact into its folder, and what follows it. */
  function ExtractStage(fs: Fs, env: Env, dest: Path, folder: Path, xenv: ExtractEnv, tmpDir: Path, prog: seq<nat>): InstallOutcome
  {
    var x := TryFrom(fs, dest, tmpDir, folder, xenv, 0);
    if !x.ok then InstallOutcome(Failure(ExtractionFailed), x.fs, prog, x.delays)
    else InstallOutcome(Success(dest), WithConfigDirs(x.fs, env), prog + [100], x.delays)
  }

  /** Everything after a successful download: the optional checksum, then extraction. */
  function AfterDownload(fs: Fs, env: Env, dest: Path, folder: Path, checksum: string, digest: Bytes -> string,
                         xenv: ExtractEnv, tmpDir: Path, prog: seq<nat>): InstallOutcome
  {
    if checksum == "" then ExtractStage(fs, env, dest, folder, xenv, tmpDir, prog)
    else match VerifyChecksum(fs, dest, checksum, digest)
      case Failure(_) => InstallOutcome(Failure(ChecksumReadFailed), fs, prog, [])
      case Success(ok) =>
        if ok then ExtractStage(fs, env, dest, folder, xenv, tmpDir, prog)
        else InstallOutcome(Failure(ChecksumMismatch), fs, prog, [])
  }

  /**
   * `installTool(toolName, version, downloadUrl, checksum)`, where an empty
   * `checksum` means none was given: create the folder, download, check the
   * digest, extract into the same folder (staging in `tmpDir`), report 100,
   * then create the config folders; the result is the artifact's path.
   */
  function InstallSpec(fs: Fs, env: Env, toolName: string, version: string, url: string, checksum: string,
                       resp: Response, digest: Bytes -> string, xenv: ExtractEnv, tmpDir: Path): InstallOutcome
  {
    InstallAt(fs, env, ArtifactPath(env, toolName, version, url), InstallDir(env, toolName, version),
              checksum, resp, digest, xenv, tmpDir)
  }

  /** `installTool` once the artifact path `dest` and its folder are fixed. */
  function InstallAt(fs: Fs, env: Env, dest: Path, folder: Path, checksum: string,
                     resp: Response, digest: Bytes -> string, xenv: ExtractEnv, tmpDir: Path): InstallOutcome
  {
    var d := DownloadSpec(MkdirAll(fs, Dirname(dest)), dest, resp);
    if d.result.Failure? then InstallOutcome(Failure(DownloadFailed(d.result.error)), d.fs, Scaled(d.progress), [])
    else AfterDownload(d.fs, env, dest, folder, checksum, digest, xenv, tmpDir, Scaled(d.progress))
  }

  /** The checksum and extraction steps of `installTool`. */
  method CheckAndExtract(fs: Fs, env: Env, dest: Path, folder: Path, checksum: string, digest: Bytes -> string,
                         xenv: ExtractEnv, tmpDir: Path, prog: seq<nat>)
    returns (out: InstallOutcome)
    ensures out == AfterDownload(fs, env, dest, folder, checksum, digest, xenv, tmpDir, prog)
  {
    if checksum != "" {
      var ok := VerifyChecksum(fs, dest, checksum, digest);
      if ok.Failure? {
        return InstallOutcome(Failure(ChecksumReadFailed), fs, prog, []);
      }
      if !ok.value {
        return InstallOutcome(Failure(ChecksumMismatch), fs, prog, []);
      }
    }
    var x := TryExtract(fs, dest, tmpDir, folder, xenv);
    if !x.ok {
      return InstallOutcome(Failure(ExtractionFailed), x.fs, prog, x.delays);
    }
    var cur := MkdirAll(x.fs, ConfigDir(env));
    cur := MkdirAll(cur, NginxConfigDir(env));
    cur := MkdirAll(cur, PhpConfigDir(env));
    return InstallOutcome(Success(dest), cur, prog + [100], x.delays);
  }

  method InstallTool(fs: Fs, env: Env, toolName: string, version: string, url: string, checksum: string,
                     resp: Response, digest: Bytes -> string, xenv: ExtractEnv, tmpDir: Path)
    returns (out: InstallOutcome)
    ensures out == InstallSpec(fs, env, toolName, version, url, checksum, resp, digest, xenv, tmpDir)
  {
    var folder := Join(Join(BinDir(env), toolName), version);
    var dest := Join(folder, FileName(url, env.platform));
    var d := Download(MkdirAll(fs, Dirname(dest)), dest, resp);
    var progress := Scaled(d.progress);
    if d.result.Failure? {
      return InstallOutcome(Failure(DownloadFailed(d.result.error)), d.fs, progress, []);
    }
    out := CheckAndExtract(d.fs, env, dest, folder, checksum, digest, xenv, tmpDir, progress);
  }

  /** The server delivered a whole body with a status below 400. */
  predicate DownloadOk(resp: Response)
  {
    resp.Reply? && resp.status < 400 && !resp.streamError
  }

  /** No checksum was given, or the body's digest equals it (after one optional `sha256:`). */
  predicate ChecksumAccepts(checksum: string, body: Bytes, digest: Bytes -> string)
  {
    checksum == "" || digest(body) == ExpectedHex(checksum)
  }

  /** Creating the parent folder twice is creating it once. */
  lemma DownloadAfterMkdir(fs: Fs, dest: Path, resp: Response)
    ensures DownloadSpec(MkdirAll(fs, Dirname(dest)), dest, resp) == DownloadSpec(fs, dest, resp)
  {
    var fs0 := MkdirAll(fs, Dirname(dest));
    assert MkdirAll(fs0, Dirname(dest)) == fs0;
  }

  /** The steps after a complete download, for any artifact path and target folder. */
  lemma AfterDownloadFacts(fs: Fs, env: Env, dest: Path, folder: Path, checksum: string, digest: Bytes -> string,
                           xenv: ExtractEnv, tmpDir: Path, prog: seq<nat>)
    requires dest in fs.files && Disjoint(tmpDir, folder) && !Under(tmpDir, dest)
    requires KindOf(LastSegment(dest)) != PlainFile ==> DistinctNames(xenv.unpacked)
    ensures var out := AfterDownload(fs, env, dest, folder, checksum, digest, xenv, tmpDir, prog);
      && out.result != Failure(ChecksumReadFailed)
      && (out.result == Failure(ChecksumMismatch) <==> !ChecksumAccepts(checksum, fs.files[dest], digest))
      && (out.result.Success? <==>
            ChecksumAccepts(checksum, fs.files[dest], digest) && exists j :: 0 <= j < MaxAttempts && MovesAll(dest, xenv, j))
      && (out.result.Failure? ==> out.progress == prog)
      && (out.result.Success? ==>
            && out.result.value == dest
            && out.progress == prog + [100]
            && ConfigDir(env) in out.fs.dirs && NginxConfigDir(env) in out.fs.dirs && PhpConfigDir(env) in out.fs.dirs
            && forall e :: e in Staged(fs, dest, xenv).value ==>
                 folder + [e.name] in out.fs.files && out.fs.files[folder + [e.name]] == e.content)
  {
    TryFromOkIff(fs, dest, tmpDir, folder, xenv, 0);
    forall j | 0 <= j < MaxAttempts ensures CanSucceed(fs, dest, xenv, j) == MovesAll(dest, xenv, j) {
    }
  }

  /**
   * Which error `installTool` throws: the download's own error first, then a
   * mismatch of a given checksum, then a failed extraction. Reading the
   * freshly downloaded file for the checksum never fails.
   */
  lemma InstallFailureCause(fs: Fs, env: Env, dest: Path, folder: Path, checksum: string,
                            resp: Response, digest: Bytes -> string, xenv: ExtractEnv, tmpDir: Path)
    requires Disjoint(tmpDir, folder) && !Under(tmpDir, dest)
    requires KindOf(LastSegment(dest)) != PlainFile ==> DistinctNames(xenv.unpacked)
    ensures var out := InstallAt(fs, env, dest, folder, checksum, resp, digest, xenv, tmpDir);
      && (out.result.Failure? && out.result.error.DownloadFailed? <==> !DownloadOk(resp))
      && (!DownloadOk(resp) ==> out.delays == [])
      && out.result != Failure(ChecksumReadFailed)
      && (out.result == Failure(ChecksumMismatch) <==> DownloadOk(resp) && !ChecksumAccepts(checksum, Concat(resp.chunks), digest))
  {
    DownloadAfterMkdir(fs, dest, resp);
    var d := DownloadSpec(fs, dest, resp);
    if DownloadOk(resp) {
      assert d.result.Success? && dest in d.fs.files && d.fs.files[dest] == Concat(resp.chunks);
      AfterDownloadFacts(d.fs, env, dest, folder, checksum, digest, xenv, tmpDir, Scaled(d.progress));
    }
  }

  /**
   * `installTool` resolves exactly when the download and the checksum are
   * good and one of the three extraction attempts can move everything; it
   * then returns the artifact's path, has reported 100, has put every
   * extracted entry into the folder and has created the config folders.
   */
  lemma InstallOkIff(fs: Fs, env: Env, dest: Path, folder: Path, checksum: string,
                     resp: Response, digest: Bytes -> string, xenv: ExtractEnv, tmpDir: Path)
    requires Disjoint(tmpDir, folder) && !Under(tmpDir, dest)
    requires KindOf(LastSegment(dest)) != PlainFile ==> DistinctNames(xenv.unpacked)
    ensures var out := InstallAt(fs, env, dest, folder, checksum, resp, digest, xenv, tmpDir);
      && (out.result.Success? <==>
            DownloadOk(resp) && ChecksumAccepts(checksum, Concat(resp.chunks), digest)
            && exists j :: 0 <= j < MaxAttempts && MovesAll(dest, xenv, j))
      && (out.result.Success? ==>
            && out.result.value == dest
            && out.progress[|out.progress| - 1] == 100
            && ConfigDir(env) in out.fs.dirs && NginxConfigDir(env) in out.fs.dirs && PhpConfigDir(env) in out.fs.dirs
            && forall e :: e in Staged(DownloadSpec(fs, dest, resp).fs, dest, xenv).value ==>
                 folder + [e.name] in out.fs.files && out.fs.files[folder + [e.name]] == e.content)
  {
    DownloadAfterMkdir(fs, dest, resp);
    var d := DownloadSpec(fs, dest, resp);
    if DownloadOk(resp) {
      assert d.result.Success? && dest in d.fs.files && d.fs.files[dest] == Concat(resp.chunks);
      AfterDownloadFacts(d.fs, env, dest, folder, checksum, digest, xenv, tmpDir, Scaled(d.progress));
    }
  }

  /** The announced content length, if any, is not exceeded by the body. */
  predicate HonestLength(resp: Response)
  {
    resp.Reply? ==> resp.contentLength == 0 || |Concat(resp.chunks)| <= resp.contentLength
  }

  /**
   * The progress `installTool` reports never goes down and stays within
   * 0..100; everything above 70 is the single final 100 of a success.
   */
  lemma InstallProgress(fs: Fs, env: Env, dest: Path, folder: Path, checksum: string,
                        resp: Response, digest: Bytes -> string, xenv: ExtractEnv, tmpDir: Path)
    requires HonestLength(resp)
    ensures var ps := InstallAt(fs, env, dest, folder, checksum, resp, digest, xenv, tmpDir).progress;
      && (forall i, j :: 0 <= i <= j < |ps| ==> ps[i] <= ps[j])
      && (forall i :: 0 <= i < |ps| ==> ps[i] <= 100)
      && (forall i :: 0 <= i < |ps| && ps[i] > 70 ==>
            i == |ps| - 1 && InstallAt(fs, env, dest, folder, checksum, resp, digest, xenv, tmpDir).result.Success?)
  {
    var out := InstallAt(fs, env, dest, folder, checksum, resp, digest, xenv, tmpDir);
    DownloadAfterMkdir(fs, dest, resp);
    var d := DownloadSpec(fs, dest, resp);
    DownloadProgressShape(fs, dest, resp);
    ScaledShape(d.progress);
    var prog := Scaled(d.progress);
    if d.result.Success? {
      AfterDownloadProgress(d.fs, env, dest, folder, checksum, digest, xenv, tmpDir, prog);
      FinalHundred(prog);
    }
  }

  /** The download's own reports never decrease and stay within 0..100. */
  lemma DownloadProgressShape(fs: Fs, dest: Path, resp: Response)
    requires HonestLength(resp)
    ensures var ps := DownloadSpec(fs, dest, resp).progress;
      && (forall i, j :: 0 <= i <= j < |ps| ==> ps[i] <= ps[j])
      && (forall i :: 0 <= i < |ps| ==> ps[i] <= 100)
  {
    var ps := DownloadSpec(fs, dest, resp).progress;
    if resp.Reply? {
      ReportsShape(resp.chunks, resp.contentLength);
      assert ps == [] || ps == Reports(resp.chunks, resp.contentLength);
      forall i | 0 <= i < |ps| ensures ps[i] <= 100 {
        assert ps[i] in Reports(resp.chunks, resp.contentLength);
      }
    }
  }

  /** Mapping into the download band keeps the order and stays within 0..70. */
  lemma ScaledShape(ps: seq<nat>)
    requires forall i, j :: 0 <= i <= j < |ps| ==> ps[i] <= ps[j]
    requires forall i :: 0 <= i < |ps| ==> ps[i] <= 100
    ensures var qs := Scaled(ps);
      && (forall i, j :: 0 <= i <= j < |qs| ==> qs[i] <= qs[j])
      && (forall i :: 0 <= i < |qs| ==> qs[i] <= 70)
  {
    var qs := Scaled(ps);
    forall i | 0 <= i < |qs| ensures qs[i] <= 70 {
      OverallBounds(ps[i]);
    }
    forall i, j | 0 <= i <= j < |qs| ensures qs[i] <= qs[j] {
      OverallMonotone(ps[i], ps[j]);
    }
  }

  /** After the download, progress gains one final 100 on success and nothing otherwise. */
  lemma AfterDownloadProgress(fs: Fs, env: Env, dest: Path, folder: Path, checksum: string, digest: Bytes -> string,
                              xenv: ExtractEnv, tmpDir: Path, prog: seq<nat>)
    ensures var out := AfterDownload(fs, env, dest, folder, checksum, digest, xenv, tmpDir, prog);
      (out.result.Success? && out.progress == prog + [100]) || (out.result.Failure? && out.progress == prog)
  {
  }

  /** A final 100 after reports within 0..70 keeps the order and is the only report above 70. */
  lemma FinalHundred(prog: seq<nat>)
    requires forall i, j :: 0 <= i <= j < |prog| ==> prog[i] <= prog[j]
    requires forall i :: 0 <= i < |prog| ==> prog[i] <= 70
    ensures var ps := prog + [100];
      && (forall i, j :: 0 <= i <= j < |ps| ==> ps[i] <= ps[j])
      && (forall i :: 0 <= i < |ps| ==> ps[i] <= 100)
      && (forall i :: 0 <= i < |ps| && ps[i] > 70 ==> i == |ps| - 1)
  {
  }


  /** An install changes files only in the tool's folder and the staging directory. */
  lemma InstallFrame(fs: Fs, env: Env, dest: Path, folder: Path, checksum: string,
                     resp: Response, digest: Bytes -> string, xenv: ExtractEnv, tmpDir: Path)
    requires Under(folder, dest)
    ensures SameOutside(fs, InstallAt(fs, env, dest, folder, checksum, resp, digest, xenv, tmpDir).fs, tmpDir, folder)
  {
    DownloadAfterMkdir(fs, dest, resp);
    var d := DownloadSpec(fs, dest, resp);
    DownloadNoPartialFile(fs, dest, resp);
    assert SameOutside(fs, d.fs, tmpDir, folder);
    TryFromFrame(d.fs, dest, tmpDir, folder, xenv, 0);
  }

  /** What `uninstallTool(toolName, version)` removes: the version's folder, or with no version the whole tool. */
  function UninstallTarget(env: Env, toolName: string, version: string): Path
  {
    if version != "" then Join(Join(BinDir(env), toolName), version) else Join(BinDir(env), toolName)
  }

  /** `uninstallTool`: a forced recursive remove, so a missing folder is not an error. */
  function Uninstall(fs: Fs, env: Env, toolName: string, version: string): Fs
  {
    RemoveTree(fs, UninstallTarget(env, toolName, version))
  }

  /**
   * Uninstalling a version removes every file of that version's install
   * folder; uninstalling without a version removes the files of every
   * version; uninstalling twice is uninstalling once.
   */
  lemma UninstallRemovesInstall(fs: Fs, env: Env, toolName: string, version: string)
    ensures version != "" ==>
      forall q :: q in Uninstall(fs, env, toolName, version).files ==> !Under(InstallDir(env, toolName, version), q)
    ensures version == "" ==> forall v, q :: q in Uninstall(fs, env, toolName, version).files ==> !Under(InstallDir(env, toolName, v), q)
    ensures Uninstall(Uninstall(fs, env, toolName, version), env, toolName, version) == Uninstall(fs, env, toolName, version)
  {
    var t := UninstallTarget(env, toolName, version);
    RemoveTreeIdempotent(fs, t);
    if version == "" {
      forall v, q | q in Uninstall(fs, env, toolName, version).files ensures !Under(InstallDir(env, toolName, v), q) {
        var dir := InstallDir(env, toolName, v);
        assert Under(t, dir);
        UnderTransitive(t, dir, q);
      }
    }
  }

  /**
   * Uninstalling never touches the config or log folders; with an empty tool
   * name and no version it removes every installed tool.
   */
  lemma UninstallScope(fs: Fs, env: Env, toolName: string, version: string)
    ensures forall q :: Under(ConfigDir(env), q) || Under(LogDir(env), q) ==>
      (q in Uninstall(fs, env, toolName, version).files <==> q in fs.files)
    ensures toolName == "" && version == "" ==>
      forall q :: q in Uninstall(fs, env, toolName, version).files ==> !Under(BinDir(env), q)
  {
    var b := BinDir(env);
    var t := UninstallTarget(env, toolName, version);
    LayoutIsATree(env);
    forall q | Under(ConfigDir(env), q) || Under(LogDir(env), q)
      ensures q in Uninstall(fs, env, toolName, version).files <==> q in fs.files
    {
      assert Under(b, t);
      UnderTransitive(b, t, q);
    }
  }
}
