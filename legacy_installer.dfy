/**
 * The older installer: the same download and checksum, but the artifact goes
 * below `userData/tools`, progress is passed on unscaled, extraction writes
 * straight into the folder without retries, and its result is ignored.
 */
module LegacyInstaller {
  import opened Wrappers
  import opened FileSystem
  import opened PathService
  import opened ToolInstaller

  /** `userData/tools/<toolName>/<version>`. */
  function LegacyFolder(env: Env, toolName: string, version: string): Path
  {
    Join(Join(Join(env.userData, "tools"), toolName), version)
  }

  /** `userData/tools/<toolName>/<version>/<fileName>`. */
  function LegacyArtifactPath(env: Env, toolName: string, version: string, url: string): Path
  {
    Join(LegacyFolder(env, toolName, version), FileName(url, env.platform))
  }

  /** With non-empty names the artifact path has exactly four segments below `userData`. */
  lemma LegacyArtifactLayout(env: Env, toolName: string, version: string, url: string)
    requires toolName != "" && version != "" && FileName(url, env.platform) != ""
    ensures LegacyArtifactPath(env, toolName, version, url)
      == env.userData + ["tools", toolName, version, FileName(url, env.platform)]
    ensures Dirname(LegacyArtifactPath(env, toolName, version, url)) == LegacyFolder(env, toolName, version)
  {
    var name := FileName(url, env.platform);
    JoinFour(env.userData, "tools", toolName, version, name);
  }

  lemma JoinFour(u: Path, a: string, b: string, c: string, d: string)
    requires a != "" && b != "" && c != "" && d != ""
    ensures Join(Join(Join(Join(u, a), b), c), d) == u + [a, b, c, d]
    ensures Dirname(u + [a, b, c, d]) == Join(Join(Join(u, a), b), c)
  {
    var folder := u + [a, b, c];
    assert Join(Join(Join(u, a), b), c) == folder;
    assert folder + [d] == u + [a, b, c, d];
    assert (u + [a, b, c, d])[..|u| + 3] == folder;
  }


  /**
   * What the archive library does here: the entries of the archive, whether
   * it throws, and how many entries it has written into the folder when it
   * throws (the libraries write entry by entry and undo nothing).
   */
  datatype LegacyExtractEnv = LegacyExtractEnv(unpacked: seq<Entry>, extractOk: bool, written: nat)

  /** The entries that reach the folder: all of them, or the prefix written before the library threw. */
  function WrittenEntries(xenv: LegacyExtractEnv): (r: seq<Entry>)
    ensures xenv.extractOk ==> r == xenv.unpacked
    ensures |r| <= |xenv.unpacked| && r == xenv.unpacked[..|r|]
    ensures !xenv.extractOk ==> |r| == if xenv.written <= |xenv.unpacked| then xenv.written else |xenv.unpacked|
  {
    if xenv.extractOk then xenv.unpacked
    else if xenv.written <= |xenv.unpacked| then xenv.unpacked[..xenv.written]
    else xenv.unpacked
  }

  /**
   * `tryExtract(filePath, destDir)`: a `.zip`, `.tar.gz` or `.tgz` is
   * unpacked straight into `destDir`, and an error of the archive library
   * gives false with the entries written so far left in place; anything
   * else gives false and writes nothing.
   */
  function LegacyExtract(fs: Fs, filePath: Path, destDir: Path, xenv: LegacyExtractEnv): (r: MoveOutcome)
    ensures r.ok <==> KindOf(LastSegment(filePath)) != PlainFile && xenv.extractOk
    ensures KindOf(LastSegment(filePath)) == PlainFile ==> r.fs == fs
    ensures r.fs.dirs == fs.dirs
    ensures forall q :: q in fs.files && !StrictlyUnder(destDir, q) ==> q in r.fs.files && r.fs.files[q] == fs.files[q]
  {
    if KindOf(LastSegment(filePath)) != PlainFile then
      WriteEntriesFrame(fs, destDir, WrittenEntries(xenv));
      MoveOutcome(xenv.extractOk, WriteEntries(fs, destDir, WrittenEntries(xenv)))
    else MoveOutcome(false, fs)
  }

  /**
   * Extraction into the final folder is not atomic: when the library throws
   * after writing some entries, the call reports failure while those entries
   * stay in the folder with their contents.
   */
  lemma LegacyFailedExtractionLeavesPartialFolder(fs: Fs, filePath: Path, destDir: Path, xenv: LegacyExtractEnv)
    requires KindOf(LastSegment(filePath)) != PlainFile && !xenv.extractOk
    requires DistinctNames(xenv.unpacked)
    ensures var r := LegacyExtract(fs, filePath, destDir, xenv);
      && !r.ok
      && forall i :: 0 <= i < xenv.written && i < |xenv.unpacked| ==>
           destDir + [xenv.unpacked[i].name] in r.fs.files
           && r.fs.files[destDir + [xenv.unpacked[i].name]] == xenv.unpacked[i].content
  {
    var es := WrittenEntries(xenv);
    assert DistinctNames(es);
    WriteEntriesContent(fs, destDir, es);
    forall i | 0 <= i < xenv.written && i < |xenv.unpacked|
      ensures xenv.unpacked[i] in es
    {
      assert es[i] == xenv.unpacked[i];
    }
  }

  datatype LegacyError = LegacyDownloadFailed(cause: DownloadError) | LegacyChecksumReadFailed | LegacyChecksumMismatch

  datatype LegacyOutcome = LegacyOutcome(result: Result<Path, LegacyError>, fs: Fs, progress: seq<nat>)

  /**
   * `installTool` of the older installer, with an empty `checksum` meaning
   * none was given; progress is the download's own percentages.
   */
  function LegacyInstallSpec(fs: Fs, env: Env, toolName: string, version: string, url: string, checksum: string,
                             resp: Response, digest: Bytes -> string, xenv: LegacyExtractEnv): LegacyOutcome
  {
    LegacyInstallAt(fs, LegacyArtifactPath(env, toolName, version, url), LegacyFolder(env, toolName, version),
                    checksum, resp, digest, xenv)
  }

  /** The older `installTool` once the artifact path `dest` and its folder are fixed. */
  function LegacyInstallAt(fs: Fs, dest: Path, folder: Path, checksum: string,
                           resp: Response, digest: Bytes -> string, xenv: LegacyExtractEnv): LegacyOutcome
  {
    var d := DownloadSpec(MkdirAll(fs, Dirname(dest)), dest, resp);
    if d.result.Failure? then LegacyOutcome(Failure(LegacyDownloadFailed(d.result.error)), d.fs, d.progress)
    else if checksum != "" && VerifyChecksum(d.fs, dest, checksum, digest).Failure? then
      LegacyOutcome(Failure(LegacyChecksumReadFailed), d.fs, d.progress)
    else if checksum != "" && VerifyChecksum(d.fs, dest, checksum, digest) == Success(false) then
      LegacyOutcome(Failure(LegacyChecksumMismatch), d.fs, d.progress)
    else
      LegacyOutcome(Success(dest), LegacyExtract(d.fs, dest, folder, xenv).fs, d.progress)
  }

  method LegacyInstallTool(fs: Fs, env: Env, toolName: string, version: string, url: string, checksum: string,
                           resp: Response, digest: Bytes -> string, xenv: LegacyExtractEnv)
    returns (out: LegacyOutcome)
    ensures out == LegacyInstallSpec(fs, env, toolName, version, url, checksum, resp, digest, xenv)
  {
    var folder := Join(Join(Join(env.userData, "tools"), toolName), version);
    var dest := Join(folder, FileName(url, env.platform));
    var d := Download(MkdirAll(fs, Dirname(dest)), dest, resp);
    if d.result.Failure? {
      return LegacyOutcome(Failure(LegacyDownloadFailed(d.result.error)), d.fs, d.progress);
    }
    if checksum != "" {
      var ok := VerifyChecksum(d.fs, dest, checksum, digest);
      if ok.Failure? {
        return LegacyOutcome(Failure(LegacyChecksumReadFailed), d.fs, d.progress);
      }
      if !ok.value {
        return LegacyOutcome(Failure(LegacyChecksumMismatch), d.fs, d.progress);
      }
    }
    var x := LegacyExtract(d.fs, dest, folder, xenv);
    return LegacyOutcome(Success(dest), x.fs, d.progress);
  }

  /**
   * The older `installTool` resolves with the artifact path exactly when the
   * download and the checksum are good, whatever extraction does; a plain
   * file leaves the file system as the download left it.
   */
  lemma LegacyResultIgnoresExtraction(fs: Fs, dest: Path, folder: Path, checksum: string,
                                      resp: Response, digest: Bytes -> string, xenv: LegacyExtractEnv)
    ensures var out := LegacyInstallAt(fs, dest, folder, checksum, resp, digest, xenv);
      && (out.result == Success(dest) <==> DownloadOk(resp) && ChecksumAccepts(checksum, Concat(resp.chunks), digest))
      && out.result != Failure(LegacyChecksumReadFailed)
      && (out.result.Success? && KindOf(LastSegment(dest)) == PlainFile ==> out.fs == DownloadSpec(fs, dest, resp).fs)
  {
    DownloadAfterMkdir(fs, dest, resp);
    var d := DownloadSpec(fs, dest, resp);
    if DownloadOk(resp) {
      assert d.result.Success? && dest in d.fs.files && d.fs.files[dest] == Concat(resp.chunks);
    }
  }

  /**
   * Progress is the raw download percentage: never decreasing, within
   * 0..100 for an honest length, and no separate 100 is reported at the end.
   */
  lemma LegacyProgress(fs: Fs, dest: Path, folder: Path, checksum: string,
                       resp: Response, digest: Bytes -> string, xenv: LegacyExtractEnv)
    requires HonestLength(resp)
    ensures var ps := LegacyInstallAt(fs, dest, folder, checksum, resp, digest, xenv).progress;
      && (ps == [] || (resp.Reply? && ps == Reports(resp.chunks, resp.contentLength)))
      && (forall i, j :: 0 <= i <= j < |ps| ==> ps[i] <= ps[j])
      && (forall i :: 0 <= i < |ps| ==> ps[i] <= 100)
  {
    DownloadAfterMkdir(fs, dest, resp);
    var d := DownloadSpec(fs, dest, resp);
    var ps := d.progress;
    assert LegacyInstallAt(fs, dest, folder, checksum, resp, digest, xenv).progress == ps;
    if resp.Reply? {
      ReportsShape(resp.chunks, resp.contentLength);
      forall i | 0 <= i < |ps| ensures ps[i] <= 100 {
        assert ps[i] in Reports(resp.chunks, resp.contentLength);
      }
    }
  }
}
