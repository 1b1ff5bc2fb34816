/**
 * The file system as the installer sees it: a map from file path to contents
 * plus the set of directories that exist. A path is the list of its segments
 * from the root; `path.join` drops empty segments, and so does `Join`.
 */
module FileSystem {

  newtype byte = x: int | 0 <= x < 256

  type Bytes = seq<byte>

  type Path = seq<string>

  datatype Fs = Fs(files: map<Path, Bytes>, dirs: set<Path>)

  /** `path.join(p, seg)` for a single segment: an empty segment adds nothing. */
  function Join(p: Path, seg: string): Path
  {
    if seg == "" then p else p + [seg]
  }

  /** `path.dirname`: the path without its last segment. */
  function Dirname(p: Path): Path
  {
    if p == [] then [] else p[..|p| - 1]
  }

  /** `p` is `base` itself or lies somewhere below it. */
  predicate Under(base: Path, p: Path)
  {
    |base| <= |p| && p[..|base|] == base
  }

  /** `p` lies strictly below `base`. */
  predicate StrictlyUnder(base: Path, p: Path)
  {
    |base| < |p| && p[..|base|] == base
  }

  /** Every non-empty prefix of `p`: what `mkdir -p p` leaves in place. */
  function Ancestors(p: Path): set<Path>
  {
    set i | 1 <= i <= |p| :: p[..i]
  }

  /** `fs.mkdir(p, { recursive: true })`. */
  function MkdirAll(fs: Fs, p: Path): (r: Fs)
    ensures r.files == fs.files
    ensures p != [] ==> p in r.dirs
    ensures fs.dirs <= r.dirs
    ensures forall d :: d in r.dirs && d !in fs.dirs ==> d != [] && Under(d, p)
  {
    assert p != [] ==> p[..|p|] == p && p[..|p|] in Ancestors(p);
    Fs(fs.files, fs.dirs + Ancestors(p))
  }

  /**
   * `fs.rm(p, { recursive: true, force: true })`: everything at or below `p`
   * goes, a missing `p` is not an error.
   */
  function RemoveTree(fs: Fs, p: Path): (r: Fs)
    ensures forall q :: q in r.files <==> q in fs.files && !Under(p, q)
    ensures forall q :: q in r.files ==> r.files[q] == fs.files[q]
    ensures forall d :: d in r.dirs <==> d in fs.dirs && !Under(p, d)
  {
    Fs(map q | q in fs.files && !Under(p, q) :: fs.files[q],
       set d | d in fs.dirs && !Under(p, d))
  }

  /** Removing a tree twice is the same as removing it once. */
  lemma RemoveTreeIdempotent(fs: Fs, p: Path)
    ensures RemoveTree(RemoveTree(fs, p), p) == RemoveTree(fs, p)
  {
    var once := RemoveTree(fs, p);
    var twice := RemoveTree(once, p);
    assert twice.files.Keys == once.files.Keys;
    assert twice.dirs == once.dirs;
  }

  /** Being under is transitive. */
  lemma UnderTransitive(a: Path, b: Path, c: Path)
    ensures Under(a, b) && Under(b, c) ==> Under(a, c)
  {
    if Under(a, b) && Under(b, c) {
      assert c[..|a|] == c[..|b|][..|a|];
    }
  }
}
