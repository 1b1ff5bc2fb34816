/**
 * The process supervisor: a record from tool name to its process and an
 * in-memory log buffer, the per-tool log files, and the executable search
 * used when the configured path does not exist. Spawning, killing and the
 * clock are parameters: a spawn either yields a process id or an error
 * message, and timestamps arrive as text.
 */
module AppManager {
  import opened Wrappers
  import opened Strings
  import opened FileSystem
  import opened PathService

  // ---------------------------------------------------------------------------
  // Executable search

  /** A directory entry as `readdir(..., { withFileTypes: true })` reports it. */
  datatype DirEntry =
    | File(name: string)
    | Dir(name: string, listing: Listing)
    | Other(name: string)

  /** The entries of a directory in listing order, or a directory `readdir` cannot read. */
  datatype Listing = Readable(entries: seq<DirEntry>) | Unreadable

  /** The suffix an executable carries: `.exe` on win32, nothing elsewhere. */
  function Ext(platform: Platform): string
  {
    if platform == Win32 then ".exe" else ""
  }

  /** A file named like the tool, compared in lower case. */
  predicate NameMatches(name: string, tool: string, platform: Platform)
  {
    ToLower(name) == ToLower(tool + Ext(platform))
  }

  /** A file the search returns: a matching name, or on win32 any `.exe`. */
  predicate Picks(name: string, tool: string, platform: Platform)
  {
    NameMatches(name, tool, platform) || (platform == Win32 && EndsWith(ToLower(name), ".exe"))
  }

  const MaxDepth: nat := 3

  /**
   * `findExecutable(dir, depth)`: depth-first in listing order; past depth 3
   * or in an unreadable directory nothing is found.
   */
  function Find(dir: Path, l: Listing, depth: nat, tool: string, platform: Platform): Option<Path>
    decreases l
  {
    if depth > MaxDepth then None
    else match l
      case Unreadable => None
      case Readable(es) => FindFrom(dir, es, 0, depth, tool, platform)
  }

  /** The loop of `findExecutable` from entry `i` on. */
  function FindFrom(dir: Path, es: seq<DirEntry>, i: nat, depth: nat, tool: string, platform: Platform): Option<Path>
    requires i <= |es|
    decreases es, |es| - i
  {
    if i == |es| then None
    else match es[i]
      case File(n) => if Picks(n, tool, platform) then Some(dir + [n]) else FindFrom(dir, es, i + 1, depth, tool, platform)
      case Dir(n, sub) =>
        var found := Find(dir + [n], sub, depth + 1, tool, platform);
        if found.Some? then found else FindFrom(dir, es, i + 1, depth, tool, platform)
      case Other(_) => FindFrom(dir, es, i + 1, depth, tool, platform)
  }

  /** Some file the search accepts lies within reach: readable directories, depth at most 3. */
  predicate HasPick(l: Listing, depth: nat, tool: string, platform: Platform)
    decreases l
  {
    depth <= MaxDepth && l.Readable? &&
    exists i :: 0 <= i < |l.entries| && EntryHasPick(l.entries[i], depth, tool, platform)
  }

  predicate EntryHasPick(e: DirEntry, depth: nat, tool: string, platform: Platform)
    decreases e
  {
    match e
      case File(n) => Picks(n, tool, platform)
      case Dir(_, sub) => HasPick(sub, depth + 1, tool, platform)
      case Other(_) => false
  }

  method FindExecutable(dir: Path, l: Listing, depth: nat, tool: string, platform: Platform) returns (r: Option<Path>)
    ensures r == Find(dir, l, depth, tool, platform)
    decreases l
  {
    if depth > MaxDepth || l.Unreadable? {
      return None;
    }
    var es := l.entries;
    var i := 0;
    while i < |es|
      invariant 0 <= i <= |es|
      invariant Find(dir, l, depth, tool, platform) == FindFrom(dir, es, i, depth, tool, platform)
    {
      var e := es[i];
      var p := dir + [e.name];
      if e.File? {
        if ToLower(e.name) == ToLower(tool + Ext(platform)) {
          return Some(p);
        }
        if platform == Win32 && EndsWith(ToLower(e.name), ".exe") {
          return Some(p);
        }
      } else if e.Dir? {
        var found := FindExecutable(p, e.listing, depth + 1, tool, platform);
        if found.Some? {
          return found;
        }
      }
      i := i + 1;
    }
    return None;
  }

  /**
   * The search finds something exactly when an accepted file is within
   * reach; what it returns lies below `dir`, at most `4 - depth` levels down,
   * and names an accepted file.
   */
  lemma {:induction false} FindCorrect(dir: Path, l: Listing, depth: nat, tool: string, platform: Platform)
    ensures var r := Find(dir, l, depth, tool, platform);
      && (r.Some? <==> HasPick(l, depth, tool, platform))
      && (r.Some? ==> StrictlyUnder(dir, r.value) && |r.value| + depth <= |dir| + MaxDepth + 1
                      && Picks(r.value[|r.value| - 1], tool, platform))
    decreases l, 1
  {
    if depth <= MaxDepth && l.Readable? {
      FindFromCorrect(dir, l.entries, 0, depth, tool, platform);
    }
  }

  lemma {:induction false} FindFromCorrect(dir: Path, es: seq<DirEntry>, i: nat, depth: nat, tool: string, platform: Platform)
    requires i <= |es| && depth <= MaxDepth
    ensures var r := FindFrom(dir, es, i, depth, tool, platform);
      && (r.Some? <==> exists j :: i <= j < |es| && EntryHasPick(es[j], depth, tool, platform))
      && (r.Some? ==> StrictlyUnder(dir, r.value) && |r.value| + depth <= |dir| + MaxDepth + 1
                      && Picks(r.value[|r.value| - 1], tool, platform))
    decreases es, |es| - i
  {
    if i < |es| {
      FindFromUnfold(dir, es, i, depth, tool, platform);
      EntryFindCorrect(dir, es[i], depth, tool, platform);
      FindFromCorrect(dir, es, i + 1, depth, tool, platform);
      PickAtOrAfter(es, i, depth, tool, platform);
    }
  }

  /** What entry `e` alone yields: a matching file, or the first pick in a sub-directory. */
  function EntryFind(dir: Path, e: DirEntry, depth: nat, tool: string, platform: Platform): Option<Path>
  {
    match e
      case File(n) => if Picks(n, tool, platform) then Some(dir + [n]) else None
      case Dir(n, sub) => Find(dir + [n], sub, depth + 1, tool, platform)
      case Other(_) => None
  }

  lemma FindFromUnfold(dir: Path, es: seq<DirEntry>, i: nat, depth: nat, tool: string, platform: Platform)
    requires i < |es|
    ensures FindFrom(dir, es, i, depth, tool, platform)
      == (var f := EntryFind(dir, es[i], depth, tool, platform);
          if f.Some? then f else FindFrom(dir, es, i + 1, depth, tool, platform))
  {
  }

  lemma EntryFindCorrect(dir: Path, e: DirEntry, depth: nat, tool: string, platform: Platform)
    requires depth <= MaxDepth
    ensures var r := EntryFind(dir, e, depth, tool, platform);
      && (r.Some? <==> EntryHasPick(e, depth, tool, platform))
      && (r.Some? ==> StrictlyUnder(dir, r.value) && |r.value| + depth <= |dir| + MaxDepth + 1
                      && Picks(r.value[|r.value| - 1], tool, platform))
    decreases e, 0
  {
    match e
    case File(n) =>
      ChildStrictlyUnder(dir, n);
    case Other(_) =>
    case Dir(n, sub) =>
      FindCorrect(dir + [n], sub, depth + 1, tool, platform);
      var found := Find(dir + [n], sub, depth + 1, tool, platform);
      if found.Some? {
        UnderChildStrictlyUnder(dir, n, found.value);
      }
  }

  /** Some entry from `i` on has a pick exactly when entry `i` has one or some entry after it does. */
  lemma PickAtOrAfter(es: seq<DirEntry>, i: nat, depth: nat, tool: string, platform: Platform)
    requires i < |es|
    ensures (exists j :: i <= j < |es| && EntryHasPick(es[j], depth, tool, platform))
      <==> EntryHasPick(es[i], depth, tool, platform) || exists j :: i + 1 <= j < |es| && EntryHasPick(es[j], depth, tool, platform)
  {
    if exists j :: i <= j < |es| && EntryHasPick(es[j], depth, tool, platform) {
      var j :| i <= j < |es| && EntryHasPick(es[j], depth, tool, platform);
      if j > i {
        assert i + 1 <= j;
      }
    }
  }

  lemma ChildStrictlyUnder(dir: Path, n: string)
    ensures StrictlyUnder(dir, dir + [n]) && (dir + [n])[|dir|] == n
  {
    assert (dir + [n])[..|dir|] == dir;
  }

  lemma UnderChildStrictlyUnder(dir: Path, n: string, p: Path)
    requires StrictlyUnder(dir + [n], p)
    ensures StrictlyUnder(dir, p)
  {
    assert p[..|dir|] == (dir + [n])[..|dir|];
  }



  /**
   * Every file the search accepts within reach, in depth-first listing
   * order: a directory's own entries in turn, each sub-directory's files
   * before the entries after it.
   */
  function Candidates(dir: Path, l: Listing, depth: nat, tool: string, platform: Platform): seq<Path>
    decreases l
  {
    if depth > MaxDepth then []
    else match l
      case Unreadable => []
      case Readable(es) => CandidatesFrom(dir, es, 0, depth, tool, platform)
  }

  function CandidatesFrom(dir: Path, es: seq<DirEntry>, i: nat, depth: nat, tool: string, platform: Platform): seq<Path>
    requires i <= |es|
    decreases es, |es| - i
  {
    if i == |es| then [] else EntryCandidates(dir, es[i], depth, tool, platform) + CandidatesFrom(dir, es, i + 1, depth, tool, platform)
  }

  function EntryCandidates(dir: Path, e: DirEntry, depth: nat, tool: string, platform: Platform): seq<Path>
    decreases e
  {
    match e
      case File(n) => if Picks(n, tool, platform) then [dir + [n]] else []
      case Dir(n, sub) => Candidates(dir + [n], sub, depth + 1, tool, platform)
      case Other(_) => []
  }

  /** The head of a list, if any. */
  function Head(ps: seq<Path>): Option<Path>
  {
    if ps == [] then None else Some(ps[0])
  }

  /** The search returns the first accepted file in depth-first listing order, and nothing when there is none. */
  lemma {:induction false} FindIsFirstCandidate(dir: Path, l: Listing, depth: nat, tool: string, platform: Platform)
    ensures Find(dir, l, depth, tool, platform) == Head(Candidates(dir, l, depth, tool, platform))
    decreases l, 1
  {
    if depth <= MaxDepth && l.Readable? {
      FindFromIsFirstCandidate(dir, l.entries, 0, depth, tool, platform);
    }
  }

  lemma {:induction false} FindFromIsFirstCandidate(dir: Path, es: seq<DirEntry>, i: nat, depth: nat, tool: string, platform: Platform)
    requires i <= |es|
    ensures FindFrom(dir, es, i, depth, tool, platform) == Head(CandidatesFrom(dir, es, i, depth, tool, platform))
    decreases es, |es| - i
  {
    if i < |es| {
      FindFromUnfold(dir, es, i, depth, tool, platform);
      EntryFindIsFirstCandidate(dir, es[i], depth, tool, platform);
      FindFromIsFirstCandidate(dir, es, i + 1, depth, tool, platform);
      HeadOfAppend(EntryCandidates(dir, es[i], depth, tool, platform), CandidatesFrom(dir, es, i + 1, depth, tool, platform));
    }
  }

  lemma EntryFindIsFirstCandidate(dir: Path, e: DirEntry, depth: nat, tool: string, platform: Platform)
    ensures EntryFind(dir, e, depth, tool, platform) == Head(EntryCandidates(dir, e, depth, tool, platform))
    decreases e, 0
  {
    match e
    case File(_) =>
    case Other(_) =>
    case Dir(n, sub) =>
      FindIsFirstCandidate(dir + [n], sub, depth + 1, tool, platform);
  }

  lemma HeadOfAppend(a: seq<Path>, b: seq<Path>)
    ensures Head(a + b) == if a != [] then Head(a) else Head(b)
  {
    if a == [] {
      assert a + b == b;
    }
  }

  /** On win32 the first `.exe` in listing order wins over a later exact match. */
  lemma FirstExeWinsOnWindows(dir: Path)
    ensures Find(dir, Readable([File("helper.exe"), File("nginx.exe")]), 0, "nginx", Win32) == Some(dir + ["helper.exe"])
  {
    assert EndsWith(ToLower("helper.exe"), ".exe");
  }

  /** A match three levels down is found; one four levels down is not. */
  lemma SearchDepthBoundary(dir: Path)
    ensures Find(dir, Readable([Dir("a", Readable([Dir("b", Readable([Dir("c", Readable([File("php")]))]))]))]), 0, "php", Posix)
         == Some(dir + ["a", "b", "c", "php"])
    ensures Find(dir, Readable([Dir("a", Readable([Dir("b", Readable([Dir("c", Readable([Dir("d", Readable([File("php")]))]))]))]))]), 0, "php", Posix)
         == None
  {
    assert NameMatches("php", "php", Posix);
    assert dir + ["a"] + ["b"] + ["c"] + ["php"] == dir + ["a", "b", "c", "php"];
  }

  // ---------------------------------------------------------------------------
  // Supervisor state

  /** What `procs[tool]` holds: a process (absent in a log-only entry) and the newest log lines. */
  datatype ProcEntry = ProcEntry(proc: Option<nat>, logs: seq<string>)

  /** The record of entries, the contents of each tool's log file, and the processes sent a kill. */
  datatype State = State(procs: map<string, ProcEntry>, logFiles: map<string, string>, killed: seq<nat>)

  const LogCap: nat := 500

  /** `slice(-500)`: the last 500 elements, or all of them when there are fewer. */
  function Newest(s: seq<string>): (r: seq<string>)
    ensures |r| == if |s| <= LogCap then |s| else LogCap
    ensures r == s[|s| - |r|..]
  {
    if |s| <= LogCap then s else s[|s| - LogCap..]
  }

  /** `logs.push(line)` and, once there are more than 500, one `shift()`. */
  function Push(logs: seq<string>, line: string): seq<string>
  {
    var l := logs + [line];
    if |l| > LogCap then l[1..] else l
  }

  /** Pushing the given lines one by one. */
  function PushAll(logs: seq<string>, lines: seq<string>): seq<string>
  {
    if lines == [] then logs else Push(PushAll(logs, lines[..|lines| - 1]), lines[|lines| - 1])
  }

  /**
   * A buffer that starts within the cap holds, after any number of pushes,
   * exactly the newest 500 of all its lines, in arrival order.
   */
  lemma {:induction false} PushAllKeepsNewest(logs: seq<string>, lines: seq<string>)
    requires |logs| <= LogCap
    ensures PushAll(logs, lines) == Newest(logs + lines)
    decreases |lines|
  {
    if lines != [] {
      var init, last := lines[..|lines| - 1], lines[|lines| - 1];
      calc {
        PushAll(logs, lines);
        Push(PushAll(logs, init), last);
        { PushAllKeepsNewest(logs, init); }
        Push(Newest(logs + init), last);
        { PushNewest(logs + init, last); }
        Newest((logs + init) + [last]);
        { assert (logs + init) + [last] == logs + lines; }
        Newest(logs + lines);
      }
    }
  }

  /** Pushing onto the newest lines of `s` gives the newest lines of `s` with the new line. */
  lemma PushNewest(s: seq<string>, line: string)
    ensures Push(Newest(s), line) == Newest(s + [line])
  {
    var b := Newest(s);
    var all := s + [line];
    if |b + [line]| > LogCap {
      assert |s| >= LogCap;
      assert (b + [line])[1..] == all[|all| - LogCap..];
    } else {
      assert b == s;
    }
  }


  predicate LogsBounded(s: State)
  {
    forall t :: t in s.procs ==> |s.procs[t].logs| <= LogCap
  }

  /** The in-memory lines of `tool`: `procs[tool]?.logs || []`. */
  function Memory(s: State, tool: string): seq<string>
  {
    if tool in s.procs then s.procs[tool].logs else []
  }

  /** The text of the tool's log file; a missing file reads as empty. */
  function FileText(s: State, tool: string): string
  {
    if tool in s.logFiles then s.logFiles[tool] else ""
  }

  /**
   * `appendLog(tool, line)` taken as one step: when the log folder can be
   * created and the file appended to (`writable`), the line and a newline go
   * to `<tool>.log` and the line is pushed to the buffer, creating the entry
   * if there is none; otherwise nothing changes.
   */
  function AppendLogSpec(s: State, tool: string, line: string, writable: bool): State
  {
    if !writable then s
    else
      var e := if tool in s.procs then s.procs[tool] else ProcEntry(None, []);
      s.(procs := s.procs[tool := e.(logs := Push(e.logs, line))],
         logFiles := s.logFiles[tool := FileText(s, tool) + line + "\n"])
  }

  /** The configured executable: an absolute path, or one relative to the bin folder. */
  datatype ExecPath = Absolute(path: Path) | Relative(rel: Path)

  function Resolve(env: Env, exec: ExecPath): (r: Path)
    ensures exec.Relative? ==> Under(BinDir(env), r)
  {
    match exec
      case Absolute(p) => p
      case Relative(p) => BinDir(env) + p
  }

  /** What `spawn` does: the process starts, or its `error` event fires. */
  datatype Spawn = Spawned(pid: nat) | SpawnFailed(message: string)

  datatype StartError = AlreadyRunning | ExecutableNotFound(resolved: Path) | SpawnError(message: string)

  datatype StartOutcome = StartOutcome(state: State, result: Result<Path, StartError>)

  /**
   * `startToolProcess(tool, execPath)`: refused while an entry exists; the
   * path is resolved and, when nothing exists there (`resolvedExists` is
   * false), searched for below its folder, whose tree is `tree`; a spawn
   * error logs and rejects; a started process is registered with an empty
   * buffer and then logs its start time `now`.
   */
  function StartSpec(s: State, env: Env, tool: string, exec: ExecPath, resolvedExists: bool, tree: Listing,
                     spawn: Spawn, writable: bool, now: string): StartOutcome
  {
    if tool in s.procs then StartOutcome(s, Failure(AlreadyRunning))
    else
      var resolved := Resolve(env, exec);
      var target := if resolvedExists then Some(resolved) else Find(Dirname(resolved), tree, 0, tool, env.platform);
      if target.None? then StartOutcome(s, Failure(ExecutableNotFound(resolved)))
      else match spawn
        case SpawnFailed(msg) =>
          StartOutcome(AppendLogSpec(s, tool, "[ERR] Spawn error: " + msg, writable), Failure(SpawnError(msg)))
        case Spawned(pid) =>
          var s1 := s.(procs := s.procs[tool := ProcEntry(Some(pid), [])]);
          StartOutcome(AppendLogSpec(s1, tool, "Started " + tool + " at " + now, writable), Success(target.value))
  }

  datatype StopError = NotRunning | NoProcess

  datatype StopOutcome = StopOutcome(state: State, result: Result<nat, StopError>)

  /**
   * `stopToolProcess(tool)`: no entry rejects with `Not running`; a log-only
   * entry has no process to kill, so the call throws (`NoProcess`); otherwise
   * the kill is sent, a line is logged and the entry stays.
   */
  function StopSpec(s: State, tool: string, writable: bool, now: string): StopOutcome
  {
    if tool !in s.procs then StopOutcome(s, Failure(NotRunning))
    else if s.procs[tool].proc.None? then StopOutcome(s, Failure(NoProcess))
    else
      var pid := s.procs[tool].proc.value;
      var s1 := s.(killed := s.killed + [pid]);
      StopOutcome(AppendLogSpec(s1, tool, "Stop requested " + tool + " at " + now, writable), Success(pid))
  }

  /** Which output stream of the child a chunk came from. */
  datatype Stream = Stdout | Stderr

  /** A chunk of child output: trimmed and logged with its stream's tag. */
  function OutputSpec(s: State, tool: string, stream: Stream, data: string, writable: bool): State
  {
    var tag := if stream == Stdout then "[OUT] " else "[ERR] ";
    AppendLogSpec(s, tool, tag + Trim(data), writable)
  }

  /** The exit handler as evidently intended: log the exit, then drop the entry. */
  function ExitSpec(s: State, tool: string, info: string, writable: bool): State
  {
    var s1 := AppendLogSpec(s, tool, "Process exited " + info, writable);
    s1.(procs := s1.procs - {tool})
  }

  /**
   * The exit handler as written: `appendLog` is not awaited, so the entry is
   * deleted first and the log line lands afterwards.
   */
  function ExitAsWritten(s: State, tool: string, info: string, writable: bool): State
  {
    AppendLogSpec(s.(procs := s.procs - {tool}), tool, "Process exited " + info, writable)
  }

  /** `isRunning(tool)`: an entry exists, whether or not it holds a process. */
  predicate Running(s: State, tool: string)
  {
    tool in s.procs
  }

  // ---------------------------------------------------------------------------
  // Log view

  /** `text.split('\n')`: the pieces between newlines, always at least one. */
  function Split(text: string): (r: seq<string>)
    ensures |r| >= 1
    ensures forall i :: 0 <= i < |r| ==> '\n' !in r[i]
  {
    if text == [] then [""]
    else if text[|text| - 1] == '\n' then Split(text[..|text| - 1]) + [""]
    else
      var r := Split(text[..|text| - 1]);
      r[..|r| - 1] + [r[|r| - 1] + [text[|text| - 1]]]
  }

  /** `filter(Boolean)` on strings: the non-empty ones, in order. */
  function NonEmpty(ls: seq<string>): (r: seq<string>)
    ensures forall l :: l in r <==> l in ls && l != ""
  {
    if ls == [] then []
    else if ls[|ls| - 1] == "" then NonEmpty(ls[..|ls| - 1])
    else NonEmpty(ls[..|ls| - 1]) + [ls[|ls| - 1]]
  }

  /** The file a sequence of `appendLog` calls writes: each line followed by a newline. */
  function JoinLines(lines: seq<string>): string
  {
    if lines == [] then "" else JoinLines(lines[..|lines| - 1]) + lines[|lines| - 1] + "\n"
  }

  predicate CleanLine(l: string)
  {
    l != "" && '\n' !in l
  }

  lemma {:induction false} SplitAppendText(text: string, l: string)
    requires '\n' !in l
    ensures var r := Split(text);
      Split(text + l) == r[..|r| - 1] + [r[|r| - 1] + l]
    decreases |l|
  {
    var r := Split(text);
    if l != [] {
      var init, c := l[..|l| - 1], l[|l| - 1];
      assert l == init + [c];
      assert '\n' !in init;
      var r1 := Split(text + init);
      calc {
        Split(text + l);
        { assert text + l == (text + init) + [c]; }
        Split((text + init) + [c]);
        { SplitSnoc(text + init, c); }
        r1[..|r1| - 1] + [r1[|r1| - 1] + [c]];
        { SplitAppendText(text, init); LastReplaced(r, r[|r| - 1] + init); }
        r[..|r| - 1] + [r[|r| - 1] + init + [c]];
        { assert r[|r| - 1] + init + [c] == r[|r| - 1] + l; }
        r[..|r| - 1] + [r[|r| - 1] + l];
      }
    } else {
      assert text + l == text;
      assert r[|r| - 1] + l == r[|r| - 1];
      assert r[..|r| - 1] + [r[|r| - 1]] == r;
    }
  }

  /** Replacing the last line of `r` by `x` leaves the lines before it and ends with `x`. */
  lemma LastReplaced(r: seq<string>, x: string)
    requires |r| >= 1
    ensures var r1 := r[..|r| - 1] + [x];
      |r1| == |r| && r1[..|r1| - 1] == r[..|r| - 1] && r1[|r1| - 1] == x
  {
  }

  /** A character other than a newline joins the last line. */
  lemma SplitSnoc(text: string, c: char)
    requires c != '\n'
    ensures var r := Split(text);
      Split(text + [c]) == r[..|r| - 1] + [r[|r| - 1] + [c]]
  {
    var t := text + [c];
    assert t != [] && t[|t| - 1] == c && t[..|t| - 1] == text;
  }

  /** A newline closes the last line and opens an empty one. */
  lemma SplitNewline(text: string)
    ensures Split(text + "\n") == Split(text) + [""]
  {
    var t := text + "\n";
    assert t != [] && t[|t| - 1] == '\n' && t[..|t| - 1] == text;
  }

  lemma {:induction false} SplitJoinLines(lines: seq<string>)
    requires forall i :: 0 <= i < |lines| ==> CleanLine(lines[i])
    ensures Split(JoinLines(lines)) == lines + [""]
    decreases |lines|
  {
    if lines != [] {
      var init, last := lines[..|lines| - 1], lines[|lines| - 1];
      assert forall i :: 0 <= i < |init| ==> CleanLine(init[i]) by {
        forall i | 0 <= i < |init| ensures CleanLine(init[i]) {
          assert init[i] == lines[i];
        }
      }
      assert CleanLine(last);
      var t := JoinLines(init);
      var r := init + [""];
      calc {
        Split(JoinLines(lines));
        { assert JoinLines(lines) == (t + last) + "\n"; }
        Split((t + last) + "\n");
        { SplitNewline(t + last); }
        Split(t + last) + [""];
        { SplitAppendText(t, last); SplitJoinLines(init); }
        r[..|r| - 1] + [r[|r| - 1] + last] + [""];
        { assert r[..|r| - 1] == init && r[|r| - 1] + last == last; }
        init + [last] + [""];
        { assert init + [last] == lines; }
        lines + [""];
      }
    }
  }


  lemma {:induction false} NonEmptyOfClean(lines: seq<string>)
    requires forall i :: 0 <= i < |lines| ==> CleanLine(lines[i])
    ensures NonEmpty(lines + [""]) == lines
    ensures NonEmpty(lines) == lines
  {
    assert (lines + [""])[..|lines|] == lines;
    if lines != [] {
      NonEmptyOfClean(lines[..|lines| - 1]);
      assert lines[..|lines| - 1] + [lines[|lines| - 1]] == lines;
    }
  }

  /** The lines a log file holds when written by `appendLog` calls with clean lines. */
  lemma FileLinesRoundTrip(lines: seq<string>)
    requires forall i :: 0 <= i < |lines| ==> CleanLine(lines[i])
    ensures NonEmpty(Split(JoinLines(lines))) == lines
  {
    SplitJoinLines(lines);
    NonEmptyOfClean(lines);
  }

  /** `pieces.join('\n')`: the pieces with a newline between each two. */
  function JoinNewline(pieces: seq<string>): string
    requires |pieces| >= 1
  {
    if |pieces| == 1 then pieces[0] else JoinNewline(pieces[..|pieces| - 1]) + "\n" + pieces[|pieces| - 1]
  }

  /** One more piece adds a newline and the piece. */
  lemma JoinNewlineSnoc(ps: seq<string>, x: string)
    requires |ps| >= 1
    ensures JoinNewline(ps + [x]) == JoinNewline(ps) + "\n" + x
  {
    var q := ps + [x];
    assert q[..|q| - 1] == ps;
  }

  /** Extending the last piece extends the joined text. */
  lemma JoinNewlineExtendLast(ps: seq<string>, s: string)
    requires |ps| >= 1
    ensures JoinNewline(ps[..|ps| - 1] + [ps[|ps| - 1] + s]) == JoinNewline(ps) + s
  {
    var q := ps[..|ps| - 1] + [ps[|ps| - 1] + s];
    if |ps| > 1 {
      var j := JoinNewline(ps[..|ps| - 1]);
      assert q[..|q| - 1] == ps[..|ps| - 1];
      assert j + "\n" + (ps[|ps| - 1] + s) == (j + "\n" + ps[|ps| - 1]) + s;
    }
  }

  /** Joining the pieces of a text with newlines gives the text back. */
  lemma {:induction false} SplitJoinsBack(text: string)
    ensures JoinNewline(Split(text)) == text
    decreases |text|
  {
    if text != [] {
      var init, c := text[..|text| - 1], text[|text| - 1];
      assert text == init + [c];
      SplitJoinsBack(init);
      if c == '\n' {
        SplitNewline(init);
        JoinNewlineSnoc(Split(init), "");
        assert init + "\n" + "" == text;
      } else {
        SplitSnoc(init, c);
        JoinNewlineExtendLast(Split(init), [c]);
      }
    }
  }

  /** A text without a newline is one piece. */
  lemma SplitSingle(l: string)
    requires '\n' !in l
    ensures Split(l) == [l]
  {
    SplitAppendText("", l);
    assert "" + l == l;
  }

  /** A newline and a newline-free piece after a text add that piece. */
  lemma SplitNewlinePiece(a: string, last: string)
    requires '\n' !in last
    ensures Split(a + "\n" + last) == Split(a) + [last]
  {
    SplitNewline(a);
    SplitAppendText(a + "\n", last);
    var r := Split(a) + [""];
    assert r[..|r| - 1] == Split(a) && r[|r| - 1] + last == last;
  }

  /** Splitting newline-free pieces joined with newlines gives the pieces back. */
  lemma {:induction false} SplitOfJoin(pieces: seq<string>)
    requires |pieces| >= 1
    requires forall i :: 0 <= i < |pieces| ==> '\n' !in pieces[i]
    ensures Split(JoinNewline(pieces)) == pieces
    decreases |pieces|
  {
    if |pieces| == 1 {
      SplitSingle(pieces[0]);
    } else {
      var init, last := pieces[..|pieces| - 1], pieces[|pieces| - 1];
      assert forall i :: 0 <= i < |init| ==> '\n' !in init[i] by {
        forall i | 0 <= i < |init| ensures '\n' !in init[i] {
          assert init[i] == pieces[i];
        }
      }
      assert pieces == init + [last];
      SplitOfJoin(init);
      JoinNewlineSnoc(init, last);
      SplitNewlinePiece(JoinNewline(init), last);
    }
  }

  /** `filter(Boolean)` of a single line. */
  lemma NonEmptyOne(l: string)
    ensures NonEmpty([l]) == if l == "" then [] else [l]
  {
    assert [l][..0] == [];
  }

  /** `filter(Boolean)` works piece by piece: it keeps order and repeats. */
  lemma {:induction false} NonEmptyAppend(a: seq<string>, b: seq<string>)
    ensures NonEmpty(a + b) == NonEmpty(a) + NonEmpty(b)
    decreases |b|
  {
    if b == [] {
      assert a + b == a;
    } else {
      var init, last := b[..|b| - 1], b[|b| - 1];
      assert (a + b)[..|a + b| - 1] == a + init;
      assert (a + b)[|a + b| - 1] == last;
      NonEmptyAppend(a, init);
    }
  }

  // ---------------------------------------------------------------------------
  // Reading back a log file written line by line

  /** The non-empty pieces of each logged line, in order: what the file reads back as. */
  function LoggedLines(lines: seq<string>): seq<string>
  {
    if lines == [] then [] else LoggedLines(lines[..|lines| - 1]) + NonEmpty(Split(lines[|lines| - 1]))
  }

  /** The pieces of `ra` and `rb` with the last of `ra` and the first of `rb` joined into one. */
  function Glue(ra: seq<string>, rb: seq<string>): seq<string>
    requires |ra| >= 1 && |rb| >= 1
  {
    ra[..|ra| - 1] + [ra[|ra| - 1] + rb[0]] + rb[1..]
  }

  /** Splitting a concatenation joins the last piece of the first text to the first piece of the second. */
  lemma {:induction false} SplitConcat(a: string, b: string)
    ensures Split(a + b) == Glue(Split(a), Split(b))
    decreases |b|
  {
    if b == [] {
      assert a + b == a;
      GlueEmpty(Split(a));
    } else {
      var b0, c := b[..|b| - 1], b[|b| - 1];
      assert b == b0 + [c];
      ConcatSnoc(a, b0, c);
      SplitConcat(a, b0);
      if c == '\n' {
        SplitNewline(a + b0);
        SplitNewline(b0);
        GlueSnocPiece(Split(a), Split(b0), "");
      } else {
        SplitSnoc(a + b0, c);
        SplitSnoc(b0, c);
        SplitConcatSnoc(Split(a), Split(b0), [c]);
      }
    }
  }

  /** Gluing on the pieces of the empty text changes nothing. */
  lemma GlueEmpty(ra: seq<string>)
    requires |ra| >= 1
    ensures Glue(ra, [""]) == ra
  {
    assert ra[|ra| - 1] + "" == ra[|ra| - 1];
  }

  /** A piece added after `rb` is added after the glued pieces. */
  lemma GlueSnocPiece(ra: seq<string>, rb0: seq<string>, x: string)
    requires |ra| >= 1 && |rb0| >= 1
    ensures Glue(ra, rb0 + [x]) == Glue(ra, rb0) + [x]
  {
    var rb := rb0 + [x];
    assert rb[0] == rb0[0] && rb[1..] == rb0[1..] + [x];
  }

  lemma ConcatSnoc(a: string, b0: string, c: char)
    ensures a + (b0 + [c]) == (a + b0) + [c]
  {
  }

  /** The sequence step behind `SplitConcat` when a character joins the last piece. */
  lemma SplitConcatSnoc(ra: seq<string>, rb0: seq<string>, c: string)
    requires |ra| >= 1 && |rb0| >= 1
    ensures var r0 := Glue(ra, rb0);
      r0[..|r0| - 1] + [r0[|r0| - 1] + c] == Glue(ra, rb0[..|rb0| - 1] + [rb0[|rb0| - 1] + c])
  {
    var r0 := Glue(ra, rb0);
    var rb := rb0[..|rb0| - 1] + [rb0[|rb0| - 1] + c];
    if |rb0| == 1 {
      assert r0 == ra[..|ra| - 1] + [ra[|ra| - 1] + rb0[0]];
      assert rb == [rb0[0] + c] && rb[1..] == [];
      assert ra[|ra| - 1] + rb0[0] + c == ra[|ra| - 1] + (rb0[0] + c);
    } else {
      assert rb[0] == rb0[0] && rb[1..] == rb0[1..|rb0| - 1] + [rb0[|rb0| - 1] + c];
      assert r0[..|r0| - 1] == ra[..|ra| - 1] + [ra[|ra| - 1] + rb0[0]] + rb0[1..|rb0| - 1];
    }
  }

  /** A text written by `appendLog` calls is empty or ends with a newline, so its last piece is empty. */
  lemma JoinLinesEndsEmpty(lines: seq<string>)
    ensures var r := Split(JoinLines(lines)); r[|r| - 1] == ""
  {
    if lines != [] {
      SplitNewline(JoinLines(lines[..|lines| - 1]) + lines[|lines| - 1]);
    }
  }

  /**
   * A log file written by `appendLog` calls with any lines, newlines and
   * empty lines included, reads back as the non-empty pieces of each line in
   * the order they were logged.
   */
  lemma {:induction false} FileReadsLoggedLines(lines: seq<string>)
    ensures NonEmpty(Split(JoinLines(lines))) == LoggedLines(lines)
    decreases |lines|
  {
    if lines != [] {
      var init, last := lines[..|lines| - 1], lines[|lines| - 1];
      var a := JoinLines(init);
      var ra, rb := Split(a), Split(last + "\n");
      var head := ra[..|ra| - 1];
      calc {
        NonEmpty(Split(JoinLines(lines)));
        { assert JoinLines(lines) == a + (last + "\n"); }
        NonEmpty(Split(a + (last + "\n")));
        { LoggedSplit(a, init, last); }
        NonEmpty(head + rb);
        { NonEmptyAppend(head, rb); }
        NonEmpty(head) + NonEmpty(rb);
        { DropEmptyLast(ra); }
        NonEmpty(ra) + NonEmpty(rb);
        { FileReadsLoggedLines(init); SplitNewline(last); DropEmptyLast(rb); }
        LoggedLines(init) + NonEmpty(Split(last));
      }
    }
  }

  /** The pieces of a logged file followed by one more logged line. */
  lemma LoggedSplit(a: string, init: seq<string>, last: string)
    requires a == JoinLines(init)
    ensures var ra := Split(a);
      Split(a + (last + "\n")) == ra[..|ra| - 1] + Split(last + "\n")
  {
    SplitConcat(a, last + "\n");
    JoinLinesEndsEmpty(init);
    JoinAfterEmptyPiece(Split(a), Split(last + "\n"));
  }

  /** Appending to an empty last piece just continues with the other pieces. */
  lemma JoinAfterEmptyPiece(ra: seq<string>, rb: seq<string>)
    requires |ra| >= 1 && |rb| >= 1 && ra[|ra| - 1] == ""
    ensures Glue(ra, rb) == ra[..|ra| - 1] + rb
  {
    assert ra[|ra| - 1] + rb[0] == rb[0];
    assert [rb[0]] + rb[1..] == rb;
  }

  /** An empty last piece contributes nothing to `filter(Boolean)`. */
  lemma DropEmptyLast(r: seq<string>)
    requires |r| >= 1 && r[|r| - 1] == ""
    ensures NonEmpty(r) == NonEmpty(r[..|r| - 1])
  {
  }

  /**
   * `getToolLogs(tool)`: the newest 500 of the file's non-empty lines
   * followed by the buffer; when the log folder cannot be created, the buffer.
   */
  function ToolLogsSpec(s: State, tool: string, dirOk: bool): seq<string>
  {
    if dirOk then Newest(NonEmpty(Split(FileText(s, tool))) + Memory(s, tool)) else Memory(s, tool)
  }

  // ---------------------------------------------------------------------------
  // Properties of the state functions

  /** Logging keeps each buffer within 500 lines. */
  lemma AppendLogKeepsLogsBounded(s: State, tool: string, line: string, writable: bool)
    requires LogsBounded(s)
    ensures LogsBounded(AppendLogSpec(s, tool, line, writable))
  {
  }

  /** Starting keeps each buffer within 500 lines. */
  lemma StartKeepsLogsBounded(s: State, env: Env, tool: string, exec: ExecPath, resolvedExists: bool, tree: Listing,
                              spawn: Spawn, writable: bool, now: string)
    requires LogsBounded(s)
    ensures LogsBounded(StartSpec(s, env, tool, exec, resolvedExists, tree, spawn, writable, now).state)
  {
    match spawn
    case SpawnFailed(msg) =>
      AppendLogKeepsLogsBounded(s, tool, "[ERR] Spawn error: " + msg, writable);
    case Spawned(pid) =>
      var s1 := s.(procs := s.procs[tool := ProcEntry(Some(pid), [])]);
      AppendLogKeepsLogsBounded(s1, tool, "Started " + tool + " at " + now, writable);
  }

  /** Stopping, output and exit keep each buffer within 500 lines. */
  lemma OthersKeepLogsBounded(s: State, tool: string, writable: bool, now: string, line: string, stream: Stream)
    requires LogsBounded(s)
    ensures LogsBounded(StopSpec(s, tool, writable, now).state)
    ensures LogsBounded(OutputSpec(s, tool, stream, line, writable))
    ensures LogsBounded(ExitSpec(s, tool, line, writable))
    ensures LogsBounded(ExitAsWritten(s, tool, line, writable))
  {
    if tool in s.procs && s.procs[tool].proc.Some? {
      var s1 := s.(killed := s.killed + [s.procs[tool].proc.value]);
      AppendLogKeepsLogsBounded(s1, tool, "Stop requested " + tool + " at " + now, writable);
    }
    AppendLogKeepsLogsBounded(s, tool, (if stream == Stdout then "[OUT] " else "[ERR] ") + Trim(line), writable);
    AppendLogKeepsLogsBounded(s, tool, "Process exited " + line, writable);
    AppendLogKeepsLogsBounded(s.(procs := s.procs - {tool}), tool, "Process exited " + line, writable);
  }

  /**
   * `appendLog` creates an entry when there is none, so a tool can count as
   * running with no process; no other tool's entry or file changes.
   */
  lemma AppendLogCreatesEntry(s: State, tool: string, line: string)
    requires tool !in s.procs
    ensures var s' := AppendLogSpec(s, tool, line, true);
      && Running(s', tool) && s'.procs[tool] == ProcEntry(None, [line])
      && FileText(s', tool) == FileText(s, tool) + line + "\n"
      && (forall t :: t != tool ==> Memory(s', t) == Memory(s, t) && FileText(s', t) == FileText(s, t))
  {
  }

  /** A start while an entry exists is refused before anything else happens. */
  lemma StartRefusedWhileEntryExists(s: State, env: Env, tool: string, exec: ExecPath, resolvedExists: bool, tree: Listing,
                                     spawn: Spawn, writable: bool, now: string)
    ensures var o := StartSpec(s, env, tool, exec, resolvedExists, tree, spawn, writable, now);
      (o.result == Failure(AlreadyRunning) <==> Running(s, tool)) && (Running(s, tool) ==> o.state == s)
  {
  }

  /**
   * A start succeeds exactly when the path exists or the search finds an
   * executable, and the spawn works; the tool then runs that process with the
   * start line as its only buffered line. A relative path lies under bin.
   */
  lemma StartSucceeds(s: State, env: Env, tool: string, exec: ExecPath, resolvedExists: bool, tree: Listing,
                      spawn: Spawn, writable: bool, now: string)
    requires !Running(s, tool)
    ensures var o := StartSpec(s, env, tool, exec, resolvedExists, tree, spawn, writable, now);
      && (o.result.Success? <==>
            (resolvedExists || HasPick(tree, 0, tool, env.platform)) && spawn.Spawned?)
      && (o.result.Success? ==>
            && o.state.procs[tool].proc == Some(spawn.pid)
            && o.state.procs[tool].logs == (if writable then ["Started " + tool + " at " + now] else [])
            && (resolvedExists ==> o.result.value == Resolve(env, exec))
            && (!resolvedExists ==> StrictlyUnder(Dirname(Resolve(env, exec)), o.result.value)))
      && (o.result == Failure(ExecutableNotFound(Resolve(env, exec))) <==>
            !resolvedExists && !HasPick(tree, 0, tool, env.platform))
  {
    FindCorrect(Dirname(Resolve(env, exec)), tree, 0, tool, env.platform);
  }

  /**
   * A failed spawn logs through `appendLog`, which leaves a log-only entry:
   * the tool then counts as running, every later start is refused, and a
   * stop throws because there is no process to kill.
   */
  lemma SpawnFailureBlocksRestart(s: State, env: Env, tool: string, exec: ExecPath, resolvedExists: bool, tree: Listing,
                                  msg: string, now: string, spawn2: Spawn, writable2: bool, now2: string)
    requires !Running(s, tool)
    requires resolvedExists
    ensures var s1 := StartSpec(s, env, tool, exec, resolvedExists, tree, SpawnFailed(msg), true, now).state;
      && Running(s1, tool)
      && StartSpec(s1, env, tool, exec, resolvedExists, tree, spawn2, writable2, now2).result == Failure(AlreadyRunning)
      && StopSpec(s1, tool, writable2, now2).result == Failure(NoProcess)
  {
  }

  /** Stopping sends the kill and logs, but the entry stays until the process exits. */
  lemma StopKeepsEntry(s: State, tool: string, writable: bool, now: string)
    ensures var o := StopSpec(s, tool, writable, now);
      && (o.result == Failure(NotRunning) <==> !Running(s, tool))
      && (o.result.Success? <==> Running(s, tool) && s.procs[tool].proc.Some?)
      && (o.result.Success? ==>
            Running(o.state, tool) && o.state.killed == s.killed + [o.result.value]
            && o.state.procs[tool].proc == s.procs[tool].proc)
      && (o.result.Failure? ==> o.state == s)
  {
  }

  /** With the intended order the exit removes the entry, and the tool can be started again. */
  lemma ExitAllowsRestart(s: State, env: Env, tool: string, info: string, writable: bool,
                          exec: ExecPath, tree: Listing, pid: nat, now: string)
    ensures !Running(ExitSpec(s, tool, info, writable), tool)
    ensures StartSpec(ExitSpec(s, tool, info, writable), env, tool, exec, true, tree, Spawned(pid), writable, now).result.Success?
    ensures writable ==> FileText(ExitSpec(s, tool, info, writable), tool) == FileText(s, tool) + "Process exited " + info + "\n"
  {
    var s1 := ExitSpec(s, tool, info, writable);
    assert tool !in s1.procs;
    StartWithoutEntry(s1, env, tool, exec, tree, pid, writable, now);
  }

  /** With no entry, an executable that exists and a spawn that succeeds, the start succeeds. */
  lemma StartWithoutEntry(s: State, env: Env, tool: string, exec: ExecPath, tree: Listing, pid: nat, writable: bool, now: string)
    requires tool !in s.procs
    ensures StartSpec(s, env, tool, exec, true, tree, Spawned(pid), writable, now).result == Success(Resolve(env, exec))
  {
  }

  /**
   * As written, the exit line lands after the delete and re-creates a
   * log-only entry: the tool still counts as running and can never be
   * started again.
   */
  lemma ExitAsWrittenBlocksRestart(s: State, env: Env, tool: string, info: string,
                                   exec: ExecPath, resolvedExists: bool, tree: Listing, spawn: Spawn, writable: bool, now: string)
    ensures var s1 := ExitAsWritten(s, tool, info, true);
      && Running(s1, tool) && s1.procs[tool] == ProcEntry(None, ["Process exited " + info])
      && StartSpec(s1, env, tool, exec, resolvedExists, tree, spawn, writable, now).result == Failure(AlreadyRunning)
  {
  }

  /** `appendLog(tool, line)` for each line in turn, with the log folder writable. */
  function LogAll(s: State, tool: string, lines: seq<string>): State
  {
    if lines == [] then s else AppendLogSpec(LogAll(s, tool, lines[..|lines| - 1]), tool, lines[|lines| - 1], true)
  }

  /** One writable `appendLog` pushes onto the tool's buffer and appends the line and a newline to its file. */
  lemma AppendLogStep(s: State, tool: string, line: string)
    ensures Memory(AppendLogSpec(s, tool, line, true), tool) == Push(Memory(s, tool), line)
    ensures FileText(AppendLogSpec(s, tool, line, true), tool) == FileText(s, tool) + line + "\n"
  {
  }

  /** Logging lines for a tool with no entry and no file leaves them pushed onto an empty buffer and joined in the file. */
  lemma {:induction false} LogAllState(s: State, tool: string, lines: seq<string>)
    requires tool !in s.procs && tool !in s.logFiles
    ensures Memory(LogAll(s, tool, lines), tool) == PushAll([], lines)
    ensures FileText(LogAll(s, tool, lines), tool) == JoinLines(lines)
    decreases |lines|
  {
    if lines != [] {
      var init, last := lines[..|lines| - 1], lines[|lines| - 1];
      LogAllState(s, tool, init);
      AppendLogStep(LogAll(s, tool, init), tool, last);
    }
  }

  /**
   * After a fresh tool logs any lines, the view is the newest 500 of the
   * file's non-empty pieces followed by the buffer, which is the newest 500
   * lines; without the log folder it is the buffer alone.
   */
  lemma LogViewAfterLogging(s: State, tool: string, lines: seq<string>)
    requires tool !in s.procs && tool !in s.logFiles
    ensures ToolLogsSpec(LogAll(s, tool, lines), tool, true) == Newest(LoggedLines(lines) + Newest(lines))
    ensures ToolLogsSpec(LogAll(s, tool, lines), tool, false) == Newest(lines)
  {
    var t := LogAll(s, tool, lines);
    LogAllState(s, tool, lines);
    PushAllKeepsNewest([], lines);
    assert [] + lines == lines;
    FileReadsLoggedLines(lines);
    ViewOf(t, tool, Newest(lines), JoinLines(lines));
  }

  /** The view read off a tool's buffer and file text. */
  lemma ViewOf(s: State, tool: string, mem: seq<string>, text: string)
    requires Memory(s, tool) == mem && FileText(s, tool) == text
    ensures ToolLogsSpec(s, tool, true) == Newest(NonEmpty(Split(text)) + mem)
    ensures ToolLogsSpec(s, tool, false) == mem
  {
  }

  /**
   * The log view repeats the buffer: the file already holds every buffered
   * line, so while a fresh tool has logged at most 250 clean lines the view
   * shows each of them twice, once from the file and once from the buffer.
   */
  lemma LogViewRepeatsBuffer(s: State, tool: string, lines: seq<string>)
    requires tool !in s.procs && tool !in s.logFiles && |lines| <= 250
    requires forall i :: 0 <= i < |lines| ==> CleanLine(lines[i])
    ensures ToolLogsSpec(LogAll(s, tool, lines), tool, true) == lines + lines
    ensures ToolLogsSpec(LogAll(s, tool, lines), tool, false) == lines
  {
    LogAllState(s, tool, lines);
    PushAllKeepsNewest([], lines);
    assert [] + lines == lines;
    FileLinesRoundTrip(lines);
  }

  /** Once a fresh tool has logged 500 lines or more, the buffer fills the view and each line shows once. */
  lemma LogViewIsBufferAfterLongRun(s: State, tool: string, lines: seq<string>)
    requires tool !in s.procs && tool !in s.logFiles && |lines| >= LogCap
    ensures ToolLogsSpec(LogAll(s, tool, lines), tool, true) == Newest(lines)
    ensures |Newest(lines)| == LogCap
  {
    LogViewAfterLogging(s, tool, lines);
    var f, m := LoggedLines(lines), Newest(lines);
    assert (f + m)[|f + m| - LogCap..] == m;
  }

  /** The view is at most 500 lines and ends with the newest buffered lines. */
  lemma ToolLogsShape(s: State, tool: string, dirOk: bool)
    requires LogsBounded(s)
    ensures var v := ToolLogsSpec(s, tool, dirOk);
      && |v| <= LogCap
      && (dirOk ==> v == Newest(NonEmpty(Split(FileText(s, tool))) + Memory(s, tool)))
      && (|v| >= |Memory(s, tool)| ==> v[|v| - |Memory(s, tool)|..] == Memory(s, tool))
  {
    var v := ToolLogsSpec(s, tool, dirOk);
    var m := Memory(s, tool);
    if dirOk && |v| >= |m| {
      var all := NonEmpty(Split(FileText(s, tool))) + m;
      assert v == all[|all| - |v|..];
      assert all[|all| - |m|..] == m;
    }
  }

  // ---------------------------------------------------------------------------
  // The supervisor object

  class Supervisor {
    var procs: map<string, ProcEntry>
    var logFiles: map<string, string>
    var killed: seq<nat>

    function Snapshot(): State
      reads this
    {
      State(procs, logFiles, killed)
    }

    ghost predicate Valid()
      reads this
    {
      LogsBounded(Snapshot())
    }

    constructor()
      ensures Valid() && procs == map[] && logFiles == map[] && killed == []
    {
      procs := map[];
      logFiles := map[];
      killed := [];
    }

    method AppendLog(tool: string, line: string, writable: bool)
      requires Valid()
      modifies this
      ensures Valid()
      ensures Snapshot() == AppendLogSpec(old(Snapshot()), tool, line, writable)
    {
      if writable {
        var file := if tool in logFiles then logFiles[tool] else "";
        logFiles := logFiles[tool := file + line + "\n"];
        var e := if tool in procs then procs[tool] else ProcEntry(None, []);
        var logs := e.logs + [line];
        if |logs| > LogCap {
          logs := logs[1..];
        }
        procs := procs[tool := e.(logs := logs)];
      }
    }

    method Start(env: Env, tool: string, exec: ExecPath, resolvedExists: bool, tree: Listing,
                 spawn: Spawn, writable: bool, now: string)
      returns (r: Result<Path, StartError>)
      requires Valid()
      modifies this
      ensures Valid()
      ensures StartOutcome(Snapshot(), r) == StartSpec(old(Snapshot()), env, tool, exec, resolvedExists, tree, spawn, writable, now)
    {
      if tool in procs {
        return Failure(AlreadyRunning);
      }
      var resolved := Resolve(env, exec);
      if !resolvedExists {
        var discovered := FindExecutable(Dirname(resolved), tree, 0, tool, env.platform);
        if discovered.None? {
          return Failure(ExecutableNotFound(resolved));
        }
        resolved := discovered.value;
      }
      if spawn.SpawnFailed? {
        AppendLog(tool, "[ERR] Spawn error: " + spawn.message, writable);
        return Failure(SpawnError(spawn.message));
      }
      procs := procs[tool := ProcEntry(Some(spawn.pid), [])];
      AppendLog(tool, "Started " + tool + " at " + now, writable);
      return Success(resolved);
    }

    method Stop(tool: string, writable: bool, now: string) returns (r: Result<nat, StopError>)
      requires Valid()
      modifies this
      ensures Valid()
      ensures StopOutcome(Snapshot(), r) == StopSpec(old(Snapshot()), tool, writable, now)
    {
      if tool !in procs {
        return Failure(NotRunning);
      }
      var entry := procs[tool];
      if entry.proc.None? {
        return Failure(NoProcess);
      }
      killed := killed + [entry.proc.value];
      AppendLog(tool, "Stop requested " + tool + " at " + now, writable);
      return Success(entry.proc.value);
    }

    /** A chunk on the child's stdout or stderr. */
    method OnOutput(tool: string, stream: Stream, data: string, writable: bool)
      requires Valid()
      modifies this
      ensures Valid()
      ensures Snapshot() == OutputSpec(old(Snapshot()), tool, stream, data, writable)
    {
      var tag := if stream == Stdout then "[OUT] " else "[ERR] ";
      AppendLog(tool, tag + Trim(data), writable);
    }

    /** The child's `exit` event, handled in the intended order. */
    method OnExit(tool: string, info: string, writable: bool)
      requires Valid()
      modifies this
      ensures Valid()
      ensures Snapshot() == ExitSpec(old(Snapshot()), tool, info, writable)
      ensures tool !in procs
    {
      AppendLog(tool, "Process exited " + info, writable);
      procs := procs - {tool};
    }

    function IsRunning(tool: string): (b: bool)
      reads this
      ensures b == Running(Snapshot(), tool)
    {
      tool in procs
    }

    function GetToolLogs(tool: string, dirOk: bool): (v: seq<string>)
      reads this
      ensures v == ToolLogsSpec(Snapshot(), tool, dirOk)
    {
      var mem := if tool in procs then procs[tool].logs else [];
      if dirOk then
        var file := if tool in logFiles then logFiles[tool] else "";
        Newest(NonEmpty(Split(file)) + mem)
      else mem
    }
  }
}
