/**
 * `PRManager.merge_develop`: bring `develop` into a fresh `temp_branch`, resolve every
 * conflicted file with the automatic resolver, stage it, and commit; on the first file that
 * cannot be handled, abort the merge and report failure.
 *
 * The local clone is a `Repository` that records the git commands issued to it, and the
 * files the process opens are a `FileSystem`. The outcome of `git merge develop` and the
 * paths git reports as unmerged are given by the repository's state.
 */
module MergeOrchestrator {
  import opened Wrappers
  import opened Text
  import opened AutoResolver

  /** The directory the pull request's repository is cloned into. */
  const CLONE_DIR := "temp_repo"

  /** The message of the commit that concludes a resolved merge. */
  const RESOLVED_MESSAGE := "Resolved merge conflicts automatically"

  /** The git operations `merge_develop` performs on the clone. */
  datatype Command =
    | Checkout(branch: string)
    | CheckoutNewBranch(branch: string)
    | Pull(remote: string, branch: string)
    | Merge(branch: string)
    | MergeAbort
    | Add(path: string)
    | Commit(message: string)

  /** `os.path.join(dir, path)` on POSIX: an absolute `path` replaces `dir`. */
  function JoinPath(dir: string, path: string): string {
    if |path| > 0 && path[0] == '/' then path
    else if dir == "" || dir[|dir| - 1] == '/' then dir + path
    else dir + "/" + path
  }

  /** A path that does not start at the root. */
  predicate Relative(path: string) {
    path == [] || path[0] != '/'
  }

  /** What `os.path.join` puts between a directory and a relative path. */
  function PathSeparator(dir: string): string {
    if dir == "" || dir[|dir| - 1] == '/' then "" else "/"
  }

  /**
   * Under a relative directory, an absolute path opens as itself, and a relative one as a
   * relative path that ends in it after the directory and its separator.
   */
  lemma JoinPathShape(dir: string, path: string)
    requires Relative(dir)
    ensures !Relative(path) ==> JoinPath(dir, path) == path
    ensures Relative(path) ==>
      Relative(JoinPath(dir, path)) &&
      JoinPath(dir, path) == dir + PathSeparator(dir) + path &&
      JoinPath(dir, path)[|dir + PathSeparator(dir)|..] == path
  {
    if Relative(path) {
      assert JoinPath(dir, path) == (dir + PathSeparator(dir)) + path;
    }
  }

  /** Under a relative directory, such as the clone's, distinct paths open distinct files. */
  lemma JoinPathInjective(dir: string, p: string, q: string)
    requires Relative(dir) && JoinPath(dir, p) == JoinPath(dir, q)
    ensures p == q
  {
    JoinPathShape(dir, p);
    JoinPathShape(dir, q);
  }

  /** The local clone: what it was told to do, and what git will answer. */
  class Repository {
    /** The git commands issued so far, in order. */
    var log: seq<Command>
    /** Whether `git merge develop` stops with conflicts. */
    const conflicting: bool
    /** The paths `index.unmerged_blobs()` reports once the merge has stopped. */
    const unmerged: seq<string>

    constructor (conflicting: bool, unmerged: seq<string>)
      ensures this.conflicting == conflicting && this.unmerged == unmerged && log == []
    {
      this.conflicting := conflicting;
      this.unmerged := unmerged;
      log := [];
    }

    /** `git <command>`, for a command whose only effect here is to be recorded. */
    method Issue(command: Command)
      modifies this
      ensures log == old(log) + [command]
    {
      log := log + [command];
    }

    /** `git merge <branch>`: whether it merged cleanly. */
    method MergeBranch(branch: string) returns (clean: bool)
      modifies this
      ensures log == old(log) + [Merge(branch)]
      ensures clean == !conflicting
    {
      log := log + [Merge(branch)];
      clean := !conflicting;
    }

    /** `[item.a_path for item in index.unmerged_blobs()]`. */
    method UnmergedPaths() returns (paths: seq<string>)
      ensures paths == unmerged
    {
      paths := unmerged;
    }
  }

  /** The files the process can open, by the path it opens them with. */
  class FileSystem {
    var files: map<string, string>

    constructor (files: map<string, string>)
      ensures this.files == files
    {
      this.files := files;
    }

    /** `open(path, 'r').read()`: the stored text with universal newlines, nothing when the file does not exist. */
    method Read(path: string) returns (content: Option<string>)
      ensures content == if path in files then Some(Newlines(files[path])) else None
    {
      content := if path in files then Some(Newlines(files[path])) else None;
    }

    /** `open(path, 'w').write(content)` on an existing file. */
    method Write(path: string, content: string)
      modifies this
      ensures files == old(files)[path := content]
    {
      files := files[path := content];
    }
  }

  /** What `handle_conflict_file` leaves in a file stored as `stored`: the resolution of the text as read. */
  function ResolvedFile(stored: string): string {
    AutoResolved(Newlines(stored))
  }

  /** A file without carriage returns and without conflicts is left exactly as it was. */
  lemma ResolvedFileKeepsPlain(stored: string)
    requires '\r' !in stored && !Contains(stored, START) && !IsConflictSection(stored)
    ensures ResolvedFile(stored) == stored
  {
    NewlinesKeepsLineFeeds(stored);
    IdentityOnMarkerFree(stored);
  }

  /**
   * A file with carriage returns but without conflicts is still rewritten: it comes back with
   * its line ends turned into `\n`, and so differs from what was stored.
   */
  lemma ResolvedFileNormalises(stored: string)
    requires '\r' in stored && !Contains(Newlines(stored), START) && !IsConflictSection(Newlines(stored))
    ensures ResolvedFile(stored) == Newlines(stored) && ResolvedFile(stored) != stored
  {
    IdentityOnMarkerFree(Newlines(stored));
  }

  /**
   * `handle_conflict_file(path)` with its file I/O: the file is read, resolved and written back.
   * It raises exactly when the file cannot be opened.
   */
  method HandleConflictPath(disk: FileSystem, path: string) returns (raised: bool)
    modifies disk
    ensures raised == (path !in old(disk.files))
    ensures disk.files == if raised then old(disk.files) else Resolved(old(disk.files), path, ResolvedFile)
  {
    var content := disk.Read(path);
    if content.None? {
      return true;
    }
    var outcome := HandleConflictFile(path, content.value, true);
    disk.Write(path, outcome.content);
    raised := false;
  }

  /** What the conflict loop does: the files it leaves, the commands it issues, and whether it got through. */
  datatype Resolution = Resolution(files: map<string, string>, commands: seq<Command>, ok: bool)

  /** `files` after the file at `path` was resolved by `resolve` and written back. */
  function Resolved(files: map<string, string>, path: string, resolve: string -> string): map<string, string>
    requires path in files
  {
    files[path := resolve(files[path])]
  }

  /** The files the loop opens for `paths`: each joined to `dir`. */
  function Locations(dir: string, paths: seq<string>): (r: seq<string>)
    ensures |r| == |paths|
  {
    seq(|paths|, k requires 0 <= k < |paths| => JoinPath(dir, paths[k]))
  }

  /**
   * The conflict loop from the `i`-th unmerged path on, the `k`-th path's file being
   * `locations[k]`: each file is resolved and staged in turn; the first one that cannot be
   * opened aborts the merge and ends the loop.
   */
  function ResolveFrom(resolve: string -> string, paths: seq<string>, locations: seq<string>, i: nat, files: map<string, string>): Resolution
    requires i <= |paths| == |locations|
    decreases |paths| - i
  {
    if i == |paths| then Resolution(files, [], true)
    else if locations[i] !in files then Resolution(files, [MergeAbort], false)
    else After([Add(paths[i])], ResolveFrom(resolve, paths, locations, i + 1, Resolved(files, locations[i], resolve)))
  }

  /** The conflict loop of `merge_develop` over the unmerged paths, opened inside the clone. */
  function ConflictLoop(unmerged: seq<string>, files: map<string, string>): Resolution {
    ResolveFrom(ResolvedFile, unmerged, Locations(CLONE_DIR, unmerged), 0, files)
  }

  /** The commands of the loop, after `done` were already issued. */
  function After(done: seq<Command>, r: Resolution): Resolution {
    Resolution(r.files, done + r.commands, r.ok)
  }

  /** Issuing `done` and then `more` is issuing `done + more`. */
  lemma AfterAfter(done: seq<Command>, more: seq<Command>, r: Resolution)
    ensures After(done, After(more, r)) == After(done + more, r)
  {
    assert done + (more + r.commands) == (done + more) + r.commands;
  }

  /** How many paths the loop staged: all its commands, but for the abort that ends a failed loop. */
  function Staged(r: Resolution): nat {
    if r.ok || |r.commands| == 0 then |r.commands| else |r.commands| - 1
  }

  /**
   * `r` is what a loop from the `i`-th path issues: the stagings of the paths, in order, of all
   * of them when it gets through, and otherwise of some of them followed by the abort.
   */
  predicate StagesFrom(paths: seq<string>, i: nat, r: Resolution) {
    i <= |paths| &&
    (if r.ok then |r.commands| == |paths| - i else 0 < |r.commands| <= |paths| - i) &&
    forall k :: 0 <= k < |r.commands| ==>
      r.commands[k] == if k == Staged(r) then MergeAbort else Add(paths[i + k])
  }

  /** The commands of the loop are the stagings of the paths in order, and the abort if it fails. */
  lemma {:induction false} ResolveCommands(resolve: string -> string, paths: seq<string>, locations: seq<string>, i: nat, files: map<string, string>)
    requires i <= |paths| == |locations|
    ensures StagesFrom(paths, i, ResolveFrom(resolve, paths, locations, i, files))
    decreases |paths| - i
  {
    if i < |paths| && locations[i] in files {
      var next := Resolved(files, locations[i], resolve);
      ResolveCommands(resolve, paths, locations, i + 1, next);
      StagingStep(paths, i, ResolveFrom(resolve, paths, locations, i + 1, next));
    }
  }

  /** Staging the `i`-th path in front of a loop that stages from the next one on. */
  lemma StagingStep(paths: seq<string>, i: nat, rest: Resolution)
    requires i < |paths| && StagesFrom(paths, i + 1, rest)
    ensures Staged(After([Add(paths[i])], rest)) == Staged(rest) + 1
    ensures StagesFrom(paths, i, After([Add(paths[i])], rest))
  {
    var r := After([Add(paths[i])], rest);
    forall k | 0 < k < |r.commands|
      ensures r.commands[k] == if k == Staged(r) then MergeAbort else Add(paths[i + k])
    {
      assert r.commands[k] == rest.commands[k - 1];
    }
  }

  /** The first of `locations` from the `i`-th on that is not among `names`, or `|locations|` if there is none. */
  function FirstMissing(locations: seq<string>, i: nat, names: set<string>): (n: nat)
    requires i <= |locations|
    ensures i <= n <= |locations|
    decreases |locations| - i
  {
    if i == |locations| || locations[i] !in names then i
    else FirstMissing(locations, i + 1, names)
  }

  /** It is the first: every location before it is among `names`, and it is not. */
  lemma {:induction false} FirstMissingIsFirst(locations: seq<string>, i: nat, names: set<string>)
    requires i <= |locations|
    ensures var n := FirstMissing(locations, i, names);
      (n < |locations| ==> locations[n] !in names) &&
      forall k :: i <= k < n ==> locations[k] in names
    decreases |locations| - i
  {
    if i < |locations| && locations[i] in names {
      FirstMissingIsFirst(locations, i + 1, names);
    }
  }

  /**
   * The loop stages the paths up to the first one whose file cannot be opened, and gets through
   * exactly when there is no such path.
   */
  lemma {:induction false} ResolveStopsAtFirst(resolve: string -> string, paths: seq<string>, locations: seq<string>, i: nat, files: map<string, string>)
    requires i <= |paths| == |locations|
    ensures var r := ResolveFrom(resolve, paths, locations, i, files);
      i + Staged(r) == FirstMissing(locations, i, files.Keys) &&
      (r.ok <==> FirstMissing(locations, i, files.Keys) == |paths|)
    decreases |paths| - i
  {
    if i < |paths| && locations[i] in files {
      var next := Resolved(files, locations[i], resolve);
      ResolveStopsAtFirst(resolve, paths, locations, i + 1, next);
      ResolveCommands(resolve, paths, locations, i + 1, next);
      StagingStep(paths, i, ResolveFrom(resolve, paths, locations, i + 1, next));
      assert next.Keys == files.Keys;
    }
  }

  /** The loop gets through exactly when every file from the `i`-th on can be opened. */
  lemma ResolveSucceedsIff(resolve: string -> string, paths: seq<string>, locations: seq<string>, i: nat, files: map<string, string>)
    requires i <= |paths| == |locations|
    ensures ResolveFrom(resolve, paths, locations, i, files).ok <==>
      forall k :: i <= k < |locations| ==> locations[k] in files
  {
    ResolveStopsAtFirst(resolve, paths, locations, i, files);
    FirstMissingIsFirst(locations, i, files.Keys);
  }

  /** A loop's commands hold no commit, and hold the abort exactly when it fails. */
  lemma StagesEnd(paths: seq<string>, i: nat, r: Resolution, message: string)
    requires StagesFrom(paths, i, r)
    ensures Commit(message) !in r.commands
    ensures MergeAbort in r.commands <==> !r.ok
  {
    if !r.ok {
      assert r.commands[Staged(r)] == MergeAbort;
    }
  }

  /** No element occurs twice. */
  predicate Distinct(s: seq<string>) {
    forall a, b :: 0 <= a < b < |s| ==> s[a] != s[b]
  }

  /** Distinct paths, joined to a relative directory such as the clone's, are distinct files. */
  lemma LocationsDistinct(dir: string, paths: seq<string>)
    requires Relative(dir) && Distinct(paths)
    ensures Distinct(Locations(dir, paths))
  {
    var locations := Locations(dir, paths);
    forall a, b | 0 <= a < b < |locations|
      ensures locations[a] != locations[b]
    {
      if locations[a] == locations[b] {
        JoinPathInjective(dir, paths[a], paths[b]);
      }
    }
  }

  /** `after` is `before` with exactly the files in `staged` resolved from their old content. */
  predicate ResolvedOn(resolve: string -> string, before: map<string, string>, after: map<string, string>, staged: seq<string>) {
    after.Keys == before.Keys &&
    forall f :: f in before ==> after[f] == if f in staged then resolve(before[f]) else before[f]
  }

  /**
   * For distinct files, the loop leaves each file it staged, that is each one before the first
   * that cannot be opened, resolved from its old content, and every other file as it was.
   */
  lemma {:induction false} ResolvedContents(resolve: string -> string, paths: seq<string>, locations: seq<string>, i: nat, files: map<string, string>)
    requires i <= |paths| == |locations| && Distinct(locations)
    ensures ResolvedOn(resolve, files, ResolveFrom(resolve, paths, locations, i, files).files,
      locations[i..FirstMissing(locations, i, files.Keys)])
    decreases |paths| - i
  {
    if i < |paths| && locations[i] in files {
      var next := Resolved(files, locations[i], resolve);
      ResolvedContents(resolve, paths, locations, i + 1, next);
      assert next.Keys == files.Keys;
      ResolvedContentsStep(resolve, files, locations, i, ResolveFrom(resolve, paths, locations, i + 1, next).files,
        FirstMissing(locations, i + 1, files.Keys));
    }
  }

  /** Resolving the `i`-th file before those from the next one up to `n` resolves those from the `i`-th. */
  lemma ResolvedContentsStep(resolve: string -> string, files: map<string, string>, locations: seq<string>, i: nat, after: map<string, string>, n: nat)
    requires i < n <= |locations| && locations[i] in files && Distinct(locations)
    requires ResolvedOn(resolve, Resolved(files, locations[i], resolve), after, locations[i + 1..n])
    ensures ResolvedOn(resolve, files, after, locations[i..n])
  {
    DistinctSlice(locations, i, n);
    ResolvedOnStep(resolve, files, locations[i], after, locations[i + 1..n]);
  }

  /** A slice of distinct elements starts with one that does not occur again in it. */
  lemma DistinctSlice(s: seq<string>, i: nat, j: nat)
    requires i < j <= |s| && Distinct(s)
    ensures s[i..j] == [s[i]] + s[i + 1..j] && s[i] !in s[i + 1..j]
  {
    assert s[i..j] == [s[i]] + s[i + 1..j];
    var later := s[i + 1..j];
    forall m | 0 <= m < |later|
      ensures later[m] != s[i]
    {
      assert later[m] == s[i + 1 + m];
    }
  }

  /** Resolving `p` first and then the files in `staged`, which do not include it. */
  lemma ResolvedOnStep(resolve: string -> string, files: map<string, string>, p: string, after: map<string, string>, staged: seq<string>)
    requires p in files && p !in staged && ResolvedOn(resolve, Resolved(files, p, resolve), after, staged)
    ensures ResolvedOn(resolve, files, after, [p] + staged)
  {
    forall f | f in files
      ensures after[f] == if f in [p] + staged then resolve(files[f]) else files[f]
    {
      assert f in Resolved(files, p, resolve);
      assert f in [p] + staged <==> f == p || f in staged;
    }
  }

  /** The commands `merge_develop` issues before it knows whether the merge is clean. */
  const OPENING := [Checkout("develop"), Pull("origin", "develop"), CheckoutNewBranch("temp_branch"), Merge("develop")]

  /** All the commands `merge_develop` issues. */
  function MergeLog(conflicting: bool, unmerged: seq<string>, files: map<string, string>): seq<Command> {
    var r := ConflictLoop(unmerged, files);
    if !conflicting then OPENING
    else OPENING + r.commands + (if r.ok then [Commit(RESOLVED_MESSAGE)] else [])
  }

  /**
   * `merge_develop` commits exactly when the merge conflicted and every conflicted file was
   * resolved, and aborts exactly when the merge conflicted and some file could not be.
   */
  lemma MergeLogEnds(conflicting: bool, unmerged: seq<string>, files: map<string, string>)
    ensures Commit(RESOLVED_MESSAGE) in MergeLog(conflicting, unmerged, files) <==>
      conflicting && ConflictLoop(unmerged, files).ok
    ensures MergeAbort in MergeLog(conflicting, unmerged, files) <==>
      conflicting && !ConflictLoop(unmerged, files).ok
  {
    var r := ConflictLoop(unmerged, files);
    ResolveCommands(ResolvedFile, unmerged, Locations(CLONE_DIR, unmerged), 0, files);
    StagesEnd(unmerged, 0, r, RESOLVED_MESSAGE);
    var log := MergeLog(conflicting, unmerged, files);
    if conflicting {
      var last := if r.ok then [Commit(RESOLVED_MESSAGE)] else [];
      assert log == OPENING + (r.commands + last);
      assert Commit(RESOLVED_MESSAGE) in log <==> Commit(RESOLVED_MESSAGE) in last;
      assert MergeAbort in log <==> MergeAbort in r.commands;
    }
  }

  /** The stagings of `paths`, in order. */
  function Stagings(paths: seq<string>): (r: seq<Command>)
    ensures |r| == |paths|
  {
    seq(|paths|, k requires 0 <= k < |paths| => Add(paths[k]))
  }

  /** A loop from the first path issues the stagings of the paths it handled, then the abort if it failed. */
  lemma StagesAsList(paths: seq<string>, r: Resolution)
    requires StagesFrom(paths, 0, r)
    ensures Staged(r) <= |paths|
    ensures r.commands == Stagings(paths[..Staged(r)]) + (if r.ok then [] else [MergeAbort])
  {
    var list := Stagings(paths[..Staged(r)]) + (if r.ok then [] else [MergeAbort]);
    assert |list| == |r.commands|;
    forall k | 0 <= k < |r.commands|
      ensures r.commands[k] == list[k]
    {
    }
  }

  /**
   * The commands of a conflicted `merge_develop`: after the opening, the unmerged paths are
   * staged in order up to the first whose file cannot be opened; then the merge is committed
   * if there is no such path, and aborted otherwise. No later path is handled or staged.
   */
  lemma MergeLogShape(unmerged: seq<string>, files: map<string, string>)
    ensures var n := FirstMissing(Locations(CLONE_DIR, unmerged), 0, files.Keys);
      MergeLog(true, unmerged, files) ==
        OPENING + Stagings(unmerged[..n]) + (if n == |unmerged| then [Commit(RESOLVED_MESSAGE)] else [MergeAbort])
  {
    var r := ConflictLoop(unmerged, files);
    var locations := Locations(CLONE_DIR, unmerged);
    ResolveCommands(ResolvedFile, unmerged, locations, 0, files);
    ResolveStopsAtFirst(ResolvedFile, unmerged, locations, 0, files);
    StagesAsList(unmerged, r);
    var n := FirstMissing(locations, 0, files.Keys);
    if r.ok {
      assert Stagings(unmerged[..n]) + [] + [Commit(RESOLVED_MESSAGE)] == Stagings(unmerged[..n]) + [Commit(RESOLVED_MESSAGE)];
    } else {
      assert r.commands + [] == r.commands;
    }
  }

  /**
   * `merge_develop` succeeds exactly when the merge is clean or the file of every unmerged
   * path, opened inside the clone, exists.
   */
  lemma MergeSucceedsIff(conflicting: bool, unmerged: seq<string>, files: map<string, string>)
    ensures (!conflicting || ConflictLoop(unmerged, files).ok) <==>
      (!conflicting || forall p :: p in unmerged ==> JoinPath(CLONE_DIR, p) in files)
  {
    var locations := Locations(CLONE_DIR, unmerged);
    ResolveSucceedsIff(ResolvedFile, unmerged, locations, 0, files);
    if forall k :: 0 <= k < |locations| ==> locations[k] in files {
      forall p | p in unmerged
        ensures JoinPath(CLONE_DIR, p) in files
      {
        var k :| 0 <= k < |unmerged| && unmerged[k] == p;
        assert locations[k] == JoinPath(CLONE_DIR, p);
      }
    }
    if forall p :: p in unmerged ==> JoinPath(CLONE_DIR, p) in files {
      forall k | 0 <= k < |locations|
        ensures locations[k] in files
      {
        assert unmerged[k] in unmerged;
      }
    }
  }

  /**
   * After a conflicted merge of distinct unmerged paths, every file before the first one that
   * cannot be opened, and so every file when the merge succeeds, holds the automatic resolution
   * of its old content; no other file changes.
   */
  lemma MergeFiles(unmerged: seq<string>, files: map<string, string>)
    requires Distinct(unmerged)
    ensures ResolvedOn(ResolvedFile, files, ConflictLoop(unmerged, files).files,
      Locations(CLONE_DIR, unmerged)[..FirstMissing(Locations(CLONE_DIR, unmerged), 0, files.Keys)])
    ensures ConflictLoop(unmerged, files).ok ==>
      ResolvedOn(ResolvedFile, files, ConflictLoop(unmerged, files).files, Locations(CLONE_DIR, unmerged))
  {
    var locations := Locations(CLONE_DIR, unmerged);
    LocationsDistinct(CLONE_DIR, unmerged);
    ResolvedContents(ResolvedFile, unmerged, locations, 0, files);
    ResolveStopsAtFirst(ResolvedFile, unmerged, locations, 0, files);
    assert locations[0..FirstMissing(locations, 0, files.Keys)] == locations[..FirstMissing(locations, 0, files.Keys)];
    assert locations[..|locations|] == locations;
  }

  /**
   * The conflict loop of `merge_develop`: each unmerged path, resolved on disk and staged in
   * turn, until one cannot be opened, which aborts the merge. Returns whether all got through.
   */
  method ResolveConflicts(repo: Repository, disk: FileSystem, conflictFiles: seq<string>) returns (ok: bool)
    modifies repo, disk
    ensures ok == ConflictLoop(conflictFiles, old(disk.files)).ok
    ensures repo.log == old(repo.log) + ConflictLoop(conflictFiles, old(disk.files)).commands
    ensures disk.files == ConflictLoop(conflictFiles, old(disk.files)).files
  {
    ghost var locations := Locations(CLONE_DIR, conflictFiles);
    ghost var done: seq<Command> := [];
    for i := 0 to |conflictFiles|
      invariant repo.log == old(repo.log) + done
      invariant ConflictLoop(conflictFiles, old(disk.files)) == After(done, ResolveFrom(ResolvedFile, conflictFiles, locations, i, disk.files))
    {
      var filePath := conflictFiles[i];
      ghost var before := disk.files;
      var raised := HandleConflictPath(disk, JoinPath(CLONE_DIR, filePath));
      assert JoinPath(CLONE_DIR, filePath) == locations[i];
      if raised {
        repo.Issue(MergeAbort);
        Append(old(repo.log), done, MergeAbort);
        return false;
      }
      repo.Issue(Add(filePath));
      AfterAfter(done, [Add(filePath)], ResolveFrom(ResolvedFile, conflictFiles, locations, i + 1, disk.files));
      Append(old(repo.log), done, Add(filePath));
      done := done + [Add(filePath)];
    }
    assert done + [] == done;
    ok := true;
  }

  /**
   * `merge_develop(local_repo)`: returns whether `develop` ended up merged into `temp_branch`.
   * A clean merge touches no file. Otherwise every unmerged file is resolved and staged in
   * order and the merge is committed, unless a file cannot be opened, which aborts the merge.
   */
  method MergeDevelop(repo: Repository, disk: FileSystem) returns (merged: bool)
    modifies repo, disk
    ensures merged == (!repo.conflicting || ConflictLoop(repo.unmerged, old(disk.files)).ok)
    ensures repo.log == old(repo.log) + MergeLog(repo.conflicting, repo.unmerged, old(disk.files))
    ensures disk.files == if repo.conflicting then ConflictLoop(repo.unmerged, old(disk.files)).files else old(disk.files)
  {
    repo.Issue(Checkout("develop"));
    repo.Issue(Pull("origin", "develop"));
    repo.Issue(CheckoutNewBranch("temp_branch"));
    var clean := repo.MergeBranch("develop");
    assert repo.log == old(repo.log) + OPENING;
    if clean {
      return true;
    }
    var conflictFiles := repo.UnmergedPaths();
    merged := ResolveConflicts(repo, disk, conflictFiles);
    if merged {
      repo.Issue(Commit(RESOLVED_MESSAGE));
      LogShape(old(repo.log), ConflictLoop(conflictFiles, old(disk.files)).commands, [Commit(RESOLVED_MESSAGE)]);
    } else {
      LogShape(old(repo.log), ConflictLoop(conflictFiles, old(disk.files)).commands, []);
    }
  }

  /**
   * `merge_develop` as it is written. `local_repo.index.unmerged_blobs()` is a dictionary keyed
   * by path, so the comprehension at the conflict list iterates over path strings, and
   * `item.a_path` raises `AttributeError` on the first one. A conflicted merge that reports any
   * path therefore ends in the outer handler and returns `False`; only a conflicted merge that
   * reports no path reaches the commit.
   */
  function MergedAsWritten(conflicting: bool, unmerged: seq<string>): bool {
    !conflicting || unmerged == []
  }

  /**
   * The commands `merge_develop` issues as it is written. The outer handler issues
   * `merge --abort` only when `abortListed`, that is, when `'merge' in dir(local_repo.git)` holds.
   */
  function MergeLogAsWritten(conflicting: bool, unmerged: seq<string>, abortListed: bool): seq<Command> {
    if !conflicting then OPENING
    else if unmerged != [] then OPENING + (if abortListed then [MergeAbort] else [])
    else OPENING + [Commit(RESOLVED_MESSAGE)]
  }

  /**
   * A conflicted merge whose reported files all exist is resolved and committed by the
   * intended loop (`MergeDevelop`), but as written it never commits and reports failure.
   */
  lemma AsWrittenLosesResolvableMerge(unmerged: seq<string>, files: map<string, string>, abortListed: bool)
    requires unmerged != [] && forall p :: p in unmerged ==> JoinPath(CLONE_DIR, p) in files
    ensures ConflictLoop(unmerged, files).ok && Commit(RESOLVED_MESSAGE) in MergeLog(true, unmerged, files)
    ensures !MergedAsWritten(true, unmerged) && Commit(RESOLVED_MESSAGE) !in MergeLogAsWritten(true, unmerged, abortListed)
  {
    MergeSucceedsIff(true, unmerged, files);
    MergeLogEnds(true, unmerged, files);
  }

  /** The instance that shows it: one conflicted file `a.txt`, present in the clone. */
  lemma AsWrittenExample(files: map<string, string>)
    requires files == map[CLONE_DIR + "/a.txt" := "x"]
    ensures ConflictLoop(["a.txt"], files).ok && !MergedAsWritten(true, ["a.txt"])
  {
    assert JoinPath(CLONE_DIR, "a.txt") == CLONE_DIR + "/a.txt";
    AsWrittenLosesResolvableMerge(["a.txt"], files, true);
  }

  /** Where the written code does report success, the intended loop agrees. */
  lemma AsWrittenSuccessAgrees(conflicting: bool, unmerged: seq<string>, files: map<string, string>)
    requires MergedAsWritten(conflicting, unmerged)
    ensures !conflicting || ConflictLoop(unmerged, files).ok
    ensures MergeLogAsWritten(conflicting, unmerged, false) == MergeLog(conflicting, unmerged, files)
  {
    if conflicting {
      assert ConflictLoop(unmerged, files) == Resolution(files, [], true);
    }
  }

  /** Recording one more command after `log + done`. */
  lemma Append(log: seq<Command>, done: seq<Command>, command: Command)
    ensures log + done + [command] == log + (done + [command])
  {
  }

  /** The log of a conflicted merge: the opening, the loop's commands, and how it ended. */
  lemma LogShape(log: seq<Command>, done: seq<Command>, last: seq<Command>)
    ensures log + OPENING + done + last == log + (OPENING + done + last)
    ensures log + OPENING + done == log + (OPENING + done + [])
  {
  }
}
