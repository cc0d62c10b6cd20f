/**
 Local mirror cleanup (internal/backup/sync.go, Run, runProviderMode, runURLMode;
 internal/backup/mirror.go, RemoveOrphans): which mirrors a run expects, when it knows
 all of them, and what it removes then. Discovery, URL parsing, the per-repository
 sync and the disk are oracles.
 */
module Mirrors {
  import opened Wrappers
  import opened Text
  import ParallelLoop

  /** A discovered resource: no clone URL means it is passed over, otherwise its storage prefix. */
  datatype Discovered = Discovered(hasCloneUrl: bool, prefix: string)

  datatype Mode =
    | ProviderMode(configured: bool, resolves: bool, discovery: Option<seq<Discovered>>)
    | UrlMode(urls: seq<string>, credentialKnown: bool)
    | InvalidMode

  datatype Job = Missing | Job(enabled: bool, mode: Mode)

  /** How the loop over a job's items ended: so many were started, in order, and whether it returned an error. */
  datatype LoopEnd = LoopEnd(started: nat, failed: bool)

  /** Nil means every item was started. */
  predicate MeetsPromise(end: LoopEnd, items: nat) {
    end.started <= items && (!end.failed ==> end.started == items)
  }

  datatype World = World(
    directory: string -> string,          // the mirror directory named after a prefix
    prefixOf: string -> Option<string>,   // a configured URL's storage prefix, if it parses
    loop: (nat, nat) -> LoopEnd,          // the loop of job i over n items
    cancelledBefore: nat -> bool,
    cancelledAfter: nat -> bool,
    deletable: string -> bool)
  {
    ghost predicate Valid() {
      forall i, n :: MeetsPromise(loop(i, n), n)
    }
  }

  // ---- what the loop promises ----

  /** However its steps interleave, the parallel loop ends as the jobs expect. */
  lemma LoopMeetsPromise(c: ParallelLoop.Config, s: ParallelLoop.State)
    requires ParallelLoop.Reachable(c, s) && s.launcher.Returned?
    ensures MeetsPromise(LoopEnd(|s.workers|, !s.launcher.ok), c.items)
    ensures forall i :: 0 <= i < |s.workers| ==> s.workers[i].item == i
  {
    hide ParallelLoop.Reachable;
    ParallelLoop.EachItemStartsOnce(c, s);
    if s.launcher.ok {
      ParallelLoop.NilMeansAllSucceeded(c, s);
    }
  }

  /** And so does the sequential one. */
  method LoopSequentially(items: nat, cancelled: nat -> bool, succeeds: nat -> bool) returns (end: LoopEnd)
    ensures MeetsPromise(end, items)
    ensures !end.failed <==> end.started == items && forall i :: 0 <= i < items ==> succeeds(i)
  {
    var ok, started := ParallelLoop.ForEachSequential(items, cancelled, succeeds);
    end := LoopEnd(started, !ok);
  }

  // ---- one job ----

  /** The storage prefixes a job's items resolve to, None for an item that is passed over. */
  function ProviderItems(discovered: seq<Discovered>): seq<Option<string>> {
    seq(|discovered|, i requires 0 <= i < |discovered| =>
      if discovered[i].hasCloneUrl then Some(discovered[i].prefix) else None)
  }

  function UrlItems(w: World, urls: seq<string>): seq<Option<string>> {
    seq(|urls|, i requires 0 <= i < |urls| => w.prefixOf(urls[i]))
  }

  function UrlKey(url: string): string { ToLower(TrimSpace(url)) }

  /** The usable URLs, each at its first occurrence up to letter case and surrounding space. */
  function UsableUrls(urls: seq<string>): seq<string> {
    if urls == [] then []
    else
      var n := |urls| - 1;
      var before := UsableUrls(urls[..n]);
      if TrimSpace(urls[n]) == "" || UrlKey(urls[n]) in Keys(before) then before else before + [urls[n]]
  }

  /** Every URL that is not blank is kept once up to letter case and space, and nothing else is. */
  lemma {:induction false} UsableUrlsAreExact(urls: seq<string>)
    ensures var keys := Keys(UsableUrls(urls));
            && (forall i, j :: 0 <= i < j < |keys| ==> keys[i] != keys[j])
            && (forall url :: url in urls && TrimSpace(url) != "" ==> UrlKey(url) in keys)
            && (forall url :: url in UsableUrls(urls) ==> url in urls && TrimSpace(url) != "")
  {
    hide TrimSpace, UrlKey;
    if urls != [] {
      var n := |urls| - 1;
      UsableUrlsAreExact(urls[..n]);
      assert urls == urls[..n] + [urls[n]];
      var before := UsableUrls(urls[..n]);
      assert Keys(before + [urls[n]]) == Keys(before) + [UrlKey(urls[n])];
    }
  }

  function Keys(urls: seq<string>): seq<string> {
    seq(|urls|, i requires 0 <= i < |urls| => UrlKey(urls[i]))
  }

  /** The items a job got as far as knowing; None when it could not learn them all. */
  function JobItems(w: World, mode: Mode): Option<seq<Option<string>>> {
    match mode
    case ProviderMode(configured, resolves, discovery) =>
      if configured && resolves && discovery.Some? then Some(ProviderItems(discovery.value)) else None
    case UrlMode(urls, credentialKnown) =>
      if UsableUrls(urls) != [] && credentialKnown then Some(UrlItems(w, UsableUrls(urls))) else None
    case InvalidMode => None
  }

  // ---- what a job lists, by its own inputs ----

  /** No earlier URL is the same up to letter case and surrounding space. */
  predicate IsFirst(urls: seq<string>, i: nat)
    requires i < |urls|
  {
    forall j :: 0 <= j < i ==> ToLower(TrimSpace(urls[j])) != ToLower(TrimSpace(urls[i]))
  }

  /**
   A discovered resource with a clone URL has this prefix, or a URL that is not blank, at its
   first occurrence, parses to it.
   */
  ghost predicate Lists(w: World, mode: Mode, prefix: string) {
    match mode
    case ProviderMode(_, _, discovery) => discovery.Some? && Discovered(true, prefix) in discovery.value
    case UrlMode(urls, _) =>
      exists i :: 0 <= i < |urls| && TrimSpace(urls[i]) != "" && IsFirst(urls, i) && w.prefixOf(urls[i]) == Some(prefix)
    case InvalidMode => false
  }

  lemma ProviderItemsAreListed(discovered: seq<Discovered>, prefix: string)
    ensures Some(prefix) in ProviderItems(discovered) <==> Discovered(true, prefix) in discovered
  {
    var items := ProviderItems(discovered);
    assert forall i :: 0 <= i < |discovered| ==>
             (items[i] == Some(prefix) <==> discovered[i] == Discovered(true, prefix));
  }

  ghost predicate HasFirst(urls: seq<string>, url: string) {
    exists i :: 0 <= i < |urls| && urls[i] == url && TrimSpace(url) != "" && IsFirst(urls, i)
  }

  ghost predicate HasKey(urls: seq<string>, key: string) {
    exists i :: 0 <= i < |urls| && TrimSpace(urls[i]) != "" && UrlKey(urls[i]) == key
  }

  lemma OneMoreUrl(front: seq<string>, last: string, url: string, key: string)
    ensures HasKey(front + [last], key) <==> HasKey(front, key) || (TrimSpace(last) != "" && UrlKey(last) == key)
    ensures HasFirst(front + [last], url) <==>
              HasFirst(front, url) || (last == url && TrimSpace(last) != "" && !HasKey(front, UrlKey(last)))
  {
    hide TrimSpace;
    var urls := front + [last];
    assert urls[|front|] == last;
    assert forall i :: 0 <= i < |front| ==> urls[i] == front[i];
    assert forall i :: 0 <= i < |front| ==> (IsFirst(urls, i) <==> IsFirst(front, i));
    assert forall u :: |UrlKey(u)| == |TrimSpace(u)|;
  }

  /** What collapsing keeps is each URL at its first occurrence. */
  lemma {:induction false} UsableAreFirst(urls: seq<string>, url: string)
    ensures url in UsableUrls(urls) <==> HasFirst(urls, url)
    ensures forall key :: key in Keys(UsableUrls(urls)) <==> HasKey(urls, key)
  {
    hide TrimSpace, UrlKey, HasFirst, HasKey;
    if urls == [] {
      NoUrlIsFirst(url);
    } else {
      var n := |urls| - 1;
      var front, last := urls[..n], urls[n];
      assert urls == front + [last];
      UsableAreFirst(front, url);
      OneMoreUrl(front, last, url, "");
      forall key ensures HasKey(urls, key) <==> HasKey(front, key) || (TrimSpace(last) != "" && UrlKey(last) == key) {
        OneMoreUrl(front, last, url, key);
      }
      var before := UsableUrls(front);
      assert Keys(before + [last]) == Keys(before) + [UrlKey(last)];
    }
  }

  lemma NoUrlIsFirst(url: string)
    ensures !HasFirst([], url) && forall key :: !HasKey([], key)
  {
  }

  function Directories(w: World, items: seq<Option<string>>): set<string> {
    set i | 0 <= i < |items| && items[i].Some? :: w.directory(items[i].value)
  }

  ghost predicate ListsDirectory(w: World, mode: Mode, name: string) {
    exists prefix :: Lists(w, mode, prefix) && w.directory(prefix) == name
  }

  lemma ItemsAreListed(w: World, mode: Mode, prefix: string)
    requires JobItems(w, mode).Some?
    ensures Some(prefix) in JobItems(w, mode).value <==> Lists(w, mode, prefix)
  {
    match mode
    case ProviderMode(_, _, discovery) => ProviderItemsAreListed(discovery.value, prefix);
    case UrlMode(urls, _) => UrlItemsAreListed(w, urls, prefix);
  }

  lemma UrlItemsAreListed(w: World, urls: seq<string>, prefix: string)
    ensures Some(prefix) in UrlItems(w, UsableUrls(urls)) <==>
              exists i :: 0 <= i < |urls| && TrimSpace(urls[i]) != "" && IsFirst(urls, i)
                          && w.prefixOf(urls[i]) == Some(prefix)
  {
    hide TrimSpace, UsableUrls, IsFirst;
    var usable := UsableUrls(urls);
    if Some(prefix) in UrlItems(w, usable) {
      var k :| 0 <= k < |usable| && w.prefixOf(usable[k]) == Some(prefix);
      UsableAreFirst(urls, usable[k]);
    }
    forall i | 0 <= i < |urls| && TrimSpace(urls[i]) != "" && IsFirst(urls, i) && w.prefixOf(urls[i]) == Some(prefix)
      ensures Some(prefix) in UrlItems(w, usable)
    {
      UsableAreFirst(urls, urls[i]);
      var k :| 0 <= k < |usable| && usable[k] == urls[i];
      assert UrlItems(w, usable)[k] == Some(prefix);
    }
  }

  lemma DirectoriesAreListed(w: World, mode: Mode)
    requires JobItems(w, mode).Some?
    ensures forall name :: name in Directories(w, JobItems(w, mode).value) <==> ListsDirectory(w, mode, name)
  {
    hide JobItems, Lists;
    var items := JobItems(w, mode).value;
    forall prefix ensures Some(prefix) in items <==> Lists(w, mode, prefix) {
      ItemsAreListed(w, mode, prefix);
    }
    assert forall i :: 0 <= i < |items| && items[i].Some? ==> Some(items[i].value) in items;
  }

  datatype JobResult = Failed | Finished(complete: bool)

  /** Exactly the directories of the prefixes a job lists were added. */
  ghost predicate Adds(w: World, mode: Mode, before: set<string>, after: set<string>) {
    forall name :: name in after <==> name in before || ListsDirectory(w, mode, name)
  }

  /**
   A job reports a complete picture when it learned its items and its loop returned no
   error; a provider job also looks at the cancellation once more at its end.
   */
  ghost predicate IsComplete(w: World, i: nat, job: Job) {
    && job.Job?
    && match job.mode
       case ProviderMode(configured, resolves, discovery) =>
         && configured && resolves && discovery.Some?
         && !w.loop(i, |discovery.value|).failed && !w.cancelledAfter(i)
       case UrlMode(urls, credentialKnown) =>
         && credentialKnown && (exists j :: 0 <= j < |urls| && TrimSpace(urls[j]) != "")
         && !w.loop(i, |UsableUrls(urls)|).failed
       case InvalidMode => false
  }

  lemma CompleteHasItems(w: World, i: nat, job: Job)
    ensures IsComplete(w, i, job) <==>
              && job.Job? && JobItems(w, job.mode).Some? && !w.loop(i, |JobItems(w, job.mode).value|).failed
              && (job.mode.ProviderMode? ==> !w.cancelledAfter(i))
  {
    hide TrimSpace, UsableUrls;
    if job.Job? && job.mode.UrlMode? {
      var urls := job.mode.urls;
      UsableUrlsAreExact(urls);
      if j :| 0 <= j < |urls| && TrimSpace(urls[j]) != "" {
        assert urls[j] in urls && UrlKey(urls[j]) in Keys(UsableUrls(urls));
      }
      if UsableUrls(urls) != [] {
        assert UsableUrls(urls)[0] in UsableUrls(urls);
      }
    }
  }

  method CollapseUrls(urls: seq<string>) returns (usable: seq<string>)
    ensures usable == UsableUrls(urls)
  {
    hide TrimSpace, UrlKey;
    usable := [];
    var seen := {};
    for i := 0 to |urls|
      invariant usable == UsableUrls(urls[..i])
      invariant forall key :: key in seen <==> key in Keys(usable)
    {
      assert urls[..i + 1][..i] == urls[..i];
      if TrimSpace(urls[i]) == "" || UrlKey(urls[i]) in seen {
        continue;
      }
      assert Keys(usable + [urls[i]]) == Keys(usable) + [UrlKey(urls[i])];
      seen, usable := seen + {UrlKey(urls[i])}, usable + [urls[i]];
    }
    assert urls[..|urls|] == urls;
  }

  /** The loop over a job's items registers each prefix before that item's sync can fail. */
  method RunItems(w: World, end: LoopEnd, items: seq<Option<string>>, expected0: set<string>)
    returns (expected: set<string>)
    requires end.started <= |items|
    ensures expected0 <= expected <= expected0 + Directories(w, items)
    ensures end.started == |items| ==> expected == expected0 + Directories(w, items)
  {
    expected := expected0;
    for i := 0 to end.started
      invariant expected == expected0 + Directories(w, items[..i])
    {
      var grown := Directories(w, items[..i + 1]);
      assert items[..i + 1] == items[..i] + [items[i]];
      DirectoriesSnoc(w, items[..i], items[i]);
      if items[i].Some? {
        expected := expected + {w.directory(items[i].value)};
      }
    }
    assert end.started == |items| ==> items[..end.started] == items;
    DirectoriesPrefix(w, items, end.started);
  }

  lemma DirectoriesSnoc(w: World, items: seq<Option<string>>, item: Option<string>)
    ensures Directories(w, items + [item]) ==
            Directories(w, items) + if item.Some? then {w.directory(item.value)} else {}
  {
    var all := items + [item];
    assert forall i :: 0 <= i < |items| ==> all[i] == items[i];
    assert all[|items|] == item;
  }

  lemma DirectoriesPrefix(w: World, items: seq<Option<string>>, n: nat)
    requires n <= |items|
    ensures Directories(w, items[..n]) <= Directories(w, items)
  {
  }

  method RunProviderMode(w: World, job: nat, mode: Mode, expected0: set<string>)
    returns (result: JobResult, expected: set<string>)
    requires w.Valid() && mode.ProviderMode?
    ensures result == Finished(true) <==> IsComplete(w, job, Job(true, mode))
    ensures result == Finished(true) ==> Adds(w, mode, expected0, expected)
  {
    hide Lists, ListsDirectory;
    CompleteHasItems(w, job, Job(true, mode));
    if JobItems(w, mode).Some? {
      DirectoriesAreListed(w, mode);
    }
    expected := expected0;
    if !mode.configured {
      return Finished(false), expected;
    }
    if !mode.resolves {
      return Failed, expected;
    }
    if mode.discovery.None? {
      return (if w.cancelledAfter(job) then Failed else Finished(false)), expected;
    }
    var items := ProviderItems(mode.discovery.value);
    var end := w.loop(job, |items|);
    expected := RunItems(w, end, items, expected0);
    if end.failed {
      return Failed, expected;
    }
    result := Finished(!w.cancelledAfter(job));
  }

  lemma NoUrls()
    ensures UsableUrls([]) == []
  {
  }

  method RunUrlMode(w: World, job: nat, mode: Mode, expected0: set<string>)
    returns (result: JobResult, expected: set<string>)
    requires w.Valid() && mode.UrlMode?
    ensures result == Finished(true) <==> IsComplete(w, job, Job(true, mode))
    ensures result == Finished(true) ==> Adds(w, mode, expected0, expected)
  {
    hide UsableUrls, Lists, ListsDirectory, IsComplete;
    NoUrls();
    CompleteHasItems(w, job, Job(true, mode));
    if JobItems(w, mode).Some? {
      DirectoriesAreListed(w, mode);
    }
    expected := expected0;
    if |mode.urls| == 0 {
      return Finished(false), expected;
    }
    var urls := CollapseUrls(mode.urls);
    if |urls| == 0 || !mode.credentialKnown {
      return Finished(false), expected;
    }
    var items := UrlItems(w, urls);
    var end := w.loop(job, |items|);
    expected := RunItems(w, end, items, expected0);
    result := if end.failed then Failed else Finished(true);
  }

  // ---- removing what is not expected ----

  datatype DirEntry = DirEntry(name: string, isDir: bool)

  predicate IsOrphan(w: World, entry: DirEntry, expected: set<string>) {
    entry.isDir && entry.name !in expected && w.deletable(entry.name)
  }

  /**
   Exactly the directories that are not expected and can be deleted go; an unreadable mirror
   root leaves everything.
   */
  method RemoveOrphans(w: World, expected: set<string>, onDisk: Option<seq<DirEntry>>) returns (removed: set<string>)
    ensures onDisk.None? ==> removed == {}
    ensures onDisk.Some? ==>
              removed == set i | 0 <= i < |onDisk.value| && IsOrphan(w, onDisk.value[i], expected) ::
                           onDisk.value[i].name
  {
    removed := {};
    if onDisk.None? {
      return;
    }
    var entries := onDisk.value;
    for k := 0 to |entries|
      invariant removed == set i | 0 <= i < k && IsOrphan(w, entries[i], expected) :: entries[i].name
    {
      var entry := entries[k];
      if !entry.isDir || entry.name in expected {
        continue;
      }
      if w.deletable(entry.name) {
        removed := removed + {entry.name};
      }
    }
  }

  // ---- the run ----

  predicate IsEnabled(job: Job) { job.Missing? || job.enabled }

  datatype RunResult = Interrupted | Completed(removed: set<string>, cleaned: bool)

  /** Some enabled job among the first k lists a prefix with this directory. */
  ghost predicate IsListed(w: World, jobs: seq<Job>, k: nat, name: string)
    requires k <= |jobs|
  {
    exists i :: 0 <= i < k && jobs[i].Job? && jobs[i].enabled && ListsDirectory(w, jobs[i].mode, name)
  }

  ghost predicate Expects(w: World, jobs: seq<Job>, k: nat, expected: set<string>)
    requires k <= |jobs|
  {
    forall name :: name in expected <==> IsListed(w, jobs, k, name)
  }

  lemma ExpectsJob(w: World, jobs: seq<Job>, k: nat, expected: set<string>, expected': set<string>)
    requires k < |jobs| && Expects(w, jobs, k, expected) && jobs[k].Job? && jobs[k].enabled
    requires Adds(w, jobs[k].mode, expected, expected')
    ensures Expects(w, jobs, k + 1, expected')
  {
    hide ListsDirectory;
  }

  lemma ExpectsSkipped(w: World, jobs: seq<Job>, k: nat, expected: set<string>)
    requires k < |jobs| && Expects(w, jobs, k, expected) && !IsEnabled(jobs[k])
    ensures Expects(w, jobs, k + 1, expected)
  {
    hide ListsDirectory;
  }

  /** The orphans of an expected set, as RemoveOrphans finds them. */
  function Orphans(w: World, expected: set<string>, onDisk: Option<seq<DirEntry>>): set<string> {
    if onDisk.None? then {}
    else set i | 0 <= i < |onDisk.value| && IsOrphan(w, onDisk.value[i], expected) :: onDisk.value[i].name
  }

  /** Exactly the deletable directories on disk went that belong to nothing an enabled job lists. */
  ghost predicate CleanedUp(w: World, jobs: seq<Job>, onDisk: Option<seq<DirEntry>>, removed: set<string>) {
    forall name :: name in removed <==>
      && onDisk.Some? && DirEntry(name, true) in onDisk.value
      && w.deletable(name) && !IsListed(w, jobs, |jobs|, name)
  }

  lemma OrphansAreUnlisted(w: World, jobs: seq<Job>, expected: set<string>, onDisk: Option<seq<DirEntry>>)
    requires Expects(w, jobs, |jobs|, expected)
    ensures CleanedUp(w, jobs, onDisk, Orphans(w, expected, onDisk))
  {
    hide IsListed;
    forall name ensures name in Orphans(w, expected, onDisk) <==>
                          && onDisk.Some? && DirEntry(name, true) in onDisk.value
                          && w.deletable(name) && name !in expected
    {
      if onDisk.Some? && DirEntry(name, true) in onDisk.value {
        var i :| 0 <= i < |onDisk.value| && onDisk.value[i] == DirEntry(name, true);
        assert IsOrphan(w, onDisk.value[i], expected) <==> name !in expected && w.deletable(name);
      }
    }
  }

  /**
   One run over every job. Mirrors are removed only when every enabled job knew all of
   its repositories and started them all; what goes is then exactly what none of them lists.
   */
  method Run(w: World, jobs: seq<Job>, onDisk: Option<seq<DirEntry>>)
    returns (result: RunResult)
    requires w.Valid()
    ensures result.Interrupted? ==> exists i :: w.cancelledBefore(i) || w.cancelledAfter(i)
    ensures result.Completed? ==>
              (result.cleaned <==> forall i :: 0 <= i < |jobs| ==>
                (jobs[i].Job? && !jobs[i].enabled) || IsComplete(w, i, jobs[i]))
    ensures result.Completed? && !result.cleaned ==> result.removed == {}
    ensures result.Completed? && result.cleaned ==>
              CleanedUp(w, jobs, onDisk, result.removed)
  {
    hide Expects, Adds, IsComplete, JobItems, Directories, World.Valid;
    var directories: set<string> := {};
    var pictureComplete := true;
    NothingExpected(w, jobs);
    for i := 0 to |jobs|
      invariant pictureComplete <==>
                  forall j :: 0 <= j < i ==> (jobs[j].Job? && !jobs[j].enabled) || IsComplete(w, j, jobs[j])
      invariant pictureComplete ==> Expects(w, jobs, i, directories)
    {
      var job := jobs[i];
      if !IsEnabled(job) {
        if pictureComplete {
          ExpectsSkipped(w, jobs, i, directories);
        }
        continue;
      }
      if w.cancelledBefore(i) {
        return Interrupted;
      }
      if job.Missing? || job.mode.InvalidMode? {
        InvalidIsIncomplete(w, i, job);
        pictureComplete := false;
        continue;
      }
      ghost var before := directories;
      var outcome: JobResult;
      if job.mode.ProviderMode? {
        outcome, directories := RunProviderMode(w, i, job.mode, directories);
      } else {
        outcome, directories := RunUrlMode(w, i, job.mode, directories);
      }
      if outcome.Failed? {
        if w.cancelledAfter(i) {
          return Interrupted;
        }
        pictureComplete := false;
        continue;
      }
      assert job == Job(true, job.mode);
      if pictureComplete && outcome.complete {
        ExpectsJob(w, jobs, i, before, directories);
      }
      pictureComplete := pictureComplete && outcome.complete;
    }
    if !pictureComplete {
      return Completed({}, false);
    }
    OrphansAreUnlisted(w, jobs, directories, onDisk);
    var removed := RemoveOrphans(w, directories, onDisk);
    result := Completed(removed, true);
  }

  lemma InvalidIsIncomplete(w: World, i: nat, job: Job)
    requires job.Missing? || job.mode.InvalidMode?
    ensures !IsComplete(w, i, job)
  {
  }

  lemma NothingExpected(w: World, jobs: seq<Job>)
    ensures Expects(w, jobs, 0, {})
  {
  }

  // ---- what a cleanup can and cannot take ----

  /** Some enabled job lists this prefix, whether or not its sync then succeeded. */
  ghost predicate ListedThisRun(w: World, jobs: seq<Job>, prefix: string) {
    exists i :: 0 <= i < |jobs| && jobs[i].Job? && jobs[i].enabled && Lists(w, jobs[i].mode, prefix)
  }

  /**
   After a cleanup, with prefixes told apart by their directory names, a mirror directory on
   disk was removed exactly when no job lists its prefix and it could be deleted.
   */
  lemma RemovedIffUnlisted(w: World, jobs: seq<Job>, onDisk: seq<DirEntry>, removed: set<string>, prefix: string)
    requires CleanedUp(w, jobs, Some(onDisk), removed)
    requires forall a, b :: w.directory(a) == w.directory(b) ==> a == b
    requires DirEntry(w.directory(prefix), true) in onDisk
    ensures w.directory(prefix) in removed <==>
              !ListedThisRun(w, jobs, prefix) && w.deletable(w.directory(prefix))
  {
    hide Lists;
    if ListedThisRun(w, jobs, prefix) {
      var i :| 0 <= i < |jobs| && jobs[i].Job? && jobs[i].enabled && Lists(w, jobs[i].mode, prefix);
      assert ListsDirectory(w, jobs[i].mode, w.directory(prefix));
    }
  }
}
