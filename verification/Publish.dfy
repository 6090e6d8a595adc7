/**
 * Publishing a preview: any number of `publish` runs for one tag, against a remote whose tag and release
 * and local directories that anyone may change between any two commands.
 */
module Publish {
  import opened Wrappers
  import opened Release

  /** The release of the tag, once one exists, and the run whose `gh release create` made it, if any did. */
  datatype RemoteRelease = RemoteRelease(creator: Option<nat>, draft: bool, assets: Directory)

  /** What `git ls-remote` lists for the tag: the ref itself, and the commit an annotated tag peels to. */
  datatype TagRefs = TagRefs(direct: Option<string>, peeled: Option<string>)

  /** `refs.get(ref + "^{}", refs.get(ref))` */
  function TagCommit(refs: TagRefs): Option<string> {
    if refs.peeled.Some? then refs.peeled else refs.direct
  }

  /** An annotated tag counts by the commit it peels to, a plain one by itself. */
  lemma TagCommitExactly(refs: TagRefs, commit: string)
    ensures TagCommit(refs) == Some(commit) <==>
      refs.peeled == Some(commit) || (refs.peeled.None? && refs.direct == Some(commit))
  {
  }

  datatype Remote = Remote(tag: TagRefs, release: Option<RemoteRelease>)

  /** Where a run of `publish` is: the command it executes next, or how it ended. */
  datatype Position =
    | Identifying | VerifyingLocal | CheckingAncestor | CheckingTag | Creating | Uploading | Downloading
    | VerifyingDownload | Comparing | RecheckingTag | Editing | Published | EditFailed | Failed

  /** A run, with what it saw: the files it downloaded, the local files it compared them with, the two tag readings. */
  datatype Publisher = Publisher(commit: string, at: Position, local: Directory,
                                 downloaded: Directory, compared: Directory,
                                 tagBefore: Option<string>, created: bool, tagAfter: Option<string>)

  datatype World = World(remote: Remote, runs: map<nat, Publisher>)

  /** A command succeeds, or fails without or in spite of its effect on the remote. */
  datatype CommandResult = Succeeds | FailsWithoutEffect | FailsAfterEffect

  datatype Action =
    | Command(run: nat, outcome: CommandResult)    // a run executes its next command
    | StartRun(run: nat, commit: string, dir: Directory)
    | MoveTag(to: TagRefs)                         // the remote tag changes
    | EditLocal(run: nat, dir: Directory)          // a run's local directory changes
    | Rewrite(draft: bool, assets: Directory)      // somebody else rewrites the release, or makes one
    | Delete                                       // somebody else deletes it

  /** A change of the release by somebody else. */
  predicate ByOthers(a: Action) { a.Rewrite? || a.Delete? }

  predicate NobodyInterferes(actions: seq<Action>) {
    forall k :: 0 <= k < |actions| ==> !ByOthers(actions[k])
  }

  datatype Config = Config(tools: Tools, tag: string)

  /** `any(digest(downloaded / name) != digest(directory / name) for name in FILES)`, negated. */
  predicate SameDigests(t: Tools, a: Directory, b: Directory) {
    forall n :: n in FILES ==> n in a && n in b && t.digest(Content(a, n)) == t.digest(Content(b, n))
  }

  predicate Passes(c: Config, d: Directory, commit: string) {
    Verify(c.tools, d, commit, Some(c.tag)).Ok?
  }

  function Move(w: World, i: nat, p: Publisher): World {
    w.(runs := w.runs[i := p])
  }

  function WithRelease(w: World, r: RemoteRelease): World {
    w.(remote := w.remote.(release := Some(r)))
  }

  /** `gh release upload` is given the package's files by name. */
  function Uploaded(d: Directory): Directory {
    map n | n in d && n in FILES :: d[n]
  }

  /** Without `--clobber` an upload needs all its files, and a release that has none of them yet. */
  predicate CanUpload(r: Remote, local: Directory) {
    r.release.Some? && FILES <= local.Keys && r.release.value.assets.Keys !! FILES
  }

  /** `gh release create --verify-tag` needs the tag and refuses an existing release, even a draft. */
  predicate CanCreate(r: Remote) { TagCommit(r.tag).Some? && r.release.None? }

  /** A run after its next command, given the remote as it finds it. */
  function Next(c: Config, r: Remote, p: Publisher, outcome: CommandResult): Publisher {
    var ok := outcome.Succeeds?;
    var failed := p.(at := Failed);
    match p.at
    case Identifying => if ok then p.(at := VerifyingLocal) else failed
    case VerifyingLocal => if Passes(c, p.local, p.commit) then p.(at := CheckingAncestor) else failed
    case CheckingAncestor => if ok then p.(at := CheckingTag) else failed
    case CheckingTag =>
      if ok && TagCommit(r.tag) == Some(p.commit) then p.(at := Creating, tagBefore := TagCommit(r.tag)) else failed
    case Creating => if ok && CanCreate(r) then p.(at := Uploading, created := true) else failed
    case Uploading => if ok && CanUpload(r, p.local) then p.(at := Downloading) else failed
    case Downloading =>
      if ok && r.release.Some? then p.(at := VerifyingDownload, downloaded := r.release.value.assets) else failed
    case VerifyingDownload => if Passes(c, p.downloaded, p.commit) then p.(at := Comparing) else failed
    case Comparing =>
      if SameDigests(c.tools, p.downloaded, p.local) then p.(at := RecheckingTag, compared := p.local) else failed
    case RecheckingTag =>
      if ok && TagCommit(r.tag) == Some(p.commit) then p.(at := Editing, tagAfter := TagCommit(r.tag)) else failed
    case Editing => p.(at := if ok && r.release.Some? then Published else EditFailed)
    case _ => p
  }

  /** The release after a command of run `i`: only three commands write to the remote, if they take effect. */
  function ReleaseAfter(r: Remote, i: nat, p: Publisher, outcome: CommandResult): Option<RemoteRelease> {
    if outcome.FailsWithoutEffect? then r.release
    else if p.at.Creating? && CanCreate(r) then Some(RemoteRelease(Some(i), true, map[]))
    else if p.at.Uploading? && CanUpload(r, p.local) then
      Some(r.release.value.(assets := r.release.value.assets + Uploaded(p.local)))
    else if p.at.Editing? && r.release.Some? then Some(r.release.value.(draft := false))
    else r.release
  }

  /** The next command of run `i`. */
  function Execute(c: Config, w: World, i: nat, outcome: CommandResult): World
    requires i in w.runs
  {
    var p := w.runs[i];
    World(w.remote.(release := ReleaseAfter(w.remote, i, p, outcome)), w.runs[i := Next(c, w.remote, p, outcome)])
  }

  function Fresh(commit: string, dir: Directory): Publisher {
    Publisher(commit, Identifying, dir, map[], map[], None, false, None)
  }

  function Step(c: Config, w: World, a: Action): World {
    match a
    case Command(i, outcome) => if i in w.runs then Execute(c, w, i, outcome) else w
    case StartRun(i, commit, dir) => if i in w.runs then w else Move(w, i, Fresh(commit, dir))
    case MoveTag(to) => w.(remote := w.remote.(tag := to))
    case EditLocal(i, dir) => if i in w.runs then Move(w, i, w.runs[i].(local := dir)) else w
    case Rewrite(draft, assets) =>
      var creator := if w.remote.release.Some? then w.remote.release.value.creator else None;
      WithRelease(w, RemoteRelease(creator, draft, assets))
    case Delete => w.(remote := w.remote.(release := None))
  }

  function Run(c: Config, w: World, actions: seq<Action>): World
    decreases |actions|
  {
    if actions == [] then w else Run(c, Step(c, w, actions[0]), actions[1..])
  }

  /** What may happen between the commands of the runs: everything the program has no hold on, at any time. */
  lemma OthersMayDo(c: Config, w: World, i: nat, commit: string, dir: Directory, tag: TagRefs, draft: bool)
    ensures Step(c, w, MoveTag(tag)) == World(Remote(tag, w.remote.release), w.runs)
    ensures Step(c, w, Delete) == World(Remote(w.remote.tag, None), w.runs)
    ensures var v := Step(c, w, Rewrite(draft, dir));
      && v.runs == w.runs && v.remote.tag == w.remote.tag
      && v.remote.release.Some? && v.remote.release.value.draft == draft && v.remote.release.value.assets == dir
      && v.remote.release.value.creator == if w.remote.release.None? then None else w.remote.release.value.creator
    ensures i in w.runs ==> Step(c, w, EditLocal(i, dir)) == World(w.remote, w.runs[i := w.runs[i].(local := dir)])
    ensures var started := Publisher(commit, Identifying, dir, map[], map[], None, false, None);
      i !in w.runs ==> Step(c, w, StartRun(i, commit, dir)) == World(w.remote, w.runs[i := started])
  {
  }

  /** Nothing published yet: no release and no run. */
  predicate IsFresh(w: World) {
    w.remote.release.None? && w.runs == map[]
  }

  // ---- what each run has checked by the time it edits, whatever everyone else does ----

  function Rank(at: Position): nat {
    match at
    case Identifying => 0
    case VerifyingLocal => 1
    case CheckingAncestor => 2
    case CheckingTag => 3
    case Creating => 4
    case Uploading => 5
    case Downloading => 6
    case VerifyingDownload => 7
    case Comparing => 8
    case RecheckingTag => 9
    case Editing => 10
    case Published => 11
    case EditFailed => 11
    case Failed => 0
  }

  /** A run's observations, as far as it has come. */
  predicate Observed(c: Config, p: Publisher) {
    && (Rank(p.at) >= 4 ==> p.tagBefore == Some(p.commit))
    && (Rank(p.at) >= 5 ==> p.created)
    && (Rank(p.at) >= 8 ==> Passes(c, p.downloaded, p.commit))
    && (Rank(p.at) >= 9 ==> SameDigests(c.tools, p.downloaded, p.compared))
    && (Rank(p.at) >= 10 ==> p.tagAfter == Some(p.commit))
  }

  predicate AllObserved(c: Config, w: World) {
    forall i :: i in w.runs ==> Observed(c, w.runs[i])
  }

  lemma StepKeepsObservations(c: Config, w: World, a: Action)
    requires AllObserved(c, w)
    ensures AllObserved(c, Step(c, w, a))
  {
    hide Observed, Next;
    if a.Command? && a.run in w.runs {
      ExecuteKeepsObservations(c, w.remote, w.runs[a.run], a.outcome);
    } else if a.StartRun? {
      FreshObserved(c, a.commit, a.dir);
    } else if a.EditLocal? && a.run in w.runs {
      LocalNotObserved(c, w.runs[a.run], a.dir);
    }
  }

  lemma FreshObserved(c: Config, commit: string, dir: Directory)
    ensures Observed(c, Fresh(commit, dir))
  {
  }

  lemma LocalNotObserved(c: Config, p: Publisher, dir: Directory)
    requires Observed(c, p)
    ensures Observed(c, p.(local := dir))
  {
    hide Passes, SameDigests;
  }

  lemma ExecuteKeepsObservations(c: Config, r: Remote, p: Publisher, outcome: CommandResult)
    requires Observed(c, p)
    ensures Observed(c, Next(c, r, p, outcome))
  {
    hide Passes, SameDigests, TagCommit, CanCreate, CanUpload;
    if
    case p.at in {Identifying, VerifyingLocal, CheckingAncestor, CheckingTag, Creating} =>
    case p.at in {Uploading, Downloading, VerifyingDownload, Comparing} =>
    case p.at in {RecheckingTag, Editing, Published, EditFailed, Failed} =>
  }

  lemma {:induction false} RunKeepsObservations(c: Config, w: World, actions: seq<Action>)
    requires AllObserved(c, w)
    ensures AllObserved(c, Run(c, w, actions))
    decreases |actions|
  {
    hide Step, AllObserved;
    if actions != [] {
      StepKeepsObservations(c, w, actions[0]);
      RunKeepsObservations(c, Step(c, w, actions[0]), actions[1..]);
    }
  }

  // ---- the commands a run has behind it ----

  /** The world before the `k`-th action of a run of the whole system. */
  function Before(c: Config, w: World, actions: seq<Action>, k: nat): World
    requires k < |actions|
  {
    Run(c, w, actions[..k])
  }

  /** Action `k` is the command that run `i` executes at `at`. */
  predicate CommandAt(c: Config, w: World, actions: seq<Action>, k: nat, i: nat, at: Position)
    requires k < |actions|
  {
    && actions[k].Command? && actions[k].run == i
    && i in Before(c, w, actions, k).runs && Before(c, w, actions, k).runs[i].at == at
  }

  /** Run `i` was started for this commit. */
  ghost predicate StartedFor(actions: seq<Action>, i: nat, commit: string) {
    exists k :: 0 <= k < |actions| && actions[k].StartRun? && actions[k].run == i && actions[k].commit == commit
  }

  ghost predicate SucceededAt(c: Config, w: World, actions: seq<Action>, i: nat, at: Position) {
    exists k :: 0 <= k < |actions| && CommandAt(c, w, actions, k, i, at) && actions[k].outcome.Succeeds?
  }

  /** Its local directory passed, for its commit and the tag, when it was looked at. */
  ghost predicate LocalPassed(c: Config, w: World, actions: seq<Action>, i: nat, commit: string) {
    exists k :: 0 <= k < |actions| && CommandAt(c, w, actions, k, i, VerifyingLocal)
             && Verify(c.tools, Before(c, w, actions, k).runs[i].local, commit, Some(c.tag)).Ok?
  }

  /** There was no release when it created one, and the tag was there. */
  ghost predicate CreatedAnew(c: Config, w: World, actions: seq<Action>, i: nat) {
    exists k :: 0 <= k < |actions| && CommandAt(c, w, actions, k, i, Creating) && actions[k].outcome.Succeeds?
             && Before(c, w, actions, k).remote.release.None?
             && (Before(c, w, actions, k).remote.tag.peeled.Some? || Before(c, w, actions, k).remote.tag.direct.Some?)
  }

  /** The annotated commit of the tag, or else the ref itself, was the commit when run `i` stood at `at`. */
  ghost predicate TagSeenAt(c: Config, w: World, actions: seq<Action>, i: nat, commit: string, at: Position) {
    exists k :: 0 <= k < |actions| && CommandAt(c, w, actions, k, i, at) && actions[k].outcome.Succeeds?
             && var tag := Before(c, w, actions, k).remote.tag;
                (tag.peeled == Some(commit) || (tag.peeled.None? && tag.direct == Some(commit)))
  }

  /** The download was a copy of the release's assets at that time. */
  ghost predicate DownloadedAt(c: Config, w: World, actions: seq<Action>, i: nat, copy: Directory) {
    exists k :: 0 <= k < |actions| && CommandAt(c, w, actions, k, i, Downloading) && actions[k].outcome.Succeeds?
             && Before(c, w, actions, k).remote.release.Some?
             && Before(c, w, actions, k).remote.release.value.assets == copy
  }

  /** The files it compared the download with were its local ones at that time. */
  ghost predicate ComparedAt(c: Config, w: World, actions: seq<Action>, i: nat, files: Directory) {
    exists k :: 0 <= k < |actions| && CommandAt(c, w, actions, k, i, Comparing)
             && Before(c, w, actions, k).runs[i].local == files
  }

  /** What must have happened for run `i` to stand where it does. */
  ghost predicate Explained(c: Config, w: World, actions: seq<Action>, i: nat, p: Publisher) {
    && StartedFor(actions, i, p.commit)
    && (Rank(p.at) > 0 ==> SucceededAt(c, w, actions, i, Identifying))
    && (Rank(p.at) > 1 ==> LocalPassed(c, w, actions, i, p.commit))
    && (Rank(p.at) > 2 ==> SucceededAt(c, w, actions, i, CheckingAncestor))
    && (Rank(p.at) > 3 ==> TagSeenAt(c, w, actions, i, p.commit, CheckingTag))
    && (Rank(p.at) > 4 ==> CreatedAnew(c, w, actions, i))
    && (Rank(p.at) > 5 ==> SucceededAt(c, w, actions, i, Uploading))
    && (Rank(p.at) > 6 ==> DownloadedAt(c, w, actions, i, p.downloaded))
    && (Rank(p.at) > 8 ==> ComparedAt(c, w, actions, i, p.compared))
    && (Rank(p.at) > 9 ==> TagSeenAt(c, w, actions, i, p.commit, RecheckingTag))
  }

  /** Facts about the past stay when something more happens. */
  lemma PastStays(c: Config, w: World, front: seq<Action>, a: Action, i: nat, p: Publisher)
    requires Explained(c, w, front, i, p)
    ensures Explained(c, w, front + [a], i, p)
  {
    hide Run, Rank;
    var actions := front + [a];
    assert forall k :: 0 <= k < |front| ==> actions[..k] == front[..k] && actions[k] == front[k];
    assert forall k, at | 0 <= k < |front| ::
      CommandAt(c, w, front, k, i, at) ==> CommandAt(c, w, actions, k, i, at);
  }

  /** The step run `i` has just taken explains its new position. */
  lemma StepExplained(c: Config, w: World, front: seq<Action>, i: nat, outcome: CommandResult)
    requires i in Run(c, w, front).runs
    requires Explained(c, w, front + [Command(i, outcome)], i, Run(c, w, front).runs[i])
    ensures var u := Run(c, w, front);
      Explained(c, w, front + [Command(i, outcome)], i, Next(c, u.remote, u.runs[i], outcome))
  {
    hide Run, SameDigests, Passes, TagCommit, CanCreate, CanUpload;
    hide StartedFor, SucceededAt, LocalPassed, TagSeenAt, CreatedAnew, DownloadedAt, ComparedAt;
    CommandWitnessed(c, w, front, i, outcome);
  }

  lemma CommandWitnessed(c: Config, w: World, front: seq<Action>, i: nat, outcome: CommandResult)
    requires i in Run(c, w, front).runs
    ensures var u, actions := Run(c, w, front), front + [Command(i, outcome)]; var p := u.runs[i];
      && (outcome.Succeeds? ==> SucceededAt(c, w, actions, i, p.at))
      && (p.at.VerifyingLocal? && Passes(c, p.local, p.commit) ==> LocalPassed(c, w, actions, i, p.commit))
      && (p.at.Creating? && outcome.Succeeds? && CanCreate(u.remote) ==> CreatedAnew(c, w, actions, i))
      && (outcome.Succeeds? && TagCommit(u.remote.tag) == Some(p.commit) ==>
            TagSeenAt(c, w, actions, i, p.commit, p.at))
      && (p.at.Downloading? && outcome.Succeeds? && u.remote.release.Some? ==>
            DownloadedAt(c, w, actions, i, u.remote.release.value.assets))
      && (p.at.Comparing? ==> ComparedAt(c, w, actions, i, p.local))
  {
    hide Run, SameDigests;
    var actions, k := front + [Command(i, outcome)], |front|;
    assert actions[..k] == front && actions[k] == Command(i, outcome);
    assert CommandAt(c, w, actions, k, i, Run(c, w, front).runs[i].at);
  }

  lemma {:induction false} RunExplained(c: Config, w: World, actions: seq<Action>, i: nat)
    requires w.runs == map[] && i in Run(c, w, actions).runs
    ensures Explained(c, w, actions, i, Run(c, w, actions).runs[i])
    decreases |actions|
  {
    hide Run, Explained, Next, ReleaseAfter;
    if actions == [] {
      RunOfNothing(c, w);
    } else {
      var n := |actions| - 1;
      var front, a := actions[..n], actions[n];
      assert actions == front + [a];
      RunOfConcat(c, w, front, [a]);
      var u := Run(c, w, front);
      RunOfOne(c, u, a);
      if i in u.runs {
        RunExplained(c, w, front, i);
        PastStays(c, w, front, a, i, u.runs[i]);
        if a.Command? && a.run == i {
          StepExplained(c, w, front, i, a.outcome);
        } else if a.EditLocal? && a.run == i {
          LocalIsNotExplained(c, w, actions, i, u.runs[i], a.dir);
        }
      } else {
        FreshExplained(c, w, actions, i);
      }
    }
  }

  lemma RunOfNothing(c: Config, w: World)
    ensures Run(c, w, []) == w
  {
  }

  lemma LocalIsNotExplained(c: Config, w: World, actions: seq<Action>, i: nat, p: Publisher, dir: Directory)
    requires Explained(c, w, actions, i, p)
    ensures Explained(c, w, actions, i, p.(local := dir))
  {
    hide StartedFor, SucceededAt, LocalPassed, TagSeenAt, CreatedAnew, DownloadedAt, ComparedAt;
  }

  lemma FreshExplained(c: Config, w: World, actions: seq<Action>, i: nat)
    requires actions != [] && actions[|actions| - 1].StartRun? && actions[|actions| - 1].run == i
    ensures var a := actions[|actions| - 1]; Explained(c, w, actions, i, Fresh(a.commit, a.dir))
  {
    hide SucceededAt, LocalPassed, TagSeenAt, CreatedAnew, DownloadedAt, ComparedAt;
    assert actions[|actions| - 1].commit == actions[|actions| - 1].commit;
  }

  /** All checks of a run that reached the edit, where and when it made them. */
  ghost predicate AllChecked(c: Config, w: World, actions: seq<Action>, i: nat, p: Publisher) {
    && StartedFor(actions, i, p.commit)
    && SucceededAt(c, w, actions, i, Identifying)
    && LocalPassed(c, w, actions, i, p.commit)
    && SucceededAt(c, w, actions, i, CheckingAncestor)
    && TagSeenAt(c, w, actions, i, p.commit, CheckingTag)
    && CreatedAnew(c, w, actions, i)
    && SucceededAt(c, w, actions, i, Uploading)
    && DownloadedAt(c, w, actions, i, p.downloaded)
    && ComparedAt(c, w, actions, i, p.compared)
    && TagSeenAt(c, w, actions, i, p.commit, RecheckingTag)
  }

  /**
   * The edit is only ever issued by a run that identified its checkout, whose local directory passed, whose
   * commit is an ancestor of the main branch, whose own create succeeded, that saw the tag at its commit before
   * it and again at the end, and that downloaded files which pass and match, whatever anyone changes meanwhile.
   */
  lemma EditOnlyAfterAllChecks(c: Config, w: World, actions: seq<Action>, i: nat)
    requires IsFresh(w)
    requires i in Run(c, w, actions).runs && Rank(Run(c, w, actions).runs[i].at) >= 10
    ensures var p := Run(c, w, actions).runs[i];
      && AllChecked(c, w, actions, i, p)
      && p.created && p.tagBefore == Some(p.commit) && p.tagAfter == Some(p.commit)
      && Passes(c, p.downloaded, p.commit) && SameDigests(c.tools, p.downloaded, p.compared)
  {
    hide Run, Passes, SameDigests;
    RunKeepsObservations(c, w, actions);
    RunExplained(c, w, actions, i);
    assert Observed(c, Run(c, w, actions).runs[i]);
  }

  // ---- who owns the release, while others rewrite and delete it ----

  /** A run that got past `gh release create` owns the release. */
  predicate Owns(p: Publisher) { Rank(p.at) >= 5 }

  function Owners(w: World): set<nat> {
    set i | i in w.runs && Owns(w.runs[i])
  }

  function Deletions(actions: seq<Action>): nat {
    if actions == [] then 0 else (if actions[0].Delete? then 1 else 0) + Deletions(actions[1..])
  }

  lemma {:induction false} DeletionsCounted(actions: seq<Action>)
    ensures Deletions(actions) == multiset(actions)[Delete]
  {
    if actions != [] {
      DeletionsCounted(actions[1..]);
      assert actions == [actions[0]] + actions[1..];
    }
  }

  /** How many more runs could still create a release. */
  function Room(w: World): nat { if w.remote.release.None? then 1 else 0 }

  /** Each deletion makes room for one more owner, and nothing else does. */
  lemma {:induction false} OwnersBounded(c: Config, w: World, actions: seq<Action>)
    ensures var v := Run(c, w, actions); |Owners(v)| + Room(v) <= |Owners(w)| + Room(w) + Deletions(actions)
    decreases |actions|
  {
    hide Step, Owners, Room;
    if actions != [] {
      OwnersOfStep(c, w, actions[0]);
      OwnersBounded(c, Step(c, w, actions[0]), actions[1..]);
    }
  }

  lemma OwnersOfStep(c: Config, w: World, a: Action)
    ensures var v := Step(c, w, a); |Owners(v)| + Room(v) <= |Owners(w)| + Room(w) + if a.Delete? then 1 else 0
  {
    hide Next, ReleaseAfter, Owns;
    var v := Step(c, w, a);
    if a.Command? && a.run in w.runs {
      OwnersOfCommand(c, w.remote, a.run, w.runs[a.run], a.outcome);
      if Owns(v.runs[a.run]) && !Owns(w.runs[a.run]) {
        assert Owners(v) == Owners(w) + {a.run};
      } else {
        FewerOwners(w, v);
      }
    } else {
      FreshDoesNotOwn();
      LocalDoesNotOwn();
      FewerOwners(w, v);
    }
  }

  lemma FreshDoesNotOwn()
    ensures forall commit, dir :: !Owns(Fresh(commit, dir))
  {
  }

  lemma LocalDoesNotOwn()
    ensures forall p: Publisher, dir :: Owns(p.(local := dir)) <==> Owns(p)
  {
  }

  /**
   * A run becomes an owner only by creating the release, and no command makes a release go away or change its
   * creator.
   */
  lemma OwnersOfCommand(c: Config, r: Remote, i: nat, p: Publisher, outcome: CommandResult)
    ensures var q, release := Next(c, r, p, outcome), ReleaseAfter(r, i, p, outcome);
      && (Owns(q) && !Owns(p) ==> r.release.None? && release.Some? && release.value.creator == Some(i))
      && (r.release.Some? ==> release.Some? && release.value.creator == r.release.value.creator)
  {
    hide Passes, SameDigests, TagCommit, Uploaded;
  }

  lemma FewerOwners(w: World, v: World)
    requires forall i :: i in v.runs && Owns(v.runs[i]) ==> i in w.runs && Owns(w.runs[i])
    ensures |Owners(v)| <= |Owners(w)|
  {
    assert Owners(v) <= Owners(w);
    SmallerSet(Owners(v), Owners(w));
  }

  lemma SmallerSet(a: set<nat>, b: set<nat>)
    requires a <= b
    ensures |a| <= |b|
  {
    assert b == a + (b - a);
  }

  /** Two runs never both get past creation unless the release was deleted: an existing one is never resumed. */
  lemma OneOwner(c: Config, w: World, actions: seq<Action>, i: nat, j: nat)
    requires IsFresh(w) && Deletions(actions) == 0
    requires var v := Run(c, w, actions); i in v.runs && j in v.runs && Owns(v.runs[i]) && Owns(v.runs[j])
    ensures i == j
  {
    hide Run;
    var v := Run(c, w, actions);
    OwnersBounded(c, w, actions);
    assert Owners(w) == {};
    assert {i, j} <= Owners(v);
    SmallerSet({i, j}, Owners(v));
  }

  // ---- what is public is verified, as long as nobody interferes between a download and an edit ----

  /** Between its download and its end. */
  predicate Trusting(p: Publisher) { 7 <= Rank(p.at) <= 10 }

  /** Past creation and not at its end. */
  predicate Holds(p: Publisher) { 5 <= Rank(p.at) <= 10 }

  predicate NobodyTrusts(w: World) {
    forall i :: i in w.runs ==> !Trusting(w.runs[i])
  }

  predicate NobodyHolds(w: World) {
    forall i :: i in w.runs ==> !Holds(w.runs[i])
  }

  /**
   * Others may do anything to the tag and to local directories, and may delete and rewrite the release while no
   * run is between its download and its end; but they do not make it public themselves.
   */
  predicate Tolerable(w: World, a: Action) {
    ByOthers(a) ==> NobodyTrusts(w) && (a.Rewrite? ==> a.draft)
  }

  /** Deletions moreover wait until no run is past creation and still going. */
  predicate Orderly(w: World, a: Action) {
    Tolerable(w, a) && (a.Delete? ==> NobodyHolds(w))
  }

  /** Where a run is when its release must be left alone, position by position. */
  lemma ToleranceExactly(w: World, a: Action)
    ensures Tolerable(w, a) <==>
      match a
      case Rewrite(draft, _) => draft && forall i :: i in w.runs ==>
          w.runs[i].at !in {VerifyingDownload, Comparing, RecheckingTag, Editing}
      case Delete => forall i :: i in w.runs ==> w.runs[i].at !in {VerifyingDownload, Comparing, RecheckingTag, Editing}
      case _ => true
    ensures Orderly(w, a) <==> Tolerable(w, a) && (a.Delete? ==> forall i :: i in w.runs ==>
      w.runs[i].at !in {Uploading, Downloading, VerifyingDownload, Comparing, RecheckingTag, Editing})
  {
  }

  predicate AllTolerable(c: Config, w: World, actions: seq<Action>)
    decreases |actions|
  {
    actions == [] || (Tolerable(w, actions[0]) && AllTolerable(c, Step(c, w, actions[0]), actions[1..]))
  }

  predicate AllOrderly(c: Config, w: World, actions: seq<Action>)
    decreases |actions|
  {
    actions == [] || (Orderly(w, actions[0]) && AllOrderly(c, Step(c, w, actions[0]), actions[1..]))
  }

  /** What run `p` relies on is still so: the assets are its copy, or its copy is about to be refused. */
  predicate CopyHolds(c: Config, r: Remote, p: Publisher) {
    Trusting(p) ==>
      && r.release.Some?
      && (r.release.value.assets == p.downloaded || (p.at.VerifyingDownload? && !Passes(c, p.downloaded, p.commit)))
  }

  /** Run `p` came to its end having downloaded these assets. */
  predicate Vouches(p: Publisher, assets: Directory) {
    (p.at.Published? || p.at.EditFailed?) && p.downloaded == assets
  }

  predicate IsPublic(r: Remote) { r.release.Some? && !r.release.value.draft }

  ghost predicate Trustworthy(c: Config, w: World) {
    && (forall i :: i in w.runs ==> CopyHolds(c, w.remote, w.runs[i]))
    && (IsPublic(w.remote) ==> exists i :: i in w.runs && Vouches(w.runs[i], w.remote.release.value.assets))
  }

  lemma StepKeepsTrustworthy(c: Config, w: World, a: Action)
    requires Trustworthy(c, w) && AllObserved(c, w) && Tolerable(w, a)
    ensures Trustworthy(c, Step(c, w, a))
  {
    hide Passes, SameDigests, TagCommit, Next, ReleaseAfter, Observed;
    var v := Step(c, w, a);
    match a
    case Command(i, outcome) =>
      if i in w.runs {
        CommandKeepsTrustworthy(c, w, i, outcome);
      }
    case StartRun(i, commit, dir) =>
      assert forall j :: j in w.runs ==> v.runs[j] == w.runs[j];
    case EditLocal(i, dir) =>
      if IsPublic(w.remote) {
        var k :| k in w.runs && Vouches(w.runs[k], w.remote.release.value.assets);
        assert Vouches(v.runs[k], v.remote.release.value.assets);
      }
    case MoveTag(to) =>
    case Rewrite(draft, assets) =>
    case Delete =>
  }

  lemma CommandKeepsTrustworthy(c: Config, w: World, i: nat, outcome: CommandResult)
    requires Trustworthy(c, w) && AllObserved(c, w) && i in w.runs
    ensures Trustworthy(c, Execute(c, w, i, outcome))
  {
    hide Passes, SameDigests, TagCommit, Next, ReleaseAfter, Observed, CopyHolds, Vouches;
    var v := Execute(c, w, i, outcome);
    forall j | j in v.runs ensures CopyHolds(c, v.remote, v.runs[j]) {
      if j == i {
        OwnCopyHolds(c, w.remote, i, w.runs[i], outcome);
      } else {
        OthersCopyHolds(c, w.remote, i, w.runs[i], outcome, w.runs[j]);
      }
    }
    if IsPublic(v.remote) {
      if IsPublic(w.remote) {
        var k :| k in w.runs && Vouches(w.runs[k], w.remote.release.value.assets);
        VouchedStays(c, w.remote, i, w.runs[i], outcome, w.runs[k]);
        assert Vouches(v.runs[k], v.remote.release.value.assets);
      } else {
        PublishedIsVouched(c, w.remote, i, w.runs[i], outcome);
        assert Vouches(v.runs[i], v.remote.release.value.assets);
      }
    }
  }

  /** The remote after a command of run `i`. */
  function RemoteAfter(r: Remote, i: nat, p: Publisher, outcome: CommandResult): Remote {
    r.(release := ReleaseAfter(r, i, p, outcome))
  }

  lemma OwnCopyHolds(c: Config, r: Remote, i: nat, p: Publisher, outcome: CommandResult)
    requires CopyHolds(c, r, p)
    ensures CopyHolds(c, RemoteAfter(r, i, p, outcome), Next(c, r, p, outcome))
  {
    hide Passes, SameDigests, TagCommit, Uploaded, CanUpload, CanCreate;
  }

  /** Nobody else's command changes the assets a run has downloaded and found to pass: no upload replaces a file. */
  lemma OthersCopyHolds(c: Config, r: Remote, i: nat, p: Publisher, outcome: CommandResult, q: Publisher)
    requires CopyHolds(c, r, q) && Observed(c, q)
    ensures CopyHolds(c, RemoteAfter(r, i, p, outcome), q)
  {
    hide Passes, SameDigests, TagCommit, Uploaded;
    if Trusting(q) && Passes(c, q.downloaded, q.commit) {
      PassingHasAllFiles(c, q.downloaded, q.commit);
    }
  }

  lemma PassingHasAllFiles(c: Config, d: Directory, commit: string)
    requires Passes(c, d, commit)
    ensures d.Keys == FILES && FirmwareBin in FILES
  {
    hide Describes, IdentityMatches;
    VerifyExactly(c.tools, d, commit, Some(c.tag), Verify(c.tools, d, commit, Some(c.tag)).value);
  }

  /** A public release is what some ended run downloaded; a command changes neither. */
  lemma VouchedStays(c: Config, r: Remote, i: nat, p: Publisher, outcome: CommandResult, q: Publisher)
    requires IsPublic(r) && Vouches(q, r.release.value.assets) && Observed(c, q)
    ensures var after := RemoteAfter(r, i, p, outcome);
      IsPublic(after) && after.release.value.assets == r.release.value.assets
    ensures Next(c, r, q, outcome) == q
  {
    hide Passes, SameDigests, TagCommit, Uploaded;
    PassingHasAllFiles(c, q.downloaded, q.commit);
  }

  lemma PublishedIsVouched(c: Config, r: Remote, i: nat, p: Publisher, outcome: CommandResult)
    requires CopyHolds(c, r, p) && !IsPublic(r) && IsPublic(RemoteAfter(r, i, p, outcome))
    ensures Vouches(Next(c, r, p, outcome), RemoteAfter(r, i, p, outcome).release.value.assets)
  {
    hide Passes, SameDigests, TagCommit, Uploaded;
  }

  lemma {:induction false} RunKeepsTrustworthy(c: Config, w: World, actions: seq<Action>)
    requires Trustworthy(c, w) && AllObserved(c, w) && AllTolerable(c, w, actions)
    ensures Trustworthy(c, Run(c, w, actions))
    decreases |actions|
  {
    hide Step, Trustworthy, AllObserved, Tolerable;
    if actions != [] {
      StepKeepsTrustworthy(c, w, actions[0]);
      StepKeepsObservations(c, w, actions[0]);
      RunKeepsTrustworthy(c, Step(c, w, actions[0]), actions[1..]);
    }
  }

  /** All that a run has checked of the assets it published. */
  predicate Verified(c: Config, p: Publisher, assets: Directory) {
    && (p.at.Published? || p.at.EditFailed?) && p.created
    && Passes(c, assets, p.commit) && SameDigests(c.tools, assets, p.compared)
    && p.tagBefore == Some(p.commit) && p.tagAfter == Some(p.commit)
  }

  /**
   * Over every interleaving, whatever others do to tag and directories at any time, and to the release while no
   * run is between its download and its end: a public release was made public by a run that created one, read
   * the tag at its commit before and after, and whose download of exactly these assets passed and matched.
   */
  lemma PublicReleaseIsVerified(c: Config, w: World, actions: seq<Action>) returns (i: nat)
    requires IsFresh(w) && AllTolerable(c, w, actions) && IsPublic(Run(c, w, actions).remote)
    ensures var v := Run(c, w, actions);
      i in v.runs && Verified(c, v.runs[i], v.remote.release.value.assets) && AllChecked(c, w, actions, i, v.runs[i])
  {
    hide Run, Passes, SameDigests, AllTolerable, AllChecked;
    RunKeepsTrustworthy(c, w, actions);
    RunKeepsObservations(c, w, actions);
    var v := Run(c, w, actions);
    i :| i in v.runs && Vouches(v.runs[i], v.remote.release.value.assets);
    assert Observed(c, v.runs[i]);
    EditOnlyAfterAllChecks(c, w, actions, i);
  }

  /** With a collision-free digest, its assets are byte for byte the local files that run compared them with. */
  lemma PublicAssetsAreLocalFiles(c: Config, w: World, actions: seq<Action>) returns (i: nat)
    requires IsFresh(w) && AllTolerable(c, w, actions) && IsPublic(Run(c, w, actions).remote)
    requires Injective(c.tools.digest)
    ensures var v := Run(c, w, actions);
      && i in v.runs && Verified(c, v.runs[i], v.remote.release.value.assets)
      && forall n :: n in FILES ==> Content(v.remote.release.value.assets, n) == Content(v.runs[i].compared, n)
  {
    hide Run, Passes, FILES, Content, AllTolerable;
    i := PublicReleaseIsVerified(c, w, actions);
  }

  // ---- and it was published by its own creator, if deletions wait for running publishers ----

  predicate OwnerMatches(w: World) {
    forall i :: i in w.runs && Holds(w.runs[i]) ==>
      w.remote.release.Some? && w.remote.release.value.creator == Some(i)
  }

  /** From the download on, the owner holds a copy of exactly the assets. */
  predicate CopyMatches(w: World) {
    forall i :: i in w.runs && Trusting(w.runs[i]) ==>
      w.remote.release.Some? && w.remote.release.value.assets == w.runs[i].downloaded
  }

  /** A public release was made public by its creator, at the end of its run, as downloaded. */
  predicate PublicMatches(w: World) {
    IsPublic(w.remote) ==>
      var i := w.remote.release.value.creator;
      i.Some? && i.value in w.runs && Vouches(w.runs[i.value], w.remote.release.value.assets)
  }

  predicate Intact(w: World) { OwnerMatches(w) && CopyMatches(w) && PublicMatches(w) }

  lemma StepKeepsIntact(c: Config, w: World, a: Action)
    requires Intact(w) && AllObserved(c, w) && Orderly(w, a)
    ensures Intact(Step(c, w, a))
  {
    hide Passes, SameDigests, Observed;
    if a.Command? && a.run in w.runs {
      CommandKeepsIntact(c, w, a.run, a.outcome);
    }
  }

  /** A step of run `i` that leaves the remote alone. */
  lemma MoveKeepsIntact(w: World, i: nat, p: Publisher)
    requires Intact(w) && i in w.runs
    requires Holds(p) ==> Holds(w.runs[i])
    requires Trusting(p) ==> w.remote.release.Some? && w.remote.release.value.assets == p.downloaded
    requires Rank(w.runs[i].at) >= 11 ==> p == w.runs[i]
    ensures Intact(Move(w, i, p))
  {
    hide Rank;
    assert w.runs[i].at.Published? || w.runs[i].at.EditFailed? ==>
        Rank(w.runs[i].at) >= 11 by { EndRank(w.runs[i].at); }
  }

  lemma EndRank(at: Position)
    ensures Rank(at) >= 11 <==> at.Published? || at.EditFailed?
  {
  }

  /** The owner rewrites the release it owns; nobody else looks at it. */
  lemma OwnerKeepsIntact(w: World, i: nat, r: RemoteRelease, p: Publisher)
    requires Intact(w) && i in w.runs && w.remote.release.Some? && Holds(w.runs[i])
    requires r.creator == w.remote.release.value.creator
    requires Trusting(p) ==> r.assets == p.downloaded
    requires !r.draft ==> Vouches(p, r.assets)
    ensures Intact(Move(WithRelease(w, r), i, p))
  {
    hide Rank;
    assert forall j :: j in w.runs && j != i ==> !Holds(w.runs[j]);
  }

  /** The first release: no other run can own one. */
  lemma CreationKeepsIntact(w: World, i: nat, p: Publisher)
    requires Intact(w) && i in w.runs && w.remote.release.None? && Rank(p.at) < 7
    ensures Intact(Move(WithRelease(w, RemoteRelease(Some(i), true, map[])), i, p))
  {
    assert forall j :: j in w.runs ==> !Holds(w.runs[j]);
  }

  lemma CommandKeepsIntact(c: Config, w: World, i: nat, outcome: CommandResult)
    requires Intact(w) && i in w.runs
    ensures Intact(Execute(c, w, i, outcome))
  {
    hide Passes, SameDigests, Intact, Uploaded, TagCommit, CanUpload;
    var p := w.runs[i];
    var v := Execute(c, w, i, outcome);
    var q := v.runs[i];
    if Holds(p) {
      OwnerHasRelease(w, i);
    }
    if v.remote == w.remote {
      assert v == Move(w, i, q);
      MoveKeepsIntact(w, i, q);
    } else if p.at.Creating? {
      CreationKeepsIntact(w, i, q);
    } else {
      var r := v.remote.release.value;
      assert v == Move(WithRelease(w, r), i, q);
      OwnerKeepsIntact(w, i, r, q);
    }
  }

  lemma OwnerHasRelease(w: World, i: nat)
    requires Intact(w) && i in w.runs && Holds(w.runs[i])
    ensures w.remote.release.Some? && w.remote.release.value.creator == Some(i) && w.remote.release.value.draft
    ensures Trusting(w.runs[i]) ==> w.remote.release.value.assets == w.runs[i].downloaded
  {
  }

  lemma {:induction false} RunKeepsIntact(c: Config, w: World, actions: seq<Action>)
    requires Intact(w) && AllObserved(c, w) && AllOrderly(c, w, actions)
    ensures Intact(Run(c, w, actions))
    decreases |actions|
  {
    hide Step, Intact, Orderly, AllObserved;
    if actions != [] {
      StepKeepsIntact(c, w, actions[0]);
      StepKeepsObservations(c, w, actions[0]);
      RunKeepsIntact(c, Step(c, w, actions[0]), actions[1..]);
    }
  }

  /**
   * If others moreover delete the release only while no run is past creation and still going, as when the draft
   * of a failed run is removed for a new one, a public release was published by the very run that created it.
   */
  lemma PublishedByItsCreator(c: Config, w: World, actions: seq<Action>)
    requires IsFresh(w) && AllOrderly(c, w, actions) && IsPublic(Run(c, w, actions).remote)
    ensures var v := Run(c, w, actions); var r := v.remote.release.value;
      && r.creator.Some? && r.creator.value in v.runs && Verified(c, v.runs[r.creator.value], r.assets)
      && AllChecked(c, w, actions, r.creator.value, v.runs[r.creator.value])
  {
    hide Run, Passes, SameDigests, AllOrderly, AllChecked;
    RunKeepsIntact(c, w, actions);
    RunKeepsObservations(c, w, actions);
    var v := Run(c, w, actions);
    assert Observed(c, v.runs[v.remote.release.value.creator.value]);
    EditOnlyAfterAllChecks(c, w, actions, v.remote.release.value.creator.value);
  }

  // ---- what a run's end says about the release ----

  predicate Ended(p: Publisher) { p.at.Failed? || p.at.Published? || p.at.EditFailed? }

  /** The creator of the release has ended at `at`. */
  predicate CreatorEnded(w: World, at: Position) {
    && w.remote.release.Some? && w.remote.release.value.creator.Some?
    && var i := w.remote.release.value.creator.value;
      i in w.runs && Ended(w.runs[i]) && w.runs[i].at == at
  }

  /**
   * A release whose creator has ended is never changed by any publisher again; if the creator failed, it is a
   * draft.
   */
  lemma {:induction false} EndedReleaseStays(c: Config, w: World, at: Position, actions: seq<Action>)
    requires Intact(w) && AllObserved(c, w) && NobodyInterferes(actions) && CreatorEnded(w, at)
    ensures var v := Run(c, w, actions); v.remote.release == w.remote.release && CreatorEnded(v, at)
    ensures at.Failed? ==> w.remote.release.value.draft
    decreases |actions|
  {
    hide Step, ByOthers, AllObserved;
    if actions != [] {
      StepKeepsIntact(c, w, actions[0]);
      StepKeepsObservations(c, w, actions[0]);
      EndedStep(c, w, at, actions[0]);
      EndedReleaseStays(c, Step(c, w, actions[0]), at, actions[1..]);
    }
  }

  lemma EndedStep(c: Config, w: World, at: Position, a: Action)
    requires Intact(w) && !ByOthers(a) && CreatorEnded(w, at)
    ensures var v := Step(c, w, a); v.remote.release == w.remote.release && CreatorEnded(v, at)
  {
    hide Passes, SameDigests, Uploaded, TagCommit;
    assert forall j :: j in w.runs && Holds(w.runs[j]) ==> Some(j) == w.remote.release.value.creator;
  }

  /**
   * The edit decides: whatever the publishers do afterwards, the release stays a draft exactly if the edit had
   * no effect, while the run reports success exactly if the command did. So a run that fails leaves a public
   * release exactly if its edit took effect and still failed.
   */
  lemma EditDecides(c: Config, u: World, i: nat, outcome: CommandResult, after: seq<Action>)
    requires Intact(u) && AllObserved(c, u) && i in u.runs && u.runs[i].at.Editing? && NobodyInterferes(after)
    ensures var v := Run(c, Step(c, u, Command(i, outcome)), after);
      && u.remote.release.Some? && v.remote.release.Some? && i in v.runs
      && v.remote.release.value == u.remote.release.value.(draft := outcome.FailsWithoutEffect?)
      && v.runs[i].at == if outcome.Succeeds? then Published else EditFailed
  {
    hide Run, NobodyInterferes, Passes, SameDigests, Uploaded, TagCommit;
    OwnerHasRelease(u, i);
    var t := Step(c, u, Command(i, outcome));
    StepKeepsIntact(c, u, Command(i, outcome));
    StepKeepsObservations(c, u, Command(i, outcome));
    EndedReleaseStays(c, t, t.runs[i].at, after);
  }

  // ---- what the checks cannot see ----

  function Commands(i: nat, n: nat): seq<Action> {
    seq(n, _ => Command(i, Succeeds))
  }

  lemma RunCommand(c: Config, w: World, i: nat, n: nat)
    requires i in w.runs && n > 0
    ensures Run(c, w, Commands(i, n)) == Run(c, Execute(c, w, i, Succeeds), Commands(i, n - 1))
  {
    hide Execute;
    assert Commands(i, n)[1..] == Commands(i, n - 1);
  }

  lemma {:induction false} RunOfConcat(c: Config, w: World, a: seq<Action>, b: seq<Action>)
    ensures Run(c, w, a + b) == Run(c, Run(c, w, a), b)
    decreases |a|
  {
    hide Step;
    if a == [] {
      assert a + b == b;
    } else {
      RunOfConcat(c, Step(c, w, a[0]), a[1..], b);
      assert (a + b)[1..] == a[1..] + b;
    }
  }

  /** Run `i` has downloaded files that pass and match what it compares them with, and the tag is at its commit. */
  predicate Satisfied(c: Config, w: World, i: nat) {
    && i in w.runs && 7 <= Rank(w.runs[i].at) <= 11 && !w.runs[i].at.EditFailed?
    && w.remote.release.Some? && TagCommit(w.remote.tag) == Some(w.runs[i].commit)
    && Passes(c, w.runs[i].downloaded, w.runs[i].commit)
    && SameDigests(c.tools, w.runs[i].downloaded, w.runs[i].local)
    && (w.runs[i].at.Published? ==> !w.remote.release.value.draft)
  }

  /** Every run but `i` is as it was. */
  predicate OthersUnchanged(w: World, v: World, i: nat) {
    forall k :: k in w.runs && k != i ==> k in v.runs && v.runs[k] == w.runs[k]
  }

  /** A satisfied run goes through to publication without looking at the release's assets again. */
  lemma {:induction false} SatisfiedPublishes(c: Config, w: World, i: nat)
    requires Satisfied(c, w, i)
    ensures var v := Run(c, w, Commands(i, 11 - Rank(w.runs[i].at)));
      && v.remote.release == Some(w.remote.release.value.(draft := false))
      && i in v.runs && v.runs[i].at.Published? && OthersUnchanged(w, v, i)
    decreases 11 - Rank(w.runs[i].at)
  {
    hide Passes, SameDigests, Uploaded, TagCommit;
    var n := 11 - Rank(w.runs[i].at);
    if n > 0 {
      RunCommand(c, w, i, n);
      SatisfiedStep(c, w, i);
      hide Execute, Satisfied, Rank;
      SatisfiedPublishes(c, Execute(c, w, i, Succeeds), i);
    }
  }

  lemma SatisfiedStep(c: Config, w: World, i: nat)
    requires Satisfied(c, w, i) && !w.runs[i].at.Published?
    ensures var v := Execute(c, w, i, Succeeds);
      && Satisfied(c, v, i) && Rank(v.runs[i].at) == Rank(w.runs[i].at) + 1
      && v.remote.release.value.(draft := false) == w.remote.release.value.(draft := false)
      && OthersUnchanged(w, v, i)
  {
    hide Passes, SameDigests, Uploaded, TagCommit;
  }

  /** A rewrite anywhere between download and edit is published as it is. */
  lemma LateRewriteIsPublished(c: Config, w: World, i: nat, assets: Directory)
    requires Satisfied(c, w, i) && !w.runs[i].at.Published?
    ensures var v := Run(c, w, [Rewrite(true, assets)] + Commands(i, 11 - Rank(w.runs[i].at)));
      && v.remote.release.Some? && !v.remote.release.value.draft && v.remote.release.value.assets == assets
      && i in v.runs && v.runs[i].at.Published?
  {
    hide Run, Passes, SameDigests, TagCommit, Rank;
    var t := Step(c, w, Rewrite(true, assets));
    RunOfConcat(c, w, [Rewrite(true, assets)], Commands(i, 11 - Rank(w.runs[i].at)));
    RunOfOne(c, w, Rewrite(true, assets));
    SatisfiedPublishes(c, t, i);
  }

  lemma RunOfOne(c: Config, w: World, a: Action)
    ensures Run(c, w, [a]) == Step(c, w, a)
  {
    hide Step;
    assert [a][1..] == [];
  }

  /** A new run whose directory passes, with the tag at its commit. */
  predicate Ready(c: Config, w: World, i: nat) {
    && i in w.runs && w.runs[i].at.Identifying?
    && TagCommit(w.remote.tag) == Some(w.runs[i].commit)
    && Passes(c, w.runs[i].local, w.runs[i].commit)
  }

  /** Five commands take a ready run past creation if there is no release. */
  lemma ReadyCreates(c: Config, w: World, i: nat)
    requires Ready(c, w, i) && w.remote.release.None?
    ensures var v := Run(c, w, Commands(i, 5)); var p := w.runs[i];
      v == Move(WithRelease(w, RemoteRelease(Some(i), true, map[])), i,
                p.(at := Uploading, tagBefore := Some(p.commit), created := true))
  {
    hide Run, Passes, SameDigests, Uploaded, TagCommit, Commands;
    var w1 := Execute(c, w, i, Succeeds);
    RunCommand(c, w, i, 5);
    var w2 := Execute(c, w1, i, Succeeds);
    RunCommand(c, w1, i, 4);
    var w3 := Execute(c, w2, i, Succeeds);
    RunCommand(c, w2, i, 3);
    var w4 := Execute(c, w3, i, Succeeds);
    RunCommand(c, w3, i, 2);
    RunCommand(c, w4, i, 1);
    RunNothing(c, Execute(c, w4, i, Succeeds), i);
  }

  lemma RunNothing(c: Config, w: World, i: nat)
    ensures Run(c, w, Commands(i, 0)) == w
  {
  }

  /** Two more take it past its download, satisfied. */
  lemma CreatedDownloads(c: Config, w: World, i: nat)
    requires i in w.runs && w.runs[i].at.Uploading? && w.remote.release.Some? && w.remote.release.value.assets == map[]
    requires TagCommit(w.remote.tag) == Some(w.runs[i].commit) && Passes(c, w.runs[i].local, w.runs[i].commit)
    ensures var v := Run(c, w, Commands(i, 2));
      && Satisfied(c, v, i) && v.runs[i].at.VerifyingDownload? && OthersUnchanged(w, v, i)
      && v.remote.release.value.creator == w.remote.release.value.creator
  {
    hide Run, Passes, TagCommit, Commands;
    var p := w.runs[i];
    PassingIsUploaded(c, p.local, p.commit);
    assert map[] + Uploaded(p.local) == p.local;
    var w1 := Execute(c, w, i, Succeeds);
    RunCommand(c, w, i, 2);
    RunCommand(c, w1, i, 1);
    RunNothing(c, Execute(c, w1, i, Succeeds), i);
  }

  lemma PassingIsUploaded(c: Config, d: Directory, commit: string)
    requires Passes(c, d, commit)
    ensures Uploaded(d) == d && SameDigests(c.tools, d, d)
  {
    hide FILES, Describes, IdentityMatches;
    VerifyExactly(c.tools, d, commit, Some(c.tag), Verify(c.tools, d, commit, Some(c.tag)).value);
  }

  /** A run that publishes nothing at all in place of the files it checked. */
  lemma UnverifiedCanBePublished(c: Config, w: World, i: nat)
    requires Ready(c, w, i) && w.remote.release.None?
    ensures var v := Run(c, w, Commands(i, 5) + (Commands(i, 2) + ([Rewrite(true, map[])] + Commands(i, 4))));
      && v.remote.release.Some? && !v.remote.release.value.draft && i in v.runs && v.runs[i].at.Published?
      && forall commit :: !Passes(c, v.remote.release.value.assets, commit)
  {
    hide Run, Passes, SameDigests, Satisfied, Commands;
    var late := [Rewrite(true, map[])] + Commands(i, 4);
    RunOfConcat(c, w, Commands(i, 5), Commands(i, 2) + late);
    ReadyCreates(c, w, i);
    var created := Run(c, w, Commands(i, 5));
    RunOfConcat(c, created, Commands(i, 2), late);
    CreatedDownloads(c, created, i);
    LateRewriteIsPublished(c, Run(c, created, Commands(i, 2)), i, map[]);
    forall commit ensures !Passes(c, map[], commit) {
      NothingDoesNotPass(c, commit);
    }
  }

  lemma NothingDoesNotPass(c: Config, commit: string)
    ensures !Passes(c, map[], commit)
  {
  }

  /** After a deletion a second run gets past creation while the first still believes it owns the release. */
  lemma TwoOwnersAfterDeletion(c: Config, w: World, i: nat, j: nat)
    requires i != j && Ready(c, w, i) && Ready(c, w, j) && w.remote.release.None?
    ensures var v := Run(c, w, Commands(i, 5) + ([Delete] + Commands(j, 5)));
      i in v.runs && j in v.runs && Owns(v.runs[i]) && Owns(v.runs[j])
  {
    hide Run, Passes, SameDigests, Commands, TagCommit;
    RunOfConcat(c, w, Commands(i, 5), [Delete] + Commands(j, 5));
    ReadyCreates(c, w, i);
    var created := Run(c, w, Commands(i, 5));
    RunOfConcat(c, created, [Delete], Commands(j, 5));
    RunOfOne(c, created, Delete);
    ReadyCreates(c, Step(c, created, Delete), j);
  }

  /** A deletion between download and edit, and a new run: the first run publishes the other's empty draft. */
  lemma LateDeletionIsPublished(c: Config, w: World, i: nat, j: nat)
    requires i != j && Satisfied(c, w, i) && !w.runs[i].at.Published? && Ready(c, w, j)
    ensures var v := Run(c, w, [Delete] + (Commands(j, 5) + Commands(i, 11 - Rank(w.runs[i].at))));
      && IsPublic(v.remote) && v.remote.release.value.creator == Some(j) && v.remote.release.value.assets == map[]
      && i in v.runs && v.runs[i].at.Published?
      && forall commit :: !Passes(c, v.remote.release.value.assets, commit)
  {
    hide Run, Passes, SameDigests, TagCommit, Rank, Commands;
    var rest := Commands(i, 11 - Rank(w.runs[i].at));
    var deleted := Step(c, w, Delete);
    RunOfConcat(c, w, [Delete], Commands(j, 5) + rest);
    RunOfOne(c, w, Delete);
    RunOfConcat(c, deleted, Commands(j, 5), rest);
    ReadyCreates(c, deleted, j);
    SatisfiedPublishes(c, Run(c, deleted, Commands(j, 5)), i);
    forall commit ensures !Passes(c, map[], commit) {
      NothingDoesNotPass(c, commit);
    }
  }

  /** A deletion while a run is past creation, and a new run: the first run fills and publishes the other's draft. */
  lemma EarlyDeletionChangesCreator(c: Config, w: World, i: nat, j: nat)
    requires i != j && Ready(c, w, i) && Ready(c, w, j) && w.remote.release.None?
    ensures var v := Run(c, w, Commands(i, 5) + ([Delete] + (Commands(j, 5) + (Commands(i, 2) + Commands(i, 4)))));
      && IsPublic(v.remote) && v.remote.release.value.creator == Some(j)
      && i in v.runs && v.runs[i].at.Published? && j in v.runs && v.runs[j].at.Uploading?
  {
    hide Run, Passes, SameDigests, Satisfied, Commands, TagCommit;
    var finish := Commands(i, 2) + Commands(i, 4);
    RunOfConcat(c, w, Commands(i, 5), [Delete] + (Commands(j, 5) + finish));
    ReadyCreates(c, w, i);
    var created := Run(c, w, Commands(i, 5));
    RunOfConcat(c, created, [Delete], Commands(j, 5) + finish);
    RunOfOne(c, created, Delete);
    var deleted := Step(c, created, Delete);
    RunOfConcat(c, deleted, Commands(j, 5), finish);
    ReadyCreates(c, deleted, j);
    var replaced := Run(c, deleted, Commands(j, 5));
    RunOfConcat(c, replaced, Commands(i, 2), Commands(i, 4));
    CreatedDownloads(c, replaced, i);
    SatisfiedPublishes(c, Run(c, replaced, Commands(i, 2)), i);
  }
}
