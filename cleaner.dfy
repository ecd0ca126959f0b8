/** internal/cleaner/cleaner.go: one run of the cleaner. Whatever the run asks
    of AWS, the cluster and the terminal is an input (World); the registry
    calls it makes are the returned trace of Effects. */
module Cleaner {
  import opened Outcomes
  import opened Strings
  import opened Regex
  import opened Ecr
  import Config

  /** The answers the outside world gives during one run. */
  datatype World = World(
    /** The caller's account, from STS. */
    accountId: string,
    /** Image references running in the cluster. */
    inUse: map<string, bool>,
    /** The pages of DescribeRepositories; None when the listing fails. */
    repositoryPages: Option<seq<seq<Repository>>>,
    /** The images of each repository during the scan; None when listing them fails. */
    images: string -> Option<seq<ImageDetail>>,
    /** The images of each repository after the deletions. */
    remainingImages: string -> Option<seq<ImageDetail>>,
    /** The line read from standard input; None when reading fails. */
    answer: Option<string>)

  /** How a run ends. */
  datatype Exit =
    | Completed
    | NoRepositories
    | ListOnlyExit
    | DeletionDeclined
    | Aborted(why: Fatal)

  /** The registry endpoint of the account in the region. */
  function TargetEcr(accountId: string, region: string): string {
    accountId + ".dkr.ecr." + region + ".amazonaws.com"
  }

  function SelectionFor(cfg: Config.Config, re: Engine, inUse: map<string, bool>, repo: Repository): Selection {
    Selection(re, cfg.holdTagRegex, cfg.protectLatest, inUse, repo.repositoryUri, cfg.protectInUseByK8s)
  }

  /** Deleting a repository with Force, or only reporting it in dry-run mode. */
  function RepositoryDeletion(name: string, dryRun: bool): Effect {
    if dryRun then ReportRepositoryDeletion(name) else DeleteRepository(name, true)
  }

  // ---------------------------------------------------------------------------
  // The phases, as specifications

  /** The repositories the run starts from: those DescribeRepositories lists
      whose names match TARGET_REPO_REGEX. */
  function Listing(cfg: Config.Config, re: Engine, w: World): Outcome<seq<Repository>> {
    match w.repositoryPages
    case None => Abort(ListRepositoriesFailed)
    case Some(pages) => FilterByName(re, Flatten(pages), cfg.targetRepoRegex, true)
  }

  /** The exclude filter: skipped when EXCLUDE_REPO_REGEX is empty. */
  function Excluded(re: Engine, repos: seq<Repository>, exclude: string): Outcome<seq<Repository>> {
    if exclude == "" then Done(repos) else FilterByName(re, repos, exclude, false)
  }

  /** What scanning one repository may yield: the selector's outcome for a
      repository of the target registry whose images could be listed and is
      not empty; nothing otherwise. */
  ghost predicate RepoSelected(cfg: Config.Config, re: Engine, w: World, target: string, repo: Repository, out: Outcome<seq<Candidate>>) {
    if HasPrefix(repo.repositoryUri, target) && w.images(repo.repositoryName).Some?
       && |w.images(repo.repositoryName).value| > 0
    then
      if !AllPushed(w.images(repo.repositoryName).value) then out == Abort(NilPushTime)
      else Selects(SelectionFor(cfg, re, w.inUse, repo), w.images(repo.repositoryName).value, out)
    else out == Done([])
  }

  /** Every image has a push time. Recording the scan dereferences it
      unconditionally, so an image without one stops the run before the
      selector sees the repository. */
  predicate AllPushed(images: seq<ImageDetail>) {
    forall j :: 0 <= j < |images| ==> images[j].imagePushedAt.Some?
  }

  /** The per-repository selections of a scan, how many repositories it got
      through, and the fatal error that stopped it, if any. */
  datatype Scan = Scan(outs: seq<seq<Candidate>>, processed: nat, failure: Option<Fatal>)

  ghost predicate ScanOutcome(cfg: Config.Config, re: Engine, w: World, target: string, repos: seq<Repository>, scan: Scan) {
    && scan.processed <= |repos|
    && |scan.outs| == scan.processed
    && (forall i :: 0 <= i < scan.processed ==> RepoSelected(cfg, re, w, target, repos[i], Done(scan.outs[i])))
    && (scan.failure.None? <==> scan.processed == |repos|)
    && (scan.failure.Some? ==> RepoSelected(cfg, re, w, target, repos[scan.processed], Abort(scan.failure.value)))
  }

  /** The repositories the scan finds empty are deleted on the spot. */
  function EmptyRepoEffects(cfg: Config.Config, w: World, target: string, repos: seq<Repository>): seq<Effect>
    decreases |repos|
  {
    if |repos| == 0 then []
    else
      var last := repos[|repos| - 1];
      EmptyRepoEffects(cfg, w, target, repos[..|repos| - 1])
      + (if HasPrefix(last.repositoryUri, target) && w.images(last.repositoryName) == Some([])
         then [RepositoryDeletion(last.repositoryName, cfg.dryRun)] else [])
  }

  /** The candidates of one repository, labelled with its name. */
  function Named(name: string, cs: seq<Candidate>): seq<Candidate>
    decreases |cs|
  {
    if |cs| == 0 then [] else Named(name, cs[..|cs| - 1]) + [cs[|cs| - 1].(repositoryName := name)]
  }

  /** candidateImages: the selections of all repositories, in repository order. */
  function Accumulated(repos: seq<Repository>, outs: seq<seq<Candidate>>): seq<Candidate>
    requires |outs| == |repos|
    decreases |repos|
  {
    if |repos| == 0 then []
    else
      var n := |repos| - 1;
      Accumulated(repos[..n], outs[..n]) + Named(repos[n].repositoryName, outs[n])
  }

  /** One DeleteImage per candidate, in order. */
  function DeletionEffects(cs: seq<Candidate>, dryRun: bool): seq<Effect>
    decreases |cs|
  {
    if |cs| == 0 then [] else DeletionEffects(cs[..|cs| - 1], dryRun) + [DeleteImage(cs[|cs| - 1], dryRun)]
  }

  /** After the deletions every repository found empty is deleted. There is
      no registry prefix check in this phase. */
  function RecheckEffects(w: World, repos: seq<Repository>, dryRun: bool): seq<Effect>
    decreases |repos|
  {
    if |repos| == 0 then []
    else
      var last := repos[|repos| - 1];
      RecheckEffects(w, repos[..|repos| - 1], dryRun)
      + (if w.remainingImages(last.repositoryName) == Some([]) then [RepositoryDeletion(last.repositoryName, dryRun)] else [])
  }

  /** The confirmation prompt: deletion goes ahead with AUTO_CONFIRM or when
      the answer, trimmed, is "y" or "Y"; a failed read is fatal. */
  function ConfirmationGate(autoConfirm: bool, answer: Option<string>): (r: Outcome<bool>)
    ensures r == Done(true) <==> autoConfirm || (answer.Some? && (TrimSpace(answer.value) == "y" || TrimSpace(answer.value) == "Y"))
    ensures r.Abort? <==> !autoConfirm && answer.None?
    ensures r.Abort? ==> r.why == ReadInputFailed
  {
    if autoConfirm then Done(true)
    else
      match answer
      case None => Abort(ReadInputFailed)
      case Some(line) =>
        ToLowerIsWord(TrimSpace(line));
        Done(ToLower(TrimSpace(line)) == "y")
  }

  predicate NothingScanned(repos: seq<Repository>, scan: Scan) {
    repos == [] && scan == Scan([], 0, None)
  }

  /** A whole run, phase by phase: listing, the empty-listing exit and the
      exclude filter here, the rest in RunsOn. `repos` is the list the scan and
      the re-check walk. */
  ghost predicate RunsAs(cfg: Config.Config, re: Engine, w: World, exit: Exit, effects: seq<Effect>, repos: seq<Repository>, scan: Scan) {
    match Listing(cfg, re, w)
    case Abort(why) => exit == Aborted(why) && effects == [] && NothingScanned(repos, scan)
    case Done(listed) =>
      if |listed| == 0 then exit == NoRepositories && effects == [] && NothingScanned(repos, scan)
      else
        match Excluded(re, listed, cfg.excludeRepoRegex)
        case Abort(why) => exit == Aborted(why) && effects == [] && NothingScanned(repos, scan)
        case Done(kept) => repos == kept && RunsOn(cfg, re, w, exit, effects, kept, scan)
  }

  /** The run over the filtered list: the scan, then AfterScan. */
  ghost predicate RunsOn(cfg: Config.Config, re: Engine, w: World, exit: Exit, effects: seq<Effect>, repos: seq<Repository>, scan: Scan) {
    && ScanOutcome(cfg, re, w, TargetEcr(w.accountId, cfg.awsRegion), repos, scan)
    && AfterScan(cfg, w, TargetEcr(w.accountId, cfg.awsRegion), exit, effects, repos, scan)
  }

  /** After the scan: the fatal exit, the list-only exit, the confirmation, the
      deletions and the re-check. */
  predicate AfterScan(cfg: Config.Config, w: World, target: string, exit: Exit, effects: seq<Effect>, repos: seq<Repository>, scan: Scan) {
    && scan.processed <= |repos|
    && var scanEffects := EmptyRepoEffects(cfg, w, target, repos[..scan.processed]);
       if scan.failure.Some? then exit == Aborted(scan.failure.value) && effects == scanEffects
       else if cfg.listOnly then exit == ListOnlyExit && effects == scanEffects
       else
         match ConfirmationGate(cfg.autoConfirm, w.answer)
         case Abort(why) => exit == Aborted(why) && effects == scanEffects
         case Done(proceed) =>
           if !proceed then exit == DeletionDeclined && effects == scanEffects
           else exit == Completed && |scan.outs| == |repos|
                && effects == scanEffects + DeletionEffects(Accumulated(repos, scan.outs), cfg.dryRun)
                              + RecheckEffects(w, repos, cfg.dryRun)
  }

  // ---------------------------------------------------------------------------
  // The phases, as code

  /** The exclude loop: keeps the repositories whose names the expression rejects. */
  method ExcludeRepositories(re: Engine, repos: seq<Repository>, exclude: string) returns (r: Outcome<seq<Repository>>)
    ensures r == FilterByName(re, repos, exclude, false)
  {
    var filteredRepos: seq<Repository> := [];
    for i := 0 to |repos|
      invariant FilterByName(re, repos[..i], exclude, false) == Done(filteredRepos)
    {
      var repo := repos[i];
      assert repos[..i + 1][..i] == repos[..i];
      var m := MultiRegexMatch(re, repo.repositoryName, exclude);
      if m.BadPattern? {
        assert repos == repos[..i + 1] + repos[i + 1..];
        FilterByNameAbortPrefix(re, repos[..i + 1], repos[i + 1..], exclude, false);
        return Abort(InvalidRegex(m.pattern));
      }
      if m.matched {
        continue;
      }
      filteredRepos := filteredRepos + [repo];
    }
    assert repos[..|repos|] == repos;
    r := Done(filteredRepos);
  }

  lemma ScanStep(cfg: Config.Config, w: World, target: string, repos: seq<Repository>, outs: seq<seq<Candidate>>, i: nat, out: seq<Candidate>)
    requires i < |repos| && |outs| == i
    ensures EmptyRepoEffects(cfg, w, target, repos[..i + 1])
            == EmptyRepoEffects(cfg, w, target, repos[..i])
               + (if HasPrefix(repos[i].repositoryUri, target) && w.images(repos[i].repositoryName) == Some([])
                  then [RepositoryDeletion(repos[i].repositoryName, cfg.dryRun)] else [])
    ensures Accumulated(repos[..i + 1], outs + [out]) == Accumulated(repos[..i], outs) + Named(repos[i].repositoryName, out)
  {
    assert repos[..i + 1][..i] == repos[..i];
    assert (outs + [out])[..i] == outs;
  }

  lemma SelectedStep(cfg: Config.Config, re: Engine, w: World, target: string, repos: seq<Repository>,
                     outs: seq<seq<Candidate>>, out: seq<Candidate>)
    requires |outs| < |repos|
    requires forall k :: 0 <= k < |outs| ==> RepoSelected(cfg, re, w, target, repos[k], Done(outs[k]))
    requires RepoSelected(cfg, re, w, target, repos[|outs|], Done(out))
    ensures forall k :: 0 <= k < |outs| + 1 ==> RepoSelected(cfg, re, w, target, repos[k], Done((outs + [out])[k]))
  {
    forall k | 0 <= k < |outs| + 1
      ensures RepoSelected(cfg, re, w, target, repos[k], Done((outs + [out])[k]))
    {
      if k < |outs| {
        assert (outs + [out])[k] == outs[k];
      }
    }
  }

  /** The candidates of one repository, labelled with its name as they are collected. */
  method NameCandidates(repoName: string, cands: seq<Candidate>) returns (named: seq<Candidate>)
    ensures named == Named(repoName, cands)
  {
    named := [];
    for k := 0 to |cands|
      invariant named == Named(repoName, cands[..k])
    {
      assert cands[..k + 1][..k] == cands[..k];
      var cand := cands[k].(repositoryName := repoName);
      named := named + [cand];
    }
    assert cands[..|cands|] == cands;
  }

  /** The loop that records every listed image of a repository before selection. */
  method RecordScannedImages(repoName: string, repoUri: string, images: seq<ImageDetail>)
    returns (r: Outcome<seq<ScannedImage>>)
    ensures r.Abort? <==> !AllPushed(images)
    ensures r.Abort? ==> r.why == NilPushTime
    ensures r.Done? ==>
              && |r.value| == |images|
              && forall j :: 0 <= j < |images| ==>
                   r.value[j] == ScannedImage(repoName, repoUri, images[j].imageDigest, images[j].imageTags,
                                              images[j].imagePushedAt.value)
  {
    var scanned: seq<ScannedImage> := [];
    for j := 0 to |images|
      invariant AllPushed(images[..j])
      invariant |scanned| == j
      invariant forall k :: 0 <= k < j ==>
                  images[k].imagePushedAt.Some?
                  && scanned[k] == ScannedImage(repoName, repoUri, images[k].imageDigest, images[k].imageTags,
                                                images[k].imagePushedAt.value)
    {
      var image := images[j];
      if image.imagePushedAt.None? {
        return Abort(NilPushTime);
      }
      scanned := scanned + [ScannedImage(repoName, repoUri, image.imageDigest, image.imageTags, image.imagePushedAt.value)];
    }
    r := Done(scanned);
  }

  /** What the scan returns, explained by `scan`: the repository deletions of
      the repositories it got through, the fatal error that stopped it, and
      when it finished, the collected candidates. */
  ghost predicate ScanResult(
    cfg: Config.Config, re: Engine, w: World, target: string, repos: seq<Repository>,
    effects: seq<Effect>, candidates: seq<Candidate>, failure: Option<Fatal>, scan: Scan)
  {
    && ScanOutcome(cfg, re, w, target, repos, scan) && scan.failure == failure
    && effects == EmptyRepoEffects(cfg, w, target, repos[..scan.processed])
    && (failure.None? ==> candidates == Accumulated(repos, scan.outs))
  }

  /** The loop over the repositories: empty ones are deleted, the others go
      through the selector and their candidates are collected. */
  method ScanRepositories(cfg: Config.Config, re: Engine, w: World, target: string, repos: seq<Repository>)
    returns (effects: seq<Effect>, candidates: seq<Candidate>, failure: Option<Fatal>)
    ensures exists scan :: ScanResult(cfg, re, w, target, repos, effects, candidates, failure, scan)
  {
    ghost var scan: Scan;
    effects, candidates := [], [];
    ghost var outs: seq<seq<Candidate>> := [];
    for i := 0 to |repos|
      invariant |outs| == i
      invariant forall k :: 0 <= k < i ==> RepoSelected(cfg, re, w, target, repos[k], Done(outs[k]))
      invariant effects == EmptyRepoEffects(cfg, w, target, repos[..i])
      invariant candidates == Accumulated(repos[..i], outs)
    {
      var repo := repos[i];
      var repoName, repoUri := repo.repositoryName, repo.repositoryUri;
      if !HasPrefix(repoUri, target) {
        ScanStep(cfg, w, target, repos, outs, i, []);
        SelectedStep(cfg, re, w, target, repos, outs, []);
        outs := outs + [[]];
        continue;
      }
      var images := w.images(repoName);
      if images.None? {
        ScanStep(cfg, w, target, repos, outs, i, []);
        SelectedStep(cfg, re, w, target, repos, outs, []);
        outs := outs + [[]];
        continue;
      }
      if |images.value| == 0 {
        ScanStep(cfg, w, target, repos, outs, i, []);
        SelectedStep(cfg, re, w, target, repos, outs, []);
        effects := effects + [RepositoryDeletion(repoName, cfg.dryRun)];
        outs := outs + [[]];
        continue;
      }
      var scanned := RecordScannedImages(repoName, repoUri, images.value);
      if scanned.Abort? {
        ScanStep(cfg, w, target, repos, outs, i, []);
        failure := Some(scanned.why);
        scan := Scan(outs, i, failure);
        assert ScanResult(cfg, re, w, target, repos, effects, candidates, failure, scan);
        return;
      }
      var selected;
      ghost var sorted;
      selected, sorted := FilterImagesForDeletion(re, images.value, cfg.holdTagRegex, cfg.protectLatest, w.inUse, repoUri, cfg.protectInUseByK8s);
      if selected.Abort? {
        ScanStep(cfg, w, target, repos, outs, i, []);
        failure := Some(selected.why);
        scan := Scan(outs, i, failure);
        assert ScanResult(cfg, re, w, target, repos, effects, candidates, failure, scan);
        return;
      }
      var cands := selected.value;
      var named := NameCandidates(repoName, cands);
      candidates := candidates + named;
      ScanStep(cfg, w, target, repos, outs, i, cands);
      SelectedStep(cfg, re, w, target, repos, outs, cands);
      outs := outs + [cands];
    }
    assert repos[..|repos|] == repos;
    failure := None;
    scan := Scan(outs, |repos|, None);
    assert ScanResult(cfg, re, w, target, repos, effects, candidates, failure, scan);
  }

  /** The deletion loop: DeleteImage for every candidate. */
  method DeleteCandidates(candidates: seq<Candidate>, dryRun: bool) returns (effects: seq<Effect>)
    ensures effects == DeletionEffects(candidates, dryRun)
  {
    effects := [];
    for i := 0 to |candidates|
      invariant effects == DeletionEffects(candidates[..i], dryRun)
    {
      assert candidates[..i + 1][..i] == candidates[..i];
      effects := effects + [DeleteImage(candidates[i], dryRun)];
    }
    assert candidates[..|candidates|] == candidates;
  }

  /** The re-check loop: lists each repository again and deletes the empty ones. */
  method RecheckRepositories(w: World, repos: seq<Repository>, dryRun: bool) returns (effects: seq<Effect>)
    ensures effects == RecheckEffects(w, repos, dryRun)
  {
    effects := [];
    for i := 0 to |repos|
      invariant effects == RecheckEffects(w, repos[..i], dryRun)
    {
      assert repos[..i + 1][..i] == repos[..i];
      var repoName := repos[i].repositoryName;
      var remainingImages := w.remainingImages(repoName);
      if remainingImages.None? {
        continue;
      }
      if |remainingImages.value| == 0 {
        effects := effects + [RepositoryDeletion(repoName, dryRun)];
      }
    }
    assert repos[..|repos|] == repos;
  }

  /** Run. Its ghost state is the repository list after the exclude filter
      and the scan's per-repository selections, which explain its exit and
      its effects. */
  method Run(cfg: Config.Config, re: Engine, w: World) returns (exit: Exit, effects: seq<Effect>)
    ensures exists repos, scan :: RunsAs(cfg, re, w, exit, effects, repos, scan)
  {
    ghost var repos: seq<Repository>, scan := [], Scan([], 0, None);
    effects := [];
    var targetEcr := TargetEcr(w.accountId, cfg.awsRegion);
    if w.repositoryPages.None? {
      exit := Aborted(ListRepositoriesFailed);
      assert RunsAs(cfg, re, w, exit, effects, repos, scan);
      return;
    }
    var listed := GetRepositories(re, w.repositoryPages.value, cfg.targetRepoRegex);
    if listed.Abort? {
      exit := Aborted(listed.why);
      assert RunsAs(cfg, re, w, exit, effects, repos, scan);
      return;
    }
    var rs := listed.value;
    if |rs| == 0 {
      exit := NoRepositories;
      assert RunsAs(cfg, re, w, exit, effects, repos, scan);
      return;
    }
    if cfg.excludeRepoRegex != "" {
      var filtered := ExcludeRepositories(re, rs, cfg.excludeRepoRegex);
      if filtered.Abort? {
        exit := Aborted(filtered.why);
        assert RunsAs(cfg, re, w, exit, effects, repos, scan);
        return;
      }
      rs := filtered.value;
    }
    repos := rs;

    var candidates, failure;
    effects, candidates, failure := ScanRepositories(cfg, re, w, targetEcr, rs);
    scan :| ScanResult(cfg, re, w, targetEcr, rs, effects, candidates, failure, scan);
    if failure.Some? {
      exit := Aborted(failure.value);
    } else if cfg.listOnly {
      exit := ListOnlyExit;
    } else if !cfg.autoConfirm && w.answer.None? {
      exit := Aborted(ReadInputFailed);
    } else if !cfg.autoConfirm && ToLower(TrimSpace(w.answer.value)) != "y" {
      exit := DeletionDeclined;
    } else {
      var deletions := DeleteCandidates(candidates, cfg.dryRun);
      var rechecks := RecheckRepositories(w, rs, cfg.dryRun);
      effects := effects + deletions + rechecks;
      exit := Completed;
    }
    assert RunsAs(cfg, re, w, exit, effects, repos, scan);
  }
}
