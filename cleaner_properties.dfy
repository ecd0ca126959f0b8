/** What a run of the cleaner promises, proved about Cleaner.RunsAs. */
module CleanerProperties {
  import opened Outcomes
  import opened Strings
  import opened Regex
  import opened Ecr
  import opened EcrProperties
  import opened Cleaner
  import Config

  // ---------------------------------------------------------------------------
  // The effects of each phase

  /** Every repository deletion of the scan is for an empty repository of the
      target registry. */
  lemma {:induction false} EmptyRepoEffectsOrigin(cfg: Config.Config, w: World, target: string, repos: seq<Repository>)
    ensures forall e :: e in EmptyRepoEffects(cfg, w, target, repos) ==>
              exists i :: 0 <= i < |repos| && e == RepositoryDeletion(repos[i].repositoryName, cfg.dryRun)
                          && HasPrefix(repos[i].repositoryUri, target) && w.images(repos[i].repositoryName) == Some([])
    decreases |repos|
  {
    if |repos| > 0 {
      var n := |repos| - 1;
      EmptyRepoEffectsOrigin(cfg, w, target, repos[..n]);
      forall e | e in EmptyRepoEffects(cfg, w, target, repos)
        ensures exists i :: 0 <= i < |repos| && e == RepositoryDeletion(repos[i].repositoryName, cfg.dryRun)
                            && HasPrefix(repos[i].repositoryUri, target) && w.images(repos[i].repositoryName) == Some([])
      {
        if e in EmptyRepoEffects(cfg, w, target, repos[..n]) {
          var i :| 0 <= i < n && e == RepositoryDeletion(repos[..n][i].repositoryName, cfg.dryRun)
                   && HasPrefix(repos[..n][i].repositoryUri, target) && w.images(repos[..n][i].repositoryName) == Some([]);
          assert repos[..n][i] == repos[i];
        }
      }
    }
  }

  /** Every empty repository of the target registry that the scan reaches is deleted. */
  lemma {:induction false} EmptyRepoEffectsMember(cfg: Config.Config, w: World, target: string, repos: seq<Repository>, i: nat)
    requires i < |repos| && HasPrefix(repos[i].repositoryUri, target) && w.images(repos[i].repositoryName) == Some([])
    ensures RepositoryDeletion(repos[i].repositoryName, cfg.dryRun) in EmptyRepoEffects(cfg, w, target, repos)
    decreases |repos|
  {
    if i < |repos| - 1 {
      var n := |repos| - 1;
      assert repos[..n][i] == repos[i];
      EmptyRepoEffectsMember(cfg, w, target, repos[..n], i);
    }
  }

  /** Every effect of the deletion phase is DeleteImage of some candidate. */
  lemma {:induction false} DeletionEffectsOrigin(cs: seq<Candidate>, dryRun: bool)
    ensures forall e :: e in DeletionEffects(cs, dryRun) ==> exists c :: c in cs && e == DeleteImage(c, dryRun)
    decreases |cs|
  {
    if |cs| > 0 {
      var n := |cs| - 1;
      DeletionEffectsOrigin(cs[..n], dryRun);
      forall e | e in DeletionEffects(cs, dryRun)
        ensures exists c :: c in cs && e == DeleteImage(c, dryRun)
      {
        if e in DeletionEffects(cs[..n], dryRun) {
          var c :| c in cs[..n] && e == DeleteImage(c, dryRun);
          assert c in cs;
        } else {
          assert e == DeleteImage(cs[n], dryRun);
        }
      }
    }
  }

  /** The deletion phase issues exactly one DeleteImage per candidate, in
      candidate order. */
  lemma {:induction false} DeletionEffectsPointwise(cs: seq<Candidate>, dryRun: bool)
    ensures |DeletionEffects(cs, dryRun)| == |cs|
    ensures forall k :: 0 <= k < |cs| ==> DeletionEffects(cs, dryRun)[k] == DeleteImage(cs[k], dryRun)
    decreases |cs|
  {
    if |cs| > 0 {
      var n := |cs| - 1;
      DeletionEffectsPointwise(cs[..n], dryRun);
      forall k | 0 <= k < n ensures cs[..n][k] == cs[k] { }
    }
  }

  /** Every effect of the re-check is the deletion of a repository found empty. */
  lemma {:induction false} RecheckEffectsOrigin(w: World, repos: seq<Repository>, dryRun: bool)
    ensures forall e :: e in RecheckEffects(w, repos, dryRun) ==>
              exists i :: 0 <= i < |repos| && e == RepositoryDeletion(repos[i].repositoryName, dryRun)
                          && w.remainingImages(repos[i].repositoryName) == Some([])
    decreases |repos|
  {
    if |repos| > 0 {
      var n := |repos| - 1;
      RecheckEffectsOrigin(w, repos[..n], dryRun);
      forall e | e in RecheckEffects(w, repos, dryRun)
        ensures exists i :: 0 <= i < |repos| && e == RepositoryDeletion(repos[i].repositoryName, dryRun)
                            && w.remainingImages(repos[i].repositoryName) == Some([])
      {
        if e in RecheckEffects(w, repos[..n], dryRun) {
          var i :| 0 <= i < n && e == RepositoryDeletion(repos[..n][i].repositoryName, dryRun)
                   && w.remainingImages(repos[..n][i].repositoryName) == Some([]);
          assert repos[..n][i] == repos[i];
        }
      }
    }
  }

  /** The re-check deletes every repository of the list found empty, whatever
      registry it belongs to. */
  lemma {:induction false} RecheckEffectsMember(w: World, repos: seq<Repository>, dryRun: bool, i: nat)
    requires i < |repos| && w.remainingImages(repos[i].repositoryName) == Some([])
    ensures RepositoryDeletion(repos[i].repositoryName, dryRun) in RecheckEffects(w, repos, dryRun)
    decreases |repos|
  {
    if i < |repos| - 1 {
      var n := |repos| - 1;
      assert repos[..n][i] == repos[i];
      RecheckEffectsMember(w, repos[..n], dryRun, i);
    }
  }

  /** A candidate of one repository carries that repository's name. */
  lemma {:induction false} NamedOrigin(name: string, cs: seq<Candidate>)
    ensures forall c :: c in Named(name, cs) ==> exists d :: d in cs && c == d.(repositoryName := name)
    decreases |cs|
  {
    if |cs| > 0 {
      var n := |cs| - 1;
      NamedOrigin(name, cs[..n]);
      forall c | c in Named(name, cs)
        ensures exists d :: d in cs && c == d.(repositoryName := name)
      {
        if c in Named(name, cs[..n]) {
          var d :| d in cs[..n] && c == d.(repositoryName := name);
          assert d in cs;
        } else {
          assert c == cs[n].(repositoryName := name);
        }
      }
    }
  }

  /** Every accumulated candidate is a selection of one repository, labelled
      with that repository's name. */
  lemma {:induction false} AccumulatedOrigin(repos: seq<Repository>, outs: seq<seq<Candidate>>)
    requires |outs| == |repos|
    ensures forall c :: c in Accumulated(repos, outs) ==>
              exists i, d :: 0 <= i < |repos| && d in outs[i] && c == d.(repositoryName := repos[i].repositoryName)
    decreases |repos|
  {
    if |repos| > 0 {
      var n := |repos| - 1;
      AccumulatedOrigin(repos[..n], outs[..n]);
      NamedOrigin(repos[n].repositoryName, outs[n]);
      forall c | c in Accumulated(repos, outs)
        ensures exists i, d :: 0 <= i < |repos| && d in outs[i] && c == d.(repositoryName := repos[i].repositoryName)
      {
        if c in Accumulated(repos[..n], outs[..n]) {
          var i, d :| 0 <= i < n && d in outs[..n][i] && c == d.(repositoryName := repos[..n][i].repositoryName);
          assert repos[..n][i] == repos[i] && outs[..n][i] == outs[i];
        } else {
          var d :| d in outs[n] && c == d.(repositoryName := repos[n].repositoryName);
        }
      }
    }
  }

  // ---------------------------------------------------------------------------
  // A run

  /** The repository list a run works on is the listing with the excluded
      repositories removed: exactly the listed ones whose names the exclude
      expression rejects, or all of them when it is empty. */
  lemma ExcludedMembership(re: Engine, repos: seq<Repository>, exclude: string)
    requires Excluded(re, repos, exclude).Done?
    ensures exclude == "" ==> Excluded(re, repos, exclude).value == repos
    ensures exclude != "" ==>
              forall x :: x in Excluded(re, repos, exclude).value <==>
                            x in repos && Evaluate(re, x.repositoryName, exclude) == Decided(false)
  {
    if exclude != "" {
      FilterByNameMembership(re, repos, exclude, false);
    }
  }

  /** A run either stops before the scan, with no effect, or runs on the list
      it walks. */
  lemma RunCases(
    cfg: Config.Config, re: Engine, w: World, exit: Exit, effects: seq<Effect>, repos: seq<Repository>, scan: Scan)
    requires RunsAs(cfg, re, w, exit, effects, repos, scan)
    ensures || (exit != Completed && effects == [] && NothingScanned(repos, scan))
            || RunsOn(cfg, re, w, exit, effects, repos, scan)
  {
    match Listing(cfg, re, w)
    case Abort(_) =>
    case Done(listed) =>
      if |listed| > 0 {
        match Excluded(re, listed, cfg.excludeRepoRegex)
        case Abort(_) =>
        case Done(kept) =>
      }
  }

  /** Every run, whichever way it ends, has the same shape: the scan over the
      list the run works on, its repository deletions, and, only when the run
      completes, the image deletions and the re-check. */
  lemma RunShape(
    cfg: Config.Config, re: Engine, w: World, exit: Exit, effects: seq<Effect>, repos: seq<Repository>, scan: Scan)
    requires RunsAs(cfg, re, w, exit, effects, repos, scan)
    ensures ScanOutcome(cfg, re, w, TargetEcr(w.accountId, cfg.awsRegion), repos, scan)
    ensures exit != Completed ==> effects == EmptyRepoEffects(cfg, w, TargetEcr(w.accountId, cfg.awsRegion), repos[..scan.processed])
    ensures exit == Completed ==>
              && !cfg.listOnly && scan.failure.None?
              && ConfirmationGate(cfg.autoConfirm, w.answer) == Done(true)
              && |scan.outs| == |repos|
              && effects == EmptyRepoEffects(cfg, w, TargetEcr(w.accountId, cfg.awsRegion), repos[..scan.processed])
                            + (DeletionEffects(Accumulated(repos, scan.outs), cfg.dryRun) + RecheckEffects(w, repos, cfg.dryRun))
  {
    RunCases(cfg, re, w, exit, effects, repos, scan);
    if !RunsOn(cfg, re, w, exit, effects, repos, scan) {
      assert repos[..0] == [];
    } else if exit == Completed {
      var target := TargetEcr(w.accountId, cfg.awsRegion);
      AfterScanCompleted(cfg, w, target, exit, effects, repos, scan);
    }
  }

  lemma AfterScanCompleted(
    cfg: Config.Config, w: World, target: string, exit: Exit, effects: seq<Effect>, repos: seq<Repository>, scan: Scan)
    requires AfterScan(cfg, w, target, exit, effects, repos, scan) && exit == Completed
    ensures !cfg.listOnly && scan.failure.None? && |scan.outs| == |repos|
    ensures ConfirmationGate(cfg.autoConfirm, w.answer) == Done(true)
    ensures effects == EmptyRepoEffects(cfg, w, target, repos[..scan.processed])
                       + (DeletionEffects(Accumulated(repos, scan.outs), cfg.dryRun) + RecheckEffects(w, repos, cfg.dryRun))
  {
    var scanEffects := EmptyRepoEffects(cfg, w, target, repos[..scan.processed]);
    var deletions := DeletionEffects(Accumulated(repos, scan.outs), cfg.dryRun);
    assert effects == scanEffects + deletions + RecheckEffects(w, repos, cfg.dryRun);
  }

  /** Before the scan, or when it stops on a fatal error, at the list-only exit
      and when deletion is declined, the run has only deleted (or reported)
      empty repositories of the target registry: no image is touched. */
  lemma NoImageDeletionUnlessConfirmed(
    cfg: Config.Config, re: Engine, w: World, exit: Exit, effects: seq<Effect>, repos: seq<Repository>, scan: Scan)
    requires RunsAs(cfg, re, w, exit, effects, repos, scan)
    requires !exit.Completed?
    ensures forall e :: e in effects ==> e.DeleteRepository? || e.ReportRepositoryDeletion?
  {
    RunShape(cfg, re, w, exit, effects, repos, scan);
    EmptyRepoEffectsOrigin(cfg, w, TargetEcr(w.accountId, cfg.awsRegion), repos[..scan.processed]);
  }

  /** List-only mode deletes no image. */
  lemma ListOnlyDeletesNoImages(
    cfg: Config.Config, re: Engine, w: World, exit: Exit, effects: seq<Effect>, repos: seq<Repository>, scan: Scan)
    requires RunsAs(cfg, re, w, exit, effects, repos, scan)
    requires cfg.listOnly
    ensures !exit.Completed?
    ensures forall e :: e in effects ==> !e.BatchDeleteImage? && !e.ReportImageDeletion?
  {
    NoImageDeletionUnlessConfirmed(cfg, re, w, exit, effects, repos, scan);
  }

  /** Images are deleted (or, in dry-run mode, reported) only outside list-only
      mode and after confirmation: AUTO_CONFIRM, or an answer that trims to "y"
      or "Y". */
  lemma DeletionNeedsConfirmation(
    cfg: Config.Config, re: Engine, w: World, exit: Exit, effects: seq<Effect>, repos: seq<Repository>, scan: Scan, e: Effect)
    requires RunsAs(cfg, re, w, exit, effects, repos, scan)
    requires e in effects && (e.BatchDeleteImage? || e.ReportImageDeletion?)
    ensures exit == Completed && !cfg.listOnly
    ensures cfg.autoConfirm || (w.answer.Some? && (TrimSpace(w.answer.value) == "y" || TrimSpace(w.answer.value) == "Y"))
  {
    if !exit.Completed? {
      NoImageDeletionUnlessConfirmed(cfg, re, w, exit, effects, repos, scan);
    }
  }

  /** Dry-run mode issues no mutating call: every effect is a report. */
  lemma DryRunIssuesNoMutation(
    cfg: Config.Config, re: Engine, w: World, exit: Exit, effects: seq<Effect>, repos: seq<Repository>, scan: Scan)
    requires RunsAs(cfg, re, w, exit, effects, repos, scan)
    requires cfg.dryRun
    ensures forall e :: e in effects ==> e.ReportImageDeletion? || e.ReportRepositoryDeletion?
  {
    RunShape(cfg, re, w, exit, effects, repos, scan);
    EmptyRepoEffectsOrigin(cfg, w, TargetEcr(w.accountId, cfg.awsRegion), repos[..scan.processed]);
    if exit == Completed {
      DeletionEffectsOrigin(Accumulated(repos, scan.outs), true);
      RecheckEffectsOrigin(w, repos, true);
    }
  }

  /** An empty repository of the target registry that the scan reaches is
      deleted (reported in dry-run mode) during the scan, so also in list-only
      mode and when deletion is declined. */
  lemma EmptyRepositoryDeleted(
    cfg: Config.Config, re: Engine, w: World, exit: Exit, effects: seq<Effect>, repos: seq<Repository>, scan: Scan, i: nat)
    requires RunsAs(cfg, re, w, exit, effects, repos, scan)
    requires i < scan.processed
    requires HasPrefix(repos[i].repositoryUri, TargetEcr(w.accountId, cfg.awsRegion))
    requires w.images(repos[i].repositoryName) == Some([])
    ensures RepositoryDeletion(repos[i].repositoryName, cfg.dryRun) in effects
  {
    RunShape(cfg, re, w, exit, effects, repos, scan);
    var target := TargetEcr(w.accountId, cfg.awsRegion);
    assert repos[..scan.processed][i] == repos[i];
    EmptyRepoEffectsMember(cfg, w, target, repos[..scan.processed], i);
  }

  /** When the run completes, the re-check deletes every repository of the list
      that is now empty, with no check of its registry. */
  lemma RecheckDeletesEveryEmptyRepository(
    cfg: Config.Config, re: Engine, w: World, exit: Exit, effects: seq<Effect>, repos: seq<Repository>, scan: Scan, i: nat)
    requires RunsAs(cfg, re, w, exit, effects, repos, scan)
    requires exit == Completed && i < |repos|
    requires w.remainingImages(repos[i].repositoryName) == Some([])
    ensures RepositoryDeletion(repos[i].repositoryName, cfg.dryRun) in effects
  {
    RunShape(cfg, re, w, exit, effects, repos, scan);
    RecheckEffectsMember(w, repos, cfg.dryRun, i);
  }

  /** A selection that is not empty comes from the selector on a non-empty
      repository of the target registry. */
  lemma SelectedFromTarget(cfg: Config.Config, re: Engine, w: World, target: string, repo: Repository, out: seq<Candidate>, d: Candidate)
    requires RepoSelected(cfg, re, w, target, repo, Done(out)) && d in out
    ensures HasPrefix(repo.repositoryUri, target) && w.images(repo.repositoryName).Some?
    ensures exists j :: 0 <= j < |w.images(repo.repositoryName).value|
                        && d.imageDigest == w.images(repo.repositoryName).value[j].imageDigest
  {
    var images := w.images(repo.repositoryName).value;
    SelectedOrigin(SelectionFor(cfg, re, w.inUse, repo), images, Done(out));
  }

  /** Every collected candidate was listed, during the scan, in a repository
      of the target registry, and carries that repository's name. */
  lemma CandidatesFromTarget(
    cfg: Config.Config, re: Engine, w: World, target: string, repos: seq<Repository>, scan: Scan, c: Candidate)
    requires ScanOutcome(cfg, re, w, target, repos, scan) && scan.failure.None?
    requires c in Accumulated(repos, scan.outs)
    ensures exists i :: 0 <= i < |repos|
              && c.repositoryName == repos[i].repositoryName
              && HasPrefix(repos[i].repositoryUri, target)
              && w.images(repos[i].repositoryName).Some?
              && exists j :: 0 <= j < |w.images(repos[i].repositoryName).value|
                             && c.imageDigest == w.images(repos[i].repositoryName).value[j].imageDigest
  {
    AccumulatedOrigin(repos, scan.outs);
    var i, d :| 0 <= i < |repos| && d in scan.outs[i] && c == d.(repositoryName := repos[i].repositoryName);
    SelectedFromTarget(cfg, re, w, target, repos[i], scan.outs[i], d);
  }

  /** Every image deletion of a run is for an image listed, during the scan,
      in a repository of the target registry, by that repository's name. */
  lemma ImageDeletionsFromTargetRepositories(
    cfg: Config.Config, re: Engine, w: World, exit: Exit, effects: seq<Effect>, repos: seq<Repository>, scan: Scan, e: Effect)
    requires RunsAs(cfg, re, w, exit, effects, repos, scan)
    requires e in effects && e.BatchDeleteImage?
    ensures |e.imageIds| == 1
    ensures exists i :: 0 <= i < |repos|
              && e.repositoryName == repos[i].repositoryName
              && HasPrefix(repos[i].repositoryUri, TargetEcr(w.accountId, cfg.awsRegion))
              && w.images(repos[i].repositoryName).Some?
              && exists j :: 0 <= j < |w.images(repos[i].repositoryName).value|
                             && e.imageIds[0].imageDigest == w.images(repos[i].repositoryName).value[j].imageDigest
  {
    RunShape(cfg, re, w, exit, effects, repos, scan);
    var target := TargetEcr(w.accountId, cfg.awsRegion);
    EmptyRepoEffectsOrigin(cfg, w, target, repos[..scan.processed]);
    if exit == Completed {
      var cands := Accumulated(repos, scan.outs);
      RecheckEffectsOrigin(w, repos, cfg.dryRun);
      DeletionEffectsOrigin(cands, cfg.dryRun);
      assert e in DeletionEffects(cands, cfg.dryRun);
      var c :| c in cands && e == DeleteImage(c, cfg.dryRun);
      CandidatesFromTarget(cfg, re, w, target, repos, scan, c);
    }
  }

  /** An image without a push time in a non-empty repository of the target
      registry stops the run at that repository, or at an earlier fatal
      error: the run aborts before any image is deleted. */
  lemma MissingPushTimeAborts(
    cfg: Config.Config, re: Engine, w: World, exit: Exit, effects: seq<Effect>, repos: seq<Repository>, scan: Scan, i: nat)
    requires RunsAs(cfg, re, w, exit, effects, repos, scan)
    requires i < |repos| && HasPrefix(repos[i].repositoryUri, TargetEcr(w.accountId, cfg.awsRegion))
    requires w.images(repos[i].repositoryName).Some? && |w.images(repos[i].repositoryName).value| > 0
    requires !AllPushed(w.images(repos[i].repositoryName).value)
    ensures scan.processed <= i && exit.Aborted?
    ensures scan.processed == i ==> exit == Aborted(NilPushTime)
  {
    RunCases(cfg, re, w, exit, effects, repos, scan);
  }
}
