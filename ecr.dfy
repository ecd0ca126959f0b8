/** internal/ecr/ecr.go: the registry-facing half of the cleaner. The AWS SDK
    calls are not modelled; their results are inputs and the calls the cleaner
    would issue are Effect values. */
module Ecr {
  import opened Outcomes
  import opened Strings
  import opened Regex

  /** Go's zero time.Time (0001-01-01T00:00:00Z) in Unix seconds: the push time
      of an image whose ImagePushedAt is nil. */
  const ZeroTime: int := -62135596800

  /** One entry of DescribeImages. A nil tag list and an empty one are both []. */
  datatype ImageDetail = ImageDetail(imageDigest: string, imageTags: seq<string>, imagePushedAt: Option<int>)

  /** An image selected for deletion; `imageTag` is "" for an untagged image. */
  datatype Candidate = Candidate(
    repositoryName: string,
    repositoryUri: string,
    imageDigest: string,
    imageTag: string,
    pushTime: int)

  /** The record the scan keeps of every image it lists. */
  datatype ScannedImage = ScannedImage(
    repositoryName: string,
    repositoryUri: string,
    imageDigest: string,
    imageTags: seq<string>,
    pushTime: int)

  /** One entry of DescribeRepositories. */
  datatype Repository = Repository(repositoryName: string, repositoryUri: string)

  /** The image identifier of a BatchDeleteImage request. */
  datatype ImageIdentifier = ImageIdentifier(imageDigest: string, imageTag: Option<string>)

  /** The calls the cleaner issues against the registry, and the reports that
      stand in for them in dry-run mode. */
  datatype Effect =
    | BatchDeleteImage(repositoryName: string, imageIds: seq<ImageIdentifier>)
    | ReportImageDeletion(repositoryName: string, imageTag: string, imageDigest: string)
    | DeleteRepository(repositoryName: string, force: bool)
    | ReportRepositoryDeletion(repositoryName: string)

  function PushTime(image: ImageDetail): int {
    image.imagePushedAt.GetOr(ZeroTime)
  }

  /** fmt.Sprintf("%s", tagList) for a slice of strings: "[t1 t2 ...]". */
  function CombinedTags(tags: seq<string>): string {
    "[" + Join(tags, " ") + "]"
  }

  // ---------------------------------------------------------------------------
  // FilterImagesForDeletion: the specification

  /** The arguments of FilterImagesForDeletion that stay fixed during a call. */
  datatype Selection = Selection(
    re: Engine,
    holdTagRegex: string,
    protectLatest: int,
    inUse: map<string, bool>,
    repositoryUri: string,
    protectInUse: bool)

  /** inUse[key] on a Go map: false when the key is absent. */
  function Lookup(inUse: map<string, bool>, key: string): bool {
    key in inUse && inUse[key]
  }

  /** The reference a running workload would use for `tag`: "repo/path:tag". */
  function ImageReference(repositoryUri: string, tag: string): string {
    TrimRegistry(repositoryUri) + ":" + tag
  }

  /** Some tag of the image, on its own, is a reference in the in-use map. */
  predicate TaggedInUse(sel: Selection, tags: seq<string>) {
    sel.protectInUse && exists k :: 0 <= k < |tags| && Lookup(sel.inUse, ImageReference(sel.repositoryUri, tags[k]))
  }

  /** How the loop of FilterImagesForDeletion treats one image. */
  datatype Class = Untagged | Held | InUse | NotInUse | Broken(pattern: string)

  function Classify(sel: Selection, image: ImageDetail): Class {
    if |image.imageTags| == 0 then Untagged
    else
      match Evaluate(sel.re, CombinedTags(image.imageTags), sel.holdTagRegex)
      case BadPattern(p) => Broken(p)
      case Decided(held) =>
        if held then Held
        else if TaggedInUse(sel, image.imageTags) then InUse
        else NotInUse
  }

  /** The candidate an image yields: its first tag as the label, "" if untagged. */
  function ToCandidate(repositoryUri: string, image: ImageDetail): Candidate {
    Candidate("", repositoryUri, image.imageDigest,
              if |image.imageTags| == 0 then "" else image.imageTags[0], PushTime(image))
  }

  /** The first hold-expression pattern that fails to compile, in image order. */
  function FirstBroken(sel: Selection, images: seq<ImageDetail>): Option<string>
    decreases |images|
  {
    if |images| == 0 then None
    else
      match FirstBroken(sel, images[..|images| - 1])
      case Some(p) => Some(p)
      case None =>
        match Classify(sel, images[|images| - 1])
        case Broken(p) => Some(p)
        case _ => None
  }

  /** The notInUseCandidates slice: untagged and not-in-use images, in input order. */
  function NotInUseBucket(sel: Selection, images: seq<ImageDetail>): seq<Candidate>
    decreases |images|
  {
    if |images| == 0 then []
    else
      var last := images[|images| - 1];
      var c := Classify(sel, last);
      NotInUseBucket(sel, images[..|images| - 1])
      + (if c.Untagged? || c.NotInUse? then [ToCandidate(sel.repositoryUri, last)] else [])
  }

  /** The inUseCandidates slice before sorting, in input order. */
  function InUseBucket(sel: Selection, images: seq<ImageDetail>): seq<Candidate>
    decreases |images|
  {
    if |images| == 0 then []
    else
      var last := images[|images| - 1];
      InUseBucket(sel, images[..|images| - 1])
      + (if Classify(sel, last).InUse? then [ToCandidate(sel.repositoryUri, last)] else [])
  }

  /** Sorted by push time, most recent first (sort.Slice with After). */
  ghost predicate NewestFirst(s: seq<Candidate>) {
    forall i, j :: 0 <= i < j < |s| ==> s[i].pushTime >= s[j].pushTime
  }

  function Min(a: int, b: int): int {
    if a <= b then a else b
  }

  /** `cs` is the not-in-use bucket followed by the in-use bucket, arranged as
      `sorted`, with its newest protectLatest entries dropped. sort.Slice is not
      stable, so any newest-first permutation of the bucket is allowed. */
  ghost predicate ArrangedWith(sel: Selection, images: seq<ImageDetail>, sorted: seq<Candidate>, cs: seq<Candidate>) {
    && 0 <= sel.protectLatest
    && NewestFirst(sorted)
    && multiset(sorted) == multiset(InUseBucket(sel, images))
    && cs == NotInUseBucket(sel, images) + sorted[Min(sel.protectLatest, |sorted|)..]
  }

  /** What FilterImagesForDeletion may return: a bad hold pattern is fatal,
      a negative protectLatest panics on the slice, otherwise a selection. */
  ghost predicate Selects(sel: Selection, images: seq<ImageDetail>, r: Outcome<seq<Candidate>>) {
    match FirstBroken(sel, images)
    case Some(p) => r == Abort(InvalidRegex(p))
    case None =>
      if sel.protectLatest < 0 then r == Abort(SliceOutOfRange(sel.protectLatest))
      else r.Done? && exists sorted :: ArrangedWith(sel, images, sorted, r.value)
  }

  /** A fatal pattern on a prefix of the images is the first one of the whole list. */
  lemma {:induction false} FirstBrokenPrefix(sel: Selection, images: seq<ImageDetail>, n: nat)
    requires n <= |images| && FirstBroken(sel, images[..n]).Some?
    ensures FirstBroken(sel, images) == FirstBroken(sel, images[..n])
    decreases |images| - n
  {
    if n < |images| {
      assert images[..n + 1][..n] == images[..n];
      FirstBrokenPrefix(sel, images, n + 1);
    } else {
      assert images[..n] == images;
    }
  }

  /** One more image extends the buckets by its own candidate, as its class says. */
  lemma BucketsStep(sel: Selection, images: seq<ImageDetail>, i: nat)
    requires i < |images|
    ensures var c := Classify(sel, images[i]);
            && NotInUseBucket(sel, images[..i + 1])
               == NotInUseBucket(sel, images[..i])
                  + (if c.Untagged? || c.NotInUse? then [ToCandidate(sel.repositoryUri, images[i])] else [])
            && InUseBucket(sel, images[..i + 1])
               == InUseBucket(sel, images[..i]) + (if c.InUse? then [ToCandidate(sel.repositoryUri, images[i])] else [])
            && (FirstBroken(sel, images[..i]) == None ==>
                  FirstBroken(sel, images[..i + 1]) == if c.Broken? then Some(c.pattern) else None)
  {
    assert images[..i + 1][..i] == images[..i];
  }

  // ---------------------------------------------------------------------------
  // FilterImagesForDeletion: the code

  /** The inner loop over an image's tags: is one of them, as
      "trimmedRepoUri:tag", marked in the in-use map? */
  method ImageInUse(tags: seq<string>, trimmedRepoUri: string, inUse: map<string, bool>, protectInUse: bool)
    returns (used: bool)
    ensures used <==> protectInUse && exists k :: 0 <= k < |tags| && Lookup(inUse, trimmedRepoUri + ":" + tags[k])
  {
    used := false;
    for k := 0 to |tags|
      invariant !used
      invariant forall j :: 0 <= j < k ==> !(protectInUse && Lookup(inUse, trimmedRepoUri + ":" + tags[j]))
    {
      var fullImageUri := trimmedRepoUri + ":" + tags[k];
      if protectInUse && Lookup(inUse, fullImageUri) {
        used := true;
        break;
      }
    }
  }

  /** The first `n` entries of `a` are newest first. */
  ghost predicate NewestFirstUpTo(a: array<Candidate>, n: int)
    reads a
  {
    forall p, q :: 0 <= p < q < n && q < a.Length ==> a[p].pushTime >= a[q].pushTime
  }

  /** sort.Slice(inUseCandidates, After): an insertion sort, newest first. */
  method SortNewestFirst(a: array<Candidate>)
    modifies a
    ensures NewestFirst(a[..])
    ensures multiset(a[..]) == old(multiset(a[..]))
  {
    for i := 0 to a.Length
      invariant NewestFirstUpTo(a, i)
      invariant multiset(a[..]) == old(multiset(a[..]))
    {
      InsertNewest(a, i);
    }
  }

  /** One step of the insertion sort: moves a[i] down into the newest-first
      prefix a[..i] until the entry before it is at least as new. */
  method InsertNewest(a: array<Candidate>, i: int)
    requires 0 <= i < a.Length && NewestFirstUpTo(a, i)
    modifies a
    ensures NewestFirstUpTo(a, i + 1)
    ensures multiset(a[..]) == old(multiset(a[..]))
    ensures a[i + 1..] == old(a[i + 1..])
  {
    var j := i;
    while j > 0 && a[j - 1].pushTime < a[j].pushTime
      invariant 0 <= j <= i
      invariant forall k :: i < k < a.Length ==> a[k] == old(a[k])
      invariant forall p, q :: 0 <= p < q <= i && p != j && q != j ==> a[p].pushTime >= a[q].pushTime
      invariant forall q :: j < q <= i ==> a[j].pushTime > a[q].pushTime
      invariant multiset(a[..]) == old(multiset(a[..]))
    {
      SwapDown(a, j);
      j := j - 1;
    }
  }

  /** Exchanges a[j - 1] and a[j]. */
  method SwapDown(a: array<Candidate>, j: int)
    requires 0 < j < a.Length
    modifies a
    ensures a[j - 1] == old(a[j]) && a[j] == old(a[j - 1])
    ensures forall k :: 0 <= k < a.Length && k != j - 1 && k != j ==> a[k] == old(a[k])
    ensures multiset(a[..]) == old(multiset(a[..]))
  {
    a[j - 1], a[j] := a[j], a[j - 1];
  }

  /** The body of the image loop up to the bucket choice: untagged images go
      straight to deletion, held ones are skipped, the rest are checked against
      the in-use map. */
  method ClassifyImage(
    re: Engine, image: ImageDetail, holdTagRegex: string, trimmedRepoUri: string,
    inUse: map<string, bool>, protectInUse: bool, ghost sel: Selection)
    returns (kind: Class)
    requires sel.re == re && sel.holdTagRegex == holdTagRegex && sel.inUse == inUse
    requires sel.protectInUse == protectInUse && trimmedRepoUri == TrimRegistry(sel.repositoryUri)
    ensures kind == Classify(sel, image)
  {
    if |image.imageTags| == 0 {
      return Untagged;
    }
    var combinedTags := CombinedTags(image.imageTags);
    var held := HoldTagMatch(re, combinedTags, holdTagRegex);
    if held.BadPattern? {
      return Broken(held.pattern);
    }
    if held.matched {
      return Held;
    }
    var used := ImageInUse(image.imageTags, trimmedRepoUri, inUse, protectInUse);
    kind := if used then InUse else NotInUse;
  }

  /** FilterImagesForDeletion. The ghost `sorted` is the in-use bucket as the
      sort left it. */
  method FilterImagesForDeletion(
    re: Engine, images: seq<ImageDetail>, holdTagRegex: string, protectLatest: int,
    inUse: map<string, bool>, repositoryUri: string, protectInUse: bool)
    returns (r: Outcome<seq<Candidate>>, ghost sorted: seq<Candidate>)
    ensures Selects(Selection(re, holdTagRegex, protectLatest, inUse, repositoryUri, protectInUse), images, r)
    ensures r.Done? ==>
              ArrangedWith(Selection(re, holdTagRegex, protectLatest, inUse, repositoryUri, protectInUse), images, sorted, r.value)
  {
    ghost var sel := Selection(re, holdTagRegex, protectLatest, inUse, repositoryUri, protectInUse);
    var inUseCandidates: seq<Candidate> := [];
    var notInUseCandidates: seq<Candidate> := [];
    var trimmedRepoUri := TrimRegistry(repositoryUri);

    for i := 0 to |images|
      invariant FirstBroken(sel, images[..i]) == None
      invariant notInUseCandidates == NotInUseBucket(sel, images[..i])
      invariant inUseCandidates == InUseBucket(sel, images[..i])
    {
      var image := images[i];
      var pushTime := if image.imagePushedAt.Some? then image.imagePushedAt.value else ZeroTime;
      var kind := ClassifyImage(re, image, holdTagRegex, trimmedRepoUri, inUse, protectInUse, sel);
      BucketsStep(sel, images, i);
      match kind {
        case Untagged =>
          notInUseCandidates := notInUseCandidates + [Candidate("", repositoryUri, image.imageDigest, "", pushTime)];
        case Broken(p) =>
          FirstBrokenPrefix(sel, images, i + 1);
          return Abort(InvalidRegex(p)), [];
        case Held =>
        case InUse =>
          inUseCandidates := inUseCandidates + [Candidate("", repositoryUri, image.imageDigest, image.imageTags[0], pushTime)];
        case NotInUse =>
          notInUseCandidates := notInUseCandidates + [Candidate("", repositoryUri, image.imageDigest, image.imageTags[0], pushTime)];
      }
    }
    assert images[..|images|] == images;

    var a := new Candidate[|inUseCandidates|](k requires 0 <= k < |inUseCandidates| => inUseCandidates[k]);
    assert a[..] == inUseCandidates;
    SortNewestFirst(a);
    sorted := a[..];

    var protectedCount := protectLatest;
    if protectedCount > a.Length {
      protectedCount := a.Length;
    }
    var inUseForDeletion: seq<Candidate> := [];
    if a.Length > protectedCount {
      if protectedCount < 0 {
        return Abort(SliceOutOfRange(protectedCount)), sorted;
      }
      inUseForDeletion := a[protectedCount..];
    }
    r := Done(notInUseCandidates + inUseForDeletion);
    assert ArrangedWith(sel, images, sorted, r.value);
  }

  // ---------------------------------------------------------------------------
  // GetRepositories

  /** The repositories, across all pages, in listing order. */
  function Flatten(pages: seq<seq<Repository>>): seq<Repository>
    decreases |pages|
  {
    if |pages| == 0 then [] else Flatten(pages[..|pages| - 1]) + pages[|pages| - 1]
  }

  /** The repositories whose names evaluate to `keep` under `expr`, in order;
      a reached pattern that fails to compile is fatal. */
  function FilterByName(re: Engine, repos: seq<Repository>, expr: string, keep: bool): Outcome<seq<Repository>>
    decreases |repos|
  {
    if |repos| == 0 then Done([])
    else
      var last := repos[|repos| - 1];
      match FilterByName(re, repos[..|repos| - 1], expr, keep)
      case Abort(why) => Abort(why)
      case Done(kept) =>
        match Evaluate(re, last.repositoryName, expr)
        case BadPattern(p) => Abort(InvalidRegex(p))
        case Decided(b) => Done(if b == keep then kept + [last] else kept)
  }

  /** Once a prefix of the list hits a bad pattern, the rest is never evaluated. */
  lemma {:induction false} FilterByNameAbortPrefix(re: Engine, xs: seq<Repository>, ys: seq<Repository>, expr: string, keep: bool)
    requires FilterByName(re, xs, expr, keep).Abort?
    ensures FilterByName(re, xs + ys, expr, keep) == FilterByName(re, xs, expr, keep)
    decreases |ys|
  {
    if |ys| == 0 {
      assert xs + ys == xs;
    } else {
      var zs := xs + ys;
      assert zs[..|zs| - 1] == xs + ys[..|ys| - 1];
      FilterByNameAbortPrefix(re, xs, ys[..|ys| - 1], expr, keep);
    }
  }

  lemma {:induction false} FlattenAppend(pages: seq<seq<Repository>>, n: nat)
    requires n <= |pages|
    ensures Flatten(pages) == Flatten(pages[..n]) + Flatten(pages[n..])
    decreases |pages| - n
  {
    if n == |pages| {
      assert pages[..n] == pages;
    } else {
      FlattenAppend(pages, n + 1);
      assert pages[..n + 1][..n] == pages[..n];
      FlattenHead(pages[n..]);
      assert pages[n..][1..] == pages[n + 1..];
    }
  }

  lemma {:induction false} FlattenHead(pages: seq<seq<Repository>>)
    requires |pages| > 0
    ensures Flatten(pages) == pages[0] + Flatten(pages[1..])
    decreases |pages|
  {
    if |pages| > 1 {
      FlattenHead(pages[..|pages| - 1]);
      assert pages[..|pages| - 1][1..] == pages[1..][..|pages[1..]| - 1];
    } else {
      assert pages[..0] == [];
    }
  }

  /** A bad pattern at entry `k` of page `p` decides the filter over all pages. */
  lemma FilterByNameAbortInPage(re: Engine, pages: seq<seq<Repository>>, p: nat, k: nat, expr: string)
    requires p < |pages| && k < |pages[p]|
    requires FilterByName(re, Flatten(pages[..p]) + pages[p][..k + 1], expr, true).Abort?
    ensures FilterByName(re, Flatten(pages), expr, true)
            == FilterByName(re, Flatten(pages[..p]) + pages[p][..k + 1], expr, true)
  {
    var page, upto := pages[p], Flatten(pages[..p]) + pages[p][..k + 1];
    FlattenAppend(pages, p + 1);
    assert pages[..p + 1][..p] == pages[..p];
    assert page[..k + 1] + page[k + 1..] == page;
    assert Flatten(pages) == upto + (page[k + 1..] + Flatten(pages[p + 1..]));
    FilterByNameAbortPrefix(re, upto, page[k + 1..] + Flatten(pages[p + 1..]), expr, true);
  }

  /** GetRepositories: the pages of DescribeRepositories, filtered by CompositeMatch. */
  method GetRepositories(re: Engine, pages: seq<seq<Repository>>, compositeRegex: string)
    returns (r: Outcome<seq<Repository>>)
    ensures r == FilterByName(re, Flatten(pages), compositeRegex, true)
  {
    var repos: seq<Repository> := [];
    for p := 0 to |pages|
      invariant FilterByName(re, Flatten(pages[..p]), compositeRegex, true) == Done(repos)
    {
      var page := pages[p];
      ghost var before := Flatten(pages[..p]);
      assert before + page[..0] == before;
      for k := 0 to |page|
        invariant FilterByName(re, before + page[..k], compositeRegex, true) == Done(repos)
      {
        var repo := page[k];
        ghost var upto := before + page[..k + 1];
        assert upto[..|upto| - 1] == before + page[..k];
        var m := CompositeMatch(re, repo.repositoryName, compositeRegex);
        if m.BadPattern? {
          FilterByNameAbortInPage(re, pages, p, k, compositeRegex);
          return Abort(InvalidRegex(m.pattern));
        }
        if m.matched {
          repos := repos + [repo];
        }
      }
      assert pages[..p + 1][..p] == pages[..p];
      assert page[..|page|] == page;
    }
    assert pages[..|pages|] == pages;
    r := Done(repos);
  }

  // ---------------------------------------------------------------------------
  // DeleteImage

  /** DeleteImage: in dry-run mode only a report; otherwise one BatchDeleteImage
      request whose identifier always carries the digest and carries the tag
      only when there is one. */
  function DeleteImage(candidate: Candidate, dryRun: bool): (e: Effect)
    ensures dryRun <==> !e.BatchDeleteImage?
    ensures dryRun ==> e == ReportImageDeletion(candidate.repositoryName, candidate.imageTag, candidate.imageDigest)
    ensures e.BatchDeleteImage? ==>
              && e.repositoryName == candidate.repositoryName
              && |e.imageIds| == 1
              && e.imageIds[0].imageDigest == candidate.imageDigest
              && (e.imageIds[0].imageTag.Some? <==> candidate.imageTag != "")
              && (e.imageIds[0].imageTag.Some? ==> e.imageIds[0].imageTag.value == candidate.imageTag)
  {
    if dryRun then
      ReportImageDeletion(candidate.repositoryName, candidate.imageTag, candidate.imageDigest)
    else
      var tag := if candidate.imageTag != "" then Some(candidate.imageTag) else None;
      BatchDeleteImage(candidate.repositoryName, [ImageIdentifier(candidate.imageDigest, tag)])
  }
}
