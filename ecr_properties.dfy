/** What FilterImagesForDeletion and GetRepositories promise, proved about the
    specifications in module Ecr. */
module EcrProperties {
  import opened Outcomes
  import opened Strings
  import opened Regex
  import opened Ecr

  // ---------------------------------------------------------------------------
  // Reference definitions

  /** Every image that is not held, as a candidate, in input order: untagged
      images and tagged ones whose joined tag string the hold expression rejects. */
  predicate NotHeld(sel: Selection, image: ImageDetail) {
    |image.imageTags| == 0 || Evaluate(sel.re, CombinedTags(image.imageTags), sel.holdTagRegex) == Decided(false)
  }

  function Eligible(sel: Selection, images: seq<ImageDetail>): seq<Candidate>
    decreases |images|
  {
    if |images| == 0 then []
    else
      var last := images[|images| - 1];
      Eligible(sel, images[..|images| - 1])
      + (if NotHeld(sel, last) then [ToCandidate(sel.repositoryUri, last)] else [])
  }

  function Digests(cs: seq<Candidate>): seq<string>
    decreases |cs|
  {
    if |cs| == 0 then [] else Digests(cs[..|cs| - 1]) + [cs[|cs| - 1].imageDigest]
  }

  function ImageDigests(images: seq<ImageDetail>): seq<string>
    decreases |images|
  {
    if |images| == 0 then [] else ImageDigests(images[..|images| - 1]) + [images[|images| - 1].imageDigest]
  }

  function Max(a: int, b: int): int {
    if a >= b then a else b
  }

  // ---------------------------------------------------------------------------
  // The buckets

  /** Every candidate in the not-in-use bucket is an untagged or a not-in-use image. */
  lemma {:induction false} NotInUseOrigin(sel: Selection, images: seq<ImageDetail>)
    ensures forall c :: c in NotInUseBucket(sel, images) ==>
              exists j :: 0 <= j < |images| && (Classify(sel, images[j]).Untagged? || Classify(sel, images[j]).NotInUse?)
                          && c == ToCandidate(sel.repositoryUri, images[j])
    decreases |images|
  {
    if |images| > 0 {
      var front := images[..|images| - 1];
      NotInUseOrigin(sel, front);
      forall c | c in NotInUseBucket(sel, images)
        ensures exists j :: 0 <= j < |images| && (Classify(sel, images[j]).Untagged? || Classify(sel, images[j]).NotInUse?)
                            && c == ToCandidate(sel.repositoryUri, images[j])
      {
        if c in NotInUseBucket(sel, front) {
          var j :| 0 <= j < |front| && (Classify(sel, front[j]).Untagged? || Classify(sel, front[j]).NotInUse?)
                   && c == ToCandidate(sel.repositoryUri, front[j]);
          assert front[j] == images[j];
        } else {
          assert c == ToCandidate(sel.repositoryUri, images[|images| - 1]);
        }
      }
    }
  }

  /** Every candidate in the in-use bucket is an in-use image. */
  lemma {:induction false} InUseOrigin(sel: Selection, images: seq<ImageDetail>)
    ensures forall c :: c in InUseBucket(sel, images) ==>
              exists j :: 0 <= j < |images| && Classify(sel, images[j]).InUse? && c == ToCandidate(sel.repositoryUri, images[j])
    decreases |images|
  {
    if |images| > 0 {
      var front := images[..|images| - 1];
      InUseOrigin(sel, front);
      forall c | c in InUseBucket(sel, images)
        ensures exists j :: 0 <= j < |images| && Classify(sel, images[j]).InUse? && c == ToCandidate(sel.repositoryUri, images[j])
      {
        if c in InUseBucket(sel, front) {
          var j :| 0 <= j < |front| && Classify(sel, front[j]).InUse? && c == ToCandidate(sel.repositoryUri, front[j]);
          assert front[j] == images[j];
        } else {
          assert c == ToCandidate(sel.repositoryUri, images[|images| - 1]);
        }
      }
    }
  }

  /** An untagged or not-in-use image has its candidate in the not-in-use bucket. */
  lemma {:induction false} NotInUseMember(sel: Selection, images: seq<ImageDetail>, i: nat)
    requires i < |images| && (Classify(sel, images[i]).Untagged? || Classify(sel, images[i]).NotInUse?)
    ensures ToCandidate(sel.repositoryUri, images[i]) in NotInUseBucket(sel, images)
    decreases |images|
  {
    if i < |images| - 1 {
      var front := images[..|images| - 1];
      assert front[i] == images[i];
      NotInUseMember(sel, front, i);
    }
  }

  /** An image is eligible exactly when it is untagged, in use or not in use. */
  lemma ClassifyNotHeld(sel: Selection, image: ImageDetail)
    ensures NotHeld(sel, image) <==> Classify(sel, image).Untagged? || Classify(sel, image).NotInUse? || Classify(sel, image).InUse?
    ensures !sel.protectInUse ==> !Classify(sel, image).InUse?
  {
  }

  /** The last image of a non-empty list extends Eligible by its own candidate. */
  lemma EligibleStep(sel: Selection, images: seq<ImageDetail>)
    requires |images| > 0
    ensures Eligible(sel, images)
            == Eligible(sel, images[..|images| - 1])
               + (if NotHeld(sel, images[|images| - 1]) then [ToCandidate(sel.repositoryUri, images[|images| - 1])] else [])
  {
  }

  /** The two buckets split the eligible images between them. */
  lemma {:induction false} BucketsPartition(sel: Selection, images: seq<ImageDetail>)
    ensures multiset(NotInUseBucket(sel, images)) + multiset(InUseBucket(sel, images)) == multiset(Eligible(sel, images))
    decreases |images|
  {
    if |images| > 0 {
      var n := |images| - 1;
      var front, last := images[..n], images[n];
      BucketsPartition(sel, front);
      BucketsStep(sel, images, n);
      assert images[..n + 1] == images;
      EligibleStep(sel, images);
      ClassifyNotHeld(sel, last);
      var one := [ToCandidate(sel.repositoryUri, last)];
      var c := Classify(sel, last);
      var a := if c.Untagged? || c.NotInUse? then one else [];
      var b := if c.InUse? then one else [];
      var e := if NotHeld(sel, last) then one else [];
      assert multiset(a) + multiset(b) == multiset(e);
      MultisetStep(NotInUseBucket(sel, front), a, InUseBucket(sel, front), b, Eligible(sel, front), e);
    }
  }

  lemma MultisetStep(xs: seq<Candidate>, a: seq<Candidate>, ys: seq<Candidate>, b: seq<Candidate>, zs: seq<Candidate>, e: seq<Candidate>)
    requires multiset(xs) + multiset(ys) == multiset(zs)
    requires multiset(a) + multiset(b) == multiset(e)
    ensures multiset(xs + a) + multiset(ys + b) == multiset(zs + e)
  {
  }

  /** Without in-use protection no image is in use, and the not-in-use bucket is
      every eligible image in input order. */
  lemma {:induction false} BucketsWithoutProtection(sel: Selection, images: seq<ImageDetail>)
    requires !sel.protectInUse
    ensures InUseBucket(sel, images) == []
    ensures NotInUseBucket(sel, images) == Eligible(sel, images)
    decreases |images|
  {
    if |images| > 0 {
      var n := |images| - 1;
      BucketsWithoutProtection(sel, images[..n]);
      BucketsStep(sel, images, n);
      EligibleStep(sel, images);
      ClassifyNotHeld(sel, images[n]);
      assert images[..n + 1] == images;
    }
  }

  // ---------------------------------------------------------------------------
  // The selection

  /** The parts of a successful selection: the not-in-use bucket, then the in-use
      entries that were not protected. */
  lemma Decompose(sel: Selection, images: seq<ImageDetail>, r: Outcome<seq<Candidate>>)
    returns (sorted: seq<Candidate>)
    requires Selects(sel, images, r) && r.Done?
    ensures ArrangedWith(sel, images, sorted, r.value)
  {
    match FirstBroken(sel, images)
    case Some(p) =>
    case None =>
      sorted :| ArrangedWith(sel, images, sorted, r.value);
  }

  /** Every selected candidate is an untagged, not-in-use or in-use image of the
      input, labelled with its first tag ("" if none) and the given URI. */
  lemma SelectedOrigin(sel: Selection, images: seq<ImageDetail>, r: Outcome<seq<Candidate>>)
    requires Selects(sel, images, r) && r.Done?
    ensures forall c :: c in r.value ==>
              exists j :: 0 <= j < |images| && !Classify(sel, images[j]).Held? && !Classify(sel, images[j]).Broken?
                          && c == ToCandidate(sel.repositoryUri, images[j])
  {
    var sorted := Decompose(sel, images, r);
    NotInUseOrigin(sel, images);
    InUseOrigin(sel, images);
    var m := Min(sel.protectLatest, |sorted|);
    forall c | c in r.value
      ensures exists j :: 0 <= j < |images| && !Classify(sel, images[j]).Held? && !Classify(sel, images[j]).Broken?
                          && c == ToCandidate(sel.repositoryUri, images[j])
    {
      if c in NotInUseBucket(sel, images) {
        var j :| 0 <= j < |images| && (Classify(sel, images[j]).Untagged? || Classify(sel, images[j]).NotInUse?)
                 && c == ToCandidate(sel.repositoryUri, images[j]);
      } else {
        assert c in sorted[m..];
        assert c in multiset(sorted);
        assert c in InUseBucket(sel, images);
        var j :| 0 <= j < |images| && Classify(sel, images[j]).InUse? && c == ToCandidate(sel.repositoryUri, images[j]);
      }
    }
  }

  /** An image without tags is always selected, with an empty tag label. */
  lemma UntaggedAlwaysSelected(sel: Selection, images: seq<ImageDetail>, r: Outcome<seq<Candidate>>, i: nat)
    requires Selects(sel, images, r) && r.Done?
    requires i < |images| && |images[i].imageTags| == 0
    ensures Candidate("", sel.repositoryUri, images[i].imageDigest, "", PushTime(images[i])) in r.value
  {
    var sorted := Decompose(sel, images, r);
    NotInUseMember(sel, images, i);
  }

  /** An image whose joined tag string the hold expression accepts is never
      selected (when no other image shares its digest). */
  lemma HeldNeverSelected(sel: Selection, images: seq<ImageDetail>, r: Outcome<seq<Candidate>>, i: nat)
    requires Selects(sel, images, r) && r.Done?
    requires i < |images| && |images[i].imageTags| > 0
    requires Evaluate(sel.re, CombinedTags(images[i].imageTags), sel.holdTagRegex) == Decided(true)
    requires forall j :: 0 <= j < |images| && j != i ==> images[j].imageDigest != images[i].imageDigest
    ensures forall c :: c in r.value ==> c.imageDigest != images[i].imageDigest
  {
    SelectedOrigin(sel, images, r);
  }

  /** Without in-use protection the result is every image that is not held, in
      input order: no sorting and no count-based protection. */
  lemma NoProtectionWithoutInUse(sel: Selection, images: seq<ImageDetail>, r: Outcome<seq<Candidate>>)
    requires Selects(sel, images, r) && r.Done?
    requires !sel.protectInUse
    ensures r.value == Eligible(sel, images)
  {
    var sorted := Decompose(sel, images, r);
    BucketsWithoutProtection(sel, images);
    assert |multiset(sorted)| == 0;
  }

  /** The in-use images split into the protected ones, all at least as recent as
      every kept one and min(protectLatest, n) of them, and the kept ones, which
      follow the not-in-use bucket in the result. */
  lemma NewestInUseProtected(sel: Selection, images: seq<ImageDetail>, r: Outcome<seq<Candidate>>)
    requires Selects(sel, images, r) && r.Done?
    ensures 0 <= sel.protectLatest
    ensures exists protected: seq<Candidate>, kept: seq<Candidate> ::
              && r.value == NotInUseBucket(sel, images) + kept
              && multiset(protected) + multiset(kept) == multiset(InUseBucket(sel, images))
              && |protected| == Min(sel.protectLatest, |InUseBucket(sel, images)|)
              && NewestFirst(kept)
              && forall x, y :: 0 <= x < |protected| && 0 <= y < |kept| ==> protected[x].pushTime >= kept[y].pushTime
  {
    var sorted := Decompose(sel, images, r);
    ProtectedSplit(NotInUseBucket(sel, images), InUseBucket(sel, images), sorted, sel.protectLatest, r.value);
  }

  /** NewestInUseProtected on plain sequences: `bucket` arranged as `sorted`,
      with its first min(p, n) entries cut off and the rest appended to `front`. */
  lemma ProtectedSplit(front: seq<Candidate>, bucket: seq<Candidate>, sorted: seq<Candidate>, p: int, cs: seq<Candidate>)
    requires 0 <= p && NewestFirst(sorted) && multiset(sorted) == multiset(bucket)
    requires cs == front + sorted[Min(p, |sorted|)..]
    ensures exists protected: seq<Candidate>, kept: seq<Candidate> ::
              && cs == front + kept
              && multiset(protected) + multiset(kept) == multiset(bucket)
              && |protected| == Min(p, |bucket|)
              && NewestFirst(kept)
              && forall x, y :: 0 <= x < |protected| && 0 <= y < |kept| ==> protected[x].pushTime >= kept[y].pushTime
  {
    var m := Min(p, |sorted|);
    assert |sorted| == |multiset(sorted)| == |bucket|;
    var protected, kept := sorted[..m], sorted[m..];
    assert sorted == protected + kept;
    SplitNewestFirst(sorted, m);
    assert multiset(protected) + multiset(kept) == multiset(bucket);
  }

  /** Cutting a newest-first list leaves two newest-first lists, the first at
      least as recent as the second throughout. */
  lemma SplitNewestFirst(sorted: seq<Candidate>, m: nat)
    requires NewestFirst(sorted) && m <= |sorted|
    ensures NewestFirst(sorted[m..])
    ensures forall x, y :: 0 <= x < m && 0 <= y < |sorted| - m ==> sorted[..m][x].pushTime >= sorted[m..][y].pushTime
  {
    forall x, y | 0 <= x < m && 0 <= y < |sorted| - m
      ensures sorted[..m][x].pushTime >= sorted[m..][y].pushTime
    {
      assert sorted[..m][x] == sorted[x] && sorted[m..][y] == sorted[m + y];
    }
    forall x, y | 0 <= x < y < |sorted| - m
      ensures sorted[m..][x].pushTime >= sorted[m..][y].pushTime
    {
      assert sorted[m..][x] == sorted[m + x] && sorted[m..][y] == sorted[m + y];
    }
  }

  /** The result holds every not-in-use image and max(0, n - protectLatest) of
      the n in-use ones. */
  lemma SelectionSize(sel: Selection, images: seq<ImageDetail>, r: Outcome<seq<Candidate>>)
    requires Selects(sel, images, r) && r.Done?
    ensures |r.value| == |NotInUseBucket(sel, images)| + Max(0, |InUseBucket(sel, images)| - sel.protectLatest)
  {
    var sorted := Decompose(sel, images, r);
    assert |sorted| == |multiset(sorted)| == |InUseBucket(sel, images)|;
  }

  /** A pattern that fails to compile, or a negative protectLatest, yields no
      selection at all. */
  lemma FailureCases(sel: Selection, images: seq<ImageDetail>, r: Outcome<seq<Candidate>>)
    requires Selects(sel, images, r)
    ensures r.Abort? <==> FirstBroken(sel, images).Some? || sel.protectLatest < 0
    ensures FirstBroken(sel, images).Some? ==> r.why == InvalidRegex(FirstBroken(sel, images).value)
  {
  }

  // ---------------------------------------------------------------------------
  // Each image contributes at most one candidate

  lemma {:induction false} DigestsAppend(xs: seq<Candidate>, ys: seq<Candidate>)
    ensures Digests(xs + ys) == Digests(xs) + Digests(ys)
    decreases |ys|
  {
    if |ys| > 0 {
      var zs := xs + ys;
      assert zs[..|zs| - 1] == xs + ys[..|ys| - 1];
      DigestsAppend(xs, ys[..|ys| - 1]);
    } else {
      assert xs + ys == xs;
    }
  }

  /** Rearranging candidates rearranges their digests. */
  lemma {:induction false} DigestsPermutation(xs: seq<Candidate>, ys: seq<Candidate>)
    requires multiset(xs) == multiset(ys)
    ensures multiset(Digests(xs)) == multiset(Digests(ys))
    decreases |xs|
  {
    if |xs| > 0 {
      var x := xs[|xs| - 1];
      assert x in multiset(ys);
      var k :| 0 <= k < |ys| && ys[k] == x;
      var rest := ys[..k] + ys[k + 1..];
      assert ys == ys[..k] + [x] + ys[k + 1..];
      assert xs == xs[..|xs| - 1] + [x];
      assert multiset(ys) == multiset(ys[..k]) + multiset{x} + multiset(ys[k + 1..]);
      assert multiset(rest) == multiset(ys[..k]) + multiset(ys[k + 1..]);
      assert multiset(xs) == multiset(xs[..|xs| - 1]) + multiset{x};
      assert multiset(xs[..|xs| - 1]) == multiset(xs) - multiset{x};
      assert multiset(rest) == multiset(ys) - multiset{x};
      DigestsPermutation(xs[..|xs| - 1], rest);
      DigestsAppend(ys[..k], ys[k + 1..]);
      DigestsAppend(ys[..k] + [x], ys[k + 1..]);
      DigestsAppend(ys[..k], [x]);
      assert Digests([x]) == [x.imageDigest];
    } else {
      assert |multiset(ys)| == 0;
    }
  }

  lemma {:induction false} BucketDigests(sel: Selection, images: seq<ImageDetail>)
    ensures multiset(Digests(NotInUseBucket(sel, images))) + multiset(Digests(InUseBucket(sel, images)))
            <= multiset(ImageDigests(images))
    decreases |images|
  {
    if |images| > 0 {
      var n := |images| - 1;
      var front, last := images[..n], images[n];
      BucketDigests(sel, front);
      BucketsStep(sel, images, n);
      assert images[..n + 1] == images;
      assert ImageDigests(images) == ImageDigests(front) + [last.imageDigest];
      var one := [ToCandidate(sel.repositoryUri, last)];
      var c := Classify(sel, last);
      var a := if c.Untagged? || c.NotInUse? then one else [];
      var b := if c.InUse? then one else [];
      assert Digests(one) == [last.imageDigest];
      assert Digests([]) == [];
      DigestsAppend(NotInUseBucket(sel, front), a);
      DigestsAppend(InUseBucket(sel, front), b);
      assert multiset(Digests(a)) + multiset(Digests(b)) <= multiset{last.imageDigest};
    }
  }

  /** Every selected digest is an input digest, and no image is selected twice:
      the selected digests form a sub-multiset of the input digests. */
  lemma DigestsFromInput(sel: Selection, images: seq<ImageDetail>, r: Outcome<seq<Candidate>>)
    requires Selects(sel, images, r) && r.Done?
    ensures multiset(Digests(r.value)) <= multiset(ImageDigests(images))
  {
    var sorted := Decompose(sel, images, r);
    var m := Min(sel.protectLatest, |sorted|);
    assert sorted == sorted[..m] + sorted[m..];
    DigestsAppend(sorted[..m], sorted[m..]);
    DigestsPermutation(sorted, InUseBucket(sel, images));
    DigestsAppend(NotInUseBucket(sel, images), sorted[m..]);
    BucketDigests(sel, images);
  }

  /** The hold expression "keep" holds the tag list ["keep"] and not ["v1"]. */
  lemma HoldExampleVerdicts(re: Engine)
    requires re.compiles("keep") && re.matchString("keep", "[keep]") && !re.matchString("keep", "[v1]")
    ensures Evaluate(re, CombinedTags(["v1"]), "keep") == Decided(false)
    ensures Evaluate(re, CombinedTags(["keep"]), "keep") == Decided(true)
  {
    assert CombinedTags(["v1"]) == "[v1]";
    assert CombinedTags(["keep"]) == "[keep]";
    NoOccurrence("keep", "OR");
    NoOccurrence("keep", "&&");
  }

  /** The worked case's images pass the hold pattern and the first two are eligible. */
  lemma ExampleEligible(
    re: Engine, uri: string, inUse: map<string, bool>, p: int, a: string, b: string, c: string,
    t1: int, t2: int, t3: int)
    requires re.compiles("keep") && re.matchString("keep", "[keep]") && !re.matchString("keep", "[v1]")
    ensures FirstBroken(Selection(re, "keep", p, inUse, uri, false),
                        [ImageDetail(a, [], Some(t1)), ImageDetail(b, ["v1"], Some(t2)), ImageDetail(c, ["keep"], Some(t3))]) == None
    ensures Eligible(Selection(re, "keep", p, inUse, uri, false),
                     [ImageDetail(a, [], Some(t1)), ImageDetail(b, ["v1"], Some(t2)), ImageDetail(c, ["keep"], Some(t3))])
            == [Candidate("", uri, a, "", t1), Candidate("", uri, b, "v1", t2)]
  {
    var sel := Selection(re, "keep", p, inUse, uri, false);
    var x, y, z := ImageDetail(a, [], Some(t1)), ImageDetail(b, ["v1"], Some(t2)), ImageDetail(c, ["keep"], Some(t3));
    var images := [x, y, z];
    HoldExampleVerdicts(re);
    assert Classify(sel, x) == Untagged && Classify(sel, y) == NotInUse && Classify(sel, z) == Held;
    assert images[..2] == [x, y] && [x, y][..1] == [x] && [x][..0] == [];
    assert FirstBroken(sel, [x]) == None;
    assert FirstBroken(sel, [x, y]) == None;
    assert NotHeld(sel, x) && NotHeld(sel, y) && !NotHeld(sel, z);
    assert Eligible(sel, [x]) == [Candidate("", uri, a, "", t1)];
    assert Eligible(sel, [x, y]) == [Candidate("", uri, a, "", t1), Candidate("", uri, b, "v1", t2)];
  }

  /** A worked case: an untagged image, one tagged "v1" and one tagged "keep",
      under the hold expression "keep" and without in-use protection, yield the
      first two, in input order, and nothing else; the third is held. */
  lemma SelectionExample(
    re: Engine, uri: string, inUse: map<string, bool>, p: int, a: string, b: string, c: string,
    t1: int, t2: int, t3: int)
    requires re.compiles("keep") && re.matchString("keep", "[keep]") && !re.matchString("keep", "[v1]")
    requires 0 <= p
    ensures Selects(Selection(re, "keep", p, inUse, uri, false),
                    [ImageDetail(a, [], Some(t1)), ImageDetail(b, ["v1"], Some(t2)), ImageDetail(c, ["keep"], Some(t3))],
                    Done([Candidate("", uri, a, "", t1), Candidate("", uri, b, "v1", t2)]))
    ensures forall r :: Selects(Selection(re, "keep", p, inUse, uri, false),
                                [ImageDetail(a, [], Some(t1)), ImageDetail(b, ["v1"], Some(t2)), ImageDetail(c, ["keep"], Some(t3))], r)
                        ==> r == Done([Candidate("", uri, a, "", t1), Candidate("", uri, b, "v1", t2)])
  {
    var sel := Selection(re, "keep", p, inUse, uri, false);
    var x, y, z := ImageDetail(a, [], Some(t1)), ImageDetail(b, ["v1"], Some(t2)), ImageDetail(c, ["keep"], Some(t3));
    var images := [x, y, z];
    var expected := [Candidate("", uri, a, "", t1), Candidate("", uri, b, "v1", t2)];
    ExampleEligible(re, uri, inUse, p, a, b, c, t1, t2, t3);
    BucketsWithoutProtection(sel, images);
    var none: seq<Candidate> := [];
    assert expected == NotInUseBucket(sel, images) + none[Min(p, 0)..];
    assert ArrangedWith(sel, images, none, expected);
    forall r | Selects(sel, images, r) ensures r == Done(expected) {
      NoProtectionWithoutInUse(sel, images, r);
    }
  }

  // ---------------------------------------------------------------------------
  // The repository name filter

  /** A repository is kept iff it is listed and its name evaluates to `keep`;
      a bad pattern on any listed name makes the whole filter fatal. */
  lemma FilterByNameMembership(re: Engine, repos: seq<Repository>, expr: string, keep: bool)
    ensures FilterByName(re, repos, expr, keep).Abort? <==>
              exists i :: 0 <= i < |repos| && Evaluate(re, repos[i].repositoryName, expr).BadPattern?
    ensures FilterByName(re, repos, expr, keep).Done? ==>
              forall x :: x in FilterByName(re, repos, expr, keep).value <==>
                            x in repos && Evaluate(re, x.repositoryName, expr) == Decided(keep)
  {
    FilterByNameAborts(re, repos, expr, keep);
    if FilterByName(re, repos, expr, keep).Done? {
      FilterByNameKeeps(re, repos, expr, keep);
    }
  }

  lemma {:induction false} FilterByNameAborts(re: Engine, repos: seq<Repository>, expr: string, keep: bool)
    ensures FilterByName(re, repos, expr, keep).Abort? <==>
              exists i :: 0 <= i < |repos| && Evaluate(re, repos[i].repositoryName, expr).BadPattern?
    decreases |repos|
  {
    if |repos| > 0 {
      var front := repos[..|repos| - 1];
      FilterByNameAborts(re, front, expr, keep);
      if FilterByName(re, front, expr, keep).Abort? {
        var i :| 0 <= i < |front| && Evaluate(re, front[i].repositoryName, expr).BadPattern?;
        assert repos[i] == front[i];
      } else if !Evaluate(re, repos[|repos| - 1].repositoryName, expr).BadPattern? {
        forall i | 0 <= i < |repos|
          ensures !Evaluate(re, repos[i].repositoryName, expr).BadPattern?
        {
          if i < |front| {
            assert repos[i] == front[i];
          }
        }
      }
    }
  }

  lemma {:induction false} FilterByNameKeeps(re: Engine, repos: seq<Repository>, expr: string, keep: bool)
    requires FilterByName(re, repos, expr, keep).Done?
    ensures forall x :: x in FilterByName(re, repos, expr, keep).value <==>
                          x in repos && Evaluate(re, x.repositoryName, expr) == Decided(keep)
    decreases |repos|
  {
    if |repos| > 0 {
      var front := repos[..|repos| - 1];
      var last := repos[|repos| - 1];
      assert FilterByName(re, front, expr, keep).Done?;
      FilterByNameKeeps(re, front, expr, keep);
      FilterByNameAborts(re, front, expr, keep);
      assert repos == front + [last];
      forall x | x in repos && x !in front ensures x == last {
      }
    }
  }

  /** The filter keeps listing order: filtering a concatenation concatenates
      the filtered parts. */
  lemma {:induction false} FilterByNameAppend(re: Engine, xs: seq<Repository>, ys: seq<Repository>, expr: string, keep: bool)
    requires FilterByName(re, xs, expr, keep).Done? && FilterByName(re, ys, expr, keep).Done?
    ensures FilterByName(re, xs + ys, expr, keep)
            == Done(FilterByName(re, xs, expr, keep).value + FilterByName(re, ys, expr, keep).value)
    decreases |ys|
  {
    if |ys| == 0 {
      assert xs + ys == xs;
      assert FilterByName(re, ys, expr, keep).value == [];
      assert FilterByName(re, xs, expr, keep).value + [] == FilterByName(re, xs, expr, keep).value;
    } else {
      var zs := xs + ys;
      assert zs[..|zs| - 1] == xs + ys[..|ys| - 1];
      assert zs[|zs| - 1] == ys[|ys| - 1];
      var last := ys[|ys| - 1];
      assert FilterByName(re, ys[..|ys| - 1], expr, keep).Done?;
      FilterByNameAppend(re, xs, ys[..|ys| - 1], expr, keep);
      var kx, ky := FilterByName(re, xs, expr, keep).value, FilterByName(re, ys[..|ys| - 1], expr, keep).value;
      assert Evaluate(re, last.repositoryName, expr).Decided?;
      assert (kx + ky) + [last] == kx + (ky + [last]);
    }
  }
}
