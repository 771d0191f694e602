/**
 * What the renaming loop of `process_subset` guarantees, stated on the files
 * before it runs: which files change, what each renamed image and label
 * holds, which sources are gone, which notices are printed and what the
 * destination directories list afterwards.
 */
module LoopProperties {
  import opened Names
  import opened FileStore
  import opened Reorganize

  // ---------------------------------------------------------------------
  // Paths

  lemma SuffixCancel(a: string, b: string, t: string)
    ensures a + t == b + t ==> a == b
  {
    if a + t == b + t {
      assert |a| == |b|;
      assert a == (a + t)[..|a|] && b == (b + t)[..|b|];
    }
  }

  /** Two images share a label exactly when their base names are equal. */
  lemma SourceLabelsMeet(l: Layout, x: string, y: string)
    ensures SrcLabel(l, x) == SrcLabel(l, y) <==> SplitExt(x).base == SplitExt(y).base
  {
    PathShape(l.src, l.subset, "labels", SplitExt(x).base + ".txt", l.src, l.subset, "labels", SplitExt(y).base + ".txt");
    SuffixCancel(SplitExt(x).base, SplitExt(y).base, ".txt");
  }

  /** A source label is not a source image. */
  lemma LabelIsNotImage(l: Layout, x: string, y: string)
    ensures SrcLabel(l, x) != SrcImage(l, y)
  {
    PathShape(l.src, l.subset, "labels", SplitExt(x).base + ".txt", l.src, l.subset, "images", y);
  }

  /** Nothing under the destination root is read or removed. */
  lemma DestinationNotSource(l: Layout, a: string, b: string, c: string, y: string)
    requires l.src != l.dst
    ensures l.dst + [a, b] + [c] != SrcImage(l, y) && l.dst + [a, b] + [c] != SrcLabel(l, y)
  {
    PathShape(l.dst, a, b, c, l.src, l.subset, "images", y);
    PathShape(l.dst, a, b, c, l.src, l.subset, "labels", SplitExt(y).base + ".txt");
  }

  /** The new image numbered `i` is touched only by iteration `i`. */
  lemma NewImageOnlyItsStep(l: Layout, x: string, i: nat, y: string, j: nat)
    requires l.src != l.dst && i != j
    ensures !Touches(DstImage(l, x, i), l, y, j)
  {
    var ex, ey := SplitExt(x).ext, SplitExt(y).ext;
    DestinationNotSource(l, l.subset, "images", Format06(i) + ex, y);
    PathShape(l.dst, l.subset, "images", Format06(i) + ex, l.dst, l.subset, "images", Format06(j) + ey);
    PathShape(l.dst, l.subset, "images", Format06(i) + ex, l.dst, l.subset, "labels", Format06(j) + ".txt");
    if Format06(i) + ex == Format06(j) + ey {
      NewNamesDistinct(i, ex, j, ey);
    }
  }

  /** The new label numbered `i` is touched only by iteration `i`. */
  lemma NewLabelOnlyItsStep(l: Layout, i: nat, y: string, j: nat)
    requires l.src != l.dst && i != j
    ensures !Touches(DstLabel(l, i), l, y, j)
  {
    DestinationNotSource(l, l.subset, "labels", Format06(i) + ".txt", y);
    PathShape(l.dst, l.subset, "labels", Format06(i) + ".txt", l.dst, l.subset, "images", Format06(j) + SplitExt(y).ext);
    PathShape(l.dst, l.subset, "labels", Format06(i) + ".txt", l.dst, l.subset, "labels", Format06(j) + ".txt");
    if Format06(i) + ".txt" == Format06(j) + ".txt" {
      NewNamesDistinct(i, ".txt", j, ".txt");
    }
  }

  /** The iterations after the i-th do not touch the image it wrote. */
  lemma NewImageLater(l: Layout, kept: seq<string>, i: nat)
    requires l.src != l.dst && i < |kept|
    ensures UntouchedFrom(DstImage(l, kept[i], i + 1), l, kept, i + 1)
  {
    forall j | i + 1 <= j < |kept|
      ensures !Touches(DstImage(l, kept[i], i + 1), l, kept[j], j + 1)
    {
      NewImageOnlyItsStep(l, kept[i], i + 1, kept[j], j + 1);
    }
  }

  /** The iterations before the i-th do not touch the label it writes. */
  lemma NewLabelEarlier(l: Layout, kept: seq<string>, i: nat)
    requires l.src != l.dst && i < |kept|
    ensures Untouched(DstLabel(l, i + 1), l, kept[..i])
  {
    var before := kept[..i];
    forall j | 0 <= j < |before|
      ensures !Touches(DstLabel(l, i + 1), l, before[j], j + 1)
    {
      NewLabelOnlyItsStep(l, i + 1, before[j], j + 1);
    }
  }

  /** The iterations after the i-th do not touch the label it wrote. */
  lemma NewLabelLater(l: Layout, kept: seq<string>, i: nat)
    requires l.src != l.dst && i < |kept|
    ensures UntouchedFrom(DstLabel(l, i + 1), l, kept, i + 1)
  {
    forall j | i + 1 <= j < |kept|
      ensures !Touches(DstLabel(l, i + 1), l, kept[j], j + 1)
    {
      NewLabelOnlyItsStep(l, i + 1, kept[j], j + 1);
    }
  }

  // ---------------------------------------------------------------------
  // The loop, step by step

  lemma ReadyPrefix(fs: Files, l: Layout, kept: seq<string>, m: nat)
    requires Ready(fs, l, kept) && m <= |kept|
    ensures Ready(fs, l, kept[..m])
  {
  }

  /** The loop over `kept` is the loop over all but its last name, followed by the last iteration. */
  lemma ApplyLast(fs: Files, l: Layout, kept: seq<string>)
    requires Ready(fs, l, kept) && kept != []
    ensures Ready(fs, l, kept[..|kept| - 1])
    ensures SrcImage(l, kept[|kept| - 1]) in Apply(fs, l, kept[..|kept| - 1]).files
    ensures var n := |kept| - 1;
      var prev := Apply(fs, l, kept[..n]);
      var step := Step(prev.files, l, kept[n], n + 1);
      Apply(fs, l, kept) == Progress(step.files, prev.notices + step.notices)
  {
    var n := |kept| - 1;
    ReadyPrefix(fs, l, kept, n);
    assert kept[n] !in kept[..n];
  }

  /** The loop over `kept[..i + 1]` is the loop over `kept[..i]` followed by iteration `i`. */
  lemma ApplyUpTo(fs: Files, l: Layout, kept: seq<string>, i: nat)
    requires Ready(fs, l, kept) && i < |kept|
    ensures Ready(fs, l, kept[..i]) && Ready(fs, l, kept[..i + 1])
    ensures SrcImage(l, kept[i]) in Apply(fs, l, kept[..i]).files
    ensures var prev := Apply(fs, l, kept[..i]);
      var step := Step(prev.files, l, kept[i], i + 1);
      Apply(fs, l, kept[..i + 1]) == Progress(step.files, prev.notices + step.notices)
  {
    ReadyPrefix(fs, l, kept, i + 1);
    ApplyLast(fs, l, kept[..i + 1]);
    assert kept[..i + 1][..i] == kept[..i];
  }

  /** A path iteration `k` does not touch, or in copy mode does not write, keeps its state. */
  lemma StepKeeps(fs: Files, l: Layout, name: string, k: nat, p: Path)
    requires l.src != l.dst && SrcImage(l, name) in fs
    requires !Touches(p, l, name, k) || (l.keep && !Writes(p, l, name, k))
    ensures SameAt(fs, Step(fs, l, name, k).files, p)
  {
    StepEffect(fs, l, name, k);
  }

  /** A path iteration `k` creates is one it writes. */
  lemma StepCreates(fs: Files, l: Layout, name: string, k: nat, p: Path)
    requires l.src != l.dst && SrcImage(l, name) in fs
    requires p in Step(fs, l, name, k).files && p !in fs
    ensures Writes(p, l, name, k)
  {
    StepEffect(fs, l, name, k);
  }

  /** In move mode iteration `k` removes its source image and its source label. */
  lemma StepRemoves(fs: Files, l: Layout, name: string, k: nat)
    requires l.src != l.dst && SrcImage(l, name) in fs && !l.keep
    ensures SrcImage(l, name) !in Step(fs, l, name, k).files
    ensures SrcLabel(l, name) !in Step(fs, l, name, k).files
  {
    StepEffect(fs, l, name, k);
  }

  /** What iteration `k` writes and prints. */
  lemma StepDelivers(fs: Files, l: Layout, name: string, k: nat)
    requires l.src != l.dst && SrcImage(l, name) in fs
    ensures DstImage(l, name, k) in Step(fs, l, name, k).files
    ensures Step(fs, l, name, k).files[DstImage(l, name, k)] == fs[SrcImage(l, name)]
    ensures DstLabel(l, k) in Step(fs, l, name, k).files
    ensures Step(fs, l, name, k).files[DstLabel(l, k)] ==
      if SrcLabel(l, name) in fs then fs[SrcLabel(l, name)]
      else if DstLabel(l, k) in fs then fs[DstLabel(l, k)]
      else []
    ensures Step(fs, l, name, k).notices ==
      if SrcLabel(l, name) in fs then [] else [LabelMissing(l.subset, name, Format06(k))]
  {
    StepEffect(fs, l, name, k);
  }

  /** A path that no iteration touches is left as it was. */
  lemma {:induction false} ApplyFrame(fs: Files, l: Layout, kept: seq<string>, p: Path)
    requires Ready(fs, l, kept) && Untouched(p, l, kept)
    ensures SameAt(fs, Apply(fs, l, kept).files, p)
    decreases |kept|
  {
    if kept != [] {
      var n := |kept| - 1;
      ApplyLast(fs, l, kept);
      ApplyFrame(fs, l, kept[..n], p);
      StepKeeps(Apply(fs, l, kept[..n]).files, l, kept[n], n + 1, p);
    }
  }

  /** No iteration from the m-th on touches `p`. */
  ghost predicate UntouchedFrom(p: Path, l: Layout, kept: seq<string>, m: nat)
    requires m <= |kept|
  {
    forall j :: m <= j < |kept| ==> !Touches(p, l, kept[j], j + 1)
  }

  lemma UntouchedFromLast(p: Path, l: Layout, kept: seq<string>, m: nat)
    requires m < |kept| && UntouchedFrom(p, l, kept, m)
    ensures UntouchedFrom(p, l, kept[..|kept| - 1], m)
    ensures !Touches(p, l, kept[|kept| - 1], |kept|)
  {
    assert forall j :: m <= j < |kept| - 1 ==> kept[..|kept| - 1][j] == kept[j];
  }

  /** A path that no iteration from the m-th on touches is final after the first `m` iterations. */
  lemma {:induction false} ApplySettled(fs: Files, l: Layout, kept: seq<string>, m: nat, p: Path)
    requires Ready(fs, l, kept) && m <= |kept| && UntouchedFrom(p, l, kept, m)
    ensures Ready(fs, l, kept[..m])
    ensures SameAt(Apply(fs, l, kept[..m]).files, Apply(fs, l, kept).files, p)
    decreases |kept|
  {
    ReadyPrefix(fs, l, kept, m);
    if m < |kept| {
      var n := |kept| - 1;
      assert kept[..n][..m] == kept[..m];
      UntouchedFromLast(p, l, kept, m);
      ApplyLast(fs, l, kept);
      ApplySettled(fs, l, kept[..n], m, p);
      StepKeeps(Apply(fs, l, kept[..n]).files, l, kept[n], n + 1, p);
    } else {
      assert kept[..m] == kept;
    }
  }

  /** Every file the loop creates is a new image or a new label. */
  lemma {:induction false} ApplyCreatesOnlyWrites(fs: Files, l: Layout, kept: seq<string>, p: Path)
    requires Ready(fs, l, kept)
    requires p in Apply(fs, l, kept).files && p !in fs
    ensures exists i :: 0 <= i < |kept| && Writes(p, l, kept[i], i + 1)
    decreases |kept|
  {
    var n := |kept| - 1;
    ApplyLast(fs, l, kept);
    var prev := Apply(fs, l, kept[..n]).files;
    if p in prev {
      ApplyCreatesOnlyWrites(fs, l, kept[..n], p);
      var i :| 0 <= i < n && Writes(p, l, kept[..n][i], i + 1);
      PrefixAt(kept, n, i);
      assert 0 <= i < |kept| && Writes(p, l, kept[i], i + 1);
    } else {
      StepCreates(prev, l, kept[n], n + 1, p);
      assert 0 <= n < |kept| && Writes(p, l, kept[n], n + 1);
    }
  }

  lemma PrefixAt(kept: seq<string>, n: nat, i: nat)
    requires i < n <= |kept|
    ensures kept[..n][i] == kept[i]
  {
  }

  /** In copy mode the loop changes nothing but the files it writes. */
  lemma {:induction false} CopyChangesOnlyWrites(fs: Files, l: Layout, kept: seq<string>, p: Path)
    requires Ready(fs, l, kept) && l.keep && Unwritten(p, l, kept)
    ensures SameAt(fs, Apply(fs, l, kept).files, p)
    decreases |kept|
  {
    if kept != [] {
      var n := |kept| - 1;
      ApplyLast(fs, l, kept);
      CopyChangesOnlyWrites(fs, l, kept[..n], p);
      StepKeeps(Apply(fs, l, kept[..n]).files, l, kept[n], n + 1, p);
    }
  }

  // ---------------------------------------------------------------------
  // Sources

  /**
   * A source image survives the loop exactly when it is copied or not
   * among the images, and then it keeps its content.
   */
  lemma {:induction false} SourceImageAfter(fs: Files, l: Layout, kept: seq<string>, x: string)
    requires Ready(fs, l, kept)
    ensures SrcImage(l, x) in Apply(fs, l, kept).files <==> SrcImage(l, x) in fs && (l.keep || x !in kept)
    ensures SrcImage(l, x) in Apply(fs, l, kept).files ==> Apply(fs, l, kept).files[SrcImage(l, x)] == fs[SrcImage(l, x)]
    decreases |kept|
  {
    if kept != [] {
      var n := |kept| - 1;
      var p := SrcImage(l, x);
      ApplyLast(fs, l, kept);
      SourceImageAfter(fs, l, kept[..n], x);
      var prev := Apply(fs, l, kept[..n]).files;
      assert x in kept <==> x in kept[..n] || x == kept[n];
      SourceNotWritten(l, l.subset, "images", x, kept[n], n + 1);
      if x != kept[n] {
        SourceImageOnlyItself(l, x, kept[n], n + 1);
        StepKeeps(prev, l, kept[n], n + 1, p);
      } else if l.keep {
        StepKeeps(prev, l, kept[n], n + 1, p);
      } else {
        StepEffect(prev, l, kept[n], n + 1);
      }
    }
  }

  /** No image among `kept[..i]` has the same base name as `x`. */
  ghost predicate BaseUnusedBefore(kept: seq<string>, i: nat, x: string)
    requires i <= |kept|
  {
    forall j :: 0 <= j < i ==> SplitExt(kept[j]).base != SplitExt(x).base
  }

  lemma BaseUnusedPrefix(kept: seq<string>, i: nat, m: nat, x: string)
    requires i <= m <= |kept|
    ensures BaseUnusedBefore(kept[..m], i, x) <==> BaseUnusedBefore(kept, i, x)
  {
    assert forall j :: 0 <= j < i ==> kept[..m][j] == kept[j];
  }

  lemma BaseUnusedSnoc(kept: seq<string>, x: string)
    requires kept != []
    ensures BaseUnusedBefore(kept, |kept|, x) <==>
      BaseUnusedBefore(kept[..|kept| - 1], |kept| - 1, x) && SplitExt(kept[|kept| - 1]).base != SplitExt(x).base
  {
    BaseUnusedPrefix(kept, |kept| - 1, |kept| - 1, x);
  }

  /**
   * A source label survives the loop exactly when it is copied or no image
   * shares its base name (two images `a.jpg` and `a.png` share `a.txt`), and
   * then it keeps its content.
   */
  lemma {:induction false} SourceLabelAfter(fs: Files, l: Layout, kept: seq<string>, x: string)
    requires Ready(fs, l, kept)
    ensures SrcLabel(l, x) in Apply(fs, l, kept).files <==>
      SrcLabel(l, x) in fs && (l.keep || BaseUnusedBefore(kept, |kept|, x))
    ensures SrcLabel(l, x) in Apply(fs, l, kept).files ==> Apply(fs, l, kept).files[SrcLabel(l, x)] == fs[SrcLabel(l, x)]
    decreases |kept|
  {
    if kept != [] {
      var n := |kept| - 1;
      var p := SrcLabel(l, x);
      ApplyLast(fs, l, kept);
      SourceLabelAfter(fs, l, kept[..n], x);
      BaseUnusedSnoc(kept, x);
      var prev := Apply(fs, l, kept[..n]).files;
      SourceNotWritten(l, l.subset, "labels", SplitExt(x).base + ".txt", kept[n], n + 1);
      LabelIsNotImage(l, x, kept[n]);
      SourceLabelsMeet(l, kept[n], x);
      if l.keep || SplitExt(kept[n]).base != SplitExt(x).base {
        StepKeeps(prev, l, kept[n], n + 1, p);
      } else {
        StepRemoves(prev, l, kept[n], n + 1);
      }
    }
  }

  /** In move mode every image of `kept` and its label are gone from the source tree. */
  lemma SourcesGoneOnMove(fs: Files, l: Layout, kept: seq<string>, i: nat)
    requires Ready(fs, l, kept) && !l.keep && i < |kept|
    ensures SrcImage(l, kept[i]) !in Apply(fs, l, kept).files
    ensures SrcLabel(l, kept[i]) !in Apply(fs, l, kept).files
  {
    SourceImageAfter(fs, l, kept, kept[i]);
    SourceLabelAfter(fs, l, kept, kept[i]);
  }

  // ---------------------------------------------------------------------
  // Destinations

  /** After iteration `i` the image numbered `i + 1` holds the i-th source image. */
  lemma ImageWritten(fs: Files, l: Layout, kept: seq<string>, i: nat)
    requires Ready(fs, l, kept) && i < |kept|
    ensures Ready(fs, l, kept[..i + 1])
    ensures DstImage(l, kept[i], i + 1) in Apply(fs, l, kept[..i + 1]).files
    ensures Apply(fs, l, kept[..i + 1]).files[DstImage(l, kept[i], i + 1)] == fs[SrcImage(l, kept[i])]
  {
    ApplyUpTo(fs, l, kept, i);
    SourceImageAfter(fs, l, kept[..i], kept[i]);
    StepDelivers(Apply(fs, l, kept[..i]).files, l, kept[i], i + 1);
  }

  /** The image numbered `i + 1` holds the content of the i-th kept source image. */
  lemma ImageDelivered(fs: Files, l: Layout, kept: seq<string>, i: nat)
    requires Ready(fs, l, kept) && i < |kept|
    ensures DstImage(l, kept[i], i + 1) in Apply(fs, l, kept).files
    ensures Apply(fs, l, kept).files[DstImage(l, kept[i], i + 1)] == fs[SrcImage(l, kept[i])]
  {
    var p := DstImage(l, kept[i], i + 1);
    ImageWritten(fs, l, kept, i);
    NewImageLater(l, kept, i);
    ApplySettled(fs, l, kept, i + 1, p);
  }

  /** The label of the i-th kept image is still in the source tree when iteration `i` looks for it. */
  ghost predicate LabelFound(fs: Files, l: Layout, kept: seq<string>, i: nat)
    requires i < |kept|
  {
    SrcLabel(l, kept[i]) in fs && (l.keep || BaseUnusedBefore(kept, i, kept[i]))
  }

  /**
   * The label numbered `i + 1` holds the source label when it was found;
   * otherwise it is the label file already there, or an empty one.
   */
  lemma LabelWritten(fs: Files, l: Layout, kept: seq<string>, i: nat)
    requires Ready(fs, l, kept) && i < |kept|
    ensures Ready(fs, l, kept[..i + 1])
    ensures DstLabel(l, i + 1) in Apply(fs, l, kept[..i + 1]).files
    ensures Apply(fs, l, kept[..i + 1]).files[DstLabel(l, i + 1)] ==
      if LabelFound(fs, l, kept, i) then fs[SrcLabel(l, kept[i])]
      else if DstLabel(l, i + 1) in fs then fs[DstLabel(l, i + 1)]
      else []
  {
    var p := DstLabel(l, i + 1);
    ApplyUpTo(fs, l, kept, i);
    SourceLabelAfter(fs, l, kept[..i], kept[i]);
    BaseUnusedPrefix(kept, i, i, kept[i]);
    NewLabelEarlier(l, kept, i);
    ApplyFrame(fs, l, kept[..i], p);
    StepDelivers(Apply(fs, l, kept[..i]).files, l, kept[i], i + 1);
  }

  lemma LabelDelivered(fs: Files, l: Layout, kept: seq<string>, i: nat)
    requires Ready(fs, l, kept) && i < |kept|
    ensures DstLabel(l, i + 1) in Apply(fs, l, kept).files
    ensures Apply(fs, l, kept).files[DstLabel(l, i + 1)] ==
      if LabelFound(fs, l, kept, i) then fs[SrcLabel(l, kept[i])]
      else if DstLabel(l, i + 1) in fs then fs[DstLabel(l, i + 1)]
      else []
  {
    var p := DstLabel(l, i + 1);
    LabelWritten(fs, l, kept, i);
    NewLabelLater(l, kept, i);
    ApplySettled(fs, l, kept, i + 1, p);
  }

  /** The notices the loop prints, computed from the state before it: one per label not found. */
  ghost function MissingLabelNotices(fs: Files, l: Layout, kept: seq<string>): seq<Notice>
    decreases |kept|
  {
    if kept == [] then []
    else
      var n := |kept| - 1;
      MissingLabelNotices(fs, l, kept[..n])
        + if LabelFound(fs, l, kept, n) then [] else [LabelMissing(l.subset, kept[n], Format06(n + 1))]
  }

  lemma {:induction false} NoticesExact(fs: Files, l: Layout, kept: seq<string>)
    requires Ready(fs, l, kept)
    ensures Apply(fs, l, kept).notices == MissingLabelNotices(fs, l, kept)
    decreases |kept|
  {
    if kept != [] {
      var n := |kept| - 1;
      ApplyLast(fs, l, kept);
      NoticesExact(fs, l, kept[..n]);
      SourceLabelAfter(fs, l, kept[..n], kept[n]);
      BaseUnusedPrefix(kept, n, n, kept[n]);
      StepDelivers(Apply(fs, l, kept[..n]).files, l, kept[n], n + 1);
    }
  }

  /** A file the loop creates in the destination images directory is a numbered image. */
  lemma CreatedImage(fs: Files, l: Layout, kept: seq<string>, x: string)
    requires Ready(fs, l, kept)
    requires ImagesDir(l.dst, l.subset) + [x] in Apply(fs, l, kept).files && ImagesDir(l.dst, l.subset) + [x] !in fs
    ensures exists i :: 0 <= i < |kept| && x == Format06(i + 1) + SplitExt(kept[i]).ext
  {
    ApplyCreatesOnlyWrites(fs, l, kept, ImagesDir(l.dst, l.subset) + [x]);
    var i :| 0 <= i < |kept| && Writes(ImagesDir(l.dst, l.subset) + [x], l, kept[i], i + 1);
    PathShape(l.dst, l.subset, "images", x, l.dst, l.subset, "images", Format06(i + 1) + SplitExt(kept[i]).ext);
    PathShape(l.dst, l.subset, "images", x, l.dst, l.subset, "labels", Format06(i + 1) + ".txt");
  }

  /** A file the loop creates in the destination labels directory is a numbered label. */
  lemma CreatedLabel(fs: Files, l: Layout, kept: seq<string>, x: string)
    requires Ready(fs, l, kept)
    requires LabelsDir(l.dst, l.subset) + [x] in Apply(fs, l, kept).files && LabelsDir(l.dst, l.subset) + [x] !in fs
    ensures exists k :: 1 <= k <= |kept| && x == Format06(k) + ".txt"
  {
    ApplyCreatesOnlyWrites(fs, l, kept, LabelsDir(l.dst, l.subset) + [x]);
    var i :| 0 <= i < |kept| && Writes(LabelsDir(l.dst, l.subset) + [x], l, kept[i], i + 1);
    PathShape(l.dst, l.subset, "labels", x, l.dst, l.subset, "images", Format06(i + 1) + SplitExt(kept[i]).ext);
    PathShape(l.dst, l.subset, "labels", x, l.dst, l.subset, "labels", Format06(i + 1) + ".txt");
  }

  /**
   * When the destination images directory starts empty, it ends up listing
   * exactly `000001<ext>`, `000002<ext>`, …, one per image, each keeping the
   * extension of its source.
   */
  lemma FreshImagesListing(fs: Files, l: Layout, kept: seq<string>, x: string)
    requires Ready(fs, l, kept) && Listing(fs, ImagesDir(l.dst, l.subset)) == {}
    ensures x in Listing(Apply(fs, l, kept).files, ImagesDir(l.dst, l.subset)) <==>
      exists i :: 0 <= i < |kept| && x == Format06(i + 1) + SplitExt(kept[i]).ext
  {
    assert x !in Listing(fs, ImagesDir(l.dst, l.subset));
    if ImagesDir(l.dst, l.subset) + [x] in Apply(fs, l, kept).files {
      CreatedImage(fs, l, kept, x);
    }
    if exists i :: 0 <= i < |kept| && x == Format06(i + 1) + SplitExt(kept[i]).ext {
      var i :| 0 <= i < |kept| && x == Format06(i + 1) + SplitExt(kept[i]).ext;
      ImageDelivered(fs, l, kept, i);
    }
  }

  /**
   * When the destination labels directory starts empty, it ends up listing
   * exactly `000001.txt`, `000002.txt`, …, one per image.
   */
  lemma FreshLabelsListing(fs: Files, l: Layout, kept: seq<string>, x: string)
    requires Ready(fs, l, kept) && Listing(fs, LabelsDir(l.dst, l.subset)) == {}
    ensures x in Listing(Apply(fs, l, kept).files, LabelsDir(l.dst, l.subset)) <==>
      exists k :: 1 <= k <= |kept| && x == Format06(k) + ".txt"
  {
    assert x !in Listing(fs, LabelsDir(l.dst, l.subset));
    if LabelsDir(l.dst, l.subset) + [x] in Apply(fs, l, kept).files {
      CreatedLabel(fs, l, kept, x);
    }
    if exists k :: 1 <= k <= |kept| && x == Format06(k) + ".txt" {
      var k :| 1 <= k <= |kept| && x == Format06(k) + ".txt";
      LabelDelivered(fs, l, kept, k - 1);
    }
  }
}
