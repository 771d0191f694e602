/**
 * What a whole `process_subset` call and the loop of `main` guarantee: which
 * images a call numbers, what it returns, that one subset leaves the source
 * images of the others alone, and that the printed total adds up.
 */
module RunProperties {
  import opened Ordering
  import opened Names
  import opened FileStore
  import opened Reorganize
  import opened LoopProperties

  // ---------------------------------------------------------------------
  // One call

  /** A call numbers the image names of the source images directory, in sorted order. */
  lemma SubsetEntries(fs: Files, l: Layout)
    ensures StrictlySorted(Entries(fs, l))
    ensures forall x :: x in Entries(fs, l) <==> IsImageName(x) && SrcImage(l, x) in fs
  {
    ImageNamesSorted(Sorted(Listing(fs, ImagesDir(l.src, l.subset))));
  }

  /** The number of image names directly inside `<root>/<subset>/images`, or 0 when that is no directory. */
  function ImageCount(fs: Files, ds: set<Path>, root: Path, subset: string): nat {
    var dir := ImagesDir(root, subset);
    if dir in ds then |ImageSet(Listing(fs, dir))| else 0
  }

  /** A call leaves a source entry that fails the filter as it was. */
  lemma NonImagesUntouched(fs: Files, ds: set<Path>, l: Layout, x: string)
    requires l.src != l.dst && !IsImageName(x)
    ensures SameAt(fs, RunSubset(fs, ds, l).files, SrcImage(l, x))
  {
    if ImagesDir(l.src, l.subset) in ds {
      EntriesReady(fs, l);
      SourceImageAfter(fs, l, Entries(fs, l), x);
    }
  }

  /** `A.JPG`, the first image of a subset, becomes `000001.JPG`. */
  lemma FirstImageKeepsCase(l: Layout)
    ensures DstImage(l, "A.JPG", 1) == ImagesDir(l.dst, l.subset) + ["000001.JPG"]
  {
    FirstImageName();
    NewImageName(l, "A.JPG", 1, "000001.JPG");
  }

  lemma NewImageName(l: Layout, name: string, k: nat, newName: string)
    requires newName == Format06(k) + SplitExt(name).ext
    ensures DstImage(l, name, k) == ImagesDir(l.dst, l.subset) + [newName]
  {
  }

  /** A call returns the number of images it found, and 0 when the images directory is missing. */
  lemma SubsetCount(fs: Files, ds: set<Path>, l: Layout)
    requires l.src != l.dst
    ensures RunSubset(fs, ds, l).count == ImageCount(fs, ds, l.src, l.subset)
  {
    SortedImageCount(Listing(fs, ImagesDir(l.src, l.subset)));
  }

  /** A call prints no summary: those are printed by `main`. */
  lemma SubsetPrintsNoSummary(fs: Files, ds: set<Path>, l: Layout)
    requires l.src != l.dst
    ensures forall n :: n in RunSubset(fs, ds, l).notices ==> !n.SubsetSummary?
  {
    if ImagesDir(l.src, l.subset) in ds {
      EntriesReady(fs, l);
      NoticesExact(fs, l, Entries(fs, l));
      MissingLabelsOnly(fs, l, Entries(fs, l));
    }
  }

  lemma {:induction false} MissingLabelsOnly(fs: Files, l: Layout, kept: seq<string>)
    ensures forall n :: n in MissingLabelNotices(fs, l, kept) ==> n.LabelMissing?
    decreases |kept|
  {
    if kept != [] {
      MissingLabelsOnly(fs, l, kept[..|kept| - 1]);
    }
  }

  // ---------------------------------------------------------------------
  // Separate subsets

  /** A source images directory lies below a destination directory only when the roots nest. */
  lemma NestedRoots(src: Path, dst: Path, s: string, t: string, b: string)
    ensures ImagesDir(src, s) <= dst + [t, b] ==> src <= dst || dst <= src
  {
    var p, q := ImagesDir(src, s), dst + [t, b];
    if p <= q {
      assert src == q[..|src|] == dst[..|src|];
    }
  }

  /** The directories a call creates. */
  lemma SubsetDirs(fs: Files, ds: set<Path>, l: Layout)
    requires l.src != l.dst
    ensures RunSubset(fs, ds, l).dirs ==
      if ImagesDir(l.src, l.subset) in ds then ds + Ancestors(ImagesDir(l.dst, l.subset)) + Ancestors(LabelsDir(l.dst, l.subset))
      else ds
  {
  }

  /**
   * Unless the destination root lies inside the source root, a call creates
   * no source images directory.
   */
  lemma SourceDirKept(fs: Files, ds: set<Path>, l: Layout, s: string)
    requires l.src != l.dst && !(l.src <= l.dst)
    ensures ImagesDir(l.src, s) in RunSubset(fs, ds, l).dirs <==> ImagesDir(l.src, s) in ds
  {
    SubsetDirs(fs, ds, l);
    if l.dst <= l.src {
      // the source images directory is longer than any destination directory
      assert |ImagesDir(l.src, s)| > |l.dst| + 2;
    } else {
      NestedRoots(l.src, l.dst, s, l.subset, "images");
      NestedRoots(l.src, l.dst, s, l.subset, "labels");
    }
  }

  /** The loop of a call does not touch the source images of another subset. */
  lemma OtherSubsetUntouched(fs: Files, l: Layout, kept: seq<string>, s: string, x: string)
    requires l.src != l.dst && l.subset != s
    ensures Untouched(ImagesDir(l.src, s) + [x], l, kept)
  {
    forall i | 0 <= i < |kept|
      ensures !Touches(ImagesDir(l.src, s) + [x], l, kept[i], i + 1)
    {
      PathShape(l.src, s, "images", x, l.src, l.subset, "images", kept[i]);
      PathShape(l.src, s, "images", x, l.src, l.subset, "labels", SplitExt(kept[i]).base + ".txt");
      SourceNotWritten(l, s, "images", x, kept[i], i + 1);
    }
  }

  /**
   * The loop of a call writes no path `<src>/<a>/<b>/<c>`: no source image
   * and no source label of any subset.
   */
  lemma SourceUnwritten(l: Layout, kept: seq<string>, a: string, b: string, c: string)
    requires l.src != l.dst
    ensures Unwritten(l.src + [a, b] + [c], l, kept)
  {
    forall i | 0 <= i < |kept|
      ensures !Writes(l.src + [a, b] + [c], l, kept[i], i + 1)
    {
      SourceNotWritten(l, a, b, c, kept[i], i + 1);
    }
  }

  /**
   * A call on subset `l.subset` leaves the source images of subset `s` as
   * they were, when `s` is another subset or the call copies.
   */
  lemma OtherSourceKept(fs: Files, ds: set<Path>, l: Layout, s: string, x: string)
    requires l.src != l.dst && (l.keep || l.subset != s)
    ensures SameAt(fs, RunSubset(fs, ds, l).files, ImagesDir(l.src, s) + [x])
  {
    if ImagesDir(l.src, l.subset) in ds {
      var kept := Entries(fs, l);
      EntriesReady(fs, l);
      if l.subset != s {
        OtherSubsetUntouched(fs, l, kept, s, x);
        ApplyFrame(fs, l, kept, ImagesDir(l.src, s) + [x]);
      } else {
        SourceUnwritten(l, kept, s, "images", x);
        CopyChangesOnlyWrites(fs, l, kept, ImagesDir(l.src, s) + [x]);
      }
    }
  }

  // ---------------------------------------------------------------------
  // The loop of `main`

  /** The sum of the counts the summary notices of `ns` report. */
  function SummedCounts(ns: seq<Notice>): nat
    decreases |ns|
  {
    if ns == [] then 0
    else
      var last := ns[|ns| - 1];
      SummedCounts(ns[..|ns| - 1]) + if last.SubsetSummary? then last.count else 0
  }

  lemma {:induction false} SummedCountsAppend(a: seq<Notice>, b: seq<Notice>)
    ensures SummedCounts(a + b) == SummedCounts(a) + SummedCounts(b)
    decreases |b|
  {
    if b == [] {
      assert a + b == a;
    } else {
      assert (a + b)[..|a + b| - 1] == a + b[..|b| - 1];
      SummedCountsAppend(a, b[..|b| - 1]);
    }
  }

  lemma {:induction false} SummedCountsNone(ns: seq<Notice>)
    requires forall n :: n in ns ==> !n.SubsetSummary?
    ensures SummedCounts(ns) == 0
    decreases |ns|
  {
    if ns != [] {
      assert ns[|ns| - 1] in ns;
      SummedCountsNone(ns[..|ns| - 1]);
    }
  }

  /** The total `main` prints is the sum of the per-subset summaries it printed before. */
  lemma {:induction false} TotalMatchesSummaries(fs: Files, ds: set<Path>, src: Path, dst: Path, subsets: seq<string>, keep: bool)
    requires src != dst
    ensures RunAll(fs, ds, src, dst, subsets, keep).count == SummedCounts(RunAll(fs, ds, src, dst, subsets, keep).notices)
    decreases |subsets|
  {
    if subsets != [] {
      var n := |subsets| - 1;
      TotalMatchesSummaries(fs, ds, src, dst, subsets[..n], keep);
      var before := RunAll(fs, ds, src, dst, subsets[..n], keep);
      var o := RunSubset(before.files, before.dirs, Layout(src, dst, subsets[n], keep));
      SubsetPrintsNoSummary(before.files, before.dirs, Layout(src, dst, subsets[n], keep));
      SummedCountsNone(o.notices);
      SummedCountsAppend(o.notices, Summary(subsets[n], o.count));
      SummedCountsAppend(before.notices, o.notices + Summary(subsets[n], o.count));
      assert SummedCounts(Summary(subsets[n], o.count)) == o.count;
    }
  }

  /** Every summary `main` prints reports a subset with at least one image. */
  lemma {:induction false} SummariesNonzero(fs: Files, ds: set<Path>, src: Path, dst: Path, subsets: seq<string>, keep: bool)
    requires src != dst
    ensures forall n :: n in RunAll(fs, ds, src, dst, subsets, keep).notices && n.SubsetSummary? ==> n.count > 0
    decreases |subsets|
  {
    if subsets != [] {
      var n := |subsets| - 1;
      SummariesNonzero(fs, ds, src, dst, subsets[..n], keep);
      var before := RunAll(fs, ds, src, dst, subsets[..n], keep);
      SubsetPrintsNoSummary(before.files, before.dirs, Layout(src, dst, subsets[n], keep));
    }
  }

  /** The images counted over `subsets`, each in the state before `main` starts. */
  function TotalCount(fs: Files, ds: set<Path>, src: Path, subsets: seq<string>): nat
    decreases |subsets|
  {
    if subsets == [] then 0
    else TotalCount(fs, ds, src, subsets[..|subsets| - 1]) + ImageCount(fs, ds, src, subsets[|subsets| - 1])
  }

  /** Running the subsets leaves the source images of any other subset, or of every subset when copying, as they were. */
  lemma {:induction false} RunKeepsSource(fs: Files, ds: set<Path>, src: Path, dst: Path, subsets: seq<string>, keep: bool, s: string, x: string)
    requires src != dst && (keep || s !in subsets)
    ensures SameAt(fs, RunAll(fs, ds, src, dst, subsets, keep).files, ImagesDir(src, s) + [x])
    decreases |subsets|
  {
    if subsets != [] {
      var n := |subsets| - 1;
      assert s in subsets[..n] ==> s in subsets;
      RunKeepsSource(fs, ds, src, dst, subsets[..n], keep, s, x);
      var before := RunAll(fs, ds, src, dst, subsets[..n], keep);
      OtherSourceKept(before.files, before.dirs, Layout(src, dst, subsets[n], keep), s, x);
    }
  }

  /**
   * Unless the destination root lies inside the source root, running the
   * subsets creates no source images directory.  (With `dst` below `src` it
   * can: `makedirs` of `<src>/out/images/images` creates `<src>/out/images`.)
   */
  lemma {:induction false} RunKeepsSourceDir(fs: Files, ds: set<Path>, src: Path, dst: Path, subsets: seq<string>, keep: bool, s: string)
    requires src != dst && !(src <= dst)
    ensures ImagesDir(src, s) in RunAll(fs, ds, src, dst, subsets, keep).dirs <==> ImagesDir(src, s) in ds
    decreases |subsets|
  {
    if subsets != [] {
      var n := |subsets| - 1;
      RunKeepsSourceDir(fs, ds, src, dst, subsets[..n], keep, s);
      var before := RunAll(fs, ds, src, dst, subsets[..n], keep);
      SourceDirKept(before.files, before.dirs, Layout(src, dst, subsets[n], keep), s);
    }
  }

  /** Running the subsets removes no directory. */
  lemma {:induction false} RunKeepsDirs(fs: Files, ds: set<Path>, src: Path, dst: Path, subsets: seq<string>, keep: bool)
    requires src != dst
    ensures ds <= RunAll(fs, ds, src, dst, subsets, keep).dirs
    decreases |subsets|
  {
    if subsets != [] {
      var n := |subsets| - 1;
      RunKeepsDirs(fs, ds, src, dst, subsets[..n], keep);
      var before := RunAll(fs, ds, src, dst, subsets[..n], keep);
      SubsetDirs(before.files, before.dirs, Layout(src, dst, subsets[n], keep));
    }
  }

  /** A call keeps every file in a directory: the new files land in the directories it created. */
  lemma SubsetFilesInDirs(fs: Files, ds: set<Path>, l: Layout)
    requires l.src != l.dst && FilesInDirs(fs, ds)
    ensures FilesInDirs(RunSubset(fs, ds, l).files, RunSubset(fs, ds, l).dirs)
  {
    if ImagesDir(l.src, l.subset) in ds {
      var kept := Entries(fs, l);
      EntriesReady(fs, l);
      var o := RunSubset(fs, ds, l);
      SubsetDirs(fs, ds, l);
      forall p | p in o.files
        ensures p != [] && Parent(p) in o.dirs
      {
        if p !in fs {
          ApplyCreatesOnlyWrites(fs, l, kept, p);
          var i :| 0 <= i < |kept| && Writes(p, l, kept[i], i + 1);
          NewFileParent(l, kept[i], i + 1, p);
        }
      }
    }
  }

  /** The new image and the new label lie in the destination images and labels directories. */
  lemma NewFileParent(l: Layout, name: string, k: nat, p: Path)
    requires Writes(p, l, name, k)
    ensures p != []
    ensures Parent(p) in Ancestors(ImagesDir(l.dst, l.subset)) + Ancestors(LabelsDir(l.dst, l.subset))
    ensures p == DstImage(l, name, k) ==> Parent(p) == ImagesDir(l.dst, l.subset)
    ensures p == DstLabel(l, k) ==> Parent(p) == LabelsDir(l.dst, l.subset)
  {
    if p == DstImage(l, name, k) {
      assert Parent(p) == ImagesDir(l.dst, l.subset);
    } else {
      assert Parent(p) == LabelsDir(l.dst, l.subset);
    }
  }

  /** Running the subsets keeps every file in a directory. */
  lemma {:induction false} RunFilesInDirs(fs: Files, ds: set<Path>, src: Path, dst: Path, subsets: seq<string>, keep: bool)
    requires src != dst && FilesInDirs(fs, ds)
    ensures FilesInDirs(RunAll(fs, ds, src, dst, subsets, keep).files, RunAll(fs, ds, src, dst, subsets, keep).dirs)
    decreases |subsets|
  {
    if subsets != [] {
      var n := |subsets| - 1;
      RunFilesInDirs(fs, ds, src, dst, subsets[..n], keep);
      var before := RunAll(fs, ds, src, dst, subsets[..n], keep);
      SubsetFilesInDirs(before.files, before.dirs, Layout(src, dst, subsets[n], keep));
    }
  }

  lemma ListingSame(a: Files, b: Files, dir: Path)
    requires forall x :: SameAt(a, b, dir + [x])
    ensures Listing(a, dir) == Listing(b, dir)
  {
  }

  /** A directory that is not in a store holding every file in a directory lists nothing. */
  lemma MissingDirEmpty(fs: Files, ds: set<Path>, dir: Path)
    requires FilesInDirs(fs, ds) && dir !in ds
    ensures Listing(fs, dir) == {}
  {
  }

  /**
   * Earlier subsets do not change the image count of a later, different
   * subset, or of any subset when copying: its images stay as they were, and
   * its images directory either was there and stays, or was missing and so
   * held no file.
   */
  lemma RunKeepsCount(fs: Files, ds: set<Path>, src: Path, dst: Path, subsets: seq<string>, keep: bool, s: string)
    requires src != dst && FilesInDirs(fs, ds) && (keep || s !in subsets)
    ensures var o := RunAll(fs, ds, src, dst, subsets, keep);
      ImageCount(o.files, o.dirs, src, s) == ImageCount(fs, ds, src, s)
  {
    var o := RunAll(fs, ds, src, dst, subsets, keep);
    var dir := ImagesDir(src, s);
    forall x
      ensures SameAt(fs, o.files, dir + [x])
    {
      RunKeepsSource(fs, ds, src, dst, subsets, keep, s, x);
    }
    ListingSame(fs, o.files, dir);
    RunKeepsDirs(fs, ds, src, dst, subsets, keep);
    if dir !in ds {
      MissingDirEmpty(fs, ds, dir);
      assert ImageSet(Listing(o.files, dir)) == {};
    }
  }

  /**
   * With distinct roots, every file in a directory, and distinct subsets
   * unless copying, the total `main` prints is the number of image names in
   * each subset's images directory before it started.
   */
  lemma {:induction false} TotalIsSum(fs: Files, ds: set<Path>, src: Path, dst: Path, subsets: seq<string>, keep: bool)
    requires src != dst && FilesInDirs(fs, ds) && (keep || Distinct(subsets))
    ensures RunAll(fs, ds, src, dst, subsets, keep).count == TotalCount(fs, ds, src, subsets)
    decreases |subsets|
  {
    if subsets != [] {
      var n := |subsets| - 1;
      var s, prefix := subsets[n], subsets[..n];
      if !keep {
        DistinctLast(subsets);
      }
      TotalIsSum(fs, ds, src, dst, prefix, keep);
      var before := RunAll(fs, ds, src, dst, prefix, keep);
      var o := RunSubset(before.files, before.dirs, Layout(src, dst, s, keep));
      assert RunAll(fs, ds, src, dst, subsets, keep).count == before.count + o.count;
      SubsetCount(before.files, before.dirs, Layout(src, dst, s, keep));
      RunKeepsCount(fs, ds, src, dst, prefix, keep, s);
      assert o.count == ImageCount(fs, ds, src, s);
    }
  }

  /** Without its last element, a sequence of distinct names stays distinct and no longer holds that element. */
  lemma DistinctLast(xs: seq<string>)
    requires xs != [] && Distinct(xs)
    ensures Distinct(xs[..|xs| - 1]) && xs[|xs| - 1] !in xs[..|xs| - 1]
  {
  }
}
