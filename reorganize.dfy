/**
 * `process_subset` and the driver loop of `main` (src/reorganize_yolo_dataset.py).
 *
 * One call renames the images of `<src>/<subset>/images` whose names pass the
 * extension filter, in sorted order, to `<dst>/<subset>/images/<NNNNNN><ext>`,
 * and carries the matching `<src>/<subset>/labels/<base>.txt` along to
 * `<dst>/<subset>/labels/<NNNNNN>.txt` (or creates that file when the label
 * is missing).  Files are copied when `keep` holds and moved otherwise.
 *
 * The pure part of this file specifies the effect: `Step` is one iteration of
 * the loop, `Apply` the loop as a left fold, `RunSubset` a whole call and
 * `RunAll` the driver.  `ProcessSubset` and `ReorganizeDataset` are the
 * imperative code, proved to have exactly that effect on a `Store`.
 */
module Reorganize {
  import opened Ordering
  import opened Names
  import opened FileStore

  function ImagesDir(root: Path, subset: string): Path {
    root + [subset, "images"]
  }

  function LabelsDir(root: Path, subset: string): Path {
    root + [subset, "labels"]
  }

  /** The parameters of one `process_subset` call; `keep` selects copy over move. */
  datatype Layout = Layout(src: Path, dst: Path, subset: string, keep: bool)

  function SrcImage(l: Layout, name: string): Path {
    ImagesDir(l.src, l.subset) + [name]
  }

  function SrcLabel(l: Layout, name: string): Path {
    LabelsDir(l.src, l.subset) + [SplitExt(name).base + ".txt"]
  }

  function DstImage(l: Layout, name: string, k: nat): Path {
    ImagesDir(l.dst, l.subset) + [Format06(k) + SplitExt(name).ext]
  }

  function DstLabel(l: Layout, k: nat): Path {
    LabelsDir(l.dst, l.subset) + [Format06(k) + ".txt"]
  }

  /** The lines the script prints, without their wording. */
  datatype Notice =
    | SubsetSkipped(imagesDir: Path, subset: string)
    | LabelMissing(subset: string, image: string, created: string)
    | SubsetSummary(subset: string, count: nat)
    | Finished(total: nat)

  /** Standard output, as an append-only log of notices. */
  class Console {
    var notices: seq<Notice>

    method Emit(n: Notice)
      modifies this
      ensures notices == old(notices) + [n]
    {
      notices := notices + [n];
    }
  }

  // ---------------------------------------------------------------------
  // Which paths one iteration reads, writes and removes

  /** Two paths of the shape `root + [subset, dir, name]` are equal only component by component. */
  lemma PathShape(r1: Path, a1: string, b1: string, c1: string, r2: Path, a2: string, b2: string, c2: string)
    ensures r1 + [a1, b1] + [c1] == r2 + [a2, b2] + [c2] ==> r1 == r2 && a1 == a2 && b1 == b2 && c1 == c2
  {
    var p, q := r1 + [a1, b1] + [c1], r2 + [a2, b2] + [c2];
    if p == q {
      assert |r1| == |r2|;
      assert p[|r1|] == a1 && q[|r2|] == a2;
      assert p[|r1| + 1] == b1 && q[|r2| + 1] == b2;
      assert p[|r1| + 2] == c1 && q[|r2| + 2] == c2;
      assert r1 == p[..|r1|] && r2 == q[..|r2|];
    }
  }

  /** Iteration `k`, on image `name`, writes the new image and the new label. */
  predicate Writes(p: Path, l: Layout, name: string, k: nat) {
    p == DstImage(l, name, k) || p == DstLabel(l, k)
  }

  /** Iteration `k` may change only its source image, its source label and what it writes. */
  predicate Touches(p: Path, l: Layout, name: string, k: nat) {
    p == SrcImage(l, name) || p == SrcLabel(l, name) || Writes(p, l, name, k)
  }

  /** No iteration over `kept` (the i-th one numbered i + 1) touches `p`. */
  ghost predicate Untouched(p: Path, l: Layout, kept: seq<string>) {
    forall i :: 0 <= i < |kept| ==> !Touches(p, l, kept[i], i + 1)
  }

  /** No iteration over `kept` writes `p`. */
  ghost predicate Unwritten(p: Path, l: Layout, kept: seq<string>) {
    forall i :: 0 <= i < |kept| ==> !Writes(p, l, kept[i], i + 1)
  }

  /** Nothing under the source root is written. */
  lemma SourceNotWritten(l: Layout, a: string, b: string, c: string, name: string, k: nat)
    requires l.src != l.dst
    ensures !Writes(l.src + [a, b] + [c], l, name, k)
  {
    PathShape(l.src, a, b, c, l.dst, l.subset, "images", Format06(k) + SplitExt(name).ext);
    PathShape(l.src, a, b, c, l.dst, l.subset, "labels", Format06(k) + ".txt");
  }

  /** The four paths of one iteration are distinct. */
  lemma StepPathsDistinct(l: Layout, name: string, k: nat)
    requires l.src != l.dst
    ensures SrcImage(l, name) != SrcLabel(l, name)
    ensures !Writes(SrcImage(l, name), l, name, k) && !Writes(SrcLabel(l, name), l, name, k)
    ensures DstImage(l, name, k) != DstLabel(l, k)
  {
    var s := SplitExt(name);
    PathShape(l.src, l.subset, "images", name, l.src, l.subset, "labels", s.base + ".txt");
    SourceNotWritten(l, l.subset, "images", name, name, k);
    SourceNotWritten(l, l.subset, "labels", s.base + ".txt", name, k);
    PathShape(l.dst, l.subset, "images", Format06(k) + s.ext, l.dst, l.subset, "labels", Format06(k) + ".txt");
  }

  /** A source image is touched only by the iteration on that very image. */
  lemma SourceImageOnlyItself(l: Layout, x: string, y: string, k: nat)
    requires l.src != l.dst && x != y
    ensures !Touches(SrcImage(l, x), l, y, k)
  {
    PathShape(l.src, l.subset, "images", x, l.src, l.subset, "images", y);
    PathShape(l.src, l.subset, "images", x, l.src, l.subset, "labels", SplitExt(y).base + ".txt");
    SourceNotWritten(l, l.subset, "images", x, y, k);
  }

  lemma OtherSourcesStay(l: Layout, name: string, k: nat)
    requires l.src != l.dst
    ensures forall x :: x != name ==> !Touches(SrcImage(l, x), l, name, k)
  {
    forall x | x != name
      ensures !Touches(SrcImage(l, x), l, name, k)
    {
      SourceImageOnlyItself(l, x, name, k);
    }
  }

  /** `kept` has no repeated name. */
  ghost predicate Distinct(kept: seq<string>) {
    forall i, j :: 0 <= i < j < |kept| ==> kept[i] != kept[j]
  }

  /** The last image of `kept` is not touched by the iterations before it. */
  lemma LastSourceUntouched(l: Layout, kept: seq<string>)
    requires l.src != l.dst && kept != [] && Distinct(kept)
    ensures Untouched(SrcImage(l, kept[|kept| - 1]), l, kept[..|kept| - 1])
  {
    var n := |kept| - 1;
    forall i | 0 <= i < n
      ensures !Touches(SrcImage(l, kept[n]), l, kept[i], i + 1)
    {
      SourceImageOnlyItself(l, kept[n], kept[i], i + 1);
    }
  }

  // ---------------------------------------------------------------------
  // The effect of the loop

  /** One `shutil.copy2` (keep) or `shutil.move` (not keep). */
  function Transfer(fs: Files, keep: bool, from: Path, to: Path): (r: Files)
    requires from in fs
    ensures to in r && r[to] == fs[from]
    ensures from != to ==> (from in r <==> keep)
    ensures keep ==> r[from] == fs[from]
    ensures forall p :: p != from && p != to ==> SameAt(fs, r, p)
  {
    if keep then Copied(fs, from, to) else Moved(fs, from, to)
  }

  datatype Progress = Progress(files: Files, notices: seq<Notice>)

  /**
   * The file operations of one iteration, on abstract paths: the image `img`
   * goes to `newImg`; then the label `lbl`, if it exists at that point, goes to
   * `newLbl`, and otherwise `newLbl` is opened for appending.
   */
  function Deliver(fs: Files, keep: bool, img: Path, lbl: Path, newImg: Path, newLbl: Path): Files
    requires img in fs
  {
    var afterImage := Transfer(fs, keep, img, newImg);
    if lbl in afterImage then Transfer(afterImage, keep, lbl, newLbl) else Touched(afterImage, newLbl)
  }

  lemma DeliverEffect(fs: Files, keep: bool, img: Path, lbl: Path, newImg: Path, newLbl: Path)
    requires img in fs
    requires img != lbl && img != newImg && img != newLbl && lbl != newImg && lbl != newLbl && newImg != newLbl
    ensures lbl in Transfer(fs, keep, img, newImg) <==> lbl in fs
    ensures var r := Deliver(fs, keep, img, lbl, newImg, newLbl);
      && (forall p :: p != img && p != lbl && p != newImg && p != newLbl ==> SameAt(fs, r, p))
      && (keep ==> forall p :: p != newImg && p != newLbl ==> SameAt(fs, r, p))
      && (forall p :: p in r && p !in fs ==> p == newImg || p == newLbl)
      && newImg in r && r[newImg] == fs[img]
      && newLbl in r
      && r[newLbl] == (if lbl in fs then fs[lbl] else if newLbl in fs then fs[newLbl] else [])
      && (!keep ==> img !in r && lbl !in r)
  {
  }

  /** One iteration of the loop, on image `name` with counter `k`. */
  function Step(fs: Files, l: Layout, name: string, k: nat): (r: Progress)
    requires l.src != l.dst
    requires SrcImage(l, name) in fs
    ensures forall x :: x != name && SrcImage(l, x) in fs ==> SrcImage(l, x) in r.files
  {
    StepPathsDistinct(l, name, k);
    OtherSourcesStay(l, name, k);
    DeliverEffect(fs, l.keep, SrcImage(l, name), SrcLabel(l, name), DstImage(l, name, k), DstLabel(l, k));
    var afterImage := Transfer(fs, l.keep, SrcImage(l, name), DstImage(l, name, k));
    var files := Deliver(fs, l.keep, SrcImage(l, name), SrcLabel(l, name), DstImage(l, name, k), DstLabel(l, k));
    if SrcLabel(l, name) in afterImage then Progress(files, [])
    else Progress(files, [LabelMissing(l.subset, name, Format06(k))])
  }

  /** What one iteration does: the paths it changes, the contents it delivers, the notice it prints. */
  lemma StepEffect(fs: Files, l: Layout, name: string, k: nat)
    requires l.src != l.dst
    requires SrcImage(l, name) in fs
    ensures forall p :: !Touches(p, l, name, k) ==> SameAt(fs, Step(fs, l, name, k).files, p)
    ensures l.keep ==> forall p :: !Writes(p, l, name, k) ==> SameAt(fs, Step(fs, l, name, k).files, p)
    ensures forall p :: p in Step(fs, l, name, k).files && p !in fs ==> Writes(p, l, name, k)
    ensures DstImage(l, name, k) in Step(fs, l, name, k).files
    ensures Step(fs, l, name, k).files[DstImage(l, name, k)] == fs[SrcImage(l, name)]
    ensures DstLabel(l, k) in Step(fs, l, name, k).files
    ensures Step(fs, l, name, k).files[DstLabel(l, k)] ==
      if SrcLabel(l, name) in fs then fs[SrcLabel(l, name)]
      else if DstLabel(l, k) in fs then fs[DstLabel(l, k)]
      else []
    ensures !l.keep ==> SrcImage(l, name) !in Step(fs, l, name, k).files
    ensures !l.keep ==> SrcLabel(l, name) !in Step(fs, l, name, k).files
    ensures Step(fs, l, name, k).notices ==
      if SrcLabel(l, name) in fs then [] else [LabelMissing(l.subset, name, Format06(k))]
  {
    StepPathsDistinct(l, name, k);
    DeliverEffect(fs, l.keep, SrcImage(l, name), SrcLabel(l, name), DstImage(l, name, k), DstLabel(l, k));
  }

  /** The loop can run over `kept`: distinct names, each present as a source image. */
  ghost predicate Ready(fs: Files, l: Layout, kept: seq<string>) {
    && l.src != l.dst
    && Distinct(kept)
    && (forall i :: 0 <= i < |kept| ==> SrcImage(l, kept[i]) in fs)
  }

  /** The loop over the filtered names `kept`, the i-th one with counter i + 1. */
  ghost function Apply(fs: Files, l: Layout, kept: seq<string>): (r: Progress)
    requires Ready(fs, l, kept)
    ensures forall x :: SrcImage(l, x) in fs && x !in kept ==> SrcImage(l, x) in r.files
    decreases |kept|
  {
    if kept == [] then Progress(fs, [])
    else
      var n := |kept| - 1;
      var prev := Apply(fs, l, kept[..n]);
      OtherSourcesStay(l, kept[n], n + 1);
      assert kept[n] !in kept[..n];
      var step := Step(prev.files, l, kept[n], n + 1);
      Progress(step.files, prev.notices + step.notices)
  }

  lemma ReadyExtend(fs: Files, l: Layout, kept: seq<string>, x: string)
    requires Ready(fs, l, kept) && x !in kept && SrcImage(l, x) in fs
    ensures Ready(fs, l, kept + [x])
  {
  }

  lemma ApplySnoc(fs: Files, l: Layout, kept: seq<string>, x: string)
    requires Ready(fs, l, kept + [x])
    ensures Ready(fs, l, kept)
    ensures SrcImage(l, x) in Apply(fs, l, kept).files
    ensures var prev := Apply(fs, l, kept);
      var step := Step(prev.files, l, x, |kept| + 1);
      Apply(fs, l, kept + [x]) == Progress(step.files, prev.notices + step.notices)
  {
    assert (kept + [x])[..|kept|] == kept;
    LastSourceUntouched(l, kept + [x]);
  }

  /** The images of a listing, sorted: the order in which the loop numbers them. */
  ghost function Entries(fs: Files, l: Layout): seq<string> {
    ImageNames(Sorted(Listing(fs, ImagesDir(l.src, l.subset))))
  }

  lemma SortedDistinct(s: seq<string>)
    requires StrictlySorted(s)
    ensures Distinct(s)
  {
    forall i, j | 0 <= i < j < |s|
      ensures s[i] != s[j]
    {
      BelowIrreflexive(s[i]);
    }
  }

  lemma EntriesReady(fs: Files, l: Layout)
    requires l.src != l.dst
    ensures Ready(fs, l, Entries(fs, l))
  {
    var listing := Listing(fs, ImagesDir(l.src, l.subset));
    ImageNamesSorted(Sorted(listing));
    SortedDistinct(Entries(fs, l));
    assert forall x :: x in Entries(fs, l) ==> x in listing;
  }

  datatype Outcome = Outcome(files: Files, dirs: set<Path>, notices: seq<Notice>, count: nat)

  /** The effect and the result of `process_subset(subset, src, dst, keep)`. */
  ghost function RunSubset(fs: Files, ds: set<Path>, l: Layout): Outcome
    requires l.src != l.dst
  {
    var imagesSrc := ImagesDir(l.src, l.subset);
    if imagesSrc !in ds then
      Outcome(fs, ds, [SubsetSkipped(imagesSrc, l.subset)], 0)
    else
      var kept := Entries(fs, l);
      EntriesReady(fs, l);
      var p := Apply(fs, l, kept);
      var made := Ancestors(ImagesDir(l.dst, l.subset)) + Ancestors(LabelsDir(l.dst, l.subset));
      Outcome(p.files, ds + made, p.notices, |kept|)
  }

  /** One pass of the loop of `main` after `before`: the call, its summary when non-zero, the running total. */
  ghost function MainPass(before: Outcome, l: Layout): Outcome
    requires l.src != l.dst
  {
    var o := RunSubset(before.files, before.dirs, l);
    Outcome(o.files, o.dirs, before.notices + (o.notices + Summary(l.subset, o.count)), before.count + o.count)
  }

  /** The effect and the total of the driver loop over `subsets`, in order. */
  ghost function RunAll(fs: Files, ds: set<Path>, src: Path, dst: Path, subsets: seq<string>, keep: bool): Outcome
    requires src != dst
    decreases |subsets|
  {
    if subsets == [] then Outcome(fs, ds, [], 0)
    else
      var n := |subsets| - 1;
      MainPass(RunAll(fs, ds, src, dst, subsets[..n], keep), Layout(src, dst, subsets[n], keep))
  }

  lemma RunAllExtend(fs: Files, ds: set<Path>, src: Path, dst: Path, subsets: seq<string>, keep: bool, i: nat)
    requires src != dst && i < |subsets|
    ensures RunAll(fs, ds, src, dst, subsets[..i + 1], keep)
      == MainPass(RunAll(fs, ds, src, dst, subsets[..i], keep), Layout(src, dst, subsets[i], keep))
  {
    assert subsets[..i + 1][..i] == subsets[..i];
  }

  lemma AppendAssociative(a: seq<Notice>, b: seq<Notice>, c: seq<Notice>)
    ensures a + b + c == a + (b + c)
  {
  }

  // ---------------------------------------------------------------------
  // The code

  /** The names before position `i` of a sorted listing do not include the name at `i`. */
  lemma NotYetKept(names: seq<string>, i: nat)
    requires StrictlySorted(names) && i < |names|
    ensures names[i] !in ImageNames(names[..i])
  {
    forall x | x in ImageNames(names[..i])
      ensures x != names[i]
    {
      var k :| 0 <= k < i && names[k] == x;
      assert Below(x, names[i]);
      BelowIrreflexive(x);
    }
  }

  /** One pass of the loop body, for an entry `fname` that passed the filter, numbered `counter`. */
  method RenameImage(store: Store, console: Console, subset: string, srcRoot: Path, dstRoot: Path, keep: bool,
                     fname: string, counter: nat)
    requires srcRoot != dstRoot
    requires SrcImage(Layout(srcRoot, dstRoot, subset, keep), fname) in store.files
    modifies store, console
    ensures var step := Step(old(store.files), Layout(srcRoot, dstRoot, subset, keep), fname, counter);
      store.files == step.files && console.notices == old(console.notices) + step.notices
    ensures store.dirs == old(store.dirs)
  {
    var split := SplitExt(fname);
    var srcImg := ImagesDir(srcRoot, subset) + [fname];
    var srcLbl := LabelsDir(srcRoot, subset) + [split.base + ".txt"];
    var newName := Format06(counter);
    var dstImg := ImagesDir(dstRoot, subset) + [newName + split.ext];
    var dstLbl := LabelsDir(dstRoot, subset) + [newName + ".txt"];

    if keep {
      store.Copy(srcImg, dstImg);
    } else {
      store.Move(srcImg, dstImg);
    }

    var hasLabel := store.Exists(srcLbl);
    if hasLabel {
      if keep {
        store.Copy(srcLbl, dstLbl);
      } else {
        store.Move(srcLbl, dstLbl);
      }
    } else {
      store.Touch(dstLbl);
      console.Emit(LabelMissing(subset, fname, newName));
    }
  }

  /** The loop of `process_subset` over the sorted listing `names`, numbering the images from 1. */
  method RenameImages(store: Store, console: Console, subset: string, srcRoot: Path, dstRoot: Path, keep: bool,
                      names: seq<string>)
    returns (count: nat)
    requires srcRoot != dstRoot
    requires StrictlySorted(names)
    requires forall x :: x in names ==> SrcImage(Layout(srcRoot, dstRoot, subset, keep), x) in store.files
    modifies store, console
    ensures Ready(old(store.files), Layout(srcRoot, dstRoot, subset, keep), ImageNames(names))
    ensures var p := Apply(old(store.files), Layout(srcRoot, dstRoot, subset, keep), ImageNames(names));
      store.files == p.files && console.notices == old(console.notices) + p.notices
    ensures count == |ImageNames(names)|
    ensures store.dirs == old(store.dirs)
  {
    ghost var l := Layout(srcRoot, dstRoot, subset, keep);
    ghost var fs0 := store.files;
    ghost var log0 := console.notices;
    ghost var kept: seq<string> := [];
    var counter := 1;
    for i := 0 to |names|
      invariant kept == ImageNames(names[..i])
      invariant counter == |kept| + 1
      invariant Ready(fs0, l, kept)
      invariant store.files == Apply(fs0, l, kept).files
      invariant console.notices == log0 + Apply(fs0, l, kept).notices
      invariant store.dirs == old(store.dirs)
    {
      var fname := names[i];
      ImageNamesExtend(names, i);
      if !IsImageName(fname) {
        continue;
      }
      NotYetKept(names, i);
      ReadyExtend(fs0, l, kept, fname);
      ApplySnoc(fs0, l, kept, fname);
      ghost var prev := Apply(fs0, l, kept);
      RenameImage(store, console, subset, srcRoot, dstRoot, keep, fname, counter);
      AppendAssociative(log0, prev.notices, Step(prev.files, l, fname, counter).notices);
      kept := kept + [fname];
      counter := counter + 1;
    }
    assert names[..|names|] == names;
    count := counter - 1;
  }

  method ProcessSubset(store: Store, console: Console, subset: string, srcRoot: Path, dstRoot: Path, keep: bool)
    returns (count: nat)
    requires srcRoot != dstRoot
    modifies store, console
    ensures var o := RunSubset(old(store.files), old(store.dirs), Layout(srcRoot, dstRoot, subset, keep));
      && store.files == o.files
      && store.dirs == o.dirs
      && console.notices == old(console.notices) + o.notices
      && count == o.count
    ensures ImagesDir(srcRoot, subset) !in old(store.dirs) ==>
      count == 0 && store.files == old(store.files) && store.dirs == old(store.dirs)
  {
    var imagesSrc := ImagesDir(srcRoot, subset);
    var isDir := store.IsDir(imagesSrc);
    if !isDir {
      console.Emit(SubsetSkipped(imagesSrc, subset));
      return 0;
    }

    store.MakeDirs(ImagesDir(dstRoot, subset));
    store.MakeDirs(LabelsDir(dstRoot, subset));

    var listing := store.ListDir(imagesSrc);
    assert listing == Listing(store.files, imagesSrc);
    var names := SortNames(listing);
    count := RenameImages(store, console, subset, srcRoot, dstRoot, keep, names);
  }

  /** The notices `main` adds after processing a subset: a summary when it processed any image. */
  function Summary(subset: string, count: nat): (r: seq<Notice>)
    ensures r != [] <==> count != 0
  {
    if count != 0 then [SubsetSummary(subset, count)] else []
  }

  /** One pass of the loop of `main`: process the subset, then report it when it was not empty. */
  method ReportSubset(store: Store, console: Console, subset: string, srcRoot: Path, dstRoot: Path, keep: bool)
    returns (processed: nat)
    requires srcRoot != dstRoot
    modifies store, console
    ensures var o := RunSubset(old(store.files), old(store.dirs), Layout(srcRoot, dstRoot, subset, keep));
      && store.files == o.files
      && store.dirs == o.dirs
      && console.notices == old(console.notices) + (o.notices + Summary(subset, o.count))
      && processed == o.count
  {
    ghost var log0 := console.notices;
    processed := ProcessSubset(store, console, subset, srcRoot, dstRoot, keep);
    ghost var log1 := console.notices;
    if processed != 0 {
      console.Emit(SubsetSummary(subset, processed));
    }
    AppendAssociative(log0, log1[|log0|..], Summary(subset, processed));
  }

  /** The loop of `main`: every subset in order, a summary for each non-empty one, then the total. */
  method ReorganizeDataset(store: Store, console: Console, srcRoot: Path, dstRoot: Path, subsets: seq<string>, keep: bool)
    returns (total: nat)
    requires srcRoot != dstRoot
    modifies store, console
    ensures var o := RunAll(old(store.files), old(store.dirs), srcRoot, dstRoot, subsets, keep);
      && total == o.count
      && store.files == o.files
      && store.dirs == o.dirs
      && console.notices == old(console.notices) + o.notices + [Finished(total)]
  {
    ghost var fs0, ds0, log0 := store.files, store.dirs, console.notices;
    total := 0;
    for i := 0 to |subsets|
      invariant var o := RunAll(fs0, ds0, srcRoot, dstRoot, subsets[..i], keep);
        && total == o.count
        && store.files == o.files
        && store.dirs == o.dirs
        && console.notices == log0 + o.notices
    {
      ghost var before := RunAll(fs0, ds0, srcRoot, dstRoot, subsets[..i], keep);
      RunAllExtend(fs0, ds0, srcRoot, dstRoot, subsets, keep, i);
      var processed := ReportSubset(store, console, subsets[i], srcRoot, dstRoot, keep);
      ghost var o := RunSubset(before.files, before.dirs, Layout(srcRoot, dstRoot, subsets[i], keep));
      AppendAssociative(log0, before.notices, o.notices + Summary(subsets[i], o.count));
      total := total + processed;
    }
    assert subsets[..|subsets|] == subsets;
    console.Emit(Finished(total));
  }
}
