# YOLO dataset reorganizer: a verified model

`src/reorganize_yolo_dataset.py` rebuilds a YOLO dataset under a new root. For each
subset (`train`, `valid`, `test` by default), `process_subset` takes the files of
`<input>/<subset>/images` whose lower-cased names end in `.jpg`, `.jpeg` or `.png`. It
processes them in sorted order and gives them consecutive names `000001<ext>`, `000002<ext>`, …
in `<output>/<subset>/images`. Each image's label `<input>/<subset>/labels/<base>.txt` goes
to `<output>/<subset>/labels/<NNNNNN>.txt`. Files are copied with `--keep` and moved
otherwise. When a label is missing, an error line is printed and the destination label is
created empty if absent, kept as it is otherwise.
The function returns the number of images it handled. `main` runs it for every subset,
prints a summary line for each subset that had images, and ends with the total.

The model is in Dafny:

- `ordering.dfy` (module `Ordering`): Python's code-point order on strings, and
  `sorted()` of a directory listing, as a ghost specification (`Sorted`) and as a method
  (`SortNames`) proved equal to it.
- `names.dfy` (module `Names`): the pure string logic. This covers the extension filter,
  `os.path.splitext` and `f"{counter:06d}"` together with its inverse `Parse`.
- `filestore.dfy` (module `FileStore`): an abstract file system. A `Store` class holds a
  map from paths to contents and a set of directories. Its methods are the primitives the
  script calls (`isdir`, `exists`, `listdir`, `makedirs`, `copy2`, `move`,
  `open(..., 'a')`). A path is its sequence of components, so `os.path.join` is
  concatenation when the roots and the subset names are given in canonical form (see
  "Left out").
- `reorganize.dfy` (module `Reorganize`): the code.
  - `ProcessSubset` is `process_subset`, with its loop in `RenameImages` and its loop body
    in `RenameImage`.
  - `ReorganizeDataset` is the loop of `main`, with its body in `ReportSubset`.
  - Printed lines are `Notice` values appended to a `Console`.
  - Each method is proved to have exactly the effect of a specification function:
    - `Step` is one iteration of the loop.
    - `Apply` is the loop as a left fold over the sorted image names.
    - `RunSubset` is a whole call.
    - `RunAll` is the driver loop.
- `loop_properties.dfy` (module `LoopProperties`): what the loop does, stated on the files
  before it runs. It covers which paths change, what every new image and label holds,
  which sources are gone, the exact list of error notices, and the listings of fresh
  destination directories.
- `run_properties.dfy` (module `RunProperties`): what a whole call and `main` guarantee.
  This means which images are numbered, the value returned, independence of the subsets,
  and that the printed total adds up.

Two consequences of the code are made explicit by the proofs:

- Two images with the same base name (`a.jpg` and `a.png`) share the label `a.txt`. When
  copying, both new labels receive it. When moving, the first takes it and the second gets
  an error line; its destination label is created empty if absent and kept as it is
  otherwise (`LoopProperties.LabelDelivered`, `LoopProperties.NoticesExact`).
- A name such as `.jpg` passes the filter, but `splitext` gives it no extension, so its
  new name is `000001` with no extension (`Names.SplitExtLeadingDot`).

The format `{:06d}` pads to *at least* six digits. From 1000000 on, the names have seven
or more digits and nothing is truncated (`Names.Format06Width`). The model follows the
code here, not a fixed width of six.

## Model

| member | source | states |
|---|---|---|
| Ordering.Below | src/reorganize_yolo_dataset.py:38 | Python's `<` on `str`, code point by code point: a proper prefix sorts first, and no name sorts before itself |
| Ordering.BelowTotal | src/reorganize_yolo_dataset.py:38 | two different names are ordered one way or the other |
| Ordering.BelowTransitive | src/reorganize_yolo_dataset.py:38 | string order is transitive |
| Ordering.Sorted | src/reorganize_yolo_dataset.py:38 | `sorted(listing)` is strictly increasing and holds exactly the listed names |
| Ordering.SortedUnique | src/reorganize_yolo_dataset.py:38 | two strictly increasing sequences with the same names are equal, so the processing order depends only on the directory's contents |
| Ordering.SortNames | src/reorganize_yolo_dataset.py:38 | the sort returns a strictly increasing sequence of exactly the listed names, which equals `Sorted` |
| Names.IsImageName | src/reorganize_yolo_dataset.py:39 | the filter: the lower-cased name ends in `.jpg`, `.jpeg` or `.png` (definition; `ImageNameIgnoresCase` and `ImageSuffixAtLastDot` state its properties) |
| Names.Lower | src/reorganize_yolo_dataset.py:39 | `lower()` keeps the length and lower-cases each ASCII letter |
| Names.ImageNameIgnoresCase | src/reorganize_yolo_dataset.py:39 | the filter accepts a name exactly when it accepts its lower-cased form |
| Names.ImageNames | src/reorganize_yolo_dataset.py:38-40 | the filtered listing contains exactly the listed names that end in `.jpg`, `.jpeg` or `.png` in any case, and is no longer than the listing |
| Names.ImageNamesExtend | src/reorganize_yolo_dataset.py:38-40 | one more entry of the listing is appended exactly when it passes the filter |
| Names.ImageNamesSorted | src/reorganize_yolo_dataset.py:38-40 | filtering a sorted listing keeps it sorted |
| Names.SortedImageCount | src/reorganize_yolo_dataset.py:38-40 | the number of names the loop handles equals the number of image names in the directory |
| Names.LastIndexOf | src/reorganize_yolo_dataset.py:42 | the index of the last occurrence of a character, or -1 |
| Names.SplitExt | src/reorganize_yolo_dataset.py:42 | `splitext`: base + ext is the name; ext is empty or starts with its only '.' and contains no '/' |
| Names.SplitExtWhen | src/reorganize_yolo_dataset.py:42 | `splitext` gives an extension exactly when some character between the last '/' and the last '.' is not a '.', and that extension is everything from the last '.' on |
| Names.ImageSuffixAtLastDot | src/reorganize_yolo_dataset.py:39 | the suffix an accepted name matched starts at its last '.' |
| Names.ImageExtension | src/reorganize_yolo_dataset.py:39-47 | for an accepted name the extension is the matched suffix, case preserved, exactly when a non-dot precedes that suffix after the last '/', and empty otherwise (`.jpg`, `..png`) |
| Names.SplitExtKeepsCase | src/reorganize_yolo_dataset.py:42 | `A.JPG` splits into `A` and `.JPG` |
| Names.SplitExtLeadingDot | src/reorganize_yolo_dataset.py:42 | `.jpg` has no extension |
| Names.SplitExtLastDot | src/reorganize_yolo_dataset.py:42 | `x.tar.png` splits at the last dot |
| Names.Decimal | src/reorganize_yolo_dataset.py:46 | the numeral is digits only, has no leading zero, and has one digit exactly below 10 |
| Names.Format06 | src/reorganize_yolo_dataset.py:46 | the new name is digits only, at least six long, ends in the counter's numeral, and has no leading zero when longer than six |
| Names.ParseFormat06 | src/reorganize_yolo_dataset.py:46 | reading the new name back as a number gives the counter |
| Names.Format06Injective | src/reorganize_yolo_dataset.py:46 | different counters give different names |
| Names.Format06Padding | src/reorganize_yolo_dataset.py:46 | the counter's numeral left-padded with `0` to length max(6, number of digits), ending in the numeral itself |
| Names.Format06Width | src/reorganize_yolo_dataset.py:46 | exactly six characters below 1000000, more from there on |
| Names.Format06Examples | src/reorganize_yolo_dataset.py:46 | 1 gives `000001` and 1234567 gives `1234567` |
| Names.FirstImageName | src/reorganize_yolo_dataset.py:42-46 | the first image `A.JPG` gets the new name `000001.JPG`: the extension keeps its case |
| Names.NewNamesDistinct | src/reorganize_yolo_dataset.py:46-48 | a counter's name followed by an extension (empty or starting with '.') determines the counter |
| FileStore.Listing | src/reorganize_yolo_dataset.py:38 | `listdir` gives exactly the names of the files directly in the directory |
| FileStore.Ancestors | src/reorganize_yolo_dataset.py:34-35 | `makedirs` makes every non-empty prefix of the path a directory |
| FileStore.Copied | src/reorganize_yolo_dataset.py:52 | `copy2`: the target holds the source content, the source stays, nothing else changes |
| FileStore.Moved | src/reorganize_yolo_dataset.py:54 | `move`: the target holds the source content, the source is gone, nothing else changes |
| FileStore.Touched | src/reorganize_yolo_dataset.py:63 | `open(p, 'a')`: `p` exists afterwards, keeps its content if it existed and is empty otherwise; nothing else changes |
| FileStore.Store.IsDir | src/reorganize_yolo_dataset.py:30 | true exactly for a directory |
| FileStore.Store.Exists | src/reorganize_yolo_dataset.py:57 | true exactly for an existing file |
| FileStore.Store.ListDir | src/reorganize_yolo_dataset.py:38 | the names of the files directly inside the directory |
| FileStore.Store.MakeDirs | src/reorganize_yolo_dataset.py:34-35 | adds the path and its ancestors to the directories; the files are unchanged |
| FileStore.Store.Copy | src/reorganize_yolo_dataset.py:52 | the files become `Copied`; the directories are unchanged |
| FileStore.Store.Move | src/reorganize_yolo_dataset.py:54 | the files become `Moved`; the directories are unchanged |
| FileStore.Store.Touch | src/reorganize_yolo_dataset.py:63 | the files become `Touched`; the directories are unchanged |
| Reorganize.Console.Emit | src/reorganize_yolo_dataset.py:31 | a printed line is appended to the output, after the earlier ones |
| Reorganize.ImagesDir | src/reorganize_yolo_dataset.py:25-27 | (definition) `<root>/<subset>/images`, for `images_src` and `images_dst` |
| Reorganize.LabelsDir | src/reorganize_yolo_dataset.py:26-28 | (definition) `<root>/<subset>/labels`, for `labels_src` and `labels_dst` |
| Reorganize.SrcImage | src/reorganize_yolo_dataset.py:43 | (definition) `<src>/<subset>/images/<fname>` |
| Reorganize.SrcLabel | src/reorganize_yolo_dataset.py:42-44 | (definition) `<src>/<subset>/labels/<base>.txt`, with `base` from `splitext(fname)` |
| Reorganize.DstImage | src/reorganize_yolo_dataset.py:42-47 | (definition) `<dst>/<subset>/images/<counter padded><ext>`, with `ext` from `splitext(fname)` |
| Reorganize.DstLabel | src/reorganize_yolo_dataset.py:46-48 | (definition) `<dst>/<subset>/labels/<counter padded>.txt` |
| Reorganize.PathShape | src/reorganize_yolo_dataset.py:25-28 | two joined paths `root/subset/dir/name` are equal only component by component |
| Reorganize.StepPathsDistinct | src/reorganize_yolo_dataset.py:43-48 | the source image, the source label, the new image and the new label are four different paths, and the sources are not written |
| Reorganize.SourceImageOnlyItself | src/reorganize_yolo_dataset.py:43-63 | an iteration changes no source image other than its own |
| Reorganize.Transfer | src/reorganize_yolo_dataset.py:51-54 | copy or move: the target gets the content; the source survives exactly when copying; nothing else changes |
| Reorganize.Deliver | src/reorganize_yolo_dataset.py:51-63 | the file operations of one iteration: copy or move the image, then copy or move the label if it exists at that point, else open the new label for appending (definition; `DeliverEffect` states its effect) |
| Reorganize.DeliverEffect | src/reorganize_yolo_dataset.py:51-63 | after the image and label operations: the new image holds the image; the new label holds the label if it existed, else its old content or nothing; moving removes both sources; only the two new paths are created |
| Reorganize.Step | src/reorganize_yolo_dataset.py:42-66 | an iteration keeps every other source image present |
| Reorganize.StepEffect | src/reorganize_yolo_dataset.py:42-66 | one iteration changes only its four paths (only its two new paths when copying), delivers image and label contents, removes the sources when moving, and prints one error exactly when the label is missing |
| Reorganize.Apply | src/reorganize_yolo_dataset.py:37-66 | the loop keeps every source image it has not reached yet |
| Reorganize.ApplySnoc | src/reorganize_yolo_dataset.py:37-66 | the loop over one more image is the earlier loop followed by one iteration with the next counter, whose source image is still there |
| Reorganize.ReadyExtend | src/reorganize_yolo_dataset.py:38-43 | a new listed image, not yet handled, can be appended to the loop |
| Reorganize.Entries | src/reorganize_yolo_dataset.py:38-40 | the names the loop handles: the sorted listing of the source images directory, filtered (definition; `SubsetEntries` states its contents) |
| Reorganize.EntriesReady | src/reorganize_yolo_dataset.py:38-43 | the sorted, filtered listing has no repeats and every name in it is an existing source image |
| Reorganize.RunSubset | src/reorganize_yolo_dataset.py:24-68 | one call: a warning and 0 without a source images directory; otherwise both destination directories are made and the loop runs over `Entries`, returning their number (definition; `ProcessSubset` is proved to have this effect) |
| Reorganize.MainPass | src/reorganize_yolo_dataset.py:82-86 | one pass of `main`'s loop after the earlier outcome: the call, its summary when the count is non-zero, and the total increased by the count (definition; `ReportSubset` is proved to have this effect) |
| Reorganize.RunAll | src/reorganize_yolo_dataset.py:81-88 | `main`'s loop: the calls in order, each followed by its summary when non-zero, with the counts summed (definition; `ReorganizeDataset` is proved to have this effect) |
| Reorganize.NotYetKept | src/reorganize_yolo_dataset.py:38 | a sorted listing never reaches the same name twice |
| Reorganize.Summary | src/reorganize_yolo_dataset.py:84-85 | a summary line is printed exactly when the count is not zero |
| Reorganize.RenameImage | src/reorganize_yolo_dataset.py:42-64 | the loop body changes the files and the output exactly as `Step` does and creates no directory |
| Reorganize.RenameImages | src/reorganize_yolo_dataset.py:37-68 | the loop over the sorted listing has exactly the effect of `Apply` on its image names and returns how many there are |
| Reorganize.ProcessSubset | src/reorganize_yolo_dataset.py:24-68 | `process_subset` has exactly the effect and result of `RunSubset`; without an images directory it returns 0 and changes nothing |
| Reorganize.ReportSubset | src/reorganize_yolo_dataset.py:82-86 | one pass of `main`'s loop: the subset is processed, then its summary is printed only when it is not empty |
| Reorganize.RunAllExtend | src/reorganize_yolo_dataset.py:82-86 | running one more subset is the earlier run followed by one `MainPass`: one call, its summary, and its count added to the total |
| Reorganize.ReorganizeDataset | src/reorganize_yolo_dataset.py:81-88 | `main`'s loop has exactly the effect of `RunAll`, returns its total and prints the total last |
| LoopProperties.StepKeeps | src/reorganize_yolo_dataset.py:42-66 | a path one iteration does not touch, or does not write when copying, keeps its state |
| LoopProperties.StepCreates | src/reorganize_yolo_dataset.py:47-63 | an iteration creates only its new image and its new label |
| LoopProperties.StepRemoves | src/reorganize_yolo_dataset.py:54-61 | when moving, an iteration removes its source image and its source label |
| LoopProperties.StepDelivers | src/reorganize_yolo_dataset.py:51-64 | the contents an iteration writes and the error notice it prints |
| LoopProperties.ApplyLast | src/reorganize_yolo_dataset.py:37-66 | the loop is the loop over all but the last image, followed by the last iteration |
| LoopProperties.ApplyFrame | src/reorganize_yolo_dataset.py:37-66 | a path that no iteration touches is left as it was |
| LoopProperties.ApplySettled | src/reorganize_yolo_dataset.py:37-66 | a path that no later iteration touches keeps the state an earlier iteration left |
| LoopProperties.ApplyCreatesOnlyWrites | src/reorganize_yolo_dataset.py:47-63 | every file the loop creates is the new image or new label of some iteration |
| LoopProperties.CopyChangesOnlyWrites | src/reorganize_yolo_dataset.py:51-59 | when copying, the loop changes nothing but the new images and labels |
| LoopProperties.SourceLabelsMeet | src/reorganize_yolo_dataset.py:42-44 | two images share a source label exactly when their base names are equal |
| LoopProperties.NewImageOnlyItsStep | src/reorganize_yolo_dataset.py:46-48 | the new image numbered `k` is touched by iteration `k` only |
| LoopProperties.NewLabelOnlyItsStep | src/reorganize_yolo_dataset.py:46-48 | the new label numbered `k` is touched by iteration `k` only |
| LoopProperties.SourceImageAfter | src/reorganize_yolo_dataset.py:51-54 | a source image survives exactly when copying or when it is not among the images, and then keeps its content |
| LoopProperties.SourceLabelAfter | src/reorganize_yolo_dataset.py:57-61 | a source label survives exactly when copying or when no image has its base name, and then keeps its content |
| LoopProperties.SourcesGoneOnMove | src/reorganize_yolo_dataset.py:54-61 | when moving, every processed image and its label are gone from the source tree |
| LoopProperties.ImageWritten | src/reorganize_yolo_dataset.py:46-54 | right after its iteration, the i-th image's new file holds its content |
| LoopProperties.ImageDelivered | src/reorganize_yolo_dataset.py:37-66 | after the loop, the i-th image in sorted order is at `<i+1 padded><its ext>` with its content |
| LoopProperties.LabelWritten | src/reorganize_yolo_dataset.py:57-63 | right after its iteration, the i-th new label holds the label it found, else its old content or nothing |
| LoopProperties.LabelDelivered | src/reorganize_yolo_dataset.py:37-66 | after the loop, `<i+1 padded>.txt` holds the i-th image's label when it was still there (copying, or first of its base name); otherwise an existing file's content or nothing |
| LoopProperties.NoticesExact | src/reorganize_yolo_dataset.py:57-64 | the error lines are exactly one per image whose label was not found, in order, each naming the image and the new name |
| LoopProperties.CreatedImage | src/reorganize_yolo_dataset.py:47-54 | a file created in the destination images directory is `<k padded><ext of the k-th image>` |
| LoopProperties.CreatedLabel | src/reorganize_yolo_dataset.py:48-63 | a file created in the destination labels directory is `<k padded>.txt` for some counter `k` |
| LoopProperties.FreshImagesListing | src/reorganize_yolo_dataset.py:37-66 | an initially empty destination images directory ends up listing exactly `<k padded><ext>` for k = 1..N |
| LoopProperties.FreshLabelsListing | src/reorganize_yolo_dataset.py:37-66 | an initially empty destination labels directory ends up listing exactly `<k padded>.txt` for k = 1..N |
| RunProperties.NonImagesUntouched | src/reorganize_yolo_dataset.py:38-40 | a source entry whose name fails the image filter is left as it was, present or absent, with its content |
| RunProperties.FirstImageKeepsCase | src/reorganize_yolo_dataset.py:42-47 | `A.JPG`, numbered 1, lands at `<dst>/<subset>/images/000001.JPG` |
| RunProperties.SubsetEntries | src/reorganize_yolo_dataset.py:38-40 | a call numbers, in strictly increasing order, exactly the source files whose names pass the filter |
| RunProperties.SubsetCount | src/reorganize_yolo_dataset.py:30-32 | a call returns the number of image names in the images directory, and 0 when that is no directory |
| RunProperties.MissingLabelsOnly | src/reorganize_yolo_dataset.py:64 | the loop prints only missing-label errors |
| RunProperties.SubsetPrintsNoSummary | src/reorganize_yolo_dataset.py:24-68 | a call prints no summary line |
| RunProperties.SubsetDirs | src/reorganize_yolo_dataset.py:30-35 | a call creates both destination directories and their ancestors when the images directory exists, and nothing otherwise |
| RunProperties.NestedRoots | src/reorganize_yolo_dataset.py:25-35 | a source images directory lies under a destination directory only when the roots nest |
| RunProperties.SourceDirKept | src/reorganize_yolo_dataset.py:34-35 | unless the destination root lies inside the source root, a call creates no source images directory |
| RunProperties.OtherSubsetUntouched | src/reorganize_yolo_dataset.py:43-63 | a call touches no source image of another subset |
| RunProperties.SourceUnwritten | src/reorganize_yolo_dataset.py:47-63 | the loop writes no path `<src>/<a>/<b>/<c>`: no source image and no source label of any subset |
| RunProperties.OtherSourceKept | src/reorganize_yolo_dataset.py:24-68 | a call leaves another subset's source images as they were, and every source image when copying |
| RunProperties.SummedCountsAppend | src/reorganize_yolo_dataset.py:85 | the counts reported by two runs of output add up |
| RunProperties.SummedCountsNone | src/reorganize_yolo_dataset.py:85 | output without summaries reports nothing |
| RunProperties.TotalMatchesSummaries | src/reorganize_yolo_dataset.py:81-88 | the total printed equals the sum of the counts in the summary lines printed before it |
| RunProperties.SummariesNonzero | src/reorganize_yolo_dataset.py:84-85 | every summary line reports a count above zero |
| RunProperties.RunKeepsSource | src/reorganize_yolo_dataset.py:81-86 | with distinct roots, nested or not, running the subsets leaves a source image of another subset, or any source image when copying, as it was |
| RunProperties.RunKeepsSourceDir | src/reorganize_yolo_dataset.py:34-35 | unless the destination root lies inside the source root, running the subsets creates no source images directory (with `dst` inside `src`, `makedirs` of `<src>/out/images/images` creates `<src>/out/images`) |
| RunProperties.RunKeepsDirs | src/reorganize_yolo_dataset.py:34-35 | running the subsets removes no directory |
| RunProperties.NewFileParent | src/reorganize_yolo_dataset.py:34-35 | a written path is non-empty; the new image `DstImage` has parent `<dst>/<subset>/images` and the new label `DstLabel` has parent `<dst>/<subset>/labels`, both among the directories `makedirs` made before the loop |
| RunProperties.SubsetFilesInDirs | src/reorganize_yolo_dataset.py:34-63 | a call keeps every file inside a directory, as a real file system does |
| RunProperties.RunFilesInDirs | src/reorganize_yolo_dataset.py:81-86 | running the subsets keeps every file inside a directory |
| RunProperties.ListingSame | src/reorganize_yolo_dataset.py:38 | two stores that agree on every file of a directory list it the same |
| RunProperties.MissingDirEmpty | src/reorganize_yolo_dataset.py:30-38 | when every file lies in a directory, a path that is no directory lists nothing |
| RunProperties.RunKeepsCount | src/reorganize_yolo_dataset.py:81-86 | with distinct roots, nested or not, and every file in a directory, earlier subsets do not change the image count of a later, different subset, or of any subset when copying |
| RunProperties.TotalIsSum | src/reorganize_yolo_dataset.py:81-88 | with distinct roots, nested or not, every file in a directory, and distinct subsets when moving, the total is the sum of the image counts each subset had before `main` started |

## Left out

- The training script (`train.py`) and `main`'s argument parsing. The roots, the subsets
  and `keep` are parameters of `ReorganizeDataset`.
- The wording of the printed lines. Each line is a `Notice` carrying the values it
  prints.
- Operating-system behaviour beyond the modelled primitives. Not modelled: permission,
  disk and cross-device errors; the metadata that `copy2` preserves; symbolic links;
  sub-directories inside `images` (the listing holds files only; a directory with an
  image name makes `copy2` fail when copying, and is renamed like a file when moving);
  `makedirs` over an existing file.
- FileStore.Store.Exists: true for files only. `os.path.exists` is also true for a
  directory named `<base>.txt` in `labels`; the script then copies it (and `copy2` fails)
  or moves the directory, where the model creates an empty label and prints an error.
- Path aliasing: a path is the sequence of the components given. Roots written
  differently for the same directory (`data`, `./data`, `data/`, an absolute path) and
  subset names that are empty, absolute, or contain `/` or `..` denote the same
  directories in the script but different paths in the model. Distinct roots in the model
  therefore mean distinct directories only for canonical roots and single-component
  subset names.
- Reorganize.ProcessSubset: requires the source and destination roots to differ, as do
  `RenameImage`, `RenameImages`, `ReportSubset` and `ReorganizeDataset`. With equal roots
  the script renames inside one tree, where a new name can collide with a name still to be
  processed and the Python code can fail midway. That exception path is not modelled.
- Names.Lower: lower-cases ASCII letters only. Python's `str.lower` also maps non-ASCII
  letters (the Kelvin sign becomes `k`, for instance), and those mappings are not modelled.
- Python's `sorted` over the names a directory contains is modelled on its code-point
  order. The order in which `listdir` returns entries does not matter and is not modelled.
- RunProperties.TotalIsSum: assumes that every file lies in a directory, and no repeated
  subset when moving. Under a repeated subset, its second run finds its images already
  moved away; `RunAll` and `TotalMatchesSummaries` cover that case. The abstract store
  may hold a file at a path that is no directory. With the destination inside the source,
  `makedirs` can turn such a path into a source images directory (subset `images` with
  `dst` = `<src>/out` creates `<src>/out/images`) and change the count of subset `out`. A
  real file system never holds such a file, and `RunFilesInDirs` shows a run keeps that
  property. `RunKeepsCount` makes the same assumption.
