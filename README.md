# Lintilla: a Dafny model of the watermarking tool and the gallery viewers

Lintilla has two parts that hold real logic.

**The batch watermarking tool.** It exists in two versions, `app/bin/watermark.js` and `elvis/app/bin/watermark.js`. The tool walks each directory named on the command line and keeps the files whose lower-cased extension is `.jpeg`, `.jpg` or `.png`. For each kept file it writes a copy under the output directory, in the same relative place, with the watermark image drawn over it. The watermark is scaled uniformly so that it fits a percentage of the image. It is rounded to whole pixels and placed at a horizontal and a vertical position given as percentages. The output is PNG for a `.png` name and JPEG at quality 90 otherwise.
- The `app/` version has an opacity option. It processes the files of one root strictly one after another, in walk order, and catches each file's error, except that a destination which cannot be opened for writing ends the whole process.
- The `elvis/` version starts one independent task per file.

**The browser-side gallery viewers.** Both fetch pages of images as the window scrolls near the bottom. They use a small `idle`/`loading`/`done` state machine and a `current` offset.
- The `elvis/` viewer (`elvis/app/public/js/elvis.js`) builds request URLs from a path template (`setURLArgs`). It remembers every image by its slice URL. It finds the ends of a laid-out row of images (`searchLeft`/`searchRight`). For a clicked image it renders a detail panel with one `dt`/`dd` pair per reference table, in sorted order.
- The `app/` viewer (`app/public/js/elvis.js`) fits images into boxes (`boxFit`) and builds asset URLs (`imageURL`).

## How the model is organised

- `geometry.dfy` (`Geometry`) is the placement arithmetic over `real`, proved for both versions. JavaScript's `Math.round(x)` is modelled as `floor(x + 1/2)`.
- `paths.dfy` (`Paths`) covers the parts of Node's `path` module the tool uses. A path is its sequence of `/`-separated segments. An absolute path starts with an empty segment, so `/srv/out` is `["", "srv", "out"]`. The module defines:
  - `normalize`, which keeps the root of an absolute path;
  - `resolve` against the working directory;
  - `relative` between the two resolved paths;
  - `join` as concatenation followed by normalisation;
  - `extname`, `dirname` and ASCII lower-casing.
- `image_files.dfy` (`ImageFiles`) holds:
  - the extension filter;
  - the destination path;
  - the encoder choice;
  - the records a processed file yields.
- `watermark_app.dfy` (`Watermark`) is the `app/` version. It has:
  - the configuration and its defaults;
  - the per-file pipeline;
  - the per-root loop as a method that appends one outcome per accepted file to a log.
- `watermark_elvis.dfy` (`ElvisWatermark`) is the `elvis/` version. It has its configuration, the per-file task, the scheduling loop, and how its outcomes compare with the `app/` version's.
- `js_string.dfy` (`JsString`) has the JavaScript values and string operations the browser code relies on:
  - truthiness and `String(v)`;
  - `split`/`join`;
  - number formatting;
  - `replace` of the first match;
  - the default `sort`.
- `url_args.dfy` (`UrlArgs`) is `setURLArgs` on the path part. The segments are copied into an array, and the array is updated in place.
- `markup.dfy` (`Markup`) is `rawDiv`/`textDiv`. `htmlEncode` is a function parameter.
- `layout.dfy` (`Layout`) is `traverseUntil`, `searchLeft` and `searchRight` over a sequence of left offsets.
- `paging.dfy` (`Paging`) is the paging state machine as a pure transition function. It also counts the requests still in flight.
- `gallery_app.dfy` (`AppGallery`) and `gallery_elvis.dfy` (`ElvisGallery`) model the two viewers. Each viewer's closure state is a class, and its callbacks are methods tied to `Paging.Step`.

The file system, the image codec and the canvas enter the model as an `Env` value, and as the watermark's size below:
- `load` gives the decoded size or `None`;
- `mkdir` says whether the directory can be made;
- `write` says whether the destination file can be opened and written;
- `encode` says whether the encoder stream finishes without error;
- `cwd` holds the segments of the working directory below `/`.
- The watermark file is read and decoded once, by its own `loadImage(config.watermark)` call. Its decoded size is a separate input (`wmLoad` of `Watermark.Run`, `wm` of both `ProcessFile`s): `None` when that load fails. It is independent of `Env.load`.

The directory walk of each root is an input sequence of paths, or `None` when the walk fails. The `htmlEncode` function is a parameter.

The code differs from what one might expect in four places, and the model follows the code.
- **No fail-fast on the watermark.** A watermark that fails to load does not stop the `app/` version: the error is logged and every file is still tried. Each file then fails: at its own load when its source does not load, and otherwise when the undefined watermark size is used (`Watermark.NoFailFastOnWatermark`).
- **A duplicate request in the `app/` viewer.** Its scroll handler is not gated on the recipe having arrived: the state starts as `idle`. A scroll near the bottom before the recipe reply requests page 0. If the recipe reply then arrives while that page-0 reply is still outstanding, it requests page 0 again. Two requests for the same URL are then in flight (`AppGallery.ScrollBeforeRecipe`, which shows exactly this order). Their two non-empty replies together advance `current` by two pages (`Paging.ScrollThenLoad`). The single-request property holds only when the recipe arrives first (`Paging.LoadFirstSingleFlight`).
- **An unwritable destination ends the run.** `saveImage` attaches its error handler to the encoder stream only. An error of the file stream (no permission, a directory in the way, a full disk) is thrown uncaught and ends the process, in both versions. So such a file is not a caught per-file failure: the chain stops there (`Crashed` in `ImageFiles.Outcome`; `Watermark.OneOutcomePerAcceptedFile`).
- **An undefined parameter.** In `setURLArgs`, a `:name` segment with no parameter of that name becomes `undefined`, which `join` writes as the empty string. Only an explicit `null` keeps the segment.

## Model

| member | source | states |
|---|---|---|
| Geometry.Round | app/bin/watermark.js:66-69 | `Math.round`: the result is within one half of its argument, the half rounding up |
| Geometry.ParsePercent | app/bin/watermark.js:94-96 | `parsePercent`: a percentage as a fraction, `p / 100`; the parse itself is left out |
| Geometry.Scale | app/bin/watermark.js:65 | the uniform scale `min(maxw / wmW, maxh / wmH)`; `ScaleFits` states what it promises |
| Geometry.FitSize | app/bin/watermark.js:62-67 | the rounded watermark size `ow`, `oh` for a footprint; `FitWithinFootprint` and `AspectPreserved` state its properties |
| Geometry.Offset | app/bin/watermark.js:68-69 | `ox`/`oy`: the free room times the position fraction, rounded; `OffsetWithin` and `Alignment` state its properties |
| Geometry.Position | app/bin/watermark.js:68-69 | the rectangle for a given drawn size: each offset is the free room along that axis times its position fraction, rounded; `PositionInside` states that it lies within the image |
| Geometry.Place | app/bin/watermark.js:56-69 | the rectangle `(ox, oy, ow, oh)` from fractions; `PlacementInside` and `PlaceAligned` state its properties |
| Geometry.PlaceByPercent | elvis/app/bin/watermark.js:59-71 | the same rectangle from the user's percentages, each divided by 100; `WorkedExample` evaluates it |
| Geometry.RoundMonotone | app/bin/watermark.js:66-69 | rounding never reverses an order |
| Geometry.RoundBetween | app/bin/watermark.js:68-69 | a value between two integers rounds to a value between them |
| Geometry.ScaleFits | app/bin/watermark.js:65 | the `min` scale keeps the scaled watermark within both limits and makes it touch at least one exactly |
| Geometry.FitWithinFootprint | app/bin/watermark.js:62-67 | `ow <= round(maxw)` and `oh <= round(maxh)`, with equality on at least one side |
| Geometry.SizeWithinFootprint | app/bin/watermark.js:56-67 | the same for the placement computed from the image and the width/height fractions |
| Geometry.FitWithinImage | app/bin/watermark.js:62-67 | a footprint no larger than the image gives a drawn size no larger than the image |
| Geometry.OffsetWithin | app/bin/watermark.js:68-69 | a position in [0,1] gives an offset between 0 and the free room |
| Geometry.FractionOf | app/bin/watermark.js:62-63 | a fraction in [0,1] of a side is between 0 and that side |
| Geometry.AxisInside | app/bin/watermark.js:68-69 | along one axis, offset plus drawn extent stays inside the image |
| Geometry.PositionInside | app/bin/watermark.js:68-69 | any drawn size that fits, positioned by fractions in [0,1], lies inside the image |
| Geometry.PlacementInside | app/bin/watermark.js:56-69 | with width, height, hpos and vpos as fractions in [0,1] (percent / 100), `0 <= ox`, `ox+ow <= width`, and the same for y |
| Geometry.Alignment | app/bin/watermark.js:68-69 | position 0 gives offset 0, position 1 gives the whole free room, position 1/2 centres to within half a pixel |
| Geometry.PlaceAligned | app/bin/watermark.js:56-69 | hpos/vpos 0 put the watermark at the left/top edge, and 100 % at the right/bottom edge |
| Geometry.AspectPreserved | app/bin/watermark.js:65-67 | the rounded size keeps the watermark's aspect ratio up to the rounding error: the cross products differ by at most (w+h)/2 |
| Geometry.AspectOfRounded | app/bin/watermark.js:66-67 | the same bound for any two sides rounded from one common scale |
| Geometry.WorkedExample | elvis/app/bin/watermark.js:59-71 | a 1000x500 image with a 200x100 watermark at 50/50/100/100 gives ow=500, oh=250, ox=500, oy=250 |
| Paths.ToLower | app/bin/watermark.js:46 | `toLowerCase` on ASCII letters; `ToLowerChars` and `ToLowerIdempotent` state what it does |
| Paths.ToLowerChars | app/bin/watermark.js:46 | lower-casing keeps the length and turns each character into its lower-case form in place |
| Paths.ToLowerIdempotent | app/bin/watermark.js:46 | lower-casing an already lower-cased name changes nothing |
| Paths.Dirname | app/bin/watermark.js:77 | `path.dirname`: the path without its last segment; the root is its own directory, and an absolute path stays absolute |
| Paths.LastDot | app/bin/watermark.js:46 | the index found is -1 or inside the name |
| Paths.LastDotIsLast | app/bin/watermark.js:46 | that index holds a `.` and no later character is a `.` |
| Paths.ExtnameShape | app/bin/watermark.js:46 | `extname` is empty or a `.` followed by dot-free characters, and it is a proper suffix of the name |
| Paths.Extname | app/bin/watermark.js:46 | `path.extname`: from the last `.` of the name, but not for a leading `.` or the name `..`; `ExtnameShape` states its shape |
| Paths.Normalize | app/bin/watermark.js:48 | `path.normalize`: empty and `.` segments vanish, `..` cancels a segment or vanishes at the root, and an absolute path stays absolute; `NormalizeClean` and `NormalizeAppend` state its properties |
| Paths.Join | app/bin/watermark.js:48 | `path.join`: concatenate, then normalise |
| Paths.Resolve | app/bin/watermark.js:48 | `path.resolve` in the working directory: the result is always absolute |
| Paths.Relative | app/bin/watermark.js:48 | `path.relative`: resolve both paths, climb out of what `from` does not share with `to`, then descend into the rest of `to`; `RelativeBelow` states what it promises |
| Paths.NormalizeAppend | app/bin/watermark.js:48 | clean segments appended to any path survive normalisation unchanged |
| Paths.ResolveAppend | app/bin/watermark.js:48 | resolving `p + rest` is resolving `p` and appending the clean `rest` |
| Paths.TrailingSlash | app/bin/watermark.js:48 | a trailing `/` on a path does not change what it resolves to |
| Paths.CommonPrefix | app/bin/watermark.js:48 | the prefix is shared by both paths and cannot be extended |
| Paths.NormalizeClean | app/bin/watermark.js:48 | `normalize` leaves a path without empty, `.` or `..` segments unchanged |
| Paths.RelativeBelow | app/bin/watermark.js:48 | `relative(root, root/rest)` is `rest` for clean `rest`, however `root` is spelled and in any working directory |
| ImageFiles.IsImageFile | app/bin/watermark.js:46-47 | `okExtension.indexOf(ext) >= 0` for the lower-cased extension; `IsImageFileIff` states what it accepts |
| ImageFiles.Accepted | app/bin/watermark.js:45-47 | the walked files that pass the extension test, in walk order; `AcceptedMembers` and `AcceptedOfImages` state its properties |
| ImageFiles.OutputPath | app/bin/watermark.js:48 | `path.join(output, path.relative(root, file))`; `MirrorsTree` states where it leads |
| ImageFiles.GetStream | app/bin/watermark.js:98-108 | PNG for a `.png` name in any case, otherwise JPEG at quality 90, both with a 256 KiB buffer; `FormatFollowsSource` ties it to the source file |
| ImageFiles.IsImageFileIff | app/bin/watermark.js:46-47 | a file is kept exactly when its name has a last `.`, not at its start, followed by `.jpeg`, `.jpg` or `.png` in any case |
| ImageFiles.FilterExamples | elvis/app/bin/watermark.js:48-49 | `photo.PNG` is kept and `photo.gif` is skipped |
| ImageFiles.AcceptedMembers | app/bin/watermark.js:45-47 | the filtered walk holds exactly the walked files that pass the extension test |
| ImageFiles.AcceptedOfImages | app/bin/watermark.js:45-47 | a walk made only of images is kept whole, in order |
| ImageFiles.MirrorsTree | app/bin/watermark.js:48 | the destination of `root/rest` is the normalised `output` followed by `rest`, at any depth, however `root` and `output` are spelled |
| ImageFiles.MirrorExample | elvis/app/bin/watermark.js:50 | `root/sub/a.jpg` goes to `watermarked/sub/a.jpg` |
| ImageFiles.SpellingExample | app/bin/watermark.js:48 | with the root typed as `photos/` and the output `/srv/out`, `photos/a.jpg` goes to `/srv/out/a.jpg` |
| ImageFiles.FormatFollowsSource | app/bin/watermark.js:98-108 | the output is PNG exactly for a `.png` extension in any case, and otherwise JPEG at quality 90; the buffer is 256 KiB |
| Watermark.BuildConfig | app/bin/watermark.js:27-37 | configuration fails exactly when no watermark was given, and then only with the missing-watermark error |
| Watermark.Defaults | app/bin/watermark.js:27-34 | each key the user leaves out takes its default, whatever else is given: width 100, height 100, hpos 50, vpos 50, alpha 100 and output `watermarked` |
| Watermark.Pick | app/bin/watermark.js:27-34 | `Object.assign` for one key: a supplied option wins over its default |
| Watermark.OptionsOverride | app/bin/watermark.js:27-34 | every option the user supplies replaces its default |
| Watermark.ProcessFile | app/bin/watermark.js:50-87 | a file is written exactly when its source loads, the watermark loaded, the directory is made, the destination can be written and the encoder succeeds; the process crashes exactly when the first three hold and the destination cannot be written; the outcome names its own task |
| Watermark.RootOutcomes | app/bin/watermark.js:44-88 | the outcomes of the chain for one root, in walk order, up to a crash; `OneOutcomePerAcceptedFile` states its shape |
| Watermark.WrittenImage | app/bin/watermark.js:56-74 | a written image has the source's size, the placement of the configured percentages, opacity alpha/100 and the encoder for its destination |
| Watermark.OneOutcomePerAcceptedFile | app/bin/watermark.js:44-50 | the chain gives at most one outcome per accepted file, in walk order, each the same as processing that file alone; only the last can be a crash, and the log is cut short only by one |
| Watermark.EveryFileWithoutCrash | app/bin/watermark.js:44-50 | when no accepted file's destination is unwritable, every accepted file gets an outcome |
| Watermark.HaltedStays | app/bin/watermark.js:110-118 | once the log ends in a crash, the later files add nothing |
| Watermark.ProcessRoot | app/bin/watermark.js:44-88 | the loop with `continue`, stopping at a crash, builds exactly that log: one outcome per accepted file in order, each that file's own, cut short only by a crash |
| Watermark.PartialFailure | app/bin/watermark.js:84-86 | a caught failure in the middle file is logged and does not stop the files after it |
| Watermark.Run | app/bin/watermark.js:36-92 | a missing watermark option aborts the run; otherwise every root gets the log of its own walk, and a failed walk gives nothing |
| Watermark.WalkOutcomes | app/bin/watermark.js:42-43 | a failed walk of a root gives no outcomes, and a walk that succeeds gives that root's chain |
| Watermark.NoFailFastOnWatermark | app/bin/watermark.js:39-41 | after a failed watermark load, every accepted file still gets an outcome, a failure naming the load or the watermark |
| ElvisWatermark.BuildConfig | elvis/app/bin/watermark.js:26-37 | configuration fails exactly when no watermark was given |
| ElvisWatermark.Defaults | elvis/app/bin/watermark.js:26-32 | width 100, height 100, hpos 50, vpos 50 and output `watermarked` by default, with no alpha key; supplied options win |
| ElvisWatermark.ProcessFile | elvis/app/bin/watermark.js:52-83 | a file is written exactly when the source loads, the directory is made, the watermark loaded, the destination can be written and the encoder succeeds; the process crashes exactly when the first three hold and the destination cannot be written; a written image is at full opacity |
| ElvisWatermark.RootTasks | elvis/app/bin/watermark.js:47-52 | the tasks the loop starts for one root, in walk order; `OneTaskPerAcceptedFile` states its shape |
| ElvisWatermark.OneTaskPerAcceptedFile | elvis/app/bin/watermark.js:47-50 | one task per accepted file, in walk order, with its mirrored destination |
| ElvisWatermark.ScheduleRoot | elvis/app/bin/watermark.js:45-86 | the loop with `continue` schedules exactly those tasks |
| ElvisWatermark.VersionsAgree | elvis/app/bin/watermark.js:52-83 | with the same options and default opacity the two versions give the same outcome for every file, except that a missing watermark with a failing `mkdirp` is reported differently |
| JsString.Truthy | elvis/app/public/js/elvis.js:126-135 | JavaScript truthiness: `undefined`, `null`, `false`, 0 and the empty string are falsy |
| JsString.ToStr | elvis/app/public/js/elvis.js:127 | `String(v)` for the values the model has |
| JsString.JoinStr | elvis/app/public/js/util.js:21 | how `join` writes one element: `undefined` and `null` as the empty string, anything else as `String(v)` |
| JsString.Get | elvis/app/public/js/util.js:17 | `obj[key]`: the stored value, or `undefined` for a missing property |
| JsString.Join | elvis/app/public/js/util.js:21 | `join`: the pieces with the separator between them; `JoinSplit` and `SplitJoin` state its partnership with `Split` |
| JsString.Split | elvis/app/public/js/util.js:13 | `split` never gives an empty array |
| JsString.JoinSplit | elvis/app/public/js/util.js:13-21 | joining the split pieces again gives back the string |
| JsString.SplitFree | elvis/app/public/js/util.js:13 | no piece of a split contains the separator |
| JsString.SplitJoin | elvis/app/public/js/util.js:21 | splitting the join of separator-free pieces gives back the pieces |
| JsString.NatToString | app/public/js/elvis.js:46 | a number written into a URL is a non-empty string of decimal digits |
| JsString.NatToStringValue | app/public/js/elvis.js:46 | the digits spell the number back, and there is no leading zero except for 0 itself |
| JsString.IntToString | elvis/app/public/js/util.js:21 | `String(n)` for an integer: a `-` before a negative number's digits |
| JsString.NoSlashInNumber | app/public/js/elvis.js:46 | a decimal numeral never contains `/` |
| JsString.ReplaceFirst | elvis/app/public/js/elvis.js:136 | `replace` with a one-character pattern; `ReplaceFirstChanges` states what it changes |
| JsString.ReplaceFirstChanges | elvis/app/public/js/elvis.js:136 | `replace('_', ' ')` changes exactly the first `_` and keeps every other character |
| JsString.BelowTotal | elvis/app/public/js/elvis.js:131 | any two strings are ordered one way or the other |
| JsString.BelowTransitive | elvis/app/public/js/elvis.js:131 | the string order is transitive |
| JsString.Below | elvis/app/public/js/elvis.js:131 | the default `sort` order: lexicographic by character code, a prefix first; `BelowTotal` and `BelowTransitive` state that it is a total order |
| JsString.Sort | elvis/app/public/js/elvis.js:131 | `sort` is a permutation of its input |
| JsString.SortSorted | elvis/app/public/js/elvis.js:131 | `sort` gives ascending order |
| JsString.SortMembers | elvis/app/public/js/elvis.js:131 | sorting keeps exactly the same keys |
| UrlArgs.Subst | elvis/app/public/js/util.js:15-18 | the new value of one slot; `SubstPlaceholder` and `SegmentsOfResult` state it case by case |
| UrlArgs.SubstitutePath | elvis/app/public/js/util.js:13-21 | split the path, substitute every slot, join again; `SameSegmentCount` and `NoPlaceholders` state its properties |
| UrlArgs.SubstituteSlots | elvis/app/public/js/util.js:14-20 | the loop overwrites each `:name` slot with its parameter unless that is `null`, and leaves the others |
| UrlArgs.SetURLArgs | elvis/app/public/js/util.js:11-23 | the method computes the split, substitute and join of the path |
| UrlArgs.SubstPlaceholder | elvis/app/public/js/elvis.js:55-57 | a `:name` segment takes its parameter's value when that is not `null` |
| UrlArgs.SegmentsOfResult | elvis/app/public/js/util.js:13-19 | segments not starting with `:` are unchanged; `:name` with a `null` parameter stays; with no parameter it becomes empty; with a string it becomes that string, with a number its decimal numeral, and with any other defined value its `String(v)` |
| UrlArgs.SameSegmentCount | elvis/app/public/js/util.js:13-21 | when no parameter named by a placeholder of the path contains `/`, the result has the same number of segments as the input, and they are the substituted ones |
| UrlArgs.NoPlaceholders | elvis/app/public/js/util.js:13-21 | a path without `:` segments is returned unchanged |
| Markup.RawDiv | elvis/app/public/js/util.js:29-31 | the `div` with its class around the unescaped text; `RawDivInjective` states that nothing is lost |
| Markup.TextDiv | elvis/app/public/js/util.js:33-35 | `rawDiv` of the encoded text, so `RawDivInjective` applies to it as well |
| Markup.RawDivInjective | elvis/app/public/js/elvis.js:112-114 | a class without `"` and the text can both be read back from a `rawDiv` |
| Layout.TraverseUntil | elvis/app/public/js/elvis.js:64-77 | the walk stops at the first element, in its direction, whose neighbour passes the test, or at the end; the test failed at every step before it |
| Layout.SearchRight | elvis/app/public/js/elvis.js:88-95 | the result is at or after the start; offsets strictly increase up to it; it is last or followed by an offset no greater |
| Layout.SearchLeft | elvis/app/public/js/elvis.js:79-86 | the result is at or before the start; offsets strictly increase from it to the start; it is first or preceded by an offset no smaller |
| Layout.RowEndUnique | elvis/app/public/js/elvis.js:88-95 | only one index meets `searchRight`'s promise |
| Layout.RowStartUnique | elvis/app/public/js/elvis.js:79-86 | only one index meets `searchLeft`'s promise |
| Layout.RowIncreasing | elvis/app/public/js/elvis.js:79-95 | offsets increase strictly along the whole row from its start to its end |
| Paging.Step | elvis/app/public/js/elvis.js:213-238 | one event of the state machine; `RequestEffect` and `ReplyEffect` state it case by case |
| Paging.Run | elvis/app/public/js/elvis.js:213-240 | a sequence of events, or `None` when a reply comes with nothing in flight |
| Paging.RequestEffect | elvis/app/public/js/elvis.js:213-238 | a load, or a scroll near the bottom while idle, sets `loading` with one more request; any other scroll changes nothing |
| Paging.ReplyEffect | elvis/app/public/js/elvis.js:220-229 | a non-empty page adds exactly `page` to `current` and returns to idle; an empty page goes to done and keeps `current` |
| Paging.DoneAbsorbs | elvis/app/public/js/elvis.js:232-238 | once done, with nothing in flight, any number of scrolls change nothing and request nothing |
| Paging.StepKeepsSingleFlight | elvis/app/public/js/elvis.js:232-238 | scrolls and replies keep at most one request in flight, and a scroll requests only when none is |
| Paging.RunKeepsSingleFlight | elvis/app/public/js/elvis.js:213-238 | the single-request invariant holds along every run of scrolls and replies |
| Paging.LoadFirstSingleFlight | elvis/app/public/js/elvis.js:213-240 | after the start-up load, at most one page request is ever in flight |
| Paging.ScrollThenLoad | app/public/js/elvis.js:58-69 | a scroll before the first load, then the load, puts two requests in flight; their replies advance `current` by two pages |
| AppGallery.BoxFit | app/public/js/elvis.js:22-26 | `boxFit`: both sides scaled by the smaller ratio, then floored; `BoxFitWithin` states what it promises |
| AppGallery.ImageURL | app/public/js/elvis.js:28-31 | `imageURL`; `ImageURLSegments` states its shape |
| AppGallery.PageURL | app/public/js/elvis.js:46 | the page request URL; `PageURLSegments` states its shape |
| AppGallery.BoxScale | app/public/js/elvis.js:23 | the `min` scale makes one side exactly its limit and keeps the other within its own |
| AppGallery.BoxFitWithin | app/public/js/elvis.js:22-26 | for a positive image and a non-negative box, `boxFit` gives non-negative integers with `w <= maxw`, `h <= maxh`, and `w = floor(maxw)` or `h = floor(maxh)` |
| AppGallery.ImageURLSegments | app/public/js/elvis.js:28-31 | no variant or `full` gives `/asset/<hash>.jpg`; any other variant gives `/asset/var/<variant>/<hash>.jpg` |
| AppGallery.PageURLSegments | app/public/js/elvis.js:46 | the page request is `/data/page/<page>/<current>` |
| AppGallery.Gallery.constructor | app/public/js/elvis.js:4-9 | the viewer starts idle at offset 0, with no requests and no images |
| AppGallery.Gallery.LoadNext | app/public/js/elvis.js:44-46 | `loadNext` sets `loading` and requests the page at `current` |
| AppGallery.Gallery.OnRecipe | app/public/js/elvis.js:66-69 | the recipe reply loads a page whatever the state |
| AppGallery.Gallery.OnScroll | app/public/js/elvis.js:58-64 | the scroll handler requests a page exactly when within 300 pixels of the bottom while idle |
| AppGallery.Gallery.AddImages | app/public/js/elvis.js:33-42 | one slice image per entry is appended, in order |
| AppGallery.SliceURLs | app/public/js/elvis.js:33-42 | one slice URL per image, in order, each `imageURL(img, 'slice')` |
| AppGallery.Gallery.OnPage | app/public/js/elvis.js:46-55 | a non-empty page is appended and advances `current` by 50; an empty one ends paging |
| AppGallery.ScrollBeforeRecipe | app/public/js/elvis.js:58-69 | a scroll before the recipe reply leads to two requests for page 0 |
| ElvisGallery.PutAll | elvis/app/public/js/elvis.js:206-210 | `asset_map[info.url] = imgs[i]` for each image in turn; the three lemmas below state what the map then holds |
| ElvisGallery.PutAllKeys | elvis/app/public/js/elvis.js:204-211 | after `addImages`, `asset_map` holds the old keys and every slice URL |
| ElvisGallery.PutAllLastWins | elvis/app/public/js/elvis.js:206-210 | each slice URL maps to the last image that has it |
| ElvisGallery.PutAllKeepsOthers | elvis/app/public/js/elvis.js:204-211 | entries for URLs no image has are unchanged |
| ElvisGallery.EmittedMembers | elvis/app/public/js/elvis.js:132-135 | a table gets a row exactly when it is listed and the asset's `<table>_id` is truthy |
| ElvisGallery.EmittedSorted | elvis/app/public/js/elvis.js:131-139 | the rows keep the order of the key list |
| ElvisGallery.Refers | elvis/app/public/js/elvis.js:134-135 | a table is listed for an asset when the asset's `<table>_id` is truthy |
| ElvisGallery.Dt | elvis/app/public/js/elvis.js:136 | the `dt` row: the table name with its first `_` as a space, encoded |
| ElvisGallery.Dd | elvis/app/public/js/elvis.js:137 | the `dd` row: the entry of the table for the asset's id, encoded |
| ElvisGallery.Rows | elvis/app/public/js/elvis.js:131-139 | the rows the loop builds over a list of table names; `RowsArePairs` states their shape |
| ElvisGallery.InfoHtml | elvis/app/public/js/elvis.js:120-148 | the markup `makeInfo` returns for an asset; `InfoRows` states which rows it has |
| ElvisGallery.RowsArePairs | elvis/app/public/js/elvis.js:131-139 | the rows are exactly one `dt`/`dd` pair per emitted table |
| ElvisGallery.InfoRows | elvis/app/public/js/elvis.js:131-139 | `makeInfo` emits its pairs in ascending key order, for exactly the tables the asset refers to |
| ElvisGallery.RefRows | elvis/app/public/js/elvis.js:131-139 | the `+=` loop builds exactly those rows |
| ElvisGallery.Head | elvis/app/public/js/elvis.js:126-128 | the headline, the annotation and the origin date, in that order, each only when present |
| ElvisGallery.Headline | elvis/app/public/js/elvis.js:126 | an encoded `headline` div when the headline is truthy, otherwise nothing |
| ElvisGallery.Annotation | elvis/app/public/js/elvis.js:127 | a raw `annotation` div when the annotation is truthy, otherwise nothing |
| ElvisGallery.OriginDate | elvis/app/public/js/elvis.js:128 | an encoded `origin-date` div when the date is truthy, otherwise nothing |
| ElvisGallery.Frame | elvis/app/public/js/elvis.js:143-147 | the preview link from the info image to the full image, with the info image's width and height, then the detail body |
| ElvisGallery.Gallery.constructor | elvis/app/public/js/elvis.js:43-48 | the viewer starts idle at offset 0 with an empty `asset_map` and `ref` |
| ElvisGallery.Gallery.LoadNext | elvis/app/public/js/elvis.js:213-219 | `loadNext` sets `loading` and requests the template with `size` and `start` substituted |
| ElvisGallery.Gallery.OnScroll | elvis/app/public/js/elvis.js:232-238 | the scroll handler requests a page exactly when within 1000 pixels of the bottom while idle |
| ElvisGallery.Gallery.AddImages | elvis/app/public/js/elvis.js:204-211 | each image's slice is appended and recorded in `asset_map` under its URL |
| ElvisGallery.Slices | elvis/app/public/js/elvis.js:204-211 | the slice variant of each asset, one per asset, in order |
| ElvisGallery.Gallery.OnPage | elvis/app/public/js/elvis.js:220-229 | a non-empty page is added and advances `current` by 100; an empty one ends paging |
| ElvisGallery.Gallery.OnRefData | elvis/app/public/js/elvis.js:245-247 | a reference table reply sets `ref[name]`, and the table list still names each table once |
| ElvisGallery.Gallery.MakeInfo | elvis/app/public/js/elvis.js:120-148 | the detail markup: the preview link, then headline, annotation and origin date when present, then the reference rows, in ascending name order, for exactly the loaded tables the asset refers to |
| ElvisGallery.TemplateRequest | elvis/app/public/js/elvis.js:215-218 | for the template `/data/page/:size/:start`, the request is `/data/page/100/<current>` |
| ElvisGallery.PageParms | elvis/app/public/js/elvis.js:215-218 | the template arguments of a page request: `size` is the page size 100 and `start` the current offset |

## Left out

- Pixels: `drawImage`, `Canvas.Image` decoding and the PNG/JPEG encoders belong to a library that is not part of this model. A written file is a record of its source size, the watermark, the options, the opacity and the encoder.
- `globalAlpha` clamping: the canvas ignores opacities outside [0,1]. The model records the configured opacity as given.
- File system: the `node-dir` walk, `fs.readFile`, `mkdirp` and the write streams are I/O. They are the `Env` functions and the walk inputs. The watermark file's read and decode is the separate watermark-size input, `None` when that load fails, independent of `Env.load`.
- Trailing `/`: `path.normalize` keeps a trailing `/` and the model does not. The tool never relies on it, because `path.relative` does not produce one.
- Promise mechanics: RSVP, `promisify`, `sleep` and the concurrent fan-out of the `elvis/` version are left out. Only the order of the `app/` version's chain is modelled.
- Timing of the `elvis/` version's failures: `RSVP.all` rejects with whichever of the load and `mkdirp` fails first. The model reports the load failure. It also reports encoder failures as outcomes, although that version only logs them in a separate handler.
- `parseFloat` and IEEE-754: percentages are already-parsed reals, so NaN and infinities are not modelled.
- AppGallery.BoxFit: the model requires a positive image size. The source divides by both sides: `boxFit(0, ih, maxw, maxh)` gives `[0, floor(maxh)]` for a positive `maxw`, and a 0 x 0 image, or a zero side against a zero box side, gives NaN.
- Geometry.Scale: the watermark's sides are positive (`Pos`). In the source a zero side makes its ratio infinite, so the other side decides the scale, and a 0 x 0 watermark gives NaN sizes.
- Watermark.Run: each root's log is computed on its own. A crash in one root ends the process, and so it also ends the other roots' chains, at a point that depends on timing; the model does not capture this.
- ElvisWatermark.ScheduleRoot: an unwritable destination ends the process while other tasks are still in flight. Which of them had finished depends on timing and is not modelled.
- Watermark.ProcessFile: when both the write and the encoder fail, which error is raised first depends on timing. The model reports the crash. The next link of the chain can start before a crash is thrown; the model stops the log at the crash.
- `String(n)` for numbers: only integers are formatted, without exponent notation. JSON numbers are modelled as integers.
- Lower-casing covers ASCII letters only. `sort` compares by character code, which equals the UTF-16 code-unit order only for characters in the Basic Multilingual Plane.
- `URLParser` is not part of this model. Only the path part of `setURLArgs` is modelled; the host, query and fragment of the URL are not.
- The DOM, jQuery and AJAX are left out: `getJson`, `.offset()`, `imageClick`, `scrollTo`, `removeHash`, window scroll geometry and the implementation of `htmlEncode`.
- The fetch of the reference table index (`/data/ref/index`) is left out. Only the reply that stores one table is modelled (`OnRefData`).
- The `Object.keys` polyfill depends on host enumeration order and an engine bug. `refKeys` stands for what `Object.keys(ref)` returns: each table once, in insertion order.
- `elvis/app/public/js/debug.js` is a network poll on a timer. It is not part of this model.
- Command-line parsing and help (`node-getopt`) are left out. The model starts from the parsed options.
- ElvisGallery.Dd: a table name missing from `ref` reads as `undefined`. This case cannot arise, because the names come from `ref` itself; the source would throw there.
