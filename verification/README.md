# image_filter — a verified model of the command translator and the filter chain

`image_filter` is a command-line tool. It reads an input image (`-i`) and a
list of filter specifications (`-f name:arg:arg`). It applies the filters
in order and saves the result under `results/` with a derived output name
(`-o`). This project models the logic of `filter_image.py` that can be
stated without pixels:

- **`InputParser`** (`translator.dfy`, module `Translator`) turns the raw
  tokens into one of three things: a descriptor (input, filters, output
  name), the help outcome, or the error of the first check that fails.
  The steps are:
  - rewrite long aliases to the short flags;
  - short-circuit on `-h`;
  - reject a repeated `-i` or `-o`;
  - reject unknown dash-tokens;
  - choose the input candidate;
  - collect the `-f` values;
  - derive the output name from the `-o` value.
- **`ImageWorker.run`** (`executor.dfy`, module `Executor`) is a fold over
  the specifications.
  - An unresolved input is refused before any filter runs.
  - Each spec is split on `:` and dispatched through a closed registry
    (`Lookup`, `MinArgs`, `MaxArgs`).
  - An unknown name or a wrong argument count is skipped with a
    diagnostic. A filter's own parameter error aborts the run.
- **The filters' parameter rules** (`parameters.dfy`, module `Parameters`):
  - `flip` direction names, plus a grid model in which the flip reverses
    rows or columns;
  - the `black_and_white` threshold clamp and the binary point map;
  - the `resize` target size;
  - the `rotate` expand flag and center;
  - the `sepia` ratio;
  - the `overlay` coordinates and edge clamp;
  - `has_transparency`.
- **Python string built-ins** the code relies on (`text.dfy`, module
  `Text`): `split`, `join`, `strip`, `lower`, `int()`, `str()` and
  `list.index`.
- **The exceptions** (`errors.dfy`, module `Errors`) are one `Error`
  datatype inside a `Result`.

The image is a type parameter `I`. The fields of a `Library<I>` record stand
for everything the imaging library, the file system and Python's `float()`
do to or with an image. `open(path)` answers three cases: the path is not
an existing regular file, the file cannot be decoded, or the decoded image.
The clock value in the default output name is the parameter `now`. The help
request, which prints and exits in the program, is the outcome value `Help`.

Where the program's documented behaviour and its code differ, the model
follows the code:

- Unknown flags are checked only after the help check and the duplicate
  checks.
- `resize` without a height truncates `nw*h/w` toward zero (`int()`). It
  does not round.
- Output formats are lower-cased only in the `name:FMT` form. So
  `photo:PNG` gives `photo.png`, but `photo.PNG` is rejected.
- Overlay coordinates and the rotate center parse every comma piece and
  then keep the first two, so `1,2,x` is rejected.
- The default overlay position (0, 0) is not edge-clamped.
- In the `name:FMT` form, a name without `.` is kept as it is, without
  stripping.
- An empty argument counts as absent for `resize`'s height, `sepia`'s ratio,
  `rotate`'s center and `overlay`'s coordinates. For `black_and_white` an
  empty threshold is a `ValueError`.

## Model

| member | source | states |
|---|---|---|
| Text.IndexOf | filter_image.py:85 | `list.index`: the position holds the element and no earlier position does |
| Text.Split | filter_image.py:118 | `split` gives at least one piece, two or more exactly when the separator occurs, and pieces free of the separator |
| Text.JoinSplit | filter_image.py:118 | joining the pieces of a split with the separator gives the string back |
| Text.SplitJoin | filter_image.py:123 | splitting a join of separator-free pieces gives the pieces back |
| Text.Join | filter_image.py:136 | `sep.join(parts)`: the pieces with one separator between neighbours; it is tied down by its partners `JoinSplit` and `SplitJoin` |
| Text.Trim | filter_image.py:128 | removing the leading and trailing characters of a whitespace set gives a result no longer than the input, not starting or ending with such a character |
| Text.Strip | filter_image.py:128 | `strip` gives a result no longer than the input, not starting or ending with whitespace |
| Text.TrimSlice | filter_image.py:128 | trimming removes only characters of the whitespace set, and only at the two ends |
| Text.TrimPadded | filter_image.py:128 | trimming padding made of the whitespace set gives back the padded text |
| Text.TrimAvoids | filter_image.py:128 | a character absent from a string is absent from its trimmed form |
| Text.TrimUnspaced | filter_image.py:128 | a string that neither starts nor ends with a character of the whitespace set is its own trimmed form |
| Text.SkipSpaces | filter_image.py:128 | the first position at or after a start that holds no character of the whitespace set, with only such characters before it |
| Text.BackSpaces | filter_image.py:128 | the end of the text before a trailing run of characters of the whitespace set |
| Text.Lower | filter_image.py:120 | `lower` keeps the length, maps each ASCII capital to its small letter, keeps every other character, and leaves no capital |
| Text.NatToString | filter_image.py:151 | `str(n)` is a non-empty digit string with no leading zero |
| Text.NatToStringValue | filter_image.py:151 | the decimal value of `str(n)` is `n` |
| Text.ParseInt | filter_image.py:231 | `int()` of a string: surrounding whitespace stripped (the `strip` set without the separators U+001C to U+001F, which `int()` rejects), an optional sign, then one or more ASCII digits |
| Text.ParseIntToString | filter_image.py:231 | `int(str(n)) == n` for every integer |
| Text.ParseIntIgnoresSpaces | filter_image.py:244 | `int()` ignores surrounding whitespace of its own set |
| Text.ParseIntRejectsSeparator | filter_image.py:231 | a leading separator U+001C to U+001F is removed by `strip` but makes `int()` fail |
| Translator.RewriteEntry | filter_image.py:70-75 | each (flag, alias) pair of the rewriting order maps the alias to its flag |
| Translator.Normalize | filter_image.py:157-162 | alias normalisation keeps the length and every non-alias token, and replaces each long flag by its short flag, so that no alias remains |
| Translator.ReplaceAll | filter_image.py:161-162 | the `while alias in arguments` loop turns every occurrence of the alias into the flag and leaves every other token alone |
| Translator.ReplaceAliases | filter_image.py:157-162 | the nested rewriting loops compute exactly `Normalize` |
| Translator.UnknownCommands | filter_image.py:178 | a token is listed exactly when it is in the arguments, starts with `-` and is not one of the four flags |
| Translator.FirstUnknownCommand | filter_image.py:178-181 | the reported command is the first unknown dash-token |
| Translator.RepeatedIffCount | filter_image.py:171-175 | a `Counter` count above one means the token sits at two different positions, and conversely |
| Translator.InputCandidate | filter_image.py:83-90 | the candidate is the token after the first `-i`, `""` when `-i` is last, or the first token when there is no `-i` |
| Translator.InputImage | filter_image.py:92-99 | a decodable file gives its image; an existing file that cannot be decoded raises InvalidPILImageCreated; a candidate naming no file comes back unchanged as a placeholder |
| Translator.Filters | filter_image.py:101-111 | every collected spec is non-empty and does not start with `-` |
| Translator.FiltersBound | filter_image.py:101-111 | there are never more collected specs than `-f` tokens |
| Translator.FiltersFrom | filter_image.py:103-110 | the collection from a position on is that token's contribution followed by the collection from the next position |
| Translator.FiltersFollowFlags | filter_image.py:103-108 | every collected spec is the token right after some `-f` |
| Translator.FiltersCollectFlags | filter_image.py:103-108 | every filter value right after a `-f` is collected |
| Translator.GetFiltersToApply | filter_image.py:101-111 | the enumerate loop computes exactly `Filters`, in order |
| Translator.ColonStem | filter_image.py:122-130 | the stem derived in the `name:FMT` form contains no `.` |
| Translator.StripAll | filter_image.py:128 | every piece is stripped, one result per piece |
| Translator.JoinStripped | filter_image.py:128 | the stem of a dotted name: the stripped pieces joined by `_` |
| Translator.WithFormat | filter_image.py:141-145 | a format is kept exactly when it is png, jpg or jpeg, and the error names the rejected format |
| Translator.OutputParts | filter_image.py:117-143 | on success the format is accepted and the stem has no `.`; a value with neither `:` nor `.` fails with NoExtension and only such a value does; every failure is InvalidOutputFileExtensionProvided |
| Translator.ColonParts | filter_image.py:117-130 | the `name:FMT` form yields an accepted format and a stem without `.`, or an unaccepted-extension error |
| Translator.PlainParts | filter_image.py:133-136 | the `a.b.ext` form yields an accepted format and a stem without `.`, or an unaccepted-extension error |
| Translator.NameFromValue | filter_image.py:141-146 | the name derived from an `-o` value is its stem, a `.` and its format, or the value's error |
| Translator.OutputImageName | filter_image.py:113-151 | without `-o` the name is `result_<now>.jpg`; OutputFlagEvokedWithoutValue is raised exactly when the first `-o` is the last token; otherwise the name is derived from the token after the first `-o` |
| Translator.NameSplitsInTwo | filter_image.py:145 | a stem without `.` and an accepted format make a name that splits on `.` into exactly those two |
| Translator.DefaultStemHasNoDot | filter_image.py:151 | the default stem `result_<now>` contains no `.` |
| Translator.OutputNameShape | filter_image.py:113-151 | every successful output name is a stem without `.`, a `.`, and an accepted format |
| Translator.GivenNameShape | filter_image.py:114-146 | the same for a name derived from an `-o` value |
| Translator.OutputNameHasOneExtension | filter_image.py:141-151 | every successful output name has exactly one `.`, followed by png, jpg or jpeg |
| Translator.PlainOutputValue | filter_image.py:133-136 | in the plain form `a.b.ext`, the last dot-piece is the format, taken without lower-casing, and the stripped other pieces joined by `_` are the stem |
| Translator.ColonOutputValue | filter_image.py:117-121 | in the `name:FMT` form the format is the lower-cased text up to the next `:`, and anything after a second `:` is ignored |
| Translator.FirstColonPiece | filter_image.py:118-120 | the text before the first `:` of the format part is the format |
| Translator.ColonStemOfDottedName | filter_image.py:122-128 | a dotted name loses its last piece only when that piece is an accepted format |
| Translator.ColonExample | filter_image.py:117-146 | `photo:PNG` names `photo` in png |
| Translator.PlainExample | filter_image.py:133-146 | `photo.jpg` names `photo` in jpg |
| Translator.PlainUpperCaseExample | filter_image.py:133-143 | `photo.PNG` is rejected because the plain form does not lower-case |
| Translator.NoExtensionExample | filter_image.py:137-139 | `photo` names no extension |
| Translator.Translate | filter_image.py:153-169 | InvalidNumberOfArguments exactly for the empty list; help exactly when the list is non-empty and some token is `-h` or `--help` |
| Translator.Resolve | filter_image.py:164-187 | after normalisation, help is returned exactly when `-h` is present, and InvalidNumberOfArguments is never raised |
| Translator.NormalizedSpellings | filter_image.py:157-162 | after normalisation a token is a flag exactly when it spelled that flag in short or long form, and is an unknown command exactly when it was an unknown dash-token |
| Translator.AliasesInterchangeable | filter_image.py:157-164 | token lists that differ only in short versus long flag spellings translate identically |
| Translator.RejectionOrder | filter_image.py:171-181 | without help, a repeated input flag is reported first, then a repeated output flag, then the first unknown dash-token |
| Translator.TranslateSucceeds | filter_image.py:171-187 | a successful operation passed every check; its filters are the collected specs, its input the decoded candidate or the placeholder candidate, and its output the derived name |
| Translator.TranslateAfterChecks | filter_image.py:164-187 | the converse of TranslateSucceeds: a non-empty list without help, repeated key flags or unknown dash-tokens yields the input's error if it has one, else the output name's error, else the operation of input, collected specs and derived name |
| Translator.OperationExample | filter_image.py:153-187 | `img.png -f flip:v -o photo:PNG`, with a decodable `img.png`, is the operation flipping that image and saving `photo.png` |
| Translator.DuplicateInputExample | filter_image.py:171-173 | `-i a.jpg -i b.jpg` is rejected as a repeated input flag |
| Parameters.FlipAxis | filter_image.py:216-222 | flip accepts exactly v, vertical, h and horizontal in any case; v and vertical mean top-bottom; anything else raises InvalidFlipDirection naming the direction |
| Parameters.Reverse | filter_image.py:221-222 | the mirror image of a sequence |
| Parameters.FlipGrid | filter_image.py:221-222 | the top-bottom flip reverses the row order; the left-right flip reverses each row |
| Parameters.FlipGridInvolution | filter_image.py:221-222 | flipping twice along the same axis restores the image |
| Parameters.FlipImage | filter_image.py:216-222 | on the grid model, flip succeeds exactly for the four direction names in any case, reversing the row order for v/vertical and each row for h/horizontal, and otherwise raises InvalidFlipDirection naming the direction |
| Parameters.FlipImageTwice | filter_image.py:216-222 | flipping twice in an accepted direction gives the grid back |
| Parameters.ClampThreshold | filter_image.py:235-238 | the threshold lands in 0..255, is unchanged inside that range, and goes to the nearer bound outside it |
| Parameters.Threshold | filter_image.py:229-238 | the threshold is accepted exactly when `int()` accepts it and is then the parsed number clamped into 0..255; otherwise the filter's ValueError is raised |
| Parameters.BinaryPixel | filter_image.py:239 | the point map gives 0 or 255, and 255 exactly when the luminance reaches the threshold |
| Parameters.BinarizeGrid | filter_image.py:239 | the point map keeps the image's shape |
| Parameters.BinarizeIsBinary | filter_image.py:239 | the black-and-white image holds only 0 and 255, and a pixel is white exactly when its luminance reaches the threshold |
| Parameters.BlackAndWhiteImage | filter_image.py:229-239 | on a luminance grid, black_and_white succeeds exactly when `int()` accepts the threshold, and otherwise raises the filter's ValueError |
| Parameters.BlackAndWhiteIsBinary | filter_image.py:229-239 | a successful result keeps the grid's shape, holds only 0 and 255, is white exactly where the luminance reaches the clamped threshold, and for a threshold of 1 or more maps black to 0 and white to 255 (the extrema of tests.py:27) |
| Parameters.TruncDiv | filter_image.py:250 | `int(a / b)` truncates toward zero |
| Parameters.ScaledHeight | filter_image.py:250 | for a non-negative new width the new height is the largest one whose ratio to the width does not exceed the image's |
| Parameters.ResizeTarget | filter_image.py:242-258 | a width `int()` rejects raises its ValueError; without a height the result is (width, aspect-keeping height) exactly when the image width is non-zero, and ZeroDivision otherwise; with a height the result is the two parsed numbers exactly when `int()` accepts the height, and otherwise the height's ValueError |
| Parameters.ResizeKeepsRatio | filter_image.py:249-250 | without a height, a non-negative parsed width on an image of non-zero width always succeeds, keeps that width, and keeps the aspect ratio up to truncation |
| Parameters.ResizeWidthExample | tests.py:62-66 | `resize:200` on a 400x300 image asks for 200x150 |
| Parameters.ResizeBothExample | tests.py:69-74 | `resize:200:300` asks for 200x300 whatever the image size |
| Parameters.ExpandFlag | filter_image.py:203 | expand is true exactly when its lower-case form is true, 1 or yes |
| Parameters.ExpandFlagIgnoresCase | filter_image.py:203 | spellings that differ only in case give the same flag |
| Parameters.ExpandFlagTrueSpellings | tests.py:100-106 | `True`, `true` and `tRuE` expand |
| Parameters.ExpandFlagOtherSpellings | tests.py:100-106 | `yEs`, `YES` and `1` expand |
| Parameters.ExpandFlagOffSpellings | filter_image.py:198-203 | the default `false`, `False`, `on` and the empty string do not expand |
| Parameters.RotateAngle | filter_image.py:198-202 | an absent angle is 45 and always accepted; a given angle is accepted exactly when `float()` accepts it, and is otherwise the filter's ValueError naming it |
| Parameters.RotateCenter | filter_image.py:205-212 | an absent, empty or comma-free center means the image centre; otherwise every comma piece must be a float, and the first two are the center |
| Parameters.SepiaRatio | filter_image.py:264-269 | an absent or empty ratio means 1.0; otherwise the ratio is accepted exactly when `float()` accepts it |
| Parameters.HasTransparency | filter_image.py:12-13 | RGBA and LA images always carry transparency, only RGBA, LA and P images can, and a P image does exactly when its info has a transparency entry |
| Parameters.EdgeClamp | filter_image.py:304-307 | a position below the half-overhang threshold is kept; one at or past it snaps to `background - foreground`, flush with the edge; the result never exceeds the requested position |
| Parameters.OverlayPosition | filter_image.py:297-313 | no coordinates means (0, 0); coordinates without a comma, or with a non-integer piece, raise InvalidOverlayCoordinates; otherwise the position is the first two parsed pieces, each edge-clamped on its axis |
| Executor.Lookup | filter_image.py:330-339 | the registry finds a filter only under its own name |
| Executor.MinArgs | filter_image.py:198-287 | the least number of string arguments each filter takes: one for resize and overlay, none for the others |
| Executor.MaxArgs | filter_image.py:198-287 | the most string arguments each filter takes: three for rotate, none for gray_scale, two for resize and overlay, one for flip, black_and_white and sepia |
| Executor.LookupName | filter_image.py:330-339 | every filter is found under its own name |
| Executor.Apply | filter_image.py:197-320 | gray_scale always converts; rotate, flip, black_and_white, resize and sepia succeed exactly when their parameter rules accept the arguments, then call the library with the parsed values (flip's axis, the clamped threshold, the resize target, rotate's angle, expand flag and center, the sepia ratio); rotate without arguments always turns by 45 without expanding, about the centre, and otherwise raise the rule's own error; overlay raises FileNotFound for a path naming no file, OverlayImageUnreadable for an undecodable one, ImageWithoutTransparency exactly when the foreground has no transparency, and otherwise composites at the overlay position or raises the position's error |
| Executor.ParseSpec | filter_image.py:327-329 | a spec splits into a colon-free name and its arguments, which join back to the spec |
| Executor.ParseSpecJoin | filter_image.py:327-329 | a colon-free name and colon-free arguments joined by `:` parse back to themselves |
| Executor.ParseBareName | filter_image.py:327-329 | a spec without `:` is a bare name with no arguments |
| Executor.Skipped | filter_image.py:332-339 | a specification is skipped exactly when its name is not a filter or its argument count is outside what the filter takes; `Step` and `SkipNote` give it meaning |
| Executor.Step | filter_image.py:327-339 | an unknown name keeps the image and logs NotImplemented; a known filter with an argument count it does not take keeps the image and logs WrongArgumentCount; an applied filter logs nothing |
| Executor.Fold | filter_image.py:326-339 | the loop of `run`: each specification is applied to the previous one's image, the diagnostics are collected in order, and the first error ends the run with the diagnostics printed before it |
| Executor.Chain | filter_image.py:326-339 | the fold with the executor's own step; `ChainLog`, `AllSkipped` and `SkipLeavesImage` state what it computes |
| Executor.Dispatch | filter_image.py:327-334 | `name:a:b` of a known filter with a suitable argument count calls it with `[a, b]`, and the filter's result or error is the step's |
| Executor.FoldOne | filter_image.py:326-334 | folding one spec is taking that step: its diagnostics and image, or no diagnostics and its error |
| Executor.FoldAppend | filter_image.py:326-339 | folding `a + b` is folding `a` and continuing with `b` from its image, appending the diagnostics; an error in `a` ends the whole fold |
| Executor.FoldAborts | filter_image.py:326-339 | the first failing filter ends the chain with its error, whatever follows, keeping the diagnostics printed before it |
| Executor.SkipLeavesImage | filter_image.py:330-339 | a skipped spec leaves the image unchanged and the rest of the chain runs as if it were absent |
| Executor.AllSkipped | filter_image.py:330-339 | a chain of skipped specs returns the input image with one diagnostic per spec |
| Executor.SkipNote | filter_image.py:333-339 | the diagnostic one specification prints: NotImplemented for an unknown name, WrongArgumentCount for a bad argument count, none for an applied filter |
| Executor.Diagnostics | filter_image.py:327-339 | the diagnostics of a list of specifications, in order |
| Executor.ChainLog | filter_image.py:326-339 | a chain stops at some position k: it prints exactly the diagnostics of the specifications before k, in order and independently of the images; it succeeds exactly when k is the end, and a stop before the end is at a specification that was not skipped |
| Executor.GrayScaleStep | filter_image.py:225-226 | a bare gray_scale converts the image and logs nothing |
| Executor.GrayScaleTwice | filter_image.py:225-226 | with an idempotent grey-scale conversion, two gray_scale steps equal one |
| Executor.ApplyAll | filter_image.py:326-339 | the loop over the specs computes exactly the left-to-right fold, stopping at the first error with the diagnostics printed so far |
| Executor.Run | filter_image.py:322-344 | a placeholder input raises InvalidPILImageCreated before any filter runs; otherwise the diagnostics are the chain's, also when it fails, and the result is the chain's image saved under `results/` plus the output name, or the chain's error |

## Left out

- Pixel work of the imaging library is left out: rotation geometry, LANCZOS resampling, `convert('L')`, `paste`, `alpha_composite` and the sepia colour matrix. These are the abstract `Library` operations. Only flip and the black-and-white point map also get a grid model.
- Floating point is left out. `float()` acceptance is the oracle `isFloat`. The rotate angle, the rotate center and the sepia ratio are passed on as their strings. The sepia clamp to 0..1 is not modelled.
- I/O is left out: `exists`/`isfile`/`Image.open` (the `open` oracle), `show`, `mkdir`, `save`, the printed diagnostics (a log of `Diagnostic` values instead), the help text and `sys.exit` (the `Help` outcome instead).
- `time.time()` is left out: the default output name takes the timestamp as the parameter `now`.
- Text.ParseInt: does not accept every string Python's `int()` accepts. Underscores between digits and non-ASCII Unicode digits are left out. A sign and surrounding whitespace are modelled, including the non-ASCII whitespace that `int()` skips and the separators U+001C to U+001F that it refuses.
- Text.Lower: lower-cases ASCII letters only. Python's `lower()` also maps non-ASCII capitals.
- The `hasattr` dispatch is a closed registry, and every name outside the seven filters is reported as not implemented. In the program, other attribute names of the worker behave differently. `run`, `output` and most dunder names raise a `TypeError` that is caught, so the filter is skipped with the argument-count message; there only the diagnostic differs. `__eq__`, `__ne__`, `__lt__`, `__le__`, `__gt__`, `__ge__` and `__subclasshook__` return `NotImplemented`, which becomes the running image, and `__init__` and `__class__` call `get` on the image; in those cases the program crashes with an `AttributeError`. The model deliberately treats all these names as unknown.
- A `TypeError` raised inside a library call is caught as an arity error in the program. The model assumes library calls never raise.
- Parameters.ResizeTarget: computes the height with exact integer division. The program's float division can differ for values beyond 2^53.
- Non-string arguments are left out, as only `run` calls the filters and it always passes strings. This covers the `isinstance` branch of flip and the direct filter calls with integers or lists made outside the command line.
