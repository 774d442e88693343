# Image-reveal quiz: a verified model of the game logic

The game shows a picture that starts heavily blurred or zoomed in, then reveals it
over a fixed time limit. The player guesses what it shows. A correct guess scores
more the sooner it comes. This project models the logic under the desktop window in
Dafny and proves what that logic guarantees. The window itself is not modelled.

- `strings.dfy` (module `Strings`): the Python string and path behaviour the core
  depends on. This covers `str.lower`, `str.strip`, `str.isdigit`, the `in` substring
  test, `split`/`replace` on one character, `os.path.basename`, `os.path.splitext`,
  `PurePath.suffix` and the string order `sorted` uses.
- `image_processor.dfy` (module `ImageProcessor`): the reveal transforms. Progress
  becomes a Gaussian blur sigma and an odd kernel size, or a zoom ratio and an affine
  matrix that keeps the centre fixed. Hybrid mode is the zoom, then the blur at 1.25×
  the progress. An image is a term that records which filter made it and with which
  parameters, so the contracts are about exactly what is passed to OpenCV.
- `game_engine.dfy` (module `Game`): a round. It covers progress from elapsed time,
  the mode dispatch, the linear score, and lenient answer matching. It also covers
  the answer derived from the file name when the label has none. The class
  `GameEngine` holds the fields that `__init__`, `load_answers_from_label` and
  `set_answers` assign. The constructor assigns the answers, category and hint that
  `LoadAnswersFromLabel` is proved to assign, rather than calling it.
- `labels.dfy` (module `Labels`): the label store. It is a dictionary keyed by the
  file's base name. JSON values are modelled by a small `Value` datatype. The class
  `LabelLoader` has read-only getters and a `SetLabel` method that replaces one entry
  in place.
- `timer_controller.dfy` (module `Timer`): the stopwatch. A class has the three
  fields `start_time`, `is_running` and `stopped_time`. The clock reading is the
  parameter `now`.
- `label_template.dfy` (module `LabelTemplate`): the label-template generator. It
  filters the image names by suffix and sorts them. A loop then merges them into the
  existing store, adding default records and completing incomplete ones, and counts
  new and updated records.
- `wrappers.dfy` (module `Wrappers`): `Option`, for Python's `None`.

Where the code's comments and the code disagree, the model follows the code:

- The filename fallback removes every digit of the second piece, not only trailing
  ones (game_engine.py:75-76).
- The fallback removes digits only when the stem has two or more pieces. A
  one-piece stem keeps its digits, so `bird1.png` gives `bird1`, and `x-bird1.png`
  gives `bird` (game_engine.py:72-81).
- `calculate_score` does not clamp a negative elapsed time. The score is then above
  100 (game_engine.py:179-190).
- An empty or whitespace-only answer is accepted whenever there is a candidate,
  because `""` is a substring of every string (game_engine.py:140, 151-152).

## Model

| member | source | states |
|---|---|---|
| `Strings.Lower` | game_engine.py:78 | `lower()` keeps the length, lower-cases every ASCII capital at its own position and leaves every other character as it is |
| `Strings.Strip` | game_engine.py:140 | `strip()` neither starts nor ends with whitespace, is no longer than its argument, and is empty exactly when the argument is all whitespace |
| `Strings.StripKeepsMiddle` | game_engine.py:140 | what `strip()` keeps is a contiguous piece of its argument, and everything before and after that piece is whitespace |
| `Strings.ContainsIffOccurs` | game_engine.py:151-152 | Python's `in` on strings holds exactly when the needle occurs at some position of the haystack |
| `Strings.Split` | game_engine.py:71 | `split("-")` gives at least one piece and no piece contains the separator |
| `Strings.ReplaceChar` | game_engine.py:71 | `replace("_", "-")` keeps the length, puts `-` exactly where `_` was and leaves every other character; no `_` remains |
| `Strings.SplitJoin` | game_engine.py:71 | splitting on `-` loses nothing: joining the pieces gives the string back |
| `Strings.SplitSeveralIff` | game_engine.py:71-72 | the split gives two or more pieces exactly when the separator occurs |
| `Strings.RemoveDigits` | game_engine.py:76 | the digit filter keeps only non-digits, is empty exactly when every character is a digit, and leaves a digit-free string unchanged |
| `Strings.RemoveDigitsAppend` | game_engine.py:76 | the digit filter of a concatenation is the concatenation of the filtered parts |
| `Strings.RemoveDigitsChar` | game_engine.py:76 | on one character the filter drops a digit and keeps anything else; with `RemoveDigitsAppend` this fixes the filter on every string |
| `Strings.Basename` | label_loader.py:49 | `os.path.basename` gives a tail of the path that contains no `/`, and the whole of a path without `/` |
| `Strings.BasenameAfterSlash` | label_loader.py:49 | the character right before the base name is a `/` unless the base name is the whole path, so the base name is exactly what follows the last `/` |
| `Strings.BasenameExample` | label_loader.py:49-51 | "dir/cat.png" is looked up as "cat.png" |
| `Strings.SplitExtRoot` | game_engine.py:69 | `os.path.splitext(p)[0]` is a prefix of `p` (where it ends: `SplitExtRootLastDot`) |
| `Strings.SplitExtRootLastDot` | game_engine.py:69 | the root stops short of `p` only at a dot of the last path component with no dot after it and some character other than a dot before it in that component; it is the whole of `p` exactly when the last component has no such dot |
| `Strings.PathSuffix` | create_label_template.py:40 | `Path(f).suffix` is the tail of the name from its last dot, non-empty exactly when that dot is neither the first nor the last character; the tail has no other dot |
| `Strings.LexLessTotal` | create_label_template.py:52 | the order `sorted` uses is total on distinct strings |
| `Strings.LowerStrip` | game_engine.py:140 | lower-casing and stripping commute |
| `ImageProcessor.Clamp01` | image_processor.py:25 | `max(0.0, min(1.0, p))` lies in [0, 1], is `p` inside it, 0 below and 1 above |
| `ImageProcessor.BlurSigma` | image_processor.py:25-31 | sigma lies in [0, 30], is exactly 30 for progress ≤ 0 and 0 for progress ≥ 1, and equals 30·(1 − p) inside [0, 1] |
| `ImageProcessor.BlurSigmaAntitone` | image_processor.py:25-31 | more progress never gives a larger sigma |
| `ImageProcessor.BlurSigmaStrictlyDecreasing` | image_processor.py:25-31 | inside [0, 1], sigma strictly decreases as progress grows |
| `ImageProcessor.KernelSize` | image_processor.py:37-39 | the kernel side is odd and at least 1, lies in (6σ, 6σ + 2], and is at most 181 for every sigma up to 30 |
| `ImageProcessor.ApplyBlur` | image_processor.py:17-41 | no image gives no image; a sigma ≤ 0.1 (every progress ≥ 1 among them) gives the input unchanged; otherwise the input is Gaussian-blurred with that sigma and its odd kernel; the size is kept |
| `ImageProcessor.ZoomRatio` | image_processor.py:52-58 | the visible ratio is 0.125 + 0.875·p for progress p in [0, 1], 0.125 below and 1 above, so it always lies in [0.125, 1] |
| `ImageProcessor.ZoomRatioMonotone` | image_processor.py:52-58 | more progress never shows less of the image |
| `ImageProcessor.ZoomScale` | image_processor.py:67 | the scale lies in [1, 8] and is the inverse of the ratio |
| `ImageProcessor.ZoomMatrix` | image_processor.py:61-78 | the matrix is a uniform scaling by `scale` that maps the centre (w/2, h/2) to itself and stretches the central ratio-sized window exactly over the frame; at full progress it is the identity |
| `ImageProcessor.ApplyZoom` | image_processor.py:43-90 | no image gives no image; otherwise the input is warped by the zoom matrix into a frame of its own size |
| `ImageProcessor.HybridBlurProgress` | image_processor.py:98 | the blur's progress is at most 1, is exactly 1 from progress 0.8 on, and is 1.25·p up to 0.8 |
| `ImageProcessor.ApplyHybrid` | image_processor.py:92-99 | zoom first, then blur at the accelerated progress; from progress 0.8 on the result is the zoom alone; for 0 ≤ p < 0.8 the zoomed image is blurred with sigma 30·(1 − 1.25p) unless that is ≤ 0.1; for p < 0 it is blurred with sigma 30; no image gives no image; the size is kept |
| `Game.Progress` | game_engine.py:108-115 | progress lies in [0, 1]; it is 1 when the limit is not positive or has been reached, 0 for non-positive elapsed time, and elapsed/limit in between |
| `Game.ProgressMonotone` | game_engine.py:108-115 | progress never decreases as elapsed time grows |
| `Game.Reveal` | game_engine.py:117-125 | "blur", "zoom" and "hybrid" select their transform; any other mode returns the original unchanged; the result always exists and has the original's size |
| `Game.RevealCompleteAtFullProgress` | game_engine.py:117-125 | at full progress every mode shows the original, either itself or warped by the identity matrix |
| `Game.CalculateScore` | game_engine.py:168-190 | 0 when the limit is reached or not positive; otherwise positive with score·T = 100·(T − elapsed); 100 at elapsed 0; in [0, 100] for non-negative elapsed; above 100 for negative elapsed (not clamped) |
| `Game.ScoreStrictlyDecreasing` | game_engine.py:185-190 | before the limit, a later answer always scores strictly less |
| `Game.NormalizeIdempotent` | game_engine.py:140 | normalising (`lower().strip()`) twice is normalising once |
| `Game.AcceptanceIgnoresCaseAndSpace` | game_engine.py:140-152 | the verdict does not change when the answer is lower-cased or normalised first |
| `Game.AcceptedIffOccurs` | game_engine.py:143-153 | an answer is accepted exactly when, after normalising, it equals some candidate or one of them occurs at some position inside the other |
| `Game.BlankAnswerAccepted` | game_engine.py:140-152 | an empty or all-whitespace answer is accepted whenever there is at least one candidate |
| `Game.CatExampleExact` | game_engine.py:146-148 | with answers ["cat", "kitten"], "kitten" is accepted |
| `Game.CatExampleContained` | game_engine.py:150-153 | with answers ["cat", "kitten"], "my cat" is accepted because it contains "cat" |
| `Game.CatExampleRejected` | game_engine.py:143-155 | with answers ["cat", "kitten"], "dog" is rejected |
| `Game.DisplayAnswer` | game_engine.py:157-166 | the display answer is the first answer as stored, or "" when there are none |
| `Game.StemParts` | game_engine.py:68-71 | the pieces are the split on `-` of the stem of the base name with `_` replaced by `-`; there are two or more exactly when the stem contains `-` or `_`; a single piece is the whole stem |
| `Game.PieceAnswer` | game_engine.py:74-78 | the answer is the piece with its digits removed, lower-cased: lower-case, digit-free, no longer than the piece, and empty exactly when the piece is all digits |
| `Game.FilenameAnswersShape` | game_engine.py:66-81 | `FilenameAnswers` gives at most one answer, always lower-case; with two or more pieces the fallback gives `[PieceAnswer(second piece)]`, or nothing exactly when the second piece is all digits, digit-free and no longer than that piece; with one piece it gives the whole stem lower-cased, digits kept |
| `Game.FallbackSinglePiece` | game_engine.py:79-81 | a file `stem.ext` without `-` or `_` gives exactly the stem lower-cased |
| `Game.FallbackTwoPieces` | game_engine.py:72-78 | a file `first-second.ext` gives the digit-free, lower-cased second piece, or no answer when that is empty |
| `Game.FallbackSecondPiece` | game_engine.py:71-78 | for a file `first` `-`/`_` `second` `-`/`_` `rest` `.ext`, whatever the rest, the answer is the digit-free, lower-cased second piece, or none when that is empty |
| `Game.FilenameExampleSinglePiece` | game_engine.py:79-81 | "bird1.png" gives ["bird1"] |
| `Game.FilenameExampleSecondPiece` | game_engine.py:72-78 | "x-bird1.png" gives ["bird"] |
| `Game.FilenameExampleDigitPiece` | game_engine.py:72-78 | "cat-01.jpg" gives no answer |
| `Game.FilenameExampleUnderscores` | game_engine.py:71-78 | "img_cat_01.png" gives ["cat"] |
| `Game.ResolveAnswers` | game_engine.py:61-66 | the label's answers are used when there are any; the fallback runs only when they are empty |
| `Game.ManualAnswers` | game_engine.py:90-93 | a list argument has each element lower-cased; `None` becomes ["none"]; any other argument, given as its `str()`, becomes a one-element lower-cased list; every result is free of upper case |
| `Game.BirdExample` | game_engine.py:66-81 | an unlabelled "bird1.png" gets the answer "bird1", which accepts "Bird" and is what is displayed |
| `Game.BlurRoundExample` | game_engine.py:109-119 | with limit 30 and elapsed 15, progress is 0.5, the blur uses kernel 91 and sigma 15, and the score is 50 |
| `Game.GameEngine.constructor` | game_engine.py:15-46 | the round keeps its path, mode (by default "blur"), limit (by default 30 seconds), loader and decoded image, and takes its answers, category and hint from the label store, with the filename fallback |
| `Game.GameEngine.LoadAnswersFromLabel` | game_engine.py:59-81 | the answers are the label's, or the filename fallback when those are empty; category and hint are the label's |
| `Game.GameEngine.SetAnswers` | game_engine.py:83-93 | the answers become the lower-cased argument |
| `Game.GameEngine.GetProcessedImage` | game_engine.py:95-125 | no original gives no image; otherwise the mode's reveal at the clamped progress, the original's size; at or past the limit the original is fully shown; blur at time 0 uses sigma 30 and kernel 181 |
| `Game.GameEngine.GetDisplayAnswer` | game_engine.py:157-166 | the first stored answer, or "" when there are none |
| `Game.GameEngine.GetCorrectAnswers` | game_engine.py:205-207 | returns the whole answer list |
| `Game.GameEngine.CheckAnswer` | game_engine.py:127-155 | no candidates gives (false, ""); otherwise accepted exactly when some candidate matches the normalised answer; the display answer is the first candidate as stored, on a hit and on a miss |
| `Labels.EntryAnswers` | label_loader.py:51-57 | a stored list is returned as it is, a stored string as a one-element list, and anything else or a missing field as [] |
| `Labels.EntryField` | label_loader.py:72 | `record.get(field, None)`: the stored value when the field is present, `None` otherwise |
| `Labels.StoredAnswers` | label_loader.py:126-127 | a list argument is stored as it is; a string is wrapped when non-empty and becomes [] when empty; `None` becomes [] |
| `Labels.NewEntry` | label_loader.py:129-135 | the new record always has `answers`, and has `category` and `hint` exactly when they are truthy, with no other field |
| `Labels.SetThenGet` | label_loader.py:125-135 | after `set_label`, the key reads back the stored answers, the category and hint when truthy (`None` otherwise), and every other key reads as before |
| `Labels.SetListThenGet` | label_loader.py:125-131 | a list of answers set with `set_label` reads back unchanged |
| `Labels.LabelLoader.constructor` | label_loader.py:14-23 | the store starts with the loaded dictionary |
| `Labels.LabelLoader.HasLabel` | label_loader.py:137-140 | true exactly when the base name is a key |
| `Labels.LabelLoader.GetAnswers` | label_loader.py:39-58 | [] without a record under the base name; otherwise the record's answers read as `EntryAnswers` |
| `Labels.LabelLoader.GetCategory` | label_loader.py:60-73 | the stored category, or `None` when the record or the field is missing |
| `Labels.LabelLoader.GetHint` | label_loader.py:75-88 | the stored hint, or `None` when the record or the field is missing |
| `Labels.LabelLoader.GetDisplayAnswer` | label_loader.py:90-103 | the first answer, or "" when there are none |
| `Labels.LabelLoader.GetAllLabels` | label_loader.py:142-144 | returns the whole store |
| `Labels.LabelLoader.SetLabel` | label_loader.py:115-135 | replaces the record under the base name (category and hint default to `None`); afterwards the name has a label and reads back the stored answers, category and hint; every other key is unchanged |
| `Labels.LookupsUseBasename` | label_loader.py:49-50 | every lookup gives the same result for a path as for its base name |
| `Timer.TimerController.constructor` | timer_controller.py:12-16 | a new timer is not started |
| `Timer.TimerController.Start` | timer_controller.py:18-22 | from any state, running since `now` with no frozen value |
| `Timer.TimerController.Stop` | timer_controller.py:24-29 | a running timer freezes now − start; a timer that is not running keeps its state; in every case it is no longer running |
| `Timer.TimerController.Reset` | timer_controller.py:31-35 | back to not started from any state |
| `Timer.TimerController.GetElapsedTime` | timer_controller.py:37-53 | 0 before any start, now − start while running, the frozen value once stopped |
| `Timer.TimerController.IsTimerRunning` | timer_controller.py:55-57 | true exactly in the running state |
| `Timer.ElapsedFollowsClock` | timer_controller.py:47-48 | while running, readings differ by exactly the difference of the instants, so they are non-decreasing exactly when the instants are |
| `Timer.ElapsedIgnoresClockUnlessRunning` | timer_controller.py:44-53 | before a start and once stopped, the reading is the same whatever the clock says |
| `LabelTemplate.ImageFiles` | create_label_template.py:37-41 | the comprehension collects at most one name per listed entry (which names: `ImageFilesMembers`) |
| `LabelTemplate.ImageFilesMembers` | create_label_template.py:37-41 | a name is collected exactly when some listed regular file of that name has a supported suffix |
| `LabelTemplate.ImageFilterExample` | create_label_template.py:40 | "cat.PNG" passes the filter, while ".png" (no suffix) and a directory named "cat.png" do not |
| `LabelTemplate.SortNames` | create_label_template.py:52 | `sorted` gives an ordered permutation of the names |
| `LabelTemplate.SortKeepsNames` | create_label_template.py:52 | sorting keeps the set of names and the length |
| `LabelTemplate.DefaultEntry` | create_label_template.py:55-59 | a new record has exactly the fields `answers`, `category` and `hint`, with an empty list and two empty strings |
| `LabelTemplate.CompletedProperties` | create_label_template.py:63-68 | completing a record keeps every field it had and adds exactly the missing standard fields with their defaults |
| `LabelTemplate.Merged` | create_label_template.py:48-69 | the merged store has the old keys plus the image names (the values: `MergedProperties`) |
| `LabelTemplate.MergedProperties` | create_label_template.py:48-69 | after the merge the keys are the old keys plus the images; new images have the default record; old records keep every field and gain the missing ones; other keys are untouched |
| `LabelTemplate.MergedIdempotent` | create_label_template.py:52-69 | merging again into the output with the same images adds no record and changes no field |
| `LabelTemplate.FillMissing` | create_label_template.py:63-68 | the three missing-field checks give the completed record |
| `LabelTemplate.MergeLabels` | create_label_template.py:48-69 | the loop produces the merged store; the new count is the number of names without a previous record; new plus updated is the number of names |
| `LabelTemplate.StartingLabels` | create_label_template.py:22-30 | a missing file, or one that is not valid JSON, starts the merge from an empty store |
| `LabelTemplate.CreateLabelTemplate` | create_label_template.py:11-69 | no images folder or no image stops the run; otherwise the result is the merge of the sorted image names, with counts that add up to the number of images |
| `LabelTemplate.DistinctImageFiles` | create_label_template.py:37-41 | a listing without repeated names gives an image list without repeats |

## Left out

- main.py (window, buttons, `QTimer` polling, pixmap display): it is a GUI shell and
  only repeats the engine's arithmetic.
- The pixel work of `cv2.GaussianBlur`, `cv2.warpAffine`, `cv2.resize` and
  `cv2.imread`/`cvtColor`: images are symbolic terms. `resize_image` is not modelled
  because no reveal path uses it.
- `image.copy()` is modelled as the image itself. The model cannot express aliasing
  of pixel buffers.
- `load_image` (file existence, decoding and its `FileNotFoundError`/`ValueError`):
  the constructor takes the decoded image.
- `LabelLoader.load_labels` and `save_labels`, and the JSON reading, writing and
  `os.listdir`/`isfile` calls of `create_label_template`. The loaded store and the
  directory listing are parameters. The written file and the printed summary are
  not modelled.
- `time.time()`: every timer operation that reads the clock takes the instant `now`.
- IEEE floating point and the `float32` affine matrix: sigma, ratio, scale,
  progress and score are exact reals. `int(sigma * 6)` is modelled as the floor,
  which equals truncation because sigma > 0.1 there.
- Python's full Unicode `lower()` and `isdigit()`: only ASCII letters are
  lower-cased and only `0`-`9` count as digits. `isspace()` follows Python's full
  set of whitespace characters.
- Answer lists whose elements are not strings (`str(a)` of a number or `None`): the
  label values are modelled as strings, lists of strings, null or other.
- `set_answers` with an argument that is neither a list nor `None`: it is passed as
  its `str()`, as `SingleAnswer`; what `str()` gives for a number or an object is
  not modelled.
- `StoredAnswers`: an answers argument to `set_label` that is a number, a boolean or
  an object is not modelled (the code would store it inside a one-element list, or
  store [] when it is falsy); only lists of strings, strings and `None` are.
- `GameEngine(label_loader=None)`: the default builds a fresh `LabelLoader()`, which
  reads `labels.json`; the constructor takes the store, because the file is not
  modelled.
- `Basename`: only `/` separates path components, as on POSIX. On Windows
  `os.path.basename` also splits at `\`.
- Label records that are not JSON objects: a record is always a field map.
- `get_mode`, `get_correct_answer`, `get_category` and `get_hint` of `GameEngine`:
  they only read fields that the model exposes directly.
- `get_all_labels` returns the map value. The shallow copy, and later aliasing
  between the copy and the store, is not modelled.
