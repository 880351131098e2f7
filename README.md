# CameraApp save target and click selection

A model of the part of the webcam viewer's `CameraApp` that is not device or
widget plumbing. It has two parts.

- **The save target.** The application keeps a file name that snapshots are
  written to. After every save, the last maximal run of ASCII digits anywhere
  in the path is incremented. The new value is zero-padded to the old run's
  width and never truncated, so `999` becomes `1000`. A path without any digit
  gets `_001` inserted before its extension, as POSIX `os.path.splitext`
  finds it.
  - "Save" writes to the current name and then advances it.
  - "Save as" takes the name chosen in the file dialog. An empty choice only
    shows a warning. A non-empty choice becomes the target and is saved to
    (and then advanced).
- **The click history.** Every press on the preview appends one point. The
  preview and the saved image carry a rectangle only when the number of
  clicks is even and at least two. Its corners are the last two clicks, in
  order.

Modules:

- `Decimal` (decimal.dfy): digit strings, `int`, `str` and `zfill`.
- `PosixPath` (posix_path.dfy): `rfind`, `os.path.splitext` and `os.path.join`.
- `FilenameCounter` (filename_counter.dfy): the last digit run and the next
  file name, with their lemmas.
- `CounterExamples` (counter_examples.dfy): worked examples, including the
  initial name.
- `ClickSelection` (click_selection.dfy): the rectangle rule.
- `Camera` (camera_app.dfy): the class `CameraApp`. Its fields are `filename`,
  `clicks`, the save button's label and an ordered log of effects (files
  written, warnings shown). Its methods change those fields as the source
  does.

The pure parts are functions with lemmas. The state the source updates in
place is a class whose methods are proved against those functions.

Two points of the behaviour are easy to miss:

- The digit search covers the whole path, directories included, so
  `/home/u2/photo.png` becomes `/home/u3/photo.png`.
- Save as accepts any non-empty name; there is no other check.

## Model

| member | source | states |
|---|---|---|
| `Decimal.ValueOf` | camera/camera_app.py:124 | `int` of a digit string of width w is below 10^w |
| `Decimal.ToDecimal` | camera/camera_app.py:126 | `str` of a natural number is a non-empty digit string with no leading zero |
| `Decimal.ZFill` | camera/camera_app.py:127 | `zfill` of an unsigned digit string (the only kind line 127 passes) never truncates: its length is the larger of the old length and the width; the old string is a suffix and the added prefix is all '0' |
| `Decimal.ValueOfSnoc` | camera/camera_app.py:124 | appending a digit multiplies the value by ten and adds the digit |
| `Decimal.ValueOfToDecimal` | camera/camera_app.py:124-126 | `int(str(n)) == n` |
| `Decimal.ValueOfPadded` | camera/camera_app.py:127 | leading zeros do not change the value of a digit string |
| `Decimal.ValueOfZFill` | camera/camera_app.py:127 | zero-padding keeps a digit string all digits and keeps its value |
| `Decimal.ToDecimalLength` | camera/camera_app.py:126-127 | `str(n)` fits in k digits exactly when n < 10^k |
| `Decimal.AllNinesValue` | camera/camera_app.py:124-127 | a digit run has the largest value for its width exactly when it is all nines |
| `PosixPath.RFind` | camera/camera_app.py:130 | `rfind`: -1 or the index of the character, with no later occurrence |
| `PosixPath.HasExtension` | camera/camera_app.py:130 | the `rfind` test of `splitext` holds exactly when the final component has a non-dot character with a dot somewhere after it |
| `PosixPath.SplitExt` | camera/camera_app.py:130 | stem + extension is the path; the extension is empty exactly when the last component has no dot after a non-dot character |
| `PosixPath.ExtensionShape` | camera/camera_app.py:130 | a non-empty extension starts with a dot and holds no further dot or '/'; the stem's last component then has a non-dot character |
| `PosixPath.DirPrefix` | camera/camera_app.py:40 | the directory part `os.path.join` uses: the directory itself when it is empty or already ends in '/', otherwise the directory followed by exactly one '/' |
| `PosixPath.Join` | camera/camera_app.py:40 | the result ends with the second part; an absolute second part replaces the first; otherwise the result is exactly as long as the directory part plus the second part, the first part is kept in front, and a non-empty first part is followed by '/' just before the second, so no '/' is doubled |
| `FilenameCounter.DigitEndBefore` | camera/camera_app.py:120-123 | the end of the last digit before a position, with no digit between it and that position |
| `FilenameCounter.RunStart` | camera/camera_app.py:120-123 | the start of the digit run ending at a position: all digits in between and no digit just before |
| `FilenameCounter.LastDigitRun` | camera/camera_app.py:120-123 | none exactly when the path has no digit; otherwise the span of the last maximal digit run |
| `FilenameCounter.LastRunUnique` | camera/camera_app.py:120-123 | any span that is the last maximal digit run is the one found |
| `FilenameCounter.NextCounter` | camera/camera_app.py:124-127 | the replacement run is all digits, worth one more, and one digit wider exactly when the old run is all nines |
| `FilenameCounter.BumpRun` | camera/camera_app.py:124-128 | replacing the last run keeps the length or adds one character |
| `FilenameCounter.Numbered` | camera/camera_app.py:129-131 | the branch without digits adds exactly four characters |
| `FilenameCounter.NextFilename` | camera/camera_app.py:119-131 | the new name is never shorter and at most four characters longer |
| `FilenameCounter.Counter` | camera/camera_app.py:120-124 | a positive counter implies the path has a digit |
| `FilenameCounter.NextFilenameAround` | camera/camera_app.py:120-128 | the next name of prefix + run + suffix is prefix + next counter + suffix |
| `FilenameCounter.CounterAround` | camera/camera_app.py:120-124 | the counter of prefix + run + suffix is the value of the run |
| `FilenameCounter.IncrementChangesOnlyLastRun` | camera/camera_app.py:120-128 | with a digit in the path, the text before and after the last run is kept; the run becomes digits worth one more, one longer exactly when it was all nines |
| `FilenameCounter.IncrementedRunIsLast` | camera/camera_app.py:120-128 | the new run is again the last maximal digit run of the result |
| `FilenameCounter.ValueOfFirstCounter` | camera/camera_app.py:131 | "001" is a digit string worth one |
| `FilenameCounter.NumberedShape` | camera/camera_app.py:129-131 | without a digit, the result is stem + "_" + "001" + extension, and that "001" is between non-digits |
| `FilenameCounter.NumberedWithoutDigits` | camera/camera_app.py:129-131 | without a digit, splitting the result gives the old stem + "_001" and the old extension, and its last digit run is that "001" |
| `FilenameCounter.IncrementedHasDigit` | camera/camera_app.py:119-131 | after an increment the path always has a digit, so later increments take the digit branch |
| `FilenameCounter.CounterAdvances` | camera/camera_app.py:119-131 | each increment raises the counter by exactly one; a path without digits (counter 0) is numbered 1 |
| `FilenameCounter.CounterAdvancesInRun` | camera/camera_app.py:120-128 | the digit branch raises the counter by one |
| `FilenameCounter.CounterStartsAtOne` | camera/camera_app.py:129-131 | the branch without digits gives counter 1 |
| `FilenameCounter.AfterSaves` | camera/camera_app.py:113-131 | n saves in a row: the target never gets shorter, and after the first save it always has a digit |
| `FilenameCounter.CounterAfterSaves` | camera/camera_app.py:113-131 | n saves raise the counter by exactly n |
| `CounterExamples.FirstStep` | camera/camera_app.py:124-127 | `001`→`002` |
| `CounterExamples.DigitStep` | camera/camera_app.py:124-127 | `2`→`3` |
| `CounterExamples.NineStep` | camera/camera_app.py:124-127 | `9`→`10` |
| `CounterExamples.ValueOfPaddedNine` | camera/camera_app.py:124 | `int("009") == 9` |
| `CounterExamples.PaddedStep` | camera/camera_app.py:124-127 | `009`→`010`: padding keeps the width |
| `CounterExamples.ValueOfNines` | camera/camera_app.py:124 | `int("999") == 999` |
| `CounterExamples.WideningStep` | camera/camera_app.py:124-127 | `999`→`1000`: `zfill` does not truncate |
| `CounterExamples.ImageCounterAdvances` | camera/camera_app.py:119-128 | in any directory `image_001.png` advances to `image_002.png` |
| `CounterExamples.InitialNameAdvances` | camera/camera_app.py:40 | the initial target `~/image_001.png` advances to `~/image_002.png` for every home directory |
| `CounterExamples.ScanExample` | camera/camera_app.py:120-128 | `scan9.png`→`scan10.png` |
| `CounterExamples.PaddedExample` | camera/camera_app.py:120-128 | `a009z.png`→`a010z.png` |
| `CounterExamples.WideningExample` | camera/camera_app.py:120-128 | `a999`→`a1000` |
| `CounterExamples.DirectoryDigitExample` | camera/camera_app.py:120-128 | `/home/u2/photo.png`→`/home/u3/photo.png`: the counter may be in a directory name |
| `CounterExamples.PhotoSplit` | camera/camera_app.py:130 | `splitext("photo.png")` is `("photo", ".png")` |
| `CounterExamples.NoDigitExample` | camera/camera_app.py:129-131 | `photo.png`→`photo_001.png` |
| `ClickSelection.Pairs` | camera/camera_app.py:91-93 | clicks read two at a time give half as many rectangles |
| `ClickSelection.PairsAppend` | camera/camera_app.py:91-93 | after an even prefix the remaining clicks pair up on their own |
| `ClickSelection.SelectedRect` | camera/camera_app.py:91-93 | a rectangle is shown exactly when the clicks form complete pairs, at least one, and it is the most recent pair |
| `ClickSelection.UnpairedPressHides` | camera/camera_app.py:91 | one press after complete pairs hides the rectangle |
| `ClickSelection.PairedPressesSelect` | camera/camera_app.py:91-94 | two presses after complete pairs select exactly the rectangle between them, in order |
| `Camera.CameraApp.constructor` | camera/camera_app.py:30-41 | no clicks, the target is `image_001.png` joined to the home directory, and the save button names it |
| `Camera.CameraApp.GetPos` | camera/camera_app.py:61 | one press appends exactly one point; earlier clicks are unchanged |
| `Camera.CameraApp.GetImage` | camera/camera_app.py:89-98 | the frame carries a rectangle exactly when the click count is even and at least two, with the second-to-last and last clicks as corners |
| `Camera.CameraApp.IncrementFilename` | camera/camera_app.py:119-132 | the target becomes the next name, holds a digit, its counter rises by one, and the button label follows |
| `Camera.CameraApp.SaveImage` | camera/camera_app.py:113-117 | the current image is written to the old target, then the target advances by one |
| `Camera.CameraApp.SaveImageAs` | camera/camera_app.py:100-111 | an empty choice writes nothing, warns, and keeps the target; a non-empty one is written to and then advanced |

Proof steps (facts about strings that the lemmas above are built from,
not behaviour of their own):

- `FilenameCounter.SpliceParts` (camera/camera_app.py:128): the text before, the new run and the text after can be cut out of the result again.
- `FilenameCounter.SpliceLastRun` (camera/camera_app.py:120-128): a digit run after a non-digit and followed only by non-digits is the last run of the whole.
- `FilenameCounter.CutAtLastRun` (camera/camera_app.py:120-123): a path cut at its last run is prefix + run + suffix, with the run's neighbours not digits.
- `FilenameCounter.SplitAfterInsert` (camera/camera_app.py:129-131): inserting text free of '/' and '.' at the end of the stem leaves the extension where it was.
- `FilenameCounter.RFindAfterInsert` (camera/camera_app.py:130-131): after inserting text without a character, its last occurrence moves with the text after the insertion point.
- `PosixPath.ExtensionWitnesses` (camera/camera_app.py:130): the `rfind` test and the description without `rfind` agree.

## Left out

- Device capture and the capture thread (camera/camera_thread.py, `Camera` and `App` in camera/__main__.py): I/O and concurrency. The current frame is a parameter of `GetImage`, `SaveImage` and `SaveImageAs`.
- The mapping from widget to image coordinates in `getPos` (camera/camera_app.py:46-56): floating-point arithmetic over device and widget sizes. Clicks are integer points.
- Python `round` on the click coordinates (camera/camera_app.py:93): clicks are already whole pixels here.
- Drawing with `cv2.rectangle` and the colour conversion to a Qt image: foreign calls. An `Image` is the frame plus the rectangle to draw.
- `cv2.imwrite`, `QFileDialog` and `QMessageBox`: foreign I/O. Writes and warnings are recorded in `effects`. The dialog's answer is the `chosen` parameter of `SaveImageAs`. Every write is taken to succeed.
- `os.path.expanduser('~')`: the home directory is a parameter of the constructor.
- Preview rendering, timer re-arming and the slider wiring in `_setupConnections`: widget plumbing.
- Unicode digits matched by Python's `\d`: only ASCII `'0'..'9'` count as digits.
- Camera.CameraApp.SaveImage: a failed write is not modelled. `cv2.imwrite` raises for a name with no known image extension, which the dialog's "All files" filter lets through; `saveImage` then stops before `incrementFilename` (camera/camera_app.py:116-117), so the target does not advance. After `saveImageAs` has taken the chosen name (camera/camera_app.py:108-109), the button label then still names the old target, since it is set only at camera/camera_app.py:132. `Valid()` (the label names the current target) therefore holds in the source only when writes succeed.
- Camera.CameraApp.SaveImageAs: the button label is updated before the nested save rather than only after it; once the call returns normally the label is the same.
