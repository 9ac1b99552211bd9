# Camera controller: a verified model

The camera controller is a PyQt4 microscope-camera GUI. It shows live frames
from a camera back end, saves single frames, fast and slow time series, and
YAML metadata sidecars under paths built from the "Saving" tab. It also ships
a tool that compacts a raw HDF5 time-series dump into one chunked dataset.
This project models four parts of it in Dafny and proves what they do:

- `PyText.dfy`: the Python text operations the rest relies on.
  - `str` of an integer, and `int` of a string (with white space, a sign,
    and ValueError).
  - `str.zfill`, and `split`/`join` on one character.
  - The save counter step `str(int(t) + 1).zfill(w)`.
- `DummyImageSource.dfy`: the simulated camera.
  - Its four module globals are the fields of a `DummyCamera` object.
  - Step functions describe each call, and lemmas cover runs of `get_image`
    calls: continuous capture, sequence capture and freeze.
- `EpixFramegrabber.dfy`: the EPIX frame grabber's `Camera` object.
  - Its configuration fields and the format-file path `open` builds.
  - How `open` reads the driver's return code, and what `close` prints.
  - The no-op `set_*` methods, and the bit-depth rescale of `get_image`.
  - Every driver call is replaced by the return code or the samples it
    delivers, given as a parameter.
- `CompressH5.dfy`: the compactor.
  - The output-name derivation.
  - The chunked copy of frames "0".."n-1" from a map (the input file) into
    an array (the stacked `images` dataset).
  - The method says which output slots are written, in what order and
    from which key, and what happens when a key is missing.
- `CameraControllerGui.dfy`: the saving and timing logic of `CaptureFrames`.
  - The Saving-tab widgets are one `SavingFields` record.
  - The path `createFilename` builds is `FileName`. The reset, the sidecar
    name, the counters a save advances, the ROI format-file name and the
    metadata mapping are all modelled.
  - The whole `saveImageOrYaml` is given as the specification function
    `Save`: the series restart, the nested sidecar save, the dialog, the
    frame loop and the counter steps.
  - The slow-series tick of `timerEvent` and its arming in
    `collectTimeSeries` are modelled.
  - The window is a class holding these fields and the simulated camera,
    since the GUI imports `dummy_image_source` as its camera. Its methods
    are proved equal to the specification functions, and the properties are
    lemmas about those functions.

Inputs the program takes from its surroundings are parameters:
- the date and time strings `time.strftime` gives (`Clock`). A save sees
  one reading at its series restart, one in its nested sidecar save after
  that dialog is answered, and one after its own dialog (`Readings`);
- the reply to each "Output Filename" dialog (`Reply`);
- the slow-series clock reading modulo the interval;
- the frame-count texts;
- the random frame the simulated camera draws;
- the driver's return codes.

Behaviour of the code a reader may not expect:
- The directory counter advances after every single save with the
  directory box checked, even when the file counter is in use. The file
  counter is then set back to "0000".
- A slow-series frame is recorded when the clock reading modulo the
  interval is 0 and the previous reading was not. It does not compare
  elapsed time with a frame index.
- The simulated camera has no `finished_live_sequence`, and a fast series
  never reaches a write: `frameToArray` is not defined in the GUI module.
- `createYaml` has no derived-magnification key, and there is no dated
  sub-directory in the path.
- `close` of the frame grabber tests the bound method `self.open`, so it
  always issues the driver's close.
- An image save with the sidecar box checked names the sidecar after the
  path shown before the save. It then writes the image at the path rebuilt
  after the sidecar dialog. With the time box checked and the dialog
  answered in a later second, the two do not share a stem
  (`SidecarAndImageApart`).

A reset (`resetSavingOptions`) re-runs `createFilename` only through the
change signals of the widgets it writes. The format box reacts only to a
user's choice. So a reset from a state whose only non-default setting is the
PNG format keeps a ".png" path beside a ".tif" format (`ResetKeepsPngPath`).

## Model

| member | source | states |
|---|---|---|
| PyText.NatToDec | compress_h5.py:58 | `str(j)` of a natural number: digits only, no leading zero, value j |
| PyText.ZFill | camera_controller_gui.py:777 | `zfill` pads to the width and never truncates |
| PyText.Split | compress_h5.py:38 | `split` always yields at least one part |
| PyText.Join | compress_h5.py:42 | `'.'.join`; its contracts are `JoinSplit` and `SplitJoin`: it undoes `split`, and `split` undoes it on separator-free parts |
| PyText.Str | compress_h5.py:58 | `str` of an integer; its contract is `ParseZFillStr`: `int` reads it back, padded or not, as the same integer |
| PyText.ParseInt | camera_controller_gui.py:777 | Python 2 `int()` of a text; its contracts are `ParseDigits`, `ParseZFillStr` and `SpaceAfterSign` |
| PyText.SpaceAfterSign | camera_controller_gui.py:777 | white space between sign and digits is skipped: `int("- 7")` is -7, and the counter step turns "- 7" into "-006" |
| PyText.Bump | camera_controller_gui.py:777 | the counter step `str(int(t) + 1).zfill(w)`; its contracts are `BumpCounts` and `BumpPad` |
| PyText.ParseDigits | camera_controller_gui.py:777 | `int` reads a digit string, or a minus sign and digits, as its value |
| PyText.ParsePlain | camera_controller_gui.py:777 | `int` of a digit string is its value |
| PyText.ParseNegated | camera_controller_gui.py:777 | `int` of a minus sign and digits is the negated value |
| PyText.ParseZFillStr | camera_controller_gui.py:777 | `int(str(i).zfill(w)) == i` for every integer and width |
| PyText.BumpCounts | camera_controller_gui.py:775-777 | the counter step fails exactly when `int` rejects the text; otherwise it reads back as old + 1, and is at least `width` long and never shorter than `str(old + 1)` |
| PyText.BumpPad | camera_controller_gui.py:775-777 | stepping the padded count n gives the padded count n + 1 |
| PyText.PadInjective | camera_controller_gui.py:777 | distinct counts pad to distinct texts |
| PyText.JoinSplit | compress_h5.py:38-42 | joining the parts of a split gives the string back |
| PyText.SplitJoin | compress_h5.py:38-42 | splitting a join of separator-free parts gives the parts back |
| PyText.SplitAround | compress_h5.py:38 | splitting at a separator splits the two sides independently |
| DummyImageSource.Initial | dummy_image_source.py:28-31 | at import: live, frame 1, no stop frame |
| DummyImageSource.AfterGetImage | dummy_image_source.py:39-44 | while live and below the stop frame, a call captures `drawn` and advances the frame number by 1; otherwise nothing changes; frame <= stop is kept |
| DummyImageSource.RunToStop | dummy_image_source.py:39-44 | against stop frame m, calls advance the frame number once each until m; the last image is the last one captured |
| DummyImageSource.SequenceCapture | dummy_image_source.py:56-60 | after `start_sequence_capture(n)` the first n calls capture and advance; then the frame is n + 1, no longer below the stop frame, and every further call changes nothing |
| DummyImageSource.RunUnbounded | dummy_image_source.py:39-44 | live with no stop frame, every call captures and advances |
| DummyImageSource.AfterStartContinuous | dummy_image_source.py:50-54 | the state after `start_continuous_capture`; its contract is `ContinuousCapture` |
| DummyImageSource.AfterStartSequence | dummy_image_source.py:56-60 | the state after `start_sequence_capture(n)`; its contract is `SequenceCapture` |
| DummyImageSource.AfterStop | dummy_image_source.py:62-64 | the state after `stop_live_capture`; its contract is `StopFreezes` |
| DummyImageSource.ContinuousCapture | dummy_image_source.py:50-54 | after `start_continuous_capture` the frame number is 1 plus the number of calls |
| DummyImageSource.FrozenRun | dummy_image_source.py:39-44 | not live: calls change neither frame number nor image |
| DummyImageSource.StopFreezes | dummy_image_source.py:62-64 | after `stop_live_capture` calls change nothing |
| DummyImageSource.DummyCamera.constructor | dummy_image_source.py:28-31 | the globals' initial values |
| DummyImageSource.DummyCamera.GetImage | dummy_image_source.py:39-44 | the new state is `AfterGetImage` of the old; returns the last image |
| DummyImageSource.DummyCamera.GetFrameNumber | dummy_image_source.py:46-48 | returns the frame number and changes nothing |
| DummyImageSource.DummyCamera.StartContinuousCapture | dummy_image_source.py:50-54 | frame 1, live, no stop frame |
| DummyImageSource.DummyCamera.StartSequenceCapture | dummy_image_source.py:56-60 | frame 1, live, stop frame n + 1 |
| DummyImageSource.DummyCamera.StopLiveCapture | dummy_image_source.py:62-64 | not live, nothing else changes |
| EpixFramegrabber.ClassifyOpen | epix_framegrabber.py:66-75 | the open succeeds exactly on return code 0 |
| EpixFramegrabber.OpenFailuresDistinct | epix_framegrabber.py:70-75 | codes -13 and -23 get errors of their own, distinct from every other failure |
| EpixFramegrabber.ReportedCodeRoundTrip | epix_framegrabber.py:75 | the generic failure message reports its return code, read back with `int` |
| EpixFramegrabber.CloseMessage | epix_framegrabber.py:78-89 | what `close` prints for a return code; its contract is `CloseMessagesDistinct` |
| EpixFramegrabber.CloseMessagesDistinct | epix_framegrabber.py:80-87 | codes 0 and -25 each get a message of their own, and any other code is read back from its message with `int` |
| EpixFramegrabber.FormatName | epix_framegrabber.py:63 | the bare format-file name; its contracts are `FormatNameEndsFmt` and `FormatNameInjective` |
| EpixFramegrabber.FormatNameEndsFmt | epix_framegrabber.py:63 | the format-file name ends in ".fmt" |
| EpixFramegrabber.PathJoin | epix_framegrabber.py:64 | Python 2.7 `ntpath.join`, as on Windows, where the driver DLL loads; its contracts are `FormatFileInDirectory` and `FormatFileReplaced` |
| EpixFramegrabber.FormatFile | epix_framegrabber.py:63-64 | the path `open` hands to the driver; its contracts are `FormatFileInDirectory` and `FormatFileReplaced` |
| EpixFramegrabber.CameraReplaces | epix_framegrabber.py:63-64 | the join keeps the built name whole exactly when the camera text starts with `\` or `/` or has `:` as its second character |
| EpixFramegrabber.FormatFileInDirectory | epix_framegrabber.py:63-64 | unless the camera text starts with a separator or has a drive, the path is `formatFiles\` + camera + "_" + depth + "bit_" + w + "x" + h + ".fmt", ending in ".fmt" |
| EpixFramegrabber.FormatFileReplaced | epix_framegrabber.py:63-64 | a camera text that starts with a separator or has a drive drops the `formatFiles` directory: the path is the bare name |
| EpixFramegrabber.FormatNameInjective | epix_framegrabber.py:63 | for one camera, distinct depth/width/height give distinct names |
| EpixFramegrabber.Rescale | epix_framegrabber.py:120-125 | the rescaled image has the samples' count, every value a uint16 |
| EpixFramegrabber.RescaleExact | epix_framegrabber.py:120-125 | for depth b > 8 and samples below 2^b, each sample is multiplied by 2^(16-b) exactly, below 2^16 |
| EpixFramegrabber.RescaleMonotone | epix_framegrabber.py:120-125 | the rescale keeps the order of samples both ways |
| EpixFramegrabber.RescaleMaxSample | epix_framegrabber.py:120-125 | the largest b-bit sample maps to 2^16 - 2^(16-b), not 65535 |
| EpixFramegrabber.RescaleLowDepth | epix_framegrabber.py:107-127 | at depth <= 8 the samples are unchanged |
| EpixFramegrabber.Camera.constructor | epix_framegrabber.py:38-45 | not opened, every setting None |
| EpixFramegrabber.Camera.Close | epix_framegrabber.py:78-89 | the driver's close is always issued; the message is the one for its return code; the object is unchanged |
| EpixFramegrabber.Camera.Open | epix_framegrabber.py:52-76 | closes first when open; records every setting before the driver call; opens the format path; the outcome classifies the code; opened becomes true only on 0 |
| EpixFramegrabber.Camera.Record | epix_framegrabber.py:56-61 | stores every requested setting and leaves the opened flag alone |
| EpixFramegrabber.Camera.SetRoiPos | epix_framegrabber.py:169-171 | stores (0, 0), whatever the argument |
| EpixFramegrabber.Camera.SetExposure | epix_framegrabber.py:174-176 | stores 0, whatever the argument |
| EpixFramegrabber.Camera.SetFrametime | epix_framegrabber.py:178-180 | stores 0, whatever the argument |
| EpixFramegrabber.OpenFresh | epix_framegrabber.py:52-69 | a fresh camera is open exactly when the driver returns 0, and its settings are recorded even when opening fails |
| CompressH5.OutName | compress_h5.py:37-42 | the output name or the refusal; its contracts are `OutNameIndexError`, `OutNameStrips` and `OutNameShape` |
| CompressH5.OutNameStrips | compress_h5.py:38-42 | "stem.uncompressed.ext" (ext without a dot) gives "stem.ext" |
| CompressH5.OutNameExample | compress_h5.py:42 | "a.b.uncompressed.h5" gives "a.b.h5" |
| CompressH5.OutNameIndexError | compress_h5.py:38-39 | `parts[-2]` fails exactly for a name without a dot |
| CompressH5.OutNameShape | compress_h5.py:38-42 | every accepted name is "stem.uncompressed.ext" or "uncompressed.ext", and the output drops the "uncompressed" part |
| CompressH5.FirstMissing | compress_h5.py:56-70 | the first frame index whose key the file lacks, if any below n |
| CompressH5.Compress | compress_h5.py:37-70 | a refused name gives no output. A file without "1" is a KeyError before any copy. Otherwise the array has n slots, n the key count, and the chunk is min(n, 100). With all keys present, slots 0..n-1 are written once each in increasing order from key str(j), in n / chunk full blocks and a partial chunk of the remaining frames. A missing key stops the copy at the first missing index, after all full blocks before it |
| CompressH5.CopyFrames | compress_h5.py:55-70 | the whole copy: with every key present, slots 0..n-1 in order from their keys, `Blocks(n, chunk)` full blocks and the remainder as partial; otherwise it stops at the first missing key with exactly the full blocks before it written |
| CompressH5.CopyBlocks | compress_h5.py:55-63 | the full-block loop: runs while a whole chunk fits, each block written from its keys, ending after exactly `Blocks(n, chunk)` blocks or at the block holding the first missing key |
| CompressH5.ReadFrames | compress_h5.py:57-58 | fills the buffer from consecutive keys, or reports the first missing one |
| CompressH5.Blocks | compress_h5.py:56 | the number b of whole chunks, with b * c <= n < b * c + c |
| CompressH5.BlocksUnique | compress_h5.py:56 | that count is the only one with the property |
| CompressH5.BlocksDiv | compress_h5.py:56-66 | it is `n // chunk`, and the partial chunk is `n % chunk` |
| CameraControllerGui.FileName | camera_controller_gui.py:851-905 | the path `createFilename` leaves; its contracts are `FileNameParts`, `NumberedNamesDistinct` and `CaptureFrames.CreateFilename` |
| CameraControllerGui.FileNameParts | camera_controller_gui.py:851-902 | the path is root + "/", then the directory part in its four cases, then the date, time, keyword and file counter when checked, then the extension |
| CameraControllerGui.ExtensionChoice | camera_controller_gui.py:897-902 | ".tif" and ".png" are appended as they are; any other format appends nothing |
| CameraControllerGui.ZeroCounts | camera_controller_gui.py:786-788 | `str(0).zfill(4)` is "0000" and `str(0).zfill(2)` is "00" |
| CameraControllerGui.DefaultFileName | camera_controller_gui.py:908-928 | with the reset defaults and root R the path is R + "/00/image0000.tif" |
| CameraControllerGui.DefaultPath | camera_controller_gui.py:928 | the default path itself |
| CameraControllerGui.NumberedNamesDistinct | camera_controller_gui.py:893-895 | distinct file counts give distinct paths, all else equal, even when built from two clock readings whose date and time strings have the same widths |
| CameraControllerGui.ClockFree | camera_controller_gui.py:879-887 | with the date and time boxes unchecked, the path is the same at every clock reading |
| CameraControllerGui.TimeInPath | camera_controller_gui.py:884-887 | with the time box checked, two readings of different times (same widths) give different paths |
| CameraControllerGui.Sidecar | camera_controller_gui.py:710-716 | the sidecar name; its contracts are `SidecarReplacesExtension`, `SidecarTrailingDot`, `SidecarNoDot` and `SidecarOfFileName` |
| CameraControllerGui.SidecarReplacesExtension | camera_controller_gui.py:710-716 | the sidecar name replaces the last dot-separated extension with "yaml" |
| CameraControllerGui.SidecarTrailingDot | camera_controller_gui.py:713-716 | with an empty last part, `[:-0]` empties the name and the sidecar is "yaml" |
| CameraControllerGui.SidecarNoDot | camera_controller_gui.py:713-716 | a name without a dot has sidecar "yaml" |
| CameraControllerGui.SidecarExample | camera_controller_gui.py:710-716 | "d/image0000.tif" has sidecar "d/image0000.yaml" |
| CameraControllerGui.SidecarOfFileName | camera_controller_gui.py:710-716 | the sidecar of a ".tif" or ".png" path is that path with its extension replaced by "yaml" |
| CameraControllerGui.RoiFormatFile | camera_controller_gui.py:931-939 | the ROI format-file name, or the IndexError; its contracts are `RoiFormatMatchesGrabber` and `RoiIndexRange` |
| CameraControllerGui.RoiFormatMatchesGrabber | camera_controller_gui.py:931-939 | for depth entry "<b>bit" and an offered size s, the ROI format name is the frame grabber's name for camera PhotonFocus, depth b, s by s |
| CameraControllerGui.RoiIndexRange | camera_controller_gui.py:932-935 | `size[current]` exists exactly for indices -5..4, negatives counting from the end |
| CameraControllerGui.CreateYaml | camera_controller_gui.py:951-974 | the mapping always has exactly the five keys, and the tube entry is "1.0X" or "1.5X" |
| CameraControllerGui.CreateYamlIgnoresUnselected | camera_controller_gui.py:953-964 | a text field whose button is not checked (an "Other:" text, or the collar text beside another objective) never changes the mapping |
| CameraControllerGui.CreateYamlRecordsSelected | camera_controller_gui.py:953-974 | the text beside a checked "Other:" is recorded as typed; the collar text follows the collar objective's name; tube "1.5X" exactly when the box is checked; the notes are copied |
| CameraControllerGui.CreateYamlRecordsButton | camera_controller_gui.py:953-964 | any other checked button is recorded by its own text, whatever the text fields hold |
| CameraControllerGui.DirStep | camera_controller_gui.py:782-789 | the directory step writes nothing, changes only counters and path, and keeps the path consistent |
| CameraControllerGui.AfterWrite | camera_controller_gui.py:773-799 | the counter updates after a write change only counters, path and (at the end of a slow series) the checked button, and keep the path consistent |
| CameraControllerGui.AfterNumber | camera_controller_gui.py:780-799 | after the file counter step: the directory step, or within a slow series Live checked and the directory step at the last frame only; changes only counters, path and the checked button |
| CameraControllerGui.Prepare | camera_controller_gui.py:699-705 | the series restart and the nested sidecar save change only counters and path; the result is unchanged, or its path is the one its fields give at the restart reading or at the sidecar save's reading |
| CameraControllerGui.Finish | camera_controller_gui.py:707-799 | the dialog and the frame loop change only counters, path and (last slow frame) the checked button; the result is unchanged, or its path is the one its fields give at the reading after the dialog |
| CameraControllerGui.Save | camera_controller_gui.py:687-799 | any save, however it ends, changes only the two counters, the path and (last slow frame only) the checked button. The path is kept with the fields, or rebuilt from the new fields at one of the save's readings |
| CameraControllerGui.SameReadingConsistent | camera_controller_gui.py:687-799 | when every call of a save sees the same reading, a path that matched the fields still matches them |
| CameraControllerGui.MetadataSave | camera_controller_gui.py:684-685 | a sidecar save never fails; accepted it writes the sidecar of the current path and only rebuilds the path, at the reading after its dialog; cancelled it changes nothing |
| CameraControllerGui.ImageSave | camera_controller_gui.py:773-789 | an accepted image save writes the proposed or typed path. The file counter steps n to n + 1. With the directory box on, the directory counter steps d to d + 1 and the file counter restarts at 0000. The path is rebuilt at the reading after the dialog |
| CameraControllerGui.ConsecutiveSavesDistinct | camera_controller_gui.py:775-778 | two image saves in a row in one directory write different paths, whenever each path is built |
| CameraControllerGui.CounterTextRejected | camera_controller_gui.py:773-777 | a file counter `int` rejects: the file is written, then ValueError, and nothing changes |
| CameraControllerGui.CancelledSave | camera_controller_gui.py:724-734 | a cancelled dialog writes nothing and changes nothing |
| CameraControllerGui.ImageWithMetadata | camera_controller_gui.py:704-716 | with the sidecar box checked, the sidecar of the path shown before the save is written first. Then comes the image, at the path its fields give at the reading taken after the sidecar dialog |
| CameraControllerGui.SidecarBesideImage | camera_controller_gui.py:704-716 | with the date and time boxes unchecked, the sidecar and the image share their stem: the sidecar is the image path with "yaml" for its extension |
| CameraControllerGui.SidecarAndImageApart | camera_controller_gui.py:704-716 | with the time box checked and the sidecar dialog answered at another time than the shown path was built, the image goes to another path than the one the sidecar is named after |
| CameraControllerGui.SeriesSave | camera_controller_gui.py:699-744 | a fast-series save restarts the file counter at 0000 and writes nothing. A frame count `int` rejects is a ValueError, a positive one reaches the undefined `frameToArray`, and any other count ends quietly |
| CameraControllerGui.Tick | camera_controller_gui.py:660-668 | the slow-series part of a timer tick; its contracts are `TickIdle`, `TickCounters` and `RunCounts` |
| CameraControllerGui.Fire | camera_controller_gui.py:662-668 | a recording tick; its contract is `TickFires` |
| CameraControllerGui.TickIdle | camera_controller_gui.py:661 | with the slow box unchecked or the flag set, a tick does nothing |
| CameraControllerGui.TickCounters | camera_controller_gui.py:660-668 | a slow tick writes files exactly when it records a frame. Without error it moves the counters as `CounterStep`: a recording increments the counter by 1, the flag is set exactly at the requested count, and `lastmod` takes the reading. After the last frame Live is checked. The path is kept with the fields, or rebuilt from the new fields at one of the readings |
| CameraControllerGui.TickFires | camera_controller_gui.py:662-668 | a recording tick writes files; without error it counts the frame, sets the flag at the requested count, takes the reading as `lastmod`, and leaves Live checked after the last frame and the slow series otherwise; the path is kept with the fields, or rebuilt at one of the readings |
| CameraControllerGui.SlowSave | camera_controller_gui.py:790-799 | a slow-series save writes the image and, on success, checks Live after the last frame and keeps the slow series otherwise |
| CameraControllerGui.LastSlowFrameGoesLive | camera_controller_gui.py:790-792 | the last slow frame toggles Live |
| CameraControllerGui.RunCounts | camera_controller_gui.py:660-668 | over any run of ticks the counter adds the recordings, never passes k, and the flag is set exactly at k |
| CameraControllerGui.SlowSeriesRun | camera_controller_gui.py:826-830 | armed by `collectTimeSeries` (1, 0, False) a series of k >= 1 frames records at most k and stops exactly after k |
| CameraControllerGui.StoppedRun | camera_controller_gui.py:661 | once the flag is set no tick records or changes a counter |
| CameraControllerGui.EndlessRun | camera_controller_gui.py:663-665 | a requested count that is a fraction or already passed never sets the flag |
| CameraControllerGui.ResetFields | camera_controller_gui.py:908-928 | the values a reset writes; its contracts are `DefaultFileName` and `ResetPath` |
| CameraControllerGui.AfterReset | camera_controller_gui.py:908-928 | the state after a reset; its contracts are `ResetPath` and `ResetKeepsPngPath` |
| CameraControllerGui.ResetPath | camera_controller_gui.py:908-928 | a reset writes the defaults. If a widget with a change signal moved, the path is the default path; otherwise the old path stays |
| CameraControllerGui.ResetKeepsPngPath | camera_controller_gui.py:909 | resetting from a PNG-only difference leaves a ".png" path beside ".tif": the path is then stale |
| CameraControllerGui.CaptureFrames.constructor | camera_controller_gui.py:319-608 | Live checked, the reset defaults and their path (after the two resets of `initUI`), counters at 0, and the camera's continuous capture started by the closing `live()` |
| CameraControllerGui.CaptureFrames.AppendDirectory | camera_controller_gui.py:859-863 | appending the text, then "//", then dropping the last character, appends the text and one '/'; nothing else changes |
| CameraControllerGui.CaptureFrames.AppendIf | camera_controller_gui.py:879-902 | a checked part is appended, an unchecked one leaves the path; nothing else changes |
| CameraControllerGui.CaptureFrames.AppendDirectoryPart | camera_controller_gui.py:852-877 | the root, its '/', and the directory part in its four cases give `DirPrefix` |
| CameraControllerGui.CaptureFrames.CreateFilename | camera_controller_gui.py:851-905 | the successive appends (with the "//"-then-drop-one quirk) leave exactly `FileName` of the fields; nothing else changes |
| CameraControllerGui.CaptureFrames.ResetSavingOptions | camera_controller_gui.py:908-928 | the new state is `AfterReset` of the old |
| CameraControllerGui.CaptureFrames.StepDirectory | camera_controller_gui.py:780-789 | the directory counter step equals `DirStep`: ValueError on a counter `int` rejects, else the new counters and path |
| CameraControllerGui.CaptureFrames.AdvanceCounters | camera_controller_gui.py:773-799 | the counter updates after a write equal `AfterWrite` |
| CameraControllerGui.CaptureFrames.FinishCounters | camera_controller_gui.py:780-799 | the directory step and the Live toggle after the file counter step equal `AfterNumber` |
| CameraControllerGui.CaptureFrames.PrepareSave | camera_controller_gui.py:699-705 | the series restart and nested sidecar save equal `Prepare` |
| CameraControllerGui.CaptureFrames.SaveImageOrYaml | camera_controller_gui.py:687-805 | the new state, the files written and the error are those of `Save` |
| CameraControllerGui.CaptureFrames.WriteFrames | camera_controller_gui.py:719-799 | the dialog and the `for i in range(1, numOfFrames+1)` loop, equal to `Finish` |
| CameraControllerGui.CaptureFrames.SaveImage | camera_controller_gui.py:678-679 | a single image save |
| CameraControllerGui.CaptureFrames.SaveImages | camera_controller_gui.py:681-682 | a slow-series image save, without a dialog |
| CameraControllerGui.CaptureFrames.SaveMetadata | camera_controller_gui.py:684-685 | a sidecar save |
| CameraControllerGui.CaptureFrames.TimerEvent | camera_controller_gui.py:639-676 | reads the camera's frame number, then its next image (the camera steps as `AfterGetImage`). The slow tick follows `Tick`. Then an AttributeError if the fast series is checked |
| CameraControllerGui.CaptureFrames.SlowTick | camera_controller_gui.py:660-668 | the new state and writes are those of `Tick` |
| CameraControllerGui.CaptureFrames.FireFrame | camera_controller_gui.py:662-667 | a recording tick: counter + 1, flag at the requested count, save, then `lastmod` |
| CameraControllerGui.CaptureFrames.CollectTimeSeries | camera_controller_gui.py:818-830 | fast: the camera's sequence capture of `int(text)` frames, or ValueError with the camera unchanged; slow: `lastmod` 1, counter 0, flag False; otherwise nothing |
| CameraControllerGui.CaptureFrames.Live | camera_controller_gui.py:807-815 | Live checked starts continuous capture; anything else stops it |
| CameraControllerGui.CaptureFrames.ChangeRoiSize | camera_controller_gui.py:931-941 | an index outside -5..4 is an IndexError; otherwise the format name is built and the simulated camera's `open_camera` rejects the `formatfile` keyword (TypeError) |

## Left out

- Qt widgets, layouts, the tabs' display labels, `showImage`, the image info
  text, `numOfRows`/`numOfCols` and the random `self.image` of
  `changeROISize`: display only.
- The file-system side of `saveImageOrYaml`:
  - `os.path.isfile`, `mkdir_p`, `os.path.isdir`, PIL `save` and
    `yaml.dump`;
  - the two error message boxes, and the recursive retry they start.
  The model describes the path where the file does not exist and its
  directory can be made. The contents of the files written are not
  modelled, only their paths and order.
- The float computation of `currentmod` from `time.time()` and the interval
  text, including its ValueError and ZeroDivisionError: the reading is an
  input. The `float()` of the slow-series count is an input too (None when
  it does not parse).
- `int()` follows Python 2: white space around the text and between the
  sign and the digits is skipped. Only ASCII digits are read; the other
  Unicode decimal digits Python 2 accepts in a `unicode` text are not
  modelled.
- `self.current_date`/`self.current_time` as stored fields: the clock
  strings are passed to each path computation instead.
- One clock reading serves all the `createFilename` calls that follow one
  dialog: the rebuilds after the file counter step, after the directory
  counter step and after the Live toggle. The same holds for a whole reset
  and for the window's start. No dialog or other wait separates those
  calls, so what this hides is a second, or a day, ending between two of
  them. The `%y%m%d` and `%H%M%S` readings inside one call are
  likewise treated as one reading.
- Change signals during a reset:
  - The model writes all the reset values at once and re-runs
    `createFilename` if any signalled widget changed. The source re-runs it
    after each such widget; the final path is the same.
  - `typingspace` connected twice only repeats the same computation.
- CameraControllerGui.CaptureFrames.TimerEvent: the timer itself, and the
  fast-series completion after `finished_live_sequence`, which the simulated
  camera lacks; the model ends with the AttributeError the source raises.
- CameraControllerGui.CaptureFrames.ChangeRoiSize: the `livebutton.toggle()`
  and `live()` after `open_camera` are never reached with the simulated
  camera, so they are not modelled.
- Background selection and division (`select_background`), `setROIx` and
  `setROIy`: display and printing only.
- The other camera back ends (EPIX image source, Thorlabs), the Fourier
  filter and the piezo stage: not part of this model.
- compress_h5.py:
  - the h5py file handles, dtype, gzip chunking (64, 64, chunk), the
    progress printing, `close` and the optional delete of the input;
  - frames are opaque values, and the 2-D frame shape is not modelled.
- epix_framegrabber.py:
  - the `ctypes` import and the DLL load in `__init__`, pixel buffer reads,
    `save_buffer` and the live-mode helpers;
  - the printing of `open` and `close` is modelled only as the message
    returned.
- EpixFramegrabber.PathJoin: Python 2.7 `ntpath.join` only for a first
  argument without a drive, the only kind `open` passes; `posixpath.join` is
  not modelled, since the driver loads only on Windows.
- EpixFramegrabber.Rescale: requires a depth of at most 16; above 16 the
  source's exponent is negative and numpy yields floats, which are not
  modelled.
- dummy_image_source.py: `open_camera` and `close_camera` do nothing and are
  not modelled as members; the random image contents are an input.
