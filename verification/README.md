# Optris camera debug tool — verified model of its core

`optris_camera_debug_tool.py` is a desktop viewer for Optris thermal cameras. It
wraps the vendor's `libirimager` library. This project models in Dafny the parts
of it that carry logic:

- **The format catalog.** `FormatsDefParser` reads `Formats.def` blocks into a
  GUID-keyed dictionary. Deprecated formats and formats that another format
  `replaces` are dropped, whatever the block order. The catalog answers resolution lookups and groups
  formats by camera model, the first word of the format name.
- **Opening the camera.** `CameraManager.init_camera` reports the thermal and
  palette sizes and the serial number, which defaults to 0. It offers the
  formats matching the thermal resolution, or the whole catalog when none
  match.
- **Palette and shutter settings.** `PaletteManager`'s name-to-id table and the
  shutter mode chosen by the auto-calibration checkbox.
- **The viewer.** `ThermalCameraApp` guesses the camera model. Its per-tick
  `update_frame` handler reads the centre pixel, converts raw samples to degrees
  Celsius as `raw / 10 - 100`, averages the frame and keeps a windowed
  frames-per-second estimate.

Modules:

| file | module | contents |
|---|---|---|
| `wrappers.dfy` | `Wrappers` | `Option`, first-seen de-duplication and filtering of sequences |
| `blocks.dfy` | `FormatBlocks` | format blocks, the parser's loop as a fold (`Scan`), the retained `Catalog`, and the reference definitions it is proved against |
| `tokens.dfy` | `Tokens` | the first word of Python's `str.split()` |
| `catalog.dfy` | `FormatCatalog` | resolution lookup, grouping by model, the `FormatsDefParser` class |
| `examples_catalog.dfy` | `CatalogExamples` | small block lists whose catalog is computed outright |
| `session.dfy` | `CameraSession` | the fallback rule and the `CameraManager` class |
| `settings.dfy` | `CameraSettings` | palette table and shutter mode |
| `frame.dfy` | `FrameStats` | centre index, calibration, frame mean, FPS window |
| `viewer.dfy` | `ThermalViewer` | the `ThermalCameraApp` class: model guess and frame handler |

Modelling choices:

- **Pre-extracted blocks.** A `[Format] ... [Format end]` block arrives as a
  `Block` record whose fields are already extracted. An argument of `None`
  stands for the file read or a field conversion raising. In that case the
  exception handler leaves `formats` as it was.
- **Dictionary order.** A Python dictionary's insertion order is modelled as a
  key sequence beside a map.
- **The catalog is a sequence.** The retained catalog is the list the code
  builds in dictionary order. Resolution lookup and model grouping return their
  results in that order.
- **Exceptions become values.**
  - `fmt['name']` raises `KeyError` on a format without a `Name =` line. The
    model returns `None` in that case, both from the grouping and from
    `DetectCameraModel`.
  - The `IndexError` of a centre index past the thermal buffer is caught by
    `update_frame`'s handler. It is modelled as the `HandlerRaised` outcome.
- **Time and library answers are parameters.**
  - Wall-clock time is a whole number of milliseconds, supplied by the caller.
  - The vendor library's answers during `init_camera` are an `SdkAnswers`
    value.
  - The acquisition status and the filled thermal buffer are arguments of
    `UpdateFrame`.
- **Exact arithmetic.** Temperatures and the FPS value are exact reals.

## Model

| member | source | states |
|---|---|---|
| FormatBlocks.Scan | optris_camera_debug_tool.py:47-102 | Step (one pass of the loop body) folded over the blocks: the parser's dictionary state stays well formed: each key is listed once, the listed keys are exactly the stored ones, and every record is filed under its own GUID |
| FormatBlocks.ScanRetiresExactly | optris_camera_debug_tool.py:54-70 | the retired-GUID set is exactly the GUIDs of deprecated blocks plus the `replaces` targets of non-deprecated blocks that have a GUID; blocks without a GUID retire nothing |
| FormatBlocks.ScanStoresExactly | optris_camera_debug_tool.py:54-102 | a GUID has a record exactly when some non-deprecated block carries it |
| FormatBlocks.ScanOrderIsFirstSeen | optris_camera_debug_tool.py:101-102 | dictionary keys are in order of first storage, each once |
| FormatBlocks.ScanLastWriteWins | optris_camera_debug_tool.py:101-102 | the record kept for a GUID is built from the last non-deprecated block carrying it |
| FormatBlocks.RetainedGuids | optris_camera_debug_tool.py:105 | Retained, the comprehension, keeps the dictionary's keys in order, minus the retired ones |
| FormatBlocks.RetainedMembers | optris_camera_debug_tool.py:105 | a record is kept exactly when its key is listed and not retired |
| FormatBlocks.CatalogGuidOrder | optris_camera_debug_tool.py:37-105 | Catalog (the list `parse_formats_file` leaves): its GUIDs are the first-seen order of stored GUIDs with every retired GUID removed, whatever the block order |
| FormatBlocks.CatalogGuidsUnique | optris_camera_debug_tool.py:101-105 | no two catalog entries share a GUID |
| FormatBlocks.CatalogMembership | optris_camera_debug_tool.py:37-105 | a format is in the catalog if and only if its GUID is never retired and it is the record of the last block storing that GUID |
| FormatBlocks.CatalogExcludesRetired | optris_camera_debug_tool.py:62-105 | no catalog entry has a deprecated or replaced GUID |
| CatalogExamples.ReplacementAfterBlock | optris_camera_debug_tool.py:67-70 | a format replaced by a later block is dropped |
| CatalogExamples.ReplacementBeforeBlock | optris_camera_debug_tool.py:67-70 | a format replaced by an earlier block is dropped too |
| CatalogExamples.DeprecatedBlockRetiresOnlyItself | optris_camera_debug_tool.py:62-64 | a deprecated block skips its `replaces` reference, so the format it names survives |
| CatalogExamples.DeprecationOutlivesLaterBlock | optris_camera_debug_tool.py:62-64 | a GUID once marked deprecated stays dropped even if a later plain block stores it |
| CatalogExamples.DuplicateGuidKeepsFirstPosition | optris_camera_debug_tool.py:101-102 | a repeated GUID keeps its first position but the later block's fields |
| CatalogExamples.ResolutionLookupPicksMatch | optris_camera_debug_tool.py:151-157 | a lookup at 640×480 returns only the format with that output size |
| Tokens.FirstToken | optris_camera_debug_tool.py:168-170 | `split()` yields no word exactly when the name is all whitespace; otherwise the word is non-empty, has no whitespace, follows only whitespace, and ends at whitespace or at the end of the name |
| FormatCatalog.ByResolutionMembers | optris_camera_debug_tool.py:151-157 | ByResolution: a format is in the lookup result if and only if it is in the catalog and its `Out =` width and height both equal the query; a format without `Out =` never matches |
| FormatCatalog.ByResolutionKeepsOrder | optris_camera_debug_tool.py:151-157 | lookup filters without reordering: it distributes over concatenation |
| FormatCatalog.GroupingFailsIffNameless | optris_camera_debug_tool.py:163-168 | GroupByModel: raises `KeyError` if and only if some format has no name |
| FormatCatalog.GroupingSpec | optris_camera_debug_tool.py:163-174 | GroupByModel: models are listed in first-seen order, the keys are exactly those models, and each group holds the formats of its model in catalog order |
| FormatCatalog.GroupingPartitions | optris_camera_debug_tool.py:163-174 | a format whose name has a first word lands in that word's group and in no other |
| FormatCatalog.FormatsDefParser.constructor | optris_camera_debug_tool.py:32-35 | after construction, `formats` is the retained catalog, or empty when parsing raised |
| FormatCatalog.FormatsDefParser.ParseFormatsFile | optris_camera_debug_tool.py:37-110 | the loop over blocks computes the retained catalog; a raised exception leaves `formats` unchanged |
| FormatCatalog.FormatsDefParser.GetFormatsByResolution | optris_camera_debug_tool.py:151-157 | returns the catalog formats at the query resolution, in catalog order |
| FormatCatalog.FormatsDefParser.GetAllFormats | optris_camera_debug_tool.py:159-161 | returns the whole catalog |
| FormatCatalog.FormatsDefParser.GetFormatsGroupedByModel | optris_camera_debug_tool.py:163-174 | the loop builds the grouping; it is `None` exactly when a nameless format raises, and otherwise groups exactly by model |
| CameraSession.FallbackSpec | optris_camera_debug_tool.py:277-285 | AvailableFormats: with an exact match, only matching formats are offered; without one, the whole catalog is offered; the offer is empty only for an empty catalog |
| CameraSession.CameraManager.constructor | optris_camera_debug_tool.py:179-183 | the library is not loaded, the parser holds the file's catalog, the format index is 0 and nothing is offered |
| CameraSession.CameraManager.InitCamera | optris_camera_debug_tool.py:241-297 | succeeds exactly when the library is or becomes loaded and the SDK init returns 0; reports the library's sizes and the serial, or 0 when the serial query fails; offers the formats chosen by the fallback rule; on failure the offered formats are unchanged |
| CameraSettings.PaletteId | optris_camera_debug_tool.py:327-329 | ids lie in 1..11 and an unlisted name gets the default id 6 |
| CameraSettings.PaletteIdsFollowListing | optris_camera_debug_tool.py:307-319 | the k-th listed palette has id k+1, so the 11 names have distinct ids |
| CameraSettings.DefaultIsIron | optris_camera_debug_tool.py:307-329 | id 6 is chosen exactly for "Iron" and for unlisted names |
| CameraSettings.AvailablePalettes | optris_camera_debug_tool.py:331-333 | lists exactly the table's names |
| CameraSettings.ShutterModeFor | optris_camera_debug_tool.py:695 | automatic mode (1) exactly for checkbox state 2, otherwise manual (0) |
| FrameStats.CenterIndexInBounds | optris_camera_debug_tool.py:1072 | CenterIndex: for a frame of at least 1×1 the centre index is below width×height |
| FrameStats.CenterIndexRowColumn | optris_camera_debug_tool.py:1072 | CenterIndex: the index addresses row height div 2, column width div 2 |
| FrameStats.CenterIndexExamples | optris_camera_debug_tool.py:1072 | 640×480 gives 153920, 641×481 gives 240·641+320, 1×1 gives 0 |
| FrameStats.CelsiusIsTenths | optris_camera_debug_tool.py:1074 | Celsius: equals raw − 1000 tenths of a degree; raw 1000 is 0 °C, raw 0 is −100 °C, and a 16-bit sample is at most 6453.5 °C |
| FrameStats.SumCelsiusLinear | optris_camera_debug_tool.py:1078-1079 | converting then summing equals summing then converting, once per sample |
| FrameStats.MeanIsCelsiusOfMeanRaw | optris_camera_debug_tool.py:1078-1079 | MeanCelsius: the mean temperature is the conversion of the mean raw sample |
| FrameStats.MeanWithinSampleRange | optris_camera_debug_tool.py:1078-1079 | the mean lies between the temperatures of the sample bounds |
| FrameStats.RunAppend | optris_camera_debug_tool.py:1061-1069 | running ticks over two stretches of time equals running them over the joined stretch |
| FrameStats.QuietWindowAccumulates | optris_camera_debug_tool.py:1061-1069 | Tick, folded as Run: within 0.5 s of the anchor, only the frame counter moves, by one per tick |
| FrameStats.WindowedRate | optris_camera_debug_tool.py:1061-1069 | Tick, folded as Run: the first tick past 0.5 s publishes the frames since the anchor divided by the elapsed time, resets the counter and moves the anchor |
| FrameStats.CounterDoesNotCarryOver | optris_camera_debug_tool.py:1061-1069 | after a recompute, the counter counts only frames of the new window |
| ThermalViewer.ThermalCameraApp.constructor | optris_camera_debug_tool.py:546-549 | the FPS counters start at 0 frames, 0 fps, anchored at the opening time |
| ThermalViewer.ThermalCameraApp.DetectCameraModel | optris_camera_debug_tool.py:601-612 | "Неизвестная модель" exactly when no format has the camera's resolution; `KeyError` exactly when the first match has no name; otherwise the first word of the first match, or "Неизвестная" when its name has no word |
| ThermalViewer.DetectedModelHasGroup | optris_camera_debug_tool.py:601-612 | the detected model word is a key of the by-model grouping, and the first match is in its group |
| ThermalViewer.ThermalCameraApp.UpdateFrame | optris_camera_debug_tool.py:1012-1110 | a non-zero status returns before any counter changes; a good frame advances the FPS window by one tick; the readout is the centre sample, its tenths of a degree and the frame's mean; an index past the buffer ends in the handler; a buffer of width×height samples gives a readout for every frame of at least 1×1 |

## Left out

- Library binding:
  - The ctypes binding of `libirimager.dll` (`init_library`) is left out.
  - The `evo_irimager_*` calls are left out: init, the size and serial queries, frame acquisition, palette setting, shutter setting, calibration trigger, terminate. The answers the model uses become parameters: `SdkAnswers` for `init_camera`, and the status and thermal buffer for `UpdateFrame`.
  - `deinit_camera` is not modelled. It has no guard against a second call, so nothing is claimed about closing twice.
  - `PaletteManager.set_palette` is not modelled: it is the palette-id lookup plus a foreign call.
  - `toggle_auto_calib`'s library guard is not modelled.
- CameraSession.CameraManager.InitCamera: one flag stands for "the library is loaded". Suppose the DLL loads but a later prototype assignment in `init_library` raises. The source then keeps the handle and skips loading on the next call; the model does not capture that partial state.
- Format file parsing:
  - Reading `Formats.def` and the regular expressions that cut blocks and fields are left out.
  - A block's fields arrive already extracted.
  - The frame rates on `Out =` and `DeviceRes =` lines are dropped: nothing in the core reads them.
- `get_filtered_formats_info` re-reads the file for debugging and only counts blocks; it is not part of this model.
- Floating point:
  - `np.mean` over float32 samples is modelled as the exact rational mean.
  - The FPS quotient is modelled as the exact rational `frames * 1000 / elapsed_ms`.
  - Rounding and display formatting are not modelled.
- FrameStats.MeanWithinSampleRange: bounds come from the caller. The 16-bit range of the thermal buffer is not built into the sample type.
- The Qt user interface is left out: widgets, labels, `update_available_formats`, `on_format_changed`, pixmap scaling and the BGR to RGB conversion.
- The palette-image reshape in `update_frame` is left out.
- The frame metadata labels are left out.
- Snapshots, PNG speed tests and video recording are left out: they are file and codec glue around opaque libraries.
- `load_xml_template` is left out.
- QTimer scheduling and `closeEvent` ordering are left out.
- `ThermalCameraApp.init_camera` is not modelled as a unit. Its parts are: `InitCamera`, the `ThermalCameraApp` constructor's thermal size, and `DetectCameraModel`. The buffer allocation and the foreign calls it makes are not modelled.
