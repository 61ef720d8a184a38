# Cross-platform camera control, modelled in Dafny

This project models the core of a cross-platform camera-control library and its
`v4l2-ctl`-like command-line tool. The library lists video devices, their video
formats (resolution, frame rate, FOURCC pixel format) and their controls
(brightness, exposure, pan, …), and it sets control values. It has four backends:

- Linux V4L2, which drives `ioctl` calls on packed little-endian structures;
- OpenCV, used as a fallback;
- Windows DirectShow/WMI;
- macOS AVFoundation.

On top of the backends it adds:

- a per-platform facade (`create_controller`);
- a manager for advanced controls, with validation, auto modes and profiles;
- a TTL-based LRU cache with hit/miss accounting;
- an error handler that keeps a bounded history and computes statistics.

Each source file has its own module:

| module | models |
|---|---|
| `V4L2` | `linux_v4l2.py` |
| `OpenCV` | `opencv_fallback.py` |
| `DirectShow` | `windows_directshow.py` |
| `AVFoundation` | `macos_avfoundation.py` |
| `Controllers` | `video_device_controller.py` |
| `Cli` | `v4l2_ctl_cross.py` |
| `Advanced` | `advanced_controls.py` |
| `Lru` and `Optimizer` | `performance_optimizer.py` |
| `Errors` | `error_handling.py` |

Shared vocabulary lives in helper modules:

- `Records`: the three result records and Python's `int(float)`;
- `Bytes`: 32-bit little-endian packing, the `struct` formats `<I` and `<i`;
- `Fourcc`: the three FOURCC-to-text conversions;
- `Text`: `str` operations, `int(str)` and `str(int)`;
- `Sorting`: `list.sort()` on strings;
- `Enumeration`: the "probe index 0, 1, 2, … until the call fails" loops, filtering and collecting;
- `Wrappers`: `Option` and `Result`.

How the outside world enters the model:

- Every operating-system or library call is a function-typed parameter (an oracle):
  - the `ioctl` on an open file descriptor (`V4L2.Ioctl`) and `os.open` (`V4L2.Opener`);
  - the `cv2.VideoCapture` object (`OpenCV.Capture`);
  - the WMI query and the DirectShow interfaces;
  - the AVFoundation device objects;
  - the backend a manager talks to (`Advanced.Backend`).
- An exception from such a call is a `None` (or a `raised` or `readable` flag) in the oracle's answer. The model follows where the source catches it:
  - a `try` around one item of a loop skips that item (the OpenCV control table, `OpenCV.ReadEntries`);
  - a `try` around a whole loop keeps what the loop built before the failure (AVFoundation's device listing, `AVFoundation.ListDevices`, and its format listing, `AVFoundation.GetVideoFormats`);
  - a `try` around a whole operation answers its failure value (the AVFoundation setter answers False when the maximum zoom factor cannot be read, `AVFoundation.SetDeviceControl`);
  - where nothing catches it, the model has the call answer (the OpenCV device and format listings read finite values).
- Stateful objects are pure state machines. Each operation takes the old state and returns the new one with its result:
  - the AVFoundation device cache;
  - the advanced-control manager;
  - the LRU caches;
  - the optimizer's counters;
  - the error handler.
  The advanced-control manager also returns the list of backend calls it made, in order.
- `time.time()` is a `now: real` parameter.
- Python's `while True` probing loops become a bounded enumeration over a `fuel: nat` parameter.

Each backend's behaviour is stated against a partner:

- **Round trips** for every `struct` layout the V4L2 backend reads (`DecodeEncodeCapability`, …).
- **Iff lemmas** that tie every listed device, format or control to the oracle answers that produced it, in both directions.
- **State invariants**:
  - the LRU cache's order list and entry map always hold the same keys, without duplicates, within capacity;
  - every call keeps the error history within 1000 entries.
- **Composition lemmas**: a set followed by a get, invalidation followed by a miss, profile creation followed by profile application.

## Model

| member | source | states |
|---|---|---|
| Bytes.U32At | linux_v4l2.py:295-296 | reading `<I` at an offset gives an unsigned 32-bit value |
| Bytes.ToSigned32 | linux_v4l2.py:451-454 | reinterpreting an unsigned word as `<i` gives the congruent value in the signed 32-bit range; it is negative exactly when the top bit is set |
| Bytes.DecodeEncodeU32 | linux_v4l2.py:295-296 | unpacking a packed `<I` word gives the value back |
| Bytes.EncodeDecodeU32 | linux_v4l2.py:295-296 | packing an unpacked word gives the original four bytes back |
| Bytes.DecodeEncodeI32 | linux_v4l2.py:484 | unpacking a packed `<i` word gives the signed value back |
| Bytes.PutU32 | linux_v4l2.py:317-318 | `pack_into('<I')` writes a word that reads back, and leaves every other byte alone |
| Bytes.PutI32 | linux_v4l2.py:497-498 | `pack_into('<i')` writes a signed word that reads back, and leaves every other byte alone |
| Bytes.StripPadded | linux_v4l2.py:292-294 | stripping the NUL padding of a fixed-width text field gives back any text that does not end in NUL |
| Fourcc.LinuxText | linux_v4l2.py:508-520 | a FOURCC is shown as its four bytes, low byte first; non-printable bytes become `?` |
| Fourcc.MacText | macos_avfoundation.py:255-267 | the macOS FOURCC text takes the bytes high byte first; non-printable bytes become `?` |
| Fourcc.OpenCVText | opencv_fallback.py:450-455 | the OpenCV FOURCC text is the four bytes, low byte first, as characters |
| Fourcc.MacIsReversedLinux | macos_avfoundation.py:255-267 | the macOS text is the Linux text reversed |
| Fourcc.LinuxTextOfCode | linux_v4l2.py:508-520 | a printable four-character code survives a round trip through its numeric code |
| Fourcc.CodeOfLinuxText | linux_v4l2.py:508-520 | a printable 32-bit code survives a round trip through its text |
| Fourcc.YuyvText | linux_v4l2.py:508-520 | the YUYV pixel format code prints as `YUYV` |
| Fourcc.OpenCVAgreesWhenPrintable | opencv_fallback.py:450-455 | for printable codes the OpenCV text and the Linux text agree |
| Records.Truncate | opencv_fallback.py:95-96 | `int(x)` on a float rounds toward zero |
| Records.TruncateBetween | opencv_fallback.py:277-280 | truncating a float that lies between two integers stays between them |
| Text.ParseIntToString | v4l2_ctl_cross.py:26 | `int(str(i)) == i` for every integer |
| Text.Split | v4l2_ctl_cross.py:199 | `str.split(",")` gives pieces without the separator that join back to the input |
| Text.RightAlign | v4l2_ctl_cross.py:103 | `f"{name:>25}"` pads on the left to width 25 and keeps the name as a suffix |
| Sorting.Sort | linux_v4l2.py:99-100 | `sort()` on device paths gives a sorted permutation of the input |
| V4L2.Call | linux_v4l2.py:289 | an `ioctl` succeeds only if the driver answers with a buffer of the request's size |
| V4L2.FieldBytes | linux_v4l2.py:292-294 | a fixed-width text field decodes back to the text it was packed from |
| V4L2.QueryCapability | linux_v4l2.py:282-308 | `VIDIOC_QUERYCAP` yields a capability exactly when the call succeeds; version and capabilities are unsigned 32-bit |
| V4L2.DecodeEncodeCapability | linux_v4l2.py:286-296 | decoding the 104-byte `v4l2_capability` layout inverts encoding it: driver at 0, card at 16, bus at 48, version at 80, capabilities at 84 |
| V4L2.FormatRequest | linux_v4l2.py:316-318 | the `VIDIOC_ENUM_FMT` request carries the index at offset 0 and buffer type 1 (video capture) at offset 4 |
| V4L2.EnumFormat | linux_v4l2.py:310-336 | a format description exists exactly when the index fits 32 bits and the call succeeds; it carries the requested index |
| V4L2.DecodeEncodeFormatDesc | linux_v4l2.py:324-326 | decoding the 64-byte `v4l2_fmtdesc` layout inverts encoding it |
| V4L2.SizeRequest | linux_v4l2.py:350-351 | the `VIDIOC_ENUM_FRAMESIZES` request carries the index and the pixel format |
| V4L2.DecodeEncodeFrameSize | linux_v4l2.py:357-369 | decoding a frame-size answer inverts encoding it, for discrete, stepwise and other kinds |
| V4L2.StepwiseWords | linux_v4l2.py:363-369 | a stepwise answer carries type 2 and its six bounds at offsets 12–32 |
| V4L2.StepwiseSizes | linux_v4l2.py:372-376 | a stepwise range lists exactly the common sizes inside the bounds, in their fixed ascending order |
| V4L2.SizesOf | linux_v4l2.py:359-376 | a discrete answer contributes its own size; a stepwise answer contributes only common sizes; other kinds contribute nothing |
| V4L2.FrameSizes | linux_v4l2.py:338-390 | the listed sizes are the answers up to the first failed call, or 640x480 when there are none |
| V4L2.FrameSizesAreReported | linux_v4l2.py:338-390 | every listed size is the default or comes from a successful probe at some index |
| V4L2.IntervalRequest | linux_v4l2.py:404-407 | the `VIDIOC_ENUM_FRAMEINTERVALS` request carries index, pixel format, width and height |
| V4L2.DecodeEncodeFrameInterval | linux_v4l2.py:413-417 | decoding a frame-interval answer inverts encoding it |
| V4L2.IntervalStep | linux_v4l2.py:410-425 | every rate one probe contributes is positive |
| V4L2.PositiveRate | linux_v4l2.py:418-420 | the rate of a discrete interval is denominator over numerator |
| V4L2.FrameRates | linux_v4l2.py:392-434 | the listed rates are the answers up to the first failed call, or 30.0 when there are none; all are positive |
| V4L2.IntervalRates | linux_v4l2.py:413-425 | a 1/30 interval lists 30.0; a zero numerator ends the enumeration, because the guard checks the denominator but the code divides by the numerator |
| V4L2.FormatsAtSize | linux_v4l2.py:156-167 | one format per frame rate of a size, with that size, rate and the Linux FOURCC text |
| V4L2.FormatsOfSizesBlocks | linux_v4l2.py:154-167 | the formats of a size list are the formats of each size in turn, size-major: all rates of the first size, then all of the next |
| V4L2.FormatFromSize | linux_v4l2.py:154-167 | every format built from a size list has a listed size, the descriptor's FOURCC and a rate listed for that size |
| V4L2.SizeRateListed | linux_v4l2.py:154-167 | conversely, every listed size paired with every rate listed for it gives a format |
| V4L2.FormatCount | linux_v4l2.py:143-172 | the format loop stops at the first index whose `VIDIOC_ENUM_FMT` fails, or after `fuel` indices; every index before it answers |
| V4L2.GetVideoFormats | linux_v4l2.py:131-179 | an unopenable device has no formats; otherwise the formats of each descriptor up to the first failed `VIDIOC_ENUM_FMT`, in descriptor order |
| V4L2.FormatsComeFromDriver | linux_v4l2.py:131-179 | every listed format comes from a descriptor the driver returned, and from a size and a rate listed for it |
| V4L2.ReachedFormatsListed | linux_v4l2.py:143-172 | every descriptor the loop reaches, with every size and rate listed for it, gives a format |
| V4L2.ReachedIndexCounted | linux_v4l2.py:143-172 | a descriptor index the loop reaches is counted |
| V4L2.DriverFormatsListed | linux_v4l2.py:131-179 | conversely to `FormatsComeFromDriver`, every reached descriptor, size and rate of an openable device is listed |
| V4L2.CatalogInSetMapping | linux_v4l2.py:193-209 | every control the listing reports can be set by its own name and control id |
| V4L2.SetMappingInCatalog | linux_v4l2.py:249-265 | every settable name is in the listing catalogue |
| V4L2.CatalogIdsDistinct | linux_v4l2.py:193-209 | the catalogue's control ids are distinct 32-bit values |
| V4L2.CatalogNamesDistinct | linux_v4l2.py:193-209 | the catalogue's control names are distinct |
| V4L2.ControlRequest | linux_v4l2.py:440-443 | a control request carries the control id at offset 0 |
| V4L2.QueryControl | linux_v4l2.py:436-469 | `VIDIOC_QUERYCTRL` yields a description exactly when the call succeeds; the bounds are signed 32-bit |
| V4L2.DecodeEncodeControlQuery | linux_v4l2.py:449-455 | decoding the 68-byte `v4l2_queryctrl` layout inverts encoding it |
| V4L2.GetControlValue | linux_v4l2.py:471-488 | `VIDIOC_G_CTRL` yields the signed value at offset 4 exactly when the call succeeds |
| V4L2.SetRequest | linux_v4l2.py:493-497 | a set request carries the control id and the signed value |
| V4L2.SetControlValue | linux_v4l2.py:490-506 | setting succeeds exactly when id and value fit their fields and `VIDIOC_S_CTRL` succeeds |
| V4L2.ControlOf | linux_v4l2.py:211-230 | a control is reported exactly when both the query and the read succeed; it is boolean-typed exactly when it supports auto mode |
| V4L2.GetDeviceControls | linux_v4l2.py:181-237 | an unopenable device has no controls; otherwise the catalogue entries that answer, in catalogue order |
| V4L2.ReportedIffQueried | linux_v4l2.py:211-230 | a catalogue control is listed if and only if both its query and its read succeed |
| V4L2.SetDeviceControl | linux_v4l2.py:239-280 | setting succeeds only on an openable device and a known lower-cased name, and then it is the driver's answer for the mapped id |
| V4L2.SetIgnoresCase | linux_v4l2.py:267-270 | for every name, setting it gives the same answer as setting its lower-cased form (ASCII case folding) |
| V4L2.DevicesFromSound | linux_v4l2.py:102-124 | every listed device names its path, its card and its driver as the capability query reported them |
| V4L2.DevicesFromAscending | linux_v4l2.py:102-124 | listed devices come in increasing index order |
| V4L2.DevicesFromComplete | linux_v4l2.py:102-124 | every path that opens and answers the capability query is listed |
| V4L2.ListDevices | linux_v4l2.py:93-129 | a path in the sorted `/dev/video*` list is listed, under its own index, if and only if it opens and answers |
| OpenCV.DeviceName | opencv_fallback.py:42-50 | the device name begins `Video Device <i>` |
| OpenCV.DeviceAt | opencv_fallback.py:34-57 | index i is a device exactly when the capture opens, with path `/dev/video<i>` |
| OpenCV.ListDevices | opencv_fallback.py:26-61 | no OpenCV means no devices; otherwise the indices 0–9 that open, in order |
| OpenCV.ListedIffOpens | opencv_fallback.py:34-57 | an index below 10 is listed if and only if its capture opens |
| OpenCV.ListedDevicesShape | opencv_fallback.py:34-57 | every listed device has an index below 10, opens, and carries the expected path and name |
| OpenCV.RateOf | opencv_fallback.py:100-102 | a non-positive frame rate becomes 30.0; a positive one is kept |
| OpenCV.PixelFormatOf | opencv_fallback.py:105-106 | a positive FOURCC is shown as text; otherwise `UNKNOWN` |
| OpenCV.FormatAt | opencv_fallback.py:89-114 | a resolution is listed exactly when the camera accepts it: width and height read back after truncation |
| OpenCV.GetVideoFormats | opencv_fallback.py:63-117 | no OpenCV or an unopened camera gives no formats; at most one per candidate resolution |
| OpenCV.ListedIffAccepted | opencv_fallback.py:89-114 | a format is listed if and only if the camera accepts one of the candidate resolutions and reports it |
| OpenCV.ListedFormatShape | opencv_fallback.py:89-114 | every listed format has a candidate resolution that the camera accepts, and a positive rate |
| OpenCV.Remap | opencv_fallback.py:268-282 | -1 means the table default; a fraction in [0, 1] is scaled into the control's range, except for hue and exposure; otherwise the value is truncated |
| OpenCV.ReadEntries | opencv_fallback.py:264-299 | a table entry is listed with its remapped reading exactly when its reading succeeds; a failed reading skips the entry |
| OpenCV.OpenedControls | opencv_fallback.py:141-327 | an opened camera lists the readable table entries, then the five camera controls, then the two auto controls |
| OpenCV.TableNamesDistinct | opencv_fallback.py:141-199 | no two table entries share a name |
| OpenCV.TableEntryListedIffReadable | opencv_fallback.py:264-299 | a table entry's name is listed ahead of the fixed controls if and only if its property can be read |
| OpenCV.AllReadableListsWholeTable | opencv_fallback.py:264-299 | when every property can be read, the whole table is listed in table order |
| OpenCV.OpenedControlsShape | opencv_fallback.py:264-327 | only the last two controls support auto mode |
| OpenCV.UnknownReadingShowsDefault | opencv_fallback.py:268-282 | a property read as -1 is listed with the entry's default as its value |
| OpenCV.SimulatedControl | opencv_fallback.py:332-402 | a simulated control carries its row's name, and it supports auto mode exactly when it is one of the auto rows |
| OpenCV.SimulatedControls | opencv_fallback.py:332-402 | the simulated list has one control per row, in order |
| OpenCV.SimulatedWellFormed | opencv_fallback.py:332-402 | every simulated control has step 1 and flags 0, with default and current value within its range |
| OpenCV.ManualNames | opencv_fallback.py:337-368 | no manual row's name ends in `_automatic` |
| OpenCV.SimulatedAutoIffSuffix | opencv_fallback.py:332-402 | there are 15 simulated controls, and one supports auto mode if and only if its name ends in `_automatic` |
| OpenCV.GetDeviceControls | opencv_fallback.py:119-330 | no OpenCV gives nothing; an index outside 0–9 or an unopened camera gives the simulated list; an opened camera gives its live list |
| OpenCV.Normalize | opencv_fallback.py:435-438 | a value up to 100 is divided by 100; a larger value is passed on unchanged |
| OpenCV.SetDeviceControl | opencv_fallback.py:404-448 | setting succeeds only for an opened camera and a known lower-cased name, and then it is the camera's answer to the normalised value |
| OpenCV.ListedButNotSettable | opencv_fallback.py:414-426 | pan, tilt, roll, zoom, focus and whitebalance are listed but can never be set |
| DirectShow.FallbackDevices | windows_directshow.py:57-74 | the fallback probe lists at most five devices |
| DirectShow.ListDevices | windows_directshow.py:35-76 | the WMI entities whose names mention camera, webcam or video come first, in order, numbered from 0; the fallback is appended only when WMI raises |
| DirectShow.ListedEntities | windows_directshow.py:45-55 | each of the first listed devices is a video entity, with its own index and its pseudo-path as description |
| DirectShow.FallbackIffOpens | windows_directshow.py:63-72 | in the fallback, an index below 5 is listed if and only if its capture opens |
| DirectShow.GetDeviceFilter | windows_directshow.py:177-203 | a filter is found only at an existing index of the enumerated monikers |
| DirectShow.ParseVideoFormat | windows_directshow.py:205-218 | every media type parses as 640x480 at 30.0 with pixel format `UNKNOWN` |
| DirectShow.GetVideoFormats | windows_directshow.py:78-123 | a device without a filter has no formats |
| DirectShow.FormatsAreFixed | windows_directshow.py:78-123 | every listed format is the fixed placeholder, and there are at most as many as stream capabilities |
| DirectShow.ControlAt | windows_directshow.py:238-258 | a control is reported exactly when both GetRange and Get succeed; it supports auto mode exactly when the auto flag bit is set |
| DirectShow.InterfaceControls | windows_directshow.py:220-260 | a missing interface gives no controls; at most one per catalogue entry |
| DirectShow.GetDeviceControls | windows_directshow.py:125-155 | a device without a filter has no controls; at most one per catalogue entry |
| DirectShow.ReportedIffQueried | windows_directshow.py:238-258 | every answering catalogue control is listed, and every listed control comes from an answering catalogue entry |
| DirectShow.SetProcAmpControl | windows_directshow.py:301-304 | setting a video-processing control always fails |
| DirectShow.SetCameraControl | windows_directshow.py:306-309 | setting a camera control always fails |
| DirectShow.SetDeviceControl | windows_directshow.py:157-175 | setting any control always fails |
| AVFoundation.ListDevices | macos_avfoundation.py:41-75 | one device per discovered camera, numbered in order, with its name, unique id and manufacturer, up to the first camera whose description raises; the cache is set only when every camera was described |
| AVFoundation.EnsureCache | macos_avfoundation.py:86-87 | the device list is discovered only when it is not cached yet, and cached only when the listing completed |
| AVFoundation.DeviceAt | macos_avfoundation.py:89-92 | a device index follows Python list indexing, negative indices included |
| AVFoundation.RatesIn | macos_avfoundation.py:123-125 | a rate range lists exactly the common rates (15, 24, 30, 60) inside it, ascending |
| AVFoundation.RangeFormats | macos_avfoundation.py:118-132 | one format per listed rate, with the format's size and macOS FOURCC text |
| AVFoundation.ReadRanges | macos_avfoundation.py:116-120 | the rate ranges read are those before the first range whose rates raise |
| AVFoundation.FormatsEntered | macos_avfoundation.py:97-135 | the loop enters a format exactly when no earlier format raised |
| AVFoundation.GetVideoFormats | macos_avfoundation.py:77-137 | no selected device, or a format list that raises, means no formats; otherwise the formats of each video format's rate ranges, in format and range order, up to the first accessor that raises, keeping what was built before it; the cache is filled first |
| AVFoundation.FormatsFromRanges | macos_avfoundation.py:84-135 | every listed format comes from a video format the loop reached before any format raised, and from a common rate inside one of its ranges read before any range raised |
| AVFoundation.RateListedIffInRange | macos_avfoundation.py:118-132 | a common rate is listed for a range if and only if it lies in the range |
| AVFoundation.RangeRatesListed | macos_avfoundation.py:84-135 | conversely to `FormatsFromRanges`, every common rate inside a range read before any range raised, of a describable video format reached before any format raised, is listed |
| AVFoundation.CurrentValue | macos_avfoundation.py:179-185 | a missing getter reads 0, a failing getter reads 50, otherwise the reading times 100, truncated |
| AVFoundation.ControlAt | macos_avfoundation.py:157-197 | a control is reported exactly when the device supports it |
| AVFoundation.GetDeviceControls | macos_avfoundation.py:139-206 | no selected device means no controls; otherwise the known names the device supports, in the fixed name order |
| AVFoundation.ControlsHaveFixedShape | macos_avfoundation.py:187-197 | every listed control has range 0–100, step 1, default 50, and supports auto mode |
| AVFoundation.ReportedIffSupported | macos_avfoundation.py:157-197 | a known control is listed if and only if the device supports it, with the value its getter gives |
| AVFoundation.CheckedIffSupported | macos_avfoundation.py:157-197 | for any name list, a name is collected if and only if the device supports it |
| AVFoundation.SetArgument | macos_avfoundation.py:229-243 | the setter receives the value over 100; for zoom, 0 maps to 1.0 and 100 to the format's maximum zoom, and there is no argument exactly when that maximum cannot be read |
| AVFoundation.ZoomWithinRange | macos_avfoundation.py:240-242 | a value from 0 to 100 gives a zoom factor from 1.0 to the maximum zoom |
| AVFoundation.SetDeviceControl | macos_avfoundation.py:208-253 | setting succeeds exactly when the device exists, the configuration lock is obtained, the name is settable, the device has its setter, a zoom's maximum factor can be read, and the setter returns for the converted value |
| AVFoundation.SetGuards | macos_avfoundation.py:218-244 | an index past the device list or an unsettable name always fails |
| Controllers.WindowsListDevices | video_device_controller.py:97-107 | the DirectShow list is used when it is not empty; otherwise the OpenCV list, if there is one |
| Controllers.LinuxListDevices | video_device_controller.py:150-169 | at most one device per `/dev/video*` path |
| Controllers.LinuxListedIffOpens | video_device_controller.py:150-169 | a sorted path is listed under its index if and only if it opens; the name is `Video Device <i>` |
| Controllers.ListDevices | video_device_controller.py:97-107 | the Windows controller lists through DirectShow then OpenCV, the Linux one through `/dev/video*`, and the macOS one lists nothing (video_device_controller.py:203-206) |
| Controllers.GetFormats | video_device_controller.py:109-113 | only the Windows controller with OpenCV answers, with OpenCV's formats |
| Controllers.GetControls | video_device_controller.py:115-119 | only the Windows controller with OpenCV answers, with OpenCV's controls |
| Controllers.SetControl | video_device_controller.py:121-125 | only the Windows controller with OpenCV can set, through OpenCV |
| Controllers.FindControl | video_device_controller.py:127-133 | the value is that of the first control with the name, or none when no control has it |
| Controllers.GetControl | video_device_controller.py:127-133 | the Windows controller looks the name up in its controls; the Linux and macOS stubs answer none |
| Controllers.CreateController | video_device_controller.py:229-240 | Windows always gets a controller; Linux and macOS get one only when their modules import; any other system is not supported |
| Cli.ParseDevicePath | v4l2_ctl_cross.py:22-33 | a `/dev/video` path is read as the integer left once the prefix is removed, anything else as an integer, and 0 when that is not an integer; `DevicePathRoundTrip` and `BareIndexRoundTrip` give every index back |
| Cli.DevicePathRoundTrip | v4l2_ctl_cross.py:22-33 | parsing `/dev/video<i>` gives i back |
| Cli.BareIndexRoundTrip | v4l2_ctl_cross.py:30-33 | parsing a bare index gives it back |
| Cli.ParseControlSetting | v4l2_ctl_cross.py:36-47 | a setting without `=` is rejected; otherwise the stripped name before the first `=` and the integer after it, or a bad-value error carrying the unstripped text |
| Cli.SettingRoundTrip | v4l2_ctl_cross.py:36-47 | `name=value` parses back to the name and value |
| Cli.ReportOf | v4l2_ctl_cross.py:199-205 | a piece is reported malformed exactly when it does not parse; otherwise the controller's answer is reported |
| Cli.SetControls | v4l2_ctl_cross.py:199-205 | one report per comma-separated piece, in order |
| Cli.SingleSetting | v4l2_ctl_cross.py:199-205 | a single `name=value` argument sets exactly that control |
| Cli.Groups | v4l2_ctl_cross.py:84-92 | camera controls and user controls partition the list |
| Cli.TypeTag | v4l2_ctl_cross.py:100 | the tag is `(bool)` exactly for names ending in `_automatic` |
| Cli.LineHead | v4l2_ctl_cross.py:103-104 | a line starts with the right-aligned name and the type tag |
| Cli.ControlLine | v4l2_ctl_cross.py:103-106 | a control line begins with the right-aligned name followed by the type tag |
| Cli.Lines | v4l2_ctl_cross.py:97-106 | one line per control, in order |
| Cli.InSection | v4l2_ctl_cross.py:95-122 | a header appears in a section exactly when the group is not empty |
| Cli.ListControls | v4l2_ctl_cross.py:76-122 | no controls gives the single "no controls" message; otherwise one line per control plus the headers of the non-empty groups |
| Cli.ListingControlLines | v4l2_ctl_cross.py:84-122 | the listing's control lines are the user controls' lines, then the camera controls' lines, each group in input order |
| Cli.UserHeaderIffUserControl | v4l2_ctl_cross.py:95-106 | the "User Controls" header appears if and only if there is a user control |
| Cli.CameraHeaderIffCameraControl | v4l2_ctl_cross.py:109-122 | the "Camera Controls" header appears if and only if there is a camera control |
| Cli.ChooseAction | v4l2_ctl_cross.py:160-211 | help wins; otherwise a failed `create_controller` exits with status 1; then device listing, formats, controls and setting, in that order; otherwise the tool asks for an action |
| Advanced.Lookup | advanced_controls.py:221-224 | a name is found exactly when it is registered, and the found entry carries it |
| Advanced.Refresh | advanced_controls.py:198-215 | refreshing copies the live range, step, default and value from the first listed control of the same name, and changes nothing else |
| Advanced.RefreshIdempotent | advanced_controls.py:198-215 | refreshing twice is refreshing once |
| Advanced.GetAvailableControls | advanced_controls.py:194-217 | the available controls are exactly the registered ones the device lists, refreshed; one fetch is made |
| Advanced.AvailableInRegistryOrder | advanced_controls.py:194-217 | available controls keep the registry's order |
| Advanced.GetAvailableIdempotent | advanced_controls.py:194-217 | asking twice gives the same answer and the same manager |
| Advanced.AvailableNames | advanced_controls.py:194-217 | a name is available if and only if it is registered and the device lists it |
| Advanced.PythonInt | advanced_controls.py:240 | `int()` gives 1 or 0 for a bool, the int itself, a float truncated toward zero, a string's parsed value, and raises for None |
| Advanced.Coerce | advanced_controls.py:235-240 | booleans become 1 or 0 by truthiness; a menu int is sent unchanged and anything else as 0; range and action values are `int(value)`; a validated range value stays within its bounds |
| Advanced.CheckDependencies | advanced_controls.py:361-374 | the check passes exactly when every dependency is registered and listed; no dependencies means no fetch |
| Advanced.SetControlWithValidation | advanced_controls.py:219-242 | an unknown name, an invalid value or an unmet dependency fails without touching the device, and registry definitions never change |
| Advanced.SetDispatches | advanced_controls.py:235-242 | an admitted value is coerced and sent as the last call, and the device's answer is the result |
| Advanced.EnableAutoMode | advanced_controls.py:244-260 | the manager writes `<name>_automatic = 1` only for a registered control that supports auto mode, and records the mode only on success |
| Advanced.DisableAutoMode | advanced_controls.py:262-274 | the manager writes `<name>_automatic = 0` for any registered control, and records the mode only on success |
| Advanced.EnableThenDisable | advanced_controls.py:244-274 | enabling then disabling leaves the mode off, other modes untouched, and the registry unchanged |
| Advanced.AutoAdjustExposure | advanced_controls.py:318-328 | success means `exposure_automatic` was set to 1 and the exposure mode is on |
| Advanced.AutoAdjustWhiteBalance | advanced_controls.py:330-340 | success means `white_balance_automatic` was set to 1 and the white-balance mode is on |
| Advanced.AutoAdjustAnswers | advanced_controls.py:318-340 | when the control supports auto mode, the result is the device's answer |
| Advanced.AutoAdjustOnInitial | advanced_controls.py:318-340 | on a fresh manager both auto adjustments are the device's answer, and hue's auto mode is refused without a call |
| Advanced.Snapshot | advanced_controls.py:282-286 | a profile holds each available control's name, current value and recorded auto mode |
| Advanced.SnapshotOfAvailable | advanced_controls.py:276-293 | every profile entry is registered, listed and has a value |
| Advanced.CreateControlProfile | advanced_controls.py:276-293 | creating a profile always succeeds and stores the snapshot of the available controls, with their recorded auto modes, under its name; other profiles are left alone |
| Advanced.ApplyEntries | advanced_controls.py:303-312 | applying entries that all have values succeeds, and registry definitions never change |
| Advanced.ApplyFirstCall | advanced_controls.py:303-308 | the first call restores the first entry's auto mode |
| Advanced.ApplyKeepsOtherModes | advanced_controls.py:303-312 | applying a profile leaves the auto modes of controls it does not mention unchanged |
| Advanced.LookupStatics | advanced_controls.py:221-224 | registries that differ only in live fields find the same entries |
| Advanced.ApplyTrace | advanced_controls.py:303-312 | the whole call trace of applying a profile: per entry in order, `<name>_automatic = 1` for an auto entry that supports it, else `<name>_automatic = 0` for a registered manual entry followed by its set; the trace stops early exactly when the answer is False |
| Advanced.ApplyHead | advanced_controls.py:303-312 | with its switch accepted, the first entry's auto mode is recorded as the profile has it |
| Advanced.ApplyRecordsModes | advanced_controls.py:303-312 | when every switch is accepted, applying a profile records each entry's auto mode as the profile has it |
| Advanced.SwitchKeepsModesSupported | advanced_controls.py:244-274 | only controls that support auto mode are ever recorded as in auto mode |
| Advanced.CreateThenApplyRestoresModes | advanced_controls.py:276-316 | saving a profile and applying it straight back restores every saved control's auto mode |
| Advanced.ApplyControlProfile | advanced_controls.py:295-316 | an unknown profile fails without calls; otherwise its entries are applied |
| Advanced.CreateThenApply | advanced_controls.py:276-316 | a profile just created always applies successfully |
| Advanced.InitialWellFormed | advanced_controls.py:34-192 | the built-in registry names each control once, and no auto mode is recorded at construction |
| Advanced.StaticsKeepWellFormed | advanced_controls.py:194-240 | refreshing live fields without touching the modes keeps the registry's names distinct and the recorded auto modes supported |
| Advanced.ApplyKeepsWellFormed | advanced_controls.py:295-316 | applying any profile entries keeps the manager well formed |
| Advanced.OperationsKeepWellFormed | advanced_controls.py:194-316 | every manager operation keeps it well formed, so `CreateThenApplyRestoresModes` applies to every reachable manager |
| Advanced.RegistryDefinitionsKept | advanced_controls.py:194-316 | no operation changes a registered control's name, type, description, menu, auto support or dependencies |
| Lru.Empty | performance_optimizer.py:29-35 | a new cache is empty and well formed |
| Lru.IndexOf | performance_optimizer.py:89-93 | `list.index` finds the first occurrence |
| Lru.RemoveFirst | performance_optimizer.py:83-93 | `list.remove` deletes the first occurrence and keeps everything else |
| Lru.MoveToEnd | performance_optimizer.py:89-93 | moving a key to the end keeps the same keys |
| Lru.MoveToEndKeepsOthersInOrder | performance_optimizer.py:89-93 | moving a key to the end keeps the other keys in their order, without duplicates |
| Lru.Remove | performance_optimizer.py:83-87 | removing a key drops it from the map and the order and keeps every other entry |
| Lru.RemoveValid | performance_optimizer.py:83-87 | removing keeps the map and the order in step, and shrinks the cache by one when the key was present |
| Lru.EvictLru | performance_optimizer.py:95-99 | eviction removes the least recently used key, if any |
| Lru.Clear | performance_optimizer.py:77-81 | clearing empties the cache and keeps its settings |
| Lru.Get | performance_optimizer.py:37-55 | a missing key misses; an expired key is removed and misses; a live key hits, counts the access and becomes most recent |
| Lru.EffectiveTtl | performance_optimizer.py:61 | a missing or zero TTL falls back to the default |
| Lru.Set | performance_optimizer.py:57-75 | the key then holds the new value and timestamp; an existing key keeps its access count and becomes most recent; a new key may evict the oldest first |
| Lru.EvictIfFull | performance_optimizer.py:71-72 | a full cache evicts before inserting a new key |
| Lru.GetValid | performance_optimizer.py:37-55 | a get keeps the cache well formed and within capacity |
| Lru.SetValid | performance_optimizer.py:57-75 | a set keeps the cache well formed and within capacity |
| Lru.SetEvictsOldest | performance_optimizer.py:71-75 | inserting into a full cache drops exactly the oldest key |
| Lru.SetThenGet | performance_optimizer.py:37-75 | a get after a set returns the value unless its TTL has passed |
| Lru.SetLeavesOthers | performance_optimizer.py:57-75 | a set does not change what other surviving keys return |
| Lru.RemoveThenGet | performance_optimizer.py:37-55 | a removed key misses, and removing twice is removing once |
| Optimizer.Initial | performance_optimizer.py:105-120 | the device, format and control caches hold 32, 64 and 64 entries with TTLs 60, 300 and 30 seconds; the counters start at zero |
| Optimizer.Cached | performance_optimizer.py:122-171 | a query hits exactly when refresh is not forced and the cache holds a live entry; a miss calls the backend once and stores the answer |
| Optimizer.CachedHealthy | performance_optimizer.py:122-171 | a cached query keeps its cache well formed and within capacity |
| Optimizer.SecondQueryHits | performance_optimizer.py:122-171 | repeating a query at the same time hits and returns the same answer without a backend call |
| Optimizer.Count | performance_optimizer.py:126-133 | every query counts exactly one hit or one miss |
| Optimizer.CachedDeviceList | performance_optimizer.py:122-137 | one hit or one miss is counted; no backend call exactly when refresh is not forced and a live list is cached, which is returned; otherwise one call whose list is returned; the other caches are untouched (`DeviceListAccounting` adds that the optimizer stays healthy) |
| Optimizer.CachedDeviceFormats | performance_optimizer.py:139-154 | the same for formats under the device's format key (`FormatAccounting`) |
| Optimizer.CachedDeviceControls | performance_optimizer.py:156-171 | the same for controls under the device's control key (`ControlAccounting` adds the 30-second TTL) |
| Optimizer.DeviceListAccounting | performance_optimizer.py:122-137 | device listing uses only the device cache, and counts a hit or a miss |
| Optimizer.FormatAccounting | performance_optimizer.py:139-154 | format listing uses only the format cache, and counts a hit or a miss |
| Optimizer.ControlAccounting | performance_optimizer.py:156-171 | control listing uses only the control cache, stores with a 30-second TTL, and counts a hit or a miss |
| Optimizer.InvalidateCache | performance_optimizer.py:232-248 | invalidating a device drops only its format and control entries; invalidating a controller drops its device list and clears the format and control caches |
| Optimizer.InvalidateThenMiss | performance_optimizer.py:232-248 | after invalidation the next format and control queries call the backend |
| Errors.Initial | error_handling.py:98-125 | a new handler has an empty history and the four default recovery strategies |
| Errors.RegisterRecoveryStrategy | error_handling.py:167-169 | registering replaces the strategy of one code and keeps the others |
| Errors.AddErrorCallback | error_handling.py:171-173 | a callback is appended after the existing ones |
| Errors.ClearErrorHistory | error_handling.py:201-203 | clearing empties the history and keeps strategies and callbacks |
| Errors.LogLevelOf | error_handling.py:218-226 | device-not-found and disconnects log as warnings, platform and dependency problems as errors, unknown errors as critical, everything else as info |
| Errors.LogMessage | error_handling.py:205-216 | the log line starts `[<code>] <message>` and adds nothing when no optional part is given |
| Errors.Append | error_handling.py:144-149 | the new error is last; past 1000 entries only the newest 500 are kept |
| Errors.HandleError | error_handling.py:127-165 | the recorded error carries its code, message and time; every callback is called; recovery runs exactly when the error is recoverable and its code has a strategy |
| Errors.HistoryStaysBounded | error_handling.py:144-149 | any sequence of errors keeps the history within 1000 entries, with the latest error last |
| Errors.TrimKeepsNewest | error_handling.py:148-149 | trimming keeps the newest entries in their order |
| Errors.DefaultRecovery | error_handling.py:228-248 | with the defaults, recovery runs exactly for busy, disconnected, permission-denied and dependency-missing errors |
| Errors.RecoveryFollowsKeys | error_handling.py:159-163 | when exactly the four default codes have strategies, recovery runs for those codes and no others |
| Errors.Tally | error_handling.py:185-188 | counting one error adds one to its code and nothing to the others |
| Errors.CountCodes | error_handling.py:185-188 | the counts have one entry per code, add up to the history length, and give each code's number of occurrences |
| Errors.SeenIffOccurs | error_handling.py:185-188 | a code has a first appearance if and only if it occurs |
| Errors.TallyKeepsFirstSeenOrder | error_handling.py:185-188 | counting one more error keeps the counts in order of first appearance |
| Errors.CountCodesInFirstSeenOrder | error_handling.py:185-188 | the counts list codes in the order they first appear in the history, as a dict does |
| Errors.TiesGoToFirstSeen | error_handling.py:185-198 | `max` over the counts picks, among the most common codes, the one that appeared first |
| Errors.MostCommon | error_handling.py:198 | `max` picks the first entry with the largest count |
| Errors.GetErrorStatistics | error_handling.py:175-199 | an empty history reports only zero; otherwise the total, exact per-code counts, the number of errors from the last hour, and the most common code, ties going to the code seen first |
| Errors.OccursOnce | error_handling.py:185-188 | every recorded code occurs at least once |
| Errors.MostCommonIsMaximal | error_handling.py:198 | the most common entry's count bounds every code's count |
| Errors.ClassOf | error_handling.py:303-316 | device, control, format and system codes raise their own error classes; the rest raise the base class |
| Errors.CreateError | error_handling.py:294-317 | the created error has its code's class and carries the given fields and the time |
| Errors.GetUserFriendlyMessage | error_handling.py:319-339 | a code with an entry gets that entry's message; the fallback is used exactly when it has none |
| Errors.MessagesAreSpecific | error_handling.py:321-337 | no table entry is the fallback text |
| Errors.EveryCodeHasAMessage | error_handling.py:321-339 | every code has exactly one entry, and its message is that entry's, never the fallback |

## Left out

- I/O and platform libraries are parameters, not code. This covers `fcntl.ioctl`, `os.open`/`os.close`, `glob`, `cv2`, `comtypes`/WMI and the AVFoundation bridge. The model covers what the core computes from their answers, not what they do.
- `DeviceInfo`, `VideoFormat` and `ControlInfo` are plain datatypes; they have no behaviour to state.
- Python floats are `real`, not IEEE floats. This covers frame rates, the OpenCV readings and their remapping (`OpenCV.Remap`), the value `OpenCV.Normalize` writes, the AVFoundation readings and setter arguments, and `Advanced.Value.Float`. Rounding is not modelled. Only the OpenCV control table models a non-finite reading, as `Capture.readable` being false. Elsewhere a NaN or an infinity is not modelled. For example, a NaN given to an unbounded range control passes `_validate_control_value`, and then `int()` raises (advanced_controls.py:240). In the model, `int()` of a `Value.Float` always succeeds. Rendering a float as text is a `FloatText` parameter.
- Text decoding: the V4L2 text fields are decoded as Latin-1, one character per byte. The source decodes them as UTF-8 with `errors='ignore'`; that differs only for bytes above 127.
- `int(str)`: the model accepts an optional sign and ASCII digits, with surrounding whitespace (the same characters `str.strip()` removes). It omits underscores between digits and non-ASCII digits, which Python's `int()` also accepts.
- Probing loops: `V4L2.FrameSizes`, `V4L2.FrameRates` and `V4L2.GetVideoFormats` follow the `while True` loops for at most `fuel` indices. A driver that answers more indices than that is not modelled.
- Time: each cached optimizer call receives one `now`. The source reads `time.time()` separately in `get` and `set`, a few microseconds apart.
- Concurrency: the locks, the `ThreadPoolExecutor`, and the async, batch and preload helpers (performance_optimizer.py:173-230) are left out, because they only schedule the modelled queries.
- Decorators: `performance_monitor` and `cached_method` (performance_optimizer.py:282-330) and `error_handler` (error_handling.py:255-292) are left out, because they are wrappers around calls the model already covers.
- `get_performance_stats` and `cleanup` (performance_optimizer.py:250-272) are left out: they report sizes and shut the pool down.
- Logging handlers, the formatter, the `ErrorLevel` enum, `print` output, `argparse` parsing and `show_help` text are left out. The model covers the log level and the message a handler chooses, the CLI's listing lines, and its dispatch decision.
- The CLI's `list_devices` and `list_formats` (v4l2_ctl_cross.py:50-73) only print the controller's answers, which are modelled.
- Timing: `time.sleep` in the recovery strategy and in the auto-adjust helpers is left out. Strategies and callbacks are recorded by name, with their side effects left out.
- `__del__` destructors and COM initialisation are left out.
- `Controllers.LinuxListDevices` is an at-most bound; `Controllers.LinuxListedIffOpens` states which paths are listed.
- `OpenCV.GetVideoFormats` states only the empty cases and a bound; `OpenCV.ListedIffAccepted` states which formats are listed.
- `DirectShow.GetVideoFormats` and `DirectShow.GetDeviceControls` state only the empty case and a bound; `DirectShow.FormatsAreFixed` and `DirectShow.ReportedIffQueried` state the contents.
- `V4L2.FormatsOfSizes` states only a length bound; `V4L2.FormatsOfSizesBlocks`, `V4L2.FormatFromSize` and `V4L2.SizeRateListed` state its contents and order.
- `demo.py` and `setup.py` are not part of this model.
- `linux_v4l2.py:418-419` guards on the denominator but divides by the numerator. The model keeps this as written: a zero numerator ends the enumeration, as the `except` clause does (`V4L2.IntervalRates`).
- `V4L2.SetDeviceControl`: `str.lower()` is modelled on ASCII letters only; other characters are kept. A name that Python's full Unicode lower-casing maps onto a known name, such as one with the Kelvin sign U+212A for `k`, is accepted by the source and refused by the model.
- `OpenCV.SetDeviceControl`: name matching uses the same ASCII-only `str.lower()`, with the same consequence.
- `Cli.ParseControlSetting`: the value is parsed by the ASCII-digit `int()` described above, so a value written in non-ASCII digits is a bad value in the model and a number in the source.
- `Advanced.CreateControlProfile` and `Advanced.ApplyControlProfile`: the `except` clauses that answer False are not modelled. Nothing in the modelled calls raises there, except `int()` on a value, which ends the apply loop with False (`Advanced.ApplyEntries`).
