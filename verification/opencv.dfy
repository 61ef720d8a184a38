/** The OpenCV fallback backend (opencv_fallback.py): probing capture
    indices 0-9, trying a fixed list of resolutions, reporting a fixed table of
    capture properties with their readings remapped into the table's ranges,
    a simulated control list for devices it cannot open, and a name-to-property
    map for setting controls. */
module OpenCV {
  import opened Wrappers
  import opened Text
  import opened Fourcc
  import opened Records
  import opened Enumeration

  /** The `cv2.CAP_PROP_*` properties the fallback reads or writes. */
  datatype Prop =
    | Brightness | Contrast | Saturation | Hue | Gain | Exposure | Sharpness | Zoom
    | WhiteBalanceBlueU | WhiteBalanceRedV | Gamma | Backlight
    | FrameWidth | FrameHeight | Fps | FourccCode

  /** One `cv2.VideoCapture(index)` as the fallback sees it: whether it
      opened; `get(prop)` on the freshly opened device; `get(prop)` after the
      frame width and height were set to a requested pair; `set(prop, value)`;
      and `getBackendName()`, None when that call raises. `readable(prop)`
      says whether `get(prop)` on the freshly opened device gives a finite
      number, neither raising nor returning NaN or an infinity (on which
      `int()` raises); only the control table catches that failure, so the
      device and format listings are modelled on finite readings. */
  datatype Capture = Capture(
    isOpen: bool,
    read: Prop -> real,
    readable: Prop -> bool,
    readAt: ((int, int), Prop) -> real,
    write: (Prop, real) -> bool,
    backendName: Option<string>)

  /** What the fallback can reach: whether `cv2.VideoCapture(0)` succeeded at
      construction, whether the platform is Windows, and the capture of each
      index. */
  datatype Env = Env(available: bool, windows: bool, capture: int -> Capture)

  // ---------------------------------------------------------------------
  // Devices

  /** The display name of an opened index: its number, and on Windows the
      backend name in parentheses when that can be read. */
  function DeviceName(env: Env, i: int): (name: string)
    ensures StartsWith(name, "Video Device " + IntToString(i))
  {
    var base := "Video Device " + IntToString(i);
    var cap := env.capture(i);
    if env.windows && cap.backendName.Some? then
      assert (base + " (" + cap.backendName.value + ")")[..|base|] == base;
      base + " (" + cap.backendName.value + ")"
    else base
  }

  /** The entry one index contributes to the device list, if it opens. */
  function DeviceAt(env: Env, fpsText: FloatText, i: int): (r: Option<DeviceInfo>)
    ensures r.Some? <==> env.capture(i).isOpen
    ensures r.Some? ==> r.value.index == i && r.value.path == "/dev/video" + IntToString(i)
  {
    var cap := env.capture(i);
    if !cap.isOpen then None
    else
      var width := Truncate(cap.read(FrameWidth));
      var height := Truncate(cap.read(FrameHeight));
      Some(DeviceInfo(i, DeviceName(env, i), "/dev/video" + IntToString(i),
        "Resolution: " + IntToString(width) + "x" + IntToString(height) + ", FPS: " + fpsText(cap.read(Fps))))
  }

  function DeviceLookup(env: Env, fpsText: FloatText): int -> Option<DeviceInfo> {
    (i: int) => DeviceAt(env, fpsText, i)
  }

  /** `list_devices`: nothing when OpenCV is unavailable, else the entries
      of the indices 0-9 that open, in index order. */
  function ListDevices(env: Env, fpsText: FloatText): (r: seq<DeviceInfo>)
    ensures !env.available ==> r == []
    ensures env.available ==> r == Collect(Range(10), DeviceLookup(env, fpsText))
  {
    if !env.available then [] else Collect(Range(10), DeviceLookup(env, fpsText))
  }

  /** A listed device is an index in 0-9 that opens, described by its own
      entry; every such index is listed. */
  lemma ListedIffOpens(env: Env, fpsText: FloatText, i: int)
    requires env.available && 0 <= i < 10
    ensures (exists d :: d in ListDevices(env, fpsText) && d.index == i) <==> env.capture(i).isOpen
  {
    ScanIffOpens(env, fpsText, 10, i);
  }

  /** Scanning the indices below any bound lists an index exactly when it
      opens. */
  lemma ScanIffOpens(env: Env, fpsText: FloatText, n: nat, i: int)
    requires 0 <= i < n
    ensures (exists d :: d in Collect(Range(n), DeviceLookup(env, fpsText)) && d.index == i) <==> env.capture(i).isOpen
  {
    var query := DeviceLookup(env, fpsText);
    var r := Collect(Range(n), query);
    CollectRangeMember(n, query, i);
    if env.capture(i).isOpen {
      assert query(i) == DeviceAt(env, fpsText, i);
      assert DeviceAt(env, fpsText, i).value in r;
    }
    forall d | d in r && d.index == i ensures env.capture(i).isOpen {
      var j :| 0 <= j < n && query(j) == Some(d);
      assert DeviceAt(env, fpsText, j) == Some(d);
    }
  }

  /** Every listed device sits at an index in 0-9 with the `/dev/video` path
      of that index. */
  lemma ListedDevicesShape(env: Env, fpsText: FloatText, d: DeviceInfo)
    requires d in ListDevices(env, fpsText)
    ensures 0 <= d.index < 10 && env.capture(d.index).isOpen
    ensures d.path == "/dev/video" + IntToString(d.index)
    ensures StartsWith(d.name, "Video Device " + IntToString(d.index))
  {
    var indices := Range(10);
    var j :| 0 <= j < |indices| && DeviceLookup(env, fpsText)(indices[j]) == Some(d);
  }

  // ---------------------------------------------------------------------
  // Formats

  /** The resolutions `get_video_formats` tries, in order. */
  const Resolutions: seq<(int, int)> := [
    (160, 120), (320, 240), (640, 480), (800, 600), (1024, 768), (1280, 720),
    (1280, 1024), (1600, 1200), (1920, 1080), (2560, 1440), (3840, 2160)]

  /** A frame rate as reported: the reading, or 30 when it is not positive. */
  function RateOf(fps: real): (r: real)
    ensures r > 0.0
    ensures fps > 0.0 ==> r == fps
  {
    if fps <= 0.0 then 30.0 else fps
  }

  /** The pixel-format text of a FOURCC reading: its OpenCV rendering when
      positive, else "UNKNOWN". */
  function PixelFormatOf(code: int): (s: string)
    ensures code > 0 ==> s == OpenCVText(code)
    ensures code <= 0 ==> s == "UNKNOWN"
  {
    if code > 0 then OpenCVText(code) else "UNKNOWN"
  }

  /** Whether the device took a requested size: the width and height read
      back after setting it are that size. */
  predicate Accepts(cap: Capture, size: (int, int)) {
    Truncate(cap.readAt(size, FrameWidth)) == size.0 && Truncate(cap.readAt(size, FrameHeight)) == size.1
  }

  /** The format one tried resolution contributes, if the device took it. */
  function FormatAt(cap: Capture, fpsText: FloatText, size: (int, int)): (r: Option<VideoFormat>)
    ensures r.Some? <==> Accepts(cap, size)
    ensures r.Some? ==>
      (r.value.width == size.0 && r.value.height == size.1
       && r.value.fps == RateOf(cap.readAt(size, Fps))
       && r.value.pixelFormat == PixelFormatOf(Truncate(cap.readAt(size, FourccCode))))
  {
    if !Accepts(cap, size) then None
    else
      var fps := RateOf(cap.readAt(size, Fps));
      Some(VideoFormat(size.0, size.1, fps, PixelFormatOf(Truncate(cap.readAt(size, FourccCode))),
        IntToString(size.0) + "x" + IntToString(size.1) + " @ " + fpsText(fps) + "fps"))
  }

  function FormatLookup(cap: Capture, fpsText: FloatText): ((int, int)) -> Option<VideoFormat> {
    (size: (int, int)) => FormatAt(cap, fpsText, size)
  }

  /** `get_video_formats`: nothing when OpenCV is unavailable or the device
      does not open, else the tried resolutions the device took, in order. */
  function GetVideoFormats(env: Env, fpsText: FloatText, deviceIndex: int): (r: seq<VideoFormat>)
    ensures !env.available || !env.capture(deviceIndex).isOpen ==> r == []
    ensures |r| <= |Resolutions|
  {
    var cap := env.capture(deviceIndex);
    if !env.available || !cap.isOpen then [] else Collect(Resolutions, FormatLookup(cap, fpsText))
  }

  /** A format is listed exactly when it is the format of a tried resolution
      that the device took. */
  lemma ListedIffAccepted(env: Env, fpsText: FloatText, deviceIndex: int, v: VideoFormat)
    requires env.available && env.capture(deviceIndex).isOpen
    ensures v in GetVideoFormats(env, fpsText, deviceIndex) <==>
      exists i :: 0 <= i < |Resolutions| && Accepts(env.capture(deviceIndex), Resolutions[i])
        && FormatAt(env.capture(deviceIndex), fpsText, Resolutions[i]) == Some(v)
  {
    var cap := env.capture(deviceIndex);
    var query := FormatLookup(cap, fpsText);
    assert forall i :: 0 <= i < |Resolutions| ==> query(Resolutions[i]) == FormatAt(cap, fpsText, Resolutions[i]);
  }

  /** Every listed format has a tried size the device took, and a positive rate. */
  lemma ListedFormatShape(env: Env, fpsText: FloatText, deviceIndex: int, v: VideoFormat)
    requires v in GetVideoFormats(env, fpsText, deviceIndex)
    ensures (v.width, v.height) in Resolutions
    ensures Accepts(env.capture(deviceIndex), (v.width, v.height))
    ensures v.fps > 0.0
  {
    var cap := env.capture(deviceIndex);
    var query := FormatLookup(cap, fpsText);
    assert env.available && cap.isOpen;
    var i :| 0 <= i < |Resolutions| && query(Resolutions[i]) == Some(v);
    var size := Resolutions[i];
    assert FormatAt(cap, fpsText, size) == Some(v);
    assert size == (v.width, v.height);
  }

  // ---------------------------------------------------------------------
  // Controls

  /** One row of the property table: the property, the control's name and
      description, and its fixed range and default. */
  datatype TableEntry = TableEntry(prop: Prop, name: string, description: string, minValue: int, maxValue: int, defaultValue: int)

  /** The properties reported for an opened device, in dictionary order. */
  const Table: seq<TableEntry> := [
    TableEntry(Brightness, "brightness", "亮度", 0, 100, 50),
    TableEntry(Contrast, "contrast", "对比度", 0, 100, 50),
    TableEntry(Saturation, "saturation", "饱和度", 0, 100, 50),
    TableEntry(Hue, "hue", "色调", -15, 15, 0),
    TableEntry(Gain, "gain", "增益", 0, 100, 50),
    TableEntry(Exposure, "exposure", "曝光", -13, -1, -7),
    TableEntry(Sharpness, "sharpness", "锐度", 0, 100, 50),
    TableEntry(Zoom, "zoom", "缩放", 100, 400, 100)]

  /** The current value reported for a reading of a table property. A reading
      of -1 means "unknown" and gives the entry's default (0 for hue, -7 for
      exposure, which are their defaults). Hue and exposure are otherwise
      truncated as they are; any other property read in [0, 1] is taken as a
      fraction of its range; anything else is truncated as it is. */
  function Remap(e: TableEntry, v: real): (r: int)
    ensures e in Table && v == -1.0 ==> r == e.defaultValue
    ensures e.name != "hue" && e.name != "exposure" && e.minValue <= e.maxValue && 0.0 <= v <= 1.0 ==>
      e.minValue <= r <= e.maxValue
    ensures v != -1.0 && (e.name == "hue" || e.name == "exposure" || !(0.0 <= v <= 1.0)) ==> r == Truncate(v)
  {
    if e.name == "hue" then (if v != -1.0 then Truncate(v) else 0)
    else if e.name == "exposure" then (if v != -1.0 then Truncate(v) else -7)
    else if 0.0 <= v <= 1.0 then
      var span := (e.maxValue - e.minValue) as real;
      var x := e.minValue as real + v * span;
      assert e.minValue <= e.maxValue ==> 0.0 <= v * span <= span by {
        if e.minValue <= e.maxValue {
          assert (1.0 - v) * span >= 0.0;
        }
      }
      Truncate(x)
    else if v != -1.0 then Truncate(v)
    else e.defaultValue
  }

  /** A control from a property-table entry and its reading. */
  function TableControl(e: TableEntry, v: real): ControlInfo {
    ControlInfo(e.name, e.minValue, e.maxValue, 1, e.defaultValue, Remap(e, v), 0, false, e.description)
  }

  /** The simulated camera controls listed after the table for an opened
      device: name, description, range, default and current value. */
  const CameraControls: seq<ControlInfo> := [
    ControlInfo("pan", -145, 145, 1, 0, 0, 0, false, "水平移动"),
    ControlInfo("tilt", -90, 100, 1, 0, 0, 0, false, "垂直移动"),
    ControlInfo("roll", -100, 100, 1, 0, 0, 0, false, "旋转"),
    ControlInfo("focus", 0, 100, 1, 50, 50, 0, false, "对焦"),
    ControlInfo("whitebalance", 2000, 10000, 1, 6400, 6400, 0, false, "白平衡")]

  /** The two automatic-mode controls listed last for an opened device. */
  const AutoControls: seq<ControlInfo> := [
    ControlInfo("whitebalance_automatic", 0, 1, 1, 1, 1, 0, true, "自动白平衡"),
    ControlInfo("focus_automatic", 0, 1, 1, 1, 1, 0, true, "自动对焦")]

  /** The query for one table entry: its control with the remapped reading,
      or nothing when the reading fails (the loop's `except: continue`). */
  function TableLookup(cap: Capture): TableEntry -> Option<ControlInfo> {
    (e: TableEntry) => if cap.readable(e.prop) then Some(TableControl(e, cap.read(e.prop))) else None
  }

  /** The table loop over any list of entries: an entry is kept, with its
      remapped reading, exactly when its property can be read. */
  function ReadEntries(cap: Capture, entries: seq<TableEntry>): (t: seq<ControlInfo>)
    ensures |t| <= |entries|
    ensures forall k :: 0 <= k < |entries| && cap.readable(entries[k].prop) ==>
      TableControl(entries[k], cap.read(entries[k].prop)) in t
    ensures forall c :: c in t ==>
      exists k :: 0 <= k < |entries| && cap.readable(entries[k].prop) && c == TableControl(entries[k], cap.read(entries[k].prop))
  {
    Collect(entries, TableLookup(cap))
  }

  /** How many controls an opened device lists after its table part. */
  const FixedCount: nat := 7

  /** The controls of an opened device: the table entries whose reading
      succeeds, in table order and with remapped readings, then the camera
      controls, then the automatic ones. */
  function OpenedControls(cap: Capture): (r: seq<ControlInfo>)
    ensures FixedCount <= |r| <= |Table| + FixedCount
    ensures r[..|r| - FixedCount] == ReadEntries(cap, Table)
    ensures r[|r| - FixedCount..] == CameraControls + AutoControls
  {
    var listed := ReadEntries(cap, Table);
    var fixed := CameraControls + AutoControls;
    assert |fixed| == FixedCount;
    SplitAt(listed, fixed);
    listed + fixed
  }

  /** A concatenation splits back into its parts. */
  lemma SplitAt<T>(a: seq<T>, b: seq<T>)
    ensures (a + b)[..|a|] == a && (a + b)[|a|..] == b
  {
  }

  /** No two table entries share a name. */
  lemma TableNamesDistinct()
    ensures forall i, j :: 0 <= i < |Table| && 0 <= j < |Table| && Table[i].name == Table[j].name ==> i == j
  {
  }

  /** Over entries with distinct names, an entry's name is among the read
      controls exactly when its property can be read. */
  lemma EntryListedIffReadable(cap: Capture, entries: seq<TableEntry>, k: int)
    requires 0 <= k < |entries|
    requires forall i, j :: 0 <= i < |entries| && 0 <= j < |entries| && entries[i].name == entries[j].name ==> i == j
    ensures (exists c :: c in ReadEntries(cap, entries) && c.name == entries[k].name) <==> cap.readable(entries[k].prop)
  {
    var t := ReadEntries(cap, entries);
    if cap.readable(entries[k].prop) {
      assert TableControl(entries[k], cap.read(entries[k].prop)) in t;
    }
    forall c | c in t && c.name == entries[k].name ensures cap.readable(entries[k].prop) {
      var i :| 0 <= i < |entries| && cap.readable(entries[i].prop) && c == TableControl(entries[i], cap.read(entries[i].prop));
      assert entries[i].name == entries[k].name;
    }
  }

  /** A table entry is listed (by name, ahead of the fixed controls) exactly
      when its property can be read. */
  lemma TableEntryListedIffReadable(cap: Capture, k: int)
    requires 0 <= k < |Table|
    ensures var r := OpenedControls(cap);
      (exists c :: c in r[..|r| - FixedCount] && c.name == Table[k].name) <==> cap.readable(Table[k].prop)
  {
    TableNamesDistinct();
    EntryListedIffReadable(cap, Table, k);
  }

  /** With every property readable, the table part is the whole table in
      order. */
  lemma AllReadableListsWholeTable(cap: Capture)
    requires forall k :: 0 <= k < |Table| ==> cap.readable(Table[k].prop)
    ensures var r := OpenedControls(cap);
      |r| == |Table| + FixedCount
      && forall k :: 0 <= k < |Table| ==> r[k] == TableControl(Table[k], cap.read(Table[k].prop))
  {
    ReadAllEntries(cap, Table);
  }

  /** Reading entries that are all readable keeps every one, in order. */
  lemma ReadAllEntries(cap: Capture, entries: seq<TableEntry>)
    requires forall k :: 0 <= k < |entries| ==> cap.readable(entries[k].prop)
    ensures var t := ReadEntries(cap, entries);
      |t| == |entries| && forall k :: 0 <= k < |entries| ==> t[k] == TableControl(entries[k], cap.read(entries[k].prop))
  {
    CollectAllSome(entries, TableLookup(cap));
  }

  /** A control with step 1, no flags, and default and current value within
      its range. */
  predicate WellFormed(c: ControlInfo) {
    c.step == 1 && c.flags == 0
    && c.minValue <= c.defaultValue <= c.maxValue
    && c.minValue <= c.currentValue <= c.maxValue
  }

  /** The fixed (name, min, max, default, current) rows of the simulated list. */
  const SimulatedRows: seq<(string, int, int, int, int)> := [
    ("brightness", 0, 100, 50, 50),
    ("contrast", 0, 100, 50, 50),
    ("saturation", 0, 100, 50, 50),
    ("hue", -15, 15, 0, 0),
    ("sharpness", 0, 100, 50, 98),
    ("gain", 0, 100, 50, 0),
    ("exposure", -13, -1, -7, -1),
    ("whitebalance", 2000, 10000, 6400, 5500),
    ("pan", -145, 145, 0, -143),
    ("tilt", -90, 100, 0, -85),
    ("roll", -100, 100, 0, -100),
    ("zoom", 100, 400, 100, 100),
    ("focus", 0, 100, 50, 94),
    ("whitebalance_automatic", 0, 1, 1, 1),
    ("focus_automatic", 0, 1, 1, 1)]

  /** How many of the simulated rows are basic or camera controls; the rest
      are automatic-mode switches. */
  const ManualRows: nat := 13

  /** One simulated row as a control: the first 13 are manual and titled by
      name, the last two automatic and titled with '_' read as a space. */
  function SimulatedControl(k: nat): (c: ControlInfo)
    requires k < |SimulatedRows|
    ensures c.name == SimulatedRows[k].0
    ensures c.autoSupported <==> k >= ManualRows
  {
    var (name, lo, hi, dflt, cur) := SimulatedRows[k];
    var title := if k < ManualRows then Title(name) else Title(ReplaceChar(name, '_', ' '));
    ControlInfo(name, lo, hi, 1, dflt, cur, 0, k >= ManualRows, title)
  }

  /** `_get_simulated_controls`: the 15 fixed rows, in order. */
  function SimulatedControls(): (r: seq<ControlInfo>)
    ensures |r| == |SimulatedRows|
    ensures forall k :: 0 <= k < |r| ==> r[k] == SimulatedControl(k)
  {
    seq(|SimulatedRows|, k requires 0 <= k < |SimulatedRows| => SimulatedControl(k))
  }

  /** A manual row's name does not end in "_automatic": the character ten
      from its end is not '_'. */
  predicate ManualName(n: string) {
    |n| < 10 || n[|n| - 10] != '_'
  }

  /** Every simulated control is well formed. */
  lemma SimulatedWellFormed()
    ensures forall c :: c in SimulatedControls() ==> WellFormed(c)
  {
    var r := SimulatedControls();
    forall k | 0 <= k < |r| ensures WellFormed(r[k]) {
      var row := SimulatedRows[k];
      assert row.1 <= row.3 <= row.2 && row.1 <= row.4 <= row.2;
    }
  }

  /** Every simulated row's name starts with a lower-case letter. */
  lemma RowNamesLowerCase()
    ensures forall k :: 0 <= k < |SimulatedRows| ==> SimulatedRows[k].0 != [] && IsLower(SimulatedRows[k].0[0])
  {
    var rows := SimulatedRows;
    forall k | 0 <= k < |rows| ensures rows[k].0 != [] && IsLower(rows[k].0[0]) {
      var n := rows[k].0;
      assert n in ["brightness", "contrast", "saturation", "hue", "sharpness", "gain", "exposure", "whitebalance",
        "pan", "tilt", "roll", "zoom", "focus", "whitebalance_automatic", "focus_automatic"];
    }
  }

  lemma ManualNames()
    ensures forall k :: 0 <= k < ManualRows ==> ManualName(SimulatedRows[k].0)
  {
    assert ManualName(SimulatedRows[0].0) && ManualName(SimulatedRows[1].0) && ManualName(SimulatedRows[2].0);
    assert ManualName(SimulatedRows[3].0) && ManualName(SimulatedRows[4].0) && ManualName(SimulatedRows[5].0);
    assert ManualName(SimulatedRows[6].0) && ManualName(SimulatedRows[7].0) && ManualName(SimulatedRows[8].0);
    assert ManualName(SimulatedRows[9].0) && ManualName(SimulatedRows[10].0) && ManualName(SimulatedRows[11].0);
    assert ManualName(SimulatedRows[12].0);
  }

  /** Exactly the "_automatic" simulated controls support automatic mode. */
  lemma SimulatedAutoIffSuffix()
    ensures |SimulatedControls()| == 15
    ensures forall c :: c in SimulatedControls() ==> (c.autoSupported <==> EndsWith(c.name, "_automatic"))
  {
    var r := SimulatedControls();
    ManualNames();
    forall k | 0 <= k < |r| ensures r[k].autoSupported <==> EndsWith(r[k].name, "_automatic") {
      var n := SimulatedRows[k].0;
      if k < ManualRows {
        assert ManualName(n);
      } else if k == 13 {
        assert n[|n| - 10..] == "_automatic";
      } else {
        assert n[|n| - 10..] == "_automatic";
      }
    }
  }

  /** `get_device_controls`: nothing when OpenCV is unavailable; the
      simulated list for an index outside 0-9 or a device that does not open;
      else the opened device's controls. */
  function GetDeviceControls(env: Env, deviceIndex: int): (r: seq<ControlInfo>)
    ensures !env.available ==> r == []
    ensures env.available && !(0 <= deviceIndex < 10) ==> r == SimulatedControls()
    ensures env.available && 0 <= deviceIndex < 10 && !env.capture(deviceIndex).isOpen ==> r == SimulatedControls()
    ensures env.available && 0 <= deviceIndex < 10 && env.capture(deviceIndex).isOpen ==>
      r == OpenedControls(env.capture(deviceIndex))
  {
    if !env.available then []
    else if deviceIndex < 0 || deviceIndex >= 10 then SimulatedControls()
    else if !env.capture(deviceIndex).isOpen then SimulatedControls()
    else OpenedControls(env.capture(deviceIndex))
  }

  /** Of an opened device's controls, exactly the last two (the automatic
      ones) support automatic mode. */
  lemma OpenedControlsShape(cap: Capture)
    ensures var r := OpenedControls(cap);
      forall k :: 0 <= k < |r| ==> (r[k].autoSupported <==> k >= |r| - 2)
  {
    var r := OpenedControls(cap);
    var n := |r| - FixedCount;
    forall k | 0 <= k < |r| ensures r[k].autoSupported <==> k >= |r| - 2 {
      if k >= n {
        assert r[k] == r[n..][k - n];
        FixedAutoAt(k - n);
      } else {
        assert r[k] == r[..n][k];
        assert r[k] in ReadEntries(cap, Table);
      }
    }
  }

  /** Of the controls after the table part, the last two support automatic
      mode and the camera controls do not. */
  lemma FixedAutoAt(j: int)
    requires 0 <= j < FixedCount
    ensures (CameraControls + AutoControls)[j].autoSupported <==> j >= 5
  {
    if j < 5 {
      assert (CameraControls + AutoControls)[j] == CameraControls[j];
    } else {
      assert (CameraControls + AutoControls)[j] == AutoControls[j - 5];
    }
  }

  /** A readable table property read as -1 is listed with the entry's
      default as its current value. */
  lemma UnknownReadingShowsDefault(cap: Capture, k: int)
    requires 0 <= k < |Table| && cap.readable(Table[k].prop) && cap.read(Table[k].prop) == -1.0
    ensures TableControl(Table[k], -1.0) in OpenedControls(cap)
    ensures TableControl(Table[k], -1.0).currentValue == Table[k].defaultValue
  {
    var r := OpenedControls(cap);
    var c := TableControl(Table[k], -1.0);
    assert c in ReadEntries(cap, Table);
    InPrefix(r, |r| - FixedCount, c);
    assert Table[k] in Table;
  }

  /** What is in a prefix is in the whole sequence. */
  lemma InPrefix<T>(a: seq<T>, n: int, x: T)
    requires 0 <= n <= |a| && x in a[..n]
    ensures x in a
  {
    var i :| 0 <= i < n && a[..n][i] == x;
    assert a[i] == x;
  }

  // ---------------------------------------------------------------------
  // Setting a control

  /** The lower-case names `set_device_control` accepts and their properties. */
  const SetMap: map<string, Prop> := map[
    "brightness" := Brightness,
    "contrast" := Contrast,
    "saturation" := Saturation,
    "hue" := Hue,
    "gain" := Gain,
    "exposure" := Exposure,
    "white_balance_u" := WhiteBalanceBlueU,
    "white_balance_v" := WhiteBalanceRedV,
    "gamma" := Gamma,
    "sharpness" := Sharpness,
    "backlight" := Backlight]

  /** The value written for a requested one: hundredths for any value up to
      100 (negative ones included), the value itself above that. */
  function Normalize(value: int): (r: real)
    ensures value <= 100 ==> r * 100.0 == value as real
    ensures value > 100 ==> r == value as real
  {
    if value <= 100 then value as real / 100.0 else value as real
  }

  /** `set_device_control`: False when OpenCV is unavailable, the device
      does not open or the lower-cased name is not mapped; else whatever the
      property write returns. */
  function SetDeviceControl(env: Env, deviceIndex: int, name: string, value: int): (r: bool)
    ensures r ==> env.available && env.capture(deviceIndex).isOpen && Lower(name) in SetMap
    ensures env.available && env.capture(deviceIndex).isOpen && Lower(name) in SetMap ==>
      r == env.capture(deviceIndex).write(SetMap[Lower(name)], Normalize(value))
  {
    var cap := env.capture(deviceIndex);
    if !env.available || !cap.isOpen then false
    else
      var key := Lower(name);
      if key !in SetMap then false else cap.write(SetMap[key], Normalize(value))
  }

  /** Names the control listings report but the set map lacks are refused
      whatever the device. */
  lemma ListedButNotSettable(env: Env, deviceIndex: int, value: int)
    ensures !SetDeviceControl(env, deviceIndex, "pan", value)
    ensures !SetDeviceControl(env, deviceIndex, "tilt", value)
    ensures !SetDeviceControl(env, deviceIndex, "roll", value)
    ensures !SetDeviceControl(env, deviceIndex, "zoom", value)
    ensures !SetDeviceControl(env, deviceIndex, "focus", value)
    ensures !SetDeviceControl(env, deviceIndex, "whitebalance", value)
  {
    assert Lower("pan") == "pan";
    assert Lower("tilt") == "tilt";
    assert Lower("roll") == "roll";
    assert Lower("zoom") == "zoom";
    assert Lower("focus") == "focus";
    assert Lower("whitebalance") == "whitebalance";
  }
}
