/** The DirectShow backend (windows_directshow.py): the WMI device filter
    with its OpenCV fallback, the capability-count format loop with its stub
    parser, the proc-amp and camera-control catalogs, and the stubbed
    setters. COM and WMI are oracles. */
module DirectShow {
  import opened Wrappers
  import opened Text
  import opened Records
  import opened Enumeration

  // ---------------------------------------------------------------------
  // Devices

  /** One `Win32_PnPEntity`: its Name and DeviceID, "" standing for a
      missing (None) property. */
  datatype PnpEntity = PnpEntity(name: string, deviceId: string)

  /** The WMI enumeration: the entities it yields before it ends, and
      whether it then raised (creating the WMI object, the query or a
      property read failing). */
  datatype Wmi = Wmi(entities: seq<PnpEntity>, raised: bool)

  /** An entity the listing keeps: a non-empty name containing "camera",
      "webcam" or "video" in any ASCII case. */
  predicate IsVideoEntity(e: PnpEntity) {
    e.name != [] && (Contains(Lower(e.name), "camera") || Contains(Lower(e.name), "webcam") || Contains(Lower(e.name), "video"))
  }

  /** The `\\?\video{index}` path used when a device has no identifier. */
  function VideoPath(index: int): string {
    "\\\\?\\video" + IntToString(index)
  }

  /** The entry of the kept entity numbered `index`. */
  function EntityDevice(e: PnpEntity, index: int): DeviceInfo {
    DeviceInfo(index, e.name, if e.deviceId != [] then e.deviceId else VideoPath(index), "/dev/video" + IntToString(index))
  }

  /** The entry of a capture index that opens in the OpenCV fallback. */
  function FallbackDevice(opens: int -> bool, i: int): Option<DeviceInfo> {
    if opens(i) then Some(DeviceInfo(i, "Video Device " + IntToString(i), VideoPath(i), "/dev/video" + IntToString(i))) else None
  }

  function FallbackLookup(opens: int -> bool): int -> Option<DeviceInfo> {
    (i: int) => FallbackDevice(opens, i)
  }

  /** The fallback: the indices 0-4 that open, or nothing when OpenCV
      cannot be imported (`opens` is None). */
  function FallbackDevices(opens: Option<int -> bool>): (r: seq<DeviceInfo>)
    ensures |r| <= 5
  {
    if opens.None? then [] else Collect(Range(5), FallbackLookup(opens.value))
  }

  /** `list_devices`: the kept entities numbered 0, 1, 2, ... in
      enumeration order; when the enumeration raised, followed by the
      fallback's devices. */
  function ListDevices(wmi: Wmi, opens: Option<int -> bool>): (r: seq<DeviceInfo>)
    ensures |r| >= |Filter(wmi.entities, IsVideoEntity)|
    ensures forall k :: 0 <= k < |Filter(wmi.entities, IsVideoEntity)| ==>
      r[k] == EntityDevice(Filter(wmi.entities, IsVideoEntity)[k], k)
    ensures !wmi.raised ==> |r| == |Filter(wmi.entities, IsVideoEntity)|
    ensures wmi.raised ==> r[|Filter(wmi.entities, IsVideoEntity)|..] == FallbackDevices(opens)
  {
    var kept := KeptFrom(wmi.entities, IsVideoEntity, EntityDevice, 0);
    assert forall k :: 0 <= k < |kept| ==> kept[k] == EntityDevice(Filter(wmi.entities, IsVideoEntity)[k], k) by {
      forall k | 0 <= k < |kept| ensures kept[k] == EntityDevice(Filter(wmi.entities, IsVideoEntity)[k], k) {
        KeptFromAt(wmi.entities, IsVideoEntity, EntityDevice, 0, k);
      }
    }
    if wmi.raised then kept + FallbackDevices(opens) else kept
  }

  /** Every device listed from WMI is an entity the filter keeps, numbered
      by its position among the kept ones, with its identifier as path when
      it has one. */
  lemma ListedEntities(wmi: Wmi, opens: Option<int -> bool>, k: nat)
    requires k < |Filter(wmi.entities, IsVideoEntity)|
    ensures var d := ListDevices(wmi, opens)[k];
      d.index == k
      && (exists e :: e in wmi.entities && IsVideoEntity(e) && d.name == e.name)
      && d.description == "/dev/video" + IntToString(k)
  {
    var e := Filter(wmi.entities, IsVideoEntity)[k];
    assert e in Filter(wmi.entities, IsVideoEntity);
  }

  /** A fallback device is an index in 0-4 that opens, and each such index
      is listed. */
  lemma FallbackIffOpens(opens: int -> bool, i: int)
    requires 0 <= i < 5
    ensures (exists d :: d in FallbackDevices(Some(opens)) && d.index == i) <==> opens(i)
  {
    ProbeIffOpens(opens, 5, i);
  }

  /** Probing the indices below any bound lists an index exactly when it
      opens. */
  lemma ProbeIffOpens(opens: int -> bool, n: nat, i: int)
    requires 0 <= i < n
    ensures (exists d :: d in Collect(Range(n), FallbackLookup(opens)) && d.index == i) <==> opens(i)
  {
    var query := FallbackLookup(opens);
    var r := Collect(Range(n), query);
    CollectRangeMember(n, query, i);
    if opens(i) {
      assert query(i) == FallbackDevice(opens, i);
      assert FallbackDevice(opens, i).value in r;
    }
    forall d | d in r && d.index == i ensures opens(i) {
      var j :| 0 <= j < n && query(j) == Some(d);
      assert FallbackDevice(opens, j) == Some(d);
    }
  }

  // ---------------------------------------------------------------------
  // Device filters

  /** What `GetRange(id)` returns: minimum, maximum, step, default, flags. */
  datatype PropertyRange = PropertyRange(minValue: int, maxValue: int, step: int, defaultValue: int, flags: int)

  /** An `IAMVideoProcAmp` or `IAMCameraControl` interface: `GetRange(id)`
      and `Get(id)` (value, flags), None when the call raises. */
  datatype ControlInterface = ControlInterface(getRange: int -> Option<PropertyRange>, get: int -> Option<(int, int)>)

  /** An `IAMStreamConfig` interface: the capability count, and for each
      capability whether `GetStreamCaps` returns a media type with a format
      type (false when it raises or returns none). */
  datatype StreamConfig = StreamConfig(count: int, hasMediaType: int -> bool)

  /** A bound device filter: its stream-config interface, None when it
      cannot be found or the graph builder cannot be created, and its two
      control interfaces, None when `QueryInterface` raises. */
  datatype DeviceFilter = DeviceFilter(
    streamConfig: Option<StreamConfig>,
    procAmp: Option<ControlInterface>,
    cameraControl: Option<ControlInterface>)

  /** The video-input class enumerator: None when it cannot be created;
      else its monikers in order, each bound to a filter or None when
      binding fails. */
  type Monikers = Option<seq<Option<DeviceFilter>>>

  /** `_get_device_filter`: the filter bound from moniker `index`, None for
      a negative index, an index past the last moniker, or a failure. */
  function GetDeviceFilter(monikers: Monikers, index: int): (r: Option<DeviceFilter>)
    ensures r.Some? ==> monikers.Some? && 0 <= index < |monikers.value| && monikers.value[index] == r
  {
    if monikers.None? || index < 0 || index >= |monikers.value| then None else monikers.value[index]
  }

  // ---------------------------------------------------------------------
  // Formats

  /** `_parse_video_format`: the media type is not read; every capability
      becomes the same 640x480 at 30 fps format of unknown pixel format. */
  function ParseVideoFormat<M>(mediaType: M): (r: Option<VideoFormat>)
    ensures r.Some? && r.value.width == 640 && r.value.height == 480
    ensures r.value.fps == 30.0 && r.value.pixelFormat == "UNKNOWN"
  {
    Some(VideoFormat(640, 480, 30.0, "UNKNOWN", "DirectShow Format"))
  }

  /** The format capability i contributes, if it has a media type. */
  function CapabilityFormat(config: StreamConfig, i: int): Option<VideoFormat> {
    if config.hasMediaType(i) then ParseVideoFormat(i) else None
  }

  function CapabilityLookup(config: StreamConfig): int -> Option<VideoFormat> {
    (i: int) => CapabilityFormat(config, i)
  }

  /** `get_video_formats`: nothing without a filter or a stream-config
      interface; else one parsed format per capability index below the
      count that has a media type. */
  function GetVideoFormats(monikers: Monikers, deviceIndex: int): (r: seq<VideoFormat>)
    ensures GetDeviceFilter(monikers, deviceIndex).None? ==> r == []
  {
    match GetDeviceFilter(monikers, deviceIndex)
    case None => []
    case Some(f) =>
      match f.streamConfig
      case None => []
      case Some(config) => Collect(Range(if config.count < 0 then 0 else config.count), CapabilityLookup(config))
  }

  /** Every DirectShow format is the fixed 640x480, 30 fps, "UNKNOWN" one,
      and there are at most as many as the reported capability count. */
  lemma FormatsAreFixed(monikers: Monikers, deviceIndex: int)
    ensures forall v :: v in GetVideoFormats(monikers, deviceIndex) ==>
      v.width == 640 && v.height == 480 && v.fps == 30.0 && v.pixelFormat == "UNKNOWN"
    ensures var f := GetDeviceFilter(monikers, deviceIndex);
      f.Some? && f.value.streamConfig.Some? && f.value.streamConfig.value.count >= 0 ==>
        |GetVideoFormats(monikers, deviceIndex)| <= f.value.streamConfig.value.count
  {
    var r := GetVideoFormats(monikers, deviceIndex);
    forall v | v in r ensures v.width == 640 && v.height == 480 && v.fps == 30.0 && v.pixelFormat == "UNKNOWN" {
      var config := GetDeviceFilter(monikers, deviceIndex).value.streamConfig.value;
      var n := if config.count < 0 then 0 else config.count;
      var i :| 0 <= i < |Range(n)| && CapabilityLookup(config)(Range(n)[i]) == Some(v);
    }
  }

  // ---------------------------------------------------------------------
  // Controls

  /** The `VideoProcAmp_*` property ids and the names they are reported under. */
  const ProcAmpCatalog: seq<(int, string)> := [
    (0, "brightness"), (1, "contrast"), (2, "hue"), (3, "saturation"), (4, "sharpness"),
    (5, "gamma"), (6, "colorEnable"), (7, "whiteBalance"), (8, "backlight_compensation"), (9, "gain")]

  /** The `CameraControl_*` property ids and the names they are reported under. */
  const CameraCatalog: seq<(int, string)> := [
    (0, "pan"), (1, "tilt"), (2, "roll"), (3, "zoom"), (4, "exposure"), (5, "iris"), (6, "focus")]

  /** Bit 0 of a flags word, `(flags & 0x0001) != 0`. Python's `&` sees a
      negative number in two's complement, whose low bit is its remainder
      modulo 2 rounded down, as Dafny's `%` computes it. */
  predicate AutoFlag(flags: int) {
    flags % 2 == 1
  }

  /** One catalog entry of an interface as a control: both the range query
      and the value read must succeed. Automatic support comes from the
      range's flags, while the reported flags are the value read's. */
  function ControlAt(iface: ControlInterface, entry: (int, string)): (r: Option<ControlInfo>)
    ensures r.Some? <==> iface.getRange(entry.0).Some? && iface.get(entry.0).Some?
    ensures r.Some? ==>
      (r.value.name == entry.1
       && r.value.autoSupported == AutoFlag(iface.getRange(entry.0).value.flags)
       && r.value.flags == iface.get(entry.0).value.1
       && r.value.currentValue == iface.get(entry.0).value.0)
  {
    match iface.getRange(entry.0)
    case None => None
    case Some(range) =>
      match iface.get(entry.0)
      case None => None
      case Some((current, currentFlags)) =>
        Some(ControlInfo(entry.1, range.minValue, range.maxValue, range.step, range.defaultValue,
          current, currentFlags, AutoFlag(range.flags), ""))
  }

  function ControlLookup(iface: ControlInterface): ((int, string)) -> Option<ControlInfo> {
    (e: (int, string)) => ControlAt(iface, e)
  }

  /** The controls one interface reports, in catalog order; none when the
      interface cannot be queried. */
  function InterfaceControls(iface: Option<ControlInterface>, catalog: seq<(int, string)>): (r: seq<ControlInfo>)
    ensures |r| <= |catalog|
    ensures iface.None? ==> r == []
  {
    if iface.None? then [] else Collect(catalog, ControlLookup(iface.value))
  }

  /** `get_device_controls`: nothing without a filter; else the proc-amp
      controls followed by the camera controls. */
  function GetDeviceControls(monikers: Monikers, deviceIndex: int): (r: seq<ControlInfo>)
    ensures GetDeviceFilter(monikers, deviceIndex).None? ==> r == []
    ensures |r| <= |ProcAmpCatalog| + |CameraCatalog|
  {
    match GetDeviceFilter(monikers, deviceIndex)
    case None => []
    case Some(f) => InterfaceControls(f.procAmp, ProcAmpCatalog) + InterfaceControls(f.cameraControl, CameraCatalog)
  }

  /** A catalog entry of an interface is reported exactly when both of its
      queries succeed, and then with the automatic bit of its range flags. */
  lemma ReportedIffQueried(iface: ControlInterface, catalog: seq<(int, string)>, k: nat)
    requires k < |catalog|
    ensures ControlAt(iface, catalog[k]).Some? ==>
      ControlAt(iface, catalog[k]).value in InterfaceControls(Some(iface), catalog)
    ensures forall c :: c in InterfaceControls(Some(iface), catalog) ==>
      exists j :: (0 <= j < |catalog| && iface.getRange(catalog[j].0).Some? && iface.get(catalog[j].0).Some?
        && c.name == catalog[j].1 && c.autoSupported == AutoFlag(iface.getRange(catalog[j].0).value.flags))
  {
    var query := ControlLookup(iface);
    assert query(catalog[k]) == ControlAt(iface, catalog[k]);
    forall c | c in InterfaceControls(Some(iface), catalog)
      ensures exists j :: (0 <= j < |catalog| && iface.getRange(catalog[j].0).Some? && iface.get(catalog[j].0).Some?
        && c.name == catalog[j].1 && c.autoSupported == AutoFlag(iface.getRange(catalog[j].0).value.flags))
    {
      var j :| 0 <= j < |catalog| && query(catalog[j]) == Some(c);
    }
  }

  // ---------------------------------------------------------------------
  // Setting a control

  /** `_set_video_proc_control`: unimplemented, it refuses every request. */
  function SetProcAmpControl(f: DeviceFilter, name: string, value: int): (r: bool)
    ensures !r
  {
    false
  }

  /** `_set_camera_control`: unimplemented, it refuses every request. */
  function SetCameraControl(f: DeviceFilter, name: string, value: int): (r: bool)
    ensures !r
  {
    false
  }

  /** `set_device_control`: False without a filter, else whichever of the
      two setters accepts; since neither does, never True. */
  function SetDeviceControl(monikers: Monikers, deviceIndex: int, name: string, value: int): (r: bool)
    ensures !r
  {
    match GetDeviceFilter(monikers, deviceIndex)
    case None => false
    case Some(f) => SetProcAmpControl(f, name, value) || SetCameraControl(f, name, value)
  }
}
