/** The AVFoundation backend (macos_avfoundation.py): device discovery
    with a device cache, the frame-rate filter over each format's rate
    ranges, the fixed 0-100 control shape, and the guards of the setter.
    AVFoundation objects are oracles; the cache is explicit state. */
module AVFoundation {
  import opened Wrappers
  import opened Text
  import opened Fourcc
  import opened Records
  import opened Enumeration

  /** What `mediaType()` of a format gives: video, another media type, or
      an exception. */
  datatype Media = VideoMedia | OtherMedia | MediaRaises

  /** One `AVCaptureDeviceFormat`: its media type; whether its description,
      dimensions, pixel-format code and rate-range list can be read without
      raising, and their values; and its frame-rate ranges as (min, max),
      None for a range whose `minFrameRate`/`maxFrameRate` raises. */
  datatype AVFormat = AVFormat(media: Media, describable: bool, width: int, height: int, subType: int, rateRanges: seq<Option<(real, real)>>)

  /** What reading a supported control's current value gives: no getter
      attribute, a getter that raises (or a value `float()` rejects), or a
      number. */
  datatype Reading = NoGetter | GetterFails | Value(x: real)

  /** The support check of one control: not supported (no check method, a
      false answer, or a check that raises), or supported with its reading. */
  datatype Support = Unsupported | Supported(reading: Reading)

  /** One `AVCaptureDevice`: whether its localized name, unique id and
      manufacturer can be read without raising, their values (manufacturer
      None when the attribute is missing), formats, control support by
      control name, whether it has a setter for a control name, whether that
      setter returns (rather than raises) when called with a given argument,
      whether `lockForConfiguration_` succeeds, and the active format's
      maximum zoom factor. `formats` is None when `formats()` raises, and
      `maxZoom` None when reading the zoom factor raises. */
  datatype AVDevice = AVDevice(
    describable: bool,
    name: string,
    uniqueId: string,
    manufacturer: Option<string>,
    formats: Option<seq<AVFormat>>,
    support: string -> Support,
    hasSetter: string -> bool,
    setterReturns: (string, real) -> bool,
    locks: bool,
    maxZoom: Option<real>)

  /** The discovery session's device list, None when discovery raises. */
  type Discovery = Option<seq<AVDevice>>

  /** Discovery succeeds and every device it finds can be described: the
      case in which the device list is cached. */
  predicate Discovered(discovery: Discovery) {
    discovery.Some? && forall i :: 0 <= i < |discovery.value| ==> discovery.value[i].describable
  }

  /** The controller's state: the device list cached by the last successful
      discovery, if any. */
  datatype Controller = Controller(cache: Option<seq<AVDevice>>)

  /** An operation's outcome: the controller after it, and its result. */
  datatype Outcome<T> = Outcome(controller: Controller, result: T)

  // ---------------------------------------------------------------------
  // Devices

  function DeviceEntry(devices: seq<AVDevice>, i: nat): DeviceInfo
    requires i < |devices|
  {
    var d := devices[i];
    DeviceInfo(i, d.name, d.uniqueId, "Manufacturer: " + d.manufacturer.GetOr("Apple"))
  }

  /** The entries of the first k devices, numbered in discovery order. */
  function Described(devices: seq<AVDevice>, k: nat): (r: seq<DeviceInfo>)
    requires k <= |devices|
    ensures |r| == k
    ensures forall i :: 0 <= i < k ==> r[i] == DeviceEntry(devices, i)
  {
    seq(k, i requires 0 <= i < k => DeviceEntry(devices, i))
  }

  /** `list_devices`: nothing, and the cache kept, when discovery raises;
      else one entry per device in discovery order, up to the first device
      whose name, id or manufacturer raises. The list is cached only when no
      device raises; the entries built before a raising device are still
      returned. */
  function ListDevices(discovery: Discovery, c: Controller): (o: Outcome<seq<DeviceInfo>>)
    ensures discovery.None? ==> o.controller == c && o.result == []
    ensures discovery.Some? ==> |o.result| <= |discovery.value|
    ensures discovery.Some? ==> forall i :: 0 <= i < |o.result| ==>
      (discovery.value[i].describable && o.result[i].index == i && o.result[i].name == discovery.value[i].name
       && o.result[i].path == discovery.value[i].uniqueId
       && o.result[i].description == "Manufacturer: " + discovery.value[i].manufacturer.GetOr("Apple"))
    ensures discovery.Some? && |o.result| < |discovery.value| ==> !discovery.value[|o.result|].describable
    ensures Discovered(discovery) ==> o.controller.cache == discovery
    ensures !Discovered(discovery) ==> o.controller == c
  {
    match discovery
    case None => Outcome(c, [])
    case Some(devices) =>
      match FirstIndex(devices, (d: AVDevice) => !d.describable)
      case None => Outcome(Controller(Some(devices)), Described(devices, |devices|))
      case Some(k) => Outcome(c, Described(devices, k))
  }

  /** The cache the other operations use: the existing one, or a fresh
      discovery when there is none; a discovery that raises, or meets a
      device that raises, leaves it missing. */
  function EnsureCache(discovery: Discovery, c: Controller): (c': Controller)
    ensures c.cache.Some? ==> c' == c
    ensures c.cache.None? ==> c'.cache == if Discovered(discovery) then discovery else None
  {
    if c.cache.None? then ListDevices(discovery, c).controller else c
  }

  /** `devices_cache[device_index]` after the guard `device_index >=
      len(devices_cache)`: Python counts a negative index from the end, and
      one below `-len` raises (None). */
  function DeviceAt(devices: seq<AVDevice>, index: int): (r: Option<AVDevice>)
    ensures index >= |devices| || index < -|devices| ==> r.None?
    ensures 0 <= index < |devices| ==> r == Some(devices[index])
    ensures -|devices| <= index < 0 ==> r == Some(devices[|devices| + index])
  {
    if index >= |devices| then None
    else if index >= 0 then Some(devices[index])
    else if index >= -|devices| then Some(devices[|devices| + index])
    else None
  }

  /** The device an operation works on after filling the cache; None when
      the cache is empty or missing or the index is out of range. */
  function SelectedDevice(c: Controller, index: int): Option<AVDevice> {
    if c.cache.None? || c.cache.value == [] then None else DeviceAt(c.cache.value, index)
  }

  // ---------------------------------------------------------------------
  // Formats

  /** The frame rates tried against every rate range, in order. */
  const CommonRates: seq<real> := [15.0, 24.0, 30.0, 60.0]

  function InRange(lo: real, hi: real): real -> bool {
    (f: real) => lo <= f <= hi
  }

  /** The common rates within one range, inclusive at both ends, in
      increasing order. */
  function RatesIn(lo: real, hi: real): (r: seq<real>)
    ensures forall f :: f in r <==> f in CommonRates && lo <= f <= hi
    ensures forall i, j :: 0 <= i < j < |r| ==> r[i] < r[j]
  {
    var r := Filter(CommonRates, InRange(lo, hi));
    FilterKeepsOrder(CommonRates, InRange(lo, hi), (a: real, b: real) => a < b);
    r
  }

  /** The formats of one rate range: one per common rate within it. */
  function RangeFormats(f: AVFormat, fpsText: FloatText, range: (real, real)): (r: seq<VideoFormat>)
    ensures |r| == |RatesIn(range.0, range.1)|
    ensures forall k :: 0 <= k < |r| ==>
      (r[k].width == f.width && r[k].height == f.height && r[k].fps == RatesIn(range.0, range.1)[k]
       && r[k].pixelFormat == MacText(f.subType))
  {
    var rates := RatesIn(range.0, range.1);
    seq(|rates|, k requires 0 <= k < |rates| =>
      VideoFormat(f.width, f.height, rates[k], MacText(f.subType),
        IntToString(f.width) + "x" + IntToString(f.height) + " @ " + fpsText(rates[k]) + "fps (" + MacText(f.subType) + ")"))
  }

  /** The rate ranges read before the first one whose rates raise. */
  function ReadRanges(f: AVFormat): (r: seq<(real, real)>)
    ensures |r| <= |f.rateRanges|
    ensures forall j :: 0 <= j < |r| ==> f.rateRanges[j] == Some(r[j])
    ensures |r| < |f.rateRanges| ==> f.rateRanges[|r|].None?
  {
    var n := match FirstIndex(f.rateRanges, (x: Option<(real, real)>) => x.None?)
      case None => |f.rateRanges|
      case Some(j) => j;
    seq(n, j requires 0 <= j < n => f.rateRanges[j].value)
  }

  /** Reading format `f` raises: its media type, or, for a video format,
      its description, dimensions, pixel format, range list or the rates of
      one of its ranges. A format of another media type is skipped before
      anything else is read. */
  predicate Raises(f: AVFormat) {
    f.media.MediaRaises? || (f.media.VideoMedia? && (!f.describable || exists j :: 0 <= j < |f.rateRanges| && f.rateRanges[j].None?))
  }

  /** Range `j` of `f`, and every range before it, reads without raising. */
  predicate RangeReached(f: AVFormat, j: nat) {
    j < |f.rateRanges| && forall i :: 0 <= i <= j ==> f.rateRanges[i].Some?
  }

  /** No format before index `k` raises, so the loop reaches format `k`. */
  predicate FormatReached(formats: seq<AVFormat>, k: nat) {
    k < |formats| && forall m :: 0 <= m < k ==> !Raises(formats[m])
  }

  /** `v` has the size and pixel-format text of video format `f`, and a
      common rate inside range `j` of `f`, which is read before any range
      of `f` raises. */
  predicate FromRange(f: AVFormat, j: nat, v: VideoFormat) {
    f.media.VideoMedia? && f.describable && RangeReached(f, j)
    && v.width == f.width && v.height == f.height && v.pixelFormat == MacText(f.subType)
    && v.fps in CommonRates && f.rateRanges[j].value.0 <= v.fps <= f.rateRanges[j].value.1
  }

  /** The formats one device format contributes: nothing unless its media
      type is video and it can be described, else the formats of the ranges
      read before the first that raises, range by range. */
  function FormatFormats(f: AVFormat, fpsText: FloatText): seq<VideoFormat> {
    if !f.media.VideoMedia? || !f.describable then []
    else
      var ranges := ReadRanges(f);
      Concat(seq(|ranges|, k requires 0 <= k < |ranges| => RangeFormats(f, fpsText, ranges[k])))
  }

  /** How many formats the loop enters: all of them, or up to and including
      the first that raises. */
  function FormatsEntered(formats: seq<AVFormat>): (n: nat)
    ensures n <= |formats|
    ensures forall k :: 0 <= k < |formats| ==> (k < n <==> FormatReached(formats, k))
  {
    match FirstIndex(formats, (f: AVFormat) => Raises(f))
    case None => |formats|
    case Some(j) => j + 1
  }

  /** The formats the whole `try` has built when it ends: the formats of
      each format entered, in order, the last one's cut short where it
      raises. */
  function ListedFormats(formats: seq<AVFormat>, fpsText: FloatText): seq<VideoFormat> {
    var n := FormatsEntered(formats);
    Concat(seq(n, k requires 0 <= k < n => FormatFormats(formats[k], fpsText)))
  }

  /** `get_video_formats`: after filling the cache, nothing for an empty
      cache or an index out of range, nothing when the device's format list
      raises, else the formats built before the first raising accessor. */
  function GetVideoFormats(discovery: Discovery, c: Controller, deviceIndex: int, fpsText: FloatText): (o: Outcome<seq<VideoFormat>>)
    ensures o.controller == EnsureCache(discovery, c)
    ensures SelectedDevice(o.controller, deviceIndex).None? ==> o.result == []
    ensures SelectedDevice(o.controller, deviceIndex).Some? && SelectedDevice(o.controller, deviceIndex).value.formats.None? ==> o.result == []
    ensures SelectedDevice(o.controller, deviceIndex).Some? && SelectedDevice(o.controller, deviceIndex).value.formats.Some? ==>
      o.result == ListedFormats(SelectedDevice(o.controller, deviceIndex).value.formats.value, fpsText)
  {
    var c' := EnsureCache(discovery, c);
    match SelectedDevice(c', deviceIndex)
    case None => Outcome(c', [])
    case Some(d) =>
      match d.formats
      case None => Outcome(c', [])
      case Some(formats) => Outcome(c', ListedFormats(formats, fpsText))
  }

  /** Every listed format comes from a video format the loop reached, and
      from a range of it read before any range raised: its size and
      pixel-format text are that format's, and its rate is a common rate
      within the range. */
  lemma {:induction false} FormatsFromRanges(discovery: Discovery, c: Controller, deviceIndex: int, fpsText: FloatText, v: VideoFormat)
    requires v in GetVideoFormats(discovery, c, deviceIndex, fpsText).result
    ensures SelectedDevice(EnsureCache(discovery, c), deviceIndex).Some?
    ensures SelectedDevice(EnsureCache(discovery, c), deviceIndex).value.formats.Some?
    ensures var fs := SelectedDevice(EnsureCache(discovery, c), deviceIndex).value.formats.value;
      exists k: nat, j: nat :: FormatReached(fs, k) && FromRange(fs[k], j, v)
  {
    var fs := SelectedDevice(EnsureCache(discovery, c), deviceIndex).value.formats.value;
    ListedFromRanges(fs, fpsText, v);
  }

  lemma {:induction false} ListedFromRanges(fs: seq<AVFormat>, fpsText: FloatText, v: VideoFormat)
    requires v in ListedFormats(fs, fpsText)
    ensures exists k: nat, j: nat :: FormatReached(fs, k) && FromRange(fs[k], j, v)
  {
    var k := ListedFromFormat(fs, fpsText, v);
    var j := FormatFromRange(fs[k], fpsText, v);
    assert FormatReached(fs, k) && FromRange(fs[k], j, v);
  }

  /** A listed format comes from the formats of a format the loop reached. */
  lemma ListedFromFormat(fs: seq<AVFormat>, fpsText: FloatText, v: VideoFormat) returns (k: nat)
    requires v in ListedFormats(fs, fpsText)
    ensures FormatReached(fs, k) && v in FormatFormats(fs[k], fpsText)
  {
    var n := FormatsEntered(fs);
    var perFormat := seq(n, k requires 0 <= k < n => FormatFormats(fs[k], fpsText));
    ConcatMember(perFormat, v);
    k :| 0 <= k < |perFormat| && v in perFormat[k];
  }

  /** A format contributed by `f` comes from a range read before any range
      raised, with `f`'s size and pixel-format text and a rate inside it. */
  lemma FormatFromRange(f: AVFormat, fpsText: FloatText, v: VideoFormat) returns (j: nat)
    requires v in FormatFormats(f, fpsText)
    ensures FromRange(f, j, v)
  {
    var ranges := ReadRanges(f);
    var perRange := seq(|ranges|, j requires 0 <= j < |ranges| => RangeFormats(f, fpsText, ranges[j]));
    ConcatMember(perRange, v);
    j :| 0 <= j < |perRange| && v in perRange[j];
    var i :| 0 <= i < |perRange[j]| && perRange[j][i] == v;
    var range := ranges[j];
    assert RangeReached(f, j) by {
      forall m | 0 <= m <= j ensures f.rateRanges[m].Some? {
        assert f.rateRanges[m] == Some(ranges[m]);
      }
    }
    assert f.rateRanges[j].value == range;
    assert v.fps == RatesIn(range.0, range.1)[i];
    assert v.fps in RatesIn(range.0, range.1);
  }

  /** The converse: for every video format the loop reaches that can be
      described, every range of it read before any range raises, and every
      common rate inside that range, a format with that size, pixel-format
      text and rate is listed. */
  lemma RangeRatesListed(discovery: Discovery, c: Controller, deviceIndex: int, fpsText: FloatText, k: nat, j: nat, rate: real)
    requires SelectedDevice(EnsureCache(discovery, c), deviceIndex).Some?
    requires SelectedDevice(EnsureCache(discovery, c), deviceIndex).value.formats.Some?
    requires var fs := SelectedDevice(EnsureCache(discovery, c), deviceIndex).value.formats.value;
      FormatReached(fs, k) && fs[k].media.VideoMedia? && fs[k].describable && RangeReached(fs[k], j)
      && rate in CommonRates && fs[k].rateRanges[j].value.0 <= rate <= fs[k].rateRanges[j].value.1
    ensures var f := SelectedDevice(EnsureCache(discovery, c), deviceIndex).value.formats.value[k];
      exists v ::
        (v in GetVideoFormats(discovery, c, deviceIndex, fpsText).result
         && v.width == f.width && v.height == f.height && v.pixelFormat == MacText(f.subType) && v.fps == rate)
  {
    var fs := SelectedDevice(EnsureCache(discovery, c), deviceIndex).value.formats.value;
    ReachedRatesListed(fs, fpsText, k, j, rate);
  }

  lemma ReachedRatesListed(fs: seq<AVFormat>, fpsText: FloatText, k: nat, j: nat, rate: real)
    requires FormatReached(fs, k) && fs[k].media.VideoMedia? && fs[k].describable && RangeReached(fs[k], j)
    requires rate in CommonRates && fs[k].rateRanges[j].value.0 <= rate <= fs[k].rateRanges[j].value.1
    ensures exists v :: (v in ListedFormats(fs, fpsText)
      && v.width == fs[k].width && v.height == fs[k].height && v.pixelFormat == MacText(fs[k].subType) && v.fps == rate)
  {
    var f := fs[k];
    var ranges := ReadRanges(f);
    assert j < |ranges|;
    var range := ranges[j];
    assert f.rateRanges[j] == Some(range);
    var perRange := seq(|ranges|, i requires 0 <= i < |ranges| => RangeFormats(f, fpsText, ranges[i]));
    var rates := RatesIn(range.0, range.1);
    var i :| 0 <= i < |rates| && rates[i] == rate;
    var v := perRange[j][i];
    ConcatMember(perRange, v);
    assert v in FormatFormats(f, fpsText);
    var n := FormatsEntered(fs);
    var perFormat := seq(n, m requires 0 <= m < n => FormatFormats(fs[m], fpsText));
    assert v in perFormat[k];
    ConcatMember(perFormat, v);
  }

  /** Within one range, a common rate is listed exactly when the range
      contains it. */
  lemma RateListedIffInRange(f: AVFormat, fpsText: FloatText, range: (real, real), rate: real)
    requires rate in CommonRates
    ensures (exists v :: v in RangeFormats(f, fpsText, range) && v.fps == rate) <==> range.0 <= rate <= range.1
  {
    var r := RangeFormats(f, fpsText, range);
    var rates := RatesIn(range.0, range.1);
    if range.0 <= rate <= range.1 {
      var k :| 0 <= k < |rates| && rates[k] == rate;
      assert r[k].fps == rate;
    }
    forall v | v in r && v.fps == rate ensures range.0 <= rate <= range.1 {
      var k :| 0 <= k < |r| && r[k] == v;
      assert rates[k] in rates;
    }
  }

  // ---------------------------------------------------------------------
  // Controls

  /** The controls the backend checks, in order. */
  const ControlNames: seq<string> := ["brightness", "contrast", "saturation", "exposure", "focus", "white_balance", "zoom"]

  /** The current value reported for a supported control: the reading
      scaled by 100 and truncated, 50 when reading fails, 0 with no getter. */
  function CurrentValue(reading: Reading): (v: int)
    ensures reading.NoGetter? ==> v == 0
    ensures reading.GetterFails? ==> v == 50
    ensures reading.Value? ==> v == Truncate(reading.x * 100.0)
  {
    match reading
    case NoGetter => 0
    case GetterFails => 50
    case Value(x) => Truncate(x * 100.0)
  }

  /** One checked control, if supported: a 0-100 control defaulting to 50. */
  function ControlAt(d: AVDevice, name: string): (r: Option<ControlInfo>)
    ensures r.Some? <==> d.support(name).Supported?
    ensures r.Some? ==> r.value.name == name
  {
    match d.support(name)
    case Unsupported => None
    case Supported(reading) =>
      Some(ControlInfo(name, 0, 100, 1, 50, CurrentValue(reading), 0, true, "AVFoundation " + Title(name) + " Control"))
  }

  function ControlLookup(d: AVDevice): string -> Option<ControlInfo> {
    (name: string) => ControlAt(d, name)
  }

  /** The fixed shape every AVFoundation control has. */
  predicate FixedShape(c: ControlInfo) {
    c.minValue == 0 && c.maxValue == 100 && c.step == 1 && c.defaultValue == 50 && c.flags == 0 && c.autoSupported
  }

  /** `get_device_controls`: after filling the cache, nothing for an empty
      cache or an index out of range, else the supported checked controls,
      in check order. */
  function GetDeviceControls(discovery: Discovery, c: Controller, deviceIndex: int): (o: Outcome<seq<ControlInfo>>)
    ensures o.controller == EnsureCache(discovery, c)
    ensures SelectedDevice(o.controller, deviceIndex).None? ==> o.result == []
    ensures SelectedDevice(o.controller, deviceIndex).Some? ==>
      o.result == Collect(ControlNames, ControlLookup(SelectedDevice(o.controller, deviceIndex).value))
    ensures |o.result| <= |ControlNames|
  {
    var c' := EnsureCache(discovery, c);
    match SelectedDevice(c', deviceIndex)
    case None => Outcome(c', [])
    case Some(d) => Outcome(c', Collect(ControlNames, ControlLookup(d)))
  }

  /** Every reported control is one of the checked names, with the fixed
      0-100 shape. */
  lemma ControlsHaveFixedShape(discovery: Discovery, c: Controller, deviceIndex: int, ctl: ControlInfo)
    requires ctl in GetDeviceControls(discovery, c, deviceIndex).result
    ensures FixedShape(ctl)
    ensures exists i :: 0 <= i < |ControlNames| && ctl.name == ControlNames[i]
  {
    var d := SelectedDevice(EnsureCache(discovery, c), deviceIndex).value;
    var i :| 0 <= i < |ControlNames| && ControlLookup(d)(ControlNames[i]) == Some(ctl);
  }

  /** On the selected device, a checked control is reported exactly when
      the device supports it, with the current value its reading gives. */
  lemma ReportedIffSupported(discovery: Discovery, c: Controller, deviceIndex: int, k: nat)
    requires SelectedDevice(EnsureCache(discovery, c), deviceIndex).Some? && k < |ControlNames|
    ensures var d := SelectedDevice(EnsureCache(discovery, c), deviceIndex).value;
      (exists ctl :: ctl in GetDeviceControls(discovery, c, deviceIndex).result && ctl.name == ControlNames[k])
      <==> d.support(ControlNames[k]).Supported?
    ensures var d := SelectedDevice(EnsureCache(discovery, c), deviceIndex).value;
      forall ctl :: ctl in GetDeviceControls(discovery, c, deviceIndex).result && ctl.name == ControlNames[k] ==>
        ctl.currentValue == CurrentValue(d.support(ControlNames[k]).reading)
  {
    var d := SelectedDevice(EnsureCache(discovery, c), deviceIndex).value;
    var r := GetDeviceControls(discovery, c, deviceIndex).result;
    CheckedIffSupported(d, ControlNames, ControlNames[k]);
    forall ctl | ctl in r && ctl.name == ControlNames[k]
      ensures ctl.currentValue == CurrentValue(d.support(ControlNames[k]).reading)
    {
      var i :| 0 <= i < |ControlNames| && ControlLookup(d)(ControlNames[i]) == Some(ctl);
      assert ControlAt(d, ControlNames[i]) == Some(ctl);
    }
  }

  /** Over any list of checked names containing `n`: a control named `n` is
      collected exactly when the device supports `n`. */
  lemma CheckedIffSupported(d: AVDevice, names: seq<string>, n: string)
    requires n in names
    ensures (exists ctl :: ctl in Collect(names, ControlLookup(d)) && ctl.name == n) <==> d.support(n).Supported?
  {
    var query := ControlLookup(d);
    var r := Collect(names, query);
    if d.support(n).Supported? {
      var k :| 0 <= k < |names| && names[k] == n;
      assert query(names[k]) == Some(ControlAt(d, n).value);
      assert ControlAt(d, n).value in r;
    }
    forall ctl | ctl in r && ctl.name == n ensures d.support(n).Supported? {
      var i :| 0 <= i < |names| && query(names[i]) == Some(ctl);
      assert ControlAt(d, names[i]) == Some(ctl);
    }
  }

  // ---------------------------------------------------------------------
  // Setting a control

  /** The names the setter handles. */
  const SettableNames: set<string> := {"brightness", "contrast", "saturation", "zoom"}

  /** The argument the setter receives: the value scaled from 0-100 to
      0.0-1.0, and for zoom that fraction mapped onto 1.0 up to the active
      format's maximum zoom factor. None when that factor cannot be read. */
  function SetArgument(d: AVDevice, name: string, value: int): (x: Option<real>)
    ensures name != "zoom" ==> x.Some? && x.value * 100.0 == value as real
    ensures name == "zoom" ==> (x.None? <==> d.maxZoom.None?)
    ensures name == "zoom" && d.maxZoom.Some? && value == 0 ==> x == Some(1.0)
    ensures name == "zoom" && d.maxZoom.Some? && value == 100 ==> x == d.maxZoom
  {
    var normalized := value as real / 100.0;
    if name != "zoom" then Some(normalized)
    else match d.maxZoom
      case None => None
      case Some(m) => Some(1.0 + normalized * (m - 1.0))
  }

  /** A value within 0-100 sets a zoom factor between 1.0 and the maximum. */
  lemma ZoomWithinRange(d: AVDevice, value: int)
    requires d.maxZoom.Some? && d.maxZoom.value >= 1.0 && 0 <= value <= 100
    ensures SetArgument(d, "zoom", value).Some?
    ensures 1.0 <= SetArgument(d, "zoom", value).value <= d.maxZoom.value
  {
    var t := value as real / 100.0;
    var top := d.maxZoom.value;
    var m := top - 1.0;
    assert d.maxZoom == Some(top);
    assert 0.0 <= t <= 1.0;
    assert 0.0 <= t * m by { MulNonNegative(t, m); }
    assert t * m <= m by {
      MulNonNegative(1.0 - t, m);
      assert (1.0 - t) * m == m - t * m;
    }
    var x := SetArgument(d, "zoom", value);
    assert x.Some?;
    assert x.value == 1.0 + t * m;
  }

  lemma MulNonNegative(a: real, b: real)
    requires a >= 0.0 && b >= 0.0
    ensures a * b >= 0.0
  {
  }

  /** `set_device_control`: after filling the cache, False for an empty
      cache, an index out of range, a device that cannot be locked, a name
      other than brightness, contrast, saturation or zoom (matched exactly),
      a device without that setter, a zoom whose maximum factor cannot be
      read, or a setter that raises on the argument it receives; True
      otherwise. */
  function SetDeviceControl(discovery: Discovery, c: Controller, deviceIndex: int, name: string, value: int): (o: Outcome<bool>)
    ensures o.controller == EnsureCache(discovery, c)
    ensures o.result <==>
      (SelectedDevice(o.controller, deviceIndex).Some? && SelectedDevice(o.controller, deviceIndex).value.locks
       && name in SettableNames && SelectedDevice(o.controller, deviceIndex).value.hasSetter(name)
       && SetArgument(SelectedDevice(o.controller, deviceIndex).value, name, value).Some?
       && SelectedDevice(o.controller, deviceIndex).value.setterReturns(name,
            SetArgument(SelectedDevice(o.controller, deviceIndex).value, name, value).value))
  {
    var c' := EnsureCache(discovery, c);
    match SelectedDevice(c', deviceIndex)
    case None => Outcome(c', false)
    case Some(d) =>
      if !d.locks || name !in SettableNames || !d.hasSetter(name) then Outcome(c', false)
      else match SetArgument(d, name, value)
        case None => Outcome(c', false)
        case Some(x) => Outcome(c', d.setterReturns(name, x))
  }

  /** The guards: an index at or past the device count, or a name outside
      the four settable ones, is refused. */
  lemma SetGuards(discovery: Discovery, c: Controller, deviceIndex: int, name: string, value: int)
    requires discovery.Some? && c.cache.None?
    requires deviceIndex >= |discovery.value| || name !in SettableNames
    ensures !SetDeviceControl(discovery, c, deviceIndex, name, value).result
  {
  }
}
