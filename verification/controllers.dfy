/** The controller façade (video_device_controller.py): the Windows
    controller that chains DirectShow and the OpenCV fallback, the Linux and
    macOS placeholder controllers, `get_control` as a search of the control
    list, and the choice of controller by platform name. */
module Controllers {
  import opened Wrappers
  import opened Text
  import opened Records
  import opened Sorting
  import opened Enumeration
  import DirectShow
  import OpenCV

  /** The DirectShow backend's world: the WMI enumeration, the capture
      indices the OpenCV fallback inside it can open (None when OpenCV cannot
      be imported), and the device monikers. */
  datatype DirectShowWorld = DirectShowWorld(wmi: DirectShow.Wmi, opens: Option<int -> bool>, monikers: DirectShow.Monikers)

  /** What a Linux placeholder controller sees: the `/dev/video*` paths the
      glob returns, and which of them can be opened for reading. */
  datatype LinuxWorld = LinuxWorld(paths: seq<string>, opens: string -> bool)

  /** A controller. The Windows one holds each backend that could be
      constructed (None for one whose construction raised). */
  datatype Controller =
    | Windows(directshow: Option<DirectShowWorld>, opencv: Option<OpenCV.Env>)
    | Linux(world: LinuxWorld)
    | MacOS

  /** Why `create_controller` raised. */
  datatype CreateError = ImportFailed | PlatformNotImplemented(system: string)

  // ---------------------------------------------------------------------
  // Windows

  /** `list_devices` on Windows: the DirectShow list when DirectShow is
      present and finds something, else the OpenCV list when OpenCV is
      present, else nothing. */
  function WindowsListDevices(directshow: Option<DirectShowWorld>, opencv: Option<OpenCV.Env>, fpsText: FloatText): (r: seq<DeviceInfo>)
    ensures directshow.Some? && DirectShow.ListDevices(directshow.value.wmi, directshow.value.opens) != [] ==>
      r == DirectShow.ListDevices(directshow.value.wmi, directshow.value.opens)
    ensures (directshow.None? || DirectShow.ListDevices(directshow.value.wmi, directshow.value.opens) == []) ==>
      r == (if opencv.Some? then OpenCV.ListDevices(opencv.value, fpsText) else [])
  {
    var fromDirectShow := if directshow.Some? then DirectShow.ListDevices(directshow.value.wmi, directshow.value.opens) else [];
    if fromDirectShow != [] then fromDirectShow
    else if opencv.Some? then OpenCV.ListDevices(opencv.value, fpsText)
    else []
  }

  // ---------------------------------------------------------------------
  // Linux placeholder

  function LinuxEntry(sorted: seq<string>, opens: string -> bool, i: int): Option<DeviceInfo> {
    if 0 <= i < |sorted| && opens(sorted[i]) then
      Some(DeviceInfo(i, "Video Device " + IntToString(i), sorted[i], ""))
    else None
  }

  function LinuxLookup(sorted: seq<string>, opens: string -> bool): int -> Option<DeviceInfo> {
    (i: int) => LinuxEntry(sorted, opens, i)
  }

  /** `list_devices` of the Linux placeholder: every path that opens, in
      sorted order, numbered by its position in the sorted list. */
  function LinuxListDevices(world: LinuxWorld): (r: seq<DeviceInfo>)
    ensures |r| <= |world.paths|
  {
    var sorted := Sort(world.paths);
    Collect(Range(|sorted|), LinuxLookup(sorted, world.opens))
  }

  /** A listed device is a sorted position whose path opens, named and
      numbered by that position with an empty description; every such
      position is listed. Paths that do not open leave gaps in the numbers. */
  lemma LinuxListedIffOpens(world: LinuxWorld, i: int)
    requires 0 <= i < |world.paths|
    ensures (exists d :: d in LinuxListDevices(world) && d.index == i) <==> world.opens(Sort(world.paths)[i])
    ensures forall d :: d in LinuxListDevices(world) ==>
      (0 <= d.index < |world.paths| && d.path == Sort(world.paths)[d.index] && world.opens(d.path)
       && d.name == "Video Device " + IntToString(d.index) && d.description == "")
  {
    var sorted := Sort(world.paths);
    var indices := Range(|sorted|);
    var query := LinuxLookup(sorted, world.opens);
    var r := LinuxListDevices(world);
    if world.opens(sorted[i]) {
      assert query(indices[i]) == LinuxEntry(sorted, world.opens, i);
      assert LinuxEntry(sorted, world.opens, i).value in r;
    }
    forall d | d in r
      ensures 0 <= d.index < |world.paths| && d.path == sorted[d.index] && world.opens(d.path)
        && d.name == "Video Device " + IntToString(d.index) && d.description == ""
    {
      var j :| 0 <= j < |indices| && query(indices[j]) == Some(d);
    }
  }

  // ---------------------------------------------------------------------
  // The façade

  /** `list_devices` of a controller: the Windows chain over its backends,
      the Linux placeholder's path scan, and nothing from the macOS
      placeholder. */
  function ListDevices(c: Controller, fpsText: FloatText): (r: seq<DeviceInfo>)
    ensures c.Windows? ==> r == WindowsListDevices(c.directshow, c.opencv, fpsText)
    ensures c.Linux? ==> r == LinuxListDevices(c.world)
    ensures c.MacOS? ==> r == []
  {
    match c
    case Windows(ds, cv) => WindowsListDevices(ds, cv, fpsText)
    case Linux(world) => LinuxListDevices(world)
    case MacOS => []
  }

  /** `get_formats`: on Windows the OpenCV fallback's formats, nothing
      without it; the placeholders report nothing. */
  function GetFormats(c: Controller, deviceIndex: int, fpsText: FloatText): (r: seq<VideoFormat>)
    ensures !(c.Windows? && c.opencv.Some?) ==> r == []
    ensures c.Windows? && c.opencv.Some? ==> r == OpenCV.GetVideoFormats(c.opencv.value, fpsText, deviceIndex)
  {
    if c.Windows? && c.opencv.Some? then OpenCV.GetVideoFormats(c.opencv.value, fpsText, deviceIndex) else []
  }

  /** `get_controls`: on Windows the OpenCV fallback's controls, nothing
      without it; the placeholders report nothing. */
  function GetControls(c: Controller, deviceIndex: int): (r: seq<ControlInfo>)
    ensures !(c.Windows? && c.opencv.Some?) ==> r == []
    ensures c.Windows? && c.opencv.Some? ==> r == OpenCV.GetDeviceControls(c.opencv.value, deviceIndex)
  {
    if c.Windows? && c.opencv.Some? then OpenCV.GetDeviceControls(c.opencv.value, deviceIndex) else []
  }

  /** `set_control`: on Windows the OpenCV fallback's answer, False without
      it; the placeholders refuse. */
  function SetControl(c: Controller, deviceIndex: int, name: string, value: int): (r: bool)
    ensures r ==> c.Windows? && c.opencv.Some?
    ensures c.Windows? && c.opencv.Some? ==> r == OpenCV.SetDeviceControl(c.opencv.value, deviceIndex, name, value)
  {
    c.Windows? && c.opencv.Some? && OpenCV.SetDeviceControl(c.opencv.value, deviceIndex, name, value)
  }

  /** The current value of the first control named exactly `name`, if any. */
  function FindControl(controls: seq<ControlInfo>, name: string): (r: Option<int>)
    ensures r.None? <==> forall k :: 0 <= k < |controls| ==> controls[k].name != name
    ensures r.Some? ==> exists k :: (0 <= k < |controls| && controls[k].name == name
      && r.value == controls[k].currentValue
      && forall j :: 0 <= j < k ==> controls[j].name != name)
  {
    match FirstIndex(controls, Named(name))
    case None => None
    case Some(k) => Some(controls[k].currentValue)
  }

  /** `get_control`: on Windows the current value of the first listed
      control with exactly that name (case matters), None if there is none;
      the placeholders answer None. */
  function GetControl(c: Controller, deviceIndex: int, name: string): (r: Option<int>)
    ensures c.Linux? || c.MacOS? ==> r.None?
    ensures c.Windows? ==> r == FindControl(GetControls(c, deviceIndex), name)
  {
    match c
    case Windows(_, _) => FindControl(GetControls(c, deviceIndex), name)
    case Linux(_) => None
    case MacOS => None
  }

  /** On Windows with OpenCV, asking for a control the simulated list holds
      on a device index outside 0-9 gives that list's current value. */
  lemma GetControlOfSimulated(env: OpenCV.Env)
    requires env.available
    ensures GetControl(Windows(None, Some(env)), 10, "sharpness") == Some(98)
    ensures GetControl(Windows(None, Some(env)), -1, "Sharpness").None?
  {
    SimulatedSharpness();
    SimulatedNoCapitalSharpness();
  }

  /** The first simulated control named "sharpness" is the fifth, current
      value 98. */
  lemma SimulatedSharpness()
    ensures FindControl(OpenCV.SimulatedControls(), "sharpness") == Some(98)
  {
    var r := OpenCV.SimulatedControls();
    var rows := OpenCV.SimulatedRows;
    assert rows[4] == ("sharpness", 0, 100, 50, 98);
    assert r[4] == OpenCV.SimulatedControl(4);
    assert forall j :: 0 <= j < 4 ==> r[j].name != "sharpness" by {
      assert rows[0].0 == "brightness" && rows[1].0 == "contrast" && rows[2].0 == "saturation" && rows[3].0 == "hue";
    }
    FirstIndexAt(r, Named("sharpness"), 4);
  }

  /** No simulated control name starts with a capital letter. */
  lemma SimulatedNoCapitalSharpness()
    ensures FindControl(OpenCV.SimulatedControls(), "Sharpness").None?
  {
    var r := OpenCV.SimulatedControls();
    OpenCV.RowNamesLowerCase();
    forall k | 0 <= k < |r| ensures r[k].name != "Sharpness" {
      assert r[k].name == OpenCV.SimulatedRows[k].0;
    }
  }

  // ---------------------------------------------------------------------
  // Choosing a controller

  /** The `platform.system()` name a controller serves. */
  function PlatformOf(c: Controller): string {
    match c
    case Windows(_, _) => "Windows"
    case Linux(_) => "Linux"
    case MacOS => "Darwin"
  }

  /** `create_controller`: the controller for "Windows", "Linux" or
      "Darwin" (the Linux and macOS ones raise ImportError when their system
      modules cannot be imported); any other platform name raises
      NotImplementedError. The Windows controller is always built, holding
      whichever backends could be constructed. */
  function CreateController(
    system: string,
    directshow: Option<DirectShowWorld>, opencv: Option<OpenCV.Env>,
    linuxModules: bool, linux: LinuxWorld,
    macModules: bool): (r: Result<Controller, CreateError>)
    ensures r.Ok? ==> PlatformOf(r.value) == system
    ensures r.Ok? <==> system == "Windows" || (system == "Linux" && linuxModules) || (system == "Darwin" && macModules)
    ensures r.Err? ==> (r.error.PlatformNotImplemented? <==> system != "Windows" && system != "Linux" && system != "Darwin")
    ensures system == "Windows" ==> r == Ok(Windows(directshow, opencv))
  {
    if system == "Windows" then Ok(Windows(directshow, opencv))
    else if system == "Linux" then (if linuxModules then Ok(Linux(linux)) else Err(ImportFailed))
    else if system == "Darwin" then (if macModules then Ok(MacOS) else Err(ImportFailed))
    else Err(PlatformNotImplemented(system))
  }
}
