/** The command-line front end (v4l2_ctl_cross.py): device-path and
    `name=value` parsing, the `-c` list, the grouping and layout of the
    control listing, and the choice of action from the parsed flags. */
module Cli {
  import opened Wrappers
  import opened Text
  import opened Records
  import opened Enumeration

  // ---------------------------------------------------------------------
  // Device paths

  const DevicePrefix: string := "/dev/video"

  /** The `/dev/video<i>` path of a device index. */
  function DevicePath(i: int): string {
    DevicePrefix + IntToString(i)
  }

  /** `parse_device_path`: with the `/dev/video` prefix, the integer left
      after removing every occurrence of the prefix; otherwise the whole
      string as an integer; 0 whenever that is not an integer. It never
      fails. */
  function ParseDevicePath(path: string): (r: int)
    ensures StartsWith(path, DevicePrefix) && ParseInt(RemoveAll(path, DevicePrefix)).Some? ==> r == ParseInt(RemoveAll(path, DevicePrefix)).value
    ensures StartsWith(path, DevicePrefix) && ParseInt(RemoveAll(path, DevicePrefix)).None? ==> r == 0
    ensures !StartsWith(path, DevicePrefix) && ParseInt(path).Some? ==> r == ParseInt(path).value
    ensures !StartsWith(path, DevicePrefix) && ParseInt(path).None? ==> r == 0
  {
    var payload := if StartsWith(path, DevicePrefix) then RemoveAll(path, DevicePrefix) else path;
    ParseInt(payload).GetOr(0)
  }

  /** The decimal rendering of an integer holds only digits and '-', and
      ends in a digit. */
  lemma NumberAvoids(i: int, c: char)
    requires !IsDigit(c) && c != '-'
    ensures forall j :: 0 <= j < |IntToString(i)| ==> IntToString(i)[j] != c
    ensures c !in IntToString(i)
    ensures IsDigit(IntToString(i)[|IntToString(i)| - 1])
  {
    var s := IntToString(i);
    if i < 0 {
      var d := NatToString(-i);
      assert s == "-" + d;
      forall j | 0 <= j < |s| ensures s[j] != c {
        if j > 0 {
          assert s[j] == d[j - 1];
          assert IsDigit(d[j - 1]);
        }
      }
      assert s[|s| - 1] == d[|d| - 1];
      assert IsDigit(d[|d| - 1]);
    } else {
      assert AllDigits(s);
      forall j | 0 <= j < |s| ensures s[j] != c {
        assert IsDigit(s[j]);
      }
      assert IsDigit(s[|s| - 1]);
    }
  }

  /** Every device index survives the round trip through its `/dev/video`
      path. */
  lemma DevicePathRoundTrip(i: int)
    ensures ParseDevicePath(DevicePath(i)) == i
  {
    var digits := IntToString(i);
    assert StartsWith(DevicePath(i), DevicePrefix) by {
      assert DevicePath(i)[..|DevicePrefix|] == DevicePrefix;
    }
    RemoveAllPrefix(DevicePrefix, digits);
    NumberAvoids(i, '/');
    RemoveAllAbsent(digits, DevicePrefix);
    ParseIntToString(i);
  }

  /** A bare index is read as itself. */
  lemma BareIndexRoundTrip(i: int)
    ensures ParseDevicePath(IntToString(i)) == i
  {
    NumberAvoids(i, '/');
    assert !StartsWith(IntToString(i), DevicePrefix) by {
      assert IntToString(i)[0] != DevicePrefix[0];
    }
    ParseIntToString(i);
  }

  // ---------------------------------------------------------------------
  // `name=value` settings

  /** Why a `name=value` setting was refused: no '=', or a value that is
      not an integer (the text after the first '='). */
  datatype SettingError = MissingEquals(setting: string) | BadValue(text: string)

  function IsEquals(c: char): bool {
    c == '='
  }

  /** `parse_control_setting`: split at the first '='; the name is the
      stripped text before it (possibly empty), the value the integer after
      it. */
  function ParseControlSetting(s: string): (r: Result<(string, int), SettingError>)
    ensures r == Err(MissingEquals(s)) <==> '=' !in s
    ensures r.Ok? ==> exists i :: (0 <= i < |s| && s[i] == '=' && '=' !in s[..i]
      && r.value.0 == Strip(s[..i]) && ParseInt(s[i + 1..]) == Some(r.value.1))
    ensures r.Err? && r.error.BadValue? ==> exists i :: (0 <= i < |s| && s[i] == '=' && '=' !in s[..i]
      && ParseInt(s[i + 1..]).None? && r.error.text == s[i + 1..])
  {
    match FirstIndex(s, IsEquals)
    case None =>
      assert '=' !in s by {
        forall j | 0 <= j < |s| ensures s[j] != '=' {
          assert !IsEquals(s[j]);
        }
      }
      Err(MissingEquals(s))
    case Some(i) =>
      assert '=' !in s[..i] by {
        forall j | 0 <= j < i ensures s[..i][j] != '=' {
          assert !IsEquals(s[j]);
        }
      }
      match ParseInt(s[i + 1..])
      case None => Err(BadValue(s[i + 1..]))
      case Some(v) => Ok((Strip(s[..i]), v))
  }

  /** A stripped name without '=' and an integer come back from their
      `name=value` text. */
  lemma SettingRoundTrip(name: string, v: int)
    requires '=' !in name && Strip(name) == name
    ensures ParseControlSetting(name + "=" + IntToString(v)) == Ok((name, v))
  {
    var s := name + "=" + IntToString(v);
    assert s[..|name|] == name && s[|name| + 1..] == IntToString(v);
    forall j | 0 <= j < |name| ensures !IsEquals(s[j]) {
      assert s[j] == name[j];
    }
    assert IsEquals(s[|name|]);
    FirstIndexAt(s, IsEquals, |name|);
    ParseIntToString(v);
  }

  // ---------------------------------------------------------------------
  // The `-c` list

  /** What the tool reports for one piece of the `-c` list: the set it
      made and the controller's answer, or the parse error. */
  datatype SetReport = Applied(name: string, value: int, success: bool) | Malformed(error: SettingError)

  /** The report of one piece: Malformed exactly when its stripped text
      does not parse; otherwise the parsed setting and the controller's
      answer to it. */
  function ReportOf(piece: string, setControl: (string, int) -> bool): (r: SetReport)
    ensures r.Malformed? <==> ParseControlSetting(Strip(piece)).Err?
    ensures r.Malformed? ==> ParseControlSetting(Strip(piece)) == Err(r.error)
    ensures r.Applied? ==> (ParseControlSetting(Strip(piece)) == Ok((r.name, r.value))
      && r.success == setControl(r.name, r.value))
  {
    match ParseControlSetting(Strip(piece))
    case Ok((name, value)) => Applied(name, value, setControl(name, value))
    case Err(e) => Malformed(e)
  }

  /** The `-c` loop: the argument split on ',', each piece stripped, parsed
      and, when well formed, sent to the controller. A malformed piece is
      reported and the loop goes on with the next one. */
  function SetControls(arg: string, setControl: (string, int) -> bool): (r: seq<SetReport>)
    ensures |r| == |Split(arg, ',')|
    ensures forall k :: 0 <= k < |r| ==> r[k] == ReportOf(Split(arg, ',')[k], setControl)
  {
    var pieces := Split(arg, ',');
    seq(|pieces|, k requires 0 <= k < |pieces| => ReportOf(pieces[k], setControl))
  }

  /** The text of a setting: no comma in it and no space at either end. */
  lemma SettingText(name: string, v: int)
    requires ',' !in name && Strip(name) == name && name != []
    ensures ',' !in name + "=" + IntToString(v)
    ensures Strip(name + "=" + IntToString(v)) == name + "=" + IntToString(v)
  {
    var t := IntToString(v);
    var s := name + "=" + t;
    NumberAvoids(v, ',');
    assert ',' !in t;
    assert !IsSpace(name[0]);
    assert s[0] == name[0] && s[|s| - 1] == t[|t| - 1];
    StripTrimmed(s);
  }

  /** An argument that splits into one piece gives that piece's report. */
  lemma OnePiece(s: string, setControl: (string, int) -> bool)
    requires Split(s, ',') == [s]
    ensures SetControls(s, setControl) == [ReportOf(s, setControl)]
  {
    var r := SetControls(s, setControl);
    assert |r| == 1 && r[0] == ReportOf(s, setControl);
  }

  /** A single setting with no comma is one piece, applied as parsed. */
  lemma SingleSetting(name: string, v: int, setControl: (string, int) -> bool)
    requires '=' !in name && ',' !in name && Strip(name) == name && name != []
    ensures SetControls(name + "=" + IntToString(v), setControl) == [Applied(name, v, setControl(name, v))]
  {
    var s := name + "=" + IntToString(v);
    SettingText(name, v);
    SettingRoundTrip(name, v);
    forall j | 0 <= j < |s| ensures s[j] != ',' {
      assert s[j] in s;
    }
    SplitNoSeparator(s, ',');
    OnePiece(s, setControl);
  }

  // ---------------------------------------------------------------------
  // The control listing

  /** The controls listed under "Camera Controls". */
  const CameraNames: set<string> := {"pan", "tilt", "roll", "zoom", "focus", "focus_automatic"}

  function IsCamera(): ControlInfo -> bool {
    (c: ControlInfo) => c.name in CameraNames
  }

  function IsUser(): ControlInfo -> bool {
    (c: ControlInfo) => c.name !in CameraNames
  }

  /** The two groups of the listing, user controls then camera controls,
      each in listing order: every control lands in exactly one of them. */
  function Groups(controls: seq<ControlInfo>): (r: (seq<ControlInfo>, seq<ControlInfo>))
    ensures forall c :: c in r.0 <==> c in controls && c.name !in CameraNames
    ensures forall c :: c in r.1 <==> c in controls && c.name in CameraNames
    ensures multiset(r.0) + multiset(r.1) == multiset(controls)
  {
    FilterPartition(controls, IsUser(), IsCamera());
    (Filter(controls, IsUser()), Filter(controls, IsCamera()))
  }

  /** The type tag of a control: "(bool)" for an "_automatic" control,
      "(int)" for every other. */
  function TypeTag(name: string): (r: string)
    ensures r == "(bool)" <==> EndsWith(name, "_automatic")
    ensures r == "(int)" <==> !EndsWith(name, "_automatic")
  {
    if EndsWith(name, "_automatic") then "(bool)" else "(int)"
  }

  /** The column where a listed name ends: 25, or later for a longer name. */
  function NameWidth(name: string): nat {
    if |name| >= 25 then |name| else 25
  }

  /** The start of a listing line: the aligned name, a space, the tag. */
  function LineHead(c: ControlInfo): (r: string)
    ensures |r| == NameWidth(c.name) + 1 + |TypeTag(c.name)|
    ensures r[..NameWidth(c.name)] == RightAlign(c.name, 25)
    ensures r[NameWidth(c.name)..] == " " + TypeTag(c.name)
  {
    var aligned := RightAlign(c.name, 25);
    var r := aligned + " " + TypeTag(c.name);
    assert r[..|aligned|] == aligned;
    assert r[|aligned|..] == " " + TypeTag(c.name);
    r
  }

  /** The rest of a listing line: range, step, default and current value. */
  function LineTail(c: ControlInfo): (r: string)
    ensures |r| > 0
  {
    "    : min=" + IntToString(c.minValue) + " max=" + IntToString(c.maxValue)
      + " step=" + IntToString(c.step) + " default=" + IntToString(c.defaultValue)
      + " value=" + IntToString(c.currentValue)
  }

  /** One line of the listing: the name right-aligned to 25 columns, the
      type tag, then range, step, default and current value. */
  function ControlLine(c: ControlInfo): (r: string)
    ensures |r| > NameWidth(c.name) + 1 + |TypeTag(c.name)|
    ensures r[..NameWidth(c.name)] == RightAlign(c.name, 25)
    ensures r[NameWidth(c.name)..NameWidth(c.name) + 1 + |TypeTag(c.name)|] == " " + TypeTag(c.name)
  {
    var head := LineHead(c);
    var r := head + LineTail(c);
    assert r[..|head|] == head;
    assert r[..NameWidth(c.name)] == head[..NameWidth(c.name)];
    assert r[NameWidth(c.name)..|head|] == head[NameWidth(c.name)..];
    r
  }

  function Lines(cs: seq<ControlInfo>): (r: seq<string>)
    ensures |r| == |cs|
    ensures forall k :: 0 <= k < |cs| ==> r[k] == ControlLine(cs[k])
  {
    seq(|cs|, k requires 0 <= k < |cs| => ControlLine(cs[k]))
  }

  /** A group of the listing under its header lines; nothing at all for an
      empty group. */
  function Section(headers: seq<string>, group: seq<ControlInfo>): (r: seq<string>)
    ensures |r| == if group == [] then 0 else |headers| + |group|
  {
    if group != [] then headers + Lines(group) else []
  }

  /** A text of at most 25 characters is never a control line, so it is in
      a section only as one of its headers. */
  lemma InSection(headers: seq<string>, group: seq<ControlInfo>, t: string)
    requires |t| <= 25
    ensures t in Section(headers, group) <==> group != [] && t in headers
  {
    var lines := Lines(group);
    forall k | 0 <= k < |lines| ensures lines[k] != t {
      assert |ControlLine(group[k])| > 25;
    }
    if group != [] {
      assert Section(headers, group) == headers + lines;
    }
  }

  /** `list_controls`: a notice when the device has no controls; otherwise
      the user group under "User Controls" and the camera group under
      "Camera Controls", each header printed only when its group is not
      empty. */
  function ListControls(controls: seq<ControlInfo>, device: int): (r: seq<string>)
    ensures controls == [] ==> r == ["设备 /dev/video" + IntToString(device) + " 无可用控制参数"]
    ensures controls != [] ==> (|r| == |controls|
      + (if Groups(controls).0 != [] then 2 else 0) + (if Groups(controls).1 != [] then 3 else 0))
  {
    if controls == [] then ["设备 /dev/video" + IntToString(device) + " 无可用控制参数"]
    else
      var (user, camera) := Groups(controls);
      assert |user| + |camera| == |controls| by {
        assert |multiset(user)| + |multiset(camera)| == |multiset(controls)|;
      }
      Section(["User Controls", ""], user) + Section(["", "Camera Controls", ""], camera)
  }

  /** The body of a non-empty listing: the two sections. */
  lemma ListingSections(controls: seq<ControlInfo>, device: int)
    requires controls != []
    ensures ListControls(controls, device)
      == Section(["User Controls", ""], Groups(controls).0) + Section(["", "Camera Controls", ""], Groups(controls).1)
  {
  }

  /** A listing line is a control line when it is longer than a header. */
  function IsControlLine(): string -> bool {
    (t: string) => |t| > 25
  }

  /** The control lines of a section are the lines of its group. */
  lemma SectionControlLines(headers: seq<string>, group: seq<ControlInfo>)
    requires forall k :: 0 <= k < |headers| ==> |headers[k]| <= 25
    ensures Filter(Section(headers, group), IsControlLine()) == Lines(group)
  {
    var lines := Lines(group);
    FilterAll(lines, IsControlLine());
    if group != [] {
      FilterAppend(headers, lines, IsControlLine());
      FilterNone(headers, IsControlLine());
      assert [] + lines == lines;
    }
  }

  /** The control lines of two sections, in section order. */
  lemma SectionsControlLines(h1: seq<string>, user: seq<ControlInfo>, h2: seq<string>, camera: seq<ControlInfo>)
    requires forall k :: 0 <= k < |h1| ==> |h1[k]| <= 25
    requires forall k :: 0 <= k < |h2| ==> |h2[k]| <= 25
    ensures Filter(Section(h1, user) + Section(h2, camera), IsControlLine()) == Lines(user) + Lines(camera)
  {
    FilterAppend(Section(h1, user), Section(h2, camera), IsControlLine());
    SectionControlLines(h1, user);
    SectionControlLines(h2, camera);
  }

  /** What a non-empty listing shows: one line per user control, in the
      order the controls were given, then one line per camera control, in
      that order; every other line is a header or blank. */
  lemma ListingControlLines(controls: seq<ControlInfo>, device: int)
    requires controls != []
    ensures Filter(ListControls(controls, device), IsControlLine())
      == Lines(Filter(controls, IsUser())) + Lines(Filter(controls, IsCamera()))
  {
    var h1 := ["User Controls", ""];
    var h2 := ["", "Camera Controls", ""];
    var user, camera := Filter(controls, IsUser()), Filter(controls, IsCamera());
    ListingSections(controls, device);
    GroupsAreFilters(controls);
    HeadersShort();
    SectionsControlLines(h1, user, h2, camera);
  }

  /** Both sections' header lines are at most 25 characters long. */
  lemma HeadersShort()
    ensures forall k :: 0 <= k < 2 ==> |["User Controls", ""][k]| <= 25
    ensures forall k :: 0 <= k < 3 ==> |["", "Camera Controls", ""][k]| <= 25
  {
    var h1 := ["User Controls", ""];
    var h2 := ["", "Camera Controls", ""];
    assert |h1[0]| == 13 && |h1[1]| == 0;
    assert |h2[0]| == 0 && |h2[1]| == 15 && |h2[2]| == 0;
  }

  /** The groups are the two filters of the controls. */
  lemma GroupsAreFilters(controls: seq<ControlInfo>)
    ensures Groups(controls) == (Filter(controls, IsUser()), Filter(controls, IsCamera()))
  {
  }

  /** "User Controls" is printed exactly when some control is not a camera
      control. */
  lemma UserHeaderIffUserControl(controls: seq<ControlInfo>, device: int)
    requires controls != []
    ensures "User Controls" in ListControls(controls, device) <==> exists c :: c in controls && c.name !in CameraNames
  {
    var user := Groups(controls).0;
    var headers := ["User Controls", ""];
    var others := ["", "Camera Controls", ""];
    assert |"User Controls"| == 13;
    ListingSections(controls, device);
    InSection(headers, user, "User Controls");
    InSection(others, Groups(controls).1, "User Controls");
    assert "User Controls" in headers && "User Controls" !in others;
    if user != [] {
      assert user[0] in controls;
    }
  }

  /** "Camera Controls" is printed exactly when some control is a camera
      control. */
  lemma CameraHeaderIffCameraControl(controls: seq<ControlInfo>, device: int)
    requires controls != []
    ensures "Camera Controls" in ListControls(controls, device) <==> exists c :: c in controls && c.name in CameraNames
  {
    var camera := Groups(controls).1;
    var headers := ["", "Camera Controls", ""];
    var others := ["User Controls", ""];
    assert |"Camera Controls"| == 15;
    ListingSections(controls, device);
    InSection(others, Groups(controls).0, "Camera Controls");
    InSection(headers, camera, "Camera Controls");
    assert "Camera Controls" in headers && "Camera Controls" !in others;
    if camera != [] {
      assert camera[0] in controls;
    }
  }

  // ---------------------------------------------------------------------
  // Choosing the action

  /** The parsed command line: how many arguments were given, the flags,
      the `-d` text and the `-c` text if any. */
  datatype Args = Args(
    argc: nat,
    help: bool,
    device: string,
    setCtrl: Option<string>,
    listCtrls: bool,
    listDevices: bool,
    listFormats: bool)

  /** What `main` does. */
  datatype Action =
    | ShowHelp
    | ExitWithError
    | ListAllDevices
    | ListFormats(device: int)
    | ListDeviceControls(device: int)
    | SetDeviceControls(device: int, setting: string)
    | AskForAction

  /** `main`'s dispatch: help when asked or when no argument is given;
      otherwise an exit with status 1 when no controller can be created for
      the platform; otherwise the first of --list-devices,
      --list-formats-ext, -L and a non-empty -c that is present, on the
      device `-d` names. */
  function ChooseAction(a: Args, created: bool): (r: Action)
    ensures r == ShowHelp <==> a.help || a.argc == 0
    ensures r == ExitWithError <==> !(a.help || a.argc == 0) && !created
    ensures r == ListAllDevices <==> !(a.help || a.argc == 0) && created && a.listDevices
    ensures r.ListFormats? <==> !(a.help || a.argc == 0) && created && !a.listDevices && a.listFormats
    ensures r.ListDeviceControls? <==> !(a.help || a.argc == 0) && created && !a.listDevices && !a.listFormats && a.listCtrls
    ensures r.SetDeviceControls? ==> a.setCtrl == Some(r.setting) && r.setting != []
    ensures r == AskForAction <==> (!(a.help || a.argc == 0) && created && !a.listDevices && !a.listFormats && !a.listCtrls
      && (a.setCtrl.None? || a.setCtrl.value == []))
    ensures r.ListFormats? || r.ListDeviceControls? || r.SetDeviceControls? ==> r.device == ParseDevicePath(a.device)
  {
    if a.help || a.argc == 0 then ShowHelp
    else if !created then ExitWithError
    else
      var device := ParseDevicePath(a.device);
      if a.listDevices then ListAllDevices
      else if a.listFormats then ListFormats(device)
      else if a.listCtrls then ListDeviceControls(device)
      else if a.setCtrl.Some? && a.setCtrl.value != [] then SetDeviceControls(device, a.setCtrl.value)
      else AskForAction
  }
}
