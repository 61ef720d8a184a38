/** The advanced control manager (advanced_controls.py): a fixed registry of
    twenty named controls, refreshed from whatever controller it is run
    against, with value validation, a dependency gate, value coercion,
    auto/manual mode tracking and named profiles.

    The manager is a state (registry, auto-mode map, profiles); every
    operation is a pure function from a state and a controller to a new
    state, the operation's answer and the trace of controller calls it made. */
module Advanced {
  import opened Wrappers
  import opened Records
  import opened Enumeration
  import Text

  // ---------------------------------------------------------------------
  // Data model

  /** The four kinds of advanced control. */
  datatype ControlType = RangeType | BooleanType | MenuType | ActionType

  /** One registry entry. The five "live" fields (bounds, step, default and
      current value) are overwritten whenever the manager lists the
      controller's controls; the rest is fixed at construction. */
  datatype AdvancedControl = AdvancedControl(
    name: string,
    displayName: string,
    description: string,
    controlType: ControlType,
    minValue: Option<int>,
    maxValue: Option<int>,
    step: int,
    defaultValue: Option<int>,
    currentValue: Option<int>,
    autoSupported: bool,
    autoEnabled: bool,
    menuItems: Option<seq<string>>,
    dependencies: Option<seq<string>>)

  /** An entry with every optional field at its dataclass default. */
  function Plain(name: string, displayName: string, description: string, controlType: ControlType): AdvancedControl {
    AdvancedControl(name, displayName, description, controlType, None, None, 1, None, None, false, false, None, None)
  }

  /** The registry the manager starts with, in declaration order. */
  const Registry: seq<AdvancedControl> := [
    Plain("brightness", "亮度", "调整图像亮度", RangeType).(autoSupported := true),
    Plain("contrast", "对比度", "调整图像对比度", RangeType).(autoSupported := true),
    Plain("saturation", "饱和度", "调整颜色饱和度", RangeType).(autoSupported := true),
    Plain("hue", "色调", "调整颜色色调", RangeType),
    Plain("exposure", "曝光", "调整曝光时间", RangeType).(autoSupported := true),
    Plain("exposure_auto", "自动曝光", "启用/禁用自动曝光", BooleanType).(dependencies := Some(["exposure"])),
    Plain("gain", "增益", "调整传感器增益", RangeType).(autoSupported := true),
    Plain("focus", "对焦", "调整镜头对焦位置", RangeType).(autoSupported := true),
    Plain("focus_auto", "自动对焦", "启用/禁用自动对焦", BooleanType).(dependencies := Some(["focus"])),
    Plain("focus_continuous", "连续对焦", "启用连续自动对焦", BooleanType).(dependencies := Some(["focus_auto"])),
    Plain("white_balance", "白平衡", "调整白平衡", MenuType).(
      menuItems := Some(["自动", "白炽灯", "荧光灯", "日光", "阴天", "手动"]), autoSupported := true),
    Plain("white_balance_temperature", "色温", "手动设置色温", RangeType).(
      minValue := Some(2000), maxValue := Some(10000), dependencies := Some(["white_balance"])),
    Plain("zoom", "缩放", "数字缩放", RangeType).(minValue := Some(100), maxValue := Some(1000), defaultValue := Some(100)),
    Plain("pan", "水平移动", "水平方向移动", RangeType),
    Plain("tilt", "垂直移动", "垂直方向移动", RangeType),
    Plain("sharpness", "锐度", "调整图像锐度", RangeType),
    Plain("gamma", "伽马", "调整伽马值", RangeType),
    Plain("backlight_compensation", "背光补偿", "背光补偿", BooleanType),
    Plain("noise_reduction", "降噪", "图像降噪", RangeType),
    Plain("image_stabilization", "图像稳定", "启用图像稳定", BooleanType)
  ]

  /** A Python value handed to `set_control_with_validation`. Python's bool
      is a subclass of int; `Str` is any string and `NoValue` is None (or
      any other object that is neither a number nor a string). */
  datatype Value = Bool(b: bool) | Int(i: int) | Float(x: real) | Str(s: string) | NoValue

  /** One control recorded in a profile: its value and whether it was in
      auto mode. */
  datatype ProfileEntry = ProfileEntry(name: string, value: Option<int>, autoEnabled: bool)

  /** A profile, in the order its controls were recorded. */
  type Profile = seq<ProfileEntry>

  /** The manager's state: the registry, the auto-mode map and the profiles. */
  datatype Manager = Manager(registry: seq<AdvancedControl>, autoModes: map<string, bool>, profiles: map<string, Profile>)

  /** The state right after construction. */
  const Initial: Manager := Manager(Registry, map[], map[])

  /** The controller the manager drives: the controls it lists for a device
      index, and its answer to a set request. */
  datatype Backend = Backend(controls: int -> seq<ControlInfo>, setControl: (int, string, int) -> bool)

  /** One call the manager makes on the controller. */
  datatype Call = Fetch(device: int) | Dispatch(device: int, name: string, value: int)

  /** The outcome of one operation: the new state, the answer, and the
      controller calls made, in order. */
  datatype Step<T> = Step(manager: Manager, result: T, calls: seq<Call>)

  // ---------------------------------------------------------------------
  // Names

  function IsNamed(name: string): AdvancedControl -> bool {
    (e: AdvancedControl) => e.name == name
  }

  /** Some registry entry is called `name`. */
  predicate Registered(entries: seq<AdvancedControl>, name: string) {
    exists i :: 0 <= i < |entries| && entries[i].name == name
  }

  /** The controller lists a control called `name`. */
  predicate Listed(controls: seq<ControlInfo>, name: string) {
    exists k :: 0 <= k < |controls| && controls[k].name == name
  }

  /** `self.advanced_controls[name]`, None when absent. */
  function Lookup(entries: seq<AdvancedControl>, name: string): (r: Option<AdvancedControl>)
    ensures r.None? <==> !Registered(entries, name)
    ensures r.Some? ==> r.value in entries && r.value.name == name
  {
    match FirstIndex(entries, IsNamed(name))
    case None => None
    case Some(i) => Some(entries[i])
  }

  // ---------------------------------------------------------------------
  // Listing the available controls

  /** An entry with its live fields reset: what no operation changes. */
  function Static(e: AdvancedControl): AdvancedControl {
    e.(minValue := None, maxValue := None, step := 1, defaultValue := None, currentValue := None)
  }

  /** Two registries hold the same entries up to their live fields. */
  predicate SameStatics(a: seq<AdvancedControl>, b: seq<AdvancedControl>) {
    |a| == |b| && forall i :: 0 <= i < |a| ==> Static(a[i]) == Static(b[i])
  }

  /** The entry's live fields are those of controller control c. */
  predicate LiveFrom(e: AdvancedControl, c: ControlInfo) {
    e.minValue == Some(c.minValue) && e.maxValue == Some(c.maxValue) && e.step == c.step
    && e.defaultValue == Some(c.defaultValue) && e.currentValue == Some(c.currentValue)
  }

  /** Position k holds the first controller control called `name`. */
  predicate FirstNamedAt(controls: seq<ControlInfo>, name: string, k: int) {
    0 <= k < |controls| && controls[k].name == name && forall j :: 0 <= j < k ==> controls[j].name != name
  }

  /** One registry entry after a listing: its live fields taken from the
      first controller control of the same name, untouched if there is none. */
  function Refresh(e: AdvancedControl, controls: seq<ControlInfo>): (r: AdvancedControl)
    ensures Static(r) == Static(e) && r.name == e.name
    ensures !Listed(controls, e.name) ==> r == e
    ensures forall k :: FirstNamedAt(controls, e.name, k) ==> LiveFrom(r, controls[k])
  {
    match FirstIndex(controls, Named(e.name))
    case None =>
      assert !Listed(controls, e.name) by {
        forall k | 0 <= k < |controls| ensures controls[k].name != e.name {
          assert !Named(e.name)(controls[k]);
        }
      }
      e
    case Some(f) =>
      var c := controls[f];
      assert forall k :: FirstNamedAt(controls, e.name, k) ==> k == f by {
        forall k | FirstNamedAt(controls, e.name, k) ensures k == f {
          assert Named(e.name)(controls[k]);
        }
      }
      e.(minValue := Some(c.minValue), maxValue := Some(c.maxValue), step := c.step,
         defaultValue := Some(c.defaultValue), currentValue := Some(c.currentValue))
  }

  /** Refreshing twice from the same listing changes nothing more. */
  lemma RefreshIdempotent(e: AdvancedControl, controls: seq<ControlInfo>)
    ensures Refresh(Refresh(e, controls), controls) == Refresh(e, controls)
  {
  }

  function RefreshAll(entries: seq<AdvancedControl>, controls: seq<ControlInfo>): (r: seq<AdvancedControl>)
    ensures |r| == |entries|
    ensures forall i :: 0 <= i < |r| ==> r[i] == Refresh(entries[i], controls)
  {
    seq(|entries|, i requires 0 <= i < |entries| => Refresh(entries[i], controls))
  }

  function IsListed(controls: seq<ControlInfo>): AdvancedControl -> bool {
    (e: AdvancedControl) => Listed(controls, e.name)
  }

  /** `get_available_controls`: one fetch of the controller's controls; every
      registry entry the controller lists has its live fields overwritten in
      place from the first control of that name, and the answer holds exactly
      the (refreshed) registry entries the controller lists. Nothing else in
      the state changes. */
  function GetAvailableControls(m: Manager, backend: Backend, device: int): (r: Step<seq<AdvancedControl>>)
    ensures r.calls == [Fetch(device)]
    ensures r.manager.autoModes == m.autoModes && r.manager.profiles == m.profiles
    ensures r.manager.registry == RefreshAll(m.registry, backend.controls(device))
    ensures forall e :: e in r.result <==> e in r.manager.registry && Listed(backend.controls(device), e.name)
  {
    var controls := backend.controls(device);
    var registry := RefreshAll(m.registry, controls);
    Step(m.(registry := registry), Filter(registry, IsListed(controls)), [Fetch(device)])
  }

  /** The answer keeps registry order: two listed entries appear in the
      order they have in the registry. */
  lemma AvailableInRegistryOrder(m: Manager, backend: Backend, device: int, i: int, j: int)
    requires 0 <= i < j < |m.registry|
    requires Listed(backend.controls(device), m.registry[i].name) && Listed(backend.controls(device), m.registry[j].name)
    ensures var r := GetAvailableControls(m, backend, device);
      exists a, b :: 0 <= a < b < |r.result| && r.result[a] == r.manager.registry[i] && r.result[b] == r.manager.registry[j]
  {
    var controls := backend.controls(device);
    var registry := RefreshAll(m.registry, controls);
    var r := GetAvailableControls(m, backend, device);
    assert r.result == Filter(registry, IsListed(controls)) && r.manager.registry == registry;
    assert IsListed(controls)(registry[i]) && IsListed(controls)(registry[j]);
    FilterKeepsPositions(registry, IsListed(controls), i, j);
    var a, b :| 0 <= a < b < |r.result| && r.result[a] == registry[i] && r.result[b] == registry[j];
  }

  /** Listing twice against the same controller gives the same registry and
      the same answer as listing once. */
  lemma GetAvailableIdempotent(m: Manager, backend: Backend, device: int)
    ensures var once := GetAvailableControls(m, backend, device);
      var twice := GetAvailableControls(once.manager, backend, device);
      twice.manager == once.manager && twice.result == once.result
  {
    var controls := backend.controls(device);
    var once := RefreshAll(m.registry, controls);
    var twice := RefreshAll(once, controls);
    forall i | 0 <= i < |once| ensures twice[i] == once[i] {
      RefreshIdempotent(m.registry[i], controls);
    }
    assert twice == once;
  }

  /** The names of the available controls: the registered names the
      controller lists. */
  lemma AvailableNames(m: Manager, backend: Backend, device: int, name: string)
    ensures Registered(GetAvailableControls(m, backend, device).result, name)
      <==> Registered(m.registry, name) && Listed(backend.controls(device), name)
  {
    var controls := backend.controls(device);
    assert GetAvailableControls(m, backend, device).result == Filter(RefreshAll(m.registry, controls), IsListed(controls));
    RefreshedNamesListed(m.registry, controls, name);
  }

  /** A name is among the refreshed entries the controller lists exactly
      when it is registered and listed. */
  lemma RefreshedNamesListed(entries: seq<AdvancedControl>, controls: seq<ControlInfo>, name: string)
    ensures Registered(Filter(RefreshAll(entries, controls), IsListed(controls)), name)
      <==> Registered(entries, name) && Listed(controls, name)
  {
    var registry := RefreshAll(entries, controls);
    var result := Filter(registry, IsListed(controls));
    if Registered(entries, name) && Listed(controls, name) {
      var i :| 0 <= i < |entries| && entries[i].name == name;
      assert registry[i].name == name;
      assert IsListed(controls)(registry[i]);
      assert registry[i] in result;
      var a :| 0 <= a < |result| && result[a] == registry[i];
    }
    if Registered(result, name) {
      var a :| 0 <= a < |result| && result[a].name == name;
      assert result[a] in registry && IsListed(controls)(result[a]);
      var i :| 0 <= i < |registry| && registry[i] == result[a];
      assert entries[i].name == name;
    }
  }

  // ---------------------------------------------------------------------
  // Validation and coercion

  /** `isinstance(v, (int, float))`. */
  predicate IsNumber(v: Value) {
    v.Bool? || v.Int? || v.Float?
  }

  /** `isinstance(v, int)` (True for bools). */
  predicate IsInt(v: Value) {
    v.Bool? || v.Int?
  }

  function IntOf(v: Value): int
    requires IsInt(v)
  {
    if v.Int? then v.i else if v.b then 1 else 0
  }

  function RealOf(v: Value): real
    requires IsNumber(v)
  {
    if v.Float? then v.x else IntOf(v) as real
  }

  /** Python truthiness. */
  predicate Truthy(v: Value) {
    match v
    case Bool(b) => b
    case Int(i) => i != 0
    case Float(x) => x != 0.0
    case Str(s) => s != []
    case NoValue => false
  }

  /** x lies within the entry's stored bounds; a bound still None imposes
      no limit. */
  predicate WithinBounds(c: AdvancedControl, x: real) {
    (c.minValue.None? || c.minValue.value as real <= x) && (c.maxValue.None? || x <= c.maxValue.value as real)
  }

  /** `_validate_control_value`: a range control wants a number within its
      stored bounds; a boolean control wants an int (or bool); a menu control
      with items rejects an int outside the item positions and lets
      everything else through; an action control accepts anything. */
  predicate Validate(c: AdvancedControl, v: Value) {
    match c.controlType
    case RangeType => IsNumber(v) && WithinBounds(c, RealOf(v))
    case BooleanType => IsInt(v)
    case MenuType =>
      !(c.menuItems.Some? && c.menuItems.value != [] && IsInt(v)) || 0 <= IntOf(v) < |c.menuItems.value|
    case ActionType => true
  }

  /** Python's `int(v)`; None where it raises (None, a float-looking or
      non-numeric string). */
  function PythonInt(v: Value): (r: Option<int>)
    ensures IsNumber(v) ==> r.Some?
    ensures v.Bool? ==> r == Some(if v.b then 1 else 0)
    ensures v.Int? ==> r == Some(v.i)
    ensures v.Float? ==> r == Some(Truncate(v.x))
    ensures v.Str? ==> r == Text.ParseInt(v.s)
    ensures v.NoValue? ==> r.None?
  {
    match v
    case Bool(b) => Some(if b then 1 else 0)
    case Int(i) => Some(i)
    case Float(x) => Some(Truncate(x))
    case Str(s) => Text.ParseInt(s)
    case NoValue => None
  }

  /** The integer `set_control_with_validation` dispatches (None where
      `int()` raises): 1 or 0 by truthiness for a boolean control, the int
      itself or 0 for a menu control, `int(v)` otherwise. */
  function Coerce(c: AdvancedControl, v: Value): (r: Option<int>)
    ensures c.controlType.BooleanType? ==> r.Some? && (r.value == 1 <==> Truthy(v)) && (r.value == 0 <==> !Truthy(v))
    ensures c.controlType.MenuType? ==> r.Some? && (!IsInt(v) ==> r.value == 0)
    ensures Validate(c, v) && c.controlType.MenuType? && c.menuItems.Some? && c.menuItems.value != [] ==>
      0 <= r.value < |c.menuItems.value|
    ensures Validate(c, v) && c.controlType.RangeType? ==> r.Some? && WithinBounds(c, r.value as real)
    ensures IsNumber(v) ==> r.Some?
    ensures c.controlType.RangeType? || c.controlType.ActionType? ==> r == PythonInt(v)
    ensures c.controlType.MenuType? && IsInt(v) ==> r == Some(IntOf(v))
    ensures c.controlType.MenuType? && v.Int? ==> r == Some(v.i)
  {
    match c.controlType
    case BooleanType => Some(if Truthy(v) then 1 else 0)
    case MenuType => Some(if IsInt(v) then IntOf(v) else 0)
    case RangeType =>
      assert Validate(c, v) ==> WithinBounds(c, PythonInt(v).value as real) by {
        if Validate(c, v) {
          var x := RealOf(v);
          var lo := if c.minValue.Some? then c.minValue.value else x.Floor;
          var hi := if c.maxValue.Some? then c.maxValue.value else x.Floor + 1;
          if v.Float? {
            TruncateBetween(x, lo, hi);
          }
        }
      }
      PythonInt(v)
    case ActionType => PythonInt(v)
  }

  // ---------------------------------------------------------------------
  // Setting a control

  /** Every dependency of c is a registered name the controller lists. */
  predicate DependenciesMet(entries: seq<AdvancedControl>, controls: seq<ControlInfo>, c: AdvancedControl) {
    c.dependencies.None? ||
    forall k :: 0 <= k < |c.dependencies.value| ==>
      Registered(entries, c.dependencies.value[k]) && Listed(controls, c.dependencies.value[k])
  }

  /** `_check_dependencies`: an entry without dependencies passes without
      asking the controller; otherwise the manager lists the available
      controls (refreshing the registry) and every dependency must be among
      them. */
  function CheckDependencies(m: Manager, backend: Backend, device: int, c: AdvancedControl): (r: Step<bool>)
    ensures r.result <==> DependenciesMet(m.registry, backend.controls(device), c)
    ensures c.dependencies.None? || c.dependencies.value == [] ==> r == Step(m, true, [])
    ensures c.dependencies.Some? && c.dependencies.value != [] ==>
      r.calls == [Fetch(device)] && r.manager == GetAvailableControls(m, backend, device).manager
  {
    if c.dependencies.None? || c.dependencies.value == [] then Step(m, true, [])
    else
      var s := GetAvailableControls(m, backend, device);
      var deps := c.dependencies.value;
      assert forall k :: 0 <= k < |deps| ==>
        (Registered(s.result, deps[k]) <==> Registered(m.registry, deps[k]) && Listed(backend.controls(device), deps[k])) by {
        forall k | 0 <= k < |deps| {
          AvailableNames(m, backend, device, deps[k]);
        }
      }
      Step(s.manager, forall k :: 0 <= k < |deps| ==> Registered(s.result, deps[k]), s.calls)
  }

  /** The three gates before a dispatch: the name is registered, the value
      validates against the entry as stored, and its dependencies are met. */
  predicate Admitted(m: Manager, controls: seq<ControlInfo>, name: string, v: Value) {
    Lookup(m.registry, name).Some? && Validate(Lookup(m.registry, name).value, v)
    && DependenciesMet(m.registry, controls, Lookup(m.registry, name).value)
  }

  /** No call in the trace is a dispatch. */
  predicate FetchesOnly(calls: seq<Call>) {
    forall k :: 0 <= k < |calls| ==> calls[k].Fetch?
  }

  /** `set_control_with_validation`. An unregistered name is refused with
      no controller call. A value that fails validation or an entry whose
      dependencies are not met is refused without any dispatch. Otherwise
      the coerced value is dispatched once, last, and the controller's
      answer is returned (see SetDispatches). Only the live fields of the
      registry can change. */
  function SetControlWithValidation(m: Manager, backend: Backend, device: int, name: string, v: Value): (r: Step<Option<bool>>)
    ensures Lookup(m.registry, name).None? ==> r == Step(m, Some(false), [])
    ensures !Admitted(m, backend.controls(device), name, v) ==> r.result == Some(false) && FetchesOnly(r.calls)
    ensures SameStatics(m.registry, r.manager.registry)
    ensures r.manager.autoModes == m.autoModes && r.manager.profiles == m.profiles
  {
    match Lookup(m.registry, name)
    case None => Step(m, Some(false), [])
    case Some(c) =>
      if !Validate(c, v) then Step(m, Some(false), [])
      else
        var deps := CheckDependencies(m, backend, device, c);
        if !deps.result then Step(deps.manager, Some(false), deps.calls)
        else
          match Coerce(c, v)
          case None => Step(deps.manager, None, deps.calls)
          case Some(x) =>
            assert (deps.calls + [Dispatch(device, name, x)])[..|deps.calls|] == deps.calls;
            Step(deps.manager, Some(backend.setControl(device, name, x)), deps.calls + [Dispatch(device, name, x)])
  }

  /** An admitted set dispatches the coerced value once, after at most the
      dependency fetch, and answers what the controller answers; when
      `int()` raises on the value (None) nothing is dispatched. */
  lemma SetDispatches(m: Manager, backend: Backend, device: int, name: string, v: Value)
    requires Admitted(m, backend.controls(device), name, v)
    ensures var r := SetControlWithValidation(m, backend, device, name, v);
      var x := Coerce(Lookup(m.registry, name).value, v);
      (x.None? ==> r.result.None? && FetchesOnly(r.calls))
      && (x.Some? ==> (r.result == Some(backend.setControl(device, name, x.value))
          && |r.calls| > 0 && r.calls[|r.calls| - 1] == Dispatch(device, name, x.value)
          && FetchesOnly(r.calls[..|r.calls| - 1])))
  {
    var c := Lookup(m.registry, name).value;
    var deps := CheckDependencies(m, backend, device, c);
    assert deps.result && FetchesOnly(deps.calls);
  }

  // ---------------------------------------------------------------------
  // Auto mode

  /** The name of the controller control that switches `name`'s auto mode. */
  function AutoName(name: string): string {
    name + "_automatic"
  }

  /** `enable_auto_mode`: only a registered entry that supports auto mode is
      switched, by dispatching 1 to its "_automatic" control; the map records
      True only when the controller accepts. */
  function EnableAutoMode(m: Manager, backend: Backend, device: int, name: string): (r: Step<bool>)
    ensures r.result <==> (Lookup(m.registry, name).Some? && Lookup(m.registry, name).value.autoSupported
      && backend.setControl(device, AutoName(name), 1))
    ensures r.calls == if Lookup(m.registry, name).Some? && Lookup(m.registry, name).value.autoSupported
      then [Dispatch(device, AutoName(name), 1)] else []
    ensures r.manager == if r.result then m.(autoModes := m.autoModes[name := true]) else m
  {
    match Lookup(m.registry, name)
    case None => Step(m, false, [])
    case Some(c) =>
      if !c.autoSupported then Step(m, false, [])
      else
        var ok := backend.setControl(device, AutoName(name), 1);
        Step(if ok then m.(autoModes := m.autoModes[name := true]) else m, ok, [Dispatch(device, AutoName(name), 1)])
  }

  /** `disable_auto_mode`: any registered entry, whether or not it supports
      auto mode, is switched by dispatching 0; the map records False only
      when the controller accepts. */
  function DisableAutoMode(m: Manager, backend: Backend, device: int, name: string): (r: Step<bool>)
    ensures r.result <==> Registered(m.registry, name) && backend.setControl(device, AutoName(name), 0)
    ensures r.calls == if Registered(m.registry, name) then [Dispatch(device, AutoName(name), 0)] else []
    ensures r.manager == if r.result then m.(autoModes := m.autoModes[name := false]) else m
  {
    if !Registered(m.registry, name) then Step(m, false, [])
    else
      var ok := backend.setControl(device, AutoName(name), 0);
      Step(if ok then m.(autoModes := m.autoModes[name := false]) else m, ok, [Dispatch(device, AutoName(name), 0)])
  }

  /** Switching a control to auto and back to manual leaves it recorded as
      manual when both switches are accepted, and every other control's
      record as it was. */
  lemma EnableThenDisable(m: Manager, backend: Backend, device: int, name: string, other: string)
    requires EnableAutoMode(m, backend, device, name).result
    requires backend.setControl(device, AutoName(name), 0)
    requires other != name
    ensures var on := EnableAutoMode(m, backend, device, name);
      var off := DisableAutoMode(on.manager, backend, device, name);
      off.result && off.manager.autoModes[name] == false
      && (other in off.manager.autoModes <==> other in m.autoModes)
      && (other in m.autoModes ==> off.manager.autoModes[other] == m.autoModes[other])
      && off.manager.registry == m.registry
  {
    var on := EnableAutoMode(m, backend, device, name);
    assert on.manager.registry == m.registry;
    assert Registered(m.registry, name);
  }

  /** `auto_adjust_exposure` without the two-second wait: auto mode for
      exposure. */
  function AutoAdjustExposure(m: Manager, backend: Backend, device: int): (r: Step<bool>)
    ensures r.result ==> backend.setControl(device, "exposure_automatic", 1)
    ensures r.result ==> r.manager.autoModes == m.autoModes["exposure" := true]
  {
    assert AutoName("exposure") == "exposure_automatic";
    EnableAutoMode(m, backend, device, "exposure")
  }

  /** `auto_adjust_white_balance` without the two-second wait: auto mode for
      white balance. */
  function AutoAdjustWhiteBalance(m: Manager, backend: Backend, device: int): (r: Step<bool>)
    ensures r.result ==> backend.setControl(device, "white_balance_automatic", 1)
    ensures r.result ==> r.manager.autoModes == m.autoModes["white_balance" := true]
  {
    assert AutoName("white_balance") == "white_balance_automatic";
    EnableAutoMode(m, backend, device, "white_balance")
  }

  /** The entry found under a name is the first one carrying it. */
  lemma LookupFirst(entries: seq<AdvancedControl>, name: string, i: int)
    requires 0 <= i < |entries| && entries[i].name == name
    requires forall j :: 0 <= j < i ==> entries[j].name != name
    ensures Lookup(entries, name) == Some(entries[i])
  {
    FirstIndexAt(entries, IsNamed(name), i);
  }

  /** Whenever the registry's exposure (white balance) entry supports auto
      mode, the automatic adjustment answers exactly what the controller
      answers to switching "exposure_automatic" ("white_balance_automatic")
      on. */
  lemma AutoAdjustAnswers(m: Manager, backend: Backend, device: int)
    ensures Lookup(m.registry, "exposure").Some? && Lookup(m.registry, "exposure").value.autoSupported ==>
      AutoAdjustExposure(m, backend, device).result == backend.setControl(device, "exposure_automatic", 1)
    ensures Lookup(m.registry, "white_balance").Some? && Lookup(m.registry, "white_balance").value.autoSupported ==>
      AutoAdjustWhiteBalance(m, backend, device).result == backend.setControl(device, "white_balance_automatic", 1)
  {
    assert AutoName("exposure") == "exposure_automatic";
    assert AutoName("white_balance") == "white_balance_automatic";
  }

  /** In the initial registry exposure supports auto mode. */
  lemma ExposureSupportsAuto()
    ensures Lookup(Registry, "exposure").Some? && Lookup(Registry, "exposure").value.autoSupported
  {
    LookupFirst(Registry, "exposure", 4);
  }

  /** In the initial registry white balance supports auto mode. */
  lemma WhiteBalanceSupportsAuto()
    ensures Lookup(Registry, "white_balance").Some? && Lookup(Registry, "white_balance").value.autoSupported
  {
    assert forall j :: 0 <= j < 10 ==> Registry[j].name != "white_balance";
    LookupFirst(Registry, "white_balance", 10);
  }

  /** In the initial registry hue does not support auto mode. */
  lemma HueHasNoAuto()
    ensures Lookup(Registry, "hue").Some? && !Lookup(Registry, "hue").value.autoSupported
  {
    LookupFirst(Registry, "hue", 3);
  }

  /** On a fresh manager both automatic adjustments are exactly the
      controller's answer to switching the "_automatic" control on, while
      hue, which does not support auto mode, is refused with no call. */
  lemma AutoAdjustOnInitial(backend: Backend, device: int)
    ensures AutoAdjustExposure(Initial, backend, device).result == backend.setControl(device, "exposure_automatic", 1)
    ensures AutoAdjustWhiteBalance(Initial, backend, device).result == backend.setControl(device, "white_balance_automatic", 1)
    ensures EnableAutoMode(Initial, backend, device, "hue") == Step(Initial, false, [])
  {
    ExposureSupportsAuto();
    WhiteBalanceSupportsAuto();
    HueHasNoAuto();
    AutoAdjustAnswers(Initial, backend, device);
  }

  // ---------------------------------------------------------------------
  // Profiles

  /** `self.auto_controls.get(name, False)`. */
  function AutoModeOf(modes: map<string, bool>, name: string): bool {
    if name in modes then modes[name] else false
  }

  /** The profile recorded for the available controls: each one's current
      value and recorded auto mode, in listing order. */
  function Snapshot(available: seq<AdvancedControl>, modes: map<string, bool>): (p: Profile)
    ensures |p| == |available|
    ensures forall k :: 0 <= k < |p| ==>
      p[k].name == available[k].name && p[k].value == available[k].currentValue
      && p[k].autoEnabled == AutoModeOf(modes, available[k].name)
  {
    seq(|available|, k requires 0 <= k < |available| =>
      ProfileEntry(available[k].name, available[k].currentValue, AutoModeOf(modes, available[k].name)))
  }

  /** Every entry of a snapshot of the available controls names a
      registered, listed control and holds a value. */
  lemma SnapshotOfAvailable(m: Manager, backend: Backend, device: int)
    ensures forall e :: e in Snapshot(GetAvailableControls(m, backend, device).result, m.autoModes) ==>
      Registered(m.registry, e.name) && Listed(backend.controls(device), e.name) && e.value.Some?
  {
    var s := GetAvailableControls(m, backend, device);
    var profile := Snapshot(s.result, m.autoModes);
    forall e | e in profile
      ensures Registered(m.registry, e.name) && Listed(backend.controls(device), e.name) && e.value.Some?
    {
      var k :| 0 <= k < |profile| && profile[k] == e;
      var i :| 0 <= i < |s.manager.registry| && s.manager.registry[i] == s.result[k];
      assert m.registry[i].name == e.name;
      var controls := backend.controls(device);
      var j := FirstIndex(controls, Named(e.name)).value;
      assert LiveFrom(s.result[k], controls[j]);
    }
  }

  /** `create_control_profile`: lists the available controls and stores
      their snapshot under `name`, replacing any profile of that name and
      leaving the others alone. */
  function CreateControlProfile(m: Manager, backend: Backend, name: string, device: int): (r: Step<bool>)
    ensures r.result && r.calls == [Fetch(device)]
    ensures name in r.manager.profiles
    ensures forall n :: n != name ==> ((n in r.manager.profiles <==> n in m.profiles)
      && (n in m.profiles ==> r.manager.profiles[n] == m.profiles[n]))
    ensures forall e :: e in r.manager.profiles[name] ==>
      Registered(m.registry, e.name) && Listed(backend.controls(device), e.name)
      && e.value.Some? && e.autoEnabled == AutoModeOf(m.autoModes, e.name)
    ensures r.manager.registry == GetAvailableControls(m, backend, device).manager.registry
    ensures r.manager.autoModes == m.autoModes
    ensures r.manager.profiles[name] == Snapshot(GetAvailableControls(m, backend, device).result, m.autoModes)
  {
    var s := GetAvailableControls(m, backend, device);
    var profile := Snapshot(s.result, m.autoModes);
    SnapshotOfAvailable(m, backend, device);
    Step(s.manager.(profiles := m.profiles[name := profile]), true, s.calls)
  }

  /** A manual-mode profile value as the Python value handed back to
      `set_control_with_validation`. */
  function ValueOf(o: Option<int>): Value {
    if o.Some? then Int(o.value) else NoValue
  }

  /** The auto-mode record of `n` is the same in both maps. */
  predicate SameMode(a: map<string, bool>, b: map<string, bool>, n: string) {
    (n in a <==> n in b) && (n in a ==> a[n] == b[n])
  }

  /** The loop of `apply_control_profile` over the profile's entries: an auto
      entry is switched to auto; a manual entry is switched to manual and its
      value set. It answers True unless a set raises, which ends the loop with
      False. Only the registry's live fields can change here; ApplyFirstCall
      and ApplyKeepsOtherModes say more about the calls and the modes. */
  function ApplyEntries(m: Manager, backend: Backend, device: int, entries: Profile): (r: Step<bool>)
    ensures (forall k :: 0 <= k < |entries| ==> entries[k].value.Some?) ==> r.result
    ensures SameStatics(m.registry, r.manager.registry)
    ensures r.manager.profiles == m.profiles
    decreases |entries|
  {
    if entries == [] then Step(m, true, [])
    else
      var e := entries[0];
      assert forall k :: 1 <= k < |entries| ==> entries[k] == entries[1..][k - 1];
      if e.autoEnabled then
        var on := EnableAutoMode(m, backend, device, e.name);
        var rest := ApplyEntries(on.manager, backend, device, entries[1..]);
        Step(rest.manager, rest.result, on.calls + rest.calls)
      else
        var off := DisableAutoMode(m, backend, device, e.name);
        assert off.manager.registry == m.registry;
        var applied := SetControlWithValidation(off.manager, backend, device, e.name, ValueOf(e.value));
        assert e.value.Some? ==> applied.result.Some? by {
          if e.value.Some? && Admitted(off.manager, backend.controls(device), e.name, ValueOf(e.value)) {
            assert Coerce(Lookup(off.manager.registry, e.name).value, ValueOf(e.value)).Some?;
          }
        }
        if applied.result.None? then Step(applied.manager, false, off.calls + applied.calls)
        else
          var rest := ApplyEntries(applied.manager, backend, device, entries[1..]);
          Step(rest.manager, rest.result, off.calls + applied.calls + rest.calls)
  }

  /** The first call of an applied profile switches the first entry's
      "_automatic" control: to 0 for a manual entry of any registered
      control, to 1 for an auto entry whose control supports auto mode. */
  lemma ApplyFirstCall(m: Manager, backend: Backend, device: int, entries: Profile)
    requires entries != [] && Registered(m.registry, entries[0].name)
    requires entries[0].autoEnabled ==> Lookup(m.registry, entries[0].name).value.autoSupported
    ensures var r := ApplyEntries(m, backend, device, entries);
      r.calls != [] && r.calls[0] == Dispatch(device, AutoName(entries[0].name), if entries[0].autoEnabled then 1 else 0)
  {
  }

  /** Applying a profile leaves the recorded mode of every control outside
      the profile as it was. */
  lemma {:induction false} ApplyKeepsOtherModes(m: Manager, backend: Backend, device: int, entries: Profile, n: string)
    requires forall k :: 0 <= k < |entries| ==> entries[k].name != n
    ensures SameMode(m.autoModes, ApplyEntries(m, backend, device, entries).manager.autoModes, n)
    decreases |entries|
  {
    if entries != [] {
      var e := entries[0];
      assert forall k :: 0 <= k < |entries[1..]| ==> entries[1..][k] == entries[k + 1];
      assert e.name != n;
      if e.autoEnabled {
        var on := EnableAutoMode(m, backend, device, e.name);
        ApplyKeepsOtherModes(on.manager, backend, device, entries[1..], n);
      } else {
        var off := DisableAutoMode(m, backend, device, e.name);
        var applied := SetControlWithValidation(off.manager, backend, device, e.name, ValueOf(e.value));
        if applied.result.Some? {
          ApplyKeepsOtherModes(applied.manager, backend, device, entries[1..], n);
        }
      }
    }
  }

  /** Registries with the same statics answer every lookup alike: the same
      entry is found (up to its live fields) and the same names are
      registered. */
  lemma LookupStatics(a: seq<AdvancedControl>, b: seq<AdvancedControl>, name: string)
    requires SameStatics(a, b)
    ensures Lookup(a, name).None? <==> Lookup(b, name).None?
    ensures Lookup(a, name).Some? ==> Static(Lookup(a, name).value) == Static(Lookup(b, name).value)
    ensures Registered(a, name) <==> Registered(b, name)
  {
    assert forall i :: 0 <= i < |a| ==> (IsNamed(name)(a[i]) <==> IsNamed(name)(b[i])) by {
      forall i | 0 <= i < |a| ensures IsNamed(name)(a[i]) <==> IsNamed(name)(b[i]) {
        assert Static(a[i]).name == Static(b[i]).name;
      }
    }
    var fa := FirstIndex(a, IsNamed(name));
    var fb := FirstIndex(b, IsNamed(name));
    if fa.Some? {
      FirstIndexAt(b, IsNamed(name), fa.value);
    } else if fb.Some? {
      FirstIndexAt(a, IsNamed(name), fb.value);
    }
    if Registered(a, name) {
      var i :| 0 <= i < |a| && a[i].name == name;
      assert Static(a[i]).name == Static(b[i]).name;
    }
    if Registered(b, name) {
      var i :| 0 <= i < |b| && b[i].name == name;
      assert Static(a[i]).name == Static(b[i]).name;
    }
  }

  /** The auto-mode switch a profile entry dispatches first: 1 for an auto
      entry whose control supports auto mode, 0 for a manual entry of any
      registered control, nothing otherwise. */
  function EntrySwitch(registry: seq<AdvancedControl>, device: int, e: ProfileEntry): seq<Call> {
    if e.autoEnabled then
      if Lookup(registry, e.name).Some? && Lookup(registry, e.name).value.autoSupported
      then [Dispatch(device, AutoName(e.name), 1)] else []
    else if Registered(registry, e.name) then [Dispatch(device, AutoName(e.name), 0)] else []
  }

  /** The value a manual profile entry is set to, if its control is
      registered: the recorded value coerced for the control's type. */
  function EntryValue(registry: seq<AdvancedControl>, e: ProfileEntry): Option<int> {
    match Lookup(registry, e.name)
    case None => None
    case Some(c) => Coerce(c, ValueOf(e.value))
  }

  /** The calls of one set: fetches only (it was refused or `int()` raised),
      or fetches followed by one dispatch of value x to `name`. */
  predicate SetSegment(calls: seq<Call>, device: int, name: string, x: Option<int>) {
    FetchesOnly(calls)
    || (x.Some? && calls != [] && calls[|calls| - 1] == Dispatch(device, name, x.value)
        && FetchesOnly(calls[..|calls| - 1]))
  }

  /** The calls of applying `entries` in order: each entry's auto-mode
      switch, and for a manual entry the set that follows it. `done` says the
      loop ran to the end; otherwise a set raised, and the calls stop there. */
  predicate TraceFits(registry: seq<AdvancedControl>, device: int, entries: Profile, calls: seq<Call>, done: bool)
    decreases |entries|
  {
    if entries == [] then calls == [] && done
    else
      var e := entries[0];
      var sw := EntrySwitch(registry, device, e);
      |sw| <= |calls| && calls[..|sw|] == sw
      && if e.autoEnabled then TraceFits(registry, device, entries[1..], calls[|sw|..], done)
      else
        exists j ::
          |sw| <= j <= |calls| && SetSegment(calls[|sw|..j], device, e.name, EntryValue(registry, e))
          && (TraceFits(registry, device, entries[1..], calls[j..], done) || (!done && j == |calls|))
  }

  /** Coercion depends on the control's type alone. */
  lemma CoerceStatics(a: AdvancedControl, b: AdvancedControl, v: Value)
    requires Static(a) == Static(b)
    ensures Coerce(a, v) == Coerce(b, v)
  {
    assert a.controlType == Static(a).controlType == b.controlType;
  }

  /** Entries' switches and values read only the registry's statics. */
  lemma EntryStatics(a: seq<AdvancedControl>, b: seq<AdvancedControl>, device: int, e: ProfileEntry)
    requires SameStatics(a, b)
    ensures EntrySwitch(a, device, e) == EntrySwitch(b, device, e)
    ensures EntryValue(a, e) == EntryValue(b, e)
  {
    LookupStatics(a, b, e.name);
    if Lookup(a, e.name).Some? {
      var ca := Lookup(a, e.name).value;
      var cb := Lookup(b, e.name).value;
      assert ca.autoSupported == Static(ca).autoSupported == cb.autoSupported;
      CoerceStatics(ca, cb, ValueOf(e.value));
    }
  }

  /** The trace of one set fits SetSegment with the entry's value. */
  lemma SetTrace(m: Manager, backend: Backend, device: int, e: ProfileEntry)
    ensures var r := SetControlWithValidation(m, backend, device, e.name, ValueOf(e.value));
      SetSegment(r.calls, device, e.name, EntryValue(m.registry, e))
      && (r.result.None? ==> FetchesOnly(r.calls))
  {
    if Admitted(m, backend.controls(device), e.name, ValueOf(e.value)) {
      SetDispatches(m, backend, device, e.name, ValueOf(e.value));
    }
  }

  /** An auto entry's switch followed by a fitting trace of the rest fits. */
  lemma FitsAuto(registry: seq<AdvancedControl>, device: int, entries: Profile, rest: seq<Call>, done: bool)
    requires entries != [] && entries[0].autoEnabled
    requires TraceFits(registry, device, entries[1..], rest, done)
    ensures TraceFits(registry, device, entries, EntrySwitch(registry, device, entries[0]) + rest, done)
  {
    var sw := EntrySwitch(registry, device, entries[0]);
    assert (sw + rest)[..|sw|] == sw && (sw + rest)[|sw|..] == rest;
  }

  /** A manual entry's switch, its set, and then either a fitting trace of
      the rest or (when the set raised) nothing, fit. */
  lemma FitsManual(registry: seq<AdvancedControl>, device: int, entries: Profile, seg: seq<Call>, rest: seq<Call>, done: bool)
    requires entries != [] && !entries[0].autoEnabled
    requires SetSegment(seg, device, entries[0].name, EntryValue(registry, entries[0]))
    requires TraceFits(registry, device, entries[1..], rest, done) || (!done && rest == [])
    ensures TraceFits(registry, device, entries, EntrySwitch(registry, device, entries[0]) + seg + rest, done)
  {
    var sw := EntrySwitch(registry, device, entries[0]);
    var calls := sw + seg + rest;
    var j := |sw| + |seg|;
    assert calls[..|sw|] == sw && calls[|sw|..j] == seg && calls[j..] == rest;
  }

  /** Every registry with the statics of the one applied to sees the whole
      call trace of applying a profile as TraceFits describes it: auto
      entries dispatch "<name>_automatic" = 1, manual entries "_automatic" =
      0 and then their set, in profile order, and the trace ends early
      exactly when the answer is False. */
  lemma {:induction false} ApplyTrace(m: Manager, registry: seq<AdvancedControl>, backend: Backend, device: int, entries: Profile)
    requires SameStatics(registry, m.registry)
    ensures var r := ApplyEntries(m, backend, device, entries);
      TraceFits(registry, device, entries, r.calls, r.result)
    decreases |entries|
  {
    if entries != [] {
      var e := entries[0];
      if e.autoEnabled {
        var on := EnableAutoMode(m, backend, device, e.name);
        ApplyTrace(on.manager, registry, backend, device, entries[1..]);
        AutoEntryTrace(m, registry, backend, device, entries);
      } else {
        var off := DisableAutoMode(m, backend, device, e.name);
        var applied := SetControlWithValidation(off.manager, backend, device, e.name, ValueOf(e.value));
        if applied.result.Some? {
          ApplyTrace(applied.manager, registry, backend, device, entries[1..]);
        }
        ManualEntryTrace(m, registry, backend, device, entries);
      }
    }
  }

  /** Applying a profile that starts with an auto entry fits its trace once
      the rest of the profile does. */
  lemma AutoEntryTrace(m: Manager, registry: seq<AdvancedControl>, backend: Backend, device: int, entries: Profile)
    requires SameStatics(registry, m.registry)
    requires entries != [] && entries[0].autoEnabled
    requires var on := EnableAutoMode(m, backend, device, entries[0].name);
      var rest := ApplyEntries(on.manager, backend, device, entries[1..]);
      TraceFits(registry, device, entries[1..], rest.calls, rest.result)
    ensures var r := ApplyEntries(m, backend, device, entries);
      TraceFits(registry, device, entries, r.calls, r.result)
  {
    var e := entries[0];
    EntryStatics(registry, m.registry, device, e);
    var on := EnableAutoMode(m, backend, device, e.name);
    var rest := ApplyEntries(on.manager, backend, device, entries[1..]);
    FitsAuto(registry, device, entries, rest.calls, rest.result);
  }

  /** Applying a profile that starts with a manual entry fits its trace once
      the rest of the profile does (when the set did not raise). */
  lemma ManualEntryTrace(m: Manager, registry: seq<AdvancedControl>, backend: Backend, device: int, entries: Profile)
    requires SameStatics(registry, m.registry)
    requires entries != [] && !entries[0].autoEnabled
    requires var off := DisableAutoMode(m, backend, device, entries[0].name);
      var applied := SetControlWithValidation(off.manager, backend, device, entries[0].name, ValueOf(entries[0].value));
      var rest := ApplyEntries(applied.manager, backend, device, entries[1..]);
      applied.result.Some? ==> TraceFits(registry, device, entries[1..], rest.calls, rest.result)
    ensures var r := ApplyEntries(m, backend, device, entries);
      TraceFits(registry, device, entries, r.calls, r.result)
  {
    var e := entries[0];
    EntryStatics(registry, m.registry, device, e);
    var off := DisableAutoMode(m, backend, device, e.name);
    var applied := SetControlWithValidation(off.manager, backend, device, e.name, ValueOf(e.value));
    SetTrace(off.manager, backend, device, e);
    if applied.result.None? {
      FitsManual(registry, device, entries, applied.calls, [], false);
      assert off.calls + applied.calls + [] == off.calls + applied.calls;
    } else {
      var rest := ApplyEntries(applied.manager, backend, device, entries[1..]);
      FitsManual(registry, device, entries, applied.calls, rest.calls, rest.result);
    }
  }

  /** `apply_control_profile`: an unknown profile is refused with no call
      and no change; a known one is applied entry by entry and the profiles
      themselves are left as they were. */
  function ApplyControlProfile(m: Manager, backend: Backend, name: string, device: int): (r: Step<bool>)
    ensures name !in m.profiles ==> r == Step(m, false, [])
    ensures name in m.profiles ==> r == ApplyEntries(m, backend, device, m.profiles[name])
    ensures r.manager.profiles == m.profiles
  {
    if name !in m.profiles then Step(m, false, [])
    else ApplyEntries(m, backend, device, m.profiles[name])
  }

  /** A profile just created is applied successfully: every value it
      records came from the controller, so no set can raise. */
  lemma CreateThenApply(m: Manager, backend: Backend, name: string, device: int)
    ensures var created := CreateControlProfile(m, backend, name, device);
      ApplyControlProfile(created.manager, backend, name, device).result
  {
    var created := CreateControlProfile(m, backend, name, device);
    var p := created.manager.profiles[name];
    assert forall k :: 0 <= k < |p| ==> p[k].value.Some? by {
      forall k | 0 <= k < |p| ensures p[k].value.Some? {
        assert p[k] in p;
      }
    }
  }

  /** No two profile entries name the same control (a profile is a dict). */
  predicate DistinctNames(entries: Profile) {
    forall i, j :: 0 <= i < j < |entries| ==> entries[i].name != entries[j].name
  }

  /** The order under which a list has pairwise different names. */
  function DifferentNames(): (AdvancedControl, AdvancedControl) -> bool {
    (a: AdvancedControl, b: AdvancedControl) => a.name != b.name
  }

  /** Every control recorded as in auto mode is registered and supports it,
      as `enable_auto_mode` only ever records such controls. */
  predicate ModesSupported(m: Manager) {
    forall n :: n in m.autoModes && m.autoModes[n] ==>
      Lookup(m.registry, n).Some? && Lookup(m.registry, n).value.autoSupported
  }

  /** Switching auto mode on or off keeps ModesSupported. */
  lemma SwitchKeepsModesSupported(m: Manager, backend: Backend, device: int, name: string)
    requires ModesSupported(m)
    ensures ModesSupported(EnableAutoMode(m, backend, device, name).manager)
    ensures ModesSupported(DisableAutoMode(m, backend, device, name).manager)
  {
  }

  /** The state after the first entry of a profile when its switch is
      accepted and its set cannot raise: the entry's mode recorded, the
      statics kept, and the rest of the profile applied from there. */
  lemma ApplyHead(m: Manager, backend: Backend, device: int, entries: Profile) returns (next: Manager)
    requires entries != [] && entries[0].value.Some? && Registered(m.registry, entries[0].name)
    requires backend.setControl(device, AutoName(entries[0].name), if entries[0].autoEnabled then 1 else 0)
    requires entries[0].autoEnabled ==> Lookup(m.registry, entries[0].name).value.autoSupported
    ensures next.autoModes == m.autoModes[entries[0].name := entries[0].autoEnabled]
    ensures SameStatics(m.registry, next.registry)
    ensures ApplyEntries(m, backend, device, entries).manager == ApplyEntries(next, backend, device, entries[1..]).manager
  {
    var e := entries[0];
    if e.autoEnabled {
      next := EnableAutoMode(m, backend, device, e.name).manager;
    } else {
      var off := DisableAutoMode(m, backend, device, e.name);
      var applied := SetControlWithValidation(off.manager, backend, device, e.name, ValueOf(e.value));
      if Admitted(off.manager, backend.controls(device), e.name, ValueOf(e.value)) {
        SetDispatches(off.manager, backend, device, e.name, ValueOf(e.value));
      }
      next := applied.manager;
    }
  }

  /** The conditions ApplyRecordsModes puts on a profile's tail carry over
      to any registry with the same statics. */
  lemma Replayable(a: seq<AdvancedControl>, b: seq<AdvancedControl>, entries: Profile)
    requires SameStatics(a, b) && entries != []
    requires forall k :: 0 <= k < |entries| ==> Registered(a, entries[k].name)
    requires forall k :: 0 <= k < |entries| && entries[k].autoEnabled ==> Lookup(a, entries[k].name).value.autoSupported
    ensures forall k :: 0 <= k < |entries[1..]| ==> Registered(b, entries[1..][k].name)
    ensures forall k :: 0 <= k < |entries[1..]| && entries[1..][k].autoEnabled ==>
      Lookup(b, entries[1..][k].name).value.autoSupported
  {
    forall k | 0 <= k < |entries|
      ensures Registered(b, entries[k].name)
      ensures entries[k].autoEnabled ==> Lookup(b, entries[k].name).value.autoSupported
    {
      LookupStatics(a, b, entries[k].name);
      if entries[k].autoEnabled {
        var x := Lookup(a, entries[k].name).value;
        var y := Lookup(b, entries[k].name).value;
        assert x.autoSupported == Static(x).autoSupported == Static(y).autoSupported == y.autoSupported;
      }
    }
    assert forall k :: 0 <= k < |entries[1..]| ==> entries[1..][k] == entries[k + 1];
  }

  /** The conditions ApplyRecordsModes puts on a profile's own entries
      carry over to its tail, none of whose names is the head's. */
  lemma TailReplayable(backend: Backend, device: int, entries: Profile)
    requires entries != []
    requires forall k :: 0 <= k < |entries| ==>
      backend.setControl(device, AutoName(entries[k].name), if entries[k].autoEnabled then 1 else 0)
    requires DistinctNames(entries)
    requires forall k :: 0 <= k < |entries| ==> entries[k].value.Some?
    ensures forall k :: 0 <= k < |entries[1..]| ==>
      backend.setControl(device, AutoName(entries[1..][k].name), if entries[1..][k].autoEnabled then 1 else 0)
    ensures DistinctNames(entries[1..])
    ensures forall k :: 0 <= k < |entries[1..]| ==> entries[1..][k].value.Some?
    ensures forall k :: 0 <= k < |entries[1..]| ==> entries[1..][k].name != entries[0].name
  {
    assert forall k :: 0 <= k < |entries[1..]| ==> entries[1..][k] == entries[k + 1];
  }

  /** With a controller that accepts every auto-mode switch, applying a
      profile of registered controls with values, whose auto entries support
      auto mode, records each entry's mode as the profile has it. */
  lemma {:induction false} ApplyRecordsModes(m: Manager, backend: Backend, device: int, entries: Profile)
    requires forall k :: 0 <= k < |entries| ==>
      backend.setControl(device, AutoName(entries[k].name), if entries[k].autoEnabled then 1 else 0)
    requires DistinctNames(entries)
    requires forall k :: 0 <= k < |entries| ==> Registered(m.registry, entries[k].name) && entries[k].value.Some?
    requires forall k :: 0 <= k < |entries| && entries[k].autoEnabled ==>
      Lookup(m.registry, entries[k].name).value.autoSupported
    ensures var r := ApplyEntries(m, backend, device, entries);
      forall k :: 0 <= k < |entries| ==>
        entries[k].name in r.manager.autoModes && r.manager.autoModes[entries[k].name] == entries[k].autoEnabled
    decreases |entries|
  {
    if entries != [] {
      var e := entries[0];
      var tail := entries[1..];
      TailReplayable(backend, device, entries);
      var next := ApplyHead(m, backend, device, entries);
      Replayable(m.registry, next.registry, entries);
      ApplyRecordsModes(next, backend, device, tail);
      ApplyKeepsOtherModes(next, backend, device, tail, e.name);
      var after := ApplyEntries(next, backend, device, tail).manager;
      assert SameMode(next.autoModes, after.autoModes, e.name);
      assert e.name in after.autoModes && after.autoModes[e.name] == e.autoEnabled;
      forall k | 0 <= k < |entries|
        ensures entries[k].name in after.autoModes && after.autoModes[entries[k].name] == entries[k].autoEnabled
      {
        if k > 0 {
          assert entries[k] == tail[k - 1];
        }
      }
    }
  }

  /** Saving a profile and applying it straight back, against a controller
      that accepts every auto-mode switch, leaves every saved control in the
      auto mode it was saved with. */
  lemma CreateThenApplyRestoresModes(m: Manager, backend: Backend, name: string, device: int)
    requires forall n, v :: backend.setControl(device, AutoName(n), v)
    requires Ascending(m.registry, DifferentNames())
    requires ModesSupported(m)
    ensures var created := CreateControlProfile(m, backend, name, device);
      var applied := ApplyControlProfile(created.manager, backend, name, device);
      forall e :: e in created.manager.profiles[name] ==>
        e.name in applied.manager.autoModes && applied.manager.autoModes[e.name] == AutoModeOf(m.autoModes, e.name)
  {
    var created := CreateControlProfile(m, backend, name, device);
    var p := created.manager.profiles[name];
    SavedNamesDistinct(m, backend, name, device);
    SavedEntriesReplayable(m, backend, name, device);
    ApplyRecordsModes(created.manager, backend, device, p);
    forall e | e in p ensures AutoModeOf(m.autoModes, e.name) == e.autoEnabled {
    }
  }

  /** A saved profile names each control once when the registry does. */
  lemma SavedNamesDistinct(m: Manager, backend: Backend, name: string, device: int)
    requires Ascending(m.registry, DifferentNames())
    ensures DistinctNames(CreateControlProfile(m, backend, name, device).manager.profiles[name])
  {
    var s := GetAvailableControls(m, backend, device);
    var p := CreateControlProfile(m, backend, name, device).manager.profiles[name];
    var reg := s.manager.registry;
    assert Ascending(reg, DifferentNames()) by {
      forall i, j | 0 <= i < j < |reg| ensures DifferentNames()(reg[i], reg[j]) {
        assert Static(reg[i]).name == Static(m.registry[i]).name;
        assert Static(reg[j]).name == Static(m.registry[j]).name;
        assert DifferentNames()(m.registry[i], m.registry[j]);
      }
    }
    FilterKeepsOrder(reg, IsListed(backend.controls(device)), DifferentNames());
    assert s.result == Filter(reg, IsListed(backend.controls(device)));
    forall i, j | 0 <= i < j < |p| ensures p[i].name != p[j].name {
      assert DifferentNames()(s.result[i], s.result[j]);
    }
  }

  /** Every entry of a saved profile names a control registered after the
      save, records a value, and is an auto entry only for a control that
      supports auto mode. */
  lemma SavedEntriesReplayable(m: Manager, backend: Backend, name: string, device: int)
    requires ModesSupported(m)
    ensures var created := CreateControlProfile(m, backend, name, device);
      var p := created.manager.profiles[name];
      forall k :: 0 <= k < |p| ==>
        Registered(created.manager.registry, p[k].name) && p[k].value.Some?
        && (p[k].autoEnabled ==> Lookup(created.manager.registry, p[k].name).value.autoSupported)
  {
    var created := CreateControlProfile(m, backend, name, device);
    var p := created.manager.profiles[name];
    var reg := GetAvailableControls(m, backend, device).manager.registry;
    assert created.manager.registry == reg;
    forall k | 0 <= k < |p|
      ensures Registered(reg, p[k].name) && p[k].value.Some?
      ensures p[k].autoEnabled ==> Lookup(reg, p[k].name).value.autoSupported
    {
      assert p[k] in p;
      LookupStatics(m.registry, reg, p[k].name);
      if p[k].autoEnabled {
        var a := Lookup(m.registry, p[k].name).value;
        var b := Lookup(reg, p[k].name).value;
        assert a.autoSupported == Static(a).autoSupported == Static(b).autoSupported == b.autoSupported;
      }
    }
  }

  /** Every operation keeps the registry's names, types, auto support, menus
      and dependencies: only the live fields ever change. */
  lemma RegistryDefinitionsKept(m: Manager, backend: Backend, device: int, name: string, v: Value)
    ensures SameStatics(m.registry, GetAvailableControls(m, backend, device).manager.registry)
    ensures SameStatics(m.registry, SetControlWithValidation(m, backend, device, name, v).manager.registry)
    ensures EnableAutoMode(m, backend, device, name).manager.registry == m.registry
    ensures DisableAutoMode(m, backend, device, name).manager.registry == m.registry
    ensures SameStatics(m.registry, CreateControlProfile(m, backend, name, device).manager.registry)
    ensures SameStatics(m.registry, ApplyControlProfile(m, backend, name, device).manager.registry)
  {
  }

  // ---------------------------------------------------------------------
  // Reachable managers

  /** What CreateThenApplyRestoresModes needs of a manager: the registry
      names each control once, and only registered controls that support
      auto mode are recorded as in auto mode. */
  predicate WellFormed(m: Manager) {
    Ascending(m.registry, DifferentNames()) && ModesSupported(m)
  }

  /** The manager starts well formed: the built-in registry names each
      control once and no mode is recorded yet. */
  lemma InitialWellFormed()
    ensures WellFormed(Initial)
  {
    forall i, j | 0 <= i < j < |Registry| ensures DifferentNames()(Registry[i], Registry[j]) {
    }
  }

  /** A change of live fields alone, with the modes kept, keeps a manager
      well formed. */
  lemma StaticsKeepWellFormed(m: Manager, m': Manager)
    requires WellFormed(m) && SameStatics(m.registry, m'.registry) && m'.autoModes == m.autoModes
    ensures WellFormed(m')
  {
    forall i, j | 0 <= i < j < |m'.registry| ensures DifferentNames()(m'.registry[i], m'.registry[j]) {
      assert Static(m.registry[i]).name == Static(m'.registry[i]).name;
      assert Static(m.registry[j]).name == Static(m'.registry[j]).name;
      assert DifferentNames()(m.registry[i], m.registry[j]);
    }
    forall n | n in m'.autoModes && m'.autoModes[n]
      ensures Lookup(m'.registry, n).Some? && Lookup(m'.registry, n).value.autoSupported
    {
      LookupStatics(m.registry, m'.registry, n);
      var a := Lookup(m.registry, n).value;
      var b := Lookup(m'.registry, n).value;
      assert a.autoSupported == Static(a).autoSupported == Static(b).autoSupported == b.autoSupported;
    }
  }

  /** Applying any list of profile entries keeps a manager well formed. */
  lemma {:induction false} ApplyKeepsWellFormed(m: Manager, backend: Backend, device: int, entries: Profile)
    requires WellFormed(m)
    ensures WellFormed(ApplyEntries(m, backend, device, entries).manager)
    decreases |entries|
  {
    if entries != [] {
      var e := entries[0];
      SwitchKeepsModesSupported(m, backend, device, e.name);
      if e.autoEnabled {
        var on := EnableAutoMode(m, backend, device, e.name);
        ApplyKeepsWellFormed(on.manager, backend, device, entries[1..]);
      } else {
        var off := DisableAutoMode(m, backend, device, e.name);
        var applied := SetControlWithValidation(off.manager, backend, device, e.name, ValueOf(e.value));
        StaticsKeepWellFormed(off.manager, applied.manager);
        if applied.result.Some? {
          ApplyKeepsWellFormed(applied.manager, backend, device, entries[1..]);
        }
      }
    }
  }

  /** Every operation keeps a manager well formed; with InitialWellFormed,
      the save-then-apply round trip of CreateThenApplyRestoresModes holds
      for every manager the operations can reach. */
  lemma OperationsKeepWellFormed(m: Manager, backend: Backend, device: int, name: string, v: Value, profile: string)
    requires WellFormed(m)
    ensures WellFormed(GetAvailableControls(m, backend, device).manager)
    ensures WellFormed(SetControlWithValidation(m, backend, device, name, v).manager)
    ensures WellFormed(EnableAutoMode(m, backend, device, name).manager)
    ensures WellFormed(DisableAutoMode(m, backend, device, name).manager)
    ensures WellFormed(AutoAdjustExposure(m, backend, device).manager)
    ensures WellFormed(AutoAdjustWhiteBalance(m, backend, device).manager)
    ensures WellFormed(CreateControlProfile(m, backend, profile, device).manager)
    ensures WellFormed(ApplyControlProfile(m, backend, profile, device).manager)
  {
    StaticsKeepWellFormed(m, GetAvailableControls(m, backend, device).manager);
    StaticsKeepWellFormed(m, SetControlWithValidation(m, backend, device, name, v).manager);
    SwitchKeepsModesSupported(m, backend, device, name);
    SwitchKeepsModesSupported(m, backend, device, "exposure");
    SwitchKeepsModesSupported(m, backend, device, "white_balance");
    StaticsKeepWellFormed(m, CreateControlProfile(m, backend, profile, device).manager);
    if profile in m.profiles {
      ApplyKeepsWellFormed(m, backend, device, m.profiles[profile]);
    }
  }
}
