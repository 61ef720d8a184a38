/** The three records every backend reports through (video_device_controller.py):
    a device, one capture format, and one adjustable control. */
module Records {

  /** One capture device: its position in the backend's enumeration, a display
      name, an OS path or identifier, and free text. */
  datatype DeviceInfo = DeviceInfo(index: int, name: string, path: string, description: string)

  /** One resolution / frame-rate / pixel-format combination. Frame rates are
      Python floats, written here as reals. */
  datatype VideoFormat = VideoFormat(width: int, height: int, fps: real, pixelFormat: string, description: string)

  /** One adjustable control with its range, default and current value. */
  datatype ControlInfo = ControlInfo(
    name: string,
    minValue: int,
    maxValue: int,
    step: int,
    defaultValue: int,
    currentValue: int,
    flags: int,
    autoSupported: bool,
    description: string)

  /** The test "this control is called `name`" (exact, case-sensitive). */
  function Named(name: string): ControlInfo -> bool {
    (c: ControlInfo) => c.name == name
  }

  /** Python's `f"{x:.1f}"` on a float. Rounding a binary float to one decimal
      is floating-point behaviour outside this model, so the rendering is a
      parameter of the operations that build description text. */
  type FloatText = real -> string

  /** Python's `int(x)` on a (finite) float: truncation toward zero. */
  function Truncate(x: real): (r: int)
    ensures x >= 0.0 ==> r as real <= x < r as real + 1.0
    ensures x < 0.0 ==> r as real - 1.0 < x <= r as real
  {
    if x >= 0.0 then x.Floor else -((-x).Floor)
  }

  /** Truncation stays within any integer bounds around x. */
  lemma TruncateBetween(x: real, lo: int, hi: int)
    requires lo as real <= x <= hi as real
    ensures lo <= Truncate(x) <= hi
  {
    var t := Truncate(x);
    if x >= 0.0 {
      assert lo as real < t as real + 1.0;
      assert lo < t + 1;
    } else {
      assert t as real - 1.0 < hi as real;
      assert t - 1 < hi;
    }
  }
}
