/** Four-character pixel-format codes and the three ways the backends render
    them as text: low byte first with unprintable bytes shown as '?' (V4L2),
    high byte first with the same filter (AVFoundation), and low byte first
    with no filter (OpenCV). */
module Fourcc {
  import opened Bytes

  /** The printable ASCII range the V4L2 and AVFoundation renderings keep. */
  predicate Printable(b: int) {
    32 <= b <= 126
  }

  /** One byte of a code as a character: itself when printable, else '?'. */
  function CodeChar(b: Byte): (c: char)
    ensures Printable(b) ==> c as int == b
    ensures !Printable(b) ==> c == '?'
  {
    if Printable(b) then b as char else '?'
  }

  /** The V4L2 rendering (linux_v4l2.py): character i comes from byte i of the
      code, counting from the low byte. */
  function LinuxText(v: int): (s: string)
    ensures |s| == 4
    ensures forall i :: 0 <= i < 4 ==> s[i] == CodeChar(ByteOf(v, i))
  {
    [CodeChar(ByteOf(v, 0)), CodeChar(ByteOf(v, 1)), CodeChar(ByteOf(v, 2)), CodeChar(ByteOf(v, 3))]
  }

  /** The AVFoundation rendering: character i comes from byte 3 - i, so the
      high byte is shown first. */
  function MacText(v: int): (s: string)
    ensures |s| == 4
    ensures forall i :: 0 <= i < 4 ==> s[i] == CodeChar(ByteOf(v, 3 - i))
  {
    [CodeChar(ByteOf(v, 3)), CodeChar(ByteOf(v, 2)), CodeChar(ByteOf(v, 1)), CodeChar(ByteOf(v, 0))]
  }

  /** The OpenCV rendering: character i is the character whose code is byte i,
      low byte first, with no printable filter. */
  function OpenCVText(v: int): (s: string)
    ensures |s| == 4
    ensures forall i :: 0 <= i < 4 ==> s[i] as int == ByteOf(v, i)
  {
    [ByteOf(v, 0) as char, ByteOf(v, 1) as char, ByteOf(v, 2) as char, ByteOf(v, 3) as char]
  }

  function Reverse(s: string): (r: string)
    ensures |r| == |s|
    ensures forall i :: 0 <= i < |s| ==> r[i] == s[|s| - 1 - i]
  {
    if s == [] then [] else Reverse(s[1..]) + [s[0]]
  }

  /** For every integer the AVFoundation text is the V4L2 text reversed. */
  lemma MacIsReversedLinux(v: int)
    ensures MacText(v) == Reverse(LinuxText(v))
  {
  }

  /** Four characters that each fit in a byte. */
  predicate IsCodeText(s: string) {
    |s| == 4 && forall i :: 0 <= i < 4 ==> s[i] as int < 256
  }

  /** A text of four printable characters. */
  predicate IsPrintableCode(s: string) {
    |s| == 4 && forall i :: 0 <= i < 4 ==> Printable(s[i] as int)
  }

  /** The kernel's `v4l2_fourcc(a, b, c, d)`: a | b << 8 | c << 16 | d << 24. */
  function CodeOf(s: string): (v: int)
    requires IsCodeText(s)
    ensures IsU32(v)
    ensures forall i :: 0 <= i < 4 ==> ByteOf(v, i) == s[i] as int
  {
    var bs: seq<Byte> := [s[0] as int, s[1] as int, s[2] as int, s[3] as int];
    EncodeDecodeU32(bs, 0);
    assert bs[0..4] == bs;
    U32At(bs, 0)
  }

  /** Rendering the code of four printable characters gives them back. */
  lemma LinuxTextOfCode(s: string)
    requires IsPrintableCode(s)
    ensures LinuxText(CodeOf(s)) == s
  {
    var r := LinuxText(CodeOf(s));
    assert forall i :: 0 <= i < 4 ==> r[i] == s[i];
  }

  /** A 32-bit code whose four bytes are printable is recovered from its text. */
  lemma CodeOfLinuxText(v: int)
    requires IsU32(v)
    requires forall i :: 0 <= i < 4 ==> Printable(ByteOf(v, i))
    ensures IsCodeText(LinuxText(v))
    ensures CodeOf(LinuxText(v)) == v
  {
    var s := LinuxText(v);
    var w := CodeOf(s);
    DecodeEncodeU32(w);
    DecodeEncodeU32(v);
    assert EncodeU32(w) == EncodeU32(v);
  }

  /** The V4L2 name of the YUYV pixel format. */
  lemma YuyvText()
    ensures LinuxText(0x56595559) == "YUYV"
  {
    ByteOfSteps(0x56595559);
  }

  /** On codes whose bytes are all printable, the OpenCV and V4L2 renderings agree. */
  lemma OpenCVAgreesWhenPrintable(v: int)
    requires forall i :: 0 <= i < 4 ==> Printable(ByteOf(v, i))
    ensures OpenCVText(v) == LinuxText(v)
  {
  }
}
