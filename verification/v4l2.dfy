/** The Linux backend (linux_v4l2.py): the structs of the kernel's V4L2
    userspace API read and written at fixed little-endian offsets, the
    index-driven enumeration of formats, frame sizes and frame intervals, the
    control catalog, and the name-to-id mapping used to set a control.

    `fcntl.ioctl` is an oracle: given a request and the request buffer it
    either fails (the call raises) or hands back the buffer as the driver left
    it. The device files are another oracle: a path either opens to such a
    device or does not. */
module V4L2 {
  import opened Wrappers
  import opened Bytes
  import opened Text
  import opened Fourcc
  import opened Records
  import opened Enumeration
  import opened Sorting

  /** The ioctl requests the backend issues. Their numeric values are only
      handed to the kernel, so they stay opaque here. */
  datatype Request = QueryCap | EnumFmt | EnumFrameSizes | EnumFrameIntervals | QueryCtrl | GetCtrl | SetCtrl

  /** The size of the buffer each request is made with. */
  function StructSize(req: Request): nat {
    match req
    case QueryCap => 104
    case EnumFmt => 64
    case EnumFrameSizes => 44
    case EnumFrameIntervals => 52
    case QueryCtrl => 68
    case GetCtrl => 8
    case SetCtrl => 8
  }

  /** `fcntl.ioctl(fd, request, buffer)`: None when the call raises, else the
      buffer as the driver filled it. */
  type Ioctl = (Request, seq<Byte>) -> Option<seq<Byte>>

  /** The devices: what opening a path gives. None covers both a missing path
      and one that cannot be opened; the backend treats the two alike. */
  type Opener = string -> Option<Ioctl>

  /** One ioctl on a buffer. A Python bytearray keeps its length, so a reply of
      another length is counted as a failed call. */
  function Call(io: Ioctl, req: Request, buf: seq<Byte>): (r: Option<seq<Byte>>)
    ensures r.Some? ==> |r.value| == |buf|
    ensures r.Some? <==> io(req, buf).Some? && |io(req, buf).value| == |buf|
    ensures r.Some? ==> r.value == io(req, buf).value
  {
    match io(req, buf)
    case Some(reply) => if |reply| == |buf| then Some(reply) else None
    case None => None
  }

  /** A fixed-size text field: its bytes with trailing NULs removed, read one
      character per byte. */
  function TextField(buf: seq<Byte>, lo: nat, hi: nat): string
    requires lo <= hi <= |buf|
  {
    Latin1(StripTrailingZeros(buf[lo..hi]))
  }

  /** A text a driver can put in a field of `width` bytes and have read back. */
  predicate FitsField(s: string, width: nat) {
    |s| <= width && IsLatin1(s) && (s == [] || s[|s| - 1] != '\0')
  }

  /** The bytes a driver writes for `s` in a field of `width` bytes. */
  function FieldBytes(s: string, width: nat): (r: seq<Byte>)
    requires FitsField(s, width)
    ensures |r| == width
    ensures Latin1(StripTrailingZeros(r)) == s
  {
    var bs := Latin1Bytes(s);
    assert bs == [] || bs[|bs| - 1] != 0 by {
      if bs != [] { assert Latin1(bs)[|bs| - 1] == s[|s| - 1]; }
    }
    StripPadded(bs, width);
    PadZeros(bs, width)
  }

  // ---------------------------------------------------------------------
  // VIDIOC_QUERYCAP

  datatype Capability = Capability(driver: string, card: string, busInfo: string, version: int, capabilities: int)

  /** driver, card and bus_info are the text fields at bytes 0-15, 16-47 and
      48-79; version and capabilities are the unsigned words at 80 and 84. */
  function DecodeCapability(buf: seq<Byte>): Capability
    requires |buf| == StructSize(QueryCap)
  {
    Capability(TextField(buf, 0, 16), TextField(buf, 16, 48), TextField(buf, 48, 80), U32At(buf, 80), U32At(buf, 84))
  }

  /** `_query_capability`: a zeroed buffer, the ioctl, then the decode. */
  function QueryCapability(io: Ioctl): (r: Option<Capability>)
    ensures r.Some? <==> Call(io, QueryCap, Zeros(104)).Some?
    ensures r.Some? ==> IsU32(r.value.version) && IsU32(r.value.capabilities)
  {
    match Call(io, QueryCap, Zeros(104))
    case Some(buf) => Some(DecodeCapability(buf))
    case None => None
  }

  predicate ValidCapability(c: Capability) {
    FitsField(c.driver, 16) && FitsField(c.card, 32) && FitsField(c.busInfo, 32)
    && IsU32(c.version) && IsU32(c.capabilities)
  }

  /** The v4l2_capability a driver fills in for `c`. */
  function EncodeCapability(c: Capability): (buf: seq<Byte>)
    requires ValidCapability(c)
    ensures |buf| == StructSize(QueryCap)
  {
    FieldBytes(c.driver, 16) + FieldBytes(c.card, 32) + FieldBytes(c.busInfo, 32)
    + EncodeU32(c.version) + EncodeU32(c.capabilities) + Zeros(16)
  }

  /** Every capability a driver can report is decoded back exactly. */
  lemma DecodeEncodeCapability(c: Capability)
    requires ValidCapability(c)
    ensures DecodeCapability(EncodeCapability(c)) == c
  {
    var buf := EncodeCapability(c);
    assert buf[0..16] == FieldBytes(c.driver, 16);
    assert buf[16..48] == FieldBytes(c.card, 32);
    assert buf[48..80] == FieldBytes(c.busInfo, 32);
    ReadU32(buf, 80, c.version);
    ReadU32(buf, 84, c.capabilities);
  }

  // ---------------------------------------------------------------------
  // VIDIOC_ENUM_FMT

  datatype FormatDesc = FormatDesc(index: int, flags: int, description: string, pixelFormat: int)

  /** The request for format `index` of the capture stream: the index at 0 and
      buffer type 1 at 4. */
  function FormatRequest(index: int): (buf: seq<Byte>)
    requires IsU32(index)
    ensures |buf| == StructSize(EnumFmt)
    ensures U32At(buf, 0) == index && U32At(buf, 4) == 1
  {
    PutU32(PutU32(Zeros(64), 0, index), 4, 1)
  }

  /** flags at 8, the description field at 12-43 and the pixel format at 44. */
  function DecodeFormatDesc(index: int, buf: seq<Byte>): FormatDesc
    requires |buf| == StructSize(EnumFmt)
  {
    FormatDesc(index, U32At(buf, 8), TextField(buf, 12, 44), U32At(buf, 44))
  }

  /** `_enum_format`: None when the index cannot be packed or the call fails. */
  function EnumFormat(io: Ioctl, index: int): (r: Option<FormatDesc>)
    ensures r.Some? <==> IsU32(index) && Call(io, EnumFmt, FormatRequest(index)).Some?
    ensures r.Some? ==> r.value.index == index && IsU32(r.value.pixelFormat) && IsU32(r.value.flags)
  {
    if !IsU32(index) then None
    else match Call(io, EnumFmt, FormatRequest(index))
      case Some(buf) => Some(DecodeFormatDesc(index, buf))
      case None => None
  }

  /** The reply a driver gives to `FormatRequest(d.index)` for format `d`. */
  function EncodeFormatDesc(d: FormatDesc): (buf: seq<Byte>)
    requires IsU32(d.index) && IsU32(d.flags) && IsU32(d.pixelFormat) && FitsField(d.description, 32)
    ensures |buf| == StructSize(EnumFmt)
  {
    var req := FormatRequest(d.index);
    req[..8] + EncodeU32(d.flags) + FieldBytes(d.description, 32) + EncodeU32(d.pixelFormat) + req[48..]
  }

  lemma DecodeEncodeFormatDesc(d: FormatDesc)
    requires IsU32(d.index) && IsU32(d.flags) && IsU32(d.pixelFormat) && FitsField(d.description, 32)
    ensures DecodeFormatDesc(d.index, EncodeFormatDesc(d)) == d
  {
    var buf := EncodeFormatDesc(d);
    ReadU32(buf, 8, d.flags);
    assert buf[12..44] == FieldBytes(d.description, 32);
    ReadU32(buf, 44, d.pixelFormat);
  }

  // ---------------------------------------------------------------------
  // VIDIOC_ENUM_FRAMESIZES

  /** What one frame-size entry reports, by its type word at offset 8. */
  datatype FrameSize =
    | DiscreteSize(width: int, height: int)
    | StepwiseSize(minWidth: int, maxWidth: int, stepWidth: int, minHeight: int, maxHeight: int, stepHeight: int)
    | OtherSize(kind: int)

  function SizeRequest(index: int, pixelFormat: int): (buf: seq<Byte>)
    requires IsU32(index) && IsU32(pixelFormat)
    ensures |buf| == StructSize(EnumFrameSizes)
    ensures U32At(buf, 0) == index && U32At(buf, 4) == pixelFormat
  {
    PutU32(PutU32(Zeros(44), 0, index), 4, pixelFormat)
  }

  /** Type 1 is one size (width at 12, height at 16); type 2 a range (min,
      max and step widths at 12, 16, 20; heights at 24, 28, 32). */
  function DecodeFrameSize(buf: seq<Byte>): FrameSize
    requires |buf| == StructSize(EnumFrameSizes)
  {
    var kind := U32At(buf, 8);
    if kind == 1 then DiscreteSize(U32At(buf, 12), U32At(buf, 16))
    else if kind == 2 then
      StepwiseSize(U32At(buf, 12), U32At(buf, 16), U32At(buf, 20), U32At(buf, 24), U32At(buf, 28), U32At(buf, 32))
    else OtherSize(kind)
  }

  predicate ValidFrameSize(f: FrameSize) {
    match f
    case DiscreteSize(w, h) => IsU32(w) && IsU32(h)
    case StepwiseSize(a, b, c, d, e, g) => IsU32(a) && IsU32(b) && IsU32(c) && IsU32(d) && IsU32(e) && IsU32(g)
    case OtherSize(k) => IsU32(k) && k != 1 && k != 2
  }

  /** The reply a driver writes into a frame-size request for entry `f`. */
  function EncodeFrameSize(req: seq<Byte>, f: FrameSize): (buf: seq<Byte>)
    requires |req| == StructSize(EnumFrameSizes)
    requires ValidFrameSize(f)
    ensures |buf| == |req|
  {
    match f
    case DiscreteSize(w, h) => req[..8] + EncodeU32(1) + EncodeU32(w) + EncodeU32(h) + req[20..]
    case StepwiseSize(a, b, c, d, e, g) =>
      req[..8] + EncodeU32(2) + EncodeU32(a) + EncodeU32(b) + EncodeU32(c) + EncodeU32(d) + EncodeU32(e) + EncodeU32(g) + req[36..]
    case OtherSize(k) => req[..8] + EncodeU32(k) + req[12..]
  }

  lemma DecodeEncodeFrameSize(req: seq<Byte>, f: FrameSize)
    requires |req| == StructSize(EnumFrameSizes)
    requires ValidFrameSize(f)
    ensures DecodeFrameSize(EncodeFrameSize(req, f)) == f
  {
    var buf := EncodeFrameSize(req, f);
    match f
    case DiscreteSize(w, h) =>
      ReadU32(buf, 8, 1);
      ReadU32(buf, 12, w);
      ReadU32(buf, 16, h);
    case StepwiseSize(a, b, c, d, e, g) =>
      StepwiseWords(req, a, b, c, d, e, g);
    case OtherSize(k) =>
      ReadU32(buf, 8, k);
  }

  /** The words of a stepwise reply sit at offsets 8 to 32. */
  lemma StepwiseWords(req: seq<Byte>, a: int, b: int, c: int, d: int, e: int, g: int)
    requires |req| == StructSize(EnumFrameSizes)
    requires IsU32(a) && IsU32(b) && IsU32(c) && IsU32(d) && IsU32(e) && IsU32(g)
    ensures var buf := EncodeFrameSize(req, StepwiseSize(a, b, c, d, e, g));
      U32At(buf, 8) == 2 && U32At(buf, 12) == a && U32At(buf, 16) == b && U32At(buf, 20) == c
      && U32At(buf, 24) == d && U32At(buf, 28) == e && U32At(buf, 32) == g
  {
    var buf := EncodeFrameSize(req, StepwiseSize(a, b, c, d, e, g));
    ReadU32(buf, 8, 2);
    ReadU32(buf, 12, a);
    ReadU32(buf, 16, b);
    ReadU32(buf, 20, c);
    ReadU32(buf, 24, d);
    ReadU32(buf, 28, e);
    ReadU32(buf, 32, g);
  }

  /** The sizes the backend offers for a stepwise range, in this order. */
  const CommonSizes: seq<(int, int)> := [(640, 480), (800, 600), (1024, 768), (1280, 720), (1920, 1080)]

  /** Strictly wider, in the order the candidates are listed. */
  predicate Narrower(a: (int, int), b: (int, int)) {
    a.0 < b.0
  }

  /** Inside the inclusive bounds on both axes. */
  function Within(minW: int, maxW: int, minH: int, maxH: int): ((int, int)) -> bool {
    (s: (int, int)) => minW <= s.0 <= maxW && minH <= s.1 <= maxH
  }

  /** The candidates inside the inclusive bounds on both axes; the steps are
      not consulted. */
  function StepwiseSizes(minW: int, maxW: int, minH: int, maxH: int): (r: seq<(int, int)>)
    ensures forall s :: s in r <==> s in CommonSizes && minW <= s.0 <= maxW && minH <= s.1 <= maxH
    ensures Ascending(r, Narrower)
  {
    var keep := Within(minW, maxW, minH, maxH);
    var r := Filter(CommonSizes, keep);
    assert forall s :: s in r <==> s in CommonSizes && keep(s);
    FilterKeepsOrder(CommonSizes, keep, Narrower);
    r
  }

  /** The sizes one entry contributes: its own size, or candidates. */
  function SizesOf(f: FrameSize): (r: seq<(int, int)>)
    ensures forall s :: s in r ==> (f.DiscreteSize? && s == (f.width, f.height)) || (f.StepwiseSize? && s in CommonSizes)
  {
    match f
    case DiscreteSize(w, h) => [(w, h)]
    case StepwiseSize(a, b, _, d, e, _) => StepwiseSizes(a, b, d, e)
    case OtherSize(_) => []
  }

  /** One step of the frame-size loop: a failed call (or an index or format
      that cannot be packed) ends it, any decoded entry lets it continue. */
  function SizeStep(io: Ioctl, pixelFormat: int, index: nat): Probe<(int, int)> {
    if !IsU32(index) || !IsU32(pixelFormat) then Halt
    else match Call(io, EnumFrameSizes, SizeRequest(index, pixelFormat))
      case Some(buf) => Yield(SizesOf(DecodeFrameSize(buf)))
      case None => Halt
  }

  /** The frame-size loop's probe for one pixel format. */
  function SizeProbe(io: Ioctl, pixelFormat: int): nat -> Probe<(int, int)> {
    (i: nat) => SizeStep(io, pixelFormat, i)
  }

  /** `_enum_frame_sizes`, trying at most `fuel` indices: every size reported
      before the first failing index, or 640x480 when there is none. */
  function FrameSizes(io: Ioctl, pixelFormat: int, fuel: nat): (r: seq<(int, int)>)
    ensures r != []
    ensures var found := Enumerate(SizeProbe(io, pixelFormat), 0, fuel);
      r == if found == [] then [(640, 480)] else found
  {
    var found := Enumerate(SizeProbe(io, pixelFormat), 0, fuel);
    if found == [] then [(640, 480)] else found
  }

  /** Every size the loop reports is the default or was contributed by an
      entry the driver returned at an index the loop reached. */
  lemma {:induction false} FrameSizesAreReported(io: Ioctl, pixelFormat: int, fuel: nat, s: (int, int))
    requires s in FrameSizes(io, pixelFormat, fuel)
    ensures s == (640, 480) ||
      exists i: nat :: i < fuel && IsU32(i) && IsU32(pixelFormat) && Call(io, EnumFrameSizes, SizeRequest(i, pixelFormat)).Some?
        && s in SizesOf(DecodeFrameSize(Call(io, EnumFrameSizes, SizeRequest(i, pixelFormat)).value))
  {
    var probe := SizeProbe(io, pixelFormat);
    var found := Enumerate(probe, 0, fuel);
    if found != [] {
      EnumerateMember(probe, 0, fuel, s);
      var k: nat :| k < fuel && probe(k).Yield? && s in probe(k).items;
      assert SizeStep(io, pixelFormat, k).Yield?;
    }
  }

  // ---------------------------------------------------------------------
  // VIDIOC_ENUM_FRAMEINTERVALS

  /** What one frame-interval entry reports, by its type word at offset 16. */
  datatype FrameInterval = DiscreteInterval(numerator: int, denominator: int) | OtherInterval(kind: int)

  function IntervalRequest(index: int, pixelFormat: int, width: int, height: int): (buf: seq<Byte>)
    requires IsU32(index) && IsU32(pixelFormat) && IsU32(width) && IsU32(height)
    ensures |buf| == StructSize(EnumFrameIntervals)
    ensures U32At(buf, 0) == index && U32At(buf, 4) == pixelFormat
    ensures U32At(buf, 8) == width && U32At(buf, 12) == height
  {
    var b1 := PutU32(Zeros(52), 0, index);
    var b2 := PutU32(b1, 4, pixelFormat);
    var b3 := PutU32(b2, 8, width);
    var b4 := PutU32(b3, 12, height);
    assert U32At(b4, 0) == U32At(b3, 0) == U32At(b2, 0) == U32At(b1, 0);
    assert U32At(b4, 4) == U32At(b3, 4) == U32At(b2, 4);
    assert U32At(b4, 8) == U32At(b3, 8);
    b4
  }

  /** Type 1 is a discrete interval: numerator at 20, denominator at 24. */
  function DecodeFrameInterval(buf: seq<Byte>): FrameInterval
    requires |buf| == StructSize(EnumFrameIntervals)
  {
    var kind := U32At(buf, 16);
    if kind == 1 then DiscreteInterval(U32At(buf, 20), U32At(buf, 24)) else OtherInterval(kind)
  }

  predicate ValidFrameInterval(f: FrameInterval) {
    match f
    case DiscreteInterval(n, d) => IsU32(n) && IsU32(d)
    case OtherInterval(k) => IsU32(k) && k != 1
  }

  function EncodeFrameInterval(req: seq<Byte>, f: FrameInterval): (buf: seq<Byte>)
    requires |req| == StructSize(EnumFrameIntervals)
    requires ValidFrameInterval(f)
    ensures |buf| == |req|
  {
    match f
    case DiscreteInterval(n, d) => req[..16] + EncodeU32(1) + EncodeU32(n) + EncodeU32(d) + req[28..]
    case OtherInterval(k) => req[..16] + EncodeU32(k) + req[20..]
  }

  lemma DecodeEncodeFrameInterval(req: seq<Byte>, f: FrameInterval)
    requires |req| == StructSize(EnumFrameIntervals)
    requires ValidFrameInterval(f)
    ensures DecodeFrameInterval(EncodeFrameInterval(req, f)) == f
  {
    var buf := EncodeFrameInterval(req, f);
    match f
    case DiscreteInterval(n, d) =>
      ReadU32(buf, 16, 1);
      ReadU32(buf, 20, n);
      ReadU32(buf, 24, d);
    case OtherInterval(k) =>
      ReadU32(buf, 16, k);
  }

  /** One step of the frame-interval loop. A discrete entry with a positive
      denominator reports denominator / numerator; the guard tests the
      denominator, so a zero numerator divides by zero, which ends the loop. A
      zero denominator or another type reports nothing and the loop goes on. */
  function IntervalStep(io: Ioctl, pixelFormat: int, width: int, height: int, index: nat): (p: Probe<real>)
    ensures forall x :: x in ItemsOf(p) ==> x > 0.0
  {
    if !(IsU32(index) && IsU32(pixelFormat) && IsU32(width) && IsU32(height)) then Halt
    else match Call(io, EnumFrameIntervals, IntervalRequest(index, pixelFormat, width, height))
      case None => Halt
      case Some(buf) =>
        match DecodeFrameInterval(buf)
        case DiscreteInterval(num, den) =>
          if den > 0 then (if num == 0 then Halt else PositiveRate(num, den))
          else Yield([])
        case OtherInterval(_) => Yield([])
  }

  /** The rate of a discrete interval num/den seconds: den / num frames per second. */
  function PositiveRate(num: int, den: int): (p: Probe<real>)
    requires num > 0 && den > 0
    ensures p.Yield? && |p.items| == 1 && p.items[0] > 0.0
    ensures p.items[0] * num as real == den as real
  {
    Yield([den as real / num as real])
  }

  /** The frame-interval loop's probe for one format and size. */
  function IntervalProbe(io: Ioctl, pixelFormat: int, width: int, height: int): nat -> Probe<real> {
    (i: nat) => IntervalStep(io, pixelFormat, width, height, i)
  }

  /** `_enum_frame_intervals`, trying at most `fuel` indices: the frame rates
      reported before the loop ends, or 30 when there are none. Every rate is
      positive. */
  function FrameRates(io: Ioctl, pixelFormat: int, width: int, height: int, fuel: nat): (r: seq<real>)
    ensures r != []
    ensures forall x :: x in r ==> x > 0.0
    ensures var found := Enumerate(IntervalProbe(io, pixelFormat, width, height), 0, fuel);
      r == if found == [] then [30.0] else found
  {
    var probe := IntervalProbe(io, pixelFormat, width, height);
    var found := Enumerate(probe, 0, fuel);
    var n := Reach(probe, 0, fuel);
    forall x | x in found ensures x > 0.0 {
      ConcatMember(Batches(probe, 0, n), x);
      if x in found {
        var k :| 0 <= k < n && x in Batches(probe, 0, n)[k];
        assert x in ItemsOf(IntervalStep(io, pixelFormat, width, height, k));
      }
    }
    if found == [] then [30.0] else found
  }

  /** A discrete interval of 1/30 s reports 30 frames per second; one whose
      numerator is 0 ends the enumeration instead of reporting a rate. */
  lemma IntervalRates(io: Ioctl, pixelFormat: int, width: int, height: int, index: nat)
    requires IsU32(index) && IsU32(pixelFormat) && IsU32(width) && IsU32(height)
    requires Call(io, EnumFrameIntervals, IntervalRequest(index, pixelFormat, width, height)).Some?
    ensures var f := DecodeFrameInterval(Call(io, EnumFrameIntervals, IntervalRequest(index, pixelFormat, width, height)).value);
      (f == DiscreteInterval(1, 30) ==> IntervalStep(io, pixelFormat, width, height, index) == Yield([30.0]))
      && (f.DiscreteInterval? && f.numerator == 0 && f.denominator > 0 ==> IntervalStep(io, pixelFormat, width, height, index) == Halt)
  {
  }

  // ---------------------------------------------------------------------
  // The format listing

  /** The `/dev/video{index}` path of a device index. */
  function DevicePath(index: int): string {
    "/dev/video" + IntToString(index)
  }

  /** The formats of one pixel format at one size: one per reported rate, in
      the order the rates were reported. */
  function FormatsAtSize(io: Ioctl, d: FormatDesc, w: int, h: int, fpsText: FloatText, fuel: nat): (r: seq<VideoFormat>)
    ensures var rates := FrameRates(io, d.pixelFormat, w, h, fuel);
      |r| == |rates| && forall j :: 0 <= j < |r| ==>
        (r[j].width == w && r[j].height == h && r[j].fps == rates[j] && r[j].pixelFormat == LinuxText(d.pixelFormat))
  {
    var rates := FrameRates(io, d.pixelFormat, w, h, fuel);
    seq(|rates|, j requires 0 <= j < |rates| =>
      VideoFormat(w, h, rates[j], LinuxText(d.pixelFormat),
        IntToString(w) + "x" + IntToString(h) + " @ " + fpsText(rates[j]) + "fps (" + d.description + ")"))
  }

  /** The formats one pixel format contributes: for every size, every rate,
      size-major. Every size gives at least one format. */
  function FormatsOfSizes(io: Ioctl, d: FormatDesc, sizes: seq<(int, int)>, fpsText: FloatText, fuel: nat): (r: seq<VideoFormat>)
    ensures |r| >= |sizes|
  {
    if sizes == [] then []
    else FormatsAtSize(io, d, sizes[0].0, sizes[0].1, fpsText, fuel) + FormatsOfSizes(io, d, sizes[1..], fpsText, fuel)
  }

  /** The block of formats of each size, in size order. */
  function SizeBlocks(io: Ioctl, d: FormatDesc, sizes: seq<(int, int)>, fpsText: FloatText, fuel: nat): (r: seq<seq<VideoFormat>>)
    ensures |r| == |sizes|
    ensures forall k :: 0 <= k < |sizes| ==> r[k] == FormatsAtSize(io, d, sizes[k].0, sizes[k].1, fpsText, fuel)
  {
    seq(|sizes|, k requires 0 <= k < |sizes| => FormatsAtSize(io, d, sizes[k].0, sizes[k].1, fpsText, fuel))
  }

  /** Size-major order: the list is the block of the first size, then the
      block of the second, and so on, each block one format per reported
      rate of its size. */
  lemma {:induction false} FormatsOfSizesBlocks(io: Ioctl, d: FormatDesc, sizes: seq<(int, int)>, fpsText: FloatText, fuel: nat)
    ensures FormatsOfSizes(io, d, sizes, fpsText, fuel) == Concat(SizeBlocks(io, d, sizes, fpsText, fuel))
    decreases |sizes|
  {
    if sizes != [] {
      FormatsOfSizesBlocks(io, d, sizes[1..], fpsText, fuel);
      assert SizeBlocks(io, d, sizes, fpsText, fuel)[1..] == SizeBlocks(io, d, sizes[1..], fpsText, fuel);
    }
  }

  /** Each such format has one of the sizes, the pixel format's text, and a
      rate the rate loop reported for its size. */
  lemma {:induction false} FormatFromSize(io: Ioctl, d: FormatDesc, sizes: seq<(int, int)>, fpsText: FloatText, fuel: nat, v: VideoFormat)
    requires v in FormatsOfSizes(io, d, sizes, fpsText, fuel)
    ensures (v.width, v.height) in sizes && v.pixelFormat == LinuxText(d.pixelFormat)
    ensures v.fps in FrameRates(io, d.pixelFormat, v.width, v.height, fuel)
    decreases |sizes|
  {
    assert sizes != [];
    var here := FormatsAtSize(io, d, sizes[0].0, sizes[0].1, fpsText, fuel);
    var rest := FormatsOfSizes(io, d, sizes[1..], fpsText, fuel);
    if v in here {
      var rates := FrameRates(io, d.pixelFormat, sizes[0].0, sizes[0].1, fuel);
      var j :| 0 <= j < |here| && here[j] == v;
      assert v.width == sizes[0].0 && v.height == sizes[0].1 && v.fps == rates[j];
    } else {
      assert v in rest;
      FormatFromSize(io, d, sizes[1..], fpsText, fuel, v);
      var k :| 0 <= k < |sizes[1..]| && sizes[1..][k] == (v.width, v.height);
      assert sizes[k + 1] == (v.width, v.height);
    }
  }

  /** The converse: every rate reported for every size gives a format with
      that size, that rate and the pixel format's text. */
  lemma SizeRateListed(io: Ioctl, d: FormatDesc, sizes: seq<(int, int)>, fpsText: FloatText, fuel: nat, s: (int, int), x: real)
    requires s in sizes && x in FrameRates(io, d.pixelFormat, s.0, s.1, fuel)
    ensures exists v ::
      v in FormatsOfSizes(io, d, sizes, fpsText, fuel)
      && v.width == s.0 && v.height == s.1 && v.fps == x && v.pixelFormat == LinuxText(d.pixelFormat)
  {
    var blocks := SizeBlocks(io, d, sizes, fpsText, fuel);
    FormatsOfSizesBlocks(io, d, sizes, fpsText, fuel);
    var k :| 0 <= k < |sizes| && sizes[k] == s;
    var rates := FrameRates(io, d.pixelFormat, s.0, s.1, fuel);
    var j :| 0 <= j < |rates| && rates[j] == x;
    var v := blocks[k][j];
    ConcatMember(blocks, v);
  }

  /** The formats format index i contributes: nothing past the last format,
      else every (size, rate) pair of its pixel format, size-major. */
  function FormatsOf(io: Ioctl, fpsText: FloatText, fuel: nat, i: nat): seq<VideoFormat> {
    match EnumFormat(io, i)
    case None => []
    case Some(d) => FormatsOfSizes(io, d, FrameSizes(io, d.pixelFormat, fuel), fpsText, fuel)
  }

  /** One step of the format loop: a failing format index ends it. */
  function FormatStep(io: Ioctl, fpsText: FloatText, fuel: nat, index: nat): Probe<VideoFormat> {
    if EnumFormat(io, index).None? then Halt else Yield(FormatsOf(io, fpsText, fuel, index))
  }

  function FormatProbe(io: Ioctl, fpsText: FloatText, fuel: nat): nat -> Probe<VideoFormat> {
    (i: nat) => FormatStep(io, fpsText, fuel, i)
  }

  /** The format loop's probe succeeds exactly where the format query does. */
  lemma ProbeAnswers(io: Ioctl, fpsText: FloatText, fuel: nat)
    ensures forall i: nat :: FormatProbe(io, fpsText, fuel)(i).Yield? <==> EnumFormat(io, i).Some?
  {
  }

  /** How many format indices the format loop lists, at most `fuel`: every
      index below it answers, and the one at it (when below the fuel bound)
      fails. */
  function FormatCount(io: Ioctl, fpsText: FloatText, fuel: nat): (n: nat)
    ensures n <= fuel
    ensures forall i :: 0 <= i < n ==> EnumFormat(io, i).Some?
    ensures n < fuel ==> EnumFormat(io, n).None?
  {
    var probe := FormatProbe(io, fpsText, fuel);
    ProbeAnswers(io, fpsText, fuel);
    Reach(probe, 0, fuel)
  }

  /** `get_video_formats`, trying at most `fuel` indices in each loop: nothing
      for a device that cannot be opened, else the formats of each pixel
      format in index order, up to the first failing index. */
  function GetVideoFormats(open: Opener, deviceIndex: int, fpsText: FloatText, fuel: nat): (r: seq<VideoFormat>)
    ensures open(DevicePath(deviceIndex)).None? ==> r == []
    ensures open(DevicePath(deviceIndex)).Some? ==>
      r == ListedFormats(open(DevicePath(deviceIndex)).value, fpsText, fuel)
  {
    match open(DevicePath(deviceIndex))
    case None => []
    case Some(io) =>
      var probe := FormatProbe(io, fpsText, fuel);
      var n := Reach(probe, 0, fuel);
      assert Batches(probe, 0, n) == seq(n, i requires 0 <= i < n => FormatsOf(io, fpsText, fuel, i));
      Enumerate(probe, 0, fuel)
  }

  /** Every listed format carries the text of a pixel format that a format
      index below `fuel` reported, and a size and rate that format's loops
      reported. */
  lemma {:induction false} FormatsComeFromDriver(open: Opener, deviceIndex: int, fpsText: FloatText, fuel: nat, v: VideoFormat)
    requires v in GetVideoFormats(open, deviceIndex, fpsText, fuel)
    ensures open(DevicePath(deviceIndex)).Some?
    ensures var io := open(DevicePath(deviceIndex)).value;
      exists i: nat :: i < fuel && EnumFormat(io, i).Some?
        && v.pixelFormat == LinuxText(EnumFormat(io, i).value.pixelFormat)
        && (v.width, v.height) in FrameSizes(io, EnumFormat(io, i).value.pixelFormat, fuel)
        && v.fps in FrameRates(io, EnumFormat(io, i).value.pixelFormat, v.width, v.height, fuel)
  {
    var io := open(DevicePath(deviceIndex)).value;
    var probe := FormatProbe(io, fpsText, fuel);
    EnumerateMember(probe, 0, fuel, v);
    var k: nat :| k < fuel && probe(k).Yield? && v in probe(k).items;
    assert FormatStep(io, fpsText, fuel, k).Yield?;
    var d := EnumFormat(io, k).value;
    FormatFromSize(io, d, FrameSizes(io, d.pixelFormat, fuel), fpsText, fuel, v);
  }

  /** The listing of an opened device: the formats of each pixel format in
      index order, up to the first failing index. */
  function ListedFormats(io: Ioctl, fpsText: FloatText, fuel: nat): seq<VideoFormat> {
    var n := FormatCount(io, fpsText, fuel);
    Concat(seq(n, i requires 0 <= i < n => FormatsOf(io, fpsText, fuel, i)))
  }

  /** On an opened device: for a format index the loop reaches (it and every
      earlier index answer, below the fuel bound), every size its size loop
      reports and every rate reported for that size are listed together. */
  lemma {:induction false} ReachedFormatsListed(io: Ioctl, fpsText: FloatText, fuel: nat, i: nat, d: FormatDesc, s: (int, int), x: real)
    requires i < fuel && (forall j :: 0 <= j < i ==> EnumFormat(io, j).Some?) && EnumFormat(io, i) == Some(d)
    requires s in FrameSizes(io, d.pixelFormat, fuel) && x in FrameRates(io, d.pixelFormat, s.0, s.1, fuel)
    ensures exists v ::
      v in ListedFormats(io, fpsText, fuel)
      && v.width == s.0 && v.height == s.1 && v.fps == x && v.pixelFormat == LinuxText(d.pixelFormat)
  {
    ReachedIndexCounted(io, fpsText, fuel, i);
    var sizes := FrameSizes(io, d.pixelFormat, fuel);
    SizeRateListed(io, d, sizes, fpsText, fuel, s, x);
    var v :| v in FormatsOfSizes(io, d, sizes, fpsText, fuel)
      && v.width == s.0 && v.height == s.1 && v.fps == x && v.pixelFormat == LinuxText(d.pixelFormat);
    assert FormatsOf(io, fpsText, fuel, i) == FormatsOfSizes(io, d, sizes, fpsText, fuel);
    CountedBlockListed(io, fpsText, fuel, i, v);
  }

  /** The formats of an index the loop counts are all listed. */
  lemma CountedBlockListed(io: Ioctl, fpsText: FloatText, fuel: nat, i: nat, v: VideoFormat)
    requires i < FormatCount(io, fpsText, fuel) && v in FormatsOf(io, fpsText, fuel, i)
    ensures v in ListedFormats(io, fpsText, fuel)
  {
    var n := FormatCount(io, fpsText, fuel);
    var blocks := seq(n, j requires 0 <= j < n => FormatsOf(io, fpsText, fuel, j));
    assert blocks[i] == FormatsOf(io, fpsText, fuel, i);
    ConcatMember(blocks, v);
  }

  /** A format index below the fuel bound that answers, after indices that
      all answer, is one the loop lists. */
  lemma ReachedIndexCounted(io: Ioctl, fpsText: FloatText, fuel: nat, i: nat)
    requires i < fuel && (forall j :: 0 <= j < i ==> EnumFormat(io, j).Some?) && EnumFormat(io, i).Some?
    ensures i < FormatCount(io, fpsText, fuel)
  {
    var probe := FormatProbe(io, fpsText, fuel);
    forall j | 0 <= j <= i ensures probe(j).Yield? {
      assert EnumFormat(io, j).Some?;
      assert probe(j) == FormatStep(io, fpsText, fuel, j);
    }
    ReachPast(probe, 0, fuel, i);
  }

  /** The converse of `FormatsComeFromDriver`: on a device that opens, for
      a format index the loop reaches, every size its size loop reports and
      every rate reported for that size are listed together. */
  lemma DriverFormatsListed(open: Opener, deviceIndex: int, fpsText: FloatText, fuel: nat, i: nat, d: FormatDesc, s: (int, int), x: real)
    requires open(DevicePath(deviceIndex)).Some?
    requires var io := open(DevicePath(deviceIndex)).value;
      i < fuel && (forall j :: 0 <= j < i ==> EnumFormat(io, j).Some?) && EnumFormat(io, i) == Some(d)
      && s in FrameSizes(io, d.pixelFormat, fuel) && x in FrameRates(io, d.pixelFormat, s.0, s.1, fuel)
    ensures exists v ::
      v in GetVideoFormats(open, deviceIndex, fpsText, fuel)
      && v.width == s.0 && v.height == s.1 && v.fps == x && v.pixelFormat == LinuxText(d.pixelFormat)
  {
    ReachedFormatsListed(open(DevicePath(deviceIndex)).value, fpsText, fuel, i, d, s, x);
  }

  // ---------------------------------------------------------------------
  // Controls

  const CidBase: int := 0x0098_0900
  const CameraClassBase: int := 0x009A_0900

  const CidBrightness: int := CidBase + 0
  const CidContrast: int := CidBase + 1
  const CidSaturation: int := CidBase + 2
  const CidHue: int := CidBase + 3
  const CidAutoWhiteBalance: int := CidBase + 12
  const CidRedBalance: int := CidBase + 14
  const CidBlueBalance: int := CidBase + 15
  const CidGamma: int := CidBase + 16
  const CidExposure: int := CidBase + 18
  const CidGain: int := CidBase + 20
  const CidFocusAbsolute: int := CameraClassBase + 10
  const CidFocusAuto: int := CameraClassBase + 12
  const CidZoomAbsolute: int := CameraClassBase + 13
  const CidPanAbsolute: int := CameraClassBase + 15
  const CidTiltAbsolute: int := CameraClassBase + 16

  /** The control type the kernel uses for on/off controls. */
  const CtrlTypeBoolean: int := 2

  /** The controls the backend asks for, in the order it reports them. */
  const Catalog: seq<(int, string)> := [
    (CidBrightness, "brightness"), (CidContrast, "contrast"), (CidSaturation, "saturation"),
    (CidHue, "hue"), (CidGamma, "gamma"), (CidGain, "gain"), (CidExposure, "exposure"),
    (CidAutoWhiteBalance, "auto_white_balance"), (CidRedBalance, "red_balance"),
    (CidBlueBalance, "blue_balance"), (CidFocusAbsolute, "focus"), (CidFocusAuto, "focus_auto"),
    (CidZoomAbsolute, "zoom"), (CidPanAbsolute, "pan"), (CidTiltAbsolute, "tilt")]

  /** The names a control can be set by, and the id each stands for. */
  const SetMapping: map<string, int> := map[
    "brightness" := CidBrightness, "contrast" := CidContrast, "saturation" := CidSaturation,
    "hue" := CidHue, "gamma" := CidGamma, "gain" := CidGain, "exposure" := CidExposure,
    "auto_white_balance" := CidAutoWhiteBalance, "red_balance" := CidRedBalance,
    "blue_balance" := CidBlueBalance, "focus" := CidFocusAbsolute, "focus_auto" := CidFocusAuto,
    "zoom" := CidZoomAbsolute, "pan" := CidPanAbsolute, "tilt" := CidTiltAbsolute]

  /** Every catalog entry can be set by its own name, and the mapping sends
      that name to the entry's id. */
  lemma CatalogInSetMapping()
    ensures forall k :: 0 <= k < |Catalog| ==> Catalog[k].1 in SetMapping && SetMapping[Catalog[k].1] == Catalog[k].0
  {
  }

  /** Every settable name is the name of a catalog entry. */
  lemma SetMappingInCatalog()
    ensures forall name :: name in SetMapping ==> exists k :: 0 <= k < |Catalog| && Catalog[k].1 == name
  {
    forall name | name in SetMapping ensures exists k :: 0 <= k < |Catalog| && Catalog[k].1 == name {
      var k := if name == "brightness" then 0 else if name == "contrast" then 1 else if name == "saturation" then 2
        else if name == "hue" then 3 else if name == "gamma" then 4 else if name == "gain" then 5
        else if name == "exposure" then 6 else if name == "auto_white_balance" then 7 else if name == "red_balance" then 8
        else if name == "blue_balance" then 9 else if name == "focus" then 10 else if name == "focus_auto" then 11
        else if name == "zoom" then 12 else if name == "pan" then 13 else 14;
      assert Catalog[k].1 == name;
    }
  }

  /** The catalog ids are distinct unsigned words. */
  lemma CatalogIdsDistinct()
    ensures forall k, j :: 0 <= k < j < |Catalog| ==> Catalog[k].0 != Catalog[j].0
    ensures forall k :: 0 <= k < |Catalog| ==> IsU32(Catalog[k].0)
  {
  }

  /** No two catalog entries share a name: one name would map to two ids. */
  lemma CatalogNamesDistinct()
    ensures forall k, j :: 0 <= k < j < |Catalog| ==> Catalog[k].1 != Catalog[j].1
  {
    CatalogInSetMapping();
    CatalogIdsDistinct();
  }

  /** What VIDIOC_QUERYCTRL reports about a control. */
  datatype ControlQuery = ControlQuery(
    id: int, ctrlType: int, name: string, minimum: int, maximum: int, step: int, defaultValue: int, flags: int)

  /** type at 4, the name field at 8-39, then minimum, maximum, step and default
      as signed words at 40, 44, 48 and 52, and flags unsigned at 56. Nothing
      relates the default to the bounds. */
  function DecodeControlQuery(id: int, buf: seq<Byte>): (q: ControlQuery)
    requires |buf| == StructSize(QueryCtrl)
  {
    ControlQuery(id, U32At(buf, 4), TextField(buf, 8, 40), I32At(buf, 40), I32At(buf, 44), I32At(buf, 48),
      I32At(buf, 52), U32At(buf, 56))
  }

  function ControlRequest(id: int, size: nat): (buf: seq<Byte>)
    requires IsU32(id) && size >= 8
    ensures |buf| == size && U32At(buf, 0) == id
  {
    PutU32(Zeros(size), 0, id)
  }

  /** `_query_control`. */
  function QueryControl(io: Ioctl, id: int): (r: Option<ControlQuery>)
    ensures r.Some? <==> IsU32(id) && Call(io, QueryCtrl, ControlRequest(id, 68)).Some?
    ensures r.Some? ==>
      (r.value.id == id && IsI32(r.value.minimum) && IsI32(r.value.maximum)
       && IsI32(r.value.step) && IsI32(r.value.defaultValue) && IsU32(r.value.ctrlType) && IsU32(r.value.flags))
  {
    if !IsU32(id) then None
    else match Call(io, QueryCtrl, ControlRequest(id, 68))
      case Some(buf) => Some(DecodeControlQuery(id, buf))
      case None => None
  }

  predicate ValidControlQuery(q: ControlQuery) {
    IsU32(q.id) && IsU32(q.ctrlType) && FitsField(q.name, 32) && IsI32(q.minimum) && IsI32(q.maximum)
    && IsI32(q.step) && IsI32(q.defaultValue) && IsU32(q.flags)
  }

  /** The v4l2_queryctrl a driver fills in for `q`. */
  function EncodeControlQuery(q: ControlQuery): (buf: seq<Byte>)
    requires ValidControlQuery(q)
    ensures |buf| == StructSize(QueryCtrl)
  {
    var req := ControlRequest(q.id, 68);
    req[..4] + EncodeU32(q.ctrlType) + FieldBytes(q.name, 32) + EncodeI32(q.minimum) + EncodeI32(q.maximum)
    + EncodeI32(q.step) + EncodeI32(q.defaultValue) + EncodeU32(q.flags) + req[60..]
  }

  /** Signed fields survive the round trip, negative ones included. */
  lemma DecodeEncodeControlQuery(q: ControlQuery)
    requires ValidControlQuery(q)
    ensures DecodeControlQuery(q.id, EncodeControlQuery(q)) == q
  {
    QueryHeadRead(q);
    QueryBoundsRead(q);
  }

  /** The type and the name read back from where the driver put them. */
  lemma QueryHeadRead(q: ControlQuery)
    requires ValidControlQuery(q)
    ensures var buf := EncodeControlQuery(q);
      U32At(buf, 4) == q.ctrlType && TextField(buf, 8, 40) == q.name
  {
    var buf := EncodeControlQuery(q);
    var req := ControlRequest(q.id, 68);
    var head := req[..4] + EncodeU32(q.ctrlType);
    var name := FieldBytes(q.name, 32);
    var rest := EncodeI32(q.minimum) + EncodeI32(q.maximum) + EncodeI32(q.step) + EncodeI32(q.defaultValue)
      + EncodeU32(q.flags) + req[60..];
    assert buf == head + name + rest;
    assert buf[4..8] == head[4..8] == EncodeU32(q.ctrlType);
    ReadU32(buf, 4, q.ctrlType);
    assert buf[8..40] == name;
  }

  /** The range, step, default and flags read back from where the driver
      put them. */
  lemma QueryBoundsRead(q: ControlQuery)
    requires ValidControlQuery(q)
    ensures var buf := EncodeControlQuery(q);
      I32At(buf, 40) == q.minimum && I32At(buf, 44) == q.maximum && I32At(buf, 48) == q.step
      && I32At(buf, 52) == q.defaultValue && U32At(buf, 56) == q.flags
  {
    var buf := EncodeControlQuery(q);
    ReadI32(buf, 40, q.minimum);
    ReadI32(buf, 44, q.maximum);
    ReadI32(buf, 48, q.step);
    ReadI32(buf, 52, q.defaultValue);
    ReadU32(buf, 56, q.flags);
  }

  /** `_get_control`: the signed value at offset 4 of the reply. */
  function GetControlValue(io: Ioctl, id: int): (r: Option<int>)
    ensures r.Some? <==> IsU32(id) && Call(io, GetCtrl, ControlRequest(id, 8)).Some?
    ensures r.Some? ==> IsI32(r.value) && r.value == I32At(Call(io, GetCtrl, ControlRequest(id, 8)).value, 4)
  {
    if !IsU32(id) then None
    else match Call(io, GetCtrl, ControlRequest(id, 8))
      case Some(buf) => Some(I32At(buf, 4))
      case None => None
  }

  /** The v4l2_control of a set: the id unsigned at 0, the value signed at 4. */
  function SetRequest(id: int, value: int): (buf: seq<Byte>)
    requires IsU32(id) && IsI32(value)
    ensures |buf| == StructSize(SetCtrl)
    ensures U32At(buf, 0) == id && I32At(buf, 4) == value
  {
    PutI32(ControlRequest(id, 8), 4, value)
  }

  /** `_set_control`: a value outside the signed 32-bit range cannot be packed,
      so it fails without a call; otherwise the call's success is the result. */
  function SetControlValue(io: Ioctl, id: int, value: int): (r: bool)
    ensures r <==> IsU32(id) && IsI32(value) && Call(io, SetCtrl, SetRequest(id, value)).Some?
  {
    IsU32(id) && IsI32(value) && Call(io, SetCtrl, SetRequest(id, value)).Some?
  }

  /** One catalog entry as a reported control: both the query and the value
      read must succeed. */
  function ControlOf(io: Ioctl, entry: (int, string)): (r: Option<ControlInfo>)
    ensures r.Some? <==> QueryControl(io, entry.0).Some? && GetControlValue(io, entry.0).Some?
    ensures r.Some? ==>
      (r.value.name == entry.1
       && r.value.autoSupported == (QueryControl(io, entry.0).value.ctrlType == CtrlTypeBoolean)
       && r.value.currentValue == GetControlValue(io, entry.0).value)
  {
    match QueryControl(io, entry.0)
    case None => None
    case Some(q) =>
      match GetControlValue(io, entry.0)
      case None => None
      case Some(v) =>
        Some(ControlInfo(entry.1, q.minimum, q.maximum, q.step, q.defaultValue, v, q.flags, q.ctrlType == CtrlTypeBoolean, q.name))
  }

  /** The per-entry query of the control loop on one device. */
  function ControlLookup(io: Ioctl): ((int, string)) -> Option<ControlInfo> {
    (e: (int, string)) => ControlOf(io, e)
  }

  /** `get_device_controls`: nothing for a device that cannot be opened; else
      the catalog entries whose query and value read both succeed, in catalog
      order. */
  function GetDeviceControls(open: Opener, deviceIndex: int): (r: seq<ControlInfo>)
    ensures open(DevicePath(deviceIndex)).None? ==> r == []
    ensures open(DevicePath(deviceIndex)).Some? ==> r == Collect(Catalog, ControlLookup(open(DevicePath(deviceIndex)).value))
    ensures |r| <= |Catalog|
  {
    match open(DevicePath(deviceIndex))
    case None => []
    case Some(io) => Collect(Catalog, ControlLookup(io))
  }

  /** A catalog control is reported exactly when both of its queries succeed. */
  lemma ReportedIffQueried(open: Opener, deviceIndex: int, k: nat)
    requires open(DevicePath(deviceIndex)).Some? && k < |Catalog|
    ensures var io := open(DevicePath(deviceIndex)).value;
      (exists c :: c in GetDeviceControls(open, deviceIndex) && c.name == Catalog[k].1)
      <==> (QueryControl(io, Catalog[k].0).Some? && GetControlValue(io, Catalog[k].0).Some?)
  {
    CatalogNamesDistinct();
    CollectedIffQueried(open(DevicePath(deviceIndex)).value, Catalog, k);
  }

  /** Over any list of entries with distinct names: the entry at `k` is
      collected exactly when both of its queries succeed. */
  lemma CollectedIffQueried(io: Ioctl, entries: seq<(int, string)>, k: nat)
    requires k < |entries|
    requires forall i, j :: 0 <= i < j < |entries| ==> entries[i].1 != entries[j].1
    ensures (exists c :: c in Collect(entries, ControlLookup(io)) && c.name == entries[k].1)
      <==> (QueryControl(io, entries[k].0).Some? && GetControlValue(io, entries[k].0).Some?)
  {
    var query := ControlLookup(io);
    var r := Collect(entries, query);
    if QueryControl(io, entries[k].0).Some? && GetControlValue(io, entries[k].0).Some? {
      var c := query(entries[k]).value;
      assert c in r && c.name == entries[k].1;
    }
    forall c | c in r && c.name == entries[k].1
      ensures QueryControl(io, entries[k].0).Some? && GetControlValue(io, entries[k].0).Some?
    {
      var j :| 0 <= j < |entries| && query(entries[j]) == Some(c);
      assert entries[j].1 == entries[k].1;
      assert j == k;
    }
  }

  /** `set_device_control`: False for a device that cannot be opened or a name
      that, lower-cased, is not in the mapping; else the result of the set. */
  function SetDeviceControl(open: Opener, deviceIndex: int, name: string, value: int): (r: bool)
    ensures r ==> open(DevicePath(deviceIndex)).Some? && Lower(name) in SetMapping && IsI32(value)
    ensures open(DevicePath(deviceIndex)).Some? && Lower(name) in SetMapping ==>
      r == SetControlValue(open(DevicePath(deviceIndex)).value, SetMapping[Lower(name)], value)
  {
    match open(DevicePath(deviceIndex))
    case None => false
    case Some(io) =>
      var key := Lower(name);
      if key !in SetMapping then false else SetControlValue(io, SetMapping[key], value)
  }

  /** The name is matched without regard to case: any name sets what its
      lower-cased form sets. */
  lemma SetIgnoresCase(open: Opener, deviceIndex: int, name: string, value: int)
    ensures SetDeviceControl(open, deviceIndex, name, value) == SetDeviceControl(open, deviceIndex, Lower(name), value)
  {
    LowerIdempotent(name);
  }

  // ---------------------------------------------------------------------
  // Device listing

  /** A path whose device opens and answers the capability query. */
  predicate Answers(open: Opener, path: string) {
    open(path).Some? && QueryCapability(open(path).value).Some?
  }

  /** d describes the device at its own position of the path list: that path
      answers, the name is its card and the description names its driver. */
  predicate DescribesPath(open: Opener, paths: seq<string>, d: DeviceInfo) {
    0 <= d.index < |paths| && d.path == paths[d.index] && Answers(open, d.path)
    && d.name == QueryCapability(open(d.path).value).value.card
    && d.description == "Driver: " + QueryCapability(open(d.path).value).value.driver
  }

  /** The devices found from position i of the sorted path list on, in path
      order. */
  function DevicesFrom(paths: seq<string>, open: Opener, i: nat): (r: seq<DeviceInfo>)
    requires i <= |paths|
    ensures |r| <= |paths| - i
    decreases |paths| - i
  {
    if i == |paths| then []
    else if !Answers(open, paths[i]) then DevicesFrom(paths, open, i + 1)
    else
      var cap := QueryCapability(open(paths[i]).value).value;
      [DeviceInfo(i, cap.card, paths[i], "Driver: " + cap.driver)] + DevicesFrom(paths, open, i + 1)
  }

  /** Every device found describes its own path, at a position from i on. */
  lemma {:induction false} DevicesFromSound(paths: seq<string>, open: Opener, i: nat)
    requires i <= |paths|
    ensures forall k :: 0 <= k < |DevicesFrom(paths, open, i)| ==>
      (DescribesPath(open, paths, DevicesFrom(paths, open, i)[k]) && i <= DevicesFrom(paths, open, i)[k].index)
    decreases |paths| - i
  {
    if i < |paths| {
      DevicesFromSound(paths, open, i + 1);
      var rest := DevicesFrom(paths, open, i + 1);
      var r := DevicesFrom(paths, open, i);
      if Answers(open, paths[i]) {
        forall k | 0 <= k < |r| ensures DescribesPath(open, paths, r[k]) && i <= r[k].index {
          if k > 0 {
            assert r[k] == rest[k - 1];
          }
        }
      } else {
        assert r == rest;
      }
    }
  }

  /** Every device found from position i on has a position from i on. */
  lemma {:induction false} DevicesFromFloor(paths: seq<string>, open: Opener, i: nat)
    requires i <= |paths|
    ensures forall k :: 0 <= k < |DevicesFrom(paths, open, i)| ==> i <= DevicesFrom(paths, open, i)[k].index
    decreases |paths| - i
  {
    if i < |paths| {
      DevicesFromFloor(paths, open, i + 1);
      var rest := DevicesFrom(paths, open, i + 1);
      var r := DevicesFrom(paths, open, i);
      if Answers(open, paths[i]) {
        assert r == [r[0]] + rest && r[0].index == i;
        forall k | 0 < k < |r| ensures i <= r[k].index {
          assert r[k] == rest[k - 1];
        }
      } else {
        assert r == rest;
      }
    }
  }

  /** Positions strictly increase along the list of devices found. */
  lemma {:induction false} DevicesFromAscending(paths: seq<string>, open: Opener, i: nat)
    requires i <= |paths|
    ensures forall k, j :: 0 <= k < j < |DevicesFrom(paths, open, i)| ==>
      DevicesFrom(paths, open, i)[k].index < DevicesFrom(paths, open, i)[j].index
    decreases |paths| - i
  {
    if i < |paths| {
      DevicesFromFloor(paths, open, i + 1);
      DevicesFromAscending(paths, open, i + 1);
      var rest := DevicesFrom(paths, open, i + 1);
      var r := DevicesFrom(paths, open, i);
      if Answers(open, paths[i]) {
        assert r == [r[0]] + rest && r[0].index == i;
        forall k, j | 0 <= k < j < |r| ensures r[k].index < r[j].index {
          assert r[j] == rest[j - 1];
          if k > 0 {
            assert r[k] == rest[k - 1];
          }
        }
      } else {
        assert r == rest;
      }
    }
  }

  /** Every path from position i on that answers is found. */
  lemma {:induction false} DevicesFromComplete(paths: seq<string>, open: Opener, i: nat, p: nat)
    requires i <= p < |paths| && Answers(open, paths[p])
    ensures exists k :: 0 <= k < |DevicesFrom(paths, open, i)| && DevicesFrom(paths, open, i)[k].index == p
    decreases |paths| - i
  {
    var r := DevicesFrom(paths, open, i);
    if p == i {
      assert r[0].index == p;
    } else {
      DevicesFromComplete(paths, open, i + 1, p);
      var rest := DevicesFrom(paths, open, i + 1);
      var k :| 0 <= k < |rest| && rest[k].index == p;
      if Answers(open, paths[i]) {
        assert r[k + 1] == rest[k];
      } else {
        assert r[k] == rest[k];
      }
    }
  }

  /** `list_devices`: the sorted `/dev/video*` paths, each device that opens
      and answers the capability query, indexed by its sorted position. */
  function ListDevices(paths: seq<string>, open: Opener): (r: seq<DeviceInfo>)
    ensures forall k :: 0 <= k < |r| ==> DescribesPath(open, Sort(paths), r[k])
    ensures forall k, j :: 0 <= k < j < |r| ==> r[k].index < r[j].index
    ensures forall p :: 0 <= p < |paths| ==>
      ((exists k :: 0 <= k < |r| && r[k].index == p) <==> Answers(open, Sort(paths)[p]))
  {
    var sorted := Sort(paths);
    DevicesFromSound(sorted, open, 0);
    DevicesFromAscending(sorted, open, 0);
    var r := DevicesFrom(sorted, open, 0);
    forall p | 0 <= p < |paths| && Answers(open, sorted[p])
      ensures exists k :: 0 <= k < |r| && r[k].index == p
    {
      DevicesFromComplete(sorted, open, 0, p);
    }
    r
  }
}
