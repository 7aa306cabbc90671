/** The per-call decoding state of `waitPackage` (src/ydlidar_driver.cpp)
    and the decoding of one sample slot into a node: the package index and
    the sticky error flag, the checksum-gated distance and angle, the
    half-frame validity rule and the 160-slot counter. */
module SlotDecoder {
  import opened Bytes
  import opened Protocol
  import opened ScanFrame

  /** What the model takes as given about a frame's samples: where slot `n`
      of the frame buffer holds its distance and quality, and the module
      calibration `angTransform(dist, n)` for the module `moduleNum`, which
      yields the sample angle in degrees and the compensated distance. */
  datatype Calibration = Calibration(
    slotOf: (seq<byte>, nat) -> Slot,
    angTransform: (u16, nat, byte) -> Transformed)

  /** The driver fields `waitPackage` reads and writes:
      `package_Sample_Index`, the static `package_index`,
      `has_package_error`, `CheckSumResult`, `moduleNum`, the frame buffer
      `package` and `isValidPoint`. */
  datatype Decoder = Decoder(
    sampleIndex: nat,
    packageIndex: byte,
    hasPackageError: bool,
    checkSumResult: bool,
    moduleNum: byte,
    frame: seq<byte>,
    isValidPoint: bool)

  /** The decoder as the driver's constructor leaves it. */
  const InitialDecoder := Decoder(0, 0, false, true, 0, [], true)

  /** The validity rule: a point in the first half of the frame must lie
      beyond the half-turn code, a point in the second half at or below it;
      otherwise its distance is dropped. */
  predicate OutOfHalf(n: nat, code: u16)
  {
    (n < HalfSlots && code <= HalfTurnCode) || (n >= HalfSlots && code > HalfTurnCode)
  }

  /** The fields of a node decoded from a frame whose checksum passed. */
  function GoodSample(d: Decoder, intensities: bool, cal: Calibration): (node: Node)
    ensures CheckBitOf(node.angleCode) == CheckBit
    ensures node.distance != 0 ==> !OutOfHalf(d.sampleIndex, node.angleCode)
  {
    var slot := cal.slotOf(d.frame, d.sampleIndex);
    var quality := if intensities then slot.quality else DefaultQuality;
    var t := if slot.distance > 0 then cal.angTransform(slot.distance, d.sampleIndex, d.moduleNum)
             else Transformed(0.0, slot.distance);
    var code := AngleCode(t.theta);
    var distance := if OutOfHalf(d.sampleIndex, code) then 0 else t.dist;
    Node(NodeNotSync, quality, code, distance, 0)
  }

  /** Decoding the slot `d.sampleIndex` of the current frame: the node and
      the decoder afterwards. */
  function DecodeSlot(d: Decoder, intensities: bool, cal: Calibration): (r: (Node, Decoder))
    requires d.sampleIndex < SlotsPerFrame
    // the slot counter cycles through 0..159, and the sync flag marks slot 159
    ensures r.1.sampleIndex == (d.sampleIndex + 1) % SlotsPerFrame
    ensures r.0.syncFlag == NodeSync <==> d.sampleIndex == SlotsPerFrame - 1
    ensures r.0.syncFlag != NodeSync ==> r.0.syncFlag == NodeNotSync
    ensures r.0.syncFlag == NodeSync ==> !r.1.checkSumResult
    ensures r.0.syncFlag != NodeSync ==> r.1.checkSumResult == d.checkSumResult
    // the error flag is sticky and forces index 255
    ensures r.1.hasPackageError == d.hasPackageError
    ensures d.hasPackageError ==> r.0.index == 255 && r.1.packageIndex == 255
    // a fresh frame without error gets the next package index
    ensures !d.hasPackageError && d.sampleIndex == 0 ==>
              r.1.packageIndex == (d.packageIndex + 1) % 256 && r.0.index == r.1.packageIndex
    ensures !d.hasPackageError && d.sampleIndex != 0 ==> r.1.packageIndex == d.packageIndex
    // a failed checksum yields an empty sample
    ensures !d.checkSumResult ==>
              r.0.distance == 0 && r.0.angleCode == CheckBit && r.0.quality == DefaultQuality
    // a passed checksum yields the calibrated sample unless the validity rule drops it
    ensures d.checkSumResult ==> CheckBitOf(r.0.angleCode) == CheckBit
    ensures d.checkSumResult && r.0.distance != 0 ==> !OutOfHalf(d.sampleIndex, r.0.angleCode)
    ensures r.1.isValidPoint <==> !(d.checkSumResult && OutOfHalf(d.sampleIndex, GoodSample(d, intensities, cal).angleCode))
    // nothing else changes
    ensures r.1.moduleNum == d.moduleNum && r.1.frame == d.frame
  {
    var pkg := if d.hasPackageError then 255
               else if d.sampleIndex == 0 then (d.packageIndex + 1) % 256
               else d.packageIndex;
    var index := if d.checkSumResult then pkg
                 else if !d.hasPackageError && d.sampleIndex == 0 then pkg
                 else 255;
    var (node, valid) :=
      if d.checkSumResult then
        var g := GoodSample(d, intensities, cal);
        (g.(index := index), !OutOfHalf(d.sampleIndex, g.angleCode))
      else (Node(NodeNotSync, DefaultQuality, CheckBit, 0, index), true);
    var next := d.sampleIndex + 1;
    if next >= SlotsPerFrame then
      (node.(syncFlag := NodeSync), d.(sampleIndex := 0, packageIndex := pkg, checkSumResult := false, isValidPoint := valid))
    else
      (node.(syncFlag := NodeNotSync), d.(sampleIndex := next, packageIndex := pkg, isValidPoint := valid))
  }

  /** The decoder once a frame has been read: the new frame, its module
      address and its checksum verdict, a failed verdict setting the sticky
      error flag. */
  function AcceptFrame(d: Decoder, frame: seq<byte>, m: byte, ok: bool): Decoder
  {
    d.(frame := frame, moduleNum := m, checkSumResult := ok, hasPackageError := d.hasPackageError || !ok)
  }

  /** What one call of `waitPackage` ends with. */
  datatype StepResult =
    | StepFail(res: ResultCode, dec: Decoder, rest: seq<byte>)
    | StepOk(node: Node, dec: Decoder, rest: seq<byte>)

  /** One call of `waitPackage` on the stream `rx`: a frame is read first
      when the slot counter is at 0; then the current slot is decoded. */
  function Step(d: Decoder, rx: seq<byte>, intensities: bool, cal: Calibration): StepResult
    requires d.sampleIndex < SlotsPerFrame
  {
    var d0 := d.(isValidPoint := true);
    if d.sampleIndex == 0 then
      match ReadFrame(rx, d.moduleNum)
      case FrameFail(res, m, rest) => StepFail(res, d0.(moduleNum := m), rest)
      case FrameOk(f, m, ok, rest) =>
        var (node, d') := DecodeSlot(AcceptFrame(d0, f, m, ok), intensities, cal);
        StepOk(node, d', rest)
    else
      var (node, d') := DecodeSlot(d0, intensities, cal);
      StepOk(node, d', rx)
  }

  /** A call either fails or yields a node; in both cases the slot counter
      stays below 160, and once set the error flag stays set. */
  lemma StepKeepsInvariants(d: Decoder, rx: seq<byte>, intensities: bool, cal: Calibration)
    requires d.sampleIndex < SlotsPerFrame
    ensures Step(d, rx, intensities, cal).dec.sampleIndex < SlotsPerFrame
    ensures d.hasPackageError ==> Step(d, rx, intensities, cal).dec.hasPackageError
    ensures Step(d, rx, intensities, cal).StepFail? ==>
              d.sampleIndex == 0 && Step(d, rx, intensities, cal).res != Ok &&
              Step(d, rx, intensities, cal).dec.sampleIndex == 0
    ensures Step(d, rx, intensities, cal).StepOk? && d.hasPackageError ==>
              Step(d, rx, intensities, cal).node.index == 255
  {
    ReadFrameSpec(rx, d.moduleNum);
  }

  /** A frame whose checksum fails sets the error flag, and from then on
      every node carries index 255. */
  lemma BadFrameTaintsIndex(d: Decoder, rx: seq<byte>, intensities: bool, cal: Calibration)
    requires d.sampleIndex == 0
    requires ReadFrame(rx, d.moduleNum).FrameOk? && !ReadFrame(rx, d.moduleNum).checksumOk
    ensures Step(d, rx, intensities, cal).StepOk?
    ensures Step(d, rx, intensities, cal).dec.hasPackageError
    ensures Step(d, rx, intensities, cal).node.index == 255
    ensures Step(d, rx, intensities, cal).node.distance == 0
  {
  }
}
