/** Constants, result codes and the decoded sample record of the GS2 wire
    protocol, and the quantised angle encoding `angle_q6_checkbit`.

    The protocol header that defines the numeric constants is not part of
    this model. Only the angle encoding (shift 1, check bit 1, 64 steps per
    degree) and the sizes matter to the proofs; the byte values of the
    sync marker and the command codes are representative. */
module Protocol {
  import opened Bytes

  /** Sync byte of device answers (`LIDAR_ANS_SYNC_BYTE1`). */
  const AnsSyncByte: byte := 0xA5
  /** Sync byte of host commands (`LIDAR_CMD_SYNC_BYTE`). */
  const CmdSyncByte: byte := 0xA5
  /** Frame type of a scan frame (`GS_LIDAR_ANS_SCAN`). */
  const AnsScan: byte := 0x63
  /** Command and answer type of the parameter query (`GS_LIDAR_CMD_GET_PARAMETER`). */
  const CmdGetParameter: byte := 0x61

  /** Bytes of an answer header: 4 sync, address, type, 16-bit length
      (`sizeof(gs_lidar_ans_header)`, also `PackagePaidBytes_GS`). */
  const HeaderSize: nat := 8
  /** Sample slots per module frame (`nowPackageNum`). */
  const SlotsPerFrame: nat := 160
  /** Slots of the first half of a frame (segment 0 of the calibration). */
  const HalfSlots: nat := 80

  /** `LIDAR_RESP_MEASUREMENT_ANGLE_SHIFT` and `LIDAR_RESP_MEASUREMENT_CHECKBIT`. */
  const AngleShift: nat := 1
  const CheckBit: nat := 1
  /** Quantisation steps per degree and a full turn in steps. */
  const StepsPerDegree: nat := 64
  const FullTurnSteps: nat := 23040
  /** The code of the half-turn boundary used by the slot validity rule. */
  const HalfTurnCode: nat := 23041

  /** `Node_Sync`, `Node_NotSync` and `Node_Default_Quality`. */
  const NodeSync: byte := 1
  const NodeNotSync: byte := 2
  const DefaultQuality: u16 := 10

  /** `MAX_SCAN_NODES`, the capacity of the driver's scan buffers. */
  const MaxScanNodes: nat := 3600

  datatype Option<T> = None | Some(value: T)

  /** The driver's `result_t` values. */
  datatype ResultCode = Ok | Timeout | Fail

  /** One decoded sample (`node_info`): sync flag, quality, angle code,
      distance and the frame/module tag `index`. */
  datatype Node = Node(syncFlag: byte, quality: u16, angleCode: u16, distance: u16, index: byte)

  /** A node after `memset(&node, 0, ...)`. */
  const ZeroNode := Node(0, 0, 0, 0, 0)

  /** What the calibration transform returns for one sample: the angle in
      degrees (a double) and the compensated distance (cast to `uint16_t`). */
  datatype Transformed = Transformed(theta: real, dist: u16)

  /** One raw sample slot of the payload: distance and quality fields. */
  datatype Slot = Slot(distance: u16, quality: u16)

  // ---------------------------------------------------------------------
  // Angle encoding

  /** C++ conversion of a double to an integer: truncation toward zero. */
  function Trunc(x: real): (r: int)
    ensures x >= 0.0 ==> r == x.Floor
    ensures x >= 0.0 ==> r as real <= x < r as real + 1.0
    ensures x < 0.0 ==> x <= r as real <= 0.0
    ensures x < 0.0 ==> x <= r as real < x + 1.0
  {
    if x >= 0.0 then x.Floor else -((-x).Floor)
  }

  /** `(uint16_t)x`. In range this is truncation; out of range C++ leaves it
      undefined and the model takes the usual wrap-around. */
  function ToU16(x: real): u16
  {
    Trunc(x) % 0x1_0000
  }

  /** `(q << ANGLE_SHIFT) + CHECKBIT`, stored into a `uint16_t`. */
  function Encode(q: u16, checkbit: nat): u16
  {
    (q * 2 + checkbit) % 0x1_0000
  }

  /** `code >> ANGLE_SHIFT`: the angle in 1/64 degree steps. */
  function Q6(code: u16): nat { code / 2 }

  /** `code & CHECKBIT`. */
  function CheckBitOf(code: u16): nat { code % 2 }

  /** The angle code `waitPackage` stores for a transformed angle `theta`
      (in degrees): negative angles are lifted by a full turn, angles above
      a full turn are lowered by one. Whatever the angle, the stored code
      carries the check bit. */
  function AngleCode(theta: real): (code: u16)
    ensures CheckBitOf(code) == CheckBit
  {
    var steps := theta * StepsPerDegree as real;
    var q := if theta < 0.0 then ToU16(steps + FullTurnSteps as real)
             else if steps > FullTurnSteps as real then ToU16(steps - FullTurnSteps as real)
             else ToU16(steps);
    EncodeSetsCheckBit(q);
    Encode(q, CheckBit)
  }

  /** Encoding always sets the check bit, whatever the angle steps. */
  lemma EncodeSetsCheckBit(q: u16)
    ensures CheckBitOf(Encode(q, CheckBit)) == CheckBit
  {
  }

  /** For an angle of at most one turn the code holds the floor of the angle
      in 1/64 degree steps, shifted, with the check bit set; decoding gives
      back that floor. */
  lemma AngleCodeInTurn(theta: real)
    requires 0.0 <= theta <= 360.0
    ensures AngleCode(theta) == (theta * 64.0).Floor * 2 + CheckBit
    ensures Q6(AngleCode(theta)) == (theta * 64.0).Floor
    ensures CheckBitOf(AngleCode(theta)) == CheckBit
  {
    var x := theta * 64.0;
    assert 0.0 <= x <= 23040.0;
    assert AngleCode(theta) == Encode(ToU16(x), CheckBit);
    var f := x.Floor;
    assert Trunc(x) == f;
    assert 0 <= f <= 23040;
    assert ToU16(x) == f;
    assert Encode(f, CheckBit) == f * 2 + 1;
  }

  /** Angles in the turn below zero are lifted by one turn before truncation. */
  lemma AngleCodeBelowZero(theta: real)
    requires -360.0 <= theta < 0.0
    ensures Q6(AngleCode(theta)) == (theta * 64.0 + 23040.0).Floor
    ensures CheckBitOf(AngleCode(theta)) == CheckBit
  {
    var x := theta * 64.0 + 23040.0;
    assert 0.0 <= x <= 23040.0;
    assert AngleCode(theta) == Encode(ToU16(x), CheckBit);
    var f := x.Floor;
    assert Trunc(x) == f;
    assert 0 <= f <= 23040;
    assert ToU16(x) == f;
    assert Encode(f, CheckBit) == f * 2 + 1;
  }

  /** Angles in the turn above one turn are lowered by one turn. */
  lemma AngleCodeAboveTurn(theta: real)
    requires 360.0 < theta <= 720.0
    ensures Q6(AngleCode(theta)) == (theta * 64.0 - 23040.0).Floor
    ensures CheckBitOf(AngleCode(theta)) == CheckBit
  {
    var x := theta * 64.0 - 23040.0;
    assert theta * 64.0 > 23040.0;
    assert 0.0 < x <= 23040.0;
    assert AngleCode(theta) == Encode(ToU16(x), CheckBit);
    assert Trunc(x) == x.Floor;
    assert 0 <= x.Floor <= 23040;
    assert ToU16(x) == x.Floor;
  }

  /** The validity boundary in degrees: for an angle within one turn the
      code is at most 23041 exactly when the angle is below 180 + 1/64. */
  lemma HalfTurnBoundary(theta: real)
    requires 0.0 <= theta <= 360.0
    ensures AngleCode(theta) <= HalfTurnCode <==> theta < 180.0 + 1.0 / 64.0
  {
    AngleCodeInTurn(theta);
    var f := (theta * 64.0).Floor;
    assert f <= 11520 <==> theta * 64.0 < 11521.0;
  }
}
