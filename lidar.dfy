/** The client object `CYdLidar` (src/CYdLidar.cpp): it owns the driver,
    rewrites the serial port name before connecting, and turns the nodes
    handed out by `grabScanData` into a `LaserScan` of filtered points in
    radians. Floating point is modelled by `real`; the single-precision
    casts are not modelled. */
module Lidar {
  import opened Bytes
  import opened Protocol
  import opened SlotDecoder
  import opened Reassembly
  import opened Mailbox
  import opened LidarDriver

  /** `M_PI`. */
  const Pi: real := 3.141592653589793
  const TwoPi: real := 2.0 * Pi

  /** `angles::from_degrees`. */
  function FromDegrees(d: real): real { d * Pi / 180.0 }

  /** The least integer not below `x`, `std::ceil`. */
  function Ceil(x: real): (c: int)
    ensures c as real - 1.0 < x <= c as real
  {
    -((-x).Floor)
  }

  /** The number of whole turns `NormalizeAngle` takes off its argument. */
  function Turns(a: real): int
  {
    var k := (a / TwoPi).Floor;
    if a - k as real * TwoPi > Pi then k + 1 else k
  }

  /** `angles::normalize_angle` (the angles library is not part of this
      model; it is taken as the usual reduction to (-pi, pi]): the angle
      minus a whole number of turns, in (-pi, pi]. */
  function NormalizeAngle(a: real): (r: real)
    ensures -Pi < r <= Pi
    ensures r == a - Turns(a) as real * TwoPi
  {
    var k := (a / TwoPi).Floor;
    var p := a - k as real * TwoPi;
    assert k as real <= a / TwoPi < k as real + 1.0;
    assert k as real * TwoPi <= a < k as real * TwoPi + TwoPi;
    if p > Pi then p - TwoPi else p
  }

  /** The settings of `CYdLidar` that `doProcessSimple` and `checkCOMMs`
      read (set through the option setters, which are not part of this
      model). Angles are in degrees. */
  datatype Options = Options(
    minRange: real, maxRange: real,
    minAngle: real, maxAngle: real, angleOffset: real,
    reversion: bool, inverted: bool,
    fixedResolution: bool, fixedSize: nat,
    ignoreArray: seq<real>,
    intensity: bool)

  /** The defaults of the constructor: ranges 0.01 to 64, angles -180 to
      180, fixed resolution with 720 points, no ignored sectors. */
  const DefaultOptions := Options(0.01, 64.0, -180.0, 180.0, 0.0, false, false, true, 720, [], false)

  /** `LaserPoint`: an angle in radians, a range and an intensity. */
  datatype LaserPoint = LaserPoint(angle: real, range: real, intensity: real)

  /** What `resize` appends: a value-initialised point. */
  const ZeroPoint := LaserPoint(0.0, 0.0, 0.0)

  /** `LaserConfig`, without the fields `doProcessSimple` does not set. */
  datatype ScanConfig = ScanConfig(
    minAngle: real, maxAngle: real, angleIncrement: real,
    scanTime: real, timeIncrement: real,
    minRange: real, maxRange: real)

  /** `LaserScan`, without its time stamp. */
  datatype LaserScan = LaserScan(moduleNum: int, config: ScanConfig, points: seq<LaserPoint>)

  /** `isRangeValid`: a reading within the configured range, both ends
      included. */
  predicate RangeValid(o: Options, reading: real)
  {
    o.minRange <= reading <= o.maxRange
  }

  /** The `k`-th ignored sector, `[ignore[2k], ignore[2k+1]]` in degrees,
      contains the angle (in radians). */
  predicate InSector(ignore: seq<real>, k: nat, angle: real)
    requires 2 * k + 1 < |ignore|
  {
    FromDegrees(ignore[2 * k]) <= angle <= FromDegrees(ignore[2 * k + 1])
  }

  /** What `isRangeIgnore` decides: some sector contains the angle. */
  predicate Ignored(ignore: seq<real>, angle: real)
  {
    exists k: nat :: k < |ignore| / 2 && InSector(ignore, k, angle)
  }

  /** The angle of a node in radians: its Q6 angle in degrees plus the
      offset, turned by half a turn with `reversion`, mirrored with
      `inverted`, and normalised. */
  function PointAngle(o: Options, n: Node): real
  {
    var a := FromDegrees(Q6(n.angleCode) as real / StepsPerDegree as real + o.angleOffset);
    var b := if o.reversion then a + Pi else a;
    var c := if o.inverted then TwoPi - b else b;
    NormalizeAngle(c)
  }

  /** The point `doProcessSimple` makes of a node: an ignored angle zeroes
      the range; a range that is then not valid zeroes range and
      intensity. */
  function Filtered(o: Options, n: Node): (p: LaserPoint)
    ensures p.angle == PointAngle(o, n)
    ensures !Ignored(o.ignoreArray, p.angle) && RangeValid(o, n.distance as real) ==>
              p.range == n.distance as real && p.intensity == n.quality as real
    ensures !Ignored(o.ignoreArray, p.angle) && !RangeValid(o, n.distance as real) ==>
              p.range == 0.0 && p.intensity == 0.0
    ensures Ignored(o.ignoreArray, p.angle) ==>
              p.range == 0.0 && p.intensity == (if RangeValid(o, 0.0) then n.quality as real else 0.0)
  {
    var angle := PointAngle(o, n);
    var r := if Ignored(o.ignoreArray, angle) then 0.0 else n.distance as real;
    if RangeValid(o, r) then LaserPoint(angle, r, n.quality as real) else LaserPoint(angle, 0.0, 0.0)
  }

  /** The fixed-resolution slot test `0 <= ceil((angle - min) / inc) < N`
      with `inc = (max - min) / (N - 1)`, in IEEE terms: for `N = 1` the
      increment is infinite and the slot is 0 (or NaN when `max = min`);
      for `N >= 2` and `max = min` the quotient is NaN. A NaN slot is taken
      as out of range. */
  predicate FixedSlotOk(angle: real, minA: real, maxA: real, n: nat)
  {
    if n == 0 then false
    else if n == 1 then maxA > minA
    else
      var inc := (maxA - minA) / (n - 1) as real;
      inc != 0.0 && 0 <= Ceil((angle - minA) / inc) < n
  }

  /** A point is kept when its angle lies in the configured window and, at
      fixed resolution, it falls in a slot. */
  predicate Kept(o: Options, angle: real)
  {
    FromDegrees(o.minAngle) <= angle <= FromDegrees(o.maxAngle) &&
    (o.fixedResolution ==> FixedSlotOk(angle, FromDegrees(o.minAngle), FromDegrees(o.maxAngle), o.fixedSize))
  }

  /** The points made of `nodes`, in their order, before resizing. */
  function Points(o: Options, nodes: seq<Node>): (ps: seq<LaserPoint>)
    ensures |ps| <= |nodes|
  {
    if nodes == [] then []
    else
      var n := nodes[|nodes| - 1];
      var ps := Points(o, nodes[..|nodes| - 1]);
      if Kept(o, PointAngle(o, n)) then ps + [Filtered(o, n)] else ps
  }

  /** `std::vector::resize(n)`: truncation, or padding with zero points. */
  function Resize(ps: seq<LaserPoint>, n: nat): (r: seq<LaserPoint>)
    ensures |r| == n
    ensures forall i :: 0 <= i < n && i < |ps| ==> r[i] == ps[i]
    ensures forall i :: |ps| <= i < n ==> r[i] == ZeroPoint
  {
    if n <= |ps| then ps[..n] else ps + seq(n - |ps|, _ => ZeroPoint)
  }

  /** `x / d` where the source divides by `d`; a zero divisor, which gives
      an infinite or NaN value in IEEE arithmetic, gives 0 here. */
  function Quotient(x: real, d: int): real
  {
    if d == 0 then 0.0 else x / d as real
  }

  /** The scan `doProcessSimple` makes of the `nodes` it grabbed, with the
      measured `scanTime` in seconds. */
  function ScanOf(o: Options, nodes: seq<Node>, scanTime: real): LaserScan
    requires |nodes| >= 1
  {
    var ps := Points(o, nodes);
    LaserScan(nodes[0].index, ConfigOf(o, |nodes|, scanTime), if o.fixedResolution then Resize(ps, o.fixedSize) else ps)
  }

  /** The configuration part of the scan, for `count` nodes grabbed. */
  function ConfigOf(o: Options, count: nat, scanTime: real): ScanConfig
  {
    var minA, maxA := FromDegrees(o.minAngle), FromDegrees(o.maxAngle);
    var all := if o.fixedResolution then o.fixedSize else count;
    ScanConfig(minA, maxA, Quotient(maxA - minA, all - 1), scanTime, Quotient(scanTime, count - 1), o.minRange, o.maxRange)
  }

  /** A point as every kept point is: inside the angular window; its range
      is 0 or valid; a range that is not valid carries no intensity. */
  predicate PointInvariant(o: Options, p: LaserPoint)
  {
    FromDegrees(o.minAngle) <= p.angle <= FromDegrees(o.maxAngle) &&
    (p.range == 0.0 || RangeValid(o, p.range)) &&
    (!RangeValid(o, p.range) ==> p.intensity == 0.0)
  }

  /** Every point kept satisfies `PointInvariant`. */
  lemma {:induction false} PointsInvariant(o: Options, nodes: seq<Node>)
    ensures forall i :: 0 <= i < |Points(o, nodes)| ==> PointInvariant(o, Points(o, nodes)[i])
  {
    if nodes != [] {
      PointsInvariant(o, nodes[..|nodes| - 1]);
    }
  }

  /** Points keep the order of the nodes: the points of a concatenation
      are those of its parts, one after the other. */
  lemma {:induction false} PointsAppend(o: Options, a: seq<Node>, b: seq<Node>)
    ensures Points(o, a + b) == Points(o, a) + Points(o, b)
    decreases |b|
  {
    if b == [] {
      assert a + b == a;
    } else {
      var b' := b[..|b| - 1];
      assert (a + b)[..|a + b| - 1] == a + b';
      assert (a + b)[|a + b| - 1] == b[|b| - 1];
      PointsAppend(o, a, b');
    }
  }

  /** The points are exactly the filtered kept nodes: each point comes
      from a node whose angle is kept, and each such node gives a point. */
  lemma {:induction false} PointsContents(o: Options, nodes: seq<Node>)
    ensures forall p :: p in Points(o, nodes) ==>
              exists i :: 0 <= i < |nodes| && Kept(o, PointAngle(o, nodes[i])) && p == Filtered(o, nodes[i])
    ensures forall i :: 0 <= i < |nodes| && Kept(o, PointAngle(o, nodes[i])) ==> Filtered(o, nodes[i]) in Points(o, nodes)
  {
    if nodes != [] {
      var init := nodes[..|nodes| - 1];
      PointsContents(o, init);
      forall p | p in Points(o, nodes)
        ensures exists i :: 0 <= i < |nodes| && Kept(o, PointAngle(o, nodes[i])) && p == Filtered(o, nodes[i])
      {
        if p in Points(o, init) {
          var i :| 0 <= i < |init| && Kept(o, PointAngle(o, init[i])) && p == Filtered(o, init[i]);
          assert init[i] == nodes[i];
        } else {
          assert nodes[|nodes| - 1] == nodes[|nodes| - 1];
        }
      }
      forall i | 0 <= i < |nodes| && Kept(o, PointAngle(o, nodes[i]))
        ensures Filtered(o, nodes[i]) in Points(o, nodes)
      {
        if i < |init| {
          assert init[i] == nodes[i];
        }
      }
    }
  }

  /** In the usual configuration (a window wider than one angle and at
      least one output slot) the fixed-resolution slot test keeps every
      angle of the window. */
  lemma FixedSlotInWindow(angle: real, minA: real, maxA: real, n: nat)
    requires 1 <= n && minA < maxA && minA <= angle <= maxA
    ensures FixedSlotOk(angle, minA, maxA, n)
  {
    if n >= 2 {
      var m := (n - 1) as real;
      var inc := (maxA - minA) / m;
      SlotBound(angle - minA, maxA - minA, m);
      var x := (angle - minA) / inc;
      assert Ceil(x) as real < x + 1.0;
    }
  }

  /** A distance `d` within a window of width `w` split into `m` steps is
      at most `m` steps from the start. */
  lemma SlotBound(d: real, w: real, m: real)
    requires 0.0 <= d <= w && w > 0.0 && m >= 1.0
    ensures w / m > 0.0
    ensures 0.0 <= d / (w / m) <= m
  {
    var inc := w / m;
    assert inc * m == w;
    var x := d / inc;
    assert x * inc == d;
    if x < 0.0 {
      MulPositive(-x, inc);
    }
    if x > m {
      MulPositive(x - m, inc);
    }
  }

  lemma MulPositive(a: real, b: real)
    requires a > 0.0 && b > 0.0
    ensures a * b > 0.0
  {
  }

  /** So in the usual configuration a point is kept exactly when its angle
      lies in the window. */
  lemma KeptInWindow(o: Options, angle: real)
    requires o.fixedResolution ==> 1 <= o.fixedSize && FromDegrees(o.minAngle) < FromDegrees(o.maxAngle)
    ensures Kept(o, angle) <==> FromDegrees(o.minAngle) <= angle <= FromDegrees(o.maxAngle)
  {
    if o.fixedResolution && FromDegrees(o.minAngle) <= angle <= FromDegrees(o.maxAngle) {
      FixedSlotInWindow(angle, FromDegrees(o.minAngle), FromDegrees(o.maxAngle), o.fixedSize);
    }
  }

  /** The points of the scan: at fixed resolution exactly `fixedSize`
      points, the kept points first (truncated when there are more) and
      zero points after them; otherwise the kept points as they are; and
      the module number is the index byte of the first node. */
  lemma ScanPoints(o: Options, nodes: seq<Node>, scanTime: real)
    requires |nodes| >= 1
    ensures var s := ScanOf(o, nodes, scanTime);
            var ps := Points(o, nodes);
            s.moduleNum == nodes[0].index &&
            (o.fixedResolution ==>
               |s.points| == o.fixedSize &&
               (forall i :: 0 <= i < o.fixedSize && i < |ps| ==> s.points[i] == ps[i]) &&
               (forall i :: |ps| <= i < o.fixedSize ==> s.points[i] == ZeroPoint)) &&
            (!o.fixedResolution ==> s.points == ps)
  {
  }

  /** A quotient times its (non-zero) divisor gives back the dividend. */
  lemma QuotientTimes(x: real, d: int)
    requires d != 0
    ensures Quotient(x, d) * d as real == x
  {
  }

  /** The configuration of a scan of `count` nodes: the window and range
      as configured, the window divided by the point count (`fixedSize` at
      fixed resolution, otherwise `count`) less one, and the scan time
      divided by `count` less one. */
  lemma ScanIncrements(o: Options, count: nat, scanTime: real)
    ensures var c := ConfigOf(o, count, scanTime);
            var all := if o.fixedResolution then o.fixedSize else count;
            c.minAngle == FromDegrees(o.minAngle) && c.maxAngle == FromDegrees(o.maxAngle) &&
            c.minRange == o.minRange && c.maxRange == o.maxRange && c.scanTime == scanTime &&
            (all != 1 ==> c.angleIncrement * (all - 1) as real == c.maxAngle - c.minAngle) &&
            (count != 1 ==> c.timeIncrement * (count - 1) as real == scanTime)
  {
    var all := if o.fixedResolution then o.fixedSize else count;
    if all != 1 {
      QuotientTimes(FromDegrees(o.maxAngle) - FromDegrees(o.minAngle), all - 1);
    }
    if count != 1 {
      QuotientTimes(scanTime, count - 1);
    }
  }

  /** The prefix `checkCOMMs` puts in front of a Windows port name. */
  const DevicePrefix: string := "\\\\.\\"

  /** `tolower` on ASCII. */
  function Lower(c: char): char
  {
    if 'A' <= c <= 'Z' then (c as int + 32) as char else c
  }

  /** `s[i]` of a `std::string`, which is the terminating NUL at `i ==
      s.size()`. */
  function CharAt(s: string, i: nat): char
    requires i <= |s|
  {
    if i < |s| then s[i] else 0 as char
  }

  /** The test of `checkCOMMs`: at least three characters, the first three
      "com" in any case, and more than four characters or a fourth one
      above '4'. */
  predicate NeedsPrefix(s: string)
  {
    |s| >= 3 && Lower(s[0]) == 'c' && Lower(s[1]) == 'o' && Lower(s[2]) == 'm' &&
    (|s| > 4 || CharAt(s, 3) > '4')
  }

  /** The port name `checkCOMMs` connects to. The prefix is added exactly
      to names of four or more characters starting with "com" in any case
      that are longer than four or end in a character above '4'; every
      other name, "com" itself included, is left alone. */
  function PortName(s: string): (r: string)
    ensures r == s || r == DevicePrefix + s
    ensures r != s <==>
              |s| >= 4 && Lower(s[0]) == 'c' && Lower(s[1]) == 'o' && Lower(s[2]) == 'm' &&
              (|s| > 4 || s[3] > '4')
  {
    if NeedsPrefix(s) then DevicePrefix + s else s
  }

  /** The rewrite is idempotent: a rewritten name starts with a backslash
      and is not rewritten again. */
  lemma PortNameIdempotent(s: string)
    ensures PortName(PortName(s)) == PortName(s)
  {
    if NeedsPrefix(s) {
      assert (DevicePrefix + s)[0] == '\\';
    }
  }

  /** `LaserDebug`: the device information filled in by
      `parsePackageNode`, one byte per debug index. */
  class LaserDebug {
    var W3F4CusMajor_W4F0CusMinor: byte
    var W4F3Model_W3F0DebugInfTranVer: byte
    var W3F4HardwareVer_W4F0FirewareMajor: byte
    var W3F4BoradHardVer_W4F0Moth: byte
    var W2F5Output2K4K5K_W5F0Date: byte
    var W1F6GNoise_W1F5SNoise_W1F4MotorCtl_W4F0SnYear: byte
    var W7F0SnNumH: byte
    var W7F0SnNumL: byte
    var MaxDebugIndex: int

    constructor ()
      ensures MaxDebugIndex == 0
    {
      W3F4CusMajor_W4F0CusMinor := 0;
      W4F3Model_W3F0DebugInfTranVer := 0;
      W3F4HardwareVer_W4F0FirewareMajor := 0;
      W3F4BoradHardVer_W4F0Moth := 0;
      W2F5Output2K4K5K_W5F0Date := 0;
      W1F6GNoise_W1F5SNoise_W1F4MotorCtl_W4F0SnYear := 0;
      W7F0SnNumH := 0;
      W7F0SnNumL := 0;
      MaxDebugIndex := 0;
    }
  }

  /** The debug indices that have a field. */
  predicate HasDebugField(index: byte)
  {
    index <= 8 && index != 3
  }

  class CYdLidar {
    const opts: Options
    var serialPort: string
    var isScanning: bool
    var lidarPtr: Driver?
    /** `global_nodes`, `MAX_SCAN_NODES` nodes. */
    const globalNodes: array<Node>

    /** The ignore list holds pairs, the node array holds `MAX_SCAN_NODES`
        nodes, and an existing driver is valid and does not share it. */
    predicate Valid()
      reads this, lidarPtr
    {
      |opts.ignoreArray| % 2 == 0 && globalNodes.Length == MaxScanNodes &&
      (lidarPtr != null ==> lidarPtr.Valid() && lidarPtr.scanNodeBuf != globalNodes)
    }

    /** The constructor: no driver yet, not scanning, the options and port
        name as configured. */
    constructor (o: Options, port: string)
      requires |o.ignoreArray| % 2 == 0
      ensures Valid() && fresh(globalNodes)
      ensures opts == o && serialPort == port && !isScanning && lidarPtr == null
    {
      opts := o;
      serialPort := port;
      isScanning := false;
      lidarPtr := null;
      globalNodes := new Node[MaxScanNodes](_ => ZeroNode);
    }

    /** `checkHardware`: a driver exists and both it and this object are
        scanning. */
    predicate CheckHardware()
      reads this, lidarPtr
    {
      lidarPtr != null && isScanning && lidarPtr.isScanning
    }

    /** `isRangeIgnore(angle)`: a scan of the sector pairs that stops at the
        first sector containing the angle. */
    method IsRangeIgnore(angle: real) returns (ret: bool)
      requires |opts.ignoreArray| % 2 == 0
      ensures ret <==> Ignored(opts.ignoreArray, angle)
    {
      ret := false;
      var j := 0;
      while j < |opts.ignoreArray|
        invariant j % 2 == 0 && j <= |opts.ignoreArray|
        invariant forall k: nat :: k < j / 2 ==> !InSector(opts.ignoreArray, k, angle)
        decreases |opts.ignoreArray| - j
      {
        if FromDegrees(opts.ignoreArray[j]) <= angle && angle <= FromDegrees(opts.ignoreArray[j + 1]) {
          assert InSector(opts.ignoreArray, j / 2, angle);
          ret := true;
          break;
        }
        j := j + 2;
      }
    }

    /** The body of the point loop of `doProcessSimple` for one node: the
        point it makes and whether it is pushed. */
    method ProcessNode(n: Node) returns (p: LaserPoint, keep: bool)
      requires |opts.ignoreArray| % 2 == 0
      ensures p == Filtered(opts, n) && keep == Kept(opts, p.angle)
    {
      var angle := Q6(n.angleCode) as real / StepsPerDegree as real + opts.angleOffset;
      var range := n.distance as real;
      var intensity := n.quality as real;
      angle := FromDegrees(angle);
      if opts.reversion {
        angle := angle + Pi;
      }
      if opts.inverted {
        angle := TwoPi - angle;
      }
      angle := NormalizeAngle(angle);
      var ignored := IsRangeIgnore(angle);
      if ignored {
        range := 0.0;
      }
      if !RangeValid(opts, range) {
        range := 0.0;
        intensity := 0.0;
      }
      p := LaserPoint(angle, range, intensity);
      var minA, maxA := FromDegrees(opts.minAngle), FromDegrees(opts.maxAngle);
      keep := false;
      if angle >= minA && angle <= maxA {
        if opts.fixedResolution {
          keep := FixedSlotOk(angle, minA, maxA, opts.fixedSize);
        } else {
          keep := true;
        }
      }
    }

    /** The point loop of `doProcessSimple` over the first `count` nodes. */
    method CollectPoints(count: nat) returns (points: seq<LaserPoint>)
      requires |opts.ignoreArray| % 2 == 0 && count <= globalNodes.Length
      ensures points == Points(opts, globalNodes[..count])
    {
      points := [];
      for i := 0 to count
        invariant points == Points(opts, globalNodes[..i])
      {
        var p, keep := ProcessNode(globalNodes[i]);
        assert globalNodes[..i + 1][..i] == globalNodes[..i];
        if keep {
          points := points + [p];
        }
      }
    }

    /** `doProcessSimple(outscan, hardwareError)`, with the outcome `ev` of
        the driver's wait and the measured scan time: without working
        hardware it fails with `hardwareError` and touches nothing; it fails
        without touching the scan when the grab fails; otherwise the scan is
        made of the nodes grabbed. */
    method DoProcessSimple(ev: WaitOutcome, scanTime: real, scan: LaserScan)
      returns (ok: bool, hardwareError: bool, outscan: LaserScan)
      requires Valid()
      modifies globalNodes, (if lidarPtr == null then {} else {lidarPtr})`scanNodeCount
      ensures Valid()
      ensures !old(CheckHardware()) ==>
                !ok && hardwareError && outscan == scan &&
                globalNodes[..] == old(globalNodes[..]) && (lidarPtr != null ==> lidarPtr.scanNodeCount == old(lidarPtr.scanNodeCount))
      ensures old(CheckHardware()) ==>
                var g := GrabSpec(ev, lidarPtr.scanNodeBuf[..], old(lidarPtr.scanNodeCount), MaxScanNodes);
                !hardwareError && (ok <==> g.res == Ok) && lidarPtr.scanNodeCount == g.pending &&
                globalNodes[..] == g.copied + old(globalNodes[..])[|g.copied|..] &&
                (ok ==> |g.copied| >= 1 && outscan == ScanOf(opts, g.copied, scanTime)) &&
                (!ok ==> outscan == scan)
    {
      hardwareError := false;
      outscan := scan;
      if !CheckHardware() {
        hardwareError := true;
        ok := false;
        return;
      }
      var res, count := lidarPtr.GrabScanData(ev, globalNodes, MaxScanNodes);
      if res != Ok {
        ok := false;
        return;
      }
      assert globalNodes[..count] == lidarPtr.scanNodeBuf[..count];
      var minA, maxA := FromDegrees(opts.minAngle), FromDegrees(opts.maxAngle);
      var allNodeCount: int := if opts.fixedResolution then opts.fixedSize else count;
      var config := ScanConfig(minA, maxA, Quotient(maxA - minA, allNodeCount - 1), scanTime,
                               Quotient(scanTime, count - 1), opts.minRange, opts.maxRange);
      assert config == ConfigOf(opts, count, scanTime);
      var points := CollectPoints(count);
      if opts.fixedResolution {
        points := Resize(points, opts.fixedSize);
      }
      outscan := LaserScan(globalNodes[0].index, config, points);
      ok := true;
    }

    /** `checkCOMMs`, with the outcome of `connect` as an input: a missing
        driver is created (from the calibration, reassembly list and line
        it would start with); a connected driver is left alone; otherwise
        the port name is rewritten, and a successful connect leaves the
        driver connected with this object's intensity setting. */
    method CheckComms(connect: ResultCode, calibration: Calibration, initial: seq<Package>, line: seq<byte>)
      returns (ok: bool)
      requires Valid()
      requires forall j :: 0 <= j < |initial| ==> |initial[j].points| == SlotsPerFrame
      modifies this`lidarPtr, this`serialPort
      modifies (if lidarPtr == null then {} else {lidarPtr})`isConnected, (if lidarPtr == null then {} else {lidarPtr})`intensities
      ensures Valid() && lidarPtr != null
      ensures old(lidarPtr) != null ==> lidarPtr == old(lidarPtr)
      ensures old(lidarPtr) == null ==> fresh(lidarPtr)
      ensures old(lidarPtr) != null && old(lidarPtr.isConnected) ==>
                ok && serialPort == old(serialPort) && lidarPtr.isConnected
      ensures !(old(lidarPtr) != null && old(lidarPtr.isConnected)) ==>
                serialPort == PortName(old(serialPort)) &&
                (ok <==> connect == Ok) && lidarPtr.isConnected == ok &&
                (ok ==> lidarPtr.intensities == opts.intensity)
    {
      if lidarPtr == null {
        lidarPtr := new Driver(calibration, initial, line);
      }
      if lidarPtr.isConnected {
        return true;
      }
      if |serialPort| >= 3 {
        if Lower(serialPort[0]) == 'c' && Lower(serialPort[1]) == 'o' && Lower(serialPort[2]) == 'm' {
          if |serialPort| > 4 || CharAt(serialPort, 3) > '4' {
            serialPort := DevicePrefix + serialPort;
          }
        }
      }
      if connect != Ok {
        return false;
      }
      lidarPtr.isConnected := true;
      lidarPtr.intensities := opts.intensity;
      return true;
    }

    /** `parsePackageNode(node, info)`, with the node's `debug_info` bytes
        (not carried by `Node`): the field for the node's index, if there is
        one, takes the debug byte at that index, and the highest index seen
        below 100 is kept. */
    method ParsePackageNode(node: Node, debugInfo: seq<byte>, info: LaserDebug)
      requires HasDebugField(node.index) ==> node.index < |debugInfo|
      modifies info
      ensures info.W3F4CusMajor_W4F0CusMinor ==
                (if node.index == 0 then debugInfo[0] else old(info.W3F4CusMajor_W4F0CusMinor))
      ensures info.W4F3Model_W3F0DebugInfTranVer ==
                (if node.index == 1 then debugInfo[1] else old(info.W4F3Model_W3F0DebugInfTranVer))
      ensures info.W3F4HardwareVer_W4F0FirewareMajor ==
                (if node.index == 2 then debugInfo[2] else old(info.W3F4HardwareVer_W4F0FirewareMajor))
      ensures info.W3F4BoradHardVer_W4F0Moth ==
                (if node.index == 4 then debugInfo[4] else old(info.W3F4BoradHardVer_W4F0Moth))
      ensures info.W2F5Output2K4K5K_W5F0Date ==
                (if node.index == 5 then debugInfo[5] else old(info.W2F5Output2K4K5K_W5F0Date))
      ensures info.W1F6GNoise_W1F5SNoise_W1F4MotorCtl_W4F0SnYear ==
                (if node.index == 6 then debugInfo[6] else old(info.W1F6GNoise_W1F5SNoise_W1F4MotorCtl_W4F0SnYear))
      ensures info.W7F0SnNumH == (if node.index == 7 then debugInfo[7] else old(info.W7F0SnNumH))
      ensures info.W7F0SnNumL == (if node.index == 8 then debugInfo[8] else old(info.W7F0SnNumL))
      ensures info.MaxDebugIndex ==
                (if old(info.MaxDebugIndex) < node.index < 100 then node.index else old(info.MaxDebugIndex))
      ensures info.MaxDebugIndex >= old(info.MaxDebugIndex)
      ensures old(info.MaxDebugIndex) < 100 ==> info.MaxDebugIndex < 100
    {
      match node.index {
        case 0 => info.W3F4CusMajor_W4F0CusMinor := debugInfo[0];
        case 1 => info.W4F3Model_W3F0DebugInfTranVer := debugInfo[1];
        case 2 => info.W3F4HardwareVer_W4F0FirewareMajor := debugInfo[2];
        case 4 => info.W3F4BoradHardVer_W4F0Moth := debugInfo[4];
        case 5 => info.W2F5Output2K4K5K_W5F0Date := debugInfo[5];
        case 6 => info.W1F6GNoise_W1F5SNoise_W1F4MotorCtl_W4F0SnYear := debugInfo[6];
        case 7 => info.W7F0SnNumH := debugInfo[7];
        case 8 => info.W7F0SnNumL := debugInfo[8];
        case _ =>
      }
      if node.index > info.MaxDebugIndex && node.index < 100 {
        info.MaxDebugIndex := node.index;
      }
    }
  }
}
