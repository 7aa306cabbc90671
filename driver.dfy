/** The GS2 driver object `YDlidarDriver` (src/ydlidar_driver.cpp) as a
    class. The serial line is the byte sequence `rx` the device will still
    deliver and the byte sequence `tx` the driver has written; a read of `n`
    bytes either gets them from the head of `rx` or times out. */
module LidarDriver {
  import opened Bytes
  import opened Protocol
  import opened Command
  import opened AnswerHeader
  import opened ScanFrame
  import opened SlotDecoder
  import opened Reassembly
  import opened Acquisition
  import opened Mailbox
  import opened Backoff
  import opened DevicePara

  class Driver {
    // the serial line
    var isConnected: bool
    var rx: seq<byte>
    var tx: seq<byte>

    // the decoding state of `waitPackage`
    var sampleIndex: nat
    var packageIndex: byte
    var hasPackageError: bool
    var checkSumResult: bool
    var moduleNum: byte
    var frame: seq<byte>
    var isValidPoint: bool
    var intensities: bool
    const cal: Calibration

    // the reassembly list
    const frameNum: nat
    var multiPackage: seq<Package>
    var isPrepareToSend: bool

    // the mailbox
    const scanNodeBuf: array<Node>
    var scanNodeCount: nat

    // the acquisition thread
    var isScanning: bool
    var isAutoReconnect: bool
    var retryCount: int

    // the calibration records read by `getDevicePara`, per module index
    // (`u_compensateK0[mdNum]` and its siblings, kept as the raw record)
    var devicePara: map<nat, Para>

    /** The slot counter stays below 160, the scan buffer holds
        `MAX_SCAN_NODES` nodes of which at most all are pending, and every
        entry of the reassembly list holds 160 points. */
    predicate Valid()
      reads this
    {
      sampleIndex < SlotsPerFrame &&
      scanNodeBuf.Length == MaxScanNodes && scanNodeCount <= MaxScanNodes &&
      forall j :: 0 <= j < |multiPackage| ==> |multiPackage[j].points| == SlotsPerFrame
    }

    /** The decoding state as one value. */
    function Dec(): Decoder
      reads this
    {
      Decoder(sampleIndex, packageIndex, hasPackageError, checkSumResult, moduleNum, frame, isValidPoint)
    }

    /** The constructor: disconnected, not scanning, auto-reconnect on,
        intensities off, the decoder at its initial state, the mailbox empty.
        The reassembly list starts as `initial` (its default entries are not
        part of this model). */
    constructor (calibration: Calibration, initial: seq<Package>, line: seq<byte>)
      requires forall j :: 0 <= j < |initial| ==> |initial[j].points| == SlotsPerFrame
      ensures Valid() && fresh(scanNodeBuf)
      ensures !isConnected && !isScanning && isAutoReconnect && !intensities && retryCount == 0
      ensures Dec() == InitialDecoder && cal == calibration
      ensures frameNum == 0 && multiPackage == initial && !isPrepareToSend && scanNodeCount == 0
      ensures rx == line && tx == [] && devicePara == map[]
    {
      isConnected := false;
      rx := line;
      tx := [];
      sampleIndex := 0;
      packageIndex := 0;
      hasPackageError := false;
      checkSumResult := true;
      moduleNum := 0;
      frame := [];
      isValidPoint := true;
      intensities := false;
      cal := calibration;
      frameNum := 0;
      multiPackage := initial;
      isPrepareToSend := false;
      scanNodeBuf := new Node[MaxScanNodes](_ => ZeroNode);
      scanNodeCount := 0;
      isScanning := false;
      isAutoReconnect := true;
      retryCount := 0;
      devicePara := map[];
    }

    /** `sendCommand(addr, cmd, payload, payloadsize)`: nothing is written
        when the driver is not connected; otherwise the header, then the
        payload when there is one, of which only `(uint8_t)payloadsize`
        bytes are written, then the checksum accumulated over the command
        code, both length bytes and every payload byte. Below 256 payload
        bytes this is the command frame. */
    method SendCommand(addr: byte, cmd: byte, payload: seq<byte>) returns (res: ResultCode)
      modifies this`tx
      ensures !isConnected ==> res == Fail && tx == old(tx)
      ensures isConnected ==> res == Ok && tx == old(tx) + EmittedFrame(addr, cmd, payload)
      ensures isConnected && |payload| < 256 ==> tx == old(tx) + CommandFrame(addr, cmd, payload)
    {
      if !isConnected {
        return Fail;
      }
      var size := SizeField(|payload|);
      tx := tx + CommandHeader(addr, cmd, |payload|);
      var checksum: byte := (cmd + Lo(size) + Hi(size)) % 256;
      ghost var pre := [cmd, Lo(size), Hi(size)];
      assert Sum8(pre) == checksum by {
        assert [cmd][..0] == [];
        assert Sum([cmd]) == cmd;
        assert [cmd, Lo(size)][..1] == [cmd];
        assert Sum([cmd, Lo(size)]) == cmd + Lo(size);
        assert pre[..2] == [cmd, Lo(size)];
        assert Sum(pre) == cmd + Lo(size) + Hi(size);
      }
      assert pre + payload[..0] == pre;
      if |payload| > 0 {
        for pos := 0 to |payload|
          invariant checksum == Sum8(pre + payload[..pos])
          invariant tx == old(tx) + CommandHeader(addr, cmd, |payload|)
        {
          assert pre + payload[..pos + 1] == (pre + payload[..pos]) + [payload[pos]];
          Sum8Snoc(pre + payload[..pos], payload[pos]);
          checksum := (checksum + payload[pos]) % 256;
        }
        var sizeByte := |payload| % 256;
        tx := tx + payload[..sizeByte];
      }
      assert payload[..|payload|] == payload;
      assert checksum == CommandChecksum(cmd, payload);
      tx := tx + [checksum];
      assert tx == old(tx) + (CommandHeader(addr, cmd, |payload|) + payload[..|payload| % 256] + [checksum]);
      if |payload| < 256 {
        EmittedFrameShortPayload(addr, cmd, payload);
      }
      res := Ok;
    }

    /** `waitResponseHeader`: bytes are read in chunks of the size still
        missing from the header; at positions 0-3 a byte other than the sync
        byte is dropped and restarts the match; the header is complete once
        eight bytes are matched. So the header found is the one at the first
        run of four sync bytes, with the four bytes after it taken as they
        are, and it is found exactly when the line delivers those eight
        bytes; the bytes after it stay on the line. */
    method WaitResponseHeader() returns (res: ResultCode, header: AnsHeader)
      modifies this`rx
      ensures res == Ok <==> HeaderIn(old(rx))
      ensures res == Ok ==>
                var p := FirstMarker(old(rx)).value;
                header == Fields(old(rx)[p..p + HeaderSize]) && rx == old(rx)[p + HeaderSize..]
      ensures res != Ok ==> res == Timeout && |rx| < HeaderSize && |rx| <= |old(rx)| && rx == old(rx)[|old(rx)| - |rx|..]
    {
      ghost var s0 := rx;
      ghost var start: nat := 0;
      var recvPos: nat := 0;
      var buf: seq<byte> := [];
      header := AnsHeader(0, 0, 0);
      while true
        invariant |rx| <= |s0| && rx == s0[|s0| - |rx|..]
        invariant start + recvPos == |s0| - |rx|
        invariant recvPos < HeaderSize
        invariant buf == s0[start..start + recvPos]
        invariant forall k :: start <= k < start + recvPos && k < start + 4 ==> s0[k] == AnsSyncByte
        invariant forall j :: 0 <= j < start ==> !MarkerAt(s0, j)
        decreases |rx|
      {
        var remain := HeaderSize - recvPos;
        if |rx| < remain {
          NoHeaderBeyond(s0, start);
          return Timeout, header;
        }
        var chunk := rx[..remain];
        ghost var base := start + recvPos;
        assert chunk == s0[base..base + remain];
        rx := rx[remain..];
        var found;
        found, recvPos, buf, start := MatchHeaderChunk(chunk, recvPos, buf, s0, start);
        if found {
          header := Fields(buf);
          return Ok, header;
        }
      }
    }

    /** The header switch of `waitPackage` over one 8-byte chunk: the
        match position, the checksum and the length octets start cleared
        for the chunk, the module address is the driver field. */
    method ScanChunk(chunk: seq<byte>) returns (recvPos: nat, sum: byte, lo: byte, hi: byte)
      requires |chunk| == HeaderSize
      modifies this`moduleNum
      ensures HeaderScan(recvPos, moduleNum, sum, lo, hi) == ScanBytes(HeaderScan(0, old(moduleNum), 0, 0, 0), chunk)
    {
      recvPos, sum, lo, hi := 0, 0, 0, 0;
      for pos := 0 to HeaderSize
        invariant HeaderScan(recvPos, moduleNum, sum, lo, hi) == ScanBytes(HeaderScan(0, old(moduleNum), 0, 0, 0), chunk[..pos])
      {
        var b := chunk[pos];
        assert chunk[..pos + 1][..pos] == chunk[..pos];
        if recvPos < 4 {
          if b != AnsSyncByte {
            recvPos := 0;
          } else {
            recvPos := recvPos + 1;
          }
        } else if recvPos == 4 {
          moduleNum := b;
          sum := (sum + b) % 256;
          recvPos := 5;
        } else if recvPos == 5 {
          if b != AnsScan {
            recvPos := 0;
            sum := 0;
            moduleNum := 0;
          } else {
            sum := (sum + b) % 256;
            recvPos := 6;
          }
        } else if recvPos == 6 {
          lo := OrByte(lo, b);
          sum := (sum + b) % 256;
          recvPos := 7;
        } else if recvPos == 7 {
          hi := OrByte(hi, b);
          sum := (sum + b) % 256;
          recvPos := 8;
        } else {
          recvPos := recvPos + 1;
        }
      }
      assert chunk[..HeaderSize] == chunk;
    }

    /** The header loop of `waitPackage`: 8-byte chunks are read until one
        is a whole scan header; a chunk that is not is dropped. */
    method ReadScanHeader() returns (found: bool, header: seq<byte>, sum: byte, lens: u16)
      modifies this`rx, this`moduleNum
      ensures FindHeader(old(rx), old(moduleNum)) ==
              if found then HeaderFound(header, moduleNum, sum, lens, rx) else HeaderTimeout(moduleNum, rx)
    {
      header, sum, lens := [], 0, 0;
      while true
        invariant HeaderPhase(rx, moduleNum, 0, 0, false) == FindHeader(old(rx), old(moduleNum))
        decreases |rx|
      {
        if |rx| < HeaderSize {
          return false, header, sum, lens;
        }
        var chunk := rx[..HeaderSize];
        ghost var rxc := rx;
        rx := rx[HeaderSize..];
        var recvPos, lo, hi;
        recvPos, sum, lo, hi := ScanChunk(chunk);
        if recvPos == HeaderSize {
          return true, chunk, sum, LE16(lo, hi);
        }
      }
    }

    /** The frame read of `waitPackage`: the header, then one read of
        `sample_lens + 1` payload bytes whose last byte is the checksum. */
    method ReadScanFrame() returns (res: ResultCode, f: seq<byte>, ok: bool)
      modifies this`rx, this`moduleNum
      ensures match ReadFrame(old(rx), old(moduleNum))
              case FrameFail(r, m, rest) => res == r && moduleNum == m && rx == rest
              case FrameOk(fr, m, k, rest) => res == Ok && f == fr && ok == k && moduleNum == m && rx == rest
    {
      var found, header, sum, lens := ReadScanHeader();
      if found {
        res, f, ok := ReadPayload(header, sum, lens);
      } else {
        res, f, ok := Timeout, [], false;
      }
    }

    /** The payload read after the header `header` was found with checksum
        `sum` and length `lens`: a length of 0xFFFF wraps the size to 0 and
        fails; fewer bytes than the size time out; otherwise the bytes are
        consumed and the checksum is accumulated over all but the last. */
    method ReadPayload(header: seq<byte>, sum: byte, lens: u16) returns (res: ResultCode, f: seq<byte>, ok: bool)
      modifies this`rx
      ensures match PayloadPhase(HeaderFound(header, moduleNum, sum, lens, old(rx)))
              case FrameFail(r, m, rest) => res == r && rx == rest
              case FrameOk(fr, m, k, rest) => res == Ok && f == fr && ok == k && rx == rest
    {
      f, ok := [], false;
      var n := Inc16(lens);
      if n == 0 {
        res := Fail;
      } else if |rx| < n {
        res := Timeout;
      } else {
        var p := rx[..n];
        rx := rx[n..];
        var checkSumCal := PayloadSum(sum, p);
        res, f, ok := Ok, header + p, checkSumCal == p[n - 1];
      }
    }

    /** The checksum loop over the payload `p`, its last byte excluded,
        starting from the header's sum. */
    static method PayloadSum(sum: byte, p: seq<byte>) returns (checkSumCal: byte)
      requires |p| > 0
      ensures checkSumCal == (sum + Sum8(p[..|p| - 1])) % 256
    {
      checkSumCal := sum;
      assert p[..0] == [];
      for pos := 0 to |p| - 1
        invariant checkSumCal == (sum + Sum8(p[..pos])) % 256
      {
        assert p[..pos + 1] == p[..pos] + [p[pos]];
        Sum8Snoc(p[..pos], p[pos]);
        AddMod8(sum, Sum8(p[..pos]), p[pos]);
        checkSumCal := (checkSumCal + p[pos]) % 256;
      }
    }

    /** `waitPackage`: at slot 0 a frame is read and its checksum verdict
        recorded, a failed one made sticky; then the current slot is
        decoded. The result and the new state are those of one decoding
        step. */
    method WaitPackage() returns (res: ResultCode, node: Node)
      requires sampleIndex < SlotsPerFrame
      modifies this`rx, this`sampleIndex, this`packageIndex, this`hasPackageError, this`checkSumResult,
               this`moduleNum, this`frame, this`isValidPoint
      ensures var s := Step(old(Dec()), old(rx), intensities, cal);
              Dec() == s.dec && rx == s.rest &&
              (s.StepFail? ==> res == s.res) &&
              (s.StepOk? ==> res == Ok && node == s.node)
      ensures sampleIndex < SlotsPerFrame
    {
      node := ZeroNode;
      isValidPoint := true;
      if sampleIndex == 0 {
        res := AcceptScanFrame();
      } else {
        res := Ok;
      }
      if res == Ok {
        node := DecodeCurrent();
      }
    }

    /** The slot-0 block of `waitPackage`: a frame is read, and its
        checksum verdict recorded, a failed one also setting the sticky
        error flag. */
    method AcceptScanFrame() returns (res: ResultCode)
      modifies this`rx, this`moduleNum, this`frame, this`checkSumResult, this`hasPackageError
      ensures match ReadFrame(old(rx), old(moduleNum))
              case FrameFail(r, m, rest) => res == r && Dec() == old(Dec()).(moduleNum := m) && rx == rest
              case FrameOk(f, m, ok, rest) => res == Ok && Dec() == AcceptFrame(old(Dec()), f, m, ok) && rx == rest
    {
      var f, ok;
      res, f, ok := ReadScanFrame();
      if res == Ok {
        frame := f;
        if !ok {
          checkSumResult := false;
          hasPackageError := true;
        } else {
          checkSumResult := true;
        }
      }
    }

    /** The decoding block of `waitPackage`: the current slot becomes a
        node and the slot counter moves on. */
    method DecodeCurrent() returns (node: Node)
      requires sampleIndex < SlotsPerFrame
      modifies this`sampleIndex, this`packageIndex, this`checkSumResult, this`isValidPoint
      ensures (node, Dec()) == DecodeSlot(old(Dec()), intensities, cal)
    {
      var r := DecodeSlot(Dec(), intensities, cal);
      node := r.0;
      sampleIndex, packageIndex, checkSumResult, isValidPoint := r.1.sampleIndex, r.1.packageIndex, r.1.checkSumResult, r.1.isValidPoint;
    }

    /** `addPointsToVec(nodebuffer, count)`: a linear search of the
        reassembly list for the key (`frameNum`, `moduleNum`); on the first
        match the first `count` points of that entry are overwritten and the
        entry is marked ready to send; without a match an entry with the key
        is appended and nothing is copied. The inner search for the previous
        frame's entry (lines 914-921) ends without any effect and is not
        modelled. */
    method AddPointsToVec(nodebuffer: array<Node>, count: nat)
      requires count <= nodebuffer.Length && count <= SlotsPerFrame
      requires forall j :: 0 <= j < |multiPackage| ==> |multiPackage[j].points| == SlotsPerFrame
      modifies this`multiPackage, this`isPrepareToSend
      ensures Update(multiPackage, isPrepareToSend) ==
              AddPoints(old(multiPackage), frameNum, moduleNum, nodebuffer[..count], old(isPrepareToSend))
      ensures forall j :: 0 <= j < |multiPackage| ==> |multiPackage[j].points| == SlotsPerFrame
    {
      var size := |multiPackage|;
      var i := 0;
      while i < size
        invariant 0 <= i <= size
        invariant multiPackage == old(multiPackage) && isPrepareToSend == old(isPrepareToSend)
        invariant FindKey(multiPackage, frameNum, moduleNum) == FindKeyFrom(multiPackage, frameNum, moduleNum, i)
      {
        if multiPackage[i].frameNum == frameNum && multiPackage[i].moduleNum == moduleNum {
          multiPackage := multiPackage[i := multiPackage[i].(points := Overwrite(multiPackage[i].points, nodebuffer[..count]))];
          isPrepareToSend := true;
          return;
        }
        i := i + 1;
      }
      multiPackage := multiPackage + [Package(frameNum, moduleNum, EmptyPoints())];
    }

    /** One pass of the loop of `waitScanData`: `waitPackage` and, when it
        succeeds, the store of its node at `recv`, ending the call on a
        failure, a complete frame or the last wanted node. Stated against
        `goal`, a call for `count - recv` more nodes after `acc` were
        collected into the buffer (which held `b0` before the call): the pass
        either ends the call with the outcome `goal` or leaves a call for one
        node fewer after one more node. */
    method NextNode(nodebuffer: array<Node>, recv: nat, count: nat,
                    ghost acc: seq<Node>, ghost b0: seq<Node>, ghost goal: Collected)
      returns (res: ResultCode, stop: bool, complete: bool, recv': nat, ghost acc': seq<Node>)
      requires sampleIndex < SlotsPerFrame && recv < count <= nodebuffer.Length
      requires |acc| == recv && |b0| == nodebuffer.Length && nodebuffer[..] == acc + b0[recv..]
      requires goal == Resumed(acc, Collect(Dec(), rx, intensities, cal, count - recv))
      modifies this`rx, this`sampleIndex, this`packageIndex, this`hasPackageError, this`checkSumResult,
               this`moduleNum, this`frame, this`isValidPoint, nodebuffer
      ensures sampleIndex < SlotsPerFrame
      ensures recv' == (if res == Ok then recv + 1 else recv) && |acc'| == recv' && nodebuffer[..] == acc' + b0[recv'..]
      ensures !stop ==> res == Ok && !complete && recv' < count &&
                        goal == Resumed(acc', Collect(Dec(), rx, intensities, cal, count - recv'))
      ensures stop ==> goal == Collected(res, acc', Dec(), rx, complete)
    {
      ghost var d, line := Dec(), rx;
      ghost var s := Step(d, line, intensities, cal);
      CollectNext(d, line, intensities, cal, count - recv, acc);
      var node;
      res, node := WaitPackage();
      acc', recv' := acc, recv;
      if res == Ok {
        StoreAt(acc, b0[recv..], node);
        nodebuffer[recv] := node;
        acc', recv' := acc + [node], recv + 1;
      }
      complete := res == Ok && sampleIndex == 0;
      stop := res != Ok || sampleIndex == 0 || recv + 1 == count;
      if !stop {
        assert s.StepOk? && acc' == acc + [s.node] && Dec() == s.dec && rx == s.rest;
      }
    }

    /** The loop of `waitScanData`: `waitPackage` is called until `count`
        nodes are in the buffer, a frame is complete or a call fails. */
    method CollectNodes(nodebuffer: array<Node>, count: nat) returns (res: ResultCode, got: nat, complete: bool)
      requires sampleIndex < SlotsPerFrame && count <= nodebuffer.Length
      modifies this`rx, this`sampleIndex, this`packageIndex, this`hasPackageError, this`checkSumResult,
               this`moduleNum, this`frame, this`isValidPoint, nodebuffer
      ensures got <= count
      ensures Collect(old(Dec()), old(rx), intensities, cal, count) == Collected(res, nodebuffer[..got], Dec(), rx, complete)
      ensures nodebuffer[got..] == old(nodebuffer[got..])
    {
      ghost var goal, b0 := Collect(Dec(), rx, intensities, cal, count), nodebuffer[..];
      ghost var acc: seq<Node> := [];
      assert goal == Resumed(acc, Collect(Dec(), rx, intensities, cal, count));
      res, got, complete := Fail, 0, false;
      var stop := false;
      while !stop && got < count
        invariant sampleIndex < SlotsPerFrame && got <= count
        invariant |acc| == got && nodebuffer[..] == acc + b0[got..]
        invariant !stop ==> goal == Resumed(acc, Collect(Dec(), rx, intensities, cal, count - got)) &&
                            res == Fail && !complete && (got > 0 ==> got < count)
        invariant stop ==> goal == Collected(res, acc, Dec(), rx, complete)
        decreases count - got, !stop
      {
        var r, st, cp;
        r, st, cp, got, acc := NextNode(nodebuffer, got, count, acc, b0, goal);
        if st {
          res, complete, stop := r, cp, true;
        }
      }
      assert nodebuffer[..got] == acc;
    }

    /** `waitScanData(nodebuffer, count)` without its clock: nothing happens
        when the driver is not connected; otherwise nodes are collected into
        the buffer until `count` are there or a frame is complete, in which
        case they are added to the reassembly list. */
    method WaitScanData(nodebuffer: array<Node>, count: nat) returns (res: ResultCode, got: nat)
      requires Valid() && count <= nodebuffer.Length
      modifies this`rx, this`sampleIndex, this`packageIndex, this`hasPackageError, this`checkSumResult,
               this`moduleNum, this`frame, this`isValidPoint, this`multiPackage, this`isPrepareToSend, nodebuffer
      ensures Valid()
      ensures !isConnected ==>
                res == Fail && got == 0 && Dec() == old(Dec()) && rx == old(rx) &&
                multiPackage == old(multiPackage) && isPrepareToSend == old(isPrepareToSend) &&
                nodebuffer[..] == old(nodebuffer[..])
      ensures isConnected ==>
                var c := Collect(old(Dec()), old(rx), intensities, cal, count);
                res == c.res && got == |c.nodes| && got <= count &&
                nodebuffer[..got] == c.nodes && nodebuffer[got..] == old(nodebuffer[got..]) &&
                Dec() == c.dec && rx == c.rest &&
                Update(multiPackage, isPrepareToSend) ==
                  (if c.complete then AddPoints(old(multiPackage), frameNum, c.dec.moduleNum, c.nodes, old(isPrepareToSend))
                   else Update(old(multiPackage), old(isPrepareToSend)))
    {
      if !isConnected {
        return Fail, 0;
      }
      CollectShape(Dec(), rx, intensities, cal, count);
      var complete;
      res, got, complete := CollectNodes(nodebuffer, count);
      if complete {
        AddPointsToVec(nodebuffer, got);
      }
    }

    /** The publish block of `cacheScanData`: when an entry is ready, the
        first entry with the current key is copied into the scan buffer, the
        first node is stamped with the module number, 160 nodes are pending
        and the ready flag is cleared; otherwise nothing happens (the loop
        goes on with its next pass). */
    method PublishScan()
      requires Valid()
      modifies scanNodeBuf, this`scanNodeCount, this`isPrepareToSend
      ensures Valid()
      ensures !old(isPrepareToSend) ==>
                scanNodeBuf[..] == old(scanNodeBuf[..]) && scanNodeCount == old(scanNodeCount) && !isPrepareToSend
      ensures old(isPrepareToSend) ==>
                scanNodeBuf[..] == Published(old(scanNodeBuf[..]), multiPackage, frameNum, moduleNum) &&
                scanNodeCount == SlotsPerFrame && !isPrepareToSend
    {
      if !isPrepareToSend {
        return;
      }
      ghost var buf0 := scanNodeBuf[..];
      var size := |multiPackage|;
      var i := 0;
      while i < size
        invariant 0 <= i <= size
        invariant scanNodeBuf[..] == buf0
        invariant FindKey(multiPackage, frameNum, moduleNum) == FindKeyFrom(multiPackage, frameNum, moduleNum, i)
      {
        if multiPackage[i].frameNum == frameNum && multiPackage[i].moduleNum == moduleNum {
          CopyPoints(multiPackage[i].points);
          break;
        }
        i := i + 1;
      }
      assert scanNodeBuf[..] == match FindKey(multiPackage, frameNum, moduleNum)
                                case Some(k) => multiPackage[k].points + buf0[SlotsPerFrame..]
                                case None => buf0;
      scanNodeBuf[0] := scanNodeBuf[0].(index := moduleNum / 2);
      scanNodeCount := SlotsPerFrame;
      isPrepareToSend := false;
    }

    /** The timeout handling of one pass of `cacheScanData` after
        `waitScanData` answered `ans`, with `timeoutCount` timeouts counted
        so far. A reconnect (`checkAutoConnecting`) takes `rounds` rounds
        and succeeds or not as `reconnected` says; each round bumps the
        capped `retryCount`. `stop` says that the acquisition thread
        returns. */
    method HandleAnswer(ans: ResultCode, timeoutCount: nat, reconnected: bool, rounds: nat)
      returns (timeoutCount': nat, stop: bool)
      modifies this`isScanning, this`retryCount
      ensures var a := TimeoutStep(ans, timeoutCount, isAutoReconnect);
              (stop <==> a.Exit? || (a.Reconnect? && !reconnected)) &&
              (stop ==> !isScanning) &&
              (!stop ==> isScanning == old(isScanning) && timeoutCount' == (if a.Retry? then a.timeoutCount else 0)) &&
              retryCount == (if a.Proceed? then 0
                             else if a.Reconnect? then RetryCountAfter(old(retryCount), rounds)
                             else old(retryCount))
    {
      timeoutCount', stop := timeoutCount, false;
      if ans != Ok {
        if ans == Fail || timeoutCount > DefaultTimeoutCount {
          if !isAutoReconnect {
            isScanning := false;
            stop := true;
          } else {
            retryCount := ReconnectRounds(rounds);
            if reconnected {
              timeoutCount' := 0;
            } else {
              isScanning := false;
              stop := true;
            }
          }
        } else {
          timeoutCount' := timeoutCount + 1;
        }
      } else {
        timeoutCount' := 0;
        retryCount := 0;
      }
    }

    /** The `retryCount` bookkeeping of `rounds` rounds of
        `checkAutoConnecting`: `retryCount++`, capped at 100, per round. */
    method ReconnectRounds(rounds: nat) returns (r: int)
      ensures r == RetryCountAfter(retryCount, rounds)
    {
      r := retryCount;
      for k := 0 to rounds
        invariant r == RetryCountAfter(retryCount, k)
      {
        r := r + 1;
        if r > 100 {
          r := 100;
        }
      }
    }

    /** One pass of the loop of `cacheScanData`: ask `waitScanData` for 160
        nodes into `localBuf`, handle its answer, and unless the thread
        stops, publish the entry that is ready (if one is). */
    method CacheScanPass(localBuf: array<Node>, timeoutCount: nat, reconnected: bool, rounds: nat)
      returns (ans: ResultCode, timeoutCount': nat, stop: bool, ghost ready: bool)
      requires Valid() && localBuf != scanNodeBuf && localBuf.Length >= SlotsPerFrame
      modifies this`rx, this`sampleIndex, this`packageIndex, this`hasPackageError, this`checkSumResult,
               this`moduleNum, this`frame, this`isValidPoint, this`multiPackage, this`isPrepareToSend, localBuf,
               this`isScanning, this`retryCount, scanNodeBuf, this`scanNodeCount
      ensures Valid()
      ensures var c := Collect(old(Dec()), old(rx), intensities, cal, SlotsPerFrame);
              ans == (if isConnected then c.res else Fail) &&
              Update(multiPackage, ready) ==
                (if isConnected && c.complete
                 then AddPoints(old(multiPackage), frameNum, c.dec.moduleNum, c.nodes, old(isPrepareToSend))
                 else Update(old(multiPackage), old(isPrepareToSend)))
      ensures var a := TimeoutStep(ans, timeoutCount, isAutoReconnect);
              (stop <==> a.Exit? || (a.Reconnect? && !reconnected)) &&
              (!stop ==> isScanning == old(isScanning) && timeoutCount' == (if a.Retry? then a.timeoutCount else 0)) &&
              retryCount == (if a.Proceed? then 0
                             else if a.Reconnect? then RetryCountAfter(old(retryCount), rounds)
                             else old(retryCount))
      ensures stop ==>
                !isScanning && isPrepareToSend == ready &&
                scanNodeBuf[..] == old(scanNodeBuf[..]) && scanNodeCount == old(scanNodeCount)
      ensures !stop && !ready ==>
                !isPrepareToSend && scanNodeBuf[..] == old(scanNodeBuf[..]) && scanNodeCount == old(scanNodeCount)
      ensures !stop && ready ==>
                !isPrepareToSend && scanNodeCount == SlotsPerFrame &&
                scanNodeBuf[..] == Published(old(scanNodeBuf[..]), multiPackage, frameNum, moduleNum)
    {
      var got;
      ans, got := WaitScanData(localBuf, SlotsPerFrame);
      ready := isPrepareToSend;
      timeoutCount', stop := AfterWait(ans, timeoutCount, reconnected, rounds);
    }

    /** The part of a pass of `cacheScanData` after `waitScanData`. */
    method AfterWait(ans: ResultCode, timeoutCount: nat, reconnected: bool, rounds: nat)
      returns (timeoutCount': nat, stop: bool)
      requires Valid()
      modifies this`isPrepareToSend, this`isScanning, this`retryCount, scanNodeBuf, this`scanNodeCount
      ensures Valid()
      ensures var a := TimeoutStep(ans, timeoutCount, isAutoReconnect);
              (stop <==> a.Exit? || (a.Reconnect? && !reconnected)) &&
              (!stop ==> isScanning == old(isScanning) && timeoutCount' == (if a.Retry? then a.timeoutCount else 0)) &&
              retryCount == (if a.Proceed? then 0
                             else if a.Reconnect? then RetryCountAfter(old(retryCount), rounds)
                             else old(retryCount))
      ensures stop ==>
                !isScanning && isPrepareToSend == old(isPrepareToSend) &&
                scanNodeBuf[..] == old(scanNodeBuf[..]) && scanNodeCount == old(scanNodeCount)
      ensures !stop && !old(isPrepareToSend) ==>
                !isPrepareToSend && scanNodeBuf[..] == old(scanNodeBuf[..]) && scanNodeCount == old(scanNodeCount)
      ensures !stop && old(isPrepareToSend) ==>
                !isPrepareToSend && scanNodeCount == SlotsPerFrame &&
                scanNodeBuf[..] == Published(old(scanNodeBuf[..]), multiPackage, frameNum, moduleNum)
    {
      timeoutCount', stop := HandleAnswer(ans, timeoutCount, reconnected, rounds);
      if !stop {
        PublishScan();
      }
    }

    /** `memcpy(scan_node_buf, all_points, 160 * sizeof(node_info))`. */
    method CopyPoints(points: seq<Node>)
      requires |points| == SlotsPerFrame && scanNodeBuf.Length >= SlotsPerFrame
      modifies scanNodeBuf
      ensures scanNodeBuf[..] == points + old(scanNodeBuf[..])[SlotsPerFrame..]
    {
      for k := 0 to SlotsPerFrame
        invariant scanNodeBuf[..] == points[..k] + old(scanNodeBuf[..])[k..]
      {
        StoreAt(points[..k], old(scanNodeBuf[..])[k..], points[k]);
        assert points[..k] + [points[k]] == points[..k + 1];
        scanNodeBuf[k] := points[k];
      }
    }

    /** `grabScanData(nodebuffer, count)` with the outcome `ev` of the wait
        on the data event: the copied nodes go to the front of the caller's
        buffer and the count handed back is that of `GrabSpec`. */
    method GrabScanData(ev: WaitOutcome, nodebuffer: array<Node>, count: nat) returns (res: ResultCode, count': nat)
      requires Valid() && nodebuffer != scanNodeBuf
      requires count <= nodebuffer.Length
      modifies nodebuffer, this`scanNodeCount
      ensures Valid()
      ensures var g := GrabSpec(ev, old(scanNodeBuf[..]), old(scanNodeCount), count);
              res == g.res && count' == g.count && scanNodeCount == g.pending &&
              nodebuffer[..] == g.copied + old(nodebuffer[..])[|g.copied|..]
    {
      match ev
      case EventTimeout =>
        return Timeout, 0;
      case EventOther =>
        return Fail, 0;
      case EventOk =>
        if scanNodeCount == 0 {
          return Fail, count;
        }
        var sizeToCopy := if count < scanNodeCount then count else scanNodeCount;
        for k := 0 to sizeToCopy
          invariant nodebuffer[..] == scanNodeBuf[..k] + old(nodebuffer[..])[k..]
        {
          StoreAt(scanNodeBuf[..k], old(nodebuffer[..])[k..], scanNodeBuf[k]);
          assert scanNodeBuf[..k] + [scanNodeBuf[k]] == scanNodeBuf[..k + 1];
          nodebuffer[k] := scanNodeBuf[k];
        }
        scanNodeCount := 0;
        return Ok, sizeToCopy;
    }

    /** The checksum loop of `getDevicePara`: the header's address, type and
        both length bytes, then `size` bytes read from the start of the record
        on, summed modulo 256. */
    static method ParaSum(h: AnsHeader, record: seq<byte>, past: nat -> byte) returns (crcSum: byte)
      requires |record| == ParaSize
      ensures crcSum == ParaChecksum(h, record, past)
    {
      ghost var pre: seq<byte> := [];
      crcSum := 0;
      Sum8Snoc(pre, h.address);
      pre, crcSum := pre + [h.address], (crcSum + h.address) % 256;
      Sum8Snoc(pre, h.kind);
      pre, crcSum := pre + [h.kind], (crcSum + h.kind) % 256;
      Sum8Snoc(pre, Lo(h.size));
      pre, crcSum := pre + [Lo(h.size)], (crcSum + Lo(h.size)) % 256;
      Sum8Snoc(pre, Hi(h.size));
      pre, crcSum := pre + [Hi(h.size)], (crcSum + Hi(h.size)) % 256;
      assert pre + Memory(record, past, 0) == pre;
      for j := 0 to h.size
        invariant crcSum == Sum8(pre + Memory(record, past, j))
      {
        SumStep(pre, record, past, j);
        crcSum := (crcSum + MemoryAt(record, past, j)) % 256;
      }
      assert pre == [h.address, h.kind, Lo(h.size), Hi(h.size)];
    }

    /** One pass of the loop of `getDevicePara`: wait for an answer header,
        then check the record behind it. The result is a timeout exactly when
        no header arrives, and success exactly when the record is accepted,
        in which case the module index and the record are those of the
        answer and the line is left right after the record. */
    method ReadParaAnswer(past: nat -> byte) returns (res: ResultCode, mdNum: nat, info: Para)
      modifies this`rx
      ensures var a := ReadPara(old(rx), past);
              res == a.res &&
              (res == Ok ==> mdNum == a.outcome.moduleIndex && info == a.outcome.para && rx == a.outcome.rest)
    {
      var header;
      mdNum, info := 0, Para(0, 0, 0, 0, 0, 0);
      res, header := WaitResponseHeader();
      if res == Ok {
        if header.kind != CmdGetParameter || header.size < ParaSize - 1 || |rx| < header.size + 1 {
          res := Fail;
        } else {
          var record := rx[..ParaSize];
          rx := rx[ParaSize..];
          info := ParaOf(record);
          var crcSum := ParaSum(header, record, past);
          if crcSum != info.crc || header.address / 2 > 2 {
            res := Fail;
          } else {
            mdNum := header.address / 2;
          }
        }
      }
    }

    /** `getDevicePara`: fails when not connected; otherwise sends the
        parameter query and reads `PackageMaxModuleNums` answers, storing each
        accepted record under its module index, and stops at the first answer
        that times out or is refused, keeping the records stored before it. */
    method GetDevicePara(past: nat -> byte) returns (res: ResultCode)
      modifies this`tx, this`rx, this`devicePara
      ensures !old(isConnected) ==> res == Fail && tx == old(tx) && rx == old(rx) && devicePara == old(devicePara)
      ensures old(isConnected) ==>
                tx == old(tx) + CommandFrame(0, CmdGetParameter, []) &&
                var r := ReadParas(old(rx), past, MaxModules, old(devicePara));
                res == r.res && devicePara == r.stored && (res == Ok ==> rx == r.rest)
    {
      if !isConnected {
        return Fail;
      }
      res := SendCommand(0, CmdGetParameter, []);
      ghost var goal := ReadParas(rx, past, MaxModules, devicePara);
      var i := 0;
      while i < MaxModules
        invariant 0 <= i <= MaxModules
        invariant tx == old(tx) + CommandFrame(0, CmdGetParameter, [])
        invariant res == Ok
        invariant goal == ReadParas(rx, past, MaxModules - i, devicePara)
      {
        var mdNum, info;
        res, mdNum, info := ReadParaAnswer(past);
        if res != Ok {
          return;
        }
        devicePara := devicePara[mdNum := info];
        i := i + 1;
      }
    }
  }

  /** The inner loop of `waitResponseHeader` over one chunk of the size
      still missing from the header, which starts at `start` in the stream
      `s0` and has `recvPos` bytes matched: a byte other than the sync byte
      at positions 0-3 restarts the match after it; eight matched bytes
      complete the header, which can only happen at the last byte of the
      chunk. */
  method MatchHeaderChunk(chunk: seq<byte>, recvPos: nat, buf: seq<byte>, ghost s0: seq<byte>, ghost start: nat)
    returns (found: bool, recvPos': nat, buf': seq<byte>, ghost start': nat)
    requires recvPos < HeaderSize && |chunk| == HeaderSize - recvPos
    requires start + HeaderSize <= |s0| && chunk == s0[start + recvPos..start + HeaderSize]
    requires buf == s0[start..start + recvPos]
    requires forall k :: start <= k < start + recvPos && k < start + 4 ==> s0[k] == AnsSyncByte
    requires forall j :: 0 <= j < start ==> !MarkerAt(s0, j)
    ensures found ==> start' == start && FirstMarker(s0) == Some(start') &&
                      buf' == s0[start'..start' + HeaderSize]
    ensures !found ==> start' + recvPos' == start + HeaderSize && recvPos' < HeaderSize &&
                       buf' == s0[start'..start' + recvPos'] &&
                       (forall k :: start' <= k < start' + recvPos' && k < start' + 4 ==> s0[k] == AnsSyncByte) &&
                       (forall j :: 0 <= j < start' ==> !MarkerAt(s0, j))
  {
    ghost var base := start + recvPos;
    var remain := |chunk|;
    recvPos', buf', start' := recvPos, buf, start;
    var pos := 0;
    while pos < remain
      invariant 0 <= pos <= remain
      invariant start' + recvPos' == base + pos
      invariant recvPos' <= HeaderSize - remain + pos
      invariant recvPos' < HeaderSize
      invariant buf' == s0[start'..start' + recvPos']
      invariant forall k :: start' <= k < start' + recvPos' && k < start' + 4 ==> s0[k] == AnsSyncByte
      invariant forall j :: 0 <= j < start' ==> !MarkerAt(s0, j)
    {
      var b := chunk[pos];
      assert b == s0[base + pos];
      if recvPos' < 4 && b != AnsSyncByte {
        NoMarkerThrough(s0, start', base + pos);
        start' := base + pos + 1;
        recvPos' := 0;
        buf' := [];
      } else {
        buf' := buf' + [b];
        recvPos' := recvPos' + 1;
        if recvPos' == HeaderSize {
          assert MarkerAt(s0, start');
          FirstMarkerSkip(s0, 0, start');
          return true, recvPos', buf', start';
        }
      }
      pos := pos + 1;
    }
    found := false;
  }

  /** Storing at the first position past a prefix extends the prefix. */
  lemma StoreAt<T>(acc: seq<T>, rest: seq<T>, x: T)
    requires |rest| > 0
    ensures (acc + rest)[|acc| := x] == (acc + [x]) + rest[1..]
  {
  }

  /** No marker at `from`..`c` when the byte at `c` is not a sync byte and
      `c` lies within three bytes of `from`. */
  lemma NoMarkerThrough(s: seq<byte>, from: nat, c: nat)
    requires from <= c < |s| && c - from < 4
    requires s[c] != AnsSyncByte
    requires forall j :: 0 <= j < from ==> !MarkerAt(s, j)
    ensures forall j :: 0 <= j < c + 1 ==> !MarkerAt(s, j)
  {
    forall j | from <= j < c + 1 ensures !MarkerAt(s, j) {
      assert s[j + (c - j)] != AnsSyncByte;
    }
  }

  /** With no marker before `start` and fewer than eight bytes from `start`
      to the end, no header can be found. */
  lemma NoHeaderBeyond(s: seq<byte>, start: nat)
    requires forall j :: 0 <= j < start ==> !MarkerAt(s, j)
    requires |s| < start + HeaderSize
    ensures !HeaderIn(s)
  {
    FirstMarkerSkip(s, 0, start);
  }
}
