/** What one call of `waitScanData` (src/ydlidar_driver.cpp) collects: nodes
    from successive `waitPackage` calls until the requested count is reached
    or a frame is complete (the slot counter is back at 0), whichever comes
    first; a failing `waitPackage` ends the call with its result. */
module Acquisition {
  import opened Bytes
  import opened Protocol
  import opened ScanFrame
  import opened SlotDecoder

  /** The outcome of a call: its result, the nodes written to the caller's
      buffer, the decoder and the stream afterwards, and whether the call
      ended on a complete frame (so that the nodes went to the reassembly
      list). */
  datatype Collected = Collected(res: ResultCode, nodes: seq<Node>, dec: Decoder, rest: seq<byte>, complete: bool)

  /** A call asking for `want` nodes. */
  function Collect(d: Decoder, rx: seq<byte>, intensities: bool, cal: Calibration, want: nat): Collected
    requires d.sampleIndex < SlotsPerFrame
    decreases want
  {
    if want == 0 then Collected(Fail, [], d, rx, false)
    else
      StepKeepsInvariants(d, rx, intensities, cal);
      match Step(d, rx, intensities, cal)
      case StepFail(res, d', rest) => Collected(res, [], d', rest, false)
      case StepOk(node, d', rest) =>
        if d'.sampleIndex == 0 then Collected(Ok, [node], d', rest, true)
        else if want == 1 then Collected(Ok, [node], d', rest, false)
        else
          var c := Collect(d', rest, intensities, cal, want - 1);
          c.(nodes := [node] + c.nodes)
  }

  /** One step of a call, as the driver's loop takes it. */
  lemma CollectUnfold(d: Decoder, rx: seq<byte>, intensities: bool, cal: Calibration, want: nat)
    requires d.sampleIndex < SlotsPerFrame && want >= 1
    ensures var s := Step(d, rx, intensities, cal);
            var c := Collect(d, rx, intensities, cal, want);
            (s.StepFail? ==> c == Collected(s.res, [], s.dec, s.rest, false)) &&
            (s.StepOk? && s.dec.sampleIndex == 0 ==> c == Collected(Ok, [s.node], s.dec, s.rest, true)) &&
            (s.StepOk? && s.dec.sampleIndex != 0 && want == 1 ==> c == Collected(Ok, [s.node], s.dec, s.rest, false)) &&
            (s.StepOk? && s.dec.sampleIndex != 0 && want > 1 ==>
               c == Collect(s.dec, s.rest, intensities, cal, want - 1).(nodes := [s.node] + Collect(s.dec, s.rest, intensities, cal, want - 1).nodes))
  {
    StepKeepsInvariants(d, rx, intensities, cal);
  }

  /** A call whose first nodes `prefix` were already collected. */
  function Resumed(prefix: seq<Node>, c: Collected): (r: Collected)
    ensures r.nodes == prefix + c.nodes
  {
    c.(nodes := prefix + c.nodes)
  }

  /** One step of a call whose first nodes `prefix` were already
      collected: a step that fails, completes a frame or reaches the count
      ends the call; any other step moves its node into the prefix. */
  lemma CollectNext(d: Decoder, rx: seq<byte>, intensities: bool, cal: Calibration, want: nat, prefix: seq<Node>)
    requires d.sampleIndex < SlotsPerFrame && want >= 1
    ensures var s := Step(d, rx, intensities, cal);
            var r := Resumed(prefix, Collect(d, rx, intensities, cal, want));
            (s.StepFail? ==> s.res != Ok && r == Collected(s.res, prefix, s.dec, s.rest, false)) &&
            (s.StepOk? && (s.dec.sampleIndex == 0 || want == 1) ==>
               r == Collected(Ok, prefix + [s.node], s.dec, s.rest, s.dec.sampleIndex == 0)) &&
            (s.StepOk? && s.dec.sampleIndex != 0 && want > 1 ==>
               s.dec.sampleIndex < SlotsPerFrame &&
               r == Resumed(prefix + [s.node], Collect(s.dec, s.rest, intensities, cal, want - 1)))
  {
    CollectUnfold(d, rx, intensities, cal, want);
    StepKeepsInvariants(d, rx, intensities, cal);
    var s := Step(d, rx, intensities, cal);
    assert prefix + [] == prefix;
    if s.StepOk? && s.dec.sampleIndex != 0 && want > 1 {
      assert prefix + ([s.node] + Collect(s.dec, s.rest, intensities, cal, want - 1).nodes) ==
             (prefix + [s.node]) + Collect(s.dec, s.rest, intensities, cal, want - 1).nodes;
    }
  }

  /** The shape of every call: at most `want` nodes; a call that fails
      collects no node at all (only the first `waitPackage` of a call can
      fail, since it is the only one that reads the line); a call that
      succeeds either completes a frame, with the sync flag on its last node
      and only there, or collects exactly `want` nodes; the slot counter
      advances by the number of nodes, modulo 160. */
  lemma {:induction false} CollectShape(d: Decoder, rx: seq<byte>, intensities: bool, cal: Calibration, want: nat)
    requires d.sampleIndex < SlotsPerFrame
    ensures var c := Collect(d, rx, intensities, cal, want);
            |c.nodes| <= want &&
            c.dec.sampleIndex < SlotsPerFrame &&
            (c.res != Ok ==> c.nodes == [] && !c.complete) &&
            (c.res == Ok ==> 1 <= |c.nodes| && (c.complete || |c.nodes| == want)) &&
            (c.complete <==> c.res == Ok && c.dec.sampleIndex == 0) &&
            (c.res == Ok ==> c.dec.sampleIndex == (d.sampleIndex + |c.nodes|) % SlotsPerFrame) &&
            (c.complete ==> d.sampleIndex + |c.nodes| == SlotsPerFrame) &&
            (c.res == Ok && !c.complete ==> d.sampleIndex + |c.nodes| < SlotsPerFrame) &&
            (forall i :: 0 <= i < |c.nodes| ==>
               (c.nodes[i].syncFlag == NodeSync <==> c.complete && i == |c.nodes| - 1))
  {
    CollectCounts(d, rx, intensities, cal, want);
    CollectSyncFlags(d, rx, intensities, cal, want);
    SlotsWrap(d.sampleIndex + |Collect(d, rx, intensities, cal, want).nodes|);
  }

  /** The slot counter wraps at 160. */
  lemma SlotsWrap(k: nat)
    ensures k == SlotsPerFrame ==> k % SlotsPerFrame == 0
    ensures k < SlotsPerFrame ==> k % SlotsPerFrame == k
  {
  }

  /** The counting half of `CollectShape`. */
  lemma {:induction false} CollectCounts(d: Decoder, rx: seq<byte>, intensities: bool, cal: Calibration, want: nat)
    requires d.sampleIndex < SlotsPerFrame
    ensures var c := Collect(d, rx, intensities, cal, want);
            |c.nodes| <= want &&
            c.dec.sampleIndex < SlotsPerFrame &&
            (c.res != Ok ==> c.nodes == [] && !c.complete) &&
            (c.res == Ok ==> 1 <= |c.nodes| && (c.complete || |c.nodes| == want)) &&
            (c.complete <==> c.res == Ok && c.dec.sampleIndex == 0) &&
            (c.res == Ok && c.complete ==> d.sampleIndex + |c.nodes| == SlotsPerFrame) &&
            (c.res == Ok && !c.complete ==> c.dec.sampleIndex == d.sampleIndex + |c.nodes| < SlotsPerFrame)
    decreases want
  {
    if want > 0 {
      CollectUnfold(d, rx, intensities, cal, want);
      StepKeepsInvariants(d, rx, intensities, cal);
      var s := Step(d, rx, intensities, cal);
      if s.StepOk? {
        StepNode(d, rx, intensities, cal);
        if s.dec.sampleIndex != 0 && want > 1 {
          CollectCounts(s.dec, s.rest, intensities, cal, want - 1);
        }
      }
    }
  }

  /** The sync-flag half of `CollectShape`: the flag is on the last node of
      a call that completes a frame, and nowhere else. */
  lemma {:induction false} CollectSyncFlags(d: Decoder, rx: seq<byte>, intensities: bool, cal: Calibration, want: nat)
    requires d.sampleIndex < SlotsPerFrame
    ensures var c := Collect(d, rx, intensities, cal, want);
            forall i :: 0 <= i < |c.nodes| ==>
              (c.nodes[i].syncFlag == NodeSync <==> c.complete && i == |c.nodes| - 1)
    decreases want
  {
    if want > 0 {
      CollectUnfold(d, rx, intensities, cal, want);
      var s := Step(d, rx, intensities, cal);
      if s.StepOk? {
        StepNode(d, rx, intensities, cal);
        if s.dec.sampleIndex != 0 && want > 1 {
          CollectSyncFlags(s.dec, s.rest, intensities, cal, want - 1);
          var c := Collect(s.dec, s.rest, intensities, cal, want - 1);
          assert ([s.node] + c.nodes)[0] == s.node;
          forall i | 1 <= i < 1 + |c.nodes| ensures ([s.node] + c.nodes)[i] == c.nodes[i - 1] {}
        }
      }
    }
  }

  /** What one successful `waitPackage` call does to the slot counter and
      the sync flag. */
  lemma StepNode(d: Decoder, rx: seq<byte>, intensities: bool, cal: Calibration)
    requires d.sampleIndex < SlotsPerFrame
    requires Step(d, rx, intensities, cal).StepOk?
    ensures var s := Step(d, rx, intensities, cal);
            s.dec.sampleIndex == (if d.sampleIndex + 1 == SlotsPerFrame then 0 else d.sampleIndex + 1) &&
            (s.node.syncFlag == NodeSync <==> s.dec.sampleIndex == 0) &&
            (d.sampleIndex != 0 ==> s.rest == rx)
  {
    ReadFrameSpec(rx, d.moduleNum);
  }

  /** Once a frame has been read, the rest of it is decoded without touching
      the line: a call made at slot `i > 0` asking for at least the `160 - i`
      remaining nodes gets exactly them and completes the frame. */
  lemma {:induction false} RestOfFrame(d: Decoder, rx: seq<byte>, intensities: bool, cal: Calibration, want: nat)
    requires 0 < d.sampleIndex < SlotsPerFrame
    requires want >= SlotsPerFrame - d.sampleIndex
    ensures var c := Collect(d, rx, intensities, cal, want);
            c.res == Ok && c.complete && |c.nodes| == SlotsPerFrame - d.sampleIndex && c.rest == rx
    decreases SlotsPerFrame - d.sampleIndex
  {
    StepNode(d, rx, intensities, cal);
    match Step(d, rx, intensities, cal)
    case StepOk(node, d', rest) =>
      if d'.sampleIndex != 0 {
        RestOfFrame(d', rest, intensities, cal, want - 1);
      }
  }

  /** A call at slot 0 asking for a whole frame, on a line that delivers a
      frame, returns the 160 nodes of that frame and stops right after the
      frame. */
  lemma WholeFrame(d: Decoder, rx: seq<byte>, intensities: bool, cal: Calibration, want: nat)
    requires d.sampleIndex == 0 && want >= SlotsPerFrame
    requires ReadFrame(rx, d.moduleNum).FrameOk?
    ensures var c := Collect(d, rx, intensities, cal, want);
            c.res == Ok && c.complete && |c.nodes| == SlotsPerFrame &&
            c.rest == ReadFrame(rx, d.moduleNum).rest
  {
    StepNode(d, rx, intensities, cal);
    match Step(d, rx, intensities, cal)
    case StepOk(node, d', rest) =>
      RestOfFrame(d', rest, intensities, cal, want - 1);
  }
}
