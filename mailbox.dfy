/** The one-slot scan mailbox of the driver (src/ydlidar_driver.cpp): the
    acquisition loop `cacheScanData` publishes the points of the reassembly
    entry that is ready into `scan_node_buf` and sets `scan_node_count` to
    160; `grabScanData` hands out at most the caller's count of them and
    empties the slot. */
module Mailbox {
  import opened Bytes
  import opened Protocol
  import opened Reassembly

  /** The scan buffer after publishing the entry with key
      (`frameNum`, `moduleNum`): the first 160 nodes are that entry's points
      (when no entry has the key they are left as they were), and the first
      node's index is the module number `moduleNum >> 1`. */
  function Published(buf: seq<Node>, pkgs: seq<Package>, frameNum: nat, moduleNum: byte): (r: seq<Node>)
    requires |buf| >= SlotsPerFrame
    requires forall j :: 0 <= j < |pkgs| ==> |pkgs[j].points| == SlotsPerFrame
    ensures |r| == |buf|
  {
    var base := match FindKey(pkgs, frameNum, moduleNum)
                case Some(i) => pkgs[i].points + buf[SlotsPerFrame..]
                case None => buf;
    base[0 := base[0].(index := moduleNum / 2)]
  }

  /** With an entry for the key, publishing overwrites the first 160 nodes
      with its points, stamps the module number on the first, and leaves the
      rest of the buffer alone; without one only the stamp changes. */
  lemma PublishedContents(buf: seq<Node>, pkgs: seq<Package>, frameNum: nat, moduleNum: byte)
    requires |buf| >= SlotsPerFrame
    requires forall j :: 0 <= j < |pkgs| ==> |pkgs[j].points| == SlotsPerFrame
    ensures var r := Published(buf, pkgs, frameNum, moduleNum);
            r[0].index == moduleNum / 2 &&
            r[SlotsPerFrame..] == buf[SlotsPerFrame..] &&
            match FindKey(pkgs, frameNum, moduleNum)
            case Some(i) =>
              r[0] == pkgs[i].points[0].(index := moduleNum / 2) &&
              r[1..SlotsPerFrame] == pkgs[i].points[1..]
            case None =>
              r[0] == buf[0].(index := moduleNum / 2) && r[1..] == buf[1..]
  {
  }

  /** Latest wins: publishing twice with an entry for the key leaves what
      the second publication wrote, whatever the buffer held before. */
  lemma LatestWins(buf: seq<Node>, pkgs1: seq<Package>, pkgs2: seq<Package>, frameNum: nat, m1: byte, m2: byte)
    requires |buf| >= SlotsPerFrame
    requires forall j :: 0 <= j < |pkgs1| ==> |pkgs1[j].points| == SlotsPerFrame
    requires forall j :: 0 <= j < |pkgs2| ==> |pkgs2[j].points| == SlotsPerFrame
    requires FindKey(pkgs2, frameNum, m2).Some?
    ensures Published(Published(buf, pkgs1, frameNum, m1), pkgs2, frameNum, m2) ==
            Published(buf, pkgs2, frameNum, m2)
  {
    var b1 := Published(buf, pkgs1, frameNum, m1);
    PublishedContents(buf, pkgs1, frameNum, m1);
    assert b1[SlotsPerFrame..] == buf[SlotsPerFrame..];
  }

  /** What `_dataEvent.wait(timeout)` reports. */
  datatype WaitOutcome = EventOk | EventTimeout | EventOther

  /** The outcome of `grabScanData`: its result, the count it hands back,
      the nodes it copies and the pending count it leaves. */
  datatype Grab = Grab(res: ResultCode, count: nat, copied: seq<Node>, pending: nat)

  /** A grab for `count` nodes on a mailbox holding `buf` with `pending`
      nodes pending. */
  function GrabSpec(ev: WaitOutcome, buf: seq<Node>, pending: nat, count: nat): (g: Grab)
    requires pending <= |buf|
    ensures g.res == Ok <==> ev == EventOk && pending > 0
    ensures g.res == Ok ==> g.count == (if count < pending then count else pending) &&
                            g.copied == buf[..g.count] && g.pending == 0
    ensures ev == EventTimeout ==> g.res == Timeout && g.count == 0 && g.copied == [] && g.pending == pending
    ensures ev == EventOk && pending == 0 ==> g.res == Fail && g.count == count && g.copied == [] && g.pending == 0
    ensures ev == EventOther ==> g.res == Fail && g.count == 0 && g.copied == [] && g.pending == pending
  {
    match ev
    case EventTimeout => Grab(Timeout, 0, [], pending)
    case EventOther => Grab(Fail, 0, [], pending)
    case EventOk =>
      if pending == 0 then Grab(Fail, count, [], pending)
      else
        var n := if count < pending then count else pending;
        Grab(Ok, n, buf[..n], 0)
  }

  /** A grab after a publication sees the published nodes, as many as the
      caller asked for up to 160; a second grab without a new publication
      finds the mailbox empty and fails. */
  lemma GrabAfterPublish(buf: seq<Node>, pkgs: seq<Package>, frameNum: nat, moduleNum: byte, count: nat)
    requires |buf| >= SlotsPerFrame
    requires forall j :: 0 <= j < |pkgs| ==> |pkgs[j].points| == SlotsPerFrame
    requires FindKey(pkgs, frameNum, moduleNum).Some?
    requires 0 < count
    ensures var b := Published(buf, pkgs, frameNum, moduleNum);
            var g := GrabSpec(EventOk, b, SlotsPerFrame, count);
            var i := FindKey(pkgs, frameNum, moduleNum).value;
            g.res == Ok && g.count == (if count < SlotsPerFrame then count else SlotsPerFrame) &&
            g.copied[0] == pkgs[i].points[0].(index := moduleNum / 2) &&
            g.copied[1..] == pkgs[i].points[1..g.count] &&
            GrabSpec(EventOk, b, g.pending, count).res == Fail
  {
    var b := Published(buf, pkgs, frameNum, moduleNum);
    PublishedContents(buf, pkgs, frameNum, moduleNum);
    var g := GrabSpec(EventOk, b, SlotsPerFrame, count);
    assert g.copied[1..] == b[1..g.count];
    assert b[1..g.count] == b[1..SlotsPerFrame][..g.count - 1];
  }
}
