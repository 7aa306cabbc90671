/** The reassembly list `multi_package` of the driver
    (src/ydlidar_driver.cpp, `addPointsToVec`): one entry per
    (frame number, module address) key, each holding the latest 160 points
    of that module. */
module Reassembly {
  import opened Bytes
  import opened Protocol

  /** One entry (`GS2_Multi_Package`). */
  datatype Package = Package(frameNum: nat, moduleNum: byte, points: seq<Node>)

  /** The points of a newly appended entry. */
  function EmptyPoints(): (r: seq<Node>)
    ensures |r| == SlotsPerFrame && forall i :: 0 <= i < |r| ==> r[i] == ZeroNode
  {
    seq(SlotsPerFrame, i => ZeroNode)
  }

  predicate HasKey(p: Package, frameNum: nat, moduleNum: byte)
  {
    p.frameNum == frameNum && p.moduleNum == moduleNum
  }

  /** The first entry at or after `from` with the key. */
  function FindKeyFrom(pkgs: seq<Package>, frameNum: nat, moduleNum: byte, from: nat): (r: Option<nat>)
    requires from <= |pkgs|
    ensures r.Some? ==> from <= r.value < |pkgs| && HasKey(pkgs[r.value], frameNum, moduleNum)
    decreases |pkgs| - from
  {
    if from == |pkgs| then None
    else if HasKey(pkgs[from], frameNum, moduleNum) then Some(from)
    else FindKeyFrom(pkgs, frameNum, moduleNum, from + 1)
  }

  /** The first entry with the key, as the linear searches of the driver
      find it. */
  function FindKey(pkgs: seq<Package>, frameNum: nat, moduleNum: byte): Option<nat>
  {
    FindKeyFrom(pkgs, frameNum, moduleNum, 0)
  }

  /** `FindKey` finds the first entry with the key, and finds none exactly
      when no entry has it. */
  lemma {:induction false} FindKeyFromFirst(pkgs: seq<Package>, frameNum: nat, moduleNum: byte, from: nat)
    requires from <= |pkgs|
    ensures FindKeyFrom(pkgs, frameNum, moduleNum, from).None? <==>
              forall j :: from <= j < |pkgs| ==> !HasKey(pkgs[j], frameNum, moduleNum)
    ensures FindKeyFrom(pkgs, frameNum, moduleNum, from).Some? ==>
              forall j :: from <= j < FindKeyFrom(pkgs, frameNum, moduleNum, from).value ==>
                !HasKey(pkgs[j], frameNum, moduleNum)
    decreases |pkgs| - from
  {
    if from < |pkgs| && !HasKey(pkgs[from], frameNum, moduleNum) {
      FindKeyFromFirst(pkgs, frameNum, moduleNum, from + 1);
    }
  }

  /** `memcpy(all_points, nodes, count)`: the first `|nodes|` points are
      replaced, the others stay. */
  function Overwrite(points: seq<Node>, nodes: seq<Node>): (r: seq<Node>)
    ensures |r| == if |nodes| <= |points| then |points| else |nodes|
    ensures r[..|nodes|] == nodes
    ensures forall i :: |nodes| <= i < |points| ==> r[i] == points[i]
  {
    if |nodes| <= |points| then nodes + points[|nodes|..] else nodes
  }

  /** The list and the `isPrepareToSend` flag after `addPointsToVec`. */
  datatype Update = Update(pkgs: seq<Package>, prepared: bool)

  function AddPoints(pkgs: seq<Package>, frameNum: nat, moduleNum: byte, nodes: seq<Node>, prepared: bool): Update
  {
    match FindKey(pkgs, frameNum, moduleNum)
    case Some(i) => Update(pkgs[i := pkgs[i].(points := Overwrite(pkgs[i].points, nodes))], true)
    case None => Update(pkgs + [Package(frameNum, moduleNum, EmptyPoints())], prepared)
  }

  /** When the key is present only the first entry with it changes, and
      only in its points, which receive the nodes; the entry is then ready
      to be sent. When it is absent one entry with the key and no copied
      points is appended and the flag is left alone. Either way no entry is
      removed and every key stays where it was. */
  lemma AddPointsSpec(pkgs: seq<Package>, frameNum: nat, moduleNum: byte, nodes: seq<Node>, prepared: bool)
    ensures var u := AddPoints(pkgs, frameNum, moduleNum, nodes, prepared);
            |pkgs| <= |u.pkgs| &&
            (forall j :: 0 <= j < |pkgs| ==>
               u.pkgs[j].frameNum == pkgs[j].frameNum && u.pkgs[j].moduleNum == pkgs[j].moduleNum) &&
            FindKey(u.pkgs, frameNum, moduleNum).Some?
    ensures var u := AddPoints(pkgs, frameNum, moduleNum, nodes, prepared);
            (exists j :: 0 <= j < |pkgs| && HasKey(pkgs[j], frameNum, moduleNum)) ==>
              |u.pkgs| == |pkgs| && u.prepared &&
              var i := FindKey(pkgs, frameNum, moduleNum).value;
              u.pkgs[i].points[..|nodes|] == nodes &&
              (forall j :: 0 <= j < |pkgs| && j != i ==> u.pkgs[j] == pkgs[j])
    ensures var u := AddPoints(pkgs, frameNum, moduleNum, nodes, prepared);
            (forall j :: 0 <= j < |pkgs| ==> !HasKey(pkgs[j], frameNum, moduleNum)) ==>
              u.pkgs == pkgs + [Package(frameNum, moduleNum, EmptyPoints())] && u.prepared == prepared
  {
    FindKeyFromFirst(pkgs, frameNum, moduleNum, 0);
    var u := AddPoints(pkgs, frameNum, moduleNum, nodes, prepared);
    match FindKey(pkgs, frameNum, moduleNum)
    case Some(i) =>
      FindKeyFromFirst(u.pkgs, frameNum, moduleNum, 0);
      assert HasKey(u.pkgs[i], frameNum, moduleNum);
    case None =>
      FindKeyFromFirst(u.pkgs, frameNum, moduleNum, 0);
      assert HasKey(u.pkgs[|pkgs|], frameNum, moduleNum);
  }

  /** Adding the same points twice gives what adding them once gave, except
      that the second call always leaves the entry ready to be sent. */
  lemma AddPointsTwice(pkgs: seq<Package>, frameNum: nat, moduleNum: byte, nodes: seq<Node>, prepared: bool)
    requires |nodes| <= SlotsPerFrame
    requires forall j :: 0 <= j < |pkgs| ==> |pkgs[j].points| == SlotsPerFrame
    ensures var u := AddPoints(pkgs, frameNum, moduleNum, nodes, prepared);
            var v := AddPoints(u.pkgs, frameNum, moduleNum, nodes, u.prepared);
            v.prepared && |v.pkgs| == |u.pkgs| &&
            var i := FindKey(u.pkgs, frameNum, moduleNum).value;
            v.pkgs[i].points[..|nodes|] == nodes
  {
    AddPointsSpec(pkgs, frameNum, moduleNum, nodes, prepared);
    var u := AddPoints(pkgs, frameNum, moduleNum, nodes, prepared);
    var i := FindKey(u.pkgs, frameNum, moduleNum).value;
    AddPointsSpec(u.pkgs, frameNum, moduleNum, nodes, u.prepared);
    assert HasKey(u.pkgs[i], frameNum, moduleNum);
  }
}
