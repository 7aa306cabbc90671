/** `ascendScanData` (src/ydlidar_driver.cpp): fills in the angles of the
    nodes without a distance and rotates the buffer so that it starts at
    the angle wrap.

    The four loops of the code run in order: a back-fill before the first
    node with a distance, a forward-fill after the last one, an interior
    fill of every node without a distance from the first node's angle, and
    the search for the wrap position. The interior fill rewrites every node
    without a distance except node 0, so of the first two loops only the
    back-filled angle of node 0 survives; `Filled` states the outcome in
    that closed form. `float` arithmetic is modelled with reals. */
module Ascend {
  import opened Bytes
  import opened Protocol

  /** `(code >> ANGLE_SHIFT) / 64.0f`: the angle of a code in degrees. */
  function Degrees(code: u16): real { Q6(code) as real / 64.0 }

  lemma EncodeCheckBit(q: u16, cb: nat)
    requires cb < 2
    ensures CheckBitOf(Encode(q, cb)) == cb
  {
    var v := q * 2 + cb;
    assert v < 0x2_0000;
    if v >= 0x1_0000 {
      assert Encode(q, cb) == v - 0x1_0000;
    }
  }

  /** The code for an angle, keeping the check bit of the node's code:
      `((uint16_t)(angle * 64.0f) << ANGLE_SHIFT) + checkbit`. */
  function Recode(angle: real, prev: u16): (c: u16)
    ensures CheckBitOf(c) == CheckBitOf(prev)
  {
    EncodeCheckBit(ToU16(angle * 64.0), CheckBitOf(prev));
    Encode(ToU16(angle * 64.0), CheckBitOf(prev))
  }

  /** `inc_origin_angle = 360.0f / count`; it is never used when `count`
      is 0. */
  function Increment(n: nat): real { if n == 0 then 0.0 else 360.0 / n as real }

  /** An angle above a full turn is lowered by one turn. */
  function Wrap360(e: real): real { if e > 360.0 then e - 360.0 else e }

  predicate AllZero(s: seq<Node>)
  {
    forall i :: 0 <= i < |s| ==> s[i].distance == 0
  }

  /** The first node at or after `i` with a distance, or `|s|`. */
  function FirstNonZeroFrom(s: seq<Node>, i: nat): (r: nat)
    requires i <= |s|
    ensures i <= r <= |s|
    ensures r < |s| ==> s[r].distance != 0
    ensures forall k :: i <= k < r ==> s[k].distance == 0
    decreases |s| - i
  {
    if i == |s| || s[i].distance != 0 then i else FirstNonZeroFrom(s, i + 1)
  }

  function FirstNonZero(s: seq<Node>): (r: nat)
    ensures r <= |s| && (r == |s| <==> AllZero(s))
  {
    FirstNonZeroFrom(s, 0)
  }

  /** The angle the back-fill gives node `j` before the first node `f`
      with a distance: the next node's angle less one increment, not below
      zero. */
  function BackAngle(s: seq<Node>, f: nat, inc: real, j: nat): u16
    requires j <= f < |s|
    decreases f - j
  {
    if j == f then s[f].angleCode
    else BackStep(BackAngle(s, f, inc, j + 1), inc, s[j].angleCode)
  }

  /** One back-fill step: the next node's angle less the increment, not
      below zero, recoded with the node's own check bit. */
  function BackStep(next: u16, inc: real, prev: u16): u16
  {
    var e := Degrees(next) - inc;
    Recode(if e < 0.0 then 0.0 else e, prev)
  }

  /** One forward-fill step: the previous node's angle plus the increment,
      wrapped once. */
  function ForwardStep(before: u16, inc: real, prev: u16): u16
  {
    Recode(Wrap360(Degrees(before) + inc), prev)
  }

  /** The angle the forward-fill gives node `j` after the last node `l`
      with a distance: the previous node's angle plus one increment,
      wrapped once. */
  function ForwardAngle(s: seq<Node>, l: nat, inc: real, j: nat): u16
    requires l <= j < |s|
    decreases j - l
  {
    if j == l then s[l].angleCode
    else ForwardStep(ForwardAngle(s, l, inc, j - 1), inc, s[j].angleCode)
  }

  /** Node 0's angle after the back-fill. */
  function FrontCode(s: seq<Node>): u16
    requires !AllZero(s)
  {
    BackAngle(s, FirstNonZero(s), Increment(|s|), 0)
  }

  /** Node `k` of the buffer before the rotation. */
  function FilledAt(s: seq<Node>, k: nat): Node
    requires !AllZero(s) && k < |s|
  {
    if k == 0 then s[0].(angleCode := FrontCode(s))
    else if s[k].distance == 0 then
      s[k].(angleCode := InteriorCode(FrontCode(s), k, Increment(|s|), s[k].angleCode))
    else s[k]
  }

  function Filled(s: seq<Node>): (r: seq<Node>)
    requires !AllZero(s)
    ensures |r| == |s| && forall k :: 0 <= k < |s| ==> r[k] == FilledAt(s, k)
  {
    seq(|s|, k requires 0 <= k < |s| => FilledAt(s, k))
  }

  /** The angle drops by more than half a turn from node `i - 1` to `i`. */
  predicate DropAt(s: seq<Node>, i: nat)
    requires 1 <= i < |s|
  {
    Degrees(s[i - 1].angleCode) - Degrees(s[i].angleCode) > 180.0
  }

  function ZeroPosFrom(s: seq<Node>, i: nat): (z: nat)
    requires 1 <= i
    ensures z == 0 || (i <= z < |s| && DropAt(s, z))
    decreases |s| - i
  {
    if i >= |s| then 0 else if DropAt(s, i) then i else ZeroPosFrom(s, i + 1)
  }

  /** `zero_pos`: the first position where the angle drops by more than
      half a turn, or 0. */
  function ZeroPos(s: seq<Node>): nat { ZeroPosFrom(s, 1) }

  lemma {:induction false} ZeroPosFromFirst(s: seq<Node>, i: nat)
    requires 1 <= i
    ensures ZeroPosFrom(s, i) == 0 ==> forall k :: i <= k < |s| ==> !DropAt(s, k)
    ensures ZeroPosFrom(s, i) != 0 ==> forall k :: i <= k < ZeroPosFrom(s, i) ==> !DropAt(s, k)
    decreases |s| - i
  {
    if i < |s| && !DropAt(s, i) {
      ZeroPosFromFirst(s, i + 1);
    }
  }

  function Rotate(s: seq<Node>, z: nat): seq<Node>
    requires z <= |s|
  {
    s[z..] + s[..z]
  }

  /** The buffer `ascendScanData` leaves. */
  function Ascended(s: seq<Node>): seq<Node>
  {
    if AllZero(s) then s else Rotate(Filled(s), ZeroPos(Filled(s)))
  }

  /** Filling changes only angles, keeps every check bit, keeps the nodes
      that have a distance, and gives node 0 the back-filled angle. */
  lemma FilledSpec(s: seq<Node>)
    requires !AllZero(s)
    ensures forall k :: 0 <= k < |s| ==>
              Filled(s)[k] == s[k].(angleCode := Filled(s)[k].angleCode) &&
              CheckBitOf(Filled(s)[k].angleCode) == CheckBitOf(s[k].angleCode)
    ensures forall k :: 0 <= k < |s| && s[k].distance != 0 ==> Filled(s)[k] == s[k]
  {
    var f := FirstNonZero(s);
    BackAngleCheckBit(s, f, Increment(|s|), 0);
  }

  lemma {:induction false} BackAngleCheckBit(s: seq<Node>, f: nat, inc: real, j: nat)
    requires j <= f < |s|
    ensures CheckBitOf(BackAngle(s, f, inc, j)) == CheckBitOf(s[j].angleCode)
    decreases f - j
  {
  }

  /** Position `k` of a buffer of `n` nodes rotated left by `z` holds the
      node that was at `(k + z) mod n`. */
  function RotatedFrom(n: nat, z: nat, k: nat): nat
  {
    if k + z < n then k + z else k + z - n
  }

  /** The result is the filled buffer rotated left by `zero_pos`: node `k`
      of the result is node `(k + zero_pos) mod count` of the filled
      buffer, and the rotation is a permutation of the filled buffer. */
  lemma AscendedRotates(s: seq<Node>)
    requires !AllZero(s)
    ensures var F, z := Filled(s), ZeroPos(Filled(s));
            |Ascended(s)| == |s| &&
            (forall k :: 0 <= k < |s| ==> RotatedFrom(|s|, z, k) < |s| && Ascended(s)[k] == F[RotatedFrom(|s|, z, k)])
    ensures multiset(Ascended(s)) == multiset(Filled(s))
  {
    var F := Filled(s);
    RotateSpec(F, ZeroPos(F));
  }

  /** Rotating left by `z` moves node `(k + z) mod n` to `k` and keeps the
      nodes. */
  lemma RotateSpec(F: seq<Node>, z: nat)
    requires z <= |F|
    ensures |Rotate(F, z)| == |F|
    ensures forall k :: 0 <= k < |F| ==> RotatedFrom(|F|, z, k) < |F| && Rotate(F, z)[k] == F[RotatedFrom(|F|, z, k)]
    ensures multiset(Rotate(F, z)) == multiset(F)
  {
    var r := Rotate(F, z);
    forall k | 0 <= k < |F| ensures RotatedFrom(|F|, z, k) < |F| && r[k] == F[RotatedFrom(|F|, z, k)] {
      if k < |F| - z {
        assert r[k] == F[k + z];
      } else {
        assert r[k] == F[k - (|F| - z)];
      }
    }
    assert F == F[..z] + F[z..];
  }

  /** Node `k` of the result has the distance, the check bit and the other
      fields of input node `(k + zero_pos) mod count`, and is that input
      node when it has a distance. */
  lemma AscendedSpec(s: seq<Node>)
    requires !AllZero(s)
    ensures |Ascended(s)| == |s|
    ensures forall k :: 0 <= k < |s| ==>
              var i := RotatedFrom(|s|, ZeroPos(Filled(s)), k);
              i < |s| &&
              Ascended(s)[k] == s[i].(angleCode := Ascended(s)[k].angleCode) &&
              CheckBitOf(Ascended(s)[k].angleCode) == CheckBitOf(s[i].angleCode) &&
              (s[i].distance != 0 ==> Ascended(s)[k] == s[i])
  {
    AscendedRotates(s);
    FilledSpec(s);
  }

  /** With a distance on every node and no drop of more than half a turn
      the buffer is left as it was. */
  lemma AscendedIdentity(s: seq<Node>)
    requires |s| > 0
    requires forall i :: 0 <= i < |s| ==> s[i].distance != 0
    requires forall i :: 1 <= i < |s| ==> !DropAt(s, i)
    ensures Ascended(s) == s
  {
    assert s[0].distance != 0;
    assert FirstNonZero(s) == 0;
    FilledSpec(s);
    assert Filled(s) == s;
    assert ZeroPos(s) == 0;
    assert s[0..] + s[..0] == s;
  }

  // ---------------------------------------------------------------------
  // The method and its loops

  /** The back-fill loop: nodes `f - 1` down to 0 get their angle from the
      node after them. */
  method BackFill(a: array<Node>, f: nat, inc: real)
    requires f < a.Length
    modifies a
    ensures forall k :: 0 <= k < a.Length ==> a[k] == old(a[k]).(angleCode := a[k].angleCode)
    ensures forall k :: 0 <= k <= f ==> a[k].angleCode == BackAngle(old(a[..]), f, inc, k)
    ensures forall k :: f <= k < a.Length ==> a[k] == old(a[k])
  {
    ghost var s := a[..];
    var j := f;
    while j != 0
      invariant 0 <= j <= f
      invariant forall k :: 0 <= k < a.Length ==> a[k] == s[k].(angleCode := a[k].angleCode)
      invariant forall k :: j <= k <= f ==> a[k].angleCode == BackAngle(s, f, inc, k)
      invariant forall k :: 0 <= k < j || f <= k < a.Length ==> a[k] == s[k]
    {
      j := j - 1;
      var expectAngle := Degrees(a[j + 1].angleCode) - inc;
      if expectAngle < 0.0 {
        expectAngle := 0.0;
      }
      var code := Recode(expectAngle, a[j].angleCode);
      assert code == BackStep(a[j + 1].angleCode, inc, s[j].angleCode);
      a[j] := a[j].(angleCode := code);
    }
  }

  /** The forward-fill loop: nodes `l + 1` up to the last get their angle
      from the node before them. */
  method ForwardFill(a: array<Node>, l: nat, inc: real)
    requires l < a.Length
    modifies a
    ensures forall k :: 0 <= k < a.Length ==> a[k] == old(a[k]).(angleCode := a[k].angleCode)
    ensures forall k :: l <= k < a.Length ==> a[k].angleCode == ForwardAngle(old(a[..]), l, inc, k)
    ensures forall k :: 0 <= k <= l ==> a[k] == old(a[k])
  {
    ghost var s := a[..];
    var j := l;
    while j != a.Length - 1
      invariant l <= j < a.Length
      invariant forall k :: 0 <= k < a.Length ==> a[k] == s[k].(angleCode := a[k].angleCode)
      invariant forall k :: l <= k <= j ==> a[k].angleCode == ForwardAngle(s, l, inc, k)
      invariant forall k :: 0 <= k <= l || j < k < a.Length ==> a[k] == s[k]
    {
      j := j + 1;
      var expectAngle := Degrees(a[j - 1].angleCode) + inc;
      if expectAngle > 360.0 {
        expectAngle := expectAngle - 360.0;
      }
      assert expectAngle == Wrap360(Degrees(a[j - 1].angleCode) + inc);
      assert a[j] == s[j];
      assert a[j - 1].angleCode == ForwardAngle(s, l, inc, j - 1);
      var code := Recode(expectAngle, a[j].angleCode);
      assert code == ForwardStep(a[j - 1].angleCode, inc, s[j].angleCode);
      assert code == ForwardAngle(s, l, inc, j);
      a[j] := a[j].(angleCode := code);
    }
  }

  /** The interior fill: every node after node 0 without a distance gets
      node 0's angle plus its position times the increment. */
  method InteriorFill(a: array<Node>, inc: real)
    requires a.Length > 0
    modifies a
    ensures forall k :: 0 <= k < a.Length ==> a[k] == old(a[k]).(angleCode := a[k].angleCode)
    ensures a[0] == old(a[0])
    ensures forall k :: 1 <= k < a.Length ==>
              a[k].angleCode == if old(a[k]).distance == 0
                                then InteriorCode(old(a[0]).angleCode, k, inc, old(a[k]).angleCode)
                                else old(a[k]).angleCode
  {
    ghost var s := a[..];
    var frontAngle := Degrees(a[0].angleCode);
    for i := 1 to a.Length
      invariant forall k :: 0 <= k < a.Length ==> a[k] == s[k].(angleCode := a[k].angleCode)
      invariant a[0] == s[0]
      invariant forall k :: 1 <= k < i ==>
                  a[k].angleCode == if s[k].distance == 0
                                    then InteriorCode(s[0].angleCode, k, inc, s[k].angleCode)
                                    else s[k].angleCode
      invariant forall k :: i <= k < a.Length ==> a[k] == s[k]
    {
      if a[i].distance == 0 {
        var expectAngle := frontAngle + i as real * inc;
        if expectAngle > 360.0 {
          expectAngle := expectAngle - 360.0;
        }
        assert expectAngle == Wrap360(Degrees(s[0].angleCode) + i as real * inc);
        var code := Recode(expectAngle, a[i].angleCode);
        assert code == InteriorCode(s[0].angleCode, i, inc, s[i].angleCode);
        a[i] := a[i].(angleCode := code);
      }
    }
  }

  /** The interior fill's code for node `k`: node 0's angle plus `k`
      increments, wrapped once. */
  function InteriorCode(front: u16, k: nat, inc: real, prev: u16): u16
  {
    Recode(Wrap360(Degrees(front) + k as real * inc), prev)
  }

  /** The search for `zero_pos`. */
  method FindZeroPos(a: array<Node>) returns (zeroPos: nat)
    requires a.Length > 0
    ensures zeroPos == ZeroPos(a[..])
  {
    zeroPos := 0;
    var preDegree := Degrees(a[0].angleCode);
    var i := 1;
    while i < a.Length
      invariant 1 <= i <= a.Length
      invariant preDegree == Degrees(a[i - 1].angleCode)
      invariant ZeroPosFrom(a[..], i) == ZeroPos(a[..])
    {
      var degree := Degrees(a[i].angleCode);
      if zeroPos == 0 && preDegree - degree > 180.0 {
        zeroPos := i;
        break;
      }
      preDegree := degree;
      i := i + 1;
    }
  }

  /** Copying through `tmpbuffer`: the buffer is rotated left by `z`. */
  method RotateLeft(a: array<Node>, z: nat)
    requires z <= a.Length
    modifies a
    ensures a[..] == Rotate(old(a[..]), z)
  {
    ghost var s := a[..];
    var count := a.Length;
    var tmp := new Node[count](_ => ZeroNode);
    for i := z to count
      invariant a[..] == s
      invariant forall k :: 0 <= k < i - z ==> tmp[k] == s[k + z]
    {
      tmp[i - z] := a[i];
    }
    for i := 0 to z
      invariant a[..] == s
      invariant forall k :: 0 <= k < count - z ==> tmp[k] == s[k + z]
      invariant forall k :: 0 <= k < i ==> tmp[k + count - z] == s[k]
    {
      tmp[i + count - z] := a[i];
    }
    assert forall k :: 0 <= k < count ==> tmp[k] == Rotate(s, z)[k];
    for i := 0 to count
      invariant forall k :: 0 <= k < i ==> a[k] == tmp[k]
      invariant forall k :: 0 <= k < count ==> tmp[k] == Rotate(s, z)[k]
    {
      a[i] := tmp[i];
    }
    assert a[..] == Rotate(s, z);
  }

  /** `ascendScanData(nodebuffer, count)` on a buffer of `count` nodes. It
      fails, leaving the buffer alone, exactly when no node has a
      distance; otherwise the buffer becomes `Ascended` of what it was. */
  method AscendScanData(a: array<Node>) returns (res: ResultCode)
    modifies a
    ensures res == Fail <==> AllZero(old(a[..]))
    ensures res == Ok || res == Fail
    ensures a[..] == Ascended(old(a[..]))
  {
    ghost var s := a[..];
    var count := a.Length;
    var inc := Increment(count);
    var i := 0;
    while i < count && a[i].distance == 0
      invariant 0 <= i <= count
      invariant FirstNonZeroFrom(s, i) == FirstNonZero(s)
    {
      i := i + 1;
    }
    if i == count {
      return Fail;
    }
    var f := i;
    BackFill(a, f, inc);
    ghost var s1 := a[..];
    i := count - 1;
    while a[i].distance == 0
      invariant f <= i < count
      invariant forall k :: i < k < count ==> s[k].distance == 0
      decreases i
    {
      i := i - 1;
    }
    ForwardFill(a, i, inc);
    ghost var s2 := a[..];
    InteriorFill(a, inc);
    FillsCompose(s, s1, s2, a[..], f, i);
    var zeroPos := FindZeroPos(a);
    RotateLeft(a, zeroPos);
    return Ok;
  }

  /** The three fill loops together give `Filled`: the back-fill settles
      node 0, the forward-fill only touches nodes the interior fill then
      rewrites, and the interior fill sets every other node without a
      distance. */
  lemma FillsCompose(s: seq<Node>, s1: seq<Node>, s2: seq<Node>, s3: seq<Node>, f: nat, l: nat)
    requires !AllZero(s) && f == FirstNonZero(s)
    requires f <= l < |s| && forall k :: l < k < |s| ==> s[k].distance == 0
    requires |s1| == |s| && |s2| == |s| && |s3| == |s|
    requires forall k :: 0 <= k < |s| ==> s1[k] == s[k].(angleCode := s1[k].angleCode)
    requires forall k :: 0 <= k <= f ==> s1[k].angleCode == BackAngle(s, f, Increment(|s|), k)
    requires forall k :: f <= k < |s| ==> s1[k] == s[k]
    requires forall k :: 0 <= k < |s| ==> s2[k] == s1[k].(angleCode := s2[k].angleCode)
    requires forall k :: l <= k < |s| ==> s2[k].angleCode == ForwardAngle(s1, l, Increment(|s|), k)
    requires forall k :: 0 <= k <= l ==> s2[k] == s1[k]
    requires forall k :: 0 <= k < |s| ==> s3[k] == s2[k].(angleCode := s3[k].angleCode)
    requires s3[0] == s2[0]
    requires forall k :: 1 <= k < |s| ==>
               s3[k].angleCode == if s2[k].distance == 0
                                  then InteriorCode(s2[0].angleCode, k, Increment(|s|), s2[k].angleCode)
                                  else s2[k].angleCode
    ensures s3 == Filled(s)
  {
    var inc := Increment(|s|);
    BackFillCheckBits(s, f, inc);
    assert s2[0].angleCode == FrontCode(s);
    forall k | 0 <= k < |s| ensures s3[k] == FilledAt(s, k) {
      if k > 0 && s[k].distance == 0 {
        if k > l {
          ForwardAngleCheckBit(s1, l, inc, k);
        }
        assert CheckBitOf(s2[k].angleCode) == CheckBitOf(s[k].angleCode);
        InteriorCodeBitOnly(FrontCode(s), k, inc, s2[k].angleCode, s[k].angleCode);
      }
    }
  }

  /** The interior code depends on the node's old code only through its
      check bit. */
  lemma InteriorCodeBitOnly(front: u16, k: nat, inc: real, p: u16, q: u16)
    requires CheckBitOf(p) == CheckBitOf(q)
    ensures InteriorCode(front, k, inc, p) == InteriorCode(front, k, inc, q)
  {
  }

  lemma BackFillCheckBits(s: seq<Node>, f: nat, inc: real)
    requires f < |s|
    ensures forall k :: 0 <= k <= f ==> CheckBitOf(BackAngle(s, f, inc, k)) == CheckBitOf(s[k].angleCode)
  {
    forall k | 0 <= k <= f {
      BackAngleCheckBit(s, f, inc, k);
    }
  }

  lemma {:induction false} ForwardAngleCheckBit(s: seq<Node>, l: nat, inc: real, j: nat)
    requires l <= j < |s|
    ensures CheckBitOf(ForwardAngle(s, l, inc, j)) == CheckBitOf(s[j].angleCode)
    decreases j - l
  {
  }
}
