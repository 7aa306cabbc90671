/** The answer-header search of `waitResponseHeader`
    (src/ydlidar_driver.cpp): the first run of four sync bytes opens an
    8-byte header whose remaining four bytes are taken verbatim. */
module AnswerHeader {
  import opened Bytes
  import opened Protocol

  /** Four answer sync bytes start at position `j` of `s`. */
  predicate MarkerAt(s: seq<byte>, j: int)
  {
    0 <= j && j + 4 <= |s| &&
    s[j] == AnsSyncByte && s[j + 1] == AnsSyncByte && s[j + 2] == AnsSyncByte && s[j + 3] == AnsSyncByte
  }

  /** The first sync marker at or after `from`, if any. */
  function FirstMarkerFrom(s: seq<byte>, from: nat): (r: Option<nat>)
    ensures r.Some? ==> from <= r.value && MarkerAt(s, r.value)
    decreases |s| - from
  {
    if from + 4 > |s| then None
    else if MarkerAt(s, from) then Some(from)
    else FirstMarkerFrom(s, from + 1)
  }

  function FirstMarker(s: seq<byte>): Option<nat> { FirstMarkerFrom(s, 0) }

  /** `FirstMarker` is the least marker position, and there is none exactly
      when it says so. */
  lemma {:induction false} FirstMarkerFromLeast(s: seq<byte>, from: nat)
    ensures FirstMarkerFrom(s, from).None? <==> forall j :: from <= j ==> !MarkerAt(s, j)
    ensures FirstMarkerFrom(s, from).Some? ==>
              forall j :: from <= j < FirstMarkerFrom(s, from).value ==> !MarkerAt(s, j)
    decreases |s| - from
  {
    if from + 4 > |s| {
    } else if MarkerAt(s, from) {
    } else {
      FirstMarkerFromLeast(s, from + 1);
      if FirstMarkerFrom(s, from + 1).None? {
        forall j | from <= j ensures !MarkerAt(s, j) {
          if j != from {
            assert from + 1 <= j;
          }
        }
      }
    }
  }

  /** Skipping positions that hold no marker does not change the search. */
  lemma {:induction false} FirstMarkerSkip(s: seq<byte>, from: nat, to: nat)
    requires from <= to
    requires forall j :: from <= j < to ==> !MarkerAt(s, j)
    ensures FirstMarkerFrom(s, from) == FirstMarkerFrom(s, to)
    decreases (to as int) - (from as int)
  {
    if from < to {
      if from + 4 > |s| {
        FirstMarkerFromLeast(s, to);
        FirstMarkerFromLeast(s, from);
      } else {
        FirstMarkerSkip(s, from + 1, to);
      }
    }
  }

  /** A header is found in `s` when its first marker is followed by the four
      remaining header bytes. */
  predicate HeaderIn(s: seq<byte>)
  {
    FirstMarker(s).Some? && FirstMarker(s).value + HeaderSize <= |s|
  }

  /** The header fields (`gs_lidar_ans_header` after the sync bytes). */
  datatype AnsHeader = AnsHeader(address: byte, kind: byte, size: u16)

  function Fields(h: seq<byte>): AnsHeader
    requires |h| == HeaderSize
  {
    AnsHeader(h[4], h[5], LE16(h[6], h[7]))
  }

  /** Line noise that holds no sync byte is skipped: a header sent after it
      is the one found, whatever follows. */
  lemma HeaderAfterNoise(noise: seq<byte>, h: seq<byte>, rest: seq<byte>)
    requires forall i :: 0 <= i < |noise| ==> noise[i] != AnsSyncByte
    requires |h| == HeaderSize && MarkerAt(h, 0)
    ensures HeaderIn(noise + h + rest)
    ensures FirstMarker(noise + h + rest) == Some(|noise|)
    ensures (noise + h + rest)[|noise|..|noise| + HeaderSize] == h
  {
    var s := noise + h + rest;
    forall j | 0 <= j < |noise| ensures !MarkerAt(s, j) {
      assert s[j] == noise[j];
    }
    FirstMarkerSkip(s, 0, |noise|);
    assert MarkerAt(s, |noise|);
    assert s[|noise|..|noise| + HeaderSize] == h;
  }

  /** Three sync bytes followed by anything else never open a header at
      that position. */
  lemma NoFalseMarker(s: seq<byte>, j: nat)
    requires j + 4 <= |s|
    requires s[j] == AnsSyncByte && s[j + 1] == AnsSyncByte && s[j + 2] == AnsSyncByte
    requires s[j + 3] != AnsSyncByte
    ensures !MarkerAt(s, j) && !MarkerAt(s, j + 1) && !MarkerAt(s, j + 2) && !MarkerAt(s, j + 3)
  {
  }
}
