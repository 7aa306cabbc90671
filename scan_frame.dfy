/** The frame reader at the start of `waitPackage` (src/ydlidar_driver.cpp):
    a header phase that reads 8-byte chunks until one is a whole scan
    header, and a payload phase that reads `sample_lens + 1` bytes whose
    last byte is the checksum.

    The serial line is a byte stream, and a read of `n` bytes either gets
    `n` bytes or times out. So every header chunk starts where the previous
    one ended, and a chunk that does not hold a whole header is dropped. */
module ScanFrame {
  import opened Bytes
  import opened Protocol

  /** The state of the header scanner within one chunk: the write position
      into the frame buffer, the module address, the running checksum
      (`CheckSumCal`) and the two octets of the length field
      `sample_lens`. `sample_lens` is only ever updated by `|=` with an
      octet, either in its low or its high half, so the halves are kept
      apart. */
  datatype HeaderScan = HeaderScan(recvPos: nat, moduleNum: byte, cal: byte, lensLo: byte, lensHi: byte)

  /** One byte of the header switch. Positions 0-3 accept only the sync byte
      and otherwise restart, dropping the byte; position 4 is the module
      address; position 5 accepts only the scan type and otherwise
      restarts with the checksum and the address cleared; positions 6 and
      7 or their byte into the length. */
  function HeaderByte(st: HeaderScan, b: byte): (r: HeaderScan)
    ensures r.recvPos == 0 || r.recvPos == st.recvPos + 1
  {
    if st.recvPos < 4 then
      if b != AnsSyncByte then st.(recvPos := 0) else st.(recvPos := st.recvPos + 1)
    else if st.recvPos == 4 then
      st.(moduleNum := b, cal := (st.cal + b) % 256, recvPos := 5)
    else if st.recvPos == 5 then
      if b != AnsScan then st.(recvPos := 0, cal := 0, moduleNum := 0)
      else st.(cal := (st.cal + b) % 256, recvPos := 6)
    else if st.recvPos == 6 then
      st.(lensLo := OrByte(st.lensLo, b), cal := (st.cal + b) % 256, recvPos := 7)
    else if st.recvPos == 7 then
      st.(lensHi := OrByte(st.lensHi, b), cal := (st.cal + b) % 256, recvPos := 8)
    else st.(recvPos := st.recvPos + 1)
  }

  /** The scanner after the bytes of `c`, in order. */
  function ScanBytes(st: HeaderScan, c: seq<byte>): HeaderScan
  {
    if c == [] then st else HeaderByte(ScanBytes(st, c[..|c| - 1]), c[|c| - 1])
  }

  /** The byte at header position `i` passes the scanner's tests. */
  predicate HeaderByteOk(i: nat, b: byte)
  {
    (i < 4 ==> b == AnsSyncByte) && (i == 5 ==> b == AnsScan)
  }

  /** Eight bytes that form a scan header. */
  predicate IsScanHeader(c: seq<byte>)
  {
    |c| == HeaderSize &&
    c[0] == AnsSyncByte && c[1] == AnsSyncByte && c[2] == AnsSyncByte && c[3] == AnsSyncByte &&
    c[5] == AnsScan
  }

  /** The scanner state after the header prefix `c` when every byte passed. */
  function Expected(m: byte, lo: byte, hi: byte, c: seq<byte>): HeaderScan
    requires |c| <= HeaderSize
  {
    HeaderScan(|c|,
               if |c| > 4 then c[4] else m,
               Sum8(c[if |c| < 4 then |c| else 4..]),
               if |c| > 6 then OrByte(lo, c[6]) else lo,
               if |c| > 7 then OrByte(hi, c[7]) else hi)
  }

  /** Within one chunk the scanner reaches position `|c|` exactly when every
      byte passed its test, and then its state is the expected one. */
  lemma {:induction false} ScanBytesPrefix(m: byte, lo: byte, hi: byte, c: seq<byte>)
    requires |c| <= HeaderSize
    ensures ScanBytes(HeaderScan(0, m, 0, lo, hi), c).recvPos <= |c|
    ensures ScanBytes(HeaderScan(0, m, 0, lo, hi), c).recvPos == |c| <==>
              forall i :: 0 <= i < |c| ==> HeaderByteOk(i, c[i])
    ensures ScanBytes(HeaderScan(0, m, 0, lo, hi), c).recvPos == |c| ==>
              ScanBytes(HeaderScan(0, m, 0, lo, hi), c) == Expected(m, lo, hi, c)
  {
    var init := HeaderScan(0, m, 0, lo, hi);
    if c == [] {
      assert Sum8(c[0..]) == 0;
    } else {
      var p, b := c[..|c| - 1], c[|c| - 1];
      ScanBytesPrefix(m, lo, hi, p);
      var st := ScanBytes(init, p);
      var st' := HeaderByte(st, b);
      assert ScanBytes(init, c) == st';
      if st.recvPos == |p| {
        assert forall i :: 0 <= i < |p| ==> p[i] == c[i];
        var k := |p|;
        var start := if |c| < 4 then |c| else 4;
        if k >= 4 {
          assert c[start..] == p[start..] + [b];
          Sum8Snoc(p[start..], b);
        } else {
          assert c[start..] == [];
        }
        if st'.recvPos == |c| {
          assert HeaderByteOk(k, b);
        }
        if HeaderByteOk(k, b) {
          assert st'.recvPos == |c|;
        }
      } else {
        assert st'.recvPos < |c|;
        assert !(forall i :: 0 <= i < |p| ==> HeaderByteOk(i, c[i])) by {
          assert forall i :: 0 <= i < |p| ==> p[i] == c[i];
        }
      }
    }
  }

  /** A whole chunk is accepted exactly when it is a scan header; the
      accepted state holds the address, the checksum of the address, type
      and length bytes, and the length or-ed into what was there before. */
  lemma ChunkAccepted(m: byte, lo: byte, hi: byte, c: seq<byte>)
    requires |c| == HeaderSize
    ensures var st := ScanBytes(HeaderScan(0, m, 0, lo, hi), c);
            (st.recvPos == HeaderSize <==> IsScanHeader(c)) &&
            (st.recvPos == HeaderSize ==>
               st.moduleNum == c[4] && st.cal == Sum8(c[4..]) &&
               st.lensLo == OrByte(lo, c[6]) && st.lensHi == OrByte(hi, c[7]))
  {
    ScanBytesPrefix(m, lo, hi, c);
    assert IsScanHeader(c) <==> forall i :: 0 <= i < |c| ==> HeaderByteOk(i, c[i]) by {
      if !IsScanHeader(c) {
        assert !HeaderByteOk(0, c[0]) || !HeaderByteOk(1, c[1]) || !HeaderByteOk(2, c[2]) ||
               !HeaderByteOk(3, c[3]) || !HeaderByteOk(5, c[5]);
      }
    }
  }

  /** The 8-byte chunk number `k` of `rx`. */
  function Chunk(rx: seq<byte>, k: nat): seq<byte>
    requires HeaderSize * k + HeaderSize <= |rx|
  {
    rx[HeaderSize * k..HeaderSize * k + HeaderSize]
  }

  /** What the header phase ends with. */
  datatype HeaderOutcome =
    | HeaderTimeout(moduleNum: byte, rest: seq<byte>)
    | HeaderFound(header: seq<byte>, moduleNum: byte, cal: byte, lens: u16, rest: seq<byte>)

  /** The header phase. When `carry` holds the length octets go on from one
      chunk to the next, as `sample_lens` does in the code; when it does not
      they start cleared for every chunk. */
  function HeaderPhase(rx: seq<byte>, m: byte, lo: byte, hi: byte, carry: bool): HeaderOutcome
    decreases |rx|
  {
    if |rx| < HeaderSize then HeaderTimeout(m, rx)
    else
      var st := ScanBytes(HeaderScan(0, m, 0, lo, hi), rx[..HeaderSize]);
      if st.recvPos == HeaderSize then
        HeaderFound(rx[..HeaderSize], st.moduleNum, st.cal, LE16(st.lensLo, st.lensHi), rx[HeaderSize..])
      else if carry then HeaderPhase(rx[HeaderSize..], st.moduleNum, st.lensLo, st.lensHi, carry)
      else HeaderPhase(rx[HeaderSize..], st.moduleNum, 0, 0, carry)
  }

  /** The header phase as intended: each chunk is judged on its own. */
  function FindHeader(rx: seq<byte>, m: byte): HeaderOutcome
  {
    HeaderPhase(rx, m, 0, 0, false)
  }

  /** The header phase as the code is written: `sample_lens` is declared
      once per call and never cleared when a chunk is dropped. */
  function FindHeaderAsWritten(rx: seq<byte>, m: byte): HeaderOutcome
  {
    HeaderPhase(rx, m, 0, 0, true)
  }

  /** `s` is made of whole 8-byte chunks none of which is a scan header:
      what the header phase drops before it finds a header or gives up. */
  predicate Skipped(s: seq<byte>)
    decreases |s|
  {
    |s| == 0 || (|s| >= HeaderSize && !IsScanHeader(s[..HeaderSize]) && Skipped(s[HeaderSize..]))
  }

  /** Skipped bytes are a whole number of chunks and none of those chunks is
      a scan header. */
  lemma {:induction false} SkippedChunks(s: seq<byte>, j: nat)
    requires Skipped(s)
    ensures |s| % HeaderSize == 0
    ensures HeaderSize * j + HeaderSize <= |s| ==> !IsScanHeader(Chunk(s, j))
    decreases |s|
  {
    if |s| > 0 {
      var j' := if j == 0 then 0 else j - 1;
      SkippedChunks(s[HeaderSize..], j');
      if j > 0 && HeaderSize * j + HeaderSize <= |s| {
        assert Chunk(s, j) == Chunk(s[HeaderSize..], j - 1);
      }
    }
  }

  /** What the intended header phase promises about `rx`: a found header is
      the first chunk after a run of skipped chunks, with its fields, and
      the stream goes on right after it; a timeout skipped every whole chunk
      and leaves fewer than eight bytes. */
  predicate FoundSpec(rx: seq<byte>, o: HeaderOutcome)
  {
    match o
    case HeaderFound(h, m', cal, lens, rest) =>
      |rest| + HeaderSize <= |rx| &&
      Skipped(rx[..|rx| - |rest| - HeaderSize]) &&
      h == rx[|rx| - |rest| - HeaderSize..|rx| - |rest|] && rest == rx[|rx| - |rest|..] &&
      IsScanHeader(h) && m' == h[4] && cal == Sum8(h[4..]) && lens == LE16(h[6], h[7])
    case HeaderTimeout(m', rest) =>
      |rest| < HeaderSize && |rest| <= |rx| && Skipped(rx[..|rx| - |rest|]) && rest == rx[|rx| - |rest|..]
  }

  /** A dropped first chunk: what holds of the rest holds of the whole. */
  lemma FoundSpecLifts(rx: seq<byte>, o: HeaderOutcome)
    requires |rx| >= HeaderSize && !IsScanHeader(rx[..HeaderSize])
    requires FoundSpec(rx[HeaderSize..], o)
    ensures FoundSpec(rx, o)
  {
    var tail := rx[HeaderSize..];
    match o
    case HeaderFound(h, m', cal, lens, rest) =>
      var cut := |rx| - |rest| - HeaderSize;
      SkipOne(rx, cut);
      assert tail[|tail| - |rest|..] == rx[|rx| - |rest|..];
      assert tail[cut - HeaderSize..|tail| - |rest|] == rx[cut..|rx| - |rest|];
    case HeaderTimeout(m', rest) =>
      SkipOne(rx, |rx| - |rest|);
      assert tail[|tail| - |rest|..] == rx[|rx| - |rest|..];
  }

  /** Dropping a non-header first chunk in front of skipped chunks. */
  lemma SkipOne(rx: seq<byte>, cut: nat)
    requires HeaderSize <= cut <= |rx| && !IsScanHeader(rx[..HeaderSize])
    requires Skipped(rx[HeaderSize..][..cut - HeaderSize])
    ensures Skipped(rx[..cut])
  {
    assert rx[..cut][..HeaderSize] == rx[..HeaderSize];
    assert rx[..cut][HeaderSize..] == rx[HeaderSize..][..cut - HeaderSize];
  }

  /** The intended header phase finds the first chunk that is a scan header,
      reports its fields and leaves the bytes after it; it times out exactly
      when no chunk is a scan header, leaving fewer than eight bytes. */
  lemma {:induction false} FindHeaderSpec(rx: seq<byte>, m: byte)
    ensures FoundSpec(rx, FindHeader(rx, m))
    decreases |rx|
  {
    if |rx| >= HeaderSize {
      var c := rx[..HeaderSize];
      ChunkAccepted(m, 0, 0, c);
      OrBitsZero(rx[6], 8);
      OrBitsZero(rx[7], 8);
      var st := ScanBytes(HeaderScan(0, m, 0, 0, 0), c);
      if st.recvPos != HeaderSize {
        var tail := rx[HeaderSize..];
        FindHeaderSpec(tail, st.moduleNum);
        assert FindHeader(rx, m) == FindHeader(tail, st.moduleNum);
        FoundSpecLifts(rx, FindHeader(tail, st.moduleNum));
      } else {
        assert rx[..|rx| - |rx[HeaderSize..]| - HeaderSize] == [];
      }
    } else {
      assert rx[..|rx| - |rx|] == [];
    }
  }

  /** A scan header at the head of the stream is found at once. */
  lemma HeaderAtHead(rx: seq<byte>, m: byte)
    requires |rx| >= HeaderSize && IsScanHeader(rx[..HeaderSize])
    ensures FindHeader(rx, m) ==
            HeaderFound(rx[..HeaderSize], rx[4], Sum8(rx[4..HeaderSize]), LE16(rx[6], rx[7]), rx[HeaderSize..])
    ensures FindHeaderAsWritten(rx, m) == FindHeader(rx, m)
  {
    var c := rx[..HeaderSize];
    ChunkAccepted(m, 0, 0, c);
    OrBitsZero(rx[6], 8);
    OrBitsZero(rx[7], 8);
    assert c[4..] == rx[4..HeaderSize];
  }

  /** A chunk that starts with a stray byte and then carries seven bytes of
      a header is dropped, but by then its last byte has been or-ed into the
      low length octet. */
  lemma DroppedChunkLeavesLength(m: byte, d: byte, a: byte, l: byte)
    requires d != AnsSyncByte
    ensures var S := AnsSyncByte;
            var st := ScanBytes(HeaderScan(0, m, 0, 0, 0), [d, S, S, S, S, a, AnsScan, l]);
            st.recvPos == 7 && st.moduleNum == a && st.lensLo == l && st.lensHi == 0
  {
    var S := AnsSyncByte;
    var c := [d, S, S, S, S, a, AnsScan, l];
    var i0 := HeaderScan(0, m, 0, 0, 0);
    var one := c[..1];
    assert one == [d];
    assert one[..|one| - 1] == [];
    assert ScanBytes(i0, one) == HeaderByte(i0, d) == i0;
    var more := c[1..];
    ScanBytesPrefix(m, 0, 0, more);
    assert forall i :: 0 <= i < 7 ==> HeaderByteOk(i, more[i]);
    ScanBytesShift(i0, one, more);
    assert one + more == c;
    OrBitsZero(l, 8);
  }

  /** The length a header announces depends on what came before it in the
      code as written: after a dropped chunk ending in `l`, a header
      announcing `n` bytes is read with `l` or-ed into the low octet of
      `n`. Judged on its own the same header gives `n`. */
  lemma StaleLengthBits(m: byte, d: byte, a: byte, l: byte, n: u16)
    requires d != AnsSyncByte
    ensures var S := AnsSyncByte;
            var rx := [d, S, S, S, S, a, AnsScan, l] + ScanHeaderBytes(a, n);
            FindHeader(rx, m).HeaderFound? && FindHeader(rx, m).lens == n &&
            FindHeaderAsWritten(rx, m).HeaderFound? &&
            FindHeaderAsWritten(rx, m).lens == LE16(OrByte(l, Lo(n)), Hi(n))
  {
    var S := AnsSyncByte;
    var c1 := [d, S, S, S, S, a, AnsScan, l];
    var c2 := ScanHeaderBytes(a, n);
    var rx := c1 + c2;
    assert rx[..HeaderSize] == c1 && rx[HeaderSize..] == c2;
    DroppedChunkLeavesLength(m, d, a, l);
    assert |c2[HeaderSize..]| == 0;
    assert c2[..HeaderSize] == c2;
    assert IsScanHeader(c2);
    ChunkAccepted(a, 0, 0, c2);
    ChunkAccepted(a, l, 0, c2);
    OrBitsZero(Lo(n), 8);
    OrBitsZero(Hi(n), 8);
    LE16Split(n);
    var st0 := ScanBytes(HeaderScan(0, m, 0, 0, 0), c1);
    assert FindHeader(rx, m) == HeaderPhase(c2, a, 0, 0, false);
    assert FindHeaderAsWritten(rx, m) == HeaderPhase(c2, a, l, 0, true);
    var s1 := ScanBytes(HeaderScan(0, a, 0, 0, 0), c2);
    var s2 := ScanBytes(HeaderScan(0, a, 0, l, 0), c2);
    assert s1.lensLo == Lo(n) && s1.lensHi == Hi(n);
    assert s2.lensLo == OrByte(l, Lo(n)) && s2.lensHi == Hi(n);
    assert HeaderPhase(c2, a, 0, 0, false) == HeaderFound(c2, s1.moduleNum, s1.cal, LE16(Lo(n), Hi(n)), []);
    assert HeaderPhase(c2, a, l, 0, true) == HeaderFound(c2, s2.moduleNum, s2.cal, LE16(OrByte(l, Lo(n)), Hi(n)), []);
  }

  /** With a stray bit 0x01 left over, a header announcing 0x0142 bytes is
      read as announcing 0x0143. */
  lemma StaleLengthExample()
    ensures LE16(OrByte(0x01, Lo(0x0142)), Hi(0x0142)) == 0x0143
  {
    assert Lo(0x0142) == 0x42 && Hi(0x0142) == 0x01;
    assert OrByte(0x01, 0x42) == 0x43;
  }

  /** The length octets never steer the scanner: from two states that agree
      on position, address and checksum, the same bytes lead to states that
      agree on them again. */
  lemma {:induction false} ScanIgnoresLength(st1: HeaderScan, st2: HeaderScan, c: seq<byte>)
    requires st1.recvPos == st2.recvPos && st1.moduleNum == st2.moduleNum && st1.cal == st2.cal
    ensures ScanBytes(st1, c).recvPos == ScanBytes(st2, c).recvPos
    ensures ScanBytes(st1, c).moduleNum == ScanBytes(st2, c).moduleNum
    ensures ScanBytes(st1, c).cal == ScanBytes(st2, c).cal
    decreases |c|
  {
    if c != [] {
      ScanIgnoresLength(st1, st2, c[..|c| - 1]);
    }
  }

  /** The header phase as written and as intended drop the same chunks and
      find the same header, with the same address and checksum seed, and
      leave the same bytes; they can differ only in the length reported. */
  lemma {:induction false} AsWrittenFindsSameHeader(rx: seq<byte>, m: byte, lo: byte, hi: byte)
    ensures HeaderPhase(rx, m, lo, hi, true).HeaderFound? == HeaderPhase(rx, m, 0, 0, false).HeaderFound?
    ensures HeaderPhase(rx, m, lo, hi, true).moduleNum == HeaderPhase(rx, m, 0, 0, false).moduleNum
    ensures HeaderPhase(rx, m, lo, hi, true).rest == HeaderPhase(rx, m, 0, 0, false).rest
    ensures HeaderPhase(rx, m, lo, hi, true).HeaderFound? ==>
              HeaderPhase(rx, m, lo, hi, true).header == HeaderPhase(rx, m, 0, 0, false).header &&
              HeaderPhase(rx, m, lo, hi, true).cal == HeaderPhase(rx, m, 0, 0, false).cal
    decreases |rx|
  {
    if |rx| >= HeaderSize {
      var c := rx[..HeaderSize];
      ScanIgnoresLength(HeaderScan(0, m, 0, lo, hi), HeaderScan(0, m, 0, 0, 0), c);
      var a := ScanBytes(HeaderScan(0, m, 0, lo, hi), c);
      if a.recvPos != HeaderSize {
        AsWrittenFindsSameHeader(rx[HeaderSize..], a.moduleNum, a.lensLo, a.lensHi);
      }
    }
  }

  /** Bytes that leave the scanner where it started can be put in front. */
  lemma {:induction false} ScanBytesShift(st: HeaderScan, a: seq<byte>, b: seq<byte>)
    requires ScanBytes(st, a) == st
    ensures ScanBytes(st, a + b) == ScanBytes(st, b)
    decreases |b|
  {
    if b == [] {
      assert a + b == a;
    } else {
      assert (a + b)[..|a + b| - 1] == a + b[..|b| - 1];
      ScanBytesShift(st, a, b[..|b| - 1]);
    }
  }

  /** What `waitPackage` ends its frame read with. */
  datatype FrameOutcome =
    | FrameFail(res: ResultCode, moduleNum: byte, rest: seq<byte>)
    | FrameOk(frame: seq<byte>, moduleNum: byte, checksumOk: bool, rest: seq<byte>)

  /** The payload phase after a header: `sample_lens + 1` bytes (truncated to
      16 bits), all but the last added to the checksum, the last compared
      with it. A length of 0xFFFF makes the byte count zero, on which the
      code's loop bound `recvSize - 1` wraps; the model fails the read. */
  function PayloadPhase(o: HeaderOutcome): FrameOutcome
  {
    match o
    case HeaderTimeout(m, rest) => FrameFail(Timeout, m, rest)
    case HeaderFound(h, m, cal, lens, rest) =>
      var n := Inc16(lens);
      if n == 0 then FrameFail(Fail, m, rest)
      else if |rest| < n then FrameFail(Timeout, m, rest)
      else
        var p := rest[..n];
        FrameOk(h + p, m, (cal + Sum8(p[..n - 1])) % 256 == p[n - 1], rest[n..])
  }

  /** A whole frame read from the stream `rx`, the module address before
      the read being `m`. */
  function ReadFrame(rx: seq<byte>, m: byte): FrameOutcome
  {
    PayloadPhase(FindHeader(rx, m))
  }

  /** The frame read as the code is written, with the length octets carried
      over dropped chunks. */
  function ReadFrameAsWritten(rx: seq<byte>, m: byte): FrameOutcome
  {
    PayloadPhase(FindHeaderAsWritten(rx, m))
  }

  /** A frame as it is accepted: a scan header, exactly the announced
      number of bytes plus the checksum byte, and the checksum verdict
      `ok`. */
  predicate FrameBytes(f: seq<byte>, m': byte, ok: bool)
  {
    HeaderSize + 1 <= |f| && IsScanHeader(f[..HeaderSize]) &&
    |f| == HeaderSize + LE16(f[6], f[7]) + 1 && m' == f[4] &&
    (ok <==> Sum8(f[4..|f| - 1]) == f[|f| - 1])
  }

  /** The frame `f` sits in `rx` right after a run of skipped chunks, and
      `rest` follows it. */
  predicate FramePlaced(rx: seq<byte>, f: seq<byte>, rest: seq<byte>)
  {
    |f| + |rest| <= |rx| && Skipped(rx[..|rx| - |f| - |rest|]) &&
    rx[|rx| - |f| - |rest|..] == f + rest
  }

  /** The frame an accepted header and its payload make up. */
  predicate FrameShape(rx: seq<byte>, f: seq<byte>, m': byte, ok: bool, rest: seq<byte>)
  {
    FrameBytes(f, m', ok) && FramePlaced(rx, f, rest)
  }

  lemma PayloadPhaseShape(rx: seq<byte>, h: seq<byte>, m': byte, cal: byte, rest: seq<byte>)
    requires |h| == HeaderSize
    requires FoundSpec(rx, HeaderFound(h, m', cal, LE16(h[6], h[7]), rest))
    ensures var o := PayloadPhase(HeaderFound(h, m', cal, LE16(h[6], h[7]), rest));
            o.FrameOk? ==> FrameShape(rx, o.frame, o.moduleNum, o.checksumOk, o.rest)
  {
    PayloadBytes(h, m', cal, rest);
    var o := PayloadPhase(HeaderFound(h, m', cal, LE16(h[6], h[7]), rest));
    if o.FrameOk? {
      PlacedFrame(rx, h, rest, |o.frame| - HeaderSize);
    }
  }

  /** What the payload phase accepts after a scan header: a frame made of
      the header and the first `lens + 1` bytes after it. */
  lemma PayloadBytes(h: seq<byte>, m': byte, cal: byte, rest: seq<byte>)
    requires |h| == HeaderSize && IsScanHeader(h) && m' == h[4] && cal == Sum8(h[4..])
    ensures var o := PayloadPhase(HeaderFound(h, m', cal, LE16(h[6], h[7]), rest));
            o.FrameOk? ==> FrameBytes(o.frame, o.moduleNum, o.checksumOk) &&
                           |o.frame| - HeaderSize <= |rest| &&
                           o.frame == h + rest[..|o.frame| - HeaderSize] && o.rest == rest[|o.frame| - HeaderSize..]
  {
    var lens := LE16(h[6], h[7]);
    var n := Inc16(lens);
    if n != 0 && |rest| >= n {
      var p, r' := rest[..n], rest[n..];
      var ok := (cal + Sum8(p[..n - 1])) % 256 == p[n - 1];
      assert PayloadPhase(HeaderFound(h, m', cal, lens, rest)) == FrameOk(h + p, m', ok, r');
      FrameParts(h, p, n, cal, ok);
    }
  }

  /** A scan header and `lens + 1` payload bytes form a frame with the
      checksum verdict the payload phase computes. */
  lemma FrameParts(h: seq<byte>, p: seq<byte>, n: nat, cal: byte, ok: bool)
    requires IsScanHeader(h) && cal == Sum8(h[4..]) && |p| == n == LE16(h[6], h[7]) + 1
    requires ok == ((cal + Sum8(p[..n - 1])) % 256 == p[n - 1])
    ensures FrameBytes(h + p, h[4], ok)
  {
    var f := h + p;
    assert f[..HeaderSize] == h;
    assert f[6] == h[6] && f[7] == h[7];
    assert f[|f| - 1] == p[n - 1];
    SliceAcross(h, p, 4, n - 1);
    Sum8Append(h[4..], p[..n - 1]);
  }

  /** A slice that starts in `a` and ends in `b`. */
  lemma SliceAcross<T>(a: seq<T>, b: seq<T>, i: nat, j: nat)
    requires i <= |a| && j <= |b|
    ensures (a + b)[i..|a| + j] == a[i..] + b[..j]
  {
    var l, r := (a + b)[i..|a| + j], a[i..] + b[..j];
    assert |l| == |r|;
    forall k | 0 <= k < |l| ensures l[k] == r[k] {
      if k < |a| - i {
        assert l[k] == a[i + k];
      } else {
        assert l[k] == b[k - (|a| - i)];
      }
    }
  }

  /** The frame sits right after the skipped chunks. */
  lemma PlacedFrame(rx: seq<byte>, h: seq<byte>, rest: seq<byte>, n: nat)
    requires |rest| + HeaderSize <= |rx| && |h| == HeaderSize && n <= |rest|
    requires Skipped(rx[..|rx| - |rest| - HeaderSize])
    requires h == rx[|rx| - |rest| - HeaderSize..|rx| - |rest|] && rest == rx[|rx| - |rest|..]
    ensures FramePlaced(rx, h + rest[..n], rest[n..])
  {
    var f := h + rest[..n];
    assert |rx| - |f| - |rest[n..]| == |rx| - |rest| - HeaderSize;
    assert rest == rest[..n] + rest[n..];
    assert rx[|rx| - |rest| - HeaderSize..] == h + rest;
  }

  /** An accepted frame is a scan header followed by exactly the announced
      number of bytes plus the checksum; the checksum verdict is whether
      the last byte is the 8-bit sum of every byte from the address on; the
      frame sits in the stream right before what is left, after a run of
      skipped chunks. A failed read reports a failure. */
  lemma ReadFrameSpec(rx: seq<byte>, m: byte)
    ensures match ReadFrame(rx, m)
      case FrameOk(f, m', ok, rest) => FrameShape(rx, f, m', ok, rest)
      case FrameFail(res, m', rest) => res != Ok
  {
    FindHeaderSpec(rx, m);
    match FindHeader(rx, m)
    case HeaderTimeout(_, _) =>
    case HeaderFound(h, m', cal, lens, rest) =>
      PayloadPhaseShape(rx, h, m', cal, rest);
  }

  /** The header a module sends before a payload of `n` bytes. */
  function ScanHeaderBytes(addr: byte, n: u16): seq<byte>
  {
    [AnsSyncByte, AnsSyncByte, AnsSyncByte, AnsSyncByte, addr, AnsScan, Lo(n), Hi(n)]
  }

  /** The frame a module sends for a payload `body` (samples and environment
      bytes, without the checksum). */
  function ScanFrameBytes(addr: byte, body: seq<byte>): (f: seq<byte>)
    requires |body| < 0xFFFF
    ensures |f| == HeaderSize + |body| + 1
  {
    var h := ScanHeaderBytes(addr, |body|);
    h + body + [Sum8(h[4..] + body)]
  }

  /** Reading a frame whose header is at the head of the stream and whose
      payload is `body` followed by the byte `crc`. */
  lemma ReadFrameAtHead(addr: byte, body: seq<byte>, crc: byte, rest: seq<byte>, m: byte)
    requires |body| < 0xFFFF
    ensures var h := ScanHeaderBytes(addr, |body|);
            ReadFrame(h + body + [crc] + rest, m) ==
            FrameOk(h + body + [crc], addr, Sum8(h[4..] + body) == crc, rest)
  {
    var h := ScanHeaderBytes(addr, |body|);
    var rx := h + body + [crc] + rest;
    assert rx[..HeaderSize] == h;
    assert IsScanHeader(h);
    HeaderAtHead(rx, m);
    LE16Split(|body|);
    assert rx[4] == addr && rx[6] == Lo(|body|) && rx[7] == Hi(|body|);
    assert rx[4..HeaderSize] == h[4..];
    var tail := rx[HeaderSize..];
    assert tail == body + [crc] + rest;
    var n := |body| + 1;
    assert Inc16(LE16(rx[6], rx[7])) == n;
    var p := tail[..n];
    assert p == body + [crc];
    assert p[..n - 1] == body && p[n - 1] == crc;
    assert h + p == h + body + [crc];
    assert tail[n..] == rest;
    Sum8Append(h[4..], body);
    assert (Sum8(h[4..]) + Sum8(body)) % 256 == Sum8(h[4..] + body);
  }

  /** Every well-formed frame at the head of the stream is read back whole,
      with its address and a passing checksum, leaving the bytes after it. */
  lemma ReadFrameRoundTrip(addr: byte, body: seq<byte>, rest: seq<byte>, m: byte)
    requires |body| < 0xFFFF
    ensures ReadFrame(ScanFrameBytes(addr, body) + rest, m) == FrameOk(ScanFrameBytes(addr, body), addr, true, rest)
    ensures ReadFrameAsWritten(ScanFrameBytes(addr, body) + rest, m) == ReadFrame(ScanFrameBytes(addr, body) + rest, m)
  {
    var h := ScanHeaderBytes(addr, |body|);
    ReadFrameAtHead(addr, body, Sum8(h[4..] + body), rest, m);
    var rx := ScanFrameBytes(addr, body) + rest;
    assert rx[..HeaderSize] == h;
    assert IsScanHeader(h);
    HeaderAtHead(rx, m);
  }

  /** A frame with exactly one corrupted payload byte is still read, but
      its checksum fails. */
  lemma CorruptedPayloadDetected(addr: byte, body: seq<byte>, i: nat, x: byte, rest: seq<byte>, m: byte)
    requires |body| < 0xFFFF && i < |body| && x != body[i]
    ensures var f := ScanFrameBytes(addr, body);
            var g := f[HeaderSize + i := x];
            ReadFrame(g + rest, m).FrameOk? && !ReadFrame(g + rest, m).checksumOk
  {
    var h := ScanHeaderBytes(addr, |body|);
    var crc := Sum8(h[4..] + body);
    var f := ScanFrameBytes(addr, body);
    var g := f[HeaderSize + i := x];
    assert g == h + body[i := x] + [crc];
    ReadFrameAtHead(addr, body[i := x], crc, rest, m);
    SingleByteChangeDetected(h[4..] + body, h[4..] + body[i := x], 4 + i);
  }
}
