/** The validation of one parameter answer in `getDevicePara`
    (src/ydlidar_driver.cpp): after an answer header the device sends its
    calibration record `gs_device_para`, which ends in an 8-bit checksum over
    the header's address, type and length bytes and the record bytes. The
    layout of the record is not part of this model; it is taken as four
    little-endian 16-bit coefficients, a bias byte and the checksum byte. */
module DevicePara {
  import opened Bytes
  import opened Protocol
  import opened AnswerHeader

  /** `sizeof(gs_device_para)`. */
  const ParaSize: nat := 10

  /** `gs_device_para`. */
  datatype Para = Para(k0: u16, k1: u16, b0: u16, b1: u16, bias: byte, crc: byte)

  function ParaOf(r: seq<byte>): Para
    requires |r| == ParaSize
  {
    Para(LE16(r[0], r[1]), LE16(r[2], r[3]), LE16(r[4], r[5]), LE16(r[6], r[7]), r[8], r[9])
  }

  /** The record as it lies in memory. */
  function ParaBytes(p: Para): (r: seq<byte>)
    ensures |r| == ParaSize
  {
    [Lo(p.k0), Hi(p.k0), Lo(p.k1), Hi(p.k1), Lo(p.b0), Hi(p.b0), Lo(p.b1), Hi(p.b1), p.bias, p.crc]
  }

  lemma ParaBytesRoundTrip(p: Para)
    ensures ParaOf(ParaBytes(p)) == p
  {
    LE16Split(p.k0);
    LE16Split(p.k1);
    LE16Split(p.b0);
    LE16Split(p.b1);
  }

  lemma ParaOfRoundTrip(r: seq<byte>)
    requires |r| == ParaSize
    ensures ParaBytes(ParaOf(r)) == r
  {
    LE16Parts(r[0], r[1]);
    LE16Parts(r[2], r[3]);
    LE16Parts(r[4], r[5]);
    LE16Parts(r[6], r[7]);
  }

  /** The first `n` bytes from the start of the record: the record itself,
      then whatever memory follows it (`past`), which the checksum loop reads
      when the announced size exceeds the record. */
  function Memory(record: seq<byte>, past: nat -> byte, n: nat): (m: seq<byte>)
    requires |record| == ParaSize
    ensures |m| == n
    ensures forall j :: 0 <= j < n && j < ParaSize ==> m[j] == record[j]
  {
    if n <= ParaSize then record[..n]
    else record + seq(n - ParaSize, i requires 0 <= i => past(i))
  }

  /** The byte the checksum loop reads at offset `j` of the record. */
  function MemoryAt(record: seq<byte>, past: nat -> byte, j: nat): byte
    requires |record| == ParaSize
  {
    if j < ParaSize then record[j] else past(j - ParaSize)
  }

  /** Reading one more byte extends the memory read so far by `MemoryAt`. */
  lemma MemorySnoc(record: seq<byte>, past: nat -> byte, n: nat)
    requires |record| == ParaSize
    ensures Memory(record, past, n + 1) == Memory(record, past, n) + [MemoryAt(record, past, n)]
  {
    if n + 1 <= ParaSize {
      assert record[..n + 1] == record[..n] + [record[n]];
    } else if n == ParaSize {
      assert record[..n] == record;
    } else {
      var t := seq(n + 1 - ParaSize, i requires 0 <= i => past(i));
      assert t == seq(n - ParaSize, i requires 0 <= i => past(i)) + [past(n - ParaSize)];
    }
  }

  /** One more byte read by the checksum loop. */
  lemma SumStep(pre: seq<byte>, record: seq<byte>, past: nat -> byte, n: nat)
    requires |record| == ParaSize
    ensures Sum8(pre + Memory(record, past, n + 1)) ==
            (Sum8(pre + Memory(record, past, n)) + MemoryAt(record, past, n)) % 256
  {
    MemorySnoc(record, past, n);
    assert pre + Memory(record, past, n + 1) == (pre + Memory(record, past, n)) + [MemoryAt(record, past, n)];
    Sum8Snoc(pre + Memory(record, past, n), MemoryAt(record, past, n));
  }

  /** The checksum `crcSum` accumulates over a record read as `record`. */
  function ParaChecksum(h: AnsHeader, record: seq<byte>, past: nat -> byte): byte
    requires |record| == ParaSize
  {
    Sum8([h.address, h.kind, Lo(h.size), Hi(h.size)] + Memory(record, past, h.size))
  }

  /** The module a parameter answer belongs to, `address >> 1`. */
  function ModuleOf(address: byte): nat { address / 2 }

  datatype ParaOutcome = ParaFail | ParaOk(moduleIndex: nat, para: Para, rest: seq<byte>)

  /** One pass of the loop body of `getDevicePara` after its answer header
      `h` was found, on the bytes `rx` that follow the header. The answer is
      refused when its type is not the parameter query, when it announces
      fewer bytes than the record minus its checksum, when fewer than
      `size + 1` bytes arrive, when the checksum does not match the record's
      last byte, or when the module index is above 2. An accepted answer
      consumes exactly one record. */
  function CheckPara(h: AnsHeader, rx: seq<byte>, past: nat -> byte): (r: ParaOutcome)
    ensures r.ParaOk? <==>
              h.kind == CmdGetParameter && h.size >= ParaSize - 1 && |rx| >= h.size + 1 &&
              ParaChecksum(h, rx[..ParaSize], past) == rx[ParaSize - 1] &&
              ModuleOf(h.address) <= 2
    ensures r.ParaOk? ==>
              r.moduleIndex <= 2 && r.moduleIndex == ModuleOf(h.address) &&
              r.para == ParaOf(rx[..ParaSize]) && rx == ParaBytes(r.para) + r.rest
  {
    if h.kind != CmdGetParameter then ParaFail
    else if h.size < ParaSize - 1 then ParaFail
    else if |rx| < h.size + 1 then ParaFail
    else
      var record := rx[..ParaSize];
      var info := ParaOf(record);
      if ParaChecksum(h, record, past) != info.crc then ParaFail
      else if ModuleOf(h.address) > 2 then ParaFail
      else
        ParaOfRoundTrip(record);
        assert rx == record + rx[ParaSize..];
        ParaOk(ModuleOf(h.address), info, rx[ParaSize..])
  }

  /** The header a module puts in front of its record. */
  function ParaHeaderBytes(address: byte): seq<byte>
  {
    [AnsSyncByte, AnsSyncByte, AnsSyncByte, AnsSyncByte, address, CmdGetParameter, Lo(ParaSize - 1), Hi(ParaSize - 1)]
  }

  /** The checksum a module computes for its record. */
  function SealedPara(address: byte, p: Para): Para
  {
    p.(crc := Sum8([address, CmdGetParameter, Lo(ParaSize - 1), Hi(ParaSize - 1)] + ParaBytes(p)[..ParaSize - 1]))
  }

  /** The full answer of a module: header and sealed record. */
  function ParaAnswer(address: byte, p: Para): seq<byte>
  {
    ParaHeaderBytes(address) + ParaBytes(SealedPara(address, p))
  }

  /** A sealed record behind a parameter header with the record's size is
      accepted. */
  lemma SealedAccepted(address: byte, p: Para, rest: seq<byte>, past: nat -> byte)
    requires ModuleOf(address) <= 2
    ensures CheckPara(AnsHeader(address, CmdGetParameter, ParaSize - 1), ParaBytes(SealedPara(address, p)) + rest, past)
            == ParaOk(ModuleOf(address), SealedPara(address, p), rest)
  {
    var h := AnsHeader(address, CmdGetParameter, ParaSize - 1);
    var sp := SealedPara(address, p);
    var body := ParaBytes(sp);
    var rx := body + rest;
    assert rx[..ParaSize] == body;
    ParaBytesRoundTrip(sp);
    assert Memory(body, past, h.size) == body[..ParaSize - 1];
    assert ParaBytes(p)[..ParaSize - 1] == body[..ParaSize - 1];
    assert rx[ParaSize..] == rest;
  }

  /** A well-formed answer from a module with address below 6 is found by
      the header search and accepted, giving back the record and the module
      `address >> 1`, whatever follows it on the line. */
  lemma ParaRoundTrip(address: byte, p: Para, rest: seq<byte>, past: nat -> byte)
    requires ModuleOf(address) <= 2
    ensures HeaderIn(ParaAnswer(address, p) + rest)
    ensures FirstMarker(ParaAnswer(address, p) + rest) == Some(0)
    ensures Fields((ParaAnswer(address, p) + rest)[..HeaderSize]) == AnsHeader(address, CmdGetParameter, ParaSize - 1)
    ensures CheckPara(Fields((ParaAnswer(address, p) + rest)[..HeaderSize]),
                      (ParaAnswer(address, p) + rest)[HeaderSize..], past)
            == ParaOk(ModuleOf(address), SealedPara(address, p), rest)
  {
    var hb := ParaHeaderBytes(address);
    var tail := ParaBytes(SealedPara(address, p)) + rest;
    var s := ParaAnswer(address, p) + rest;
    assert s == [] + hb + tail;
    HeaderAfterNoise([], hb, tail);
    assert s[..HeaderSize] == hb;
    assert Fields(hb) == AnsHeader(address, CmdGetParameter, ParaSize - 1);
    assert s[HeaderSize..] == tail;
    SealedAccepted(address, p, rest, past);
  }

  /** The checksum covers the address: the same record sent with a different
      address byte in its header is refused. */
  lemma AddressIsSummed(h: AnsHeader, a: byte, rx: seq<byte>, past: nat -> byte)
    requires CheckPara(h, rx, past).ParaOk?
    requires a != h.address
    ensures CheckPara(h.(address := a), rx, past).ParaFail?
  {
    var g := h.(address := a);
    var tail := [h.kind, Lo(h.size), Hi(h.size)] + Memory(rx[..ParaSize], past, h.size);
    assert [h.address, h.kind, Lo(h.size), Hi(h.size)] + Memory(rx[..ParaSize], past, h.size) == [h.address] + tail;
    assert [g.address, g.kind, Lo(g.size), Hi(g.size)] + Memory(rx[..ParaSize], past, g.size) == [a] + tail;
    SingleByteChangeDetected([h.address] + tail, [a] + tail, 0);
  }

  /** A single corrupted byte among the checksummed record bytes is
      refused. */
  lemma CorruptedRecordRefused(h: AnsHeader, rx: seq<byte>, k: nat, x: byte, past: nat -> byte)
    requires CheckPara(h, rx, past).ParaOk?
    requires h.size == ParaSize - 1
    requires k < ParaSize - 1 && x != rx[k]
    ensures CheckPara(h, rx[k := x], past).ParaFail?
  {
    var ry := rx[k := x];
    var pre := [h.address, h.kind, Lo(h.size), Hi(h.size)];
    var mx := Memory(rx[..ParaSize], past, h.size);
    var my := Memory(ry[..ParaSize], past, h.size);
    assert mx == rx[..ParaSize - 1];
    assert my == ry[..ParaSize - 1];
    SingleByteChangeDetected(pre + mx, pre + my, 4 + k);
    assert ry[ParaSize - 1] == rx[ParaSize - 1];
  }

  /** `PackageMaxModuleNums`, the number of answers `getDevicePara` reads;
      the definition is not part of this model and the value is
      representative (one answer per module index 0-2). */
  const MaxModules: nat := 3

  /** The result of reading one answer: the search for its header
      (`waitResponseHeader`) times out, or the answer is checked. */
  datatype ParaRead = ParaRead(res: ResultCode, outcome: ParaOutcome)

  /** One answer read off the line `rx`: a timeout when the line holds no
      header, otherwise the check of the bytes after the first header. */
  function ReadPara(rx: seq<byte>, past: nat -> byte): (r: ParaRead)
    ensures r.res == Timeout <==> !HeaderIn(rx)
    ensures r.res == Ok <==> r.outcome.ParaOk?
  {
    if !HeaderIn(rx) then ParaRead(Timeout, ParaFail)
    else
      var p := FirstMarker(rx).value;
      var o := CheckPara(Fields(rx[p..p + HeaderSize]), rx[p + HeaderSize..], past);
      ParaRead(if o.ParaOk? then Ok else Fail, o)
  }

  /** What a run of answers leaves: the result, the records stored per
      module index, and (after a successful run) the rest of the line. */
  datatype ParaRun = ParaRun(res: ResultCode, stored: map<nat, Para>, rest: seq<byte>)

  /** `n` more answers read into `stored`; the first failing answer ends
      the run with its result and keeps what was stored before it. */
  function ReadParas(rx: seq<byte>, past: nat -> byte, n: nat, stored: map<nat, Para>): (r: ParaRun)
    decreases n
  {
    if n == 0 then ParaRun(Ok, stored, rx)
    else
      var a := ReadPara(rx, past);
      match a.outcome
      case ParaFail => ParaRun(a.res, stored, rx)
      case ParaOk(m, q, rest) => ReadParas(rest, past, n - 1, stored[m := q])
  }

  /** Three well-formed answers in a row, from modules with index at most 2,
      are all accepted: each sealed record ends up stored under its module
      index (a later answer for the same index wins), and the line is left
      right after the third. */
  lemma ThreeAnswers(a0: byte, p0: Para, a1: byte, p1: Para, a2: byte, p2: Para,
                     rest: seq<byte>, past: nat -> byte, stored: map<nat, Para>)
    requires ModuleOf(a0) <= 2 && ModuleOf(a1) <= 2 && ModuleOf(a2) <= 2
    ensures ReadParas(ParaAnswer(a0, p0) + ParaAnswer(a1, p1) + ParaAnswer(a2, p2) + rest, past, MaxModules, stored) ==
            ParaRun(Ok, stored[ModuleOf(a0) := SealedPara(a0, p0)][ModuleOf(a1) := SealedPara(a1, p1)]
                              [ModuleOf(a2) := SealedPara(a2, p2)], rest)
  {
    var r2 := ParaAnswer(a2, p2) + rest;
    var r1 := ParaAnswer(a1, p1) + r2;
    var r0 := ParaAnswer(a0, p0) + r1;
    assert ParaAnswer(a0, p0) + ParaAnswer(a1, p1) + ParaAnswer(a2, p2) + rest == r0;
    AnswerRead(a0, p0, r1, past);
    AnswerRead(a1, p1, r2, past);
    AnswerRead(a2, p2, rest, past);
  }

  /** A well-formed answer at the head of the line is read in full. */
  lemma AnswerRead(address: byte, p: Para, rest: seq<byte>, past: nat -> byte)
    requires ModuleOf(address) <= 2
    ensures ReadPara(ParaAnswer(address, p) + rest, past) ==
            ParaRead(Ok, ParaOk(ModuleOf(address), SealedPara(address, p), rest))
  {
    ParaRoundTrip(address, p, rest, past);
  }
}
