/** Command frames sent by `sendCommand` (src/ydlidar_driver.cpp): four sync
    bytes, the module address, the command code, the 16-bit little-endian
    payload length, the payload and an 8-bit additive checksum over the
    command code, both length bytes and the payload (not the address). */
module Command {
  import opened Bytes
  import opened Protocol

  /** The header's length field, `0xffff & payloadsize`. */
  function SizeField(n: nat): u16 { n % 0x1_0000 }

  /** The checksum byte `sendCommand` accumulates: command code, low and
      high length byte, then every payload byte. */
  function CommandChecksum(cmd: byte, payload: seq<byte>): byte
  {
    var size := SizeField(|payload|);
    Sum8([cmd, Lo(size), Hi(size)] + payload)
  }

  /** The eight header bytes written first. */
  function CommandHeader(addr: byte, cmd: byte, n: nat): seq<byte>
  {
    var size := SizeField(n);
    [CmdSyncByte, CmdSyncByte, CmdSyncByte, CmdSyncByte, addr, cmd, Lo(size), Hi(size)]
  }

  /** The frame a command is meant to be: header, the whole payload and the
      checksum. The checksum byte is the 8-bit sum of every byte after the
      address, so the address never contributes to it. */
  function CommandFrame(addr: byte, cmd: byte, payload: seq<byte>): (f: seq<byte>)
    ensures |f| == HeaderSize + |payload| + 1
    ensures f[|f| - 1] == Sum8(f[5..|f| - 1])
  {
    var f := CommandHeader(addr, cmd, |payload|) + payload + [CommandChecksum(cmd, payload)];
    assert f[5..|f| - 1] == [cmd, Lo(SizeField(|payload|)), Hi(SizeField(|payload|))] + payload;
    f
  }

  /** The bytes `sendCommand` writes as the code stands: the payload is
      written with a `uint8_t` byte count, so only `payloadsize % 256` of its
      bytes go out, while the length field and the checksum cover them all. */
  function EmittedFrame(addr: byte, cmd: byte, payload: seq<byte>): seq<byte>
  {
    CommandHeader(addr, cmd, |payload|) + payload[..|payload| % 256] + [CommandChecksum(cmd, payload)]
  }

  /** A parsed command. */
  datatype Cmd = Cmd(addr: byte, cmd: byte, payload: seq<byte>)

  predicate SyncPrefix(f: seq<byte>)
    requires |f| >= 4
  {
    f[0] == CmdSyncByte && f[1] == CmdSyncByte && f[2] == CmdSyncByte && f[3] == CmdSyncByte
  }

  /** How a receiver reads a command frame back: sync bytes, a length field
      that matches the frame, and a checksum that matches. */
  function ParseCommandFrame(f: seq<byte>): Option<Cmd>
  {
    if |f| < HeaderSize + 1 || !SyncPrefix(f) then None
    else
      var n := LE16(f[6], f[7]);
      if |f| != HeaderSize + n + 1 then None
      else
        var payload := f[HeaderSize..HeaderSize + n];
        if Sum8([f[5], f[6], f[7]] + payload) != f[|f| - 1] then None
        else Some(Cmd(f[4], f[5], payload))
  }

  /** Every command with a payload the length field can express reads back
      unchanged from its frame. */
  lemma CommandFrameRoundTrip(addr: byte, cmd: byte, payload: seq<byte>)
    requires |payload| < 0x1_0000
    ensures ParseCommandFrame(CommandFrame(addr, cmd, payload)) == Some(Cmd(addr, cmd, payload))
  {
    var n := |payload|;
    var size := SizeField(n);
    var h := CommandHeader(addr, cmd, n);
    var c := CommandChecksum(cmd, payload);
    var f := CommandFrame(addr, cmd, payload);
    assert f == h + payload + [c];
    assert size == n;
    LE16Split(n);
    assert f[6] == Lo(size) && f[7] == Hi(size);
    assert f[HeaderSize..HeaderSize + n] == payload;
    assert f[|f| - 1] == c;
    assert [f[5], f[6], f[7]] + payload == [cmd, Lo(size), Hi(size)] + payload;
  }

  /** Conversely, every frame that parses is exactly the frame of what it
      parses to. */
  lemma ParseCommandFrameExact(f: seq<byte>)
    requires ParseCommandFrame(f).Some?
    ensures var c := ParseCommandFrame(f).value;
            f == CommandFrame(c.addr, c.cmd, c.payload)
  {
    var c := ParseCommandFrame(f).value;
    var n := LE16(f[6], f[7]);
    assert |c.payload| == n;
    assert SizeField(n) == n;
    assert Lo(n) == f[6] && Hi(n) == f[7];
    var g := CommandFrame(c.addr, c.cmd, c.payload);
    assert |g| == |f|;
    forall i | 0 <= i < |f| ensures f[i] == g[i] {
      if i < HeaderSize {
      } else if i < HeaderSize + n {
        assert g[i] == c.payload[i - HeaderSize];
      } else {
        assert i == |f| - 1;
      }
    }
  }

  /** The address never enters the checksum: two frames that differ only in
      their address carry the same checksum byte. */
  lemma ChecksumIgnoresAddress(a1: byte, a2: byte, cmd: byte, payload: seq<byte>)
    ensures var f1, f2 := CommandFrame(a1, cmd, payload), CommandFrame(a2, cmd, payload);
            f1[|f1| - 1] == f2[|f2| - 1] && f1[5..] == f2[5..]
  {
    var f1, f2 := CommandFrame(a1, cmd, payload), CommandFrame(a2, cmd, payload);
    assert f1[5..] == [cmd, Lo(SizeField(|payload|)), Hi(SizeField(|payload|))] + payload + [CommandChecksum(cmd, payload)];
    assert f2[5..] == [cmd, Lo(SizeField(|payload|)), Hi(SizeField(|payload|))] + payload + [CommandChecksum(cmd, payload)];
  }

  /** For payloads shorter than 256 bytes the written bytes are the intended
      frame. */
  lemma EmittedFrameShortPayload(addr: byte, cmd: byte, payload: seq<byte>)
    requires |payload| < 256
    ensures EmittedFrame(addr, cmd, payload) == CommandFrame(addr, cmd, payload)
  {
    assert payload[..|payload| % 256] == payload;
  }

  /** A 256-byte payload: the length field announces 256 bytes, none of them
      is written, and what goes out does not parse as a command. */
  lemma EmittedFrameDropsPayload(addr: byte, cmd: byte, payload: seq<byte>)
    requires |payload| == 256
    ensures |EmittedFrame(addr, cmd, payload)| == HeaderSize + 1
    ensures |CommandFrame(addr, cmd, payload)| == HeaderSize + 257
    ensures ParseCommandFrame(EmittedFrame(addr, cmd, payload)) == None
  {
    var f := EmittedFrame(addr, cmd, payload);
    assert payload[..0] == [];
    assert f[6] == 0 && f[7] == 1;
    assert LE16(f[6], f[7]) == 256;
  }
}
