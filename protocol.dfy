/**
 * The rockusb protocol engine: building command envelopes, checking status envelopes,
 * and the four command/data/status exchanges (read flash id, read flash info, read
 * sectors, write sectors) over a pair of bulk endpoints.
 *
 * The USB library is an oracle: `link(k)` is what the library reports for the k-th
 * bulk transfer of the session (its return code and the bytes it moved), and `log`
 * records every transfer issued, in order.
 */
module Protocol {
  import opened Wire

  const DIRECTION_OUT: byte := 0x00
  const DIRECTION_IN: byte := 0x80

  /**
   * What the USB library reports for one bulk transfer: its return code and the bytes it
   * moved (for an incoming transfer, the bytes delivered; for an outgoing one, only their
   * number matters).
   */
  datatype Reply = Reply(rc: int, moved: seq<byte>)

  /** A bulk transfer as issued: bytes sent out, or a request to receive `size` bytes. */
  datatype Transfer = Out(bytes: seq<byte>) | In(size: nat)

  /** rockusb_read and rockusb_write succeed exactly when the library reports no error and moved every byte asked for. */
  predicate Complete(r: Reply, size: nat)
  {
    r.rc >= 0 && |r.moved| == size
  }

  /** The bytes an incoming transfer of `size` bytes leaves in the caller's buffer. */
  function Delivered(r: Reply, size: nat): (d: seq<byte>)
    ensures |d| <= size
    ensures Complete(r, size) ==> d == r.moved
  {
    if r.rc < 0 then [] else if |r.moved| <= size then r.moved else r.moved[..size]
  }

  /** The transfer length a sector count asks for: count * 0x200 computed in 32 bits. */
  function XferSize(count: uint32): uint32
  {
    (count * 0x200) % 0x1_0000_0000
  }

  /** The tag cbw_build assembles from four draws of rand(), the first draw most significant. */
  function TagOf(rand: seq<byte>): uint32
    requires |rand| == 4
  {
    rand[0] as int * 0x100_0000 + rand[1] as int * 0x1_0000 + rand[2] as int * 0x100 + rand[3] as int
  }

  /** The value of a byte string read most significant byte first. */
  function BigEndian(s: seq<byte>): nat
  {
    if s == [] then 0 else BigEndian(s[..|s| - 1]) * 0x100 + s[|s| - 1]
  }

  const NO_PAD: Pad7 := [0, 0, 0, 0, 0, 0, 0]

  /** The frame cbw_build leaves: all zero but for the signature, the tag and the opcode. */
  function Built(opcode: byte, tag: uint32): CommandFrame
  {
    CommandFrame(CBW_SIG, tag, 0, 0, 0, 0, CommandBlock(opcode, 0, 0, 0, 0, NO_PAD))
  }

  function IdCommand(tag: uint32): CommandFrame
  {
    Built(READ_FLASH_ID, tag).(flags := DIRECTION_IN, length := 6, transferLength := 5)
  }

  function InfoCommand(tag: uint32): CommandFrame
  {
    Built(READ_FLASH_INFO, tag).(flags := DIRECTION_IN, length := 6, transferLength := FLASH_INFO_PREFIX)
  }

  /** The frame of rockusb_read_lba (opcode READ_LBA, flags DIRECTION_IN) or rockusb_write_lba. */
  function LbaCommand(opcode: byte, flags: byte, offset: uint32, count: uint32, tag: uint32): CommandFrame
  {
    var b := Built(opcode, tag);
    b.(flags := flags, length := 0x0a, transferLength := XferSize(count),
       command := b.command.(address := Bswap32(offset), length := Bswap16(count % 0x1_0000)))
  }

  /** csw_check: the signature is checked first, then the tag. */
  function CheckStatus(cbw: CommandFrame, csw: StatusFrame): (r: int)
    ensures r == 0 <==> csw.sig == CSW_SIG && csw.tag == cbw.tag
    ensures r == -1 <==> csw.sig != CSW_SIG
    ensures r == -2 <==> csw.sig == CSW_SIG && csw.tag != cbw.tag
  {
    if csw.sig != CSW_SIG then -1
    else if cbw.tag != csw.tag then -2
    else 0
  }

  /**
   * The code an exchange returns, given what the library reports for its command, data and
   * status transfers: the first failing phase decides, and a status byte of exactly 1 is a
   * device-reported failure when the exchange looks at it.
   */
  function ExchangeCode(cbw: CommandFrame, dataSize: nat, cmd: Reply, data: Reply, status: Reply,
                        checksStatusByte: bool): (r: int)
    ensures -5 <= r <= 0
    ensures r == 0 <==>
      && Complete(cmd, CBW_SIZE) && Complete(data, dataSize) && Complete(status, CSW_SIZE)
      && DecodeStatus(status.moved).sig == CSW_SIG && DecodeStatus(status.moved).tag == cbw.tag
      && (checksStatusByte ==> DecodeStatus(status.moved).status != 1)
    ensures r == -1 <==> !Complete(cmd, CBW_SIZE)
    ensures r == -2 <==> Complete(cmd, CBW_SIZE) && !Complete(data, dataSize)
    ensures r == -3 <==> Complete(cmd, CBW_SIZE) && Complete(data, dataSize) && !Complete(status, CSW_SIZE)
    ensures r == -4 <==>
      && Complete(cmd, CBW_SIZE) && Complete(data, dataSize) && Complete(status, CSW_SIZE)
      && CheckStatus(cbw, DecodeStatus(status.moved)) != 0
    ensures r == -5 <==>
      && Complete(cmd, CBW_SIZE) && Complete(data, dataSize) && Complete(status, CSW_SIZE)
      && CheckStatus(cbw, DecodeStatus(status.moved)) == 0
      && checksStatusByte && DecodeStatus(status.moved).status == 1
  {
    if !Complete(cmd, CBW_SIZE) then -1
    else if !Complete(data, dataSize) then -2
    else if !Complete(status, CSW_SIZE) then -3
    else if CheckStatus(cbw, DecodeStatus(status.moved)) != 0 then -4
    else if checksStatusByte && DecodeStatus(status.moved).status == 1 then -5
    else 0
  }

  /** How many of the three transfers an exchange issues before it returns `code`. */
  function PhasesRun(code: int): (n: nat)
    ensures 1 <= n <= 3
    ensures n == 1 <==> code == -1
    ensures n == 2 <==> code == -2
  {
    if code == -1 then 1 else if code == -2 then 2 else 3
  }

  method BuildCommand(opcode: byte, rand: seq<byte>) returns (cbw: CommandFrame)
    requires |rand| == 4
    ensures cbw == Built(opcode, TagOf(rand))
  {
    cbw := Built(0, 0).(sig := 0);
    cbw := cbw.(sig := CBW_SIG);
    cbw := cbw.(tag := 0);
    var i := 0;
    while i < 4
      invariant 0 <= i <= 4
      invariant cbw == Built(0, cbw.tag)
      invariant cbw.tag == BigEndian(rand[..i])
      invariant cbw.tag < [1, 0x100, 0x1_0000, 0x100_0000, 0x1_0000_0000][i]
    {
      assert rand[..i + 1][..i] == rand[..i];
      cbw := cbw.(tag := (cbw.tag * 0x100) % 0x1_0000_0000);
      cbw := cbw.(tag := cbw.tag + rand[i]);
      i := i + 1;
    }
    assert rand[..4] == rand;
    assert rand[..1][..0] == [] && BigEndian(rand[..1]) == rand[0];
    assert rand[..2][..1] == rand[..1] && BigEndian(rand[..2]) == rand[0] as int * 0x100 + rand[1];
    assert rand[..3][..2] == rand[..2];
    assert BigEndian(rand[..3]) == rand[0] as int * 0x1_0000 + rand[1] as int * 0x100 + rand[2];
    assert rand[..4][..3] == rand[..3];
    cbw := cbw.(command := cbw.command.(opcode := opcode));
  }

  // ---------------------------------------------------------------- lemmas

  /** On the wire the tag's bytes appear in the reverse of the order they were drawn. */
  lemma {:induction false} TagOnWire(rand: seq<byte>)
    requires |rand| == 4
    ensures LE32(TagOf(rand)) == [rand[3], rand[2], rand[1], rand[0]]
  {
    LE32Of([rand[3], rand[2], rand[1], rand[0]], 0);
  }

  /** A status envelope passes csw_check exactly when its first eight bytes are "USBS" and the command's tag. */
  lemma {:induction false} CheckOnWire(cbw: CommandFrame, s: seq<byte>)
    requires |s| == CSW_SIZE
    ensures CheckStatus(cbw, DecodeStatus(s)) == 0 <==> s[0..4] == Ascii("USBS") && s[4..8] == LE32(cbw.tag)
  {
    Signatures();
    LE32Of(s, 0);
    LE32Of(s, 4);
    Load32Of(CSW_SIG);
    Load32Of(cbw.tag);
    if s[0..4] == Ascii("USBS") {
      assert Load32(s, 0) == Load32(s[0..4], 0);
    }
    if s[4..8] == LE32(cbw.tag) {
      assert Load32(s, 4) == Load32(s[4..8], 0);
    }
  }

  /** The status envelope a device answers a command with is accepted, and then only its status byte can fail the exchange. */
  lemma {:induction false} AnswerAccepted(cbw: CommandFrame, dataSize: nat, cmd: Reply, data: Reply,
                                          residue: uint32, status: byte, checksStatusByte: bool)
    requires Complete(cmd, CBW_SIZE) && Complete(data, dataSize)
    ensures var answer := Reply(0, EncodeStatus(StatusFrame(CSW_SIG, cbw.tag, residue, status)));
      ExchangeCode(cbw, dataSize, cmd, data, answer, checksStatusByte)
        == if checksStatusByte && status == 1 then -5 else 0
  {
    StatusRoundTrip(StatusFrame(CSW_SIG, cbw.tag, residue, status));
  }

  /**
   * The sector commands as sent: "USBC", the tag and the transfer length little-endian, then
   * the flags, lun 0, command length 10, the opcode, and the sector address and count big-endian.
   */
  lemma {:induction false} LbaCommandOnWire(opcode: byte, flags: byte, offset: uint32, count: uint32, tag: uint32)
    ensures var s := EncodeCommand(LbaCommand(opcode, flags, offset, count, tag));
      && s[0..4] == Ascii("USBC") && s[4..8] == LE32(tag) && s[8..12] == LE32(XferSize(count))
      && s[12] == flags && s[13] == 0 && s[14] == 0x0a
      && s[15] == opcode && s[16] == 0 && s[17..21] == BE32(offset) && s[21] == 0
      && s[22..24] == BE16(count % 0x1_0000) && s[24..31] == [0, 0, 0, 0, 0, 0, 0]
  {
    var f := LbaCommand(opcode, flags, offset, count, tag);
    var s := EncodeCommand(f);
    CommandLayout(f);
    BlockLayout(f.command);
    Signatures();
    SwappedIsBigEndian32(offset);
    SwappedIsBigEndian16(count % 0x1_0000);
    assert s[17..21] == s[15..31][2..6];
    assert s[22..24] == s[15..31][7..9];
    assert s[24..31] == s[15..31][9..16];
  }

  /** The two sector commands differ only in opcode and direction flag. */
  lemma LbaCommandsDiffer(offset: uint32, count: uint32, tag: uint32)
    ensures LbaCommand(READ_LBA, DIRECTION_IN, offset, count, tag)
         == LbaCommand(WRITE_LBA, DIRECTION_OUT, offset, count, tag).(
              flags := DIRECTION_IN, command := LbaCommand(WRITE_LBA, DIRECTION_OUT, offset, count, tag).command.(opcode := READ_LBA))
  {
  }

  // ---------------------------------------------------------------- the session

  class RockUsb {
    const link: nat -> Reply
    var log: seq<Transfer>

    constructor (link: nat -> Reply)
      ensures this.link == link && log == []
    {
      this.link := link;
      log := [];
    }

    /** rockusb_write: one outgoing bulk transfer of `data`. */
    method Send(data: seq<byte>) returns (rc: int)
      modifies this`log
      ensures log == old(log) + [Out(data)]
      ensures rc == (if Complete(link(|old(log)|), |data|) then 0 else -1)
    {
      var r := link(|log|);
      log := log + [Out(data)];
      if r.rc < 0 {
        return -1;
      }
      if |r.moved| != |data| {
        return -1;
      }
      return 0;
    }

    /** rockusb_read: one incoming bulk transfer of `size` bytes into buf[at..]. */
    method Receive(buf: array<byte>, at: nat, size: nat) returns (rc: int)
      requires at + size <= buf.Length
      modifies this`log, buf
      ensures log == old(log) + [In(size)]
      ensures rc == (if Complete(link(|old(log)|), size) then 0 else -1)
      ensures buf[..] == Splice(old(buf[..]), at, Delivered(link(|old(log)|), size))
    {
      var r := link(|log|);
      log := log + [In(size)];
      var d := Delivered(r, size);
      forall i | 0 <= i < |d| {
        buf[at + i] := d[i];
      }
      if r.rc < 0 {
        return -1;
      }
      if |r.moved| != size {
        return -1;
      }
      return 0;
    }

    /** rockusb_read_flash_id: receives the five identifier bytes into id. */
    method ReadFlashId(rand: seq<byte>, id: array<byte>) returns (rc: int)
      requires |rand| == 4 && id.Length == 5
      modifies this`log, id
      ensures var k, cbw := |old(log)|, IdCommand(TagOf(rand));
        && rc == ExchangeCode(cbw, 5, link(k), link(k + 1), link(k + 2), false)
        && log == old(log) + [Out(EncodeCommand(cbw)), In(5), In(CSW_SIZE)][..PhasesRun(rc)]
        && id[..] == if rc == -1 then old(id[..]) else Splice(old(id[..]), 0, Delivered(link(k + 1), 5))
    {
      ghost var k := |log|;
      var cbw := BuildCommand(READ_FLASH_ID, rand);
      cbw := cbw.(flags := DIRECTION_IN);
      cbw := cbw.(length := 6);
      cbw := cbw.(transferLength := 5);
      var csw := new byte[CSW_SIZE];
      rc := Exchange(cbw, csw, false, id, 0, 5, k);
    }

    /** rockusb_read_flash_info: receives the first eleven bytes of the FlashInfo record into info. */
    method ReadFlashInfo(rand: seq<byte>, info: array<byte>) returns (rc: int)
      requires |rand| == 4 && info.Length == FLASH_INFO_SIZE
      modifies this`log, info
      ensures var k, cbw := |old(log)|, InfoCommand(TagOf(rand));
        && rc == ExchangeCode(cbw, FLASH_INFO_PREFIX, link(k), link(k + 1), link(k + 2), false)
        && log == old(log) + [Out(EncodeCommand(cbw)), In(FLASH_INFO_PREFIX), In(CSW_SIZE)][..PhasesRun(rc)]
        && info[..] == if rc == -1 then old(info[..])
                       else Splice(old(info[..]), 0, Delivered(link(k + 1), FLASH_INFO_PREFIX))
    {
      ghost var k := |log|;
      var cbw := BuildCommand(READ_FLASH_INFO, rand);
      cbw := cbw.(flags := DIRECTION_IN);
      cbw := cbw.(length := 6);
      cbw := cbw.(transferLength := FLASH_INFO_PREFIX);
      var csw := new byte[CSW_SIZE];
      rc := Exchange(cbw, csw, false, info, 0, FLASH_INFO_PREFIX, k);
    }

    /** rockusb_read_lba: reads `count` sectors starting at sector `offset` into buf[at..]. */
    method ReadLba(offset: uint32, count: uint32, rand: seq<byte>, buf: array<byte>, at: nat) returns (rc: int)
      requires |rand| == 4 && at + XferSize(count) <= buf.Length
      modifies this`log, buf
      ensures var k, cbw := |old(log)|, LbaCommand(READ_LBA, DIRECTION_IN, offset, count, TagOf(rand));
        && rc == ExchangeCode(cbw, XferSize(count), link(k), link(k + 1), link(k + 2), true)
        && log == old(log) + [Out(EncodeCommand(cbw)), In(XferSize(count)), In(CSW_SIZE)][..PhasesRun(rc)]
        && buf[..] == if rc == -1 then old(buf[..])
                      else Splice(old(buf[..]), at, Delivered(link(k + 1), XferSize(count)))
    {
      ghost var k := |log|;
      var cbw := BuildCommand(READ_LBA, rand);
      cbw := cbw.(flags := DIRECTION_IN);
      cbw := cbw.(length := 0x0a);
      cbw := cbw.(transferLength := XferSize(count));
      cbw := cbw.(command := cbw.command.(address := Bswap32(offset)));
      cbw := cbw.(command := cbw.command.(length := Bswap16(count % 0x1_0000)));
      var csw := new byte[CSW_SIZE];
      rc := Exchange(cbw, csw, true, buf, at, XferSize(count), k);
    }

    /** rockusb_write_lba: writes `count` sectors from buf[at..] starting at sector `offset`. */
    method WriteLba(offset: uint32, count: uint32, rand: seq<byte>, buf: array<byte>, at: nat) returns (rc: int)
      requires |rand| == 4 && at + XferSize(count) <= buf.Length
      modifies this`log
      ensures var k, cbw := |old(log)|, LbaCommand(WRITE_LBA, DIRECTION_OUT, offset, count, TagOf(rand));
        && rc == ExchangeCode(cbw, XferSize(count), link(k), link(k + 1), link(k + 2), true)
        && log == old(log) + [Out(EncodeCommand(cbw)), Out(buf[at..at + XferSize(count)]), In(CSW_SIZE)][..PhasesRun(rc)]
    {
      ghost var k := |log|;
      var cbw := BuildCommand(WRITE_LBA, rand);
      cbw := cbw.(flags := DIRECTION_OUT);
      cbw := cbw.(length := 0x0a);
      cbw := cbw.(transferLength := XferSize(count));
      cbw := cbw.(command := cbw.command.(address := Bswap32(offset)));
      cbw := cbw.(command := cbw.command.(length := Bswap16(count % 0x1_0000)));
      var csw := new byte[CSW_SIZE];
      rc := ExchangeOut(cbw, csw, buf[at..at + XferSize(count)], k);
    }

    /**
     * The three phases of an outgoing exchange: send the envelope, send `data`, receive the
     * status envelope into csw and check it, including its status byte.
     */
    method ExchangeOut(cbw: CommandFrame, csw: array<byte>, data: seq<byte>, ghost k: nat) returns (rc: int)
      requires k == |log| && csw.Length == CSW_SIZE
      modifies this`log, csw
      ensures rc == ExchangeCode(cbw, |data|, link(k), link(k + 1), link(k + 2), true)
      ensures log == old(log) + [Out(EncodeCommand(cbw)), Out(data), In(CSW_SIZE)][..PhasesRun(rc)]
    {
      rc := Send(EncodeCommand(cbw));
      if rc != 0 {
        return -1;
      }
      rc := Send(data);
      if rc != 0 {
        return -2;
      }
      rc := Receive(csw, 0, CSW_SIZE);
      if rc != 0 {
        return -3;
      }
      var status := DecodeStatus(csw[..]);
      if CheckStatus(cbw, status) != 0 {
        return -4;
      }
      if status.status == 1 {
        return -5;
      }
      return 0;
    }

    /**
     * The three phases shared by the incoming exchanges: send the envelope, receive `size`
     * bytes into buf[at..], receive the status envelope into csw and check it.
     */
    method Exchange(cbw: CommandFrame, csw: array<byte>, checksStatusByte: bool,
                    buf: array<byte>, at: nat, size: nat, ghost k: nat) returns (rc: int)
      requires k == |log| && csw.Length == CSW_SIZE && csw != buf
      requires at + size <= buf.Length
      modifies this`log, buf, csw
      ensures rc == ExchangeCode(cbw, size, link(k), link(k + 1), link(k + 2), checksStatusByte)
      ensures log == old(log) + [Out(EncodeCommand(cbw)), In(size), In(CSW_SIZE)][..PhasesRun(rc)]
      ensures buf[..] == if rc == -1 then old(buf[..]) else Splice(old(buf[..]), at, Delivered(link(k + 1), size))
    {
      ghost var phases := [Out(EncodeCommand(cbw)), In(size), In(CSW_SIZE)];
      assert phases[..1] == [Out(EncodeCommand(cbw))] && phases[..2] == phases[..1] + [In(size)];
      assert phases[..3] == phases;
      rc := Send(EncodeCommand(cbw));
      if rc != 0 {
        return -1;
      }
      rc := Receive(buf, at, size);
      if rc != 0 {
        return -2;
      }
      ghost var filled := buf[..];
      rc := Receive(csw, 0, CSW_SIZE);
      assert buf[..] == filled;
      if rc != 0 {
        return -3;
      }
      assert csw[..] == link(k + 2).moved;
      var status := DecodeStatus(csw[..]);
      if CheckStatus(cbw, status) != 0 {
        return -4;
      }
      if checksStatusByte && status.status == 1 {
        return -5;
      }
      return 0;
    }
  }
}
