/**
 * Wire layouts of the Rockchip "rockusb" bulk-only protocol: the 31-byte command
 * envelope (CBW) with its 16-byte command block, the 13-byte status envelope (CSW)
 * and the 515-byte flash-information record, all packed without padding.
 * Multi-byte envelope fields are little-endian (the host's native order); the
 * address and length inside the command block hold byte-swapped values, so they
 * travel big-endian.
 */
module Wire {

  type byte = x: int | 0 <= x < 0x100
  type uint16 = x: int | 0 <= x < 0x1_0000
  type uint32 = x: int | 0 <= x < 0x1_0000_0000

  /** The seven reserved bytes ending the command block, and the 501 reserved bytes ending FlashInfo. */
  type Pad7 = s: seq<byte> | |s| == 7 witness [0, 0, 0, 0, 0, 0, 0]
  type Pad501 = s: seq<byte> | |s| == 501 witness seq(501, i => 0)

  // "USBC" and "USBS" read as little-endian 32-bit words
  const CBW_SIG: uint32 := 0x43425355
  const CSW_SIG: uint32 := 0x53425355

  const READ_FLASH_ID: byte := 0x01
  const READ_LBA: byte := 0x14
  const WRITE_LBA: byte := 0x15
  const READ_FLASH_INFO: byte := 0x1a

  const CBWCB_SIZE: nat := 16
  const CBW_SIZE: nat := 31
  const CSW_SIZE: nat := 13
  const FLASH_INFO_SIZE: nat := 515
  /** Bytes of FlashInfo up to and including ecc_bits. */
  const FLASH_INFO_PREFIX: nat := 11

  /** usbms_cbwcb_t */
  datatype CommandBlock = CommandBlock(
    opcode: byte, reserved: byte, address: uint32, reserved2: byte, length: uint16, reserved3: Pad7)

  /** usbms_cbw_t */
  datatype CommandFrame = CommandFrame(
    sig: uint32, tag: uint32, transferLength: uint32, flags: byte, lun: byte, length: byte,
    command: CommandBlock)

  /** usbms_csw_t */
  datatype StatusFrame = StatusFrame(sig: uint32, tag: uint32, dataResidue: uint32, status: byte)

  /** flash_info_t */
  datatype FlashInfo = FlashInfo(
    flashSize: uint32, blockSize: uint16, pageSize: uint32, eccBits: byte, accessTime: byte,
    mfgCode: byte, flashCs: byte, reserved: Pad501)

  // ---------------------------------------------------------------- integers

  function LE16(x: uint16): (s: seq<byte>)
  {
    [x % 0x100, x / 0x100]
  }

  function LE32(x: uint32): (s: seq<byte>)
  {
    [x % 0x100, (x / 0x100) % 0x100, (x / 0x1_0000) % 0x100, x / 0x100_0000]
  }

  /** The four bytes of x, most significant first. */
  function BE32(x: uint32): (s: seq<byte>)
  {
    [x / 0x100_0000, (x / 0x1_0000) % 0x100, (x / 0x100) % 0x100, x % 0x100]
  }

  function BE16(x: uint16): (s: seq<byte>)
  {
    [x / 0x100, x % 0x100]
  }

  /** The little-endian 16-bit value stored at s[i..i+2]. */
  function Load16(s: seq<byte>, i: nat): uint16
    requires i + 2 <= |s|
  {
    s[i] as int + s[i + 1] as int * 0x100
  }

  /** The little-endian 32-bit value stored at s[i..i+4]. */
  function Load32(s: seq<byte>, i: nat): uint32
    requires i + 4 <= |s|
  {
    s[i] as int + s[i + 1] as int * 0x100 + s[i + 2] as int * 0x1_0000 + s[i + 3] as int * 0x100_0000
  }

  /** __builtin_bswap32 */
  function Bswap32(x: uint32): uint32
  {
    (x % 0x100) * 0x100_0000 + ((x / 0x100) % 0x100) * 0x1_0000 + ((x / 0x1_0000) % 0x100) * 0x100
      + x / 0x100_0000
  }

  /** __builtin_bswap16 */
  function Bswap16(x: uint16): uint16
  {
    (x % 0x100) * 0x100 + x / 0x100
  }

  lemma Load16Of(x: uint16)
    ensures |LE16(x)| == 2 && Load16(LE16(x), 0) == x
  {
  }

  lemma Load32Of(x: uint32)
    ensures |LE32(x)| == 4 && Load32(LE32(x), 0) == x
  {
  }

  lemma LE16Of(s: seq<byte>, i: nat)
    requires i + 2 <= |s|
    ensures LE16(Load16(s, i)) == s[i..i + 2]
  {
  }

  lemma LE32Of(s: seq<byte>, i: nat)
    requires i + 4 <= |s|
    ensures LE32(Load32(s, i)) == s[i..i + 4]
  {
    var x := Load32(s, i);
    assert x % 0x100 == s[i];
    assert (x / 0x100) % 0x100 == s[i + 1];
    assert (x / 0x1_0000) % 0x100 == s[i + 2];
    assert x / 0x100_0000 == s[i + 3];
  }

  /** A byte-swapped word written in native (little-endian) order puts x on the wire big-endian. */
  lemma {:induction false} SwappedIsBigEndian32(x: uint32)
    ensures LE32(Bswap32(x)) == BE32(x)
  {
    assert Bswap32(x) == Load32(BE32(x), 0);
    LE32Of(BE32(x), 0);
  }

  lemma SwappedIsBigEndian16(x: uint16)
    ensures LE16(Bswap16(x)) == BE16(x)
  {
  }

  /** s with the bytes from position `at` on replaced by d; bytes of d that would fall past the end of s are dropped. */
  function Splice(s: seq<byte>, at: nat, d: seq<byte>): (r: seq<byte>)
    ensures |r| == |s|
    ensures forall i :: 0 <= i < |s| ==> r[i] == if at <= i < at + |d| then d[i - at] else s[i]
  {
    seq(|s|, i requires 0 <= i < |s| => if at <= i < at + |d| then d[i - at] else s[i])
  }

  /** Splicing a sequence of the full length at 0 replaces everything. */
  lemma SpliceWhole(s: seq<byte>, d: seq<byte>)
    requires |d| == |s|
    ensures Splice(s, 0, d) == d
  {
  }

  // ---------------------------------------------------------------- frames

  function EncodeBlock(b: CommandBlock): (s: seq<byte>)
    ensures |s| == CBWCB_SIZE
  {
    [b.opcode, b.reserved] + LE32(b.address) + [b.reserved2] + LE16(b.length) + b.reserved3
  }

  function DecodeBlock(s: seq<byte>): CommandBlock
    requires |s| == CBWCB_SIZE
  {
    CommandBlock(s[0], s[1], Load32(s, 2), s[6], Load16(s, 7), s[9..16])
  }

  function EncodeCommand(f: CommandFrame): (s: seq<byte>)
    ensures |s| == CBW_SIZE
  {
    LE32(f.sig) + LE32(f.tag) + LE32(f.transferLength) + [f.flags, f.lun, f.length]
      + EncodeBlock(f.command)
  }

  function DecodeCommand(s: seq<byte>): CommandFrame
    requires |s| == CBW_SIZE
  {
    CommandFrame(Load32(s, 0), Load32(s, 4), Load32(s, 8), s[12], s[13], s[14], DecodeBlock(s[15..31]))
  }

  function EncodeStatus(f: StatusFrame): (s: seq<byte>)
    ensures |s| == CSW_SIZE
  {
    LE32(f.sig) + LE32(f.tag) + LE32(f.dataResidue) + [f.status]
  }

  function DecodeStatus(s: seq<byte>): StatusFrame
    requires |s| == CSW_SIZE
  {
    StatusFrame(Load32(s, 0), Load32(s, 4), Load32(s, 8), s[12])
  }

  function EncodeFlashInfo(f: FlashInfo): (s: seq<byte>)
    ensures |s| == FLASH_INFO_SIZE
  {
    LE32(f.flashSize) + LE16(f.blockSize) + LE32(f.pageSize)
      + [f.eccBits, f.accessTime, f.mfgCode, f.flashCs] + f.reserved
  }

  function DecodeFlashInfo(s: seq<byte>): FlashInfo
    requires |s| == FLASH_INFO_SIZE
  {
    FlashInfo(Load32(s, 0), Load16(s, 4), Load32(s, 6), s[10], s[11], s[12], s[13], s[14..515])
  }

  // ---------------------------------------------------------------- layout lemmas

  /** The command block's fields sit at offsets 0, 1, 2..5, 6, 7..8 and 9..15. */
  lemma {:induction false} BlockLayout(b: CommandBlock)
    ensures var s := EncodeBlock(b);
      && s[0] == b.opcode && s[1] == b.reserved && s[2..6] == LE32(b.address)
      && s[6] == b.reserved2 && s[7..9] == LE16(b.length) && s[9..16] == b.reserved3
  {
    var s := EncodeBlock(b);
    assert s == ([b.opcode, b.reserved] + LE32(b.address)) + ([b.reserved2] + LE16(b.length)) + b.reserved3;
  }

  lemma {:induction false} BlockRoundTrip(b: CommandBlock)
    ensures DecodeBlock(EncodeBlock(b)) == b
  {
    BlockLayout(b);
    var s := EncodeBlock(b);
    Load32Of(b.address);
    Load16Of(b.length);
    assert Load32(s, 2) == Load32(s[2..6], 0);
    assert Load16(s, 7) == Load16(s[7..9], 0);
  }

  lemma {:induction false} BlockDecodeEncode(s: seq<byte>)
    requires |s| == CBWCB_SIZE
    ensures EncodeBlock(DecodeBlock(s)) == s
  {
    LE32Of(s, 2);
    LE16Of(s, 7);
    assert s == s[0..2] + s[2..6] + s[6..7] + s[7..9] + s[9..16];
  }

  /** The envelope's fields sit at offsets 0..3, 4..7, 8..11, 12, 13, 14 and 15..30. */
  lemma {:induction false} CommandLayout(f: CommandFrame)
    ensures var s := EncodeCommand(f);
      && s[0..4] == LE32(f.sig) && s[4..8] == LE32(f.tag) && s[8..12] == LE32(f.transferLength)
      && s[12] == f.flags && s[13] == f.lun && s[14] == f.length
      && s[15..31] == EncodeBlock(f.command)
  {
    var s := EncodeCommand(f);
    var head := LE32(f.sig) + LE32(f.tag) + LE32(f.transferLength);
    assert s == head + [f.flags, f.lun, f.length] + EncodeBlock(f.command);
    assert head[0..4] == LE32(f.sig) && head[4..8] == LE32(f.tag) && head[8..12] == LE32(f.transferLength);
  }

  lemma {:induction false} CommandRoundTrip(f: CommandFrame)
    ensures DecodeCommand(EncodeCommand(f)) == f
  {
    CommandLayout(f);
    var s := EncodeCommand(f);
    Load32Of(f.sig);
    Load32Of(f.tag);
    Load32Of(f.transferLength);
    assert Load32(s, 0) == Load32(s[0..4], 0);
    assert Load32(s, 4) == Load32(s[4..8], 0);
    assert Load32(s, 8) == Load32(s[8..12], 0);
    BlockRoundTrip(f.command);
  }

  lemma {:induction false} CommandDecodeEncode(s: seq<byte>)
    requires |s| == CBW_SIZE
    ensures EncodeCommand(DecodeCommand(s)) == s
  {
    LE32Of(s, 0);
    LE32Of(s, 4);
    LE32Of(s, 8);
    BlockDecodeEncode(s[15..31]);
    assert s == s[0..4] + s[4..8] + s[8..12] + s[12..15] + s[15..31];
  }

  /** The status envelope's fields sit at offsets 0..3, 4..7, 8..11 and 12. */
  lemma {:induction false} StatusLayout(f: StatusFrame)
    ensures var s := EncodeStatus(f);
      s[0..4] == LE32(f.sig) && s[4..8] == LE32(f.tag) && s[8..12] == LE32(f.dataResidue) && s[12] == f.status
  {
    var s := EncodeStatus(f);
    var head := LE32(f.sig) + LE32(f.tag);
    assert s == head + LE32(f.dataResidue) + [f.status];
  }

  lemma {:induction false} StatusRoundTrip(f: StatusFrame)
    ensures DecodeStatus(EncodeStatus(f)) == f
  {
    StatusLayout(f);
    var s := EncodeStatus(f);
    Load32Of(f.sig);
    Load32Of(f.tag);
    Load32Of(f.dataResidue);
    assert Load32(s, 0) == Load32(s[0..4], 0);
    assert Load32(s, 4) == Load32(s[4..8], 0);
    assert Load32(s, 8) == Load32(s[8..12], 0);
  }

  lemma {:induction false} StatusDecodeEncode(s: seq<byte>)
    requires |s| == CSW_SIZE
    ensures EncodeStatus(DecodeStatus(s)) == s
  {
    LE32Of(s, 0);
    LE32Of(s, 4);
    LE32Of(s, 8);
    assert s == s[0..4] + s[4..8] + s[8..12] + s[12..13];
  }

  /**
   * flash_size, block_size, page_size and ecc_bits occupy exactly the first eleven bytes of
   * FlashInfo: two records that agree on those bytes agree on those fields, whatever follows.
   */
  lemma {:induction false} FlashInfoPrefix(s: seq<byte>, t: seq<byte>)
    requires |s| == FLASH_INFO_SIZE && |t| == FLASH_INFO_SIZE
    requires s[..FLASH_INFO_PREFIX] == t[..FLASH_INFO_PREFIX]
    ensures var a, b := DecodeFlashInfo(s), DecodeFlashInfo(t);
      a.flashSize == b.flashSize && a.blockSize == b.blockSize && a.pageSize == b.pageSize
      && a.eccBits == b.eccBits
  {
    forall i | 0 <= i < FLASH_INFO_PREFIX ensures s[i] == t[i] {
      assert s[..FLASH_INFO_PREFIX][i] == t[..FLASH_INFO_PREFIX][i];
    }
  }

  lemma {:induction false} FlashInfoRoundTrip(f: FlashInfo)
    ensures DecodeFlashInfo(EncodeFlashInfo(f)) == f
  {
    var s := EncodeFlashInfo(f);
    var a := LE32(f.flashSize) + LE16(f.blockSize);
    var b := a + LE32(f.pageSize);
    assert s == b + [f.eccBits, f.accessTime, f.mfgCode, f.flashCs] + f.reserved;
    assert s[0..4] == LE32(f.flashSize) && s[4..6] == LE16(f.blockSize) && s[6..10] == LE32(f.pageSize);
    Load32Of(f.flashSize);
    Load16Of(f.blockSize);
    Load32Of(f.pageSize);
    assert Load32(s, 0) == Load32(s[0..4], 0);
    assert Load16(s, 4) == Load16(s[4..6], 0);
    assert Load32(s, 6) == Load32(s[6..10], 0);
    assert s[14..515] == f.reserved;
  }

  // ---------------------------------------------------------------- constants

  function Ascii(s: string): seq<int>
  {
    seq(|s|, i requires 0 <= i < |s| => s[i] as int)
  }

  /** Written little-endian, the two signatures spell "USBC" and "USBS", and they differ. */
  lemma Signatures()
    ensures LE32(CBW_SIG) == Ascii("USBC")
    ensures LE32(CSW_SIG) == Ascii("USBS")
    ensures CBW_SIG != CSW_SIG
  {
  }

  lemma OpcodesDistinct()
    ensures |{READ_FLASH_ID, READ_LBA, WRITE_LBA, READ_FLASH_INFO}| == 4
  {
  }
}
