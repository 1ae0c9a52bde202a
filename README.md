# rockfuse in Dafny

rockfuse exposes the flash of a Rockchip device in rockusb (loader) mode as a small FUSE
file system. The root directory holds six image files: the whole flash, the two loader stages,
trust, boot and root. Each file is a contiguous range of 512-byte flash sectors. A read or a
write at any byte offset becomes a series of rockusb sector commands:
- an optional read (or read-modify-write) of the partial first sector, through a one-sector
  scratch buffer;
- an aligned body, in commands of at most 128 sectors;
- an optional read (or read-modify-write) of the partial last sector.

Each rockusb command is a USB mass-storage style exchange over two bulk endpoints: a 31-byte
command envelope out, a data phase, and a 13-byte status envelope in.

The model has five modules:

- `Wire` (wire.dfy): the packed structures of `include/rockusb.h` as byte layouts, with
  encoders, decoders and round trips. It also holds the byte-order helpers and `Splice`, which
  stands for `memcpy` into a buffer.
- `Protocol` (protocol.dfy): `cbw_build`, `csw_check` and the four exchanges of
  `src/rockusb.c`. The `RockUsb` class stands for the session. The USB library is an oracle
  `link(k)`: the return code and the bytes of the k-th bulk transfer. `log` records every
  transfer issued.
- `Table` (table.dfy): the virtual-file table of `src/rockfuse.c`, path lookup, `getattr`,
  `readdir`, `open`, and the resizing that `rockfuse_init` does once the flash size is known.
- `Sectors` (sectors.dfy): the sector translation of `rockfuse_read` and `rockfuse_write`.
  - Which device calls a request makes, as the plans `ReadPlan` and `WritePlan`.
  - Where those calls land on the flash.
  - What a run of them does to the buffer and the flash image when any call can fail.
  
  The `Flash` class is the device seen through `rockusb_read_lba` and `rockusb_write_lba`. It has
  a byte array, a trace of calls, and a failure oracle. A call also fails when it would run past
  the end of the flash.
- `Fuse` (fuse.dfy): the `RockFuse` class. It holds the file table, the scratch buffer
  `workbuf` and the flash. It has `Init`, `Read` and `Write`, and the loops and fragments they
  are made of, each proved against the `Sectors` run it implements.

`rockfuse_write` as written advances its buffer position by the sector count instead of the
byte count (see Findings). `Write` models the corrected loop. The code as written is modelled
separately, and the difference is exhibited there.

## Model

| member | source | states |
|---|---|---|
| Wire.Load16Of | include/rockusb.h:16-53 | reading back a 16-bit field written little-endian (the packed layout on the host) gives the value |
| Wire.Load32Of | include/rockusb.h:16-53 | reading back a 32-bit field written little-endian gives the value |
| Wire.LE16Of | include/rockusb.h:16-53 | any two stored bytes are the little-endian encoding of the 16-bit value they hold |
| Wire.LE32Of | include/rockusb.h:16-53 | any four stored bytes are the little-endian encoding of the 32-bit value they hold |
| Wire.SwappedIsBigEndian32 | src/rockusb.c:201 | a `__builtin_bswap32` value stored in host order puts the sector address on the wire most significant byte first |
| Wire.SwappedIsBigEndian16 | src/rockusb.c:202 | the same for the 16-bit sector count and `__builtin_bswap16` |
| Wire.Bswap32 | src/rockusb.c:201 | definition: `__builtin_bswap32`, the four bytes of a word in reverse order (its property is Wire.SwappedIsBigEndian32) |
| Wire.Bswap16 | src/rockusb.c:202 | definition: `__builtin_bswap16` (its property is Wire.SwappedIsBigEndian16) |
| Wire.SpliceWhole | src/rockfuse.c:140 | copying a full-length block at position 0 replaces the whole buffer |
| Wire.EncodeBlock | include/rockusb.h:18-25 | the packed command block is 16 bytes |
| Wire.EncodeCommand | include/rockusb.h:27-35 | the packed command envelope is 31 bytes |
| Wire.EncodeStatus | include/rockusb.h:37-42 | the packed status envelope is 13 bytes |
| Wire.EncodeFlashInfo | include/rockusb.h:44-53 | the packed flash_info_t is 515 bytes |
| Wire.DecodeBlock | include/rockusb.h:18-25 | definition: reading the packed command block's fields back from 16 bytes (its partners are the round-trip lemmas) |
| Wire.DecodeCommand | include/rockusb.h:27-35 | definition: reading the packed command envelope back from 31 bytes |
| Wire.DecodeStatus | include/rockusb.h:37-42 | definition: reading the packed status envelope back from 13 bytes, as `csw` is read in place |
| Wire.DecodeFlashInfo | include/rockusb.h:44-53 | definition: reading flash_info_t's fields back from 515 bytes |
| Wire.BlockLayout | include/rockusb.h:18-25 | each command-block field sits at its packed offset: opcode, reserved, address, reserved2, length, reserved3 |
| Wire.BlockRoundTrip | include/rockusb.h:18-25 | decoding an encoded command block gives it back |
| Wire.BlockDecodeEncode | include/rockusb.h:18-25 | encoding a decoded 16-byte block gives the bytes back |
| Wire.CommandLayout | include/rockusb.h:27-35 | each envelope field sits at its packed offset: sig, tag, transfer_length, flags, lun, length, command |
| Wire.CommandRoundTrip | include/rockusb.h:27-35 | decoding an encoded command envelope gives it back |
| Wire.CommandDecodeEncode | include/rockusb.h:27-35 | encoding a decoded 31-byte envelope gives the bytes back |
| Wire.StatusLayout | include/rockusb.h:37-42 | each status field sits at its packed offset: sig, tag, data_residue, status |
| Wire.StatusRoundTrip | include/rockusb.h:37-42 | decoding an encoded status envelope gives it back |
| Wire.StatusDecodeEncode | include/rockusb.h:37-42 | encoding a decoded 13-byte status gives the bytes back |
| Wire.FlashInfoPrefix | src/rockusb.c:159-189 | two records that agree on their first 11 bytes (the bytes read_flash_info receives) decode to the same flash_size, block_size, page_size and ecc_bits |
| Wire.FlashInfoRoundTrip | include/rockusb.h:44-53 | decoding an encoded flash_info_t gives it back |
| Wire.Signatures | include/rockusb.h:6-9 | the two signature constants, stored little-endian, spell "USBC" and "USBS", and they differ |
| Wire.OpcodesDistinct | include/rockusb.h:11-14 | the four opcodes are distinct |
| Protocol.Delivered | src/rockusb.c:60-79 | an incoming transfer delivers at most the bytes asked for, and all the bytes the library moved when it completed |
| Protocol.Complete | src/rockusb.c:60-100 | definition: rockusb_read and rockusb_write succeed exactly when the library reports no error and moved exactly the size asked for; a short transfer is a failure |
| Protocol.XferSize | src/rockusb.c:200 | definition: the transfer length count * 0x200 of a sector command, computed in 32 bits |
| Protocol.TagOf | src/rockusb.c:105-110 | definition: the tag of four draws, first draw most significant (Protocol.BuildCommand proves the loop computes it) |
| Protocol.Built | src/rockusb.c:103-112 | definition: the envelope cbw_build leaves, zero but for the signature, the tag and the opcode |
| Protocol.IdCommand | src/rockusb.c:131-134 | definition: the READ_FLASH_ID envelope: flags DIRECTION_IN, command length 6, transfer length 5 |
| Protocol.InfoCommand | src/rockusb.c:163-166 | definition: the READ_FLASH_INFO envelope: flags DIRECTION_IN, command length 6, transfer length 11 |
| Protocol.LbaCommand | src/rockusb.c:197-202 | definition: the sector command envelope: flags, command length 10, transfer length XferSize(count), byte-swapped address and count (its wire form is Protocol.LbaCommandOnWire) |
| Protocol.CheckStatus | src/rockusb.c:114-124 | 0 exactly when signature and tag match; -1 exactly on a bad signature; -2 exactly on a good signature with a wrong tag |
| Protocol.ExchangeCode | src/rockusb.c:191-230 | an exchange returns a code from -5 to 0, decided by the first phase that fails: -1 exactly when the command envelope is not sent in full; -2 exactly when it is but the data transfer is not complete; -3 exactly when both are but the status envelope is not received in full; -4 exactly when all three are but csw_check rejects the status; -5 exactly when csw_check accepts it, the exchange is a sector command and the status byte is 1; 0 otherwise |
| Protocol.PhasesRun | src/rockusb.c:191-230 | an exchange issues one to three of its transfers: only the command transfer when it returns -1, the command and data transfers when it returns -2, all three otherwise |
| Protocol.BuildCommand | src/rockusb.c:103-112 | the loop of four rand() draws builds the envelope whose tag holds the draws, first draw most significant, with everything else zero but signature and opcode |
| Protocol.TagOnWire | src/rockusb.c:105-110 | on the wire the tag bytes appear in the reverse of the order drawn |
| Protocol.CheckOnWire | src/rockusb.c:114-124 | a 13-byte status passes csw_check exactly when it starts with "USBS" and then the command's tag bytes |
| Protocol.AnswerAccepted | src/rockusb.c:214-227 | when the command and data phases complete, a status envelope with the right signature and tag gives 0, except that a sector command whose status byte is 1 gives -5 |
| Protocol.LbaCommandOnWire | src/rockusb.c:191-202 | the sector command's 31 bytes: signature, tag, transfer length count*512 in 32 bits, flags, command length 10, opcode, big-endian address and count |
| Protocol.LbaCommandsDiffer | src/rockusb.c:232-241 | the write command differs from the read command only in opcode and direction flag |
| Protocol.RockUsb.Send | src/rockusb.c:81-100 | one outgoing transfer is logged; 0 exactly when the library completed it, else -1 |
| Protocol.RockUsb.Receive | src/rockusb.c:60-79 | one incoming transfer is logged; 0 exactly when complete, else -1; the buffer receives the delivered bytes and nothing else changes |
| Protocol.RockUsb.ReadFlashId | src/rockusb.c:127-157 | the code is the exchange code for READ_FLASH_ID with 5 data bytes; the log holds the phases run; id receives the delivered bytes unless the command phase failed |
| Protocol.RockUsb.ReadFlashInfo | src/rockusb.c:159-189 | the same for READ_FLASH_INFO, with only the first 11 bytes of the record received |
| Protocol.RockUsb.ReadLba | src/rockusb.c:191-230 | the same for READ_LBA with count*512 bytes in and the status byte checked (-5) |
| Protocol.RockUsb.WriteLba | src/rockusb.c:232-269 | the same for WRITE_LBA, the data phase sending buf's count*512 bytes |
| Protocol.RockUsb.ExchangeOut | src/rockusb.c:243-268 | the command, data-out and status phases stop at the first failure with that phase's code |
| Protocol.RockUsb.Exchange | src/rockusb.c:204-229 | the command, data-in and status phases stop at the first failure with that phase's code |
| Table.Find | src/rockfuse.c:43-51 | the result is the first entry with exactly that path; none exactly when no entry has it |
| Table.Initial | src/rockfuse.c:33-41 | definition: vfile_tab as compiled in, with full.img and root.img still of size 0 (its properties are Table.InitialWellFormed and Table.FixedPartitionsContiguous) |
| Table.GetAttr | src/rockfuse.c:53-74 | "/" is a directory; the only error is -ENOENT; any other path is -ENOENT exactly when no entry has it, and otherwise succeeds as a regular file of sector_count * 512 bytes of an entry with that path |
| Table.Open | src/rockfuse.c:93-101 | 0 exactly when some entry has the path, else -ENOENT |
| Table.NamesAt | src/rockfuse.c:86-88 | the i-th listed name is the i-th path without its leading '/' |
| Table.Names | src/rockfuse.c:86-88 | definition: each table path without its leading '/', in table order |
| Table.ReadDir | src/rockfuse.c:76-91 | definition: "/" lists ".", ".." and the names, any other path is -ENOENT (its property is Table.ListedNamesResolve) |
| Table.Backpatched | src/rockfuse.c:294-296 | definition: full.img sized to the flash, root.img to the flash minus ROOT_START in 32-bit arithmetic (its properties are Table.BackpatchKeepsPaths, Table.BackpatchedLayout and Table.SmallFlashRootWraps) |
| Table.ListedNamesResolve | src/rockfuse.c:76-91 | readdir of "/" lists ".", ".." and one name per entry; putting '/' back in front of each listed name finds the entry it came from |
| Table.FixedPartitionsContiguous | src/rockfuse.c:11-20 | loader1, loader2, trust and boot follow each other without gap or overlap, and boot ends where root starts |
| Table.InitialWellFormed | src/rockfuse.c:33-41 | the compiled-in paths are absolute, non-empty below the root, and distinct |
| Table.BackpatchKeepsPaths | src/rockfuse.c:294-296 | resizing full.img and root.img changes no path and no start, and keeps the table well formed |
| Table.BackpatchedLayout | src/rockfuse.c:294-296 | on a flash of at least ROOT_START sectors, full.img is the whole flash, root.img runs to its end, and every file lies inside it |
| Table.SmallFlashRootWraps | src/rockfuse.c:295-296 | on a smaller flash the 32-bit subtraction wraps and root.img runs past the end of the flash |
| Sectors.Chunk | src/rockfuse.c:147-149 | with at least one sector left, a body command moves 1 to 128 whole sectors, no more bytes than are left, and every whole sector left when fewer than 128 are |
| Sectors.Lead | src/rockfuse.c:135-138 | the leading fragment is empty at an aligned offset; otherwise it stays inside the first sector, never exceeds the request, and ends the request or reaches a sector boundary |
| Sectors.Effective | src/rockfuse.c:117-123 | the length is 0 at or past the end of the file; otherwise it is at most the size asked and ends inside the file, either the whole size or up to the end of the file |
| Sectors.TailPos | src/rockfuse.c:162-163 | the trailing fragment starts after the lead and the whole sectors, and less than a sector before the end |
| Sectors.Body | src/rockfuse.c:147-160 | definition: the body loop's calls, Chunk(left) sectors at a time while a whole sector is left (its properties are Sectors.BodyChunks and Sectors.BodyCovers) |
| Sectors.ReadPlan | src/rockfuse.c:121-172 | definition: the calls of rockfuse_read for a clamped length when none fails: leading fragment read, body, trailing fragment read (its properties are Sectors.ReadPlanCovers and the examples) |
| Sectors.WritePlan | src/rockfuse.c:195-257 | definition: the calls of the corrected rockfuse_write when none fails: read-modify-write of the leading fragment, body, read-modify-write of the trailing fragment (its properties are Sectors.WritePlanCovers, Sectors.WritesMatchRead, Sectors.WriteCallHasWrite) |
| Sectors.BodyAsWritten | src/rockfuse.c:228-241 | definition: the write body as written, each call addressed by buf_pos, which then moves by num_sectors instead of num_sectors << 9 |
| Sectors.WritePlanAsWritten | src/rockfuse.c:195-257 | definition: the calls of rockfuse_write as written when none fails, its trailing fragment placed where the as-written loop leaves buf_pos (see Sectors.AsWrittenOneSector and Sectors.WriteAt100For1000AsWritten) |
| Sectors.BodyImageAsWritten | src/rockfuse.c:228-241 | definition: the flash image the as-written body leaves, each call writing the buffer from the lagging buf_pos |
| Sectors.ImageAsWritten | src/rockfuse.c:195-257 | definition: the flash image a successful as-written write leaves (compared with the corrected one in Sectors.AsWrittenOneSector) |
| Sectors.ReadRequest | src/rockfuse.c:117-174 | definition: the calls of rockfuse_read on a file: none at or past its end, else ReadPlan of the clamped length (its property is Sectors.RequestsStayInFile) |
| Sectors.WriteRequest | src/rockfuse.c:191-259 | definition: the same for the corrected rockfuse_write |
| Sectors.CursorAsWritten | src/rockfuse.c:228-241 | the as-written loop stops with under one sector's worth of size_left, having moved buf_pos and size_left by the same amount |
| Sectors.WritesAppend | src/rockfuse.c:203-257 | the write calls of two plans in a row are those of the first, then those of the second |
| Sectors.CoversAppend | src/rockfuse.c:147-160 | two call runs that address consecutive sector ranges one after the other address the union |
| Sectors.BodyChunks | src/rockfuse.c:147-160 | every body command moves 1 to 128 sectors |
| Sectors.BodyCovers | src/rockfuse.c:147-160 | the body addresses the whole sectors left consecutively, from the first aligned sector on |
| Sectors.ReadPlanCovers | src/rockfuse.c:121-172 | the calls of a read address consecutive sectors, from the one holding the first byte to the one holding the last, each a read of 1 to 128 sectors |
| Sectors.WritesMatchRead | src/rockfuse.c:195-257 | the write-backs of a corrected write address the same sectors, with the same counts, as the read of the same range |
| Sectors.WritePlanCovers | src/rockfuse.c:195-257 | the writes of a corrected write address consecutive sectors from the first byte's to the last byte's, each call moving 1 to 128 sectors |
| Sectors.RequestsStayInFile | src/rockfuse.c:117-123 | after clamping, every call of a read or a write lies inside the file's sector range |
| Sectors.WriteCallHasWrite | src/rockfuse.c:203-257 | every call of a corrected write, a fragment read included, is matched by a write of the same sectors |
| Sectors.WriteCallIsCovered | src/rockfuse.c:203-257 | every call of a corrected write lies between the first byte's sector and the last byte's sector |
| Sectors.ReadWithinOneSector | src/rockfuse.c:129-144 | an unaligned request inside one sector is one single-sector read, and for a write a read-modify-write of that sector |
| Sectors.ReadEmptyAligned | src/rockfuse.c:121-174 | an empty request at an aligned offset makes no call |
| Sectors.ReadOf300Sectors | src/rockfuse.c:147-160 | reading 300 sectors from sector 0 takes commands of 128, 128 and 44 sectors |
| Sectors.WriteAt100For1000 | src/rockfuse.c:203-257 | the corrected 1000-byte write at byte 100 of a file at sector s is: read-modify-write of sector s, one body write of sector s+1, then read-modify-write of sector s+2 |
| Sectors.WriteAt100For1000AsWritten | src/rockfuse.c:228-257 | as written, the 1000-byte write at byte 100 of a file at sector s is: read-modify-write of sector s, 77 writes of sector s+1 (buf_pos creeping from 412 to 488), then read-modify-write of sector s+1 again; sector s+2 is never written |
| Sectors.CreepingWrites | src/rockfuse.c:228-241 | the as-written body of that write, j steps before it stops, writes sector s+1 j more times and stops with buf_pos 489 and size_left 511 |
| Sectors.AsWrittenOneSector | src/rockfuse.c:239-240 | an aligned one-sector write as written issues write, read, write, and leaves buf[1] where buf[0] belongs; the corrected write issues one write and stores buf |
| Sectors.SpliceSector | src/rockfuse.c:215-217 | writing back a scratch sector patched at byte k patches those bytes of the flash |
| Sectors.SpliceJoin | src/rockfuse.c:223-256 | storing two adjacent ranges of the buffer in turn stores their union |
| Sectors.FilledTrans | src/rockfuse.c:140-171 | filling two adjacent ranges of the buffer in turn fills their union |
| Sectors.Flash.IssuedPrefix | src/rockfuse.c:130-171 | a request issues a prefix of its plan, and a non-empty one when the plan is non-empty |
| Sectors.Flash.IssuedCut | src/rockfuse.c:130-171 | every issued call but the last succeeded, and a request cut short was cut by its last call failing |
| Sectors.Flash.AllAcceptedEvery | src/rockfuse.c:130-171 | a plan succeeds exactly when each of its calls is accepted in turn |
| Sectors.Flash.IssuedConcat | src/rockfuse.c:130-171 | issuing two plans in a row issues the second only if all of the first succeeded |
| Sectors.Flash.IssuedAll | src/rockfuse.c:130-171 | a plan whose every call succeeds is issued in full |
| Sectors.Flash.IssuedPair | src/rockfuse.c:204-221 | a read-modify-write issues its write-back only when the read succeeded |
| Sectors.Flash.BodyRun | src/rockfuse.c:147-160 | definition: the body loop run against the flash, one call per chunk, the first failing call ending it (its properties are the BodyRun lemmas below, and Fuse.RockFuse.ReadBody and WriteBody are proved equal to it) |
| Sectors.Flash.BodyRunTrace | src/rockfuse.c:147-160 | the body loop issues its plan up to the first failing command, and succeeds exactly when every command does |
| Sectors.Flash.BodyRunStops | src/rockfuse.c:147-160 | the body loop stops inside its range, and after every whole sector when it succeeds |
| Sectors.Flash.BodyRunRead | src/rockfuse.c:147-160 | a read body fills the buffer from the flash up to where it stopped, and leaves the image alone (a failed call is taken to move nothing, see Left out) |
| Sectors.Flash.BodyRunWrite | src/rockfuse.c:228-241 | a corrected write body copies the buffer onto the flash up to where it stopped (a failed call is taken to move nothing, see Left out) |
| Sectors.Flash.ReadRunIssues | src/rockfuse.c:121-172 | a read transfer issues its plan up to the first failing call, and succeeds exactly when every call does |
| Sectors.Flash.ReadRun | src/rockfuse.c:121-172 | definition: rockfuse_read's transfer against the flash: leading fragment, body, trailing fragment, each only if everything before succeeded (Fuse.RockFuse.ReadRange is proved equal to it) |
| Sectors.Flash.ReadRunFills | src/rockfuse.c:121-172 | a read fills only its range of the buffer, and only up to its first failing call (taken to move nothing, see Left out); when it succeeds, all n bytes equal the flash bytes from the file offset on |
| Sectors.Flash.WriteRunIssues | src/rockfuse.c:195-257 | a corrected write transfer issues its plan up to the first failing call, and succeeds exactly when every call does |
| Sectors.Flash.WriteRun | src/rockfuse.c:195-257 | definition: the corrected rockfuse_write's transfer against the flash, in the same shape (Fuse.RockFuse.WriteRange is proved equal to it) |
| Sectors.Flash.WriteRunWrites | src/rockfuse.c:195-257 | a corrected write stores a prefix of the buffer at the file offset and changes nothing else on the flash (a failed call being taken to move nothing, see Left out); when it succeeds the prefix is all n bytes |
| Sectors.Flash.ReadLba | include/rockusb.h:58 | a sector read appends its call to the trace; it succeeds as the oracle and the flash size allow; on success buf[at..] receives the sectors; a failed read is taken to leave buf unchanged (see Left out); the flash is unchanged |
| Sectors.Flash.WriteLba | include/rockusb.h:59 | a sector write appends its call to the trace; on success the flash receives buf's bytes at the sector; a failed write is taken to leave the flash unchanged (see Left out) |
| Fuse.Copy | src/rockfuse.c:140 | memcpy: the destination is its old contents with the copied range replaced |
| Fuse.RockFuse.Init | src/rockfuse.c:266-314 | 0 exactly when both queries succeed, and then the table is resized from the reported flash size; -1 otherwise with the table untouched (the failure of `pthread_mutex_init` after the resize, which returns -1 with the table already resized, is left out with the mutex); the log holds the READ_FLASH_ID exchange's transfers up to its first failure and then, only if it succeeded, those of the READ_FLASH_INFO exchange |
| Fuse.RockFuse.Fetch | src/rockfuse.c:130-140 | one single-sector read into workbuf, then a copy of the fragment into the caller's buffer, as one fragment read |
| Fuse.RockFuse.Patch | src/rockfuse.c:204-221 | read the sector into workbuf, patch the fragment, write it back, as one fragment write |
| Fuse.RockFuse.ReadBody | src/rockfuse.c:147-160 | the read body loop does what the body run specifies; when it succeeds, under one sector is left |
| Fuse.RockFuse.ReadRange | src/rockfuse.c:125-172 | the read of n bytes does what the read run specifies: trace, buffer and success |
| Fuse.RockFuse.ReadRest | src/rockfuse.c:146-172 | body and trailing fragment of a read do what the rest run specifies |
| Fuse.RockFuse.ReadTail | src/rockfuse.c:162-172 | the trailing fragment of a read does what the tail run specifies |
| Fuse.RockFuse.Read | src/rockfuse.c:107-179 | an unknown path gives -ENOENT and touches nothing; otherwise the clamped length is read: the calls are the plan up to the first failure, the result is the length if all succeed and 0 if not, only the read range of the buffer changes, on success it holds the file's bytes, and the flash never changes |
| Fuse.RockFuse.ReadEntry | src/rockfuse.c:117-178 | the same, once the entry is found |
| Fuse.RockFuse.WriteBody | src/rockfuse.c:228-241 | the corrected write body loop does what the body run specifies; when it succeeds, under one sector is left |
| Fuse.RockFuse.WriteRange | src/rockfuse.c:199-257 | the corrected write of n bytes does what the write run specifies: trace, image and success |
| Fuse.RockFuse.WriteRest | src/rockfuse.c:227-257 | body and trailing fragment of the corrected write do what the rest run specifies |
| Fuse.RockFuse.WriteTail | src/rockfuse.c:243-257 | the trailing read-modify-write does what the tail run specifies |
| Fuse.RockFuse.Write | src/rockfuse.c:181-264 | an unknown path gives -ENOENT and touches nothing; otherwise the clamped length is written by the corrected loop: the calls are the plan up to the first failure, the result is the length if all succeed and 0 if not, the flash holds a prefix of the buffer at the file offset and nothing else changed, and all of it on success |
| Fuse.RockFuse.WriteEntry | src/rockfuse.c:191-263 | the same for the corrected write, once the entry is found |

## Left out

- libusb: the USB library is the oracle `link` of `Protocol.RockUsb`. Its timeouts, the
  endpoint numbers and how it splits transfers are not modelled.
- `rockusb_init` (src/rockusb.c:21-58), which opens the device by vendor and product id and
  claims the interface, is left out. `Fuse.RockFuse.Init` starts after it succeeded.
- src/main.c and the FUSE plumbing (`rockfuse_main`, the operations table, `struct stat`
  fields other than kind and size, `fuse_file_info`) are left out. `readdir` returns the
  listed names instead of calling `filler`.
- `rand()` is an input: each exchange takes the four bytes it draws.
- `printf` and `fprintf` diagnostics are left out, including the VERBOSE dump of the flash info.
- The mutex is left out, with all concurrency. Every transfer runs alone. As written, the
  failure paths of `rockfuse_read` and `rockfuse_write` return without unlocking
  (src/rockfuse.c:133-255), so the next request would block forever. The model does not
  capture this. `rockfuse_init` also returns -1 when `pthread_mutex_init` fails
  (src/rockfuse.c:309-310), after the table was already resized at 294-296; the model has no
  such failure, so `Fuse.RockFuse.Init` returns 0 whenever both queries succeed.
- Fuse.RockFuse.Read and Fuse.RockFuse.Write see the device through `Sectors.Flash` rather than
  `Protocol.RockUsb`. A sector call succeeds as a failure oracle says, and fails past the end of
  the flash. `Protocol.RockUsb.ReadLba` and `Protocol.RockUsb.WriteLba` model what such a call
  is on the wire. The two layers are not composed into one proof.
- Fuse.RockFuse.Read, Fuse.RockFuse.Write: `size`, `offset`, the file sizes and the flash size
  are unbounded naturals. The 32-bit truncation of `buf_pos`, `fragsize` and the sector
  address passed to `rockusb_read_lba` only matters for requests or flashes beyond 4 GiB, and is
  not modelled. The 16-bit sector count cannot overflow because a call moves at most 128
  sectors. The 32-bit subtraction in `rockfuse_init` is modelled (`Table.Backpatched`).
- Protocol.RockUsb.ReadFlashInfo: only the first 11 bytes of the record are received, as the
  code does. `flash_info_t` follows the packed structure in include/rockusb.h, which is
  515 bytes, not 512.
- Sectors.Flash.ReadLba: a failed sector read is taken to leave the buffer unchanged. In
  rockusb_read_lba the data phase fills the buffer (src/rockusb.c:209) before the status is
  received and checked, so a call that returns -3, -4 or -5 has already moved its data. The
  read contracts built on it (Sectors.Flash.BodyRunRead, Sectors.Flash.ReadRunFills,
  Fuse.RockFuse.Read) therefore do not describe the buffer bytes of the failing call.
- Sectors.Flash.WriteLba: a failed sector write is taken to leave the flash unchanged. In
  rockusb_write_lba the sectors are sent (src/rockusb.c:248) before the status is checked, so
  after a -3, -4 or -5 the device may have written them. Sectors.Flash.BodyRunWrite,
  Sectors.Flash.WriteRunWrites and Fuse.RockFuse.Write state the flash image on failure under
  that assumption.
- Protocol.Delivered: a transfer for which the library returns an error delivers no bytes in
  the model. libusb may have placed some of them in the buffer before it failed.
- Fuse.RockFuse.WriteEntry, like Fuse.RockFuse.Write, models the corrected body loop.
- Fuse.RockFuse.WriteRest models the corrected body loop followed by the trailing fragment.
- Fuse.RockFuse.Write models the corrected body loop. The loop as written is
  `Sectors.WritePlanAsWritten` and `Sectors.ImageAsWritten`, compared in the finding below, and
  it is not given a method of its own.

## Findings

| source | as written | input that shows it | evidently intended | confidence | as-written member | corrected member |
|---|---|---|---|---|---|---|
| src/rockfuse.c:239-240 | the aligned write loop advances `buf_pos` and `size_left` by `num_sectors` (a sector count) instead of `num_sectors << 9` bytes | an aligned 512-byte write at offset 0 with buf[0] != buf[1]: the loop writes the sector once and leaves `buf_pos` at 1 and `size_left` at 511; the trailing read-modify-write then copies buf[1..512] to the start of the same sector, so the flash holds buf[1] where buf[0] belongs. Likewise a 1000-byte write at offset 100 writes sector s+1 77 times and never writes sector s+2 (Sectors.WriteAt100For1000AsWritten) | advance by `num_sectors << 9`, as the read loop does at src/rockfuse.c:158-159 | not executed | Sectors.AsWrittenOneSector | Sectors.Flash.WriteRunWrites |
