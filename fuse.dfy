/**
 * The file system callbacks: the virtual-file table as state, the byte-range read and
 * write translators over the flash device, and the initialisation that sizes the table
 * from the device's answers.
 */
module Fuse {
  import opened Wire
  import opened Table
  import opened Sectors
  import opened Protocol

  /** memcpy(dst + to, src + from, len) */
  method Copy(src: array<byte>, from: nat, dst: array<byte>, to: nat, len: nat)
    requires src != dst && from + len <= src.Length && to + len <= dst.Length
    modifies dst
    ensures dst[..] == Splice(old(dst[..]), to, src[from..from + len])
  {
    forall i | 0 <= i < len {
      dst[to + i] := src[from + i];
    }
  }

  class RockFuse {
    /** vfile_tab: the files the mount shows. */
    var tab: seq<Entry>
    /** workbuf: the one-sector scratch buffer of the unaligned fragments. */
    const workbuf: array<byte>
    /** The flash behind rockusb_read_lba and rockusb_write_lba. */
    const dev: Flash

    ghost predicate Valid()
      reads this
    {
      |tab| == 6 && WellFormed(tab) && workbuf.Length == SECTOR && workbuf != dev.bytes
    }

    constructor (dev: Flash)
      ensures Valid() && tab == Initial() && this.dev == dev && fresh(workbuf)
    {
      tab := Initial();
      workbuf := new byte[SECTOR];
      this.dev := dev;
      InitialWellFormed();
    }

    /**
     * rockfuse_init after the device is opened: reads the flash id, then the flash info into a
     * record filled with 0xaa, and sizes full.img and root.img from the reported flash size.
     * Either query failing makes it return -1 with the table untouched.
     */
    method Init(usb: RockUsb, idRand: seq<byte>, infoRand: seq<byte>) returns (r: int)
      requires Valid() && |idRand| == 4 && |infoRand| == 4
      modifies this`tab, usb`log
      ensures Valid()
      ensures var k := |old(usb.log)|;
        var idCode := ExchangeCode(IdCommand(TagOf(idRand)), 5, usb.link(k), usb.link(k + 1), usb.link(k + 2), false);
        var infoCode := ExchangeCode(InfoCommand(TagOf(infoRand)), FLASH_INFO_PREFIX,
                                     usb.link(k + 3), usb.link(k + 4), usb.link(k + 5), false);
        && (r == 0 <==> idCode == 0 && infoCode == 0)
        && (r != 0 ==> r == -1 && tab == old(tab))
        && (r == 0 ==> |usb.link(k + 4).moved| == FLASH_INFO_PREFIX
                       && tab == Backpatched(old(tab), Load32(usb.link(k + 4).moved, 0)))
        && usb.log == old(usb.log)
             + [Out(EncodeCommand(IdCommand(TagOf(idRand)))), In(5), In(CSW_SIZE)][..PhasesRun(idCode)]
             + (if idCode == 0
                then [Out(EncodeCommand(InfoCommand(TagOf(infoRand)))), In(FLASH_INFO_PREFIX), In(CSW_SIZE)][..PhasesRun(infoCode)]
                else [])
    {
      ghost var k, log0 := |usb.log|, usb.log;
      ghost var idPhases := [Out(EncodeCommand(IdCommand(TagOf(idRand)))), In(5), In(CSW_SIZE)];
      ghost var infoPhases := [Out(EncodeCommand(InfoCommand(TagOf(infoRand)))), In(FLASH_INFO_PREFIX), In(CSW_SIZE)];
      var id := new byte[5];
      var rc := usb.ReadFlashId(idRand, id);
      ghost var log1 := usb.log;
      assert log1 == log0 + idPhases[..PhasesRun(rc)];
      if rc != 0 {
        assert usb.log == log0 + idPhases[..PhasesRun(rc)] + [];
        return -1;
      }
      assert |log1| == k + 3;
      var info := new byte[FLASH_INFO_SIZE](_ => 0xaa);
      rc := usb.ReadFlashInfo(infoRand, info);
      assert usb.log == log1 + infoPhases[..PhasesRun(rc)];
      if rc != 0 {
        return -1;
      }
      ghost var moved := usb.link(k + 4).moved;
      assert |moved| == FLASH_INFO_PREFIX;
      assert info[..4] == moved[..4];
      var flashSize := DecodeFlashInfo(info[..]).flashSize;
      assert flashSize == Load32(moved, 0);
      tab := tab[FILE_FULL := tab[FILE_FULL].(count := flashSize)];
      tab := tab[FILE_ROOT := tab[FILE_ROOT].(count := (flashSize - ROOT_START) % 0x1_0000_0000)];
      assert tab == Backpatched(old(tab), flashSize);
      BackpatchKeepsPaths(old(tab), flashSize);
      return 0;
    }

    /** A rockusb_read_lba of one sector into workbuf, then memcpy of `len` of its bytes from byte `at` to buf[to..]. */
    method Fetch(lba: nat, at: nat, buf: array<byte>, to: nat, len: nat) returns (ok: bool)
      requires Valid() && buf != workbuf && buf != dev.bytes && at + len <= SECTOR && to + len <= buf.Length
      modifies dev`trace, buf, workbuf
      ensures dev.bytes[..] == old(dev.bytes[..])
      ensures var r := dev.FragRead(old(dev.bytes[..]), old(buf[..]), |old(dev.trace)|, lba, at, to, len);
        dev.trace == old(dev.trace) + r.calls && buf[..] == r.buf && ok == r.ok
    {
      ghost var w0 := workbuf[..];
      ok := dev.ReadLba(lba, 1, workbuf, 0);
      if ok {
        assert (lba + 1) * SECTOR == lba * SECTOR + SECTOR;
        SpliceWhole(w0, dev.bytes[lba * SECTOR..lba * SECTOR + SECTOR]);
        assert workbuf[..] == dev.bytes[lba * SECTOR..lba * SECTOR + SECTOR];
        Copy(workbuf, at, buf, to, len);
        assert workbuf[at..at + len] == dev.bytes[lba * SECTOR + at..lba * SECTOR + at + len];
      }
    }

    /**
     * Read-modify-write of sector lba through workbuf: rockusb_read_lba of the sector, memcpy of
     * buf[from..from + len] to byte `at` of it, rockusb_write_lba of it back. Trace, flash and
     * outcome are those of the fragment write from the entry state.
     */
    method Patch(lba: nat, at: nat, buf: array<byte>, from: nat, len: nat) returns (ok: bool)
      requires Valid() && buf != workbuf && buf != dev.bytes && at + len <= SECTOR && from + len <= buf.Length
      modifies dev`trace, dev.bytes, workbuf
      ensures var r := dev.FragWrite(old(dev.bytes[..]), buf[..], |old(dev.trace)|, lba, at, from, len);
        dev.trace == old(dev.trace) + r.calls && dev.bytes[..] == r.img && ok == r.ok
    {
      ghost var w0 := workbuf[..];
      ok := dev.ReadLba(lba, 1, workbuf, 0);
      if !ok {
        return;
      }
      ghost var sector := dev.bytes[lba * SECTOR..lba * SECTOR + SECTOR];
      assert (lba + 1) * SECTOR == lba * SECTOR + SECTOR;
      SpliceWhole(w0, sector);
      assert workbuf[..] == sector;
      Copy(buf, from, workbuf, at, len);
      ok := dev.WriteLba(lba, 1, workbuf, 0);
      if ok {
        assert workbuf[0..SECTOR] == workbuf[..];
        SpliceSector(old(dev.bytes[..]), lba, at, buf[from..from + len]);
      }
    }

    /**
     * The aligned body of rockfuse_read: chunks of at most MAX_SECTORS sectors from sector
     * start + (offset + pos0) / SECTOR straight into buf[pos0..], up to the first failing call.
     * Trace, buffer, outcome and stopping position are those of the body run from the entry state.
     */
    method ReadBody(start: nat, offset: nat, pos0: nat, left0: nat, buf: array<byte>) returns (ok: bool, pos: nat, left: nat)
      requires buf != dev.bytes && pos0 + left0 <= buf.Length
      requires left0 >= SECTOR ==> (offset + pos0) % SECTOR == 0
      modifies dev`trace, buf
      ensures dev.bytes[..] == old(dev.bytes[..])
      ensures var r := dev.BodyRun(Rd, old(dev.bytes[..]), old(buf[..]), |old(dev.trace)|, start + (offset + pos0) / SECTOR, pos0, left0);
        dev.trace == old(dev.trace) + r.calls && buf[..] == r.buf && ok == r.ok && pos == r.pos
      ensures ok ==> left == left0 % SECTOR
    {
      ghost var img, lba0, k0, b0 := dev.bytes[..], start + (offset + pos0) / SECTOR, |dev.trace|, buf[..];
      ghost var r0 := dev.BodyRun(Rd, img, b0, k0, lba0, pos0, left0);
      ghost var k, lbaG, rest, moved := k0, lba0, r0, 0;
      pos, left := pos0, left0;
      ok := true;
      while left >= SECTOR
        invariant pos == pos0 + moved * SECTOR && left0 == moved * SECTOR + left && lbaG == lba0 + moved
        invariant k == |dev.trace| && dev.bytes[..] == img && ok
        invariant rest == dev.BodyRun(Rd, img, buf[..], k, lbaG, pos, left)
        invariant old(dev.trace) + r0.calls == dev.trace + rest.calls
        invariant rest.img == r0.img && rest.buf == r0.buf && rest.ok == r0.ok && rest.pos == r0.pos
        decreases left
      {
        var count := Chunk(left);
        var lba := start + (offset + pos) / SECTOR;
        AlignedAt(start, offset, pos0, pos, moved);
        assert lba == lbaG;
        ghost var t, before := dev.trace, buf[..];
        ok := dev.ReadLba(lba, count, buf, pos);
        if !ok {
          dev.BodyLoopFails(Rd, old(dev.trace), r0, t, dev.trace, rest, img, before, k, lbaG, pos, left);
          break;
        }
        ghost var nk, nl := k + 1, lbaG + count;
        var np, nleft := pos + count * SECTOR, left - count * SECTOR;
        assert A1: |img| == dev.bytes.Length && pos + left <= |before|;
        assert A2: dev.Accepts(Call(Rd, lbaG, Chunk(left)), k);
        assert A3: buf[..] == Splice(before, pos, img[lbaG * SECTOR..(lbaG + Chunk(left)) * SECTOR]);
        assert A4: dev.trace == t + [Call(Rd, lbaG, Chunk(left))];
        dev.BodyLoopStep(Rd, old(dev.trace), r0, t, dev.trace, rest, dev.BodyRun(Rd, img, buf[..], nk, nl, np, nleft),
                         img, before, k, lbaG, pos, left, img, buf[..], nk, nl, np, nleft);
        rest := dev.BodyRun(Rd, img, buf[..], nk, nl, np, nleft);
        moved := moved + count;
        k, lbaG := nk, nl;
        pos, left := np, nleft;
      }
      if ok {
        dev.BodyLoopDone(Rd, old(dev.trace), r0, dev.trace, rest, img, buf[..], k, lbaG, pos, left);
        SectorDivMod(left0, moved, left);
      }
    }

    /**
     * The transfer of rockfuse_read for a clamped length n: the leading fragment through workbuf,
     * then the rest of the transfer if it succeeded. Trace, buffer and outcome are those of the
     * read run from the entry state.
     */
    method ReadRange(start: nat, offset: nat, n: nat, buf: array<byte>) returns (ok: bool)
      requires Valid() && buf != workbuf && buf != dev.bytes && n <= buf.Length
      modifies dev`trace, buf, workbuf
      ensures dev.bytes[..] == old(dev.bytes[..])
      ensures var r := dev.ReadRun(old(dev.bytes[..]), old(buf[..]), |old(dev.trace)|, start, offset, n);
        dev.trace == old(dev.trace) + r.calls && buf[..] == r.buf && ok == r.ok
    {
      ghost var img, b0, k, t0 := dev.bytes[..], buf[..], |dev.trace|, dev.trace;
      ghost var h := dev.HeadRead(img, b0, k, start, offset, n);
      var pos := 0;
      ok := true;
      if offset % SECTOR != 0 {
        var frag := SECTOR - offset % SECTOR;
        if frag > n {
          frag := n;
        }
        assert h == dev.FragRead(img, b0, k, start + offset / SECTOR, offset % SECTOR, 0, frag) by {
          dev.HeadReadFrag(img, b0, k, start, offset, n);
        }
        ok := Fetch(start + offset / SECTOR, offset % SECTOR, buf, 0, frag);
        pos := frag;
      } else {
        assert h == Run([], img, b0, true, 0) by {
          dev.HeadReadFrag(img, b0, k, start, offset, n);
        }
        assert t0 + [] == t0;
      }
      assert dev.trace == t0 + h.calls && buf[..] == h.buf && ok == h.ok && dev.bytes[..] == img;
      if ok {
        ghost var t1 := dev.trace;
        ghost var r := dev.RestRead(img, h.buf, k + |h.calls|, start, offset, n);
        ok := ReadRest(start, offset, n, pos, buf);
        assert dev.trace == t0 + (h.calls + r.calls) by {
          Regroup3(t0, h.calls, r.calls);
        }
      }
    }

    /**
     * The rest of rockfuse_read after a successful leading fragment ending at buf[pos]: the aligned
     * body straight into buf, then the trailing fragment through workbuf if the body succeeded.
     */
    method ReadRest(start: nat, offset: nat, n: nat, pos: nat, buf: array<byte>) returns (ok: bool)
      requires Valid() && buf != workbuf && buf != dev.bytes && n <= buf.Length && pos == Lead(offset, n)
      modifies dev`trace, buf, workbuf
      ensures dev.bytes[..] == old(dev.bytes[..])
      ensures var r := dev.RestRead(old(dev.bytes[..]), old(buf[..]), |old(dev.trace)|, start, offset, n);
        dev.trace == old(dev.trace) + r.calls && buf[..] == r.buf && ok == r.ok
    {
      ghost var img, b0, k, t0 := dev.bytes[..], buf[..], |dev.trace|, dev.trace;
      assert img == old(dev.bytes[..]) && b0 == old(buf[..]) && t0 == old(dev.trace);
      ghost var m := dev.BodyRun(Rd, img, b0, k, start + (offset + pos) / SECTOR, pos, n - pos);
      var p, left;
      ok, p, left := ReadBody(start, offset, pos, n - pos, buf);
      ghost var e := dev.TailRead(img, m.buf, k + |m.calls|, start, offset, n);
      ghost var whole := dev.RestRead(img, b0, k, start, offset, n);
      assert whole == if m.ok then e.(calls := m.calls + e.calls) else m;
      if !ok {
        assert whole == m;
        return;
      }
      dev.BodyRunToTail(Rd, img, b0, k, start, offset, n);
      assert dev.bytes[..] == img && buf[..] == m.buf && dev.trace == t0 + m.calls;
      ok := ReadTail(start, offset, n, p, buf);
      assert whole == e.(calls := m.calls + e.calls);
      assert dev.trace == t0 + (m.calls + e.calls) by {
        Regroup3(t0, m.calls, e.calls);
      }
    }

    /** The trailing fragment of rockfuse_read, at buf[p], if a partial sector is left after the body. */
    method ReadTail(start: nat, offset: nat, n: nat, p: nat, buf: array<byte>) returns (ok: bool)
      requires Valid() && buf != workbuf && buf != dev.bytes && n <= buf.Length && p == TailPos(offset, n)
      modifies dev`trace, buf, workbuf
      ensures dev.bytes[..] == old(dev.bytes[..])
      ensures var r := dev.TailRead(old(dev.bytes[..]), old(buf[..]), |old(dev.trace)|, start, offset, n);
        dev.trace == old(dev.trace) + r.calls && buf[..] == r.buf && ok == r.ok
    {
      dev.TailReadFrag(dev.bytes[..], buf[..], |dev.trace|, start, offset, n);
      if p < n {
        ok := Fetch(start + (offset + p) / SECTOR, 0, buf, p, n - p);
      } else {
        ok := true;
        assert dev.trace + [] == dev.trace;
      }
    }

    /**
     * What rockfuse_read leaves behind on entry e, from trace trace0 and buffer contents b0, with
     * the flash image img: the calls issued are those of the read request up to the first
     * failure, the result is the clamped length if none failed and 0 otherwise, buf past the
     * clamped length is untouched, and on success buf holds the flash bytes of the request.
     */
    ghost predicate ReadOut(e: Entry, offset: nat, size: nat, trace0: seq<Call>, b0: seq<byte>, img: seq<byte>,
                            trace: seq<Call>, b: seq<byte>, r: int)
    {
      var n, plan, k := Effective(e.count, offset, size), ReadRequest(e, offset, size), |trace0|;
      && trace == trace0 + dev.Issued(plan, k)
      && r == (if dev.AllAccepted(plan, k) then n else 0)
      && Outside(b, b0, 0, n)
      && (dev.AllAccepted(plan, k) ==> Mirrors(b, img, e.start * SECTOR + offset, 0, n))
    }

    /**
     * rockfuse_read: a path not in the table is -ENOENT and changes nothing; otherwise the request
     * is clamped to the file and transferred, stopping at the first failing device call, as
     * ReadOut describes.
     */
    method Read(path: string, buf: array<byte>, size: nat, offset: nat) returns (r: int)
      requires Valid() && buf != workbuf && buf != dev.bytes && size <= buf.Length
      modifies dev`trace, buf, workbuf
      ensures Valid() && dev.bytes[..] == old(dev.bytes[..])
      ensures Find(tab, path).None? ==> r == -ENOENT && dev.trace == old(dev.trace) && buf[..] == old(buf[..])
      ensures Find(tab, path).Some? ==>
        ReadOut(tab[Find(tab, path).value], offset, size, old(dev.trace), old(buf[..]), dev.bytes[..], dev.trace, buf[..], r)
    {
      var found := Find(tab, path);
      if found.None? {
        return -ENOENT;
      }
      r := ReadEntry(tab[found.value], buf, size, offset);
    }

    /** The part of rockfuse_read after the path lookup found entry e. */
    method ReadEntry(e: Entry, buf: array<byte>, size: nat, offset: nat) returns (r: int)
      requires Valid() && buf != workbuf && buf != dev.bytes && size <= buf.Length
      modifies dev`trace, buf, workbuf
      ensures Valid() && dev.bytes[..] == old(dev.bytes[..])
      ensures ReadOut(e, offset, size, old(dev.trace), old(buf[..]), dev.bytes[..], dev.trace, buf[..], r)
    {
      var maxlen := e.count * SECTOR;
      if offset >= maxlen {
        return 0;
      }
      var n := if offset + size > maxlen then maxlen - offset else size;
      ghost var img, b0, k := dev.bytes[..], buf[..], |dev.trace|;
      ghost var run := dev.ReadRun(img, b0, k, e.start, offset, n);
      dev.ReadRunIssues(img, b0, k, e.start, offset, n);
      dev.ReadRunFills(img, b0, k, e.start, offset, n);
      OutsideWiden(run.buf, b0, 0, run.pos, n);
      assert ReadRequest(e, offset, size) == ReadPlan(e.start, offset, n);
      var ok := ReadRange(e.start, offset, n, buf);
      assert dev.bytes[..] == img && buf[..] == run.buf && dev.trace == old(dev.trace) + run.calls && ok == run.ok;
      r := if ok then n else 0;
    }
      /**
     * The aligned body of rockfuse_write: chunks of at most MAX_SECTORS sectors from buf[pos0..]
     * straight to sector start + (offset + pos0) / SECTOR on, up to the first failing call, with
     * buf_pos and size_left moving by the bytes written. Trace, flash, outcome and stopping
     * position are those of the body run from the entry state.
     */
    method WriteBody(start: nat, offset: nat, pos0: nat, left0: nat, buf: array<byte>) returns (ok: bool, pos: nat, left: nat)
      requires buf != dev.bytes && pos0 + left0 <= buf.Length
      requires left0 >= SECTOR ==> (offset + pos0) % SECTOR == 0
      modifies dev`trace, dev.bytes
      ensures var r := dev.BodyRun(Wr, old(dev.bytes[..]), buf[..], |old(dev.trace)|, start + (offset + pos0) / SECTOR, pos0, left0);
        dev.trace == old(dev.trace) + r.calls && dev.bytes[..] == r.img && ok == r.ok && pos == r.pos
      ensures ok ==> left == left0 % SECTOR
    {
      ghost var lba0, k0, b := start + (offset + pos0) / SECTOR, |dev.trace|, buf[..];
      ghost var r0 := dev.BodyRun(Wr, dev.bytes[..], b, k0, lba0, pos0, left0);
      ghost var k, lbaG, rest, moved := k0, lba0, r0, 0;
      pos, left := pos0, left0;
      ok := true;
      while left >= SECTOR
        invariant pos == pos0 + moved * SECTOR && left0 == moved * SECTOR + left && lbaG == lba0 + moved
        invariant k == |dev.trace| && buf[..] == b && ok
        invariant rest == dev.BodyRun(Wr, dev.bytes[..], b, k, lbaG, pos, left)
        invariant old(dev.trace) + r0.calls == dev.trace + rest.calls
        invariant rest.img == r0.img && rest.buf == r0.buf && rest.ok == r0.ok && rest.pos == r0.pos
        decreases left
      {
        var count := Chunk(left);
        var lba := start + (offset + pos) / SECTOR;
        AlignedAt(start, offset, pos0, pos, moved);
        assert lba == lbaG;
        ghost var t, before := dev.trace, dev.bytes[..];
        ok := dev.WriteLba(lba, count, buf, pos);
        if !ok {
          dev.BodyLoopFails(Wr, old(dev.trace), r0, t, dev.trace, rest, before, b, k, lbaG, pos, left);
          break;
        }
        ghost var nk, nl := k + 1, lbaG + count;
        var np, nleft := pos + count * SECTOR, left - count * SECTOR;
        assert |before| == dev.bytes.Length && pos + left <= |b|;
        assert dev.Accepts(Call(Wr, lbaG, Chunk(left)), k);
        assert dev.bytes[..] == Splice(before, lbaG * SECTOR, b[pos..pos + Chunk(left) * SECTOR]);
        assert dev.trace == t + [Call(Wr, lbaG, Chunk(left))];
        dev.BodyLoopStep(Wr, old(dev.trace), r0, t, dev.trace, rest, dev.BodyRun(Wr, dev.bytes[..], b, nk, nl, np, nleft),
                         before, b, k, lbaG, pos, left, dev.bytes[..], b, nk, nl, np, nleft);
        rest := dev.BodyRun(Wr, dev.bytes[..], b, nk, nl, np, nleft);
        moved := moved + count;
        k, lbaG := nk, nl;
        pos, left := np, nleft;
      }
      if ok {
        dev.BodyLoopDone(Wr, old(dev.trace), r0, dev.trace, rest, dev.bytes[..], b, k, lbaG, pos, left);
        SectorDivMod(left0, moved, left);
      }
    }

    /**
     * The transfer of the corrected rockfuse_write for a clamped length n: the leading fragment
     * through workbuf, then the rest of the transfer if it succeeded. Trace, flash and outcome are
     * those of the write run from the entry state.
     */
    method WriteRange(start: nat, offset: nat, n: nat, buf: array<byte>) returns (ok: bool)
      requires Valid() && buf != workbuf && buf != dev.bytes && n <= buf.Length
      modifies dev`trace, dev.bytes, workbuf
      ensures var r := dev.WriteRun(old(dev.bytes[..]), buf[..], |old(dev.trace)|, start, offset, n);
        dev.trace == old(dev.trace) + r.calls && dev.bytes[..] == r.img && ok == r.ok
    {
      ghost var img, b, k, t0 := dev.bytes[..], buf[..], |dev.trace|, dev.trace;
      ghost var h := dev.HeadWrite(img, b, k, start, offset, n);
      var pos := 0;
      ok := true;
      if offset % SECTOR != 0 {
        var frag := SECTOR - offset % SECTOR;
        if frag > n {
          frag := n;
        }
        assert h == dev.FragWrite(img, b, k, start + offset / SECTOR, offset % SECTOR, 0, frag);
        ok := Patch(start + offset / SECTOR, offset % SECTOR, buf, 0, frag);
        pos := frag;
      } else {
        assert t0 + [] == t0;
      }
      assert dev.trace == t0 + h.calls && dev.bytes[..] == h.img && ok == h.ok;
      if ok {
        ghost var r := dev.RestWrite(h.img, b, k + |h.calls|, start, offset, n);
        ok := WriteRest(start, offset, n, pos, buf);
        assert dev.trace == t0 + (h.calls + r.calls) by {
          Regroup3(t0, h.calls, r.calls);
        }
      }
    }

    /**
     * The rest of the corrected rockfuse_write after a successful leading fragment ending at
     * buf[pos]: the aligned body, then the trailing fragment through workbuf if the body succeeded.
     */
    method WriteRest(start: nat, offset: nat, n: nat, pos: nat, buf: array<byte>) returns (ok: bool)
      requires Valid() && buf != workbuf && buf != dev.bytes && n <= buf.Length && pos == Lead(offset, n)
      modifies dev`trace, dev.bytes, workbuf
      ensures var r := dev.RestWrite(old(dev.bytes[..]), buf[..], |old(dev.trace)|, start, offset, n);
        dev.trace == old(dev.trace) + r.calls && dev.bytes[..] == r.img && ok == r.ok
    {
      ghost var img, b, k, t0 := dev.bytes[..], buf[..], |dev.trace|, dev.trace;
      ghost var m := dev.BodyRun(Wr, img, b, k, start + (offset + pos) / SECTOR, pos, n - pos);
      var p, left;
      ok, p, left := WriteBody(start, offset, pos, n - pos, buf);
      ghost var e := dev.TailWrite(m.img, b, k + |m.calls|, start, offset, n);
      ghost var whole := dev.RestWrite(img, b, k, start, offset, n);
      assert whole == if m.ok then e.(calls := m.calls + e.calls) else m;
      if !ok {
        assert whole == m;
        return;
      }
      dev.BodyRunToTail(Wr, img, b, k, start, offset, n);
      assert dev.bytes[..] == m.img && buf[..] == b && dev.trace == t0 + m.calls;
      ok := WriteTail(start, offset, n, p, buf);
      assert whole == e.(calls := m.calls + e.calls);
      assert dev.trace == t0 + (m.calls + e.calls) by {
        Regroup3(t0, m.calls, e.calls);
      }
    }

    /** The trailing fragment of the corrected rockfuse_write, from buf[p], if a partial sector is left after the body. */
    method WriteTail(start: nat, offset: nat, n: nat, p: nat, buf: array<byte>) returns (ok: bool)
      requires Valid() && buf != workbuf && buf != dev.bytes && n <= buf.Length && p == TailPos(offset, n)
      modifies dev`trace, dev.bytes, workbuf
      ensures var r := dev.TailWrite(old(dev.bytes[..]), buf[..], |old(dev.trace)|, start, offset, n);
        dev.trace == old(dev.trace) + r.calls && dev.bytes[..] == r.img && ok == r.ok
    {
      if p < n {
        ok := Patch(start + (offset + p) / SECTOR, 0, buf, p, n - p);
      } else {
        ok := true;
        assert dev.trace + [] == dev.trace;
      }
    }

    /**
     * What rockfuse_write leaves behind on entry e, from trace trace0 and flash image img0, with
     * the caller's bytes b: the calls issued are those of the write request up to the first
     * failure, the result is the clamped length if none failed and 0 otherwise, and the image
     * differs from img0 only in that it holds the first `written` bytes of the request at the
     * file's byte `offset`, all of them on success.
     */
    ghost predicate Wrote(e: Entry, offset: nat, size: nat, trace0: seq<Call>, img0: seq<byte>, b: seq<byte>,
                          trace: seq<Call>, img: seq<byte>, r: int, written: nat)
    {
      var n, plan, k := Effective(e.count, offset, size), WriteRequest(e, offset, size), |trace0|;
      && trace == trace0 + dev.Issued(plan, k)
      && r == (if dev.AllAccepted(plan, k) then n else 0)
      && written <= n && written <= |b| && img == Splice(img0, e.start * SECTOR + offset, b[..written])
      && (dev.AllAccepted(plan, k) ==> written == n)
    }

    /**
     * rockfuse_write with the body loop corrected: a path not in the table is -ENOENT and changes
     * nothing; otherwise the request is clamped to the file and transferred, stopping at the
     * first failing device call, as Wrote describes.
     */
    method Write(path: string, buf: array<byte>, size: nat, offset: nat) returns (r: int, ghost written: nat)
      requires Valid() && buf != workbuf && buf != dev.bytes && size <= buf.Length
      modifies dev`trace, dev.bytes, workbuf
      ensures Valid()
      ensures Find(tab, path).None? ==> r == -ENOENT && dev.trace == old(dev.trace) && dev.bytes[..] == old(dev.bytes[..])
      ensures Find(tab, path).Some? ==>
        Wrote(tab[Find(tab, path).value], offset, size, old(dev.trace), old(dev.bytes[..]), buf[..], dev.trace, dev.bytes[..], r, written)
    {
      var found := Find(tab, path);
      if found.None? {
        return -ENOENT, 0;
      }
      r, written := WriteEntry(tab[found.value], buf, size, offset);
    }

    /** The part of rockfuse_write after the path lookup found entry e. */
    method WriteEntry(e: Entry, buf: array<byte>, size: nat, offset: nat) returns (r: int, ghost written: nat)
      requires Valid() && buf != workbuf && buf != dev.bytes && size <= buf.Length
      modifies dev`trace, dev.bytes, workbuf
      ensures Valid()
      ensures Wrote(e, offset, size, old(dev.trace), old(dev.bytes[..]), buf[..], dev.trace, dev.bytes[..], r, written)
    {
      var maxlen := e.count * SECTOR;
      if offset >= maxlen {
        SpliceEmpty(dev.bytes[..], e.start * SECTOR + offset);
        assert buf[..0] == [];
        return 0, 0;
      }
      var n := if offset + size > maxlen then maxlen - offset else size;
      ghost var img, b, k := dev.bytes[..], buf[..], |dev.trace|;
      ghost var run := dev.WriteRun(img, b, k, e.start, offset, n);
      dev.WriteRunIssues(img, b, k, e.start, offset, n);
      dev.WriteRunWrites(img, b, k, e.start, offset, n);
      assert WriteRequest(e, offset, size) == WritePlan(e.start, offset, n);
      var ok := WriteRange(e.start, offset, n, buf);
      assert buf[..] == b && dev.bytes[..] == run.img && dev.trace == old(dev.trace) + run.calls && ok == run.ok;
      r, written := if ok then n else 0, run.pos;
    }
  }
}
