/**
 * The sector translator's plan: which device calls a byte-range request turns into.
 * A request of n bytes at byte `offset` of a file starting at sector `start` is
 * served by an optional leading fragment (one sector, through the scratch buffer),
 * an aligned body in chunks of at most MAX_SECTORS sectors, and an optional
 * trailing fragment (one sector, through the scratch buffer). Writes do a
 * read-modify-write on each fragment.
 *
 * The device is the Flash class: an array of bytes, sector after sector, whose two
 * calls append to a trace and fail when an oracle says so or when they would run
 * past the end of the flash.
 */
module Sectors {
  import opened Wire
  import opened Table

  const MAX_SECTORS: nat := 128

  datatype Op = Rd | Wr

  /** One call of rockusb_read_lba (Rd) or rockusb_write_lba (Wr): `count` sectors from sector `lba`. */
  datatype Call = Call(op: Op, lba: nat, count: nat)

  /** num_sectors of a body iteration with `left` bytes still to move. */
  function Chunk(left: nat): (c: nat)
    ensures left >= SECTOR ==> 1 <= c <= MAX_SECTORS && c * SECTOR <= left
    ensures c < MAX_SECTORS ==> c == left / SECTOR
  {
    if left / SECTOR > MAX_SECTORS then MAX_SECTORS else left / SECTOR
  }

  /** fragsize: the bytes of an n-byte request at `offset` served by its leading partial sector. */
  function Lead(offset: nat, n: nat): (f: nat)
    ensures f <= n
    ensures offset % SECTOR == 0 ==> f == 0
    ensures offset % SECTOR != 0 ==> offset % SECTOR + f <= SECTOR
    ensures f == n || (offset + f) % SECTOR == 0
  {
    if offset % SECTOR == 0 then 0
    else if SECTOR - offset % SECTOR > n then n
    else SECTOR - offset % SECTOR
  }

  /** The length a request of `size` bytes at `offset` of a file of `count` sectors is clamped to. */
  function Effective(count: nat, offset: nat, size: nat): (n: nat)
    ensures offset >= count * SECTOR ==> n == 0
    ensures offset < count * SECTOR ==> n <= size && offset + n <= count * SECTOR
    ensures offset < count * SECTOR ==> n == size || offset + n == count * SECTOR
  {
    if offset >= count * SECTOR then 0
    else if offset + size > count * SECTOR then count * SECTOR - offset
    else size
  }

  /** The buffer position of the trailing fragment: after the leading fragment and all whole sectors. */
  function TailPos(offset: nat, n: nat): (t: nat)
    ensures Lead(offset, n) <= t <= n && n - t < SECTOR
    ensures n - t == (n - Lead(offset, n)) % SECTOR
  {
    Lead(offset, n) + (n - Lead(offset, n)) / SECTOR * SECTOR
  }

  /** The aligned body from sector lba: calls of at most MAX_SECTORS sectors while a whole sector is left. */
  function Body(op: Op, lba: nat, left: nat): seq<Call>
    decreases left
  {
    if left < SECTOR then []
    else [Call(op, lba, Chunk(left))] + Body(op, lba + Chunk(left), left - Chunk(left) * SECTOR)
  }

  /** A fragment of a read: one single-sector read through the scratch buffer, if present. */
  function ReadFragment(lba: nat, present: bool): seq<Call>
  {
    if present then [Call(Rd, lba, 1)] else []
  }

  /** A fragment of a write: read-modify-write of one sector through the scratch buffer, if present. */
  function RmwFragment(lba: nat, present: bool): seq<Call>
  {
    if present then [Call(Rd, lba, 1), Call(Wr, lba, 1)] else []
  }

  /** The device calls of rockfuse_read for an effective length n, when none fails. */
  function ReadPlan(start: nat, offset: nat, n: nat): seq<Call>
  {
    var f, t := Lead(offset, n), TailPos(offset, n);
    ReadFragment(start + offset / SECTOR, offset % SECTOR != 0)
    + Body(Rd, start + (offset + f) / SECTOR, n - f)
    + ReadFragment(start + (offset + t) / SECTOR, t < n)
  }

  /** The device calls of the corrected rockfuse_write for an effective length n, when none fails. */
  function WritePlan(start: nat, offset: nat, n: nat): seq<Call>
  {
    var f, t := Lead(offset, n), TailPos(offset, n);
    RmwFragment(start + offset / SECTOR, offset % SECTOR != 0)
    + Body(Wr, start + (offset + f) / SECTOR, n - f)
    + RmwFragment(start + (offset + t) / SECTOR, t < n)
  }

  /** The body of rockfuse_write as written: buf_pos and size_left move by the sector count, not by bytes. */
  function BodyAsWritten(start: nat, offset: nat, pos: nat, left: nat): seq<Call>
    decreases left
  {
    if left < SECTOR then []
    else [Call(Wr, start + (offset + pos) / SECTOR, Chunk(left))]
         + BodyAsWritten(start, offset, pos + Chunk(left), left - Chunk(left))
  }

  /** buf_pos and size_left where the as-written body loop stops. */
  function CursorAsWritten(pos: nat, left: nat): (r: (nat, nat))
    ensures r.0 + r.1 == pos + left && r.1 < SECTOR && pos <= r.0
    decreases left
  {
    if left < SECTOR then (pos, left) else CursorAsWritten(pos + Chunk(left), left - Chunk(left))
  }

  /** The device calls of rockfuse_write as written, when none fails. */
  function WritePlanAsWritten(start: nat, offset: nat, n: nat): seq<Call>
  {
    var f := Lead(offset, n);
    var cursor := CursorAsWritten(f, n - f);
    var lead, tail := start + offset / SECTOR, start + (offset + cursor.0) / SECTOR;
    RmwFragment(lead, offset % SECTOR != 0)
    + BodyAsWritten(start, offset, f, n - f)
    + RmwFragment(tail, cursor.1 > 0)
  }

  /** The flash image the as-written body loop leaves, starting from img. */
  function BodyImageAsWritten(img: seq<byte>, buf: seq<byte>, start: nat, offset: nat, pos: nat, left: nat): seq<byte>
    requires pos + left <= |buf|
    decreases left
  {
    if left < SECTOR then img
    else
      var c := Chunk(left);
      BodyImageAsWritten(Splice(img, (start + (offset + pos) / SECTOR) * SECTOR, buf[pos..pos + c * SECTOR]),
                         buf, start, offset, pos + c, left - c)
  }

  /** The flash image a successful as-written write of buf[..n] at `offset` leaves, starting from img. */
  function ImageAsWritten(img: seq<byte>, buf: seq<byte>, start: nat, offset: nat, n: nat): seq<byte>
    requires n <= |buf|
  {
    var f := Lead(offset, n);
    var lead := if offset % SECTOR != 0 then Splice(img, start * SECTOR + offset, buf[..f]) else img;
    var body := BodyImageAsWritten(lead, buf, start, offset, f, n - f);
    var cursor := CursorAsWritten(f, n - f);
    if cursor.1 > 0 then Splice(body, (start + (offset + cursor.0) / SECTOR) * SECTOR, buf[cursor.0..cursor.0 + cursor.1])
    else body
  }

  /** The device calls of rockfuse_read on entry e when none fails: none at all at or past the end of the file. */
  function ReadRequest(e: Entry, offset: nat, size: nat): seq<Call>
  {
    if offset < e.count * SECTOR then ReadPlan(e.start, offset, Effective(e.count, offset, size)) else []
  }

  /** The device calls of the corrected rockfuse_write on entry e when none fails. */
  function WriteRequest(e: Entry, offset: nat, size: nat): seq<Call>
  {
    if offset < e.count * SECTOR then WritePlan(e.start, offset, Effective(e.count, offset, size)) else []
  }

  /** The calls address consecutive sector ranges, the first starting at sector `from` and the last ending at `to`. */
  ghost predicate Covers(calls: seq<Call>, from: nat, to: nat)
    decreases |calls|
  {
    if calls == [] then from == to
    else calls[0].lba == from && Covers(calls[1..], from + calls[0].count, to)
  }

  /** The write calls of a plan, in order. */
  function Writes(calls: seq<Call>): (w: seq<Call>)
  {
    if calls == [] then []
    else (if calls[0].op == Wr then [calls[0]] else []) + Writes(calls[1..])
  }

  // ---------------------------------------------------------------- lemmas about plans

  lemma {:induction false} CoversAppend(a: seq<Call>, b: seq<Call>, from: nat, mid: nat, to: nat)
    requires Covers(a, from, mid) && Covers(b, mid, to)
    ensures Covers(a + b, from, to)
    decreases |a|
  {
    if a == [] {
      assert a + b == b;
    } else {
      assert (a + b)[0] == a[0];
      assert (a + b)[1..] == a[1..] + b;
      CoversAppend(a[1..], b, from + a[0].count, mid, to);
    }
  }

  lemma {:induction false} WritesAppend(a: seq<Call>, b: seq<Call>)
    ensures Writes(a + b) == Writes(a) + Writes(b)
    decreases |a|
  {
    if a == [] {
      assert a + b == b;
    } else {
      assert (a + b)[0] == a[0];
      assert (a + b)[1..] == a[1..] + b;
      WritesAppend(a[1..], b);
    }
  }

  /** Every body call moves between 1 and MAX_SECTORS sectors. */
  lemma {:induction false} BodyChunks(op: Op, lba: nat, left: nat)
    ensures forall c :: c in Body(op, lba, left) ==> c.op == op && 1 <= c.count <= MAX_SECTORS
    decreases left
  {
    if left >= SECTOR {
      BodyChunks(op, lba + Chunk(left), left - Chunk(left) * SECTOR);
    }
  }

  /** The body reads or writes the whole sectors of `left` consecutively from sector lba. */
  lemma {:induction false} BodyCovers(op: Op, lba: nat, left: nat)
    ensures Covers(Body(op, lba, left), lba, lba + left / SECTOR)
    decreases left
  {
    if left >= SECTOR {
      var c := Chunk(left);
      assert (left - c * SECTOR) / SECTOR == left / SECTOR - c;
      BodyCovers(op, lba + c, left - c * SECTOR);
    }
  }

  /** Writes(Body(Wr, ..)) is the body itself. */
  lemma {:induction false} BodyWrites(lba: nat, left: nat)
    ensures Writes(Body(Wr, lba, left)) == Body(Wr, lba, left)
    decreases left
  {
    if left >= SECTOR {
      var c := Chunk(left);
      var rest := Body(Wr, lba + c, left - c * SECTOR);
      BodyWrites(lba + c, left - c * SECTOR);
      WritesAppend([Call(Wr, lba, c)], rest);
    }
  }

  /**
   * A read touches every sector overlapping its byte range exactly once, in ascending order:
   * the sector holding `offset` first, the one holding the last byte last (and the sector of
   * `offset` alone when n is zero and the offset unaligned). Fragment calls move one sector,
   * body calls between 1 and MAX_SECTORS.
   */
  lemma {:induction false} ReadPlanCovers(start: nat, offset: nat, n: nat)
    ensures Covers(ReadPlan(start, offset, n), start + offset / SECTOR, start + (offset + n + SECTOR - 1) / SECTOR)
    ensures forall c :: c in ReadPlan(start, offset, n) ==> c.op == Rd && 1 <= c.count <= MAX_SECTORS
  {
    var f, t := Lead(offset, n), TailPos(offset, n);
    var lead := ReadFragment(start + offset / SECTOR, offset % SECTOR != 0);
    var body := Body(Rd, start + (offset + f) / SECTOR, n - f);
    var tail := ReadFragment(start + (offset + t) / SECTOR, t < n);
    var first := start + offset / SECTOR;
    var mid := if offset % SECTOR != 0 then first + 1 else first;
    assert Covers(lead, first, mid);
    assert (offset + f) % SECTOR == 0 || n - f < SECTOR;
    BodyCovers(Rd, start + (offset + f) / SECTOR, n - f);
    BodyChunks(Rd, start + (offset + f) / SECTOR, n - f);
    if n - f >= SECTOR || t < n {
      assert (offset + f) / SECTOR == mid - start;
    }
    var after := mid + (n - f) / SECTOR;
    var last := start + (offset + n + SECTOR - 1) / SECTOR;
    if n - f >= SECTOR {
      assert Covers(body, mid, after);
    } else {
      assert body == [];
    }
    if t < n {
      assert (offset + t) / SECTOR == after - start;
      assert after + 1 == last;
    } else {
      assert after == last;
    }
    assert Covers(tail, after, last);
    CoversAppend(body, tail, mid, after, last);
    CoversAppend(lead, body + tail, first, mid, last);
    assert ReadPlan(start, offset, n) == lead + (body + tail);
  }

  /** Two call sequences address the same sectors with the same counts, call by call. */
  ghost predicate SameSectors(a: seq<Call>, b: seq<Call>)
  {
    |a| == |b| && forall i :: 0 <= i < |a| ==> a[i].lba == b[i].lba && a[i].count == b[i].count
  }

  lemma {:induction false} SameSectorsAppend(a1: seq<Call>, b1: seq<Call>, a2: seq<Call>, b2: seq<Call>)
    requires SameSectors(a1, b1) && SameSectors(a2, b2)
    ensures SameSectors(a1 + a2, b1 + b2)
  {
    forall i | 0 <= i < |a1 + a2|
      ensures (a1 + a2)[i].lba == (b1 + b2)[i].lba && (a1 + a2)[i].count == (b1 + b2)[i].count
    {
      if i >= |a1| {
        assert (a1 + a2)[i] == a2[i - |a1|] && (b1 + b2)[i] == b2[i - |b1|];
      }
    }
  }

  /** The read and write bodies of one range address the same sectors with the same counts. */
  lemma {:induction false} BodySameSectors(lba: nat, left: nat)
    ensures SameSectors(Body(Rd, lba, left), Body(Wr, lba, left))
    decreases left
  {
    if left >= SECTOR {
      var c := Chunk(left);
      BodySameSectors(lba + c, left - c * SECTOR);
      SameSectorsAppend([Call(Rd, lba, c)], [Call(Wr, lba, c)],
                        Body(Rd, lba + c, left - c * SECTOR), Body(Wr, lba + c, left - c * SECTOR));
    }
  }

  /** Covering depends only on the addresses and counts of the calls. */
  lemma {:induction false} CoversSameSectors(a: seq<Call>, b: seq<Call>, from: nat, to: nat)
    requires Covers(a, from, to) && SameSectors(a, b)
    ensures Covers(b, from, to)
    decreases |a|
  {
    if a != [] {
      assert SameSectors(a[1..], b[1..]);
      CoversSameSectors(a[1..], b[1..], from + a[0].count, to);
    }
  }

  /** The writes of a read-modify-write fragment: the one write-back. */
  lemma FragmentWrites(lba: nat, present: bool)
    ensures Writes(RmwFragment(lba, present)) == if present then [Call(Wr, lba, 1)] else []
  {
    if present {
      var w := [Call(Wr, lba, 1)];
      assert w[1..] == [];
      assert Writes(w) == w + Writes([]);
      assert RmwFragment(lba, present)[1..] == w;
    }
  }

  /** Putting fragments around bodies of the same sectors keeps the sectors the same. */
  lemma {:induction false} FramedSameSectors(lead: nat, hasLead: bool, tail: nat, hasTail: bool, rb: seq<Call>, wb: seq<Call>)
    requires SameSectors(rb, wb) && Writes(wb) == wb
    ensures SameSectors(ReadFragment(lead, hasLead) + rb + ReadFragment(tail, hasTail),
                        Writes(RmwFragment(lead, hasLead) + wb + RmwFragment(tail, hasTail)))
  {
    var l, t := RmwFragment(lead, hasLead), RmwFragment(tail, hasTail);
    FragmentWrites(lead, hasLead);
    FragmentWrites(tail, hasTail);
    WritesAppend(l, wb);
    WritesAppend(l + wb, t);
    assert SameSectors(ReadFragment(lead, hasLead), Writes(l));
    assert SameSectors(ReadFragment(tail, hasTail), Writes(t));
    SameSectorsAppend(ReadFragment(lead, hasLead), Writes(l), rb, wb);
    SameSectorsAppend(ReadFragment(lead, hasLead) + rb, Writes(l) + wb, ReadFragment(tail, hasTail), Writes(t));
  }

  /** The write calls of a corrected write address the sectors the read of the same range reads. */
  lemma {:induction false} WritesMatchRead(start: nat, offset: nat, n: nat)
    ensures SameSectors(ReadPlan(start, offset, n), Writes(WritePlan(start, offset, n)))
  {
    var f, t := Lead(offset, n), TailPos(offset, n);
    var lba := start + (offset + f) / SECTOR;
    BodySameSectors(lba, n - f);
    BodyWrites(lba, n - f);
    FramedSameSectors(start + offset / SECTOR, offset % SECTOR != 0, start + (offset + t) / SECTOR, t < n,
                      Body(Rd, lba, n - f), Body(Wr, lba, n - f));
  }

  /**
   * The writes of a corrected write touch every sector overlapping its byte range exactly once,
   * in ascending order, like the read of the same range; every call moves 1 to MAX_SECTORS sectors.
   */
  lemma {:induction false} WritePlanCovers(start: nat, offset: nat, n: nat)
    ensures Covers(Writes(WritePlan(start, offset, n)), start + offset / SECTOR, start + (offset + n + SECTOR - 1) / SECTOR)
    ensures forall c :: c in WritePlan(start, offset, n) ==> 1 <= c.count <= MAX_SECTORS
  {
    ReadPlanCovers(start, offset, n);
    WritesMatchRead(start, offset, n);
    CoversSameSectors(ReadPlan(start, offset, n), Writes(WritePlan(start, offset, n)),
                      start + offset / SECTOR, start + (offset + n + SECTOR - 1) / SECTOR);
    BodyChunks(Wr, start + (offset + Lead(offset, n)) / SECTOR, n - Lead(offset, n));
  }

  /** Calls covering sectors from..to lie inside that range. */
  lemma {:induction false} CoversBounds(calls: seq<Call>, from: nat, to: nat)
    requires Covers(calls, from, to)
    ensures from <= to
    ensures forall c :: c in calls ==> from <= c.lba && c.lba + c.count <= to
    decreases |calls|
  {
    if calls != [] {
      CoversBounds(calls[1..], from + calls[0].count, to);
      forall c | c in calls ensures from <= c.lba && c.lba + c.count <= to {
        if c != calls[0] {
          assert c in calls[1..];
        }
      }
    }
  }

  lemma {:induction false} RoundUpWithin(offset: nat, n: nat, count: nat)
    requires offset + n <= count * SECTOR
    ensures (offset + n + SECTOR - 1) / SECTOR <= count
  {
    var q := (offset + n + SECTOR - 1) / SECTOR;
    assert q * SECTOR <= offset + n + SECTOR - 1;
  }

  /**
   * A read or a corrected write of a file only ever addresses the file's own sectors, however
   * large the request: the clamp to the file's length keeps every call inside it.
   */
  lemma {:induction false} RequestsStayInFile(e: Entry, offset: nat, size: nat)
    ensures forall c :: c in ReadRequest(e, offset, size) ==> e.start <= c.lba && c.lba + c.count <= e.start + e.count
    ensures forall c :: c in WriteRequest(e, offset, size) ==> e.start <= c.lba && c.lba + c.count <= e.start + e.count
  {
    if offset < e.count * SECTOR {
      var n := Effective(e.count, offset, size);
      var from, to := e.start + offset / SECTOR, e.start + (offset + n + SECTOR - 1) / SECTOR;
      ReadPlanCovers(e.start, offset, n);
      WritePlanCovers(e.start, offset, n);
      RoundUpWithin(offset, n, e.count);
      CoversBounds(ReadPlan(e.start, offset, n), from, to);
      forall c | c in WriteRequest(e, offset, size)
        ensures e.start <= c.lba && c.lba + c.count <= e.start + e.count
      {
        WriteCallIsCovered(e.start, offset, n, c);
      }
    }
  }

  /** Every call of a framed write, a fragment read included, has a write to the same sectors. */
  lemma {:induction false} FramedCallWritten(lead: nat, hasLead: bool, tail: nat, hasTail: bool, wb: seq<Call>, c: Call)
    requires Writes(wb) == wb && forall d :: d in wb ==> d.op == Wr
    requires c in RmwFragment(lead, hasLead) + wb + RmwFragment(tail, hasTail)
    ensures Call(Wr, c.lba, c.count) in Writes(RmwFragment(lead, hasLead) + wb + RmwFragment(tail, hasTail))
  {
    var l, t := RmwFragment(lead, hasLead), RmwFragment(tail, hasTail);
    WritesAppend(l, wb);
    WritesAppend(l + wb, t);
    FragmentWrites(lead, hasLead);
    FragmentWrites(tail, hasTail);
    if c in l {
      assert Call(Wr, lead, 1) in Writes(l);
    } else if c in wb {
      assert c == Call(Wr, c.lba, c.count);
    } else {
      assert c in t;
      assert Call(Wr, tail, 1) in Writes(t);
    }
  }

  /** Every call of a corrected write, a fragment read included, has a write to the same sectors. */
  lemma {:induction false} WriteCallHasWrite(start: nat, offset: nat, n: nat, c: Call)
    requires c in WritePlan(start, offset, n)
    ensures Call(Wr, c.lba, c.count) in Writes(WritePlan(start, offset, n))
  {
    var f, t := Lead(offset, n), TailPos(offset, n);
    var lead, tail, lba := start + offset / SECTOR, start + (offset + t) / SECTOR, start + (offset + f) / SECTOR;
    var body := Body(Wr, lba, n - f);
    assert WritePlan(start, offset, n) == RmwFragment(lead, offset % SECTOR != 0) + body + RmwFragment(tail, t < n);
    BodyWrites(lba, n - f);
    BodyChunks(Wr, lba, n - f);
    FramedCallWritten(lead, offset % SECTOR != 0, tail, t < n, body, c);
  }

  /** Every call of a corrected write, the fragment reads included, addresses sectors the writes cover. */
  lemma {:induction false} WriteCallIsCovered(start: nat, offset: nat, n: nat, c: Call)
    requires c in WritePlan(start, offset, n)
    ensures start + offset / SECTOR <= c.lba && c.lba + c.count <= start + (offset + n + SECTOR - 1) / SECTOR
  {
    var from, to := start + offset / SECTOR, start + (offset + n + SECTOR - 1) / SECTOR;
    WriteCallHasWrite(start, offset, n, c);
    WritePlanCovers(start, offset, n);
    CoversBounds(Writes(WritePlan(start, offset, n)), from, to);
  }

  /** The first sector of an aligned position, scaled back to bytes, is that position. */
  lemma {:induction false} AlignedSector(start: nat, offset: nat, pos: nat)
    requires (offset + pos) % SECTOR == 0
    ensures (start + (offset + pos) / SECTOR) * SECTOR == start * SECTOR + offset + pos
  {
  }

  /** Whole sectors moved from an aligned byte position: the sector it reaches and that sector's first byte. */
  lemma {:induction false} AlignedAt(start: nat, offset: nat, pos0: nat, pos: nat, moved: nat)
    requires (offset + pos0) % SECTOR == 0 && pos == pos0 + moved * SECTOR
    ensures start + (offset + pos) / SECTOR == start + (offset + pos0) / SECTOR + moved
    ensures (start + (offset + pos) / SECTOR) * SECTOR == start * SECTOR + offset + pos
  {
  }

  /** When a partial sector is left after the body, the tail position is sector-aligned in the file. */
  lemma {:induction false} TailAligned(offset: nat, n: nat)
    requires TailPos(offset, n) < n
    ensures (offset + TailPos(offset, n)) % SECTOR == 0
  {
    var f := Lead(offset, n);
    var q := (n - f) / SECTOR;
    assert offset + TailPos(offset, n) == (offset + f) + q * SECTOR;
  }

  /** Quotient and remainder by SECTOR are unique. */
  lemma {:induction false} SectorDivMod(n: nat, q: nat, r: nat)
    requires n == q * SECTOR + r && r < SECTOR
    ensures n / SECTOR == q && n % SECTOR == r
  {
  }

  /** A request inside one sector at an unaligned offset, including an empty one, is one single-sector call. */
  lemma ReadWithinOneSector(start: nat, offset: nat, n: nat)
    requires offset % SECTOR != 0 && offset % SECTOR + n <= SECTOR
    ensures ReadPlan(start, offset, n) == [Call(Rd, start + offset / SECTOR, 1)]
    ensures WritePlan(start, offset, n) == [Call(Rd, start + offset / SECTOR, 1), Call(Wr, start + offset / SECTOR, 1)]
  {
  }

  /** An empty request at an aligned offset makes no call. */
  lemma ReadEmptyAligned(start: nat, offset: nat)
    requires offset % SECTOR == 0
    ensures ReadPlan(start, offset, 0) == [] && WritePlan(start, offset, 0) == []
  {
  }

  /** Reading 300 sectors from sector 0 takes three calls of 128, 128 and 44 sectors. */
  lemma ReadOf300Sectors()
    ensures ReadPlan(0, 0, 300 * SECTOR) == [Call(Rd, 0, 128), Call(Rd, 128, 128), Call(Rd, 256, 44)]
  {
    assert Body(Rd, 300, 0) == [];
    assert Body(Rd, 256, 44 * SECTOR) == [Call(Rd, 256, 44)];
    assert Body(Rd, 128, 172 * SECTOR) == [Call(Rd, 128, 128), Call(Rd, 256, 44)];
    assert Body(Rd, 0, 300 * SECTOR) == [Call(Rd, 0, 128), Call(Rd, 128, 128), Call(Rd, 256, 44)];
  }

  /**
   * Writing 1000 bytes at offset 100 of a file at sector s: read-modify-write of sector s
   * for bytes 100..511, one whole sector s+1, read-modify-write of sector s+2 for the rest.
   */
  lemma WriteAt100For1000(s: nat)
    ensures WritePlan(s, 100, 1000)
         == [Call(Rd, s, 1), Call(Wr, s, 1), Call(Wr, s + 1, 1), Call(Rd, s + 2, 1), Call(Wr, s + 2, 1)]
  {
    assert Body(Wr, s + 2, 76) == [];
    assert Body(Wr, s + 1, 588) == [Call(Wr, s + 1, 1)];
  }

  /**
   * The same write as written: after the read-modify-write of sector s, the body writes sector
   * s+1 77 times, the trailing read-modify-write lands on sector s+1 again, and sector s+2 is
   * never written.
   */
  lemma WriteAt100For1000AsWritten(s: nat)
    ensures WritePlanAsWritten(s, 100, 1000)
         == [Call(Rd, s, 1), Call(Wr, s, 1)] + seq(77, _ => Call(Wr, s + 1, 1)) + [Call(Rd, s + 1, 1), Call(Wr, s + 1, 1)]
  {
    assert Lead(100, 1000) == 412;
    CreepingWrites(s, 77);
    var body := seq(77, _ => Call(Wr, s + 1, 1));
    assert BodyAsWritten(s, 100, 412, 588) == body;
    assert CursorAsWritten(412, 588) == (489, 511);
    assert (100 + 489) / SECTOR == 1;
    var plan := [Call(Rd, s, 1), Call(Wr, s, 1)] + body + [Call(Rd, s + 1, 1), Call(Wr, s + 1, 1)];
    assert WritePlanAsWritten(s, 100, 1000) == plan;
  }

  /**
   * The as-written body of the write of 1000 bytes at offset 100, j steps before it stops:
   * each step writes sector s+1 again and moves buf_pos and size_left by one byte, and the
   * loop stops with buf_pos 489 and size_left 511.
   */
  lemma {:induction false} CreepingWrites(s: nat, j: nat)
    requires j <= 77
    ensures BodyAsWritten(s, 100, 489 - j, 511 + j) == seq(j, _ => Call(Wr, s + 1, 1))
    ensures CursorAsWritten(489 - j, 511 + j) == (489, 511)
  {
    if j > 0 {
      assert Chunk(511 + j) == 1;
      assert (100 + (489 - j)) / SECTOR == 1;
      CreepingWrites(s, j - 1);
      assert seq(j, _ => Call(Wr, s + 1, 1)) == [Call(Wr, s + 1, 1)] + seq(j - 1, _ => Call(Wr, s + 1, 1));
    }
  }

  // ---------------------------------------------------------------- lemmas about images

  lemma {:induction false} SpliceExtend(s: seq<byte>, at: nat, d: seq<byte>, e: seq<byte>)
    ensures Splice(Splice(s, at, d), at + |d|, e) == Splice(s, at, d + e)
  {
  }

  /** Splicing d at `at` and then e right after it splices d + e at `at`. */
  lemma {:induction false} SpliceAppend(s: seq<byte>, at: nat, d: seq<byte>, at2: nat, e: seq<byte>)
    requires at2 == at + |d|
    ensures Splice(Splice(s, at, d), at2, e) == Splice(s, at, d + e)
  {
    SpliceExtend(s, at, d, e);
  }

  lemma {:induction false} SpliceEmpty(s: seq<byte>, at: nat)
    ensures Splice(s, at, []) == s
  {
  }

  /** Writing back a sector of which bytes k.. were patched patches those bytes of the flash. */
  lemma {:induction false} SpliceSector(img: seq<byte>, lba: nat, k: nat, d: seq<byte>)
    requires (lba + 1) * SECTOR <= |img| && k + |d| <= SECTOR
    ensures Splice(img, lba * SECTOR, Splice(img[lba * SECTOR..(lba + 1) * SECTOR], k, d)) == Splice(img, lba * SECTOR + k, d)
  {
  }

  /** Two writes of adjacent ranges of b, one after the other, are one write of their union. */
  lemma {:induction false} SpliceJoin(x: seq<byte>, y: seq<byte>, z: seq<byte>, b: seq<byte>, base: nat, l: nat, m: nat, h: nat)
    requires l <= m <= h <= |b| && y == Splice(x, base + l, b[l..m]) && z == Splice(y, base + m, b[m..h])
    ensures z == Splice(x, base + l, b[l..h])
  {
    SpliceAppend(x, base + l, b[l..m], base + m, b[m..h]);
    assert b[l..m] + b[m..h] == b[l..h];
  }

  /**
   * Finding: as written, an aligned one-sector write issues a spurious read-modify-write after
   * its body and leaves buf[1] in the sector's first byte instead of buf[0]; the corrected
   * write issues the single body call and stores the buffer.
   */
  lemma {:induction false} AsWrittenOneSector(img: seq<byte>, buf: seq<byte>, start: nat)
    requires (start + 1) * SECTOR <= |img| && |buf| == SECTOR && buf[0] != buf[1]
    ensures WritePlanAsWritten(start, 0, SECTOR) == [Call(Wr, start, 1), Call(Rd, start, 1), Call(Wr, start, 1)]
    ensures WritePlan(start, 0, SECTOR) == [Call(Wr, start, 1)]
    ensures ImageAsWritten(img, buf, start, 0, SECTOR)[start * SECTOR] == buf[1]
    ensures Splice(img, start * SECTOR, buf)[start * SECTOR] == buf[0]
    ensures ImageAsWritten(img, buf, start, 0, SECTOR) != Splice(img, start * SECTOR, buf)
  {
    assert CursorAsWritten(0, SECTOR) == (1, SECTOR - 1);
    assert BodyAsWritten(start, 0, 1, SECTOR - 1) == [];
    assert BodyAsWritten(start, 0, 0, SECTOR) == [Call(Wr, start, 1)];
    var once := Splice(img, start * SECTOR, buf[0..SECTOR]);
    assert BodyImageAsWritten(img, buf, start, 0, 0, SECTOR) == once;
    var twice := Splice(once, start * SECTOR, buf[1..SECTOR]);
    assert ImageAsWritten(img, buf, start, 0, SECTOR) == twice;
    assert twice[start * SECTOR] == buf[1];
  }

  /** b[lo..hi] mirrors the flash image from byte `at` on: b[j] is img[at + j]. */
  ghost predicate Mirrors(b: seq<byte>, img: seq<byte>, at: nat, lo: nat, hi: nat)
  {
    && (lo < hi ==> hi <= |b| && at + hi <= |img|)
    && forall j :: lo <= j < hi ==> b[j] == img[at + j]
  }

  /** b and b0 agree outside lo..hi. */
  ghost predicate Outside(b: seq<byte>, b0: seq<byte>, lo: nat, hi: nat)
  {
    lo <= hi <= |b| == |b0| && b[..lo] == b0[..lo] && b[hi..] == b0[hi..]
  }

  /** b is b0 with b[lo..hi] filled from the flash image, from byte `at` on. */
  ghost predicate Filled(b: seq<byte>, b0: seq<byte>, img: seq<byte>, at: nat, lo: nat, hi: nat)
  {
    Outside(b, b0, lo, hi) && Mirrors(b, img, at, lo, hi)
  }

  lemma {:induction false} OutsideWiden(b: seq<byte>, b0: seq<byte>, lo: nat, hi: nat, hi2: nat)
    requires Outside(b, b0, lo, hi) && hi <= hi2 <= |b|
    ensures Outside(b, b0, lo, hi2)
  {
    assert b[hi2..] == b[hi..][hi2 - hi..];
    assert b0[hi2..] == b0[hi..][hi2 - hi..];
  }

  /** Copying flash bytes to the end of a mirrored range extends it and leaves the rest of the buffer alone. */
  lemma {:induction false} MirrorsSplice(b: seq<byte>, img: seq<byte>, at: nat, lo: nat, to: nat, len: nat)
    requires lo <= to && Mirrors(b, img, at, lo, to) && at + to + len <= |img| && to + len <= |b|
    ensures Mirrors(Splice(b, to, img[at + to..at + to + len]), img, at, lo, to + len)
    ensures Splice(b, to, img[at + to..at + to + len])[..to] == b[..to]
    ensures Splice(b, to, img[at + to..at + to + len])[to + len..] == b[to + len..]
  {
  }

  /** Filling the bytes right after a filled range fills the longer range. */
  lemma {:induction false} FilledStep(b: seq<byte>, b0: seq<byte>, img: seq<byte>, at: nat, lo: nat, hi: nat, len: nat)
    requires Filled(b, b0, img, at, lo, hi) && at + hi + len <= |img| && hi + len <= |b|
    ensures Filled(Splice(b, hi, img[at + hi..at + hi + len]), b0, img, at, lo, hi + len)
  {
    var c := Splice(b, hi, img[at + hi..at + hi + len]);
    MirrorsSplice(b, img, at, lo, hi, len);
    assert c[..lo] == c[..hi][..lo];
    assert c[hi + len..] == b[hi + len..] == b[hi..][len..] == b0[hi..][len..];
  }

  /** Mirroring two adjacent ranges is mirroring their union. */
  lemma MirrorsJoin(b: seq<byte>, img: seq<byte>, at: nat, l: nat, m: nat, h: nat)
    requires Mirrors(b, img, at, l, m) && Mirrors(b, img, at, m, h)
    ensures Mirrors(b, img, at, l, h)
  {
    forall j | l <= j < h ensures b[j] == img[at + j] {
      if j < m {
        assert b[j] == img[at + j];
      }
    }
  }

  /** A buffer that agrees with a mirroring one below hi mirrors the same range. */
  lemma {:induction false} MirrorsPrefix(x: seq<byte>, y: seq<byte>, img: seq<byte>, at: nat, lo: nat, hi: nat)
    requires Mirrors(y, img, at, lo, hi) && hi <= |x| && hi <= |y| && x[..hi] == y[..hi]
    ensures Mirrors(x, img, at, lo, hi)
  {
    forall j | lo <= j < hi ensures x[j] == y[j] {
      assert x[j] == x[..hi][j];
    }
  }

  /** Two fills of adjacent ranges, one after the other, are one fill of their union. */
  lemma {:induction false} FilledTrans(x: seq<byte>, y: seq<byte>, z: seq<byte>, img: seq<byte>, at: nat, l: nat, m: nat, h: nat)
    requires Filled(y, z, img, at, l, m) && Filled(x, y, img, at, m, h)
    ensures Filled(x, z, img, at, l, h)
  {
    assert x[..l] == x[..m][..l] == y[..m][..l] == y[..l];
    assert x[h..] == y[h..] == y[m..][h - m..] == z[m..][h - m..] == z[h..];
    MirrorsPrefix(x, y, img, at, l, m);
    MirrorsJoin(x, img, at, l, m, h);
  }

  /** A read fills nothing when it moves nothing. */
  lemma FilledNone(b: seq<byte>, img: seq<byte>, at: nat, pos: nat)
    requires pos <= |b|
    ensures Filled(b, b, img, at, pos, pos)
  {
  }

  // ---------------------------------------------------------------- the device

  lemma Regroup3(a: seq<Call>, b: seq<Call>, c: seq<Call>)
    ensures a + b + c == a + (b + c)
  {
  }

  lemma Regroup(t: seq<Call>, c: Call, x: seq<Call>)
    ensures t + ([c] + x) == (t + [c]) + x
  {
  }

  /** Where an aligned body loop ends: the device trace, the flash image, the buffer, whether every call succeeded, and the buffer position it stopped at. */
  datatype Run = Run(calls: seq<Call>, img: seq<byte>, buf: seq<byte>, ok: bool, pos: nat)

  class Flash {
    /** The flash contents, sector after sector. */
    const bytes: array<byte>
    /** Whether the k-th device call of the session reports failure (a transport, envelope or device error). */
    const fails: nat -> bool
    /** The device calls issued so far. */
    var trace: seq<Call>

    constructor (bytes: array<byte>, fails: nat -> bool)
      ensures this.bytes == bytes && this.fails == fails && trace == []
    {
      this.bytes := bytes;
      this.fails := fails;
      trace := [];
    }

    /** The k-th call of the session succeeds unless the oracle fails it or it runs past the end of the flash. */
    predicate Accepts(c: Call, k: nat)
    {
      !fails(k) && (c.lba + c.count) * SECTOR <= bytes.Length
    }

    predicate AllAccepted(calls: seq<Call>, k: nat)
      decreases |calls|
    {
      calls == [] || (Accepts(calls[0], k) && AllAccepted(calls[1..], k + 1))
    }

    /** The calls a request stopping at its first failing call issues, its first call being the k-th of the session. */
    function Issued(plan: seq<Call>, k: nat): seq<Call>
      decreases |plan|
    {
      if plan == [] then []
      else if Accepts(plan[0], k) then [plan[0]] + Issued(plan[1..], k + 1)
      else [plan[0]]
    }

    /** What a request issues is a prefix of its plan, empty only when the plan is. */
    lemma {:induction false} IssuedPrefix(plan: seq<Call>, k: nat)
      ensures var r := Issued(plan, k);
        |r| <= |plan| && r == plan[..|r|] && (plan != [] ==> r != [])
      decreases |plan|
    {
      if plan != [] && Accepts(plan[0], k) {
        IssuedPrefix(plan[1..], k + 1);
        var r := Issued(plan[1..], k + 1);
        assert [plan[0]] + r == plan[..|r| + 1];
      }
    }

    /** Every issued call but the last succeeded, and a request cut short was cut by its last issued call failing. */
    lemma {:induction false} IssuedCut(plan: seq<Call>, k: nat)
      ensures var r := Issued(plan, k);
        && (forall i :: 0 <= i < |r| - 1 ==> Accepts(r[i], k + i))
        && (|r| < |plan| ==> r != [] && !Accepts(r[|r| - 1], k + |r| - 1))
      decreases |plan|
    {
      if plan != [] && Accepts(plan[0], k) {
        IssuedCut(plan[1..], k + 1);
        IssuedPrefix(plan[1..], k + 1);
        var q := Issued(plan[1..], k + 1);
        var r := [plan[0]] + q;
        assert Issued(plan, k) == r;
        forall i | 0 <= i < |r| - 1 ensures Accepts(r[i], k + i) {
          if i > 0 {
            assert r[i] == q[i - 1];
          }
        }
        if |r| < |plan| {
          assert r[|r| - 1] == q[|q| - 1];
        }
      }
    }

    /** Every call of a plan succeeds exactly when the i-th of them, issued as call k + i of the session, is accepted. */
    lemma {:induction false} AllAcceptedEvery(p: seq<Call>, k: nat)
      ensures AllAccepted(p, k) <==> forall i :: 0 <= i < |p| ==> Accepts(p[i], k + i)
      decreases |p|
    {
      if p != [] {
        AllAcceptedEvery(p[1..], k + 1);
        if forall i :: 0 <= i < |p| ==> Accepts(p[i], k + i) {
          forall i | 0 <= i < |p| - 1 ensures Accepts(p[1..][i], k + 1 + i) {
            assert p[1..][i] == p[i + 1];
          }
        }
      }
    }

    lemma {:induction false} AllAcceptedConcat(p: seq<Call>, q: seq<Call>, k: nat)
      ensures AllAccepted(p + q, k) == (AllAccepted(p, k) && AllAccepted(q, k + |p|))
      decreases |p|
    {
      if p == [] {
        assert p + q == q;
      } else {
        assert (p + q)[1..] == p[1..] + q;
        AllAcceptedConcat(p[1..], q, k + 1);
      }
    }

    /** Issuing two plans one after the other issues the second only if all of the first succeeded. */
    lemma {:induction false} IssuedConcat(p: seq<Call>, q: seq<Call>, k: nat)
      ensures Issued(p + q, k) == if AllAccepted(p, k) then p + Issued(q, k + |p|) else Issued(p, k)
      ensures AllAccepted(p + q, k) == (AllAccepted(p, k) && AllAccepted(q, k + |p|))
      decreases |p|
    {
      AllAcceptedConcat(p, q, k);
      if p == [] {
        assert p + q == q;
      } else {
        IssuedConcat(p[1..], q, k + 1);
        assert (p + q)[0] == p[0] && (p + q)[1..] == p[1..] + q;
        if AllAccepted(p, k) {
          assert [p[0]] + (p[1..] + Issued(q, k + |p|)) == p + Issued(q, k + |p|);
        }
      }
    }

    /** A plan every call of which succeeds is issued in full. */
    lemma {:induction false} IssuedAll(plan: seq<Call>, k: nat)
      requires AllAccepted(plan, k)
      ensures Issued(plan, k) == plan
      decreases |plan|
    {
      if plan != [] {
        IssuedAll(plan[1..], k + 1);
        assert [plan[0]] + plan[1..] == plan;
      }
    }

    /**
     * A run made of a first part h issuing plan p and, only if h succeeded, a second part r issuing
     * plan q next, issues p + q up to its first failing call.
     */
    lemma {:induction false} IssuedSeq(p: seq<Call>, q: seq<Call>, k: nat, h: Run, r: Run, whole: Run)
      requires h.calls == Issued(p, k) && h.ok == AllAccepted(p, k)
      requires h.ok ==> r.calls == Issued(q, k + |h.calls|) && r.ok == AllAccepted(q, k + |h.calls|)
      requires whole == if h.ok then r.(calls := h.calls + r.calls) else h
      ensures whole.calls == Issued(p + q, k) && whole.ok == AllAccepted(p + q, k)
    {
      IssuedConcat(p, q, k);
      if h.ok {
        IssuedAll(p, k);
      }
    }

    /** A single call is issued whatever its outcome. */
    lemma IssuedOne(c: Call, k: nat)
      ensures Issued([c], k) == [c] && AllAccepted([c], k) == Accepts(c, k)
    {
      assert [c][1..] == [];
    }

    /** A read-modify-write issues its write-back only when the read succeeded. */
    lemma IssuedPair(c: Call, d: Call, k: nat)
      ensures Issued([c, d], k) == if Accepts(c, k) then [c, d] else [c]
      ensures AllAccepted([c, d], k) == (Accepts(c, k) && Accepts(d, k + 1))
    {
      assert [c, d][1..] == [d];
      IssuedOne(d, k + 1);
    }

    lemma IssuedCons(c: Call, rest: seq<Call>, k: nat)
      ensures Issued([c] + rest, k) == if Accepts(c, k) then [c] + Issued(rest, k + 1) else [c]
      ensures AllAccepted([c] + rest, k) == (Accepts(c, k) && AllAccepted(rest, k + 1))
    {
      assert ([c] + rest)[1..] == rest;
    }

    /**
     * The aligned body loop of a read (Rd, flash into buffer) or a write (Wr, buffer into flash)
     * run as the k-th device call on, image img and buffer b, at sector lba and buffer position pos with
     * `left` bytes to go: each chunk is one device call, and the first failing call ends it.
     */
    ghost function BodyRun(op: Op, img: seq<byte>, b: seq<byte>, k: nat, lba: nat, pos: nat, left: nat): (r: Run)
      requires |img| == bytes.Length && pos + left <= |b|
      ensures |r.img| == |img| && |r.buf| == |b|
      decreases left
    {
      if left < SECTOR then Run([], img, b, true, pos)
      else
        var n := Chunk(left);
        var c := Call(op, lba, n);
        if !Accepts(c, k) then Run([c], img, b, false, pos)
        else
          var r := if op == Rd then BodyRun(op, img, Splice(b, pos, img[lba * SECTOR..(lba + n) * SECTOR]), k + 1, lba + n, pos + n * SECTOR, left - n * SECTOR)
                   else BodyRun(op, Splice(img, lba * SECTOR, b[pos..pos + n * SECTOR]), b, k + 1, lba + n, pos + n * SECTOR, left - n * SECTOR);
          r.(calls := [c] + r.calls)
    }

    /** One successful chunk of a body loop, from the state (img, b, k, lba, pos, left) to the state (img', b', k', lba', pos', left'). */
    lemma BodyRunStep(op: Op, img: seq<byte>, b: seq<byte>, k: nat, lba: nat, pos: nat, left: nat,
                      img': seq<byte>, b': seq<byte>, k': nat, lba': nat, pos': nat, left': nat)
      requires |img| == bytes.Length && pos + left <= |b| && left >= SECTOR
      requires var n := Chunk(left);
        && Accepts(Call(op, lba, n), k) && k' == k + 1 && lba' == lba + n && pos' == pos + n * SECTOR && left' == left - n * SECTOR
        && (op == Rd ==> img' == img && b' == Splice(b, pos, img[lba * SECTOR..(lba + n) * SECTOR]))
        && (op == Wr ==> b' == b && img' == Splice(img, lba * SECTOR, b[pos..pos + n * SECTOR]))
      ensures |img'| == bytes.Length && pos' + left' <= |b'|
      ensures var cur, r := BodyRun(op, img, b, k, lba, pos, left), BodyRun(op, img', b', k', lba', pos', left');
        && cur.calls == [Call(op, lba, Chunk(left))] + r.calls
        && cur.img == r.img && cur.buf == r.buf && cur.ok == r.ok && cur.pos == r.pos
    {
    }

    /**
     * The loop invariant of a body loop survives one successful chunk, from (img, b, k, lba, pos, left)
     * to (img', b', k', lba', pos', left').
     */
    lemma BodyLoopStep(op: Op, trace0: seq<Call>, r0: Run, t: seq<Call>, t': seq<Call>, rest: Run, rest': Run,
                       img: seq<byte>, b: seq<byte>, k: nat, lba: nat, pos: nat, left: nat,
                       img': seq<byte>, b': seq<byte>, k': nat, lba': nat, pos': nat, left': nat)
      requires |img| == bytes.Length && pos + left <= |b| && left >= SECTOR
      requires var n := Chunk(left);
        && Accepts(Call(op, lba, n), k) && k' == k + 1 && lba' == lba + n && pos' == pos + n * SECTOR && left' == left - n * SECTOR
        && (op == Rd ==> img' == img && b' == Splice(b, pos, img[lba * SECTOR..(lba + n) * SECTOR]))
        && (op == Wr ==> b' == b && img' == Splice(img, lba * SECTOR, b[pos..pos + n * SECTOR]))
        && t' == t + [Call(op, lba, n)]
      requires rest == BodyRun(op, img, b, k, lba, pos, left)
      requires trace0 + r0.calls == t + rest.calls && rest.img == r0.img && rest.buf == r0.buf && rest.ok == r0.ok && rest.pos == r0.pos
      ensures |img'| == bytes.Length && pos' + left' <= |b'|
      ensures rest' == BodyRun(op, img', b', k', lba', pos', left') ==>
        && trace0 + r0.calls == t' + rest'.calls
        && rest'.img == r0.img && rest'.buf == r0.buf && rest'.ok == r0.ok && rest'.pos == r0.pos
    {
      BodyRunStep(op, img, b, k, lba, pos, left, img', b', k', lba', pos', left');
      if rest' == BodyRun(op, img', b', k', lba', pos', left') {
        Regroup(t, Call(op, lba, Chunk(left)), rest'.calls);
      }
    }

    /** A failing chunk ends a body loop with the call that failed as its last. */
    lemma BodyLoopFails(op: Op, trace0: seq<Call>, r0: Run, t: seq<Call>, t': seq<Call>, rest: Run, img: seq<byte>, b: seq<byte>, k: nat, lba: nat, pos: nat, left: nat)
      requires |img| == bytes.Length && pos + left <= |b| && left >= SECTOR && !Accepts(Call(op, lba, Chunk(left)), k)
      requires t' == t + [Call(op, lba, Chunk(left))]
      requires rest == BodyRun(op, img, b, k, lba, pos, left)
      requires trace0 + r0.calls == t + rest.calls && rest.img == r0.img && rest.buf == r0.buf && rest.ok == r0.ok && rest.pos == r0.pos
      ensures t' == trace0 + r0.calls && r0.img == img && r0.buf == b && !r0.ok && r0.pos == pos
    {
    }

    /** A body loop that has run out of whole sectors has done all its run does. */
    lemma BodyLoopDone(op: Op, trace0: seq<Call>, r0: Run, t: seq<Call>, rest: Run, img: seq<byte>, b: seq<byte>, k: nat, lba: nat, pos: nat, left: nat)
      requires |img| == bytes.Length && pos + left <= |b| && left < SECTOR
      requires rest == BodyRun(op, img, b, k, lba, pos, left)
      requires trace0 + r0.calls == t + rest.calls && rest.img == r0.img && rest.buf == r0.buf && rest.ok == r0.ok && rest.pos == r0.pos
      ensures t == trace0 + r0.calls && r0.img == img && r0.buf == b && r0.ok && r0.pos == pos
    {
      assert t + [] == t;
    }

    /** The body loop issues its plan up to the first failing call, and succeeds exactly when every call does. */
    lemma {:induction false} BodyRunTrace(op: Op, img: seq<byte>, b: seq<byte>, k: nat, lba: nat, pos: nat, left: nat)
      requires |img| == bytes.Length && pos + left <= |b|
      ensures var r, plan := BodyRun(op, img, b, k, lba, pos, left), Body(op, lba, left);
        r.calls == Issued(plan, k) && r.ok == AllAccepted(plan, k)
      decreases left
    {
      if left >= SECTOR {
        var n := Chunk(left);
        var c := Call(op, lba, n);
        var k', lba', pos', left' := k + 1, lba + n, pos + n * SECTOR, left - n * SECTOR;
        var rest := Body(op, lba', left');
        assert Body(op, lba, left) == [c] + rest;
        IssuedCons(c, rest, k);
        if Accepts(c, k) {
          var img', b' := img, b;
          if op == Rd {
            b' := Splice(b, pos, img[lba * SECTOR..(lba + n) * SECTOR]);
          } else {
            img' := Splice(img, lba * SECTOR, b[pos..pos + n * SECTOR]);
          }
          BodyRunStep(op, img, b, k, lba, pos, left, img', b', k', lba', pos', left');
          BodyRunTrace(op, img', b', k', lba', pos', left');
        }
      }
    }

    /** The body loop stops inside its range, and when every call succeeds, after every whole sector. */
    lemma {:induction false} BodyRunStops(op: Op, img: seq<byte>, b: seq<byte>, k: nat, lba: nat, pos: nat, left: nat)
      requires |img| == bytes.Length && pos + left <= |b|
      ensures var r := BodyRun(op, img, b, k, lba, pos, left);
        && pos <= r.pos <= pos + left && |r.buf| == |b|
        && (r.ok ==> r.pos == pos + left - left % SECTOR)
      decreases left
    {
      if left >= SECTOR {
        var n := Chunk(left);
        if Accepts(Call(op, lba, n), k) {
          var k', lba', pos', left' := k + 1, lba + n, pos + n * SECTOR, left - n * SECTOR;
          var img', b' := img, b;
          if op == Rd {
            b' := Splice(b, pos, img[lba * SECTOR..(lba + n) * SECTOR]);
          } else {
            img' := Splice(img, lba * SECTOR, b[pos..pos + n * SECTOR]);
          }
          BodyRunStep(op, img, b, k, lba, pos, left, img', b', k', lba', pos', left');
          BodyRunStops(op, img', b', k', lba', pos', left');
          assert left' % SECTOR == left % SECTOR;
        }
      }
    }

    /** A read body fills the buffer from the flash, from the start position to where it stopped, and leaves the image alone. */
    lemma {:induction false} BodyRunRead(img: seq<byte>, b: seq<byte>, k: nat, lba: nat, pos: nat, left: nat, at: nat)
      requires |img| == bytes.Length && pos + left <= |b| && (left >= SECTOR ==> at + pos == lba * SECTOR)
      ensures var r := BodyRun(Rd, img, b, k, lba, pos, left);
        r.img == img && Filled(r.buf, b, img, at, pos, r.pos)
      decreases left
    {
      FilledNone(b, img, at, pos);
      if left >= SECTOR {
        var n := Chunk(left);
        if Accepts(Call(Rd, lba, n), k) {
          var k', lba', pos', left' := k + 1, lba + n, pos + n * SECTOR, left - n * SECTOR;
          var b' := Splice(b, pos, img[lba * SECTOR..(lba + n) * SECTOR]);
          var cur, r := BodyRun(Rd, img, b, k, lba, pos, left), BodyRun(Rd, img, b', k', lba', pos', left');
          assert cur.img == r.img && cur.buf == r.buf && cur.pos == r.pos by {
            BodyRunStep(Rd, img, b, k, lba, pos, left, img, b', k', lba', pos', left');
          }
          assert Filled(b', b, img, at, pos, pos') by {
            assert img[at + pos..at + pos + n * SECTOR] == img[lba * SECTOR..(lba + n) * SECTOR];
            FilledStep(b, b, img, at, pos, pos, n * SECTOR);
          }
          assert r.img == img && Filled(r.buf, b', img, at, pos', r.pos) by {
            BodyRunRead(img, b', k', lba', pos', left', at);
          }
          FilledTrans(r.buf, b', b, img, at, pos, pos', r.pos);
        }
      }
    }

    /** A write body copies the buffer, from the start position to where it stopped, onto the flash from sector lba on. */
    lemma {:induction false} BodyRunWrite(img: seq<byte>, b: seq<byte>, k: nat, lba: nat, pos: nat, left: nat)
      requires |img| == bytes.Length && pos + left <= |b|
      ensures var r := BodyRun(Wr, img, b, k, lba, pos, left);
        pos <= r.pos <= |b| && r.buf == b && r.img == Splice(img, lba * SECTOR, b[pos..r.pos])
      decreases left
    {
      BodyRunStops(Wr, img, b, k, lba, pos, left);
      SpliceEmpty(img, lba * SECTOR);
      if left >= SECTOR {
        var n := Chunk(left);
        if Accepts(Call(Wr, lba, n), k) {
          var k', lba', pos', left' := k + 1, lba + n, pos + n * SECTOR, left - n * SECTOR;
          var img' := Splice(img, lba * SECTOR, b[pos..pos']);
          var cur, r := BodyRun(Wr, img, b, k, lba, pos, left), BodyRun(Wr, img', b, k', lba', pos', left');
          assert cur.img == r.img && cur.buf == r.buf && cur.pos == r.pos by {
            BodyRunStep(Wr, img, b, k, lba, pos, left, img', b, k', lba', pos', left');
          }
          assert pos' <= r.pos <= |b| && r.buf == b && r.img == Splice(img', lba' * SECTOR, b[pos'..r.pos]) by {
            BodyRunWrite(img', b, k', lba', pos', left');
          }
          assert r.img == Splice(img, lba * SECTOR, b[pos..r.pos]) by {
            SpliceAppend(img, lba * SECTOR, b[pos..pos'], lba' * SECTOR, b[pos'..r.pos]);
            assert b[pos..pos'] + b[pos'..r.pos] == b[pos..r.pos];
          }
        }
      }
    }

    /**
     * One fragment of a read through the scratch buffer: sector lba read as the k-th call of the
     * session, then its bytes at..at + len copied to b[to..].
     */
    ghost function FragRead(img: seq<byte>, b: seq<byte>, k: nat, lba: nat, at: nat, to: nat, len: nat): Run
      requires |img| == bytes.Length && at + len <= SECTOR && to + len <= |b|
    {
      var c := Call(Rd, lba, 1);
      if Accepts(c, k) then Run([c], img, Splice(b, to, img[lba * SECTOR + at..lba * SECTOR + at + len]), true, to + len)
      else Run([c], img, b, false, to)
    }

    /** The leading fragment of a read transfer: a fragment read if `offset` is not sector-aligned. */
    ghost function HeadRead(img: seq<byte>, b: seq<byte>, k: nat, start: nat, offset: nat, n: nat): (h: Run)
      requires |img| == bytes.Length && n <= |b|
      ensures |h.buf| == |b|
    {
      if offset % SECTOR != 0 then FragRead(img, b, k, start + offset / SECTOR, offset % SECTOR, 0, Lead(offset, n))
      else Run([], img, b, true, 0)
    }

    /** The trailing fragment of a read transfer: a fragment read if a partial sector is left after the body. */
    ghost function TailRead(img: seq<byte>, b: seq<byte>, k: nat, start: nat, offset: nat, n: nat): Run
      requires |img| == bytes.Length && n <= |b|
    {
      var t := TailPos(offset, n);
      if t < n then FragRead(img, b, k, start + (offset + t) / SECTOR, 0, t, n - t) else Run([], img, b, true, t)
    }

    /**
     * What follows a successful leading fragment of a read transfer, its first call the k-th of the
     * session: the aligned body, then the trailing fragment if the body succeeded.
     */
    ghost function RestRead(img: seq<byte>, b: seq<byte>, k: nat, start: nat, offset: nat, n: nat): Run
      requires |img| == bytes.Length && n <= |b|
    {
      var f := Lead(offset, n);
      var m := BodyRun(Rd, img, b, k, start + (offset + f) / SECTOR, f, n - f);
      if !m.ok then m
      else
        var e := TailRead(img, m.buf, k + |m.calls|, start, offset, n);
        e.(calls := m.calls + e.calls)
    }

    /** A successful body of a transfer stops at the trailing fragment. */
    lemma BodyRunToTail(op: Op, img: seq<byte>, b: seq<byte>, k: nat, start: nat, offset: nat, n: nat)
      requires |img| == bytes.Length && n <= |b|
      ensures var f := Lead(offset, n);
        var m := BodyRun(op, img, b, k, start + (offset + f) / SECTOR, f, n - f);
        m.ok ==> m.pos == TailPos(offset, n)
    {
      var f := Lead(offset, n);
      BodyRunStops(op, img, b, k, start + (offset + f) / SECTOR, f, n - f);
    }

    /** The rest of a read transfer is its body, followed by the trailing fragment when the body succeeded. */
    lemma RestReadSplit(img: seq<byte>, b: seq<byte>, k: nat, start: nat, offset: nat, n: nat, pos: nat, m: Run, e: Run)
      requires |img| == bytes.Length && n <= |b|
      requires pos == Lead(offset, n) && m == BodyRun(Rd, img, b, k, start + (offset + pos) / SECTOR, pos, n - pos)
      requires e == TailRead(img, m.buf, k + |m.calls|, start, offset, n)
      ensures RestRead(img, b, k, start, offset, n) == if m.ok then e.(calls := m.calls + e.calls) else m
    {
    }

    /**
     * The transfer of rockfuse_read for a clamped length n at `offset` of the file starting at
     * sector `start`, from image img into buffer b, its first call the k-th of the session:
     * leading fragment, aligned body, trailing fragment, each only if everything before succeeded.
     */
    ghost function ReadRun(img: seq<byte>, b: seq<byte>, k: nat, start: nat, offset: nat, n: nat): Run
      requires |img| == bytes.Length && n <= |b|
    {
      var h := HeadRead(img, b, k, start, offset, n);
      if !h.ok then h
      else
        var r := RestRead(img, h.buf, k + |h.calls|, start, offset, n);
        r.(calls := h.calls + r.calls)
    }

    lemma HeadReadIssues(img: seq<byte>, b: seq<byte>, k: nat, start: nat, offset: nat, n: nat)
      requires |img| == bytes.Length && n <= |b|
      ensures var h, p := HeadRead(img, b, k, start, offset, n), ReadFragment(start + offset / SECTOR, offset % SECTOR != 0);
        h.calls == Issued(p, k) && h.ok == AllAccepted(p, k)
    {
      if offset % SECTOR != 0 {
        IssuedOne(Call(Rd, start + offset / SECTOR, 1), k);
      }
    }

    lemma TailReadIssues(img: seq<byte>, b: seq<byte>, k: nat, start: nat, offset: nat, n: nat)
      requires |img| == bytes.Length && n <= |b|
      ensures var e, t := TailRead(img, b, k, start, offset, n), TailPos(offset, n);
        var p := ReadFragment(start + (offset + t) / SECTOR, t < n);
        e.calls == Issued(p, k) && e.ok == AllAccepted(p, k)
    {
      var t := TailPos(offset, n);
      if t < n {
        IssuedOne(Call(Rd, start + (offset + t) / SECTOR, 1), k);
      }
    }

    /** A leading fragment is a fragment read of the first sector, when the offset is not aligned. */
    lemma HeadReadFrag(img: seq<byte>, b: seq<byte>, k: nat, start: nat, offset: nat, n: nat)
      requires |img| == bytes.Length && n <= |b|
      ensures HeadRead(img, b, k, start, offset, n)
           == if offset % SECTOR != 0 then FragRead(img, b, k, start + offset / SECTOR, offset % SECTOR, 0, Lead(offset, n))
              else Run([], img, b, true, 0)
    {
    }

    /** A trailing fragment is a fragment read of the last sector, when a partial sector is left. */
    lemma TailReadFrag(img: seq<byte>, b: seq<byte>, k: nat, start: nat, offset: nat, n: nat)
      requires |img| == bytes.Length && n <= |b|
      ensures var t := TailPos(offset, n);
        TailRead(img, b, k, start, offset, n)
        == if t < n then FragRead(img, b, k, start + (offset + t) / SECTOR, 0, t, n - t) else Run([], img, b, true, t)
    {
    }

    lemma ReadPlanParts(start: nat, offset: nat, n: nat)
      ensures var f, t := Lead(offset, n), TailPos(offset, n);
        ReadPlan(start, offset, n)
        == ReadFragment(start + offset / SECTOR, offset % SECTOR != 0)
           + (Body(Rd, start + (offset + f) / SECTOR, n - f) + ReadFragment(start + (offset + t) / SECTOR, t < n))
    {
      var f, t := Lead(offset, n), TailPos(offset, n);
      Regroup3(ReadFragment(start + offset / SECTOR, offset % SECTOR != 0), Body(Rd, start + (offset + f) / SECTOR, n - f),
               ReadFragment(start + (offset + t) / SECTOR, t < n));
    }

    /** The body and trailing fragment of a read transfer issue their plan up to the first failing call. */
    lemma {:induction false} RestReadIssues(img: seq<byte>, b: seq<byte>, k: nat, start: nat, offset: nat, n: nat)
      requires |img| == bytes.Length && n <= |b|
      ensures var f, t := Lead(offset, n), TailPos(offset, n);
        var plan := Body(Rd, start + (offset + f) / SECTOR, n - f) + ReadFragment(start + (offset + t) / SECTOR, t < n);
        var r := RestRead(img, b, k, start, offset, n);
        r.calls == Issued(plan, k) && r.ok == AllAccepted(plan, k)
    {
      var f, t := Lead(offset, n), TailPos(offset, n);
      var lba := start + (offset + f) / SECTOR;
      var m := BodyRun(Rd, img, b, k, lba, f, n - f);
      var e := TailRead(img, m.buf, k + |m.calls|, start, offset, n);
      BodyRunTrace(Rd, img, b, k, lba, f, n - f);
      TailReadIssues(img, m.buf, k + |m.calls|, start, offset, n);
      RestReadSplit(img, b, k, start, offset, n, f, m, e);
      IssuedSeq(Body(Rd, lba, n - f), ReadFragment(start + (offset + t) / SECTOR, t < n), k, m, e, RestRead(img, b, k, start, offset, n));
    }

    /** A read transfer issues its plan up to the first failing call, and succeeds exactly when every call of the plan does. */
    lemma {:induction false} ReadRunIssues(img: seq<byte>, b: seq<byte>, k: nat, start: nat, offset: nat, n: nat)
      requires |img| == bytes.Length && n <= |b|
      ensures var r, plan := ReadRun(img, b, k, start, offset, n), ReadPlan(start, offset, n);
        r.calls == Issued(plan, k) && r.ok == AllAccepted(plan, k)
    {
      var f, t := Lead(offset, n), TailPos(offset, n);
      var h := HeadRead(img, b, k, start, offset, n);
      var r := RestRead(img, h.buf, k + |h.calls|, start, offset, n);
      HeadReadIssues(img, b, k, start, offset, n);
      RestReadIssues(img, h.buf, k + |h.calls|, start, offset, n);
      ReadPlanParts(start, offset, n);
      IssuedSeq(ReadFragment(start + offset / SECTOR, offset % SECTOR != 0),
                Body(Rd, start + (offset + f) / SECTOR, n - f) + ReadFragment(start + (offset + t) / SECTOR, t < n),
                k, h, r, ReadRun(img, b, k, start, offset, n));
    }

    /** A fragment read fills b[to..to + len] from the flash when it succeeds, and nothing when it fails. */
    lemma {:induction false} FragReadFills(img: seq<byte>, b: seq<byte>, k: nat, lba: nat, at: nat, to: nat, len: nat, base: nat)
      requires |img| == bytes.Length && at + len <= SECTOR && to + len <= |b| && base + to == lba * SECTOR + at
      ensures var r := FragRead(img, b, k, lba, at, to, len);
        Filled(r.buf, b, img, base, to, r.pos) && r.pos == (if r.ok then to + len else to)
    {
      FilledNone(b, img, base, to);
      if Accepts(Call(Rd, lba, 1), k) {
        assert (lba + 1) * SECTOR == lba * SECTOR + SECTOR;
        FilledStep(b, b, img, base, to, to, len);
      }
    }

    /** The leading fragment fills the buffer from its start, up to the lead when it succeeds. */
    lemma {:induction false} HeadReadFills(img: seq<byte>, b: seq<byte>, k: nat, start: nat, offset: nat, n: nat)
      requires |img| == bytes.Length && n <= |b|
      ensures var h := HeadRead(img, b, k, start, offset, n);
        Filled(h.buf, b, img, start * SECTOR + offset, 0, h.pos) && (h.ok ==> h.pos == Lead(offset, n))
    {
      HeadReadFrag(img, b, k, start, offset, n);
      if offset % SECTOR != 0 {
        assert start * SECTOR + offset == (start + offset / SECTOR) * SECTOR + offset % SECTOR;
        FragReadFills(img, b, k, start + offset / SECTOR, offset % SECTOR, 0, Lead(offset, n), start * SECTOR + offset);
      } else {
        FilledNone(b, img, start * SECTOR + offset, 0);
      }
    }

    /** The trailing fragment fills the buffer from the tail position t, up to n when it succeeds. */
    lemma {:induction false} TailReadFills(img: seq<byte>, b: seq<byte>, k: nat, start: nat, offset: nat, n: nat, t: nat)
      requires |img| == bytes.Length && n <= |b| && t == TailPos(offset, n)
      ensures var e := TailRead(img, b, k, start, offset, n);
        Filled(e.buf, b, img, start * SECTOR + offset, t, e.pos) && (e.ok ==> e.pos == n)
    {
      TailReadFrag(img, b, k, start, offset, n);
      if t < n {
        TailAligned(offset, n);
        AlignedSector(start, offset, t);
        FragReadFills(img, b, k, start + (offset + t) / SECTOR, 0, t, n - t, start * SECTOR + offset);
      } else {
        FilledNone(b, img, start * SECTOR + offset, t);
      }
    }

    /** The aligned body of a read transfer fills the buffer from the lead on, up to the tail position when it succeeds. */
    lemma {:induction false} BodyReadFills(img: seq<byte>, b: seq<byte>, k: nat, start: nat, offset: nat, n: nat)
      requires |img| == bytes.Length && n <= |b|
      ensures var f := Lead(offset, n);
        var m := BodyRun(Rd, img, b, k, start + (offset + f) / SECTOR, f, n - f);
        Filled(m.buf, b, img, start * SECTOR + offset, f, m.pos) && m.pos <= n && (m.ok ==> m.pos == TailPos(offset, n))
    {
      var f := Lead(offset, n);
      if n - f >= SECTOR {
        AlignedSector(start, offset, f);
      }
      BodyRunRead(img, b, k, start + (offset + f) / SECTOR, f, n - f, start * SECTOR + offset);
      BodyRunStops(Rd, img, b, k, start + (offset + f) / SECTOR, f, n - f);
    }

    /** A successful body followed by the trailing fragment fills the buffer from the lead on, up to n when the fragment succeeds. */
    lemma {:induction false} BodyTailFills(img: seq<byte>, b: seq<byte>, k: nat, start: nat, offset: nat, n: nat, m: Run, e: Run)
      requires |img| == bytes.Length && n <= |b|
      requires m == BodyRun(Rd, img, b, k, start + (offset + Lead(offset, n)) / SECTOR, Lead(offset, n), n - Lead(offset, n))
      requires m.ok && e == TailRead(img, m.buf, k + |m.calls|, start, offset, n)
      ensures Filled(e.buf, b, img, start * SECTOR + offset, Lead(offset, n), e.pos) && e.pos <= n && (e.ok ==> e.pos == n)
    {
      BodyReadFills(img, b, k, start, offset, n);
      TailReadFills(img, m.buf, k + |m.calls|, start, offset, n, m.pos);
      FilledTrans(e.buf, m.buf, b, img, start * SECTOR + offset, Lead(offset, n), m.pos, e.pos);
    }

    /** Body and trailing fragment fill the buffer from the lead on, up to n when they succeed. */
    lemma {:induction false} RestReadFills(img: seq<byte>, b: seq<byte>, k: nat, start: nat, offset: nat, n: nat)
      requires |img| == bytes.Length && n <= |b|
      ensures var r := RestRead(img, b, k, start, offset, n);
        Filled(r.buf, b, img, start * SECTOR + offset, Lead(offset, n), r.pos) && r.pos <= n && (r.ok ==> r.pos == n)
    {
      var f := Lead(offset, n);
      var m := BodyRun(Rd, img, b, k, start + (offset + f) / SECTOR, f, n - f);
      var e := TailRead(img, m.buf, k + |m.calls|, start, offset, n);
      RestReadSplit(img, b, k, start, offset, n, f, m, e);
      if m.ok {
        BodyTailFills(img, b, k, start, offset, n, m, e);
      } else {
        BodyReadFills(img, b, k, start, offset, n);
      }
    }

    /**
     * A read transfer fills the buffer from its start and leaves the rest alone; when it succeeds
     * it has filled all n bytes from the flash at byte start * SECTOR + offset.
     */
    lemma {:induction false} ReadRunFills(img: seq<byte>, b: seq<byte>, k: nat, start: nat, offset: nat, n: nat)
      requires |img| == bytes.Length && n <= |b|
      ensures var r := ReadRun(img, b, k, start, offset, n);
        Filled(r.buf, b, img, start * SECTOR + offset, 0, r.pos) && r.pos <= n && (r.ok ==> r.pos == n)
    {
      var h := HeadRead(img, b, k, start, offset, n);
      HeadReadFills(img, b, k, start, offset, n);
      if h.ok {
        var r := RestRead(img, h.buf, k + |h.calls|, start, offset, n);
        RestReadFills(img, h.buf, k + |h.calls|, start, offset, n);
        FilledTrans(r.buf, h.buf, b, img, start * SECTOR + offset, 0, h.pos, r.pos);
      }
    }

    /**
     * One fragment of the corrected write: sector lba read into the scratch buffer as the k-th call
     * of the session, b[from..from + len] copied to its byte `at`, and the sector written back.
     */
    ghost function FragWrite(img: seq<byte>, b: seq<byte>, k: nat, lba: nat, at: nat, from: nat, len: nat): Run
      requires |img| == bytes.Length && at + len <= SECTOR && from + len <= |b|
    {
      var rd, wr := Call(Rd, lba, 1), Call(Wr, lba, 1);
      if !Accepts(rd, k) then Run([rd], img, b, false, from)
      else if !Accepts(wr, k + 1) then Run([rd, wr], img, b, false, from)
      else Run([rd, wr], Splice(img, lba * SECTOR + at, b[from..from + len]), b, true, from + len)
    }

    /** The leading fragment of a write transfer: a fragment write if `offset` is not sector-aligned. */
    ghost function HeadWrite(img: seq<byte>, b: seq<byte>, k: nat, start: nat, offset: nat, n: nat): (h: Run)
      requires |img| == bytes.Length && n <= |b|
      ensures |h.img| == |img|
    {
      if offset % SECTOR != 0 then FragWrite(img, b, k, start + offset / SECTOR, offset % SECTOR, 0, Lead(offset, n))
      else Run([], img, b, true, 0)
    }

    /** The trailing fragment of a write transfer: a fragment write if a partial sector is left after the body. */
    ghost function TailWrite(img: seq<byte>, b: seq<byte>, k: nat, start: nat, offset: nat, n: nat): Run
      requires |img| == bytes.Length && n <= |b|
    {
      var t := TailPos(offset, n);
      if t < n then FragWrite(img, b, k, start + (offset + t) / SECTOR, 0, t, n - t) else Run([], img, b, true, t)
    }

    /** What follows a successful leading fragment of a write transfer: the aligned body, then the trailing fragment. */
    ghost function RestWrite(img: seq<byte>, b: seq<byte>, k: nat, start: nat, offset: nat, n: nat): Run
      requires |img| == bytes.Length && n <= |b|
    {
      var f := Lead(offset, n);
      var m := BodyRun(Wr, img, b, k, start + (offset + f) / SECTOR, f, n - f);
      if !m.ok then m
      else
        var e := TailWrite(m.img, b, k + |m.calls|, start, offset, n);
        e.(calls := m.calls + e.calls)
    }

    /**
     * The transfer of the corrected rockfuse_write for a clamped length n at `offset` of the file
     * starting at sector `start`, from buffer b onto image img, its first call the k-th of the
     * session: leading fragment, aligned body, trailing fragment, each only if everything before succeeded.
     */
    ghost function WriteRun(img: seq<byte>, b: seq<byte>, k: nat, start: nat, offset: nat, n: nat): Run
      requires |img| == bytes.Length && n <= |b|
    {
      var h := HeadWrite(img, b, k, start, offset, n);
      if !h.ok then h
      else
        var r := RestWrite(h.img, b, k + |h.calls|, start, offset, n);
        r.(calls := h.calls + r.calls)
    }

    /** A fragment write issues its read-modify-write pair up to the first failing call, and leaves the buffer alone. */
    lemma FragWriteIssues(img: seq<byte>, b: seq<byte>, k: nat, lba: nat, at: nat, from: nat, len: nat)
      requires |img| == bytes.Length && at + len <= SECTOR && from + len <= |b|
      ensures var r, p := FragWrite(img, b, k, lba, at, from, len), RmwFragment(lba, true);
        r.calls == Issued(p, k) && r.ok == AllAccepted(p, k) && r.buf == b
    {
      IssuedPair(Call(Rd, lba, 1), Call(Wr, lba, 1), k);
    }

    lemma HeadWriteIssues(img: seq<byte>, b: seq<byte>, k: nat, start: nat, offset: nat, n: nat)
      requires |img| == bytes.Length && n <= |b|
      ensures var h, p := HeadWrite(img, b, k, start, offset, n), RmwFragment(start + offset / SECTOR, offset % SECTOR != 0);
        h.calls == Issued(p, k) && h.ok == AllAccepted(p, k)
    {
      if offset % SECTOR != 0 {
        FragWriteIssues(img, b, k, start + offset / SECTOR, offset % SECTOR, 0, Lead(offset, n));
      }
    }

    lemma TailWriteIssues(img: seq<byte>, b: seq<byte>, k: nat, start: nat, offset: nat, n: nat)
      requires |img| == bytes.Length && n <= |b|
      ensures var e, t := TailWrite(img, b, k, start, offset, n), TailPos(offset, n);
        var p := RmwFragment(start + (offset + t) / SECTOR, t < n);
        e.calls == Issued(p, k) && e.ok == AllAccepted(p, k)
    {
      var t := TailPos(offset, n);
      if t < n {
        FragWriteIssues(img, b, k, start + (offset + t) / SECTOR, 0, t, n - t);
      }
    }

    lemma WritePlanParts(start: nat, offset: nat, n: nat)
      ensures var f, t := Lead(offset, n), TailPos(offset, n);
        WritePlan(start, offset, n)
        == RmwFragment(start + offset / SECTOR, offset % SECTOR != 0)
           + (Body(Wr, start + (offset + f) / SECTOR, n - f) + RmwFragment(start + (offset + t) / SECTOR, t < n))
    {
      var f, t := Lead(offset, n), TailPos(offset, n);
      Regroup3(RmwFragment(start + offset / SECTOR, offset % SECTOR != 0), Body(Wr, start + (offset + f) / SECTOR, n - f),
               RmwFragment(start + (offset + t) / SECTOR, t < n));
    }

    /** The rest of a write transfer is its body, followed by the trailing fragment when the body succeeded. */
    lemma RestWriteSplit(img: seq<byte>, b: seq<byte>, k: nat, start: nat, offset: nat, n: nat, pos: nat, m: Run, e: Run)
      requires |img| == bytes.Length && n <= |b|
      requires pos == Lead(offset, n) && m == BodyRun(Wr, img, b, k, start + (offset + pos) / SECTOR, pos, n - pos)
      requires |m.img| == |img| && e == TailWrite(m.img, b, k + |m.calls|, start, offset, n)
      ensures RestWrite(img, b, k, start, offset, n) == if m.ok then e.(calls := m.calls + e.calls) else m
    {
    }

    /** The body and trailing fragment of a write transfer issue their plan up to the first failing call. */
    lemma {:induction false} RestWriteIssues(img: seq<byte>, b: seq<byte>, k: nat, start: nat, offset: nat, n: nat)
      requires |img| == bytes.Length && n <= |b|
      ensures var f, t := Lead(offset, n), TailPos(offset, n);
        var plan := Body(Wr, start + (offset + f) / SECTOR, n - f) + RmwFragment(start + (offset + t) / SECTOR, t < n);
        var r := RestWrite(img, b, k, start, offset, n);
        r.calls == Issued(plan, k) && r.ok == AllAccepted(plan, k)
    {
      var f, t := Lead(offset, n), TailPos(offset, n);
      var lba := start + (offset + f) / SECTOR;
      var m := BodyRun(Wr, img, b, k, lba, f, n - f);
      var e := TailWrite(m.img, b, k + |m.calls|, start, offset, n);
      BodyRunTrace(Wr, img, b, k, lba, f, n - f);
      TailWriteIssues(m.img, b, k + |m.calls|, start, offset, n);
      var whole := RestWrite(img, b, k, start, offset, n);
      assert whole == if m.ok then e.(calls := m.calls + e.calls) else m;
      IssuedSeq(Body(Wr, lba, n - f), RmwFragment(start + (offset + t) / SECTOR, t < n), k, m, e, whole);
    }

    /** A write transfer issues its plan up to the first failing call, and succeeds exactly when every call of the plan does. */
    lemma {:induction false} WriteRunIssues(img: seq<byte>, b: seq<byte>, k: nat, start: nat, offset: nat, n: nat)
      requires |img| == bytes.Length && n <= |b|
      ensures var r, plan := WriteRun(img, b, k, start, offset, n), WritePlan(start, offset, n);
        r.calls == Issued(plan, k) && r.ok == AllAccepted(plan, k)
    {
      var f, t := Lead(offset, n), TailPos(offset, n);
      var h := HeadWrite(img, b, k, start, offset, n);
      var r := RestWrite(h.img, b, k + |h.calls|, start, offset, n);
      HeadWriteIssues(img, b, k, start, offset, n);
      RestWriteIssues(h.img, b, k + |h.calls|, start, offset, n);
      WritePlanParts(start, offset, n);
      IssuedSeq(RmwFragment(start + offset / SECTOR, offset % SECTOR != 0),
                Body(Wr, start + (offset + f) / SECTOR, n - f) + RmwFragment(start + (offset + t) / SECTOR, t < n),
                k, h, r, WriteRun(img, b, k, start, offset, n));
    }

    /** A fragment write stores b[from..from + len] in the flash when it succeeds, and nothing when it fails. */
    lemma {:induction false} FragWriteWrites(img: seq<byte>, b: seq<byte>, k: nat, lba: nat, at: nat, from: nat, len: nat, base: nat)
      requires |img| == bytes.Length && at + len <= SECTOR && from + len <= |b| && base + from == lba * SECTOR + at
      ensures var r := FragWrite(img, b, k, lba, at, from, len);
        r.img == Splice(img, base + from, b[from..r.pos]) && r.pos == (if r.ok then from + len else from)
    {
      SpliceEmpty(img, base + from);
    }

    /** The leading fragment stores the buffer from its start, up to the lead when it succeeds. */
    lemma {:induction false} HeadWriteWrites(img: seq<byte>, b: seq<byte>, k: nat, start: nat, offset: nat, n: nat)
      requires |img| == bytes.Length && n <= |b|
      ensures var h := HeadWrite(img, b, k, start, offset, n);
        h.img == Splice(img, start * SECTOR + offset, b[0..h.pos]) && (h.ok ==> h.pos == Lead(offset, n))
    {
      if offset % SECTOR != 0 {
        assert start * SECTOR + offset == (start + offset / SECTOR) * SECTOR + offset % SECTOR;
        FragWriteWrites(img, b, k, start + offset / SECTOR, offset % SECTOR, 0, Lead(offset, n), start * SECTOR + offset);
      } else {
        SpliceEmpty(img, start * SECTOR + offset);
      }
    }

    /** The trailing fragment stores the buffer from the tail position t, up to n when it succeeds. */
    lemma {:induction false} TailWriteWrites(img: seq<byte>, b: seq<byte>, k: nat, start: nat, offset: nat, n: nat, t: nat)
      requires |img| == bytes.Length && n <= |b| && t == TailPos(offset, n)
      ensures var e := TailWrite(img, b, k, start, offset, n);
        t <= e.pos <= n && e.img == Splice(img, start * SECTOR + offset + t, b[t..e.pos]) && (e.ok ==> e.pos == n)
    {
      if t < n {
        TailAligned(offset, n);
        AlignedSector(start, offset, t);
        FragWriteWrites(img, b, k, start + (offset + t) / SECTOR, 0, t, n - t, start * SECTOR + offset);
      } else {
        SpliceEmpty(img, start * SECTOR + offset + t);
      }
    }

    /** The aligned body of a write transfer stores the buffer from the lead on, up to the tail position when it succeeds. */
    lemma {:induction false} BodyWriteWrites(img: seq<byte>, b: seq<byte>, k: nat, start: nat, offset: nat, n: nat)
      requires |img| == bytes.Length && n <= |b|
      ensures var f := Lead(offset, n);
        var m := BodyRun(Wr, img, b, k, start + (offset + f) / SECTOR, f, n - f);
        && f <= m.pos <= n && m.img == Splice(img, start * SECTOR + offset + f, b[f..m.pos])
        && (m.ok ==> m.pos == TailPos(offset, n))
    {
      var f := Lead(offset, n);
      var lba := start + (offset + f) / SECTOR;
      BodyRunWrite(img, b, k, lba, f, n - f);
      BodyRunStops(Wr, img, b, k, lba, f, n - f);
      if n - f >= SECTOR {
        AlignedSector(start, offset, f);
      } else {
        SpliceEmpty(img, lba * SECTOR);
        SpliceEmpty(img, start * SECTOR + offset + f);
      }
    }

    /** A successful write body followed by the trailing fragment stores the buffer from the lead on. */
    lemma {:induction false} BodyTailWrites(img: seq<byte>, b: seq<byte>, k: nat, start: nat, offset: nat, n: nat, m: Run, e: Run)
      requires |img| == bytes.Length && n <= |b|
      requires m == BodyRun(Wr, img, b, k, start + (offset + Lead(offset, n)) / SECTOR, Lead(offset, n), n - Lead(offset, n))
      requires m.ok && |m.img| == |img| && e == TailWrite(m.img, b, k + |m.calls|, start, offset, n)
      ensures e.img == Splice(img, start * SECTOR + offset + Lead(offset, n), b[Lead(offset, n)..e.pos]) && e.pos <= n && (e.ok ==> e.pos == n)
    {
      var f, base := Lead(offset, n), start * SECTOR + offset;
      BodyWriteWrites(img, b, k, start, offset, n);
      TailWriteWrites(m.img, b, k + |m.calls|, start, offset, n, m.pos);
      SpliceJoin(img, m.img, e.img, b, base, f, m.pos, e.pos);
    }

    /** Body and trailing fragment store the buffer from the lead on, up to n when they succeed. */
    lemma {:induction false} RestWriteWrites(img: seq<byte>, b: seq<byte>, k: nat, start: nat, offset: nat, n: nat)
      requires |img| == bytes.Length && n <= |b|
      ensures var r := RestWrite(img, b, k, start, offset, n);
        Lead(offset, n) <= r.pos <= n && r.img == Splice(img, start * SECTOR + offset + Lead(offset, n), b[Lead(offset, n)..r.pos])
        && (r.ok ==> r.pos == n)
    {
      var f := Lead(offset, n);
      var m := BodyRun(Wr, img, b, k, start + (offset + f) / SECTOR, f, n - f);
      var e := TailWrite(m.img, b, k + |m.calls|, start, offset, n);
      RestWriteSplit(img, b, k, start, offset, n, f, m, e);
      BodyWriteWrites(img, b, k, start, offset, n);
      if m.ok {
        BodyTailWrites(img, b, k, start, offset, n, m, e);
      }
    }

    /**
     * A run made of a first part h storing b[..h.pos] at byte `base` and, only if h succeeded, a
     * second part r storing b[h.pos..r.pos] next, stores b[..whole.pos] at `base`.
     */
    lemma {:induction false} SplicedSeq(img: seq<byte>, b: seq<byte>, base: nat, f: nat, n: nat, h: Run, r: Run, whole: Run)
      requires h.pos <= n <= |b| && h.img == Splice(img, base, b[0..h.pos]) && (h.ok ==> h.pos == f)
      requires h.ok ==> f <= r.pos <= n && r.img == Splice(h.img, base + f, b[f..r.pos]) && (r.ok ==> r.pos == n)
      requires whole == if h.ok then r.(calls := h.calls + r.calls) else h
      ensures whole.pos <= n && whole.img == Splice(img, base, b[..whole.pos]) && (whole.ok ==> whole.pos == n)
    {
      if h.ok {
        SpliceJoin(img, h.img, r.img, b, base, 0, f, r.pos);
        assert b[0..r.pos] == b[..r.pos];
      } else {
        assert b[0..h.pos] == b[..h.pos];
      }
    }

    /**
     * A write transfer stores a prefix of the buffer in the flash at byte start * SECTOR + offset
     * and nothing else; when it succeeds that prefix is all n bytes.
     */
    lemma {:induction false} WriteRunWrites(img: seq<byte>, b: seq<byte>, k: nat, start: nat, offset: nat, n: nat)
      requires |img| == bytes.Length && n <= |b|
      ensures var r := WriteRun(img, b, k, start, offset, n);
        r.pos <= n && r.img == Splice(img, start * SECTOR + offset, b[..r.pos]) && (r.ok ==> r.pos == n)
    {
      var h := HeadWrite(img, b, k, start, offset, n);
      var r := RestWrite(h.img, b, k + |h.calls|, start, offset, n);
      HeadWriteWrites(img, b, k, start, offset, n);
      RestWriteWrites(h.img, b, k + |h.calls|, start, offset, n);
      SplicedSeq(img, b, start * SECTOR + offset, Lead(offset, n), n, h, r, WriteRun(img, b, k, start, offset, n));
    }

    /** rockusb_read_lba as the translator sees it: `count` sectors from sector `lba` into buf[at..]. */
    method ReadLba(lba: nat, count: nat, buf: array<byte>, at: nat) returns (ok: bool)
      requires buf != bytes && at + count * SECTOR <= buf.Length
      modifies this`trace, buf
      ensures trace == old(trace) + [Call(Rd, lba, count)]
      ensures ok == Accepts(Call(Rd, lba, count), |old(trace)|)
      ensures bytes[..] == old(bytes[..])
      ensures buf[..] == if ok then Splice(old(buf[..]), at, bytes[lba * SECTOR..(lba + count) * SECTOR]) else old(buf[..])
    {
      ok := Accepts(Call(Rd, lba, count), |trace|);
      trace := trace + [Call(Rd, lba, count)];
      if ok {
        forall i | 0 <= i < count * SECTOR {
          buf[at + i] := bytes[lba * SECTOR + i];
        }
      }
    }

    /** rockusb_write_lba as the translator sees it: `count` sectors from buf[at..] to sector `lba`. */
    method WriteLba(lba: nat, count: nat, buf: array<byte>, at: nat) returns (ok: bool)
      requires buf != bytes && at + count * SECTOR <= buf.Length
      modifies this`trace, bytes
      ensures trace == old(trace) + [Call(Wr, lba, count)]
      ensures ok == Accepts(Call(Wr, lba, count), |old(trace)|)
      ensures bytes[..] == if ok then Splice(old(bytes[..]), lba * SECTOR, buf[at..at + count * SECTOR]) else old(bytes[..])
    {
      ok := Accepts(Call(Wr, lba, count), |trace|);
      trace := trace + [Call(Wr, lba, count)];
      if ok {
        var base, size := lba * SECTOR, count * SECTOR;
        ghost var d := buf[at..at + size];
        forall i | 0 <= i < size {
          bytes[base + i] := buf[at + i];
        }
        assert forall j :: 0 <= j < bytes.Length ==> bytes[j] == Splice(old(bytes[..]), base, d)[j];
      }
    }
  }
}
