/** Mapping one direction of a slave's process data: the walk over its sync
    managers, the FMMUs it produces and the advance of the logical cursor. */
module Mapping {

  /** Sync managers per slave. */
  const MAX_SM: nat := 8

  /** A sync manager: physical start, length in bytes, and its type
      (3 = outputs, 4 = inputs). */
  datatype Sm = Sm(start: nat, len: nat, kind: nat)

  /** The programmed part of an FMMU. */
  datatype Fmmu = Fmmu(logStart: nat, logLength: nat, startBit: nat, endBit: nat, physStart: nat)

  /** What one FMMU covers: a number of bytes from a physical address. */
  datatype Chunk = Chunk(phys: nat, size: nat)

  function Bytes(bits: nat): nat {
    (bits + 7) / 8
  }

  /** Fewer than eight bits are packed bitwise. */
  predicate BitOriented(bits: nat) {
    bits <= 7
  }

  /** Bytes of the sync managers of one type from index i on. */
  function Total(sms: seq<Sm>, kind: nat, i: nat): nat
    requires i <= |sms|
    decreases |sms| - i
  {
    if i == |sms| then 0 else (if sms[i].kind == kind then sms[i].len else 0) + Total(sms, kind, i + 1)
  }

  /** The source demands sync managers of the right type that add up to the mapped
      bytes; it keeps addresses and byte counts in 16 bits. */
  ghost predicate ValidSms(sms: seq<Sm>, kind: nat, bits: nat) {
    && |sms| == MAX_SM
    && bits <= 8 * Total(sms, kind, 0) && Total(sms, kind, 0) <= 0xffff
    && forall i :: 0 <= i < MAX_SM ==> sms[i].start + sms[i].len <= 0xffff
  }

  /** First index from i on holding the type, the last index if there is none. */
  function NextOfKind(sms: seq<Sm>, kind: nat, i: nat): (n: nat)
    requires |sms| == MAX_SM && i < MAX_SM
    ensures i <= n < MAX_SM
    decreases MAX_SM - i
  {
    if i < MAX_SM - 1 && sms[i].kind != kind then NextOfKind(sms, kind, i + 1) else i
  }

  /** Joins further sync managers while more bytes are needed and the next one
      does not start beyond `end`; answers where it stopped and the byte count. */
  function Absorb(sms: seq<Sm>, kind: nat, bits: nat, i: nat, count: nat, end: nat): (r: (nat, nat))
    requires |sms| == MAX_SM && i < MAX_SM
    ensures i <= r.0 < MAX_SM && count <= r.1
    decreases MAX_SM - i
  {
    if 8 * count < bits && i < MAX_SM - 1 then
      var n := NextOfKind(sms, kind, i + 1);
      if sms[n].start > end then (n, count)
      else Absorb(sms, kind, bits, n, count + sms[n].len, sms[n].start + sms[n].len)
    else (i, count)
  }

  /** One turn of the joining loop. */
  lemma AbsorbStep(sms: seq<Sm>, kind: nat, bits: nat, i: nat, count: nat, end: nat)
    requires |sms| == MAX_SM && i < MAX_SM
    ensures Absorb(sms, kind, bits, i, count, end) ==
      if 8 * count < bits && i < MAX_SM - 1 then
        var n := NextOfKind(sms, kind, i + 1);
        if sms[n].start > end then (n, count)
        else Absorb(sms, kind, bits, n, count + sms[n].len, sms[n].start + sms[n].len)
      else (i, count)
  {
    hide NextOfKind;
  }

  /** One round of the outer loop: the sync manager it starts from, where it stops
      and the byte count reached, which is never reset between rounds. */
  function Round(sms: seq<Sm>, kind: nat, bits: nat, i: nat, count: nat): (r: (nat, nat, nat))
    requires |sms| == MAX_SM && i < MAX_SM
    ensures i <= r.0 <= r.1 < MAX_SM && count <= r.2
  {
    var n := NextOfKind(sms, kind, i);
    var (m, c) := Absorb(sms, kind, bits, n, count + sms[n].len, sms[n].start + sms[n].len);
    (n, m, c)
  }

  lemma TotalAtEnd(sms: seq<Sm>, kind: nat)
    ensures Total(sms, kind, |sms|) == 0
  {
  }

  lemma {:induction false} TotalFromNext(sms: seq<Sm>, kind: nat, i: nat)
    requires |sms| == MAX_SM && i < MAX_SM
    ensures var n := NextOfKind(sms, kind, i);
            && Total(sms, kind, i) == Total(sms, kind, n)
            && (Total(sms, kind, i) > 0 ==> sms[n].kind == kind)
            && (sms[n].kind == kind ==> Total(sms, kind, i) == sms[n].len + Total(sms, kind, n + 1))
    decreases MAX_SM - i
  {
    assert i == MAX_SM - 1 ==> Total(sms, kind, i + 1) == 0;
    if i < MAX_SM - 1 && sms[i].kind != kind {
      TotalFromNext(sms, kind, i + 1);
    }
  }

  /** Joining stops either because enough bytes are reached or at a later sync
      manager of the type, every byte before it having been counted. */
  lemma {:induction false} AbsorbStops(sms: seq<Sm>, kind: nat, bits: nat, i: nat, count: nat, end: nat)
    requires |sms| == MAX_SM && i < MAX_SM
    requires bits <= 8 * (count + Total(sms, kind, i + 1))
    ensures var (m, c) := Absorb(sms, kind, bits, i, count, end);
            && (8 * c < bits ==>
                  i < m && sms[m].kind == kind && c + Total(sms, kind, m) == count + Total(sms, kind, i + 1))
            && (8 * c >= bits ==> c <= count + Total(sms, kind, i + 1))
    decreases MAX_SM - i
  {
    hide NextOfKind, Total;
    TotalAtEnd(sms, kind);
    if 8 * count < bits {
      TotalFromNext(sms, kind, i + 1);
      var n := NextOfKind(sms, kind, i + 1);
      if sms[n].start <= end {
        AbsorbStops(sms, kind, bits, n, count + sms[n].len, sms[n].start + sms[n].len);
        assert Absorb(sms, kind, bits, i, count, end)
          == Absorb(sms, kind, bits, n, count + sms[n].len, sms[n].start + sms[n].len);
      } else {
        assert Absorb(sms, kind, bits, i, count, end) == (n, count);
      }
    } else {
      assert Absorb(sms, kind, bits, i, count, end) == (i, count);
    }
  }

  /** A round that starts with enough left either reaches the end or leaves enough
      for the next one, which starts strictly later. */
  lemma RoundStops(sms: seq<Sm>, kind: nat, bits: nat, i: nat, count: nat)
    requires |sms| == MAX_SM && i < MAX_SM && 8 * count < bits
    requires bits <= 8 * (count + Total(sms, kind, i))
    ensures var (n, m, c) := Round(sms, kind, bits, i, count);
            && sms[n].kind == kind && c <= count + Total(sms, kind, i)
            && (8 * c < bits ==> n < m && sms[m].kind == kind && c + Total(sms, kind, m) == count + Total(sms, kind, i))
  {
    hide NextOfKind, Total, Absorb;
    TotalFromNext(sms, kind, i);
    var n := NextOfKind(sms, kind, i);
    AbsorbStops(sms, kind, bits, n, count + sms[n].len, sms[n].start + sms[n].len);
  }

  function Min(a: int, b: int): int {
    if a <= b then a else b
  }

  /** The chunks of a byte-oriented slave when `done` bytes are already covered. */
  function Chunks(sms: seq<Sm>, kind: nat, bits: nat, i: nat, done: nat, count: nat): (s: seq<Chunk>)
    requires |sms| == MAX_SM && i < MAX_SM && done <= Bytes(bits)
    requires done < Bytes(bits) ==> 8 * count < bits && bits <= 8 * (count + Total(sms, kind, i))
    decreases MAX_SM - i
  {
    if done == Bytes(bits) then []
    else
      RoundStops(sms, kind, bits, i, count);
      var (n, m, c) := Round(sms, kind, bits, i, count);
      var size := Min(c, Bytes(bits) - done);
      [Chunk(sms[n].start, size)]
        + if done + size == Bytes(bits) then [] else Chunks(sms, kind, bits, m, done + size, c)
  }

  /** The chunks laid out one after the other in logical memory. */
  function Placed(chunks: seq<Chunk>, log: nat): seq<Fmmu> {
    if chunks == [] then []
    else [Fmmu(log, chunks[0].size, 0, 7, chunks[0].phys)] + Placed(chunks[1..], log + chunks[0].size)
  }

  /** The FMMU of a bit-oriented slave at the cursor (log, bit). */
  function BitFmmu(phys: nat, bits: nat, log: nat, bit: nat): Fmmu
    requires bit < 8 && 1 <= bits <= 7
  {
    var last := bit + bits - 1;
    Fmmu(log, last / 8 + 1, bit, last % 8, phys)
  }

  /** Where the range of a slave starts and ends, in bits from logical bit 0. */
  function RangeStart(bits: nat, cursor: nat): nat {
    if BitOriented(bits) then cursor else 8 * Bytes(cursor)
  }

  function RangeEnd(bits: nat, cursor: nat): nat {
    RangeStart(bits, cursor) + if BitOriented(bits) then bits else 8 * Bytes(bits)
  }

  /** All FMMUs of one direction. */
  function Fmmus(sms: seq<Sm>, kind: nat, bits: nat, log: nat, bit: nat): seq<Fmmu>
    requires bits > 0 && ValidSms(sms, kind, bits) && bit < 8
  {
    if BitOriented(bits) then [BitFmmu(sms[NextOfKind(sms, kind, 0)].start, bits, log, bit)]
    else Placed(Chunks(sms, kind, bits, 0, 0, 0), if bit > 0 then log + 1 else log)
  }

  method SearchSm(sms: seq<Sm>, kind: nat, from: nat) returns (SMc: nat)
    requires |sms| == MAX_SM && from < MAX_SM
    ensures SMc == NextOfKind(sms, kind, from)
  {
    SMc := from;
    while SMc < MAX_SM - 1 && sms[SMc].kind != kind
      invariant SMc < MAX_SM && NextOfKind(sms, kind, SMc) == NextOfKind(sms, kind, from)
    {
      SMc := SMc + 1;
    }
  }

  /** The inner loop that joins sync managers, from the one already counted. */
  method JoinSms(sms: seq<Sm>, kind: nat, bits: nat, from: nat, count: nat) returns (SMc: nat, ByteCount: nat)
    requires |sms| == MAX_SM && from < MAX_SM
    ensures (SMc, ByteCount) == Absorb(sms, kind, bits, from, count, sms[from].start + sms[from].len)
  {
    hide Absorb, NextOfKind;
    SMc, ByteCount := from, count;
    var EndAddr: nat := sms[from].start + sms[from].len;
    var more := true;
    while more && 8 * ByteCount < bits && SMc < MAX_SM - 1
      invariant SMc < MAX_SM
      invariant Absorb(sms, kind, bits, from, count, sms[from].start + sms[from].len)
        == if more then Absorb(sms, kind, bits, SMc, ByteCount, EndAddr) else (SMc, ByteCount)
      decreases more, MAX_SM - SMc
    {
      AbsorbStep(sms, kind, bits, SMc, ByteCount, EndAddr);
      SMc := SearchSm(sms, kind, SMc + 1);
      if sms[SMc].start > EndAddr {
        more := false;
      } else {
        ByteCount := ByteCount + sms[SMc].len;
        EndAddr := sms[SMc].start + sms[SMc].len;
      }
    }
    AbsorbStep(sms, kind, bits, SMc, ByteCount, EndAddr);
  }

  /** The FMMU of a bit-oriented slave, with its carries. */
  method PlaceBits(phys: nat, bits: nat, log0: nat, bit0: nat) returns (f: Fmmu, log: nat, bit: nat)
    requires bit0 < 8 && 1 <= bits <= 7
    ensures f == BitFmmu(phys, bits, log0, bit0)
    ensures bit < 8 && 8 * log + bit == 8 * log0 + bit0 + bits
  {
    log, bit := log0, bit0 + bits - 1;
    if bit > 7 {
      log := log + 1;
      bit := bit - 8;
    }
    f := Fmmu(log0, log - log0 + 1, bit0, bit, phys);
    bit := bit + 1;
    if bit > 7 {
      log := log + 1;
      bit := bit - 8;
    }
  }

  /** The mapping loop for a bit-oriented slave runs once. */
  method MapBits(sms: seq<Sm>, kind: nat, bits: nat, log0: nat, bit0: nat) returns (f: Fmmu, log: nat, bit: nat)
    requires 1 <= bits <= 7 && ValidSms(sms, kind, bits) && bit0 < 8
    ensures [f] == Fmmus(sms, kind, bits, log0, bit0)
    ensures bit < 8 && 8 * log + bit == RangeEnd(bits, 8 * log0 + bit0)
  {
    var SMc := SearchSm(sms, kind, 0);
    f, log, bit := PlaceBits(sms[SMc].start, bits, log0, bit0);
  }

  lemma ChunksByRound(sms: seq<Sm>, kind: nat, bits: nat, i: nat, done: nat, count: nat)
    requires |sms| == MAX_SM && i < MAX_SM && done < Bytes(bits)
    requires 8 * count < bits && bits <= 8 * (count + Total(sms, kind, i))
    ensures var (n, m, c) := Round(sms, kind, bits, i, count);
            var size := Min(c, Bytes(bits) - done);
            && (done + size < Bytes(bits) ==> 8 * c < bits && bits <= 8 * (c + Total(sms, kind, m)))
            && Chunks(sms, kind, bits, i, done, count)
              == [Chunk(sms[n].start, size)] + Chunks(sms, kind, bits, m, done + size, c)
  {
    hide Round, NextOfKind, Absorb, Total;
    RoundStops(sms, kind, bits, i, count);
  }

  lemma NothingLeft(sms: seq<Sm>, kind: nat, bits: nat, i: nat, count: nat, log: nat)
    requires |sms| == MAX_SM && i < MAX_SM
    ensures Placed(Chunks(sms, kind, bits, i, Bytes(bits), count), log) == []
  {
  }

  lemma PlacedFirst(first: Chunk, rest: seq<Chunk>, log: nat)
    ensures Placed([first] + rest, log) == [Fmmu(log, first.size, 0, 7, first.phys)] + Placed(rest, log + first.size)
  {
    assert ([first] + rest)[1..] == rest;
  }

  /** One round of the mapping loop for a byte-oriented slave. */
  method MapRound(sms: seq<Sm>, kind: nat, bits: nat, from: nat, done: nat, count: nat, log: nat)
    returns (f: Fmmu, SMc: nat, ByteCount: nat)
    requires 7 < bits <= 0xffff && |sms| == MAX_SM && from < MAX_SM && done < Bytes(bits)
    requires 8 * count < bits && bits <= 8 * (count + Total(sms, kind, from))
    requires count + Total(sms, kind, from) <= 0xffff
    ensures from <= SMc < MAX_SM && done + f.logLength <= Bytes(bits)
    ensures f == Fmmu(log, f.logLength, 0, 7, f.physStart)
    ensures ByteCount <= 0xffff
    ensures done + f.logLength < Bytes(bits) ==>
      && from < SMc && 8 * ByteCount < bits && bits <= 8 * (ByteCount + Total(sms, kind, SMc))
      && ByteCount + Total(sms, kind, SMc) <= 0xffff
    ensures Chunks(sms, kind, bits, from, done, count)
      == [Chunk(f.physStart, f.logLength)] + Chunks(sms, kind, bits, SMc, done + f.logLength, ByteCount)
  {
    hide Chunks, Round, Total, Bytes, NextOfKind, Absorb;
    RoundStops(sms, kind, bits, from, count);
    ChunksByRound(sms, kind, bits, from, done, count);
    var n, FMMUsize;
    n, SMc, ByteCount := RunRound(sms, kind, bits, from, count);
    FMMUsize := ByteCount;
    if FMMUsize + done > Bytes(bits) {
      FMMUsize := Bytes(bits) - done;
    }
    f := Fmmu(log, FMMUsize, 0, 7, sms[n].start);
  }

  /** The mapping loop for a byte-oriented slave. */
  method MapBytes(sms: seq<Sm>, kind: nat, bits: nat, log0: nat, bit0: nat)
    returns (fmmus: seq<Fmmu>, log: nat, bit: nat, addToWKC: bool)
    requires 7 < bits <= 0xffff && ValidSms(sms, kind, bits) && bit0 < 8
    ensures fmmus == Fmmus(sms, kind, bits, log0, bit0)
    ensures bit < 8 && 8 * log + bit == RangeEnd(bits, 8 * log0 + bit0)
    ensures addToWKC
  {
    hide Chunks, Placed, Total;
    fmmus, log, bit, addToWKC := [], log0, bit0, false;
    var ByteCount: nat, FMMUdone: nat, SMc: nat := 0, 0, 0;
    while SMc < MAX_SM && FMMUdone < Bytes(bits)
      invariant SMc < MAX_SM && bit < 8 && FMMUdone <= Bytes(bits)
      invariant FMMUdone < Bytes(bits) ==>
        && 8 * ByteCount < bits && bits <= 8 * (ByteCount + Total(sms, kind, SMc))
        && ByteCount + Total(sms, kind, SMc) <= 0xffff
      invariant fmmus + Placed(Chunks(sms, kind, bits, SMc, FMMUdone, ByteCount), if bit > 0 then log + 1 else log)
        == Fmmus(sms, kind, bits, log0, bit0)
      invariant (if bit > 0 then log + 1 else log) == Bytes(8 * log0 + bit0) + FMMUdone
      invariant FMMUdone == Bytes(bits) ==> bit == 0
      invariant FMMUdone > 0 ==> addToWKC
      decreases MAX_SM - SMc, Bytes(bits) - FMMUdone
    {
      if bit > 0 {
        log := log + 1;
        bit := 0;
      }
      var f: Fmmu;
      f, SMc, ByteCount := MapRound(sms, kind, bits, SMc, FMMUdone, ByteCount, log);
      fmmus := fmmus + [f];
      FMMUdone := FMMUdone + f.logLength;
      if f.logLength > 0 {
        addToWKC := true;
      }
      PlacedFirst(Chunk(f.physStart, f.logLength), Chunks(sms, kind, bits, SMc, FMMUdone, ByteCount), log);
      log := log + f.logLength;
    }
    NothingLeft(sms, kind, bits, SMc, ByteCount, log);
  }

  /** The mapping of one direction.  `kind` is 3 for the output and 4 for the input
      form; `addToWKC` tells that some FMMU is not empty. */
  method CreateMappings(sms: seq<Sm>, kind: nat, bits: nat, log0: nat, bit0: nat)
    returns (fmmus: seq<Fmmu>, log: nat, bit: nat, addToWKC: bool)
    requires 0 < bits <= 0xffff && ValidSms(sms, kind, bits) && bit0 < 8
    ensures fmmus == Fmmus(sms, kind, bits, log0, bit0)
    ensures bit < 8 && 8 * log + bit == RangeEnd(bits, 8 * log0 + bit0)
    ensures addToWKC
  {
    if bits <= 7 {
      var f: Fmmu;
      f, log, bit := MapBits(sms, kind, bits, log0, bit0);
      fmmus, addToWKC := [f], f.logLength > 0;
    } else {
      fmmus, log, bit, addToWKC := MapBytes(sms, kind, bits, log0, bit0);
    }
  }

  method RunRound(sms: seq<Sm>, kind: nat, bits: nat, from: nat, count: nat) returns (n: nat, SMc: nat, ByteCount: nat)
    requires |sms| == MAX_SM && from < MAX_SM
    ensures (n, SMc, ByteCount) == Round(sms, kind, bits, from, count)
  {
    n := SearchSm(sms, kind, from);
    SMc, ByteCount := JoinSms(sms, kind, bits, n, count + sms[n].len);
  }
}
