/** Laying out the process image of a group: all outputs, then all inputs. */
module ImageLayout {
  import opened EtherCat
  import opened Packing
  import opened Mapping

  /** The part of a slave-list entry that the mapping reads and writes.  `fmmus` are the
      FMMUs programmed so far; `outputs` and `inputs` are offsets into the process
      image, absent before mapping. */
  datatype IoSlave = IoSlave(
    group: nat, obits: nat, ibits: nat, sms: seq<Sm>, fmmus: seq<Fmmu>,
    outputs: Option, ostartbit: nat, inputs: Option, istartbit: nat, blockLRW: bool, ebuscurrent: int)

  datatype Option = None | Some(value: int)

  /** The group record after mapping; `segments` are the used entries of IOsegment. */
  datatype Group = Group(
    logstart: nat, obytes: nat, ibytes: nat, segments: seq<nat>, isegment: nat, ioffset: nat,
    outputsWKC: nat, inputsWKC: nat)

  /** Byte and bit of the next free logical bit. */
  datatype Cursor = Cursor(log: nat, bit: nat)

  function Bit(c: Cursor): nat {
    8 * c.log + c.bit
  }

  /** The cursor after a slave that wants `bits` bits (at least one). */
  function Next(c: Cursor, bits: nat, aligned: bool): (n: Cursor)
    ensures n.bit < 8 && c.log <= n.log && (aligned ==> n.bit == 0)
  {
    var e := RangeEnd(bits, Bit(c));
    if aligned && e % 8 > 0 then Cursor(e / 8 + 1, 0) else Cursor(e / 8, e % 8)
  }

  function Flushed(c: Cursor): Cursor {
    if c.bit > 0 then Cursor(c.log + 1, 0) else c
  }

  function FlushBlock(c: Cursor): seq<nat> {
    if c.bit > 0 then [1] else []
  }

  /** The cursor after a list of slaves; those that want no bits are skipped. */
  function End(c: Cursor, demands: seq<nat>, aligned: bool): Cursor
    decreases |demands|
  {
    if demands == [] then c
    else End(if demands[0] == 0 then c else Next(c, demands[0], aligned), demands[1..], aligned)
  }

  /** Whole bytes by which each slave moves the cursor. */
  function Blocks(c: Cursor, demands: seq<nat>, aligned: bool): seq<nat>
    decreases |demands|
  {
    if demands == [] then []
    else if demands[0] == 0 then Blocks(c, demands[1..], aligned)
    else
      var n := Next(c, demands[0], aligned);
      [n.log - c.log] + Blocks(n, demands[1..], aligned)
  }

  /** The logical bits given to a slave. */
  datatype Span = Span(start: nat, end: nat)

  function SpanAt(c: Cursor, bits: nat): Span {
    Span(RangeStart(bits, Bit(c)), RangeEnd(bits, Bit(c)))
  }

  function Spans(c: Cursor, demands: seq<nat>, aligned: bool): seq<Span>
    decreases |demands|
  {
    if demands == [] then []
    else if demands[0] == 0 then Spans(c, demands[1..], aligned)
    else [SpanAt(c, demands[0])] + Spans(Next(c, demands[0], aligned), demands[1..], aligned)
  }

  function Active(demands: seq<nat>): nat {
    if demands == [] then 0 else (if demands[0] > 0 then 1 else 0) + Active(demands[1..])
  }

  function OutBlocks(c: Cursor, outs: seq<nat>, aligned: bool): seq<nat> {
    Blocks(c, outs, aligned) + FlushBlock(End(c, outs, aligned))
  }

  /** The group record for the wanted output and input bits of its slaves. */
  function GroupOf(logstart: nat, outs: seq<nat>, ins: seq<nat>, aligned: bool): (g: Group)
  {
    var c0 := Cursor(logstart, 0);
    var c1 := Flushed(End(c0, outs, aligned));
    var c2 := Flushed(End(c1, ins, aligned));
    EndLater(c0, outs, aligned);
    EndLater(c1, ins, aligned);
    var p1 := PackAll(EMPTY, OutBlocks(c0, outs, aligned));
    var p2 := PackAll(p1, OutBlocks(c1, ins, aligned));
    Group(logstart, c1.log - logstart, c2.log - c1.log, Segments(p2), |p1.closed|, p1.size, Active(outs), Active(ins))
  }

  lemma {:induction false} EndLater(c: Cursor, demands: seq<nat>, aligned: bool)
    ensures c.log <= End(c, demands, aligned).log <= Flushed(End(c, demands, aligned)).log
    decreases |demands|
  {
    if demands != [] {
      EndLater(if demands[0] == 0 then c else Next(c, demands[0], aligned), demands[1..], aligned);
    }
  }

  // ----- the mapping of a group, in place -----

  predicate Member(s: IoSlave, group: nat) {
    group == 0 || s.group == group
  }

  /** Both directions run the same loop: over outputs first, then over inputs. */
  function Bits(s: IoSlave, out: bool): nat {
    if out then s.obits else s.ibits
  }

  function Kind(out: bool): nat {
    if out then 3 else 4
  }

  /** The wanted bits of the group members among the slaves 1 .. n - 1. */
  function Demands(list: seq<IoSlave>, out: bool, group: nat, n: nat): seq<nat>
    requires n <= |list|
  {
    if n <= 1 then []
    else Demands(list, out, group, n - 1) + if Member(list[n - 1], group) then [Bits(list[n - 1], out)] else []
  }

  /** What the source demands of a slave whose direction is about to be mapped. */
  ghost predicate Mappable(s: IoSlave, out: bool) {
    && Bits(s, out) <= 0xffff && (if out then s.outputs else s.inputs) == None
    && (Bits(s, out) > 0 ==> ValidSms(s.sms, Kind(out), Bits(s, out)))
  }

  ghost predicate AllMappable(list: seq<IoSlave>, out: bool) {
    forall i :: 1 <= i < |list| ==> Mappable(list[i], out)
  }

  function Offset(logStart: nat, group: nat, logstartaddr: nat): int {
    if group != 0 then logStart - logstartaddr else logStart
  }

  /** A slave after the mapping of one direction with the cursor at c. */
  function Mapped(s: IoSlave, out: bool, group: nat, logstart: nat, c: Cursor): (r: IoSlave)
    requires Mappable(s, out) && c.bit < 8
    ensures r.sms == s.sms && r.obits == s.obits && r.ibits == s.ibits && r.group == s.group
    ensures r.blockLRW == s.blockLRW && r.ebuscurrent == s.ebuscurrent
    ensures if out then r.inputs == s.inputs else r.outputs == s.outputs
  {
    if Member(s, group) && Bits(s, out) > 0 then
      var f := Fmmus(s.sms, Kind(out), Bits(s, out), c.log, c.bit);
      FmmusNonEmpty(s.sms, Kind(out), Bits(s, out), c.log, c.bit);
      var at := Some(Offset(f[0].logStart, group, logstart));
      if out then s.(fmmus := s.fmmus + f, outputs := at, ostartbit := f[0].startBit)
      else s.(fmmus := s.fmmus + f, inputs := at, istartbit := f[0].startBit)
    else s
  }

  lemma FmmusNonEmpty(sms: seq<Sm>, kind: nat, bits: nat, log: nat, bit: nat)
    requires bits > 0 && ValidSms(sms, kind, bits) && bit < 8
    ensures Fmmus(sms, kind, bits, log, bit) != []
  {
    hide Round, NextOfKind, Total;
    if !BitOriented(bits) {
      ChunksByRound(sms, kind, bits, 0, 0, 0);
    }
  }

  /** Cursor, segment table and expected counter of one direction. */
  datatype Progress = Progress(at: Cursor, pack: Packer, wkc: nat)

  function Advanced(from: Progress, demands: seq<nat>, aligned: bool): Progress {
    Progress(End(from.at, demands, aligned), PackAll(from.pack, Blocks(from.at, demands, aligned)),
             from.wkc + Active(demands))
  }

  function MapOne(from: Progress, bits: nat, aligned: bool): Progress
    requires bits > 0
  {
    var n := Next(from.at, bits, aligned);
    Progress(n, Pack(from.pack, n.log - from.at.log), from.wkc + 1)
  }

  lemma {:induction false} EndAppend(c: Cursor, demands: seq<nat>, bits: nat, aligned: bool)
    requires c.bit < 8
    ensures var e := End(c, demands, aligned);
            && e.bit < 8
            && End(c, demands + [bits], aligned) == (if bits == 0 then e else Next(e, bits, aligned))
            && Blocks(c, demands + [bits], aligned)
              == Blocks(c, demands, aligned) + (if bits == 0 then [] else [Next(e, bits, aligned).log - e.log])
            && Active(demands + [bits]) == Active(demands) + if bits == 0 then 0 else 1
    decreases |demands|
  {
    if demands == [] {
      assert [] + [bits] == [bits];
      assert [bits][1..] == [];
      assert Active([bits]) == (if bits > 0 then 1 else 0) + Active([bits][1..]);
    } else {
      assert (demands + [bits])[1..] == demands[1..] + [bits];
      EndAppend(if demands[0] == 0 then c else Next(c, demands[0], aligned), demands[1..], bits, aligned);
    }
  }

  lemma MappingAppend(from: Progress, demands: seq<nat>, bits: nat, aligned: bool)
    requires from.at.bit < 8
    ensures var p := Advanced(from, demands, aligned);
            && p.at.bit < 8
            && Advanced(from, demands + [bits], aligned) == if bits == 0 then p else MapOne(p, bits, aligned)
  {
    EndAppend(from.at, demands, bits, aligned);
    var e := End(from.at, demands, aligned);
    var more := if bits == 0 then [] else [Next(e, bits, aligned).log - e.log];
    PackAllConcat(from.pack, Blocks(from.at, demands, aligned), more);
    assert more != [] ==> more[1..] == [];
  }

  /** The block that records a slave's bytes in the segment table. */
  method PackBlock(IOsegment: array<nat>, currentsegment: nat, segmentsize: nat, diff: nat)
    returns (current: nat, size: nat)
    requires IOsegment.Length == MAX_SEGMENTS && currentsegment < MAX_SEGMENTS
    modifies IOsegment
    ensures current < MAX_SEGMENTS
    ensures Packer(IOsegment[..current], size) == Pack(Packer(old(IOsegment[..currentsegment]), segmentsize), diff)
  {
    current, size := currentsegment, segmentsize;
    if segmentsize + diff > SEGMENT_LIMIT {
      IOsegment[current] := segmentsize;
      if current < MAX_SEGMENTS - 1 {
        current := current + 1;
        size := diff;
      }
    } else {
      size := segmentsize + diff;
    }
  }

  lemma NextIs(c: Cursor, bits: nat, aligned: bool, log: nat, bit: nat)
    requires bit < 8 && 8 * log + bit == RangeEnd(bits, Bit(c))
    ensures Next(c, bits, aligned) == if aligned && bit > 0 then Cursor(log + 1, 0) else Cursor(log, bit)
    ensures log >= c.log
  {
  }

  /** The loop body for a member that wants bits. */
  method MapSlave(slaves: array<IoSlave>, IOsegment: array<nat>, slave: nat, out: bool, group: nat, logstart: nat,
                  aligned: bool, log0: nat, bit0: nat, current0: nat, size0: nat, wkc0: nat)
    returns (log: nat, bit: nat, current: nat, size: nat, wkc: nat)
    requires IOsegment.Length == MAX_SEGMENTS && current0 < MAX_SEGMENTS && bit0 < 8
    requires slave < slaves.Length && Mappable(slaves[slave], out)
    requires Member(slaves[slave], group) && Bits(slaves[slave], out) > 0
    modifies slaves, IOsegment
    ensures slaves[..] == old(slaves[..])[slave := Mapped(old(slaves[slave]), out, group, logstart, Cursor(log0, bit0))]
    ensures current < MAX_SEGMENTS
    ensures Progress(Cursor(log, bit), Packer(IOsegment[..current], size), wkc)
      == MapOne(old(Progress(Cursor(log0, bit0), Packer(IOsegment[..current0], size0), wkc0)),
                old(Bits(slaves[slave], out)), aligned)
  {
    hide Fmmus, ValidSms, PackAll, Next, RangeEnd;
    var s, fmmus, add := slaves[slave], [], false;
    fmmus, log, bit, add := CreateMappings(s.sms, Kind(out), Bits(s, out), log0, bit0);
    FmmusNonEmpty(s.sms, Kind(out), Bits(s, out), log0, bit0);
    NextIs(Cursor(log0, bit0), Bits(s, out), aligned, log, bit);
    var at := Some(Offset(fmmus[0].logStart, group, logstart));
    if out {
      slaves[slave] := s.(fmmus := s.fmmus + fmmus, outputs := at, ostartbit := fmmus[0].startBit);
    } else {
      slaves[slave] := s.(fmmus := s.fmmus + fmmus, inputs := at, istartbit := fmmus[0].startBit);
    }
    wkc := wkc0;
    if add {
      wkc := wkc + 1;
    }
    if aligned {
      if bit > 0 {
        log := log + 1;
        bit := 0;
      }
    }
    current, size := PackBlock(IOsegment, current0, size0, log - log0);
  }

  /** A slave list after the mapping of one direction, which found the cursor and
      the segment table as in `from`, up to slave n - 1. */
  function MappedList(list: seq<IoSlave>, out: bool, group: nat, logstart: nat, aligned: bool, from: Progress, n: nat)
    : (r: seq<IoSlave>)
    requires n <= |list| && AllMappable(list, out) && from.at.bit < 8
    ensures |r| == |list|
  {
    if n <= 1 then list
    else
      DemandsAt(list, out, group, aligned, from, n - 1);
      var before := Advanced(from, Demands(list, out, group, n - 1), aligned);
      MappedList(list, out, group, logstart, aligned, from, n - 1)
        [n - 1 := Mapped(list[n - 1], out, group, logstart, before.at)]
  }

  lemma {:induction false} DemandsAt(list: seq<IoSlave>, out: bool, group: nat, aligned: bool, from: Progress, n: nat)
    requires n <= |list| && from.at.bit < 8
    ensures Advanced(from, Demands(list, out, group, n), aligned).at.bit < 8
  {
    MappingAppend(from, Demands(list, out, group, n), 0, aligned);
  }

  lemma {:induction false} MappedListKeepsRest(list: seq<IoSlave>, out: bool, group: nat, logstart: nat, aligned: bool,
                                               from: Progress, n: nat)
    requires n <= |list| && AllMappable(list, out) && from.at.bit < 8
    ensures var r := MappedList(list, out, group, logstart, aligned, from, n);
            forall k :: 0 <= k < |list| && (k == 0 || k >= n) ==> r[k] == list[k]
    decreases n
  {
    if n > 1 {
      MappedListKeepsRest(list, out, group, logstart, aligned, from, n - 1);
    }
  }

  lemma AdvancedNext(list: seq<IoSlave>, out: bool, group: nat, aligned: bool, from: Progress, n: nat)
    requires 1 <= n < |list| && from.at.bit < 8
    ensures var before := Advanced(from, Demands(list, out, group, n), aligned);
            Advanced(from, Demands(list, out, group, n + 1), aligned)
              == if Member(list[n], group) && Bits(list[n], out) > 0 then MapOne(before, Bits(list[n], out), aligned)
                 else before
  {
    assert Demands(list, out, group, n) + [] == Demands(list, out, group, n);
    MappingAppend(from, Demands(list, out, group, n), Bits(list[n], out), aligned);
  }

  /** The loop body. */
  method MapNext(slaves: array<IoSlave>, IOsegment: array<nat>, slave: nat, out: bool, group: nat, logstart: nat,
                 aligned: bool, log0: nat, bit0: nat, current0: nat, size0: nat, wkc0: nat,
                 ghost list: seq<IoSlave>, ghost from: Progress)
    returns (log: nat, bit: nat, current: nat, size: nat, wkc: nat)
    requires IOsegment.Length == MAX_SEGMENTS && current0 < MAX_SEGMENTS && from.at.bit < 8
    requires 1 <= slave < slaves.Length == |list| && AllMappable(list, out)
    requires slaves[..] == MappedList(list, out, group, logstart, aligned, from, slave)
    requires Progress(Cursor(log0, bit0), Packer(IOsegment[..current0], size0), wkc0)
      == Advanced(from, Demands(list, out, group, slave), aligned)
    modifies slaves, IOsegment
    ensures slaves[..] == MappedList(list, out, group, logstart, aligned, from, slave + 1)
    ensures current < MAX_SEGMENTS
    ensures Progress(Cursor(log, bit), Packer(IOsegment[..current], size), wkc)
      == Advanced(from, Demands(list, out, group, slave + 1), aligned)
  {
    hide MapOne, Advanced, Demands, ValidSms;
    log, bit, current, size, wkc := log0, bit0, current0, size0, wkc0;
    MappedListKeepsRest(list, out, group, logstart, aligned, from, slave);
    assert slaves[slave] == list[slave];
    DemandsAt(list, out, group, aligned, from, slave);
    AdvancedNext(list, out, group, aligned, from, slave);
    if Member(slaves[slave], group) {
      if Bits(slaves[slave], out) > 0 {
        log, bit, current, size, wkc :=
          MapSlave(slaves, IOsegment, slave, out, group, logstart, aligned, log, bit, current, size, wkc);
      }
    }
  }

  /** How many members among the slaves 1 .. n - 1 block LRW, and the E-bus current they
      need together. */
  function Tally(list: seq<IoSlave>, group: nat, n: nat): (t: (nat, int))
    requires n <= |list|
  {
    if n <= 1 then (0, 0)
    else
      var (blocked, current) := Tally(list, group, n - 1);
      Counted(list[n - 1], group, blocked, current)
  }

  lemma TallyNext(list: seq<IoSlave>, group: nat, n: nat)
    requires 1 <= n < |list|
    ensures var (blocked, current) := Tally(list, group, n);
            Tally(list, group, n + 1) == Counted(list[n], group, blocked, current)
  {
  }

  /** The members of the group that block LRW. */
  function Blocking(list: seq<IoSlave>, group: nat, n: nat): set<nat>
    requires n <= |list|
  {
    set k: nat | 1 <= k < n && (group == 0 || list[k].group == group) && list[k].blockLRW
  }

  /** The counter is the number of these slaves, so that one of them is enough; a slave
      outside the group changes neither count. */
  lemma {:induction false} TallyCounts(list: seq<IoSlave>, group: nat, n: nat)
    requires n <= |list|
    ensures Tally(list, group, n).0 == |Blocking(list, group, n)|
    ensures Tally(list, group, n).0 > 0 <==> exists k: nat :: k in Blocking(list, group, n)
    ensures Tally(list, group, n).1 == Current(list, n, k => group == 0 || k == group)
    decreases n
  {
    if n > 1 {
      var k := n - 1;
      TallyCounts(list, group, k);
      assert Blocking(list, group, n)
        == Blocking(list, group, k)
           + if (group == 0 || list[k].group == group) && list[k].blockLRW then {k} else {};
    } else {
      assert Blocking(list, group, n) == {};
    }
  }

  /** The E-bus current of the slaves 1 .. n - 1 of the groups in question. */
  function Current(list: seq<IoSlave>, n: nat, counted: nat -> bool): int
    requires n <= |list|
  {
    if n <= 1 then 0
    else (if counted(list[n - 1].group) then list[n - 1].ebuscurrent else 0) + Current(list, n - 1, counted)
  }

  /** The counts with one more slave. */
  function Counted(s: IoSlave, group: nat, blocked: nat, current: int): (t: (nat, int)) {
    if Member(s, group) then (blocked + (if s.blockLRW then 1 else 0), current + s.ebuscurrent)
    else (blocked, current)
  }

  method CountNeeds(s: IoSlave, group: nat, blocked0: nat, ebus0: int) returns (blocked: nat, ebus: int)
    ensures (blocked, ebus) == Counted(s, group, blocked0, ebus0)
  {
    blocked, ebus := blocked0, ebus0;
    if Member(s, group) {
      if s.blockLRW {
        blocked := blocked + 1;
      }
      ebus := ebus + s.ebuscurrent;
    }
  }

  /** The mapping loop of one direction.  The input form also adds up what is needed of
      the group. */
  method MapLoop(slaves: array<IoSlave>, IOsegment: array<nat>, out: bool, group: nat, logstart: nat, aligned: bool,
                 log0: nat, current0: nat, size0: nat)
    returns (log: nat, bit: nat, current: nat, size: nat, wkc: nat, blocked: nat, ebus: int)
    requires IOsegment.Length == MAX_SEGMENTS && current0 < MAX_SEGMENTS && slaves.Length >= 1
    requires AllMappable(slaves[..], out)
    modifies slaves, IOsegment
    ensures current < MAX_SEGMENTS
    ensures (blocked, ebus) == if out then (0, 0) else Tally(old(slaves[..]), group, slaves.Length)
    ensures var list := old(slaves[..]);
            var from := Progress(Cursor(log0, 0), Packer(old(IOsegment[..current0]), size0), 0);
            && slaves[..] == MappedList(list, out, group, logstart, aligned, from, |list|)
            && Progress(Cursor(log, bit), Packer(IOsegment[..current], size), wkc)
              == Advanced(from, Demands(list, out, group, |list|), aligned)
  {
    ghost var list := slaves[..];
    ghost var from := Progress(Cursor(log0, 0), Packer(IOsegment[..current0], size0), 0);
    log, bit, current, size, wkc := log0, 0, current0, size0, 0;
    blocked, ebus := 0, 0;
    var slave := 1;
    while slave < slaves.Length
      invariant 1 <= slave <= slaves.Length && current < MAX_SEGMENTS
      invariant slaves[..] == MappedList(list, out, group, logstart, aligned, from, slave)
      invariant Progress(Cursor(log, bit), Packer(IOsegment[..current], size), wkc)
        == Advanced(from, Demands(list, out, group, slave), aligned)
      invariant (blocked, ebus) == if out then (0, 0) else Tally(list, group, slave)
    {
      hide MappedList, Advanced, Demands, Tally, Counted;
      MappedListKeepsRest(list, out, group, logstart, aligned, from, slave);
      if !out {
        blocked, ebus := CountNeeds(slaves[slave], group, blocked, ebus);
        TallyNext(list, group, slave);
      }
      log, bit, current, size, wkc :=
        MapNext(slaves, IOsegment, slave, out, group, logstart, aligned, log, bit, current, size, wkc, list, from);
      slave := slave + 1;
    }
  }

  /** One direction: the loop, then the trailing bits. */
  method MapDirection(slaves: array<IoSlave>, IOsegment: array<nat>, out: bool, group: nat, logstart: nat,
                      aligned: bool, log0: nat, current0: nat, size0: nat)
    returns (log: nat, current: nat, size: nat, wkc: nat, blocked: nat, ebus: int)
    requires IOsegment.Length == MAX_SEGMENTS && current0 < MAX_SEGMENTS && slaves.Length >= 1
    requires AllMappable(slaves[..], out)
    modifies slaves, IOsegment
    ensures current < MAX_SEGMENTS
    ensures (blocked, ebus) == if out then (0, 0) else Tally(old(slaves[..]), group, slaves.Length)
    ensures var list := old(slaves[..]);
            var from := Progress(Cursor(log0, 0), Packer(old(IOsegment[..current0]), size0), 0);
            var demands := Demands(list, out, group, |list|);
            && slaves[..] == MappedList(list, out, group, logstart, aligned, from, |list|)
            && Cursor(log, 0) == Flushed(End(from.at, demands, aligned)) && wkc == Active(demands)
            && Packer(IOsegment[..current], size) == PackAll(from.pack, OutBlocks(from.at, demands, aligned))
  {
    ghost var list := slaves[..];
    ghost var from := Progress(Cursor(log0, 0), Packer(IOsegment[..current0], size0), 0);
    var bit;
    log, bit, current, size, wkc, blocked, ebus :=
      MapLoop(slaves, IOsegment, out, group, logstart, aligned, log0, current0, size0);
    hide MappedList, Demands, AllMappable, Flushed;
    ghost var demands := Demands(list, out, group, |list|);
    PackAllConcat(from.pack, Blocks(from.at, demands, aligned), FlushBlock(Cursor(log, bit)));
    log, current, size := Flush(IOsegment, log, bit, current, size);
  }

  /** Trailing bits of a direction fill up their byte. */
  method Flush(IOsegment: array<nat>, log0: nat, bit: nat, current0: nat, size0: nat)
    returns (log: nat, current: nat, size: nat)
    requires IOsegment.Length == MAX_SEGMENTS && current0 < MAX_SEGMENTS
    modifies IOsegment
    ensures Cursor(log, 0) == Flushed(Cursor(log0, bit)) && current < MAX_SEGMENTS
    ensures Packer(IOsegment[..current], size)
      == PackAll(Packer(old(IOsegment[..current0]), size0), FlushBlock(Cursor(log0, bit)))
  {
    log, current, size := log0, current0, size0;
    if bit > 0 {
      log := log + 1;
      current, size := PackBlock(IOsegment, current, size, 1);
    }
  }

  /** Input demands are not changed by the mapping of outputs. */
  lemma {:induction false} OutputsKeepInputs(list: seq<IoSlave>, group: nat, logstart: nat, aligned: bool,
                                             from: Progress, n: nat)
    requires n <= |list| && AllMappable(list, true) && from.at.bit < 8
    ensures var r := MappedList(list, true, group, logstart, aligned, from, n);
            forall k :: 0 <= k < |list| ==>
              && r[k].sms == list[k].sms && r[k].ibits == list[k].ibits && r[k].group == list[k].group
              && r[k].inputs == list[k].inputs && r[k].blockLRW == list[k].blockLRW
              && r[k].ebuscurrent == list[k].ebuscurrent
    decreases n
  {
    if n > 1 {
      OutputsKeepInputs(list, group, logstart, aligned, from, n - 1);
    }
  }

  lemma {:induction false} SameInDemands(a: seq<IoSlave>, b: seq<IoSlave>, group: nat, n: nat)
    requires n <= |a| == |b|
    requires forall k :: 0 <= k < |a| ==> a[k].ibits == b[k].ibits && a[k].group == b[k].group
    requires forall k :: 0 <= k < |a| ==> a[k].blockLRW == b[k].blockLRW && a[k].ebuscurrent == b[k].ebuscurrent
    ensures Demands(a, false, group, n) == Demands(b, false, group, n) && Tally(a, group, n) == Tally(b, group, n)
    decreases n
  {
    if n > 1 {
      SameInDemands(a, b, group, n - 1);
    }
  }

  /** The slave list after the mapping of a group. */
  function GroupList(list: seq<IoSlave>, group: nat, logstart: nat, aligned: bool): seq<IoSlave>
    requires 1 <= |list| && AllMappable(list, true) && AllMappable(list, false)
  {
    var from := Progress(Cursor(logstart, 0), EMPTY, 0);
    var outs := Demands(list, true, group, |list|);
    var mid := MappedList(list, true, group, logstart, aligned, from, |list|);
    OutputsKeepInputs(list, group, logstart, aligned, from, |list|);
    var next := Progress(Flushed(End(from.at, outs, aligned)), PackAll(EMPTY, OutBlocks(from.at, outs, aligned)), 0);
    DemandsAt(list, true, group, aligned, from, |list|);
    MappedList(mid, false, group, logstart, aligned, next, |list|)
  }

  /** The mapping of a group.  `blocked` and `ebus` are added to the group's counts. */
  method MapGroup(slaves: array<IoSlave>, group: nat, logstart: nat, aligned: bool)
    returns (g: Group, blocked: nat, ebus: int)
    requires slaves.Length >= 1 && AllMappable(slaves[..], true) && AllMappable(slaves[..], false)
    modifies slaves
    ensures slaves[..] == GroupList(old(slaves[..]), group, logstart, aligned)
    ensures var list := old(slaves[..]);
            g == GroupOf(logstart, Demands(list, true, group, |list|), Demands(list, false, group, |list|), aligned)
    ensures (blocked, ebus) == Tally(old(slaves[..]), group, slaves.Length)
  {
    hide Demands, MappedList, Flushed, End, OutBlocks, PackAll, Tally;
    ghost var list := slaves[..];
    var IOsegment := new nat[MAX_SEGMENTS];
    assert IOsegment[..0] == [];
    ghost var from := Progress(Cursor(logstart, 0), EMPTY, 0);
    OutputsKeepInputs(list, group, logstart, aligned, from, |list|);
    var log, current, size, outputsWKC;
    log, current, size, outputsWKC, blocked, ebus :=
      MapDirection(slaves, IOsegment, true, group, logstart, aligned, logstart, 0, 0);
    SameInDemands(list, slaves[..], group, |list|);
    var obytes, isegment, ioffset := log - logstart, current, size;
    ghost var outs := Demands(list, true, group, |list|);
    EndLater(from.at, outs, aligned);
    var inputsWKC;
    var log1;
    log1, current, size, inputsWKC, blocked, ebus :=
      MapDirection(slaves, IOsegment, false, group, logstart, aligned, log, current, size);
    EndLater(Cursor(log, 0), Demands(list, false, group, |list|), aligned);
    IOsegment[current] := size;
    g := Group(logstart, obytes, log1 - logstart - obytes, IOsegment[..current + 1], isegment, ioffset, outputsWKC,
               inputsWKC);
  }
}
