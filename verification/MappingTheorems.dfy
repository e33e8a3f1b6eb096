/** What the FMMUs of one direction map: the logical range they tile and the
    physical bytes behind it. */
module MappingTheorems {
  import opened Mapping
  import opened Options

  // ----- the logical range -----

  /** The FMMUs cover the logical bytes from .. to - 1, in order, without gaps. */
  ghost predicate Tile(fmmus: seq<Fmmu>, from: nat, to: nat) {
    if fmmus == [] then from == to
    else
      var f := fmmus[0];
      f.logStart == from && f.startBit == 0 && f.endBit == 7 && Tile(fmmus[1..], from + f.logLength, to)
  }

  lemma {:induction false} ChunksTile(sms: seq<Sm>, kind: nat, bits: nat, i: nat, done: nat, count: nat, log: nat)
    requires |sms| == MAX_SM && i < MAX_SM && done <= Bytes(bits)
    requires done < Bytes(bits) ==> 8 * count < bits && bits <= 8 * (count + Total(sms, kind, i))
    ensures Tile(Placed(Chunks(sms, kind, bits, i, done, count), log), log, log + Bytes(bits) - done)
    decreases MAX_SM - i
  {
    hide Total, NextOfKind, Absorb, Chunks, Placed, Round;
    if done < Bytes(bits) {
      RoundStops(sms, kind, bits, i, count);
      ChunksByRound(sms, kind, bits, i, done, count);
      var (n, m, c) := Round(sms, kind, bits, i, count);
      var size := Min(c, Bytes(bits) - done);
      PlacedFirst(Chunk(sms[n].start, size), Chunks(sms, kind, bits, m, done + size, c), log);
      if done + size < Bytes(bits) {
        ChunksTile(sms, kind, bits, m, done + size, c, log + size);
      } else {
        NothingLeft(sms, kind, bits, m, c, log + size);
      }
    } else {
      NothingLeft(sms, kind, bits, i, count, log);
    }
  }

  /** The FMMUs of a byte-oriented slave tile exactly its range, which starts on a
      byte boundary at or after the cursor; the one FMMU of a bit-oriented slave
      names its first and last bit. */
  lemma FmmusCoverRange(sms: seq<Sm>, kind: nat, bits: nat, log: nat, bit: nat)
    requires bits > 0 && ValidSms(sms, kind, bits) && bit < 8
    ensures var fmmus := Fmmus(sms, kind, bits, log, bit);
            var start, end := RangeStart(bits, 8 * log + bit), RangeEnd(bits, 8 * log + bit);
            if BitOriented(bits) then
              && |fmmus| == 1 && 8 * fmmus[0].logStart + fmmus[0].startBit == start
              && 8 * (fmmus[0].logStart + fmmus[0].logLength - 1) + fmmus[0].endBit == end - 1
            else
              && start % 8 == end % 8 == 0 && Tile(fmmus, start / 8, end / 8)
  {
    hide Placed, Chunks, Tile, Total, NextOfKind;
    if !BitOriented(bits) {
      assert Bytes(8 * log + bit) == if bit > 0 then log + 1 else log;
      ChunksTile(sms, kind, bits, 0, 0, 0, Bytes(8 * log + bit));
    }
  }

  // ----- a few bits -----

  /** The first sync manager of the type. */
  ghost predicate FirstOfKind(sms: seq<Sm>, kind: nat, n: nat) {
    n < |sms| && sms[n].kind == kind && forall k :: 0 <= k < n ==> sms[k].kind != kind
  }

  lemma {:induction false} SearchIsFirst(sms: seq<Sm>, kind: nat, i: nat, n: nat)
    requires |sms| == MAX_SM && i <= n && FirstOfKind(sms, kind, n)
    ensures NextOfKind(sms, kind, i) == n
    decreases MAX_SM - i
  {
    if i < n {
      SearchIsFirst(sms, kind, i + 1, n);
    }
  }

  lemma {:induction false} SomeOfKind(sms: seq<Sm>, kind: nat, i: nat)
    requires i <= |sms| && Total(sms, kind, i) > 0 && forall k :: 0 <= k < i ==> sms[k].kind != kind
    ensures exists n :: FirstOfKind(sms, kind, n)
    decreases |sms| - i
  {
    if sms[i].kind == kind {
      assert FirstOfKind(sms, kind, i);
    } else {
      SomeOfKind(sms, kind, i + 1);
    }
  }

  /** A slave with fewer than eight bits has a single FMMU.  It starts at the first sync
      manager of the type, and at the cursor in logical memory. */
  lemma BitsMapped(sms: seq<Sm>, kind: nat, bits: nat, log: nat, bit: nat)
    requires 1 <= bits <= 7 && ValidSms(sms, kind, bits) && bit < 8
    ensures exists n: nat :: FirstOfKind(sms, kind, n)
    ensures forall n: nat :: FirstOfKind(sms, kind, n) ==>
              BitsFrom(Fmmus(sms, kind, bits, log, bit), sms[n].start, bits, log, bit)
  {
    SomeOfKind(sms, kind, 0);
    forall n: nat | FirstOfKind(sms, kind, n)
      ensures BitsFrom(Fmmus(sms, kind, bits, log, bit), sms[n].start, bits, log, bit)
    {
      SearchIsFirst(sms, kind, 0, n);
      BitsPlaced(sms[n].start, bits, log, bit);
    }
  }

  /** One FMMU from that physical address, for these bits. */
  ghost predicate BitsFrom(fmmus: seq<Fmmu>, phys: nat, bits: nat, log: nat, bit: nat) {
    |fmmus| == 1 &&
    var f := fmmus[0];
    && f.physStart == phys && f.logStart == log && f.startBit == bit && f.endBit < 8
    && 8 * (f.logLength - 1) + f.endBit == bit + bits - 1
  }

  lemma BitsPlaced(phys: nat, bits: nat, log: nat, bit: nat)
    requires 1 <= bits <= 7 && bit < 8
    ensures BitsFrom([BitFmmu(phys, bits, log, bit)], phys, bits, log, bit)
  {
  }

  // ----- when sync managers are joined -----

  /** Sync managers i and j are neighbours among those of the type. */
  ghost predicate Neighbours(sms: seq<Sm>, kind: nat, i: nat, j: nat) {
    && i < j < |sms| && sms[i].kind == kind && sms[j].kind == kind
    && forall k :: i < k < j ==> sms[k].kind != kind
  }

  /** A sync manager is joined to its neighbour if it starts no later than that ends. */
  ghost predicate Joins(sms: seq<Sm>, kind: nat, i: nat, j: nat) {
    Neighbours(sms, kind, i, j) ==> sms[j].start <= sms[i].start + sms[i].len
  }

  lemma NextIsNeighbour(sms: seq<Sm>, kind: nat, i: nat)
    requires |sms| == MAX_SM && i + 1 < MAX_SM && sms[i].kind == kind && sms[NextOfKind(sms, kind, i + 1)].kind == kind
    ensures Neighbours(sms, kind, i, NextOfKind(sms, kind, i + 1))
  {
    SkipsOthers(sms, kind, i + 1);
  }

  lemma {:induction false} SkipsOthers(sms: seq<Sm>, kind: nat, i: nat)
    requires |sms| == MAX_SM && i < MAX_SM
    ensures forall k :: i <= k < NextOfKind(sms, kind, i) ==> sms[k].kind != kind
    decreases MAX_SM - i
  {
    if i < MAX_SM - 1 && sms[i].kind != kind {
      SkipsOthers(sms, kind, i + 1);
    }
  }

  /** Joining goes on to the end if all neighbours join; where it stops short of the bytes
      needed, the next one starts behind the end of its neighbour. */
  lemma {:induction false} JoinsUntilGap(sms: seq<Sm>, kind: nat, bits: nat, i: nat, count: nat)
    requires |sms| == MAX_SM && i < MAX_SM && sms[i].kind == kind
    requires bits <= 8 * (count + Total(sms, kind, i + 1))
    ensures var (m, c) := Absorb(sms, kind, bits, i, count, sms[i].start + sms[i].len);
            && ((forall h: nat, j: nat :: i <= h ==> Joins(sms, kind, h, j)) ==> 8 * c >= bits)
            && (8 * c < bits ==> exists h: nat :: i <= h && Neighbours(sms, kind, h, m) && !Joins(sms, kind, h, m))
    decreases MAX_SM - i
  {
    hide NextOfKind, Total, Absorb, Joins, Neighbours;
    var end := sms[i].start + sms[i].len;
    AbsorbStep(sms, kind, bits, i, count, end);
    TotalAtEnd(sms, kind);
    if 8 * count < bits {
      TotalFromNext(sms, kind, i + 1);
      var n := NextOfKind(sms, kind, i + 1);
      NextIsNeighbour(sms, kind, i);
      JoinsMeans(sms, kind, i, n);
      if sms[n].start <= end {
        JoinsUntilGap(sms, kind, bits, n, count + sms[n].len);
      }
    }
  }

  lemma JoinsMeans(sms: seq<Sm>, kind: nat, i: nat, j: nat)
    requires Neighbours(sms, kind, i, j)
    ensures Joins(sms, kind, i, j) <==> sms[j].start <= sms[i].start + sms[i].len
  {
  }

  /** So sync managers of which none leaves a gap are mapped by a single FMMU, from the
      start of the first one. */
  lemma OneFmmu(sms: seq<Sm>, kind: nat, bits: nat, log: nat, bit: nat, first: nat)
    requires ValidSms(sms, kind, bits) && bits > 7 && bit < 8 && FirstOfKind(sms, kind, first)
    requires forall i: nat, j: nat :: Joins(sms, kind, i, j)
    ensures Fmmus(sms, kind, bits, log, bit)
      == [Fmmu(if bit > 0 then log + 1 else log, (bits + 7) / 8, 0, 7, sms[first].start)]
  {
    hide NextOfKind, Absorb, Total, Joins, Placed;
    SearchIsFirst(sms, kind, 0, first);
    TotalFromNext(sms, kind, 0);
    JoinsUntilGap(sms, kind, bits, first, sms[first].len);
    ChunksByRound(sms, kind, bits, 0, 0, 0);
    RoundIs(sms, kind, bits, 0, 0);
    hide Round, Chunks;
    var (n, m, c) := Round(sms, kind, bits, 0, 0);
    NothingLeft(sms, kind, bits, m, c, (if bit > 0 then log + 1 else log) + Bytes(bits));
    PlacedFirst(Chunk(sms[first].start, Bytes(bits)), Chunks(sms, kind, bits, m, Bytes(bits), c),
                if bit > 0 then log + 1 else log);
  }

  // ----- the physical bytes -----

  /** Physical address that logical byte `a` is mapped to. */
  function Physical(fmmus: seq<Fmmu>, a: nat): Option<nat> {
    if fmmus == [] then None
    else
      var f := fmmus[0];
      if f.logStart <= a < f.logStart + f.logLength then Some(f.physStart + (a - f.logStart))
      else Physical(fmmus[1..], a)
  }

  /** The physical bytes of the sync managers of a type, one after the other. */
  function Area(sms: seq<Sm>, kind: nat, i: nat): (s: seq<nat>)
    requires i <= |sms|
    ensures |s| == Total(sms, kind, i)
    decreases |sms| - i
  {
    if i == |sms| then []
    else (if sms[i].kind == kind then seq(sms[i].len, j => sms[i].start + j) else []) + Area(sms, kind, i + 1)
  }

  /** An empty sync manager of the type may lie anywhere, unless bytes of the type come
      before it: then it starts no earlier than those before it end, and no later than
      those after it start. */
  ghost predicate EmptyInPlace(sms: seq<Sm>, kind: nat) {
    forall i, j :: 0 <= i < j < |sms| && sms[i].kind == sms[j].kind == kind && DataBefore(sms, kind, i + 1)
                   && (sms[i].len == 0 || sms[j].len == 0)
      ==> sms[i].start + sms[i].len <= sms[j].start
  }

  ghost predicate DataBefore(sms: seq<Sm>, kind: nat, i: nat)
    requires i <= |sms|
  {
    exists h :: 0 <= h < i && sms[h].kind == kind && sms[h].len > 0
  }

  /** Every sync manager that is joined starts exactly where the one before it ends. */
  ghost predicate Abuts(sms: seq<Sm>, kind: nat, bits: nat, i: nat, count: nat, end: nat)
    requires |sms| == MAX_SM && i < MAX_SM
    decreases MAX_SM - i
  {
    8 * count < bits && i < MAX_SM - 1 ==>
      var n := NextOfKind(sms, kind, i + 1);
      sms[n].start <= end ==>
        sms[n].start == end && Abuts(sms, kind, bits, n, count + sms[n].len, sms[n].start + sms[n].len)
  }

  /** That holds in every run of joined sync managers that has any bytes. */
  ghost predicate Joined(sms: seq<Sm>, kind: nat, bits: nat, i: nat, count: nat)
    requires |sms| == MAX_SM && i < MAX_SM && 8 * count < bits && bits <= 8 * (count + Total(sms, kind, i))
    decreases MAX_SM - i
  {
    RoundStops(sms, kind, bits, i, count);
    var (n, m, c) := Round(sms, kind, bits, i, count);
    && (c > 0 ==> Abuts(sms, kind, bits, n, count + sms[n].len, sms[n].start + sms[n].len))
    && (8 * c < bits ==> Joined(sms, kind, bits, m, c))
  }

  /** Number of separate runs of joined sync managers that the data needs, from the
      first one with any bytes on. */
  function Runs(sms: seq<Sm>, kind: nat, bits: nat, i: nat, count: nat): nat
    requires |sms| == MAX_SM && i < MAX_SM && 8 * count < bits && bits <= 8 * (count + Total(sms, kind, i))
    decreases MAX_SM - i
  {
    RoundStops(sms, kind, bits, i, count);
    var (n, m, c) := Round(sms, kind, bits, i, count);
    (if c > 0 then 1 else 0) + if 8 * c >= bits then 0 else Runs(sms, kind, bits, m, c)
  }

  lemma {:induction false} AreaFromNext(sms: seq<Sm>, kind: nat, i: nat)
    requires |sms| == MAX_SM && i < MAX_SM
    ensures Area(sms, kind, i) == Area(sms, kind, NextOfKind(sms, kind, i))
    decreases MAX_SM - i
  {
    if i < MAX_SM - 1 && sms[i].kind != kind {
      AreaFromNext(sms, kind, i + 1);
    }
  }

  lemma AreaHead(sms: seq<Sm>, kind: nat, i: nat)
    requires i < |sms| && sms[i].kind == kind
    ensures Area(sms, kind, i) == seq(sms[i].len, j => sms[i].start + j) + Area(sms, kind, i + 1)
  {
  }

  /** The first n addresses of `area` are consecutive from `start`. */
  ghost predicate IsRun(area: seq<nat>, n: int, start: nat) {
    n <= |area| && forall j :: 0 <= j < n ==> area[j] == start + j
  }

  /** Prefixing a run by the bytes of the sync manager just before it. */
  lemma RunExtends(area: seq<nat>, rest: seq<nat>, start: nat, len: nat, n: int)
    requires area == seq(len, j => start + j) + rest
    ensures IsRun(area, n, start) <==> IsRun(rest, n - len, start + len)
  {
    assert forall j :: 0 <= j < |rest| ==> area[len + j] == rest[j];
    if IsRun(area, n, start) {
      forall j | 0 <= j < n - len
        ensures rest[j] == start + len + j
      {
        assert area[len + j] == start + (len + j);
      }
    }
    assert IsRun(rest, n - len, start + len) ==> forall j :: len <= j < n ==> area[j] == rest[j - len];
  }

  /** The bytes of joined sync managers, and where the walk goes on. */
  lemma {:induction false} AbsorbArea(sms: seq<Sm>, kind: nat, bits: nat, i: nat, count: nat, end: nat)
    requires |sms| == MAX_SM && i < MAX_SM && bits <= 8 * (count + Total(sms, kind, i + 1))
    ensures var (m, c) := Absorb(sms, kind, bits, i, count, end);
            && c - count <= |Area(sms, kind, i + 1)|
            && (8 * c < bits ==> Area(sms, kind, i + 1)[c - count..] == Area(sms, kind, m))
            && (8 * c < bits && Abuts(sms, kind, bits, i, count, end) ==> sms[m].start > end + (c - count))
    decreases MAX_SM - i
  {
    hide NextOfKind, Total, Area, Absorb;
    AbsorbStep(sms, kind, bits, i, count, end);
    AbsorbStops(sms, kind, bits, i, count, end);
    if 8 * count < bits {
      TotalAtEnd(sms, kind);
      TotalFromNext(sms, kind, i + 1);
      AreaFromNext(sms, kind, i + 1);
      var n := NextOfKind(sms, kind, i + 1);
      if sms[n].start <= end {
        var c := Absorb(sms, kind, bits, n, count + sms[n].len, sms[n].start + sms[n].len).1;
        AbsorbArea(sms, kind, bits, n, count + sms[n].len, sms[n].start + sms[n].len);
        AreaHead(sms, kind, n);
        assert Area(sms, kind, n)[c - count..] == Area(sms, kind, n + 1)[c - count - sms[n].len..];
      }
    }
  }

  /** Behind bytes of the type, the needed bytes of joined sync managers are one run of
      addresses exactly if every one of them starts where the one before ends. */
  lemma {:induction false} AbutsIffRun(sms: seq<Sm>, kind: nat, bits: nat, i: nat, count: nat, end: nat)
    requires |sms| == MAX_SM && i < MAX_SM && EmptyInPlace(sms, kind)
    requires sms[i].kind == kind && end == sms[i].start + sms[i].len && DataBefore(sms, kind, i + 1)
    requires bits <= 8 * (count + Total(sms, kind, i + 1))
    ensures var c := Absorb(sms, kind, bits, i, count, end).1;
            Abuts(sms, kind, bits, i, count, end) <==>
              IsRun(Area(sms, kind, i + 1), Min(c, Bytes(bits)) - count, end)
    decreases MAX_SM - i, 1
  {
    hide NextOfKind, Total, Area, Absorb, EmptyInPlace, DataBefore, IsRun, Bytes;
    AbsorbStep(sms, kind, bits, i, count, end);
    if 8 * count < bits && i < MAX_SM - 1 {
      TotalAtEnd(sms, kind);
      TotalFromNext(sms, kind, i + 1);
      AreaFromNext(sms, kind, i + 1);
      var n := NextOfKind(sms, kind, i + 1);
      if sms[n].start <= end {
        AbutsNext(sms, kind, bits, i, count, n, end);
      } else {
        NoRun(Area(sms, kind, i + 1), Min(count, Bytes(bits)) - count, end);
      }
    } else {
      NoRun(Area(sms, kind, i + 1), Min(count, Bytes(bits)) - count, end);
    }
  }

  lemma {:induction false} AbutsNext(sms: seq<Sm>, kind: nat, bits: nat, i: nat, count: nat, n: nat, end: nat)
    requires |sms| == MAX_SM && i < n < MAX_SM && EmptyInPlace(sms, kind) && 8 * count < bits
    requires sms[i].kind == kind && end == sms[i].start + sms[i].len && DataBefore(sms, kind, i + 1)
    requires sms[n].kind == kind && sms[n].start <= end
    requires bits <= 8 * (count + sms[n].len + Total(sms, kind, n + 1))
    ensures var c := Absorb(sms, kind, bits, n, count + sms[n].len, sms[n].start + sms[n].len).1;
            (sms[n].start == end && Abuts(sms, kind, bits, n, count + sms[n].len, sms[n].start + sms[n].len)) <==>
              IsRun(Area(sms, kind, n), Min(c, Bytes(bits)) - count, end)
    decreases MAX_SM - i, 0
  {
    hide NextOfKind, Total, Area, Absorb, EmptyInPlace, DataBefore, IsRun, Abuts, Bytes;
    var len := sms[n].len;
    var c := Absorb(sms, kind, bits, n, count + len, sms[n].start + len).1;
    LaterData(sms, kind, i + 1, n + 1);
    if sms[n].start == end {
      AbutsIffRun(sms, kind, bits, n, count + len, end + len);
      NextRun(sms, kind, n, Min(c, Bytes(bits)) - count);
    } else {
      InPlace(sms, kind, i, n);
      NeedsByte(bits, count, c);
      AreaStart(sms, kind, n);
      NotARun(Area(sms, kind, n), Min(c, Bytes(bits)) - count, end);
    }
  }

  lemma AreaStart(sms: seq<Sm>, kind: nat, i: nat)
    requires i < |sms| && sms[i].kind == kind && sms[i].len > 0
    ensures |Area(sms, kind, i)| > 0 && Area(sms, kind, i)[0] == sms[i].start
  {
  }

  lemma LaterData(sms: seq<Sm>, kind: nat, i: nat, j: nat)
    requires i <= j <= |sms| && DataBefore(sms, kind, i)
    ensures DataBefore(sms, kind, j)
  {
  }

  lemma NoRun(area: seq<nat>, n: int, start: nat)
    requires n <= 0
    ensures IsRun(area, n, start)
  {
  }

  lemma NotARun(area: seq<nat>, n: int, start: nat)
    requires n > 0 && |area| > 0 && area[0] != start
    ensures !IsRun(area, n, start)
  {
  }

  lemma NeedsByte(bits: nat, count: nat, c: nat)
    requires 8 * count < bits && count <= c
    ensures Min(c, Bytes(bits)) >= count && (c > count ==> Min(c, Bytes(bits)) > count)
  {
  }

  lemma InPlace(sms: seq<Sm>, kind: nat, i: nat, n: nat)
    requires EmptyInPlace(sms, kind) && i < n < |sms| && sms[i].kind == kind && sms[n].kind == kind
    requires DataBefore(sms, kind, i + 1) && sms[n].start < sms[i].start + sms[i].len
    ensures sms[n].len > 0
  {
  }

  /** A run of n bytes from sync manager i on, which may need only part of it. */
  lemma NextRun(sms: seq<Sm>, kind: nat, i: nat, n: int)
    requires i < |sms| && sms[i].kind == kind
    ensures IsRun(Area(sms, kind, i), n, sms[i].start)
      <==> IsRun(Area(sms, kind, i + 1), n - sms[i].len, sms[i].start + sms[i].len)
  {
    hide IsRun, Area;
    AreaHead(sms, kind, i);
    RunExtends(Area(sms, kind, i), Area(sms, kind, i + 1), sms[i].start, sms[i].len, n);
  }

  /** A sync manager joined behind empty ones only, to one that ends at `end`. */
  lemma {:induction false} LowStart(sms: seq<Sm>, kind: nat, bits: nat, i: nat, end: nat)
    requires |sms| == MAX_SM && i < MAX_SM && bits <= 8 * Total(sms, kind, i + 1)
    requires Absorb(sms, kind, bits, i, 0, end).1 > 0
    ensures |Area(sms, kind, i + 1)| > 0 && Area(sms, kind, i + 1)[0] <= end
    decreases MAX_SM - i
  {
    hide NextOfKind, Total, Area, Absorb;
    AbsorbStep(sms, kind, bits, i, 0, end);
    TotalAtEnd(sms, kind);
    TotalFromNext(sms, kind, i + 1);
    AreaFromNext(sms, kind, i + 1);
    var n := NextOfKind(sms, kind, i + 1);
    AreaHead(sms, kind, n);
    if sms[n].len == 0 {
      LowStart(sms, kind, bits, n, sms[n].start);
    }
  }

  /** The same as AbutsIffRun while there are no bytes yet. */
  lemma {:induction false} LeadingIffRun(sms: seq<Sm>, kind: nat, bits: nat, i: nat, end: nat)
    requires |sms| == MAX_SM && i < MAX_SM && EmptyInPlace(sms, kind) && bits <= 8 * Total(sms, kind, i + 1)
    requires Absorb(sms, kind, bits, i, 0, end).1 > 0
    ensures var c := Absorb(sms, kind, bits, i, 0, end).1;
            Abuts(sms, kind, bits, i, 0, end) <==> IsRun(Area(sms, kind, i + 1), Min(c, Bytes(bits)), end)
    decreases MAX_SM - i, 1
  {
    hide NextOfKind, Total, Area, Absorb, EmptyInPlace, IsRun, Bytes;
    AbsorbStep(sms, kind, bits, i, 0, end);
    TotalAtEnd(sms, kind);
    TotalFromNext(sms, kind, i + 1);
    AreaFromNext(sms, kind, i + 1);
    var n := NextOfKind(sms, kind, i + 1);
    if sms[n].len > 0 {
      FirstBytes(sms, kind, bits, n, end);
    } else {
      LeadingNext(sms, kind, bits, i, n, end);
    }
  }

  /** The first sync manager with bytes is joined to one that ends at `end`. */
  lemma FirstBytes(sms: seq<Sm>, kind: nat, bits: nat, n: nat, end: nat)
    requires |sms| == MAX_SM && n < MAX_SM && EmptyInPlace(sms, kind) && 0 < bits
    requires sms[n].kind == kind && sms[n].len > 0 && bits <= 8 * (sms[n].len + Total(sms, kind, n + 1))
    ensures var c := Absorb(sms, kind, bits, n, sms[n].len, sms[n].start + sms[n].len).1;
            (sms[n].start == end && Abuts(sms, kind, bits, n, sms[n].len, sms[n].start + sms[n].len)) <==>
              IsRun(Area(sms, kind, n), Min(c, Bytes(bits)), end)
  {
    hide NextOfKind, Total, Area, Absorb, Abuts, EmptyInPlace, IsRun, DataBefore, Bytes;
    var c := Absorb(sms, kind, bits, n, sms[n].len, sms[n].start + sms[n].len).1;
    NeedsByte(bits, 0, c);
    AreaStart(sms, kind, n);
    if sms[n].start == end {
      DataAt(sms, kind, n);
      AbutsIffRun(sms, kind, bits, n, sms[n].len, end + sms[n].len);
      NextRun(sms, kind, n, Min(c, Bytes(bits)));
    } else {
      NotARun(Area(sms, kind, n), Min(c, Bytes(bits)), end);
    }
  }

  lemma DataAt(sms: seq<Sm>, kind: nat, n: nat)
    requires n < |sms| && sms[n].kind == kind && sms[n].len > 0
    ensures DataBefore(sms, kind, n + 1)
  {
  }

  /** One more empty sync manager. */
  lemma {:induction false} LeadingNext(sms: seq<Sm>, kind: nat, bits: nat, i: nat, n: nat, end: nat)
    requires |sms| == MAX_SM && i < n < MAX_SM && EmptyInPlace(sms, kind) && bits <= 8 * Total(sms, kind, n + 1)
    requires sms[n].kind == kind && sms[n].len == 0 && sms[n].start <= end && 0 < bits
    requires Absorb(sms, kind, bits, n, 0, sms[n].start).1 > 0
    ensures var c := Absorb(sms, kind, bits, n, 0, sms[n].start).1;
            (sms[n].start == end && Abuts(sms, kind, bits, n, 0, sms[n].start)) <==>
              IsRun(Area(sms, kind, n), Min(c, Bytes(bits)), end)
    decreases MAX_SM - i, 0
  {
    hide NextOfKind, Total, Area, Absorb, Abuts, EmptyInPlace, IsRun, Bytes;
    var c := Absorb(sms, kind, bits, n, 0, sms[n].start).1;
    AreaHead(sms, kind, n);
    assert Area(sms, kind, n) == Area(sms, kind, n + 1);
    if sms[n].start == end {
      LeadingIffRun(sms, kind, bits, n, sms[n].start);
    } else {
      NeedsByte(bits, 0, c);
      LowStart(sms, kind, bits, n, sms[n].start);
      NotARun(Area(sms, kind, n), Min(c, Bytes(bits)), end);
    }
  }

  /** Physical address of byte k of a list of chunks. */
  function ChunkAddr(chunks: seq<Chunk>, k: nat): Option<nat> {
    if chunks == [] then None
    else if k < chunks[0].size then Some(chunks[0].phys + k)
    else ChunkAddr(chunks[1..], k - chunks[0].size)
  }

  lemma {:induction false} PlacedAddr(chunks: seq<Chunk>, log: nat, k: nat)
    ensures Physical(Placed(chunks, log), log + k) == ChunkAddr(chunks, k)
    decreases |chunks|
  {
    if chunks != [] {
      var f := Fmmu(log, chunks[0].size, 0, 7, chunks[0].phys);
      assert Placed(chunks, log)[1..] == Placed(chunks[1..], log + chunks[0].size);
      if k >= chunks[0].size {
        PlacedAddr(chunks[1..], log + chunks[0].size, k - chunks[0].size);
      }
    }
  }

  lemma FirstChunkAddr(first: Chunk, rest: seq<Chunk>, k: nat)
    ensures ChunkAddr([first] + rest, k) ==
      if k < first.size then Some(first.phys + k) else ChunkAddr(rest, k - first.size)
  {
    assert ([first] + rest)[1..] == rest;
  }

  // ----- rounds of the walk -----

  /** The walk is at sync manager i with `count` bytes counted. */
  ghost predicate At(sms: seq<Sm>, kind: nat, bits: nat, i: nat, count: nat) {
    && |sms| == MAX_SM && i < MAX_SM && EmptyInPlace(sms, kind)
    && 8 * count < bits && bits <= 8 * (count + Total(sms, kind, i))
    && (count > 0 ==> DataBefore(sms, kind, i) && sms[i].kind == kind)
  }

  /** In a round with any bytes the needed ones are one run of addresses exactly if
      all sync managers it joins abut. */
  lemma RoundIffRun(sms: seq<Sm>, kind: nat, bits: nat, i: nat, count: nat)
    requires At(sms, kind, bits, i, count)
    ensures var (n, m, c) := Round(sms, kind, bits, i, count);
            c > 0 ==> (Abuts(sms, kind, bits, n, count + sms[n].len, sms[n].start + sms[n].len)
                       <==> IsRun(Area(sms, kind, i), Min(c, Bytes(bits)) - count, sms[n].start))
  {
    hide NextOfKind, Total, Area, Absorb, IsRun, Abuts, EmptyInPlace, DataBefore, Bytes;
    RoundStops(sms, kind, bits, i, count);
    TotalFromNext(sms, kind, i);
    AreaFromNext(sms, kind, i);
    var (n, m, c) := Round(sms, kind, bits, i, count);
    var len := sms[n].len;
    NextRun(sms, kind, n, Min(c, Bytes(bits)) - count);
    if count > 0 || len > 0 {
      DataReached(sms, kind, i, n, count);
      AbutsIffRun(sms, kind, bits, n, count + len, sms[n].start + len);
    } else if c > 0 {
      LeadingIffRun(sms, kind, bits, n, sms[n].start);
    }
  }

  lemma DataReached(sms: seq<Sm>, kind: nat, i: nat, n: nat, count: nat)
    requires i <= n < |sms| && sms[n].kind == kind && (count > 0 ==> DataBefore(sms, kind, i))
    requires count > 0 || sms[n].len > 0
    ensures DataBefore(sms, kind, n + 1)
  {
  }

  /** Where the next round starts. */
  lemma RoundArea(sms: seq<Sm>, kind: nat, bits: nat, i: nat, count: nat)
    requires At(sms, kind, bits, i, count)
    ensures var (n, m, c) := Round(sms, kind, bits, i, count);
            && count <= c && c - count <= |Area(sms, kind, i)|
            && (8 * c < bits ==> Area(sms, kind, i)[c - count..] == Area(sms, kind, m))
            && (8 * c < bits && Abuts(sms, kind, bits, n, count + sms[n].len, sms[n].start + sms[n].len) ==>
                  sms[m].start > sms[n].start + (c - count))
  {
    hide NextOfKind, Total, Area, Absorb, Abuts, EmptyInPlace, DataBefore, Round;
    RoundIs(sms, kind, bits, i, count);
    TotalFromNext(sms, kind, i);
    AreaFromNext(sms, kind, i);
    var n := NextOfKind(sms, kind, i);
    var len := sms[n].len;
    AbsorbArea(sms, kind, bits, n, count + len, sms[n].start + len);
    AreaAfter(sms, kind, n, Round(sms, kind, bits, i, count).2 - count);
  }

  lemma RoundIs(sms: seq<Sm>, kind: nat, bits: nat, i: nat, count: nat)
    requires |sms| == MAX_SM && i < MAX_SM
    ensures var n := NextOfKind(sms, kind, i);
            var (m, c) := Absorb(sms, kind, bits, n, count + sms[n].len, sms[n].start + sms[n].len);
            Round(sms, kind, bits, i, count) == (n, m, c)
  {
    hide NextOfKind, Absorb;
  }

  lemma RoundNext(sms: seq<Sm>, kind: nat, bits: nat, i: nat, count: nat)
    requires At(sms, kind, bits, i, count)
    ensures var (n, m, c) := Round(sms, kind, bits, i, count); 8 * c < bits ==> At(sms, kind, bits, m, c)
  {
    hide NextOfKind, Total, Absorb, EmptyInPlace, DataBefore, Round;
    RoundStops(sms, kind, bits, i, count);
    var (n, m, c) := Round(sms, kind, bits, i, count);
    if 8 * c < bits && c > 0 {
      TotalDrop(sms, kind, i, m);
      if count > 0 {
        LaterData(sms, kind, i, m);
      }
    }
  }

  lemma AreaAfter(sms: seq<Sm>, kind: nat, n: nat, k: nat)
    requires n < |sms| && sms[n].kind == kind && sms[n].len <= k <= sms[n].len + |Area(sms, kind, n + 1)|
    ensures k <= |Area(sms, kind, n)| && Area(sms, kind, n)[k..] == Area(sms, kind, n + 1)[k - sms[n].len..]
  {
    hide Area;
    AreaHead(sms, kind, n);
  }

  /** Bytes lie between two places with different totals. */
  lemma {:induction false} TotalDrop(sms: seq<Sm>, kind: nat, i: nat, m: nat)
    requires i <= m <= |sms|
    ensures Total(sms, kind, m) <= Total(sms, kind, i)
    ensures Total(sms, kind, m) < Total(sms, kind, i) ==> DataBefore(sms, kind, m)
    decreases m - i
  {
    if i < m {
      TotalDrop(sms, kind, i + 1, m);
    }
  }

  /** The first byte from sync manager m on, behind other bytes. */
  lemma {:induction false} FirstByte(sms: seq<Sm>, kind: nat, m: nat, i: nat)
    requires m <= i <= |sms| && m < |sms| && EmptyInPlace(sms, kind) && sms[m].kind == kind && DataBefore(sms, kind, m)
    requires forall k :: m <= k < i && sms[k].kind == kind ==> sms[k].len == 0
    ensures |Area(sms, kind, i)| > 0 ==> Area(sms, kind, i)[0] >= sms[m].start
    decreases |sms| - i
  {
    if i < |sms| {
      if sms[i].kind == kind && sms[i].len > 0 {
        AreaStart(sms, kind, i);
        LaterData(sms, kind, m, m + 1);
      } else {
        FirstByte(sms, kind, m, i + 1);
      }
    }
  }

  /** The first n bytes of a list of chunks are these addresses. */
  ghost predicate Right(chunks: seq<Chunk>, area: seq<nat>, n: nat) {
    forall k: nat :: k < n ==> k < |area| && ChunkAddr(chunks, k) == Some(area[k])
  }

  lemma RightCons(first: Chunk, rest: seq<Chunk>, area: seq<nat>, n: nat)
    requires first.size <= n <= |area|
    ensures Right([first] + rest, area, n) <==>
      IsRun(area, first.size, first.phys) && Right(rest, area[first.size..], n - first.size)
  {
    hide ChunkAddr;
    forall k: nat | k < n
      ensures ChunkAddr([first] + rest, k) ==
        if k < first.size then Some(first.phys + k) else ChunkAddr(rest, k - first.size)
    {
      FirstChunkAddr(first, rest, k);
    }
    var tail := area[first.size..];
    if Right([first] + rest, area, n) {
      forall k: nat | k < n - first.size
        ensures ChunkAddr(rest, k) == Some(tail[k])
      {
        assert ChunkAddr([first] + rest, first.size + k) == Some(area[first.size + k]);
      }
    }
    if Right(rest, tail, n - first.size) {
      forall k: nat | first.size <= k < n
        ensures ChunkAddr(rest, k - first.size) == Some(area[k])
      {
        assert ChunkAddr(rest, k - first.size) == Some(tail[k - first.size]);
      }
    }
  }

  lemma RightNone(chunks: seq<Chunk>, area: seq<nat>)
    ensures Right(chunks, area, 0)
  {
  }

  lemma RunLength(area: seq<nat>, n: int, m: int, start: nat)
    requires IsRun(area, n, start) && m <= n
    ensures IsRun(area, m, start) && (0 <= m < n ==> area[m] == start + m)
  {
  }

  /** If a third run follows, its first byte is mapped right behind the second run
      instead of to where it is. */
  lemma ThirdRunMisplaced(sms: seq<Sm>, kind: nat, bits: nat, i: nat, count: nat)
    requires At(sms, kind, bits, i, count) && count > 0
    ensures var (n, m, c) := Round(sms, kind, bits, i, count);
            8 * c < bits ==> !IsRun(Area(sms, kind, i), Min(c, Bytes(bits) - count), sms[n].start)
  {
    hide NextOfKind, Total, Area, Absorb, IsRun, Abuts, EmptyInPlace, DataBefore, Round;
    RoundStops(sms, kind, bits, i, count);
    RoundArea(sms, kind, bits, i, count);
    RoundNext(sms, kind, bits, i, count);
    RoundIffRun(sms, kind, bits, i, count);
    EnoughArea(sms, kind, bits, i, count);
    var (n, m, c) := Round(sms, kind, bits, i, count);
    var area, size := Area(sms, kind, i), Min(c, Bytes(bits) - count);
    if 8 * c < bits && IsRun(area, size, sms[n].start) {
      RunLength(area, size, c - count, sms[n].start);
      MoreArea(sms, kind, bits, m, c);
      FirstByte(sms, kind, m, m);
      assert false;
    }
  }

  /** From the second run on: the byte count still includes the first run, so the FMMU
      of this one covers everything that is left, and is right only if the run does. */
  lemma SecondRunIsLast(sms: seq<Sm>, kind: nat, bits: nat, i: nat, count: nat)
    requires At(sms, kind, bits, i, count) && count > 0
    ensures Right(Chunks(sms, kind, bits, i, count, count), Area(sms, kind, i), Bytes(bits) - count)
      <==> Joined(sms, kind, bits, i, count) && Runs(sms, kind, bits, i, count) <= 1
  {
    hide NextOfKind, Total, Area, Absorb, IsRun, Abuts, EmptyInPlace, DataBefore, ChunkAddr, Chunks, Round, Right;
    RoundStops(sms, kind, bits, i, count);
    RoundArea(sms, kind, bits, i, count);
    RoundNext(sms, kind, bits, i, count);
    RoundIffRun(sms, kind, bits, i, count);
    ChunksByRound(sms, kind, bits, i, count, count);
    EnoughArea(sms, kind, bits, i, count);
    var (n, m, c) := Round(sms, kind, bits, i, count);
    var area, size := Area(sms, kind, i), Min(c, Bytes(bits) - count);
    var rest := Chunks(sms, kind, bits, m, count + size, c);
    RightCons(Chunk(sms[n].start, size), rest, area, Bytes(bits) - count);
    if 8 * c >= bits {
      RightNone(rest, area[size..]);
    } else {
      RunsSome(sms, kind, bits, m, c);
      ThirdRunMisplaced(sms, kind, bits, i, count);
    }
  }

  /** The sync managers ahead hold the bytes still needed. */
  lemma EnoughArea(sms: seq<Sm>, kind: nat, bits: nat, i: nat, count: nat)
    requires At(sms, kind, bits, i, count)
    ensures count < Bytes(bits) && Bytes(bits) - count <= |Area(sms, kind, i)|
  {
  }

  lemma MoreArea(sms: seq<Sm>, kind: nat, bits: nat, i: nat, count: nat)
    requires At(sms, kind, bits, i, count) && count > 0
    ensures |Area(sms, kind, i)| > 0 && DataBefore(sms, kind, i) && sms[i].kind == kind && EmptyInPlace(sms, kind)
  {
  }

  lemma RunsSome(sms: seq<Sm>, kind: nat, bits: nat, i: nat, count: nat)
    requires At(sms, kind, bits, i, count) && count > 0
    ensures Runs(sms, kind, bits, i, count) >= 1
  {
  }

  /** From sync manager j on, behind the first `skip` bytes of the type, the sync managers
      that hold the next n bytes follow one another without gaps from address `phys`. */
  ghost predicate Follow(sms: seq<Sm>, kind: nat, j: nat, skip: nat, n: int, phys: nat)
    requires j <= |sms|
    decreases |sms| - j
  {
    n > 0 ==>
      && j < |sms|
      && if sms[j].kind != kind then Follow(sms, kind, j + 1, skip, n, phys)
         else if sms[j].len <= skip then Follow(sms, kind, j + 1, skip - sms[j].len, n, phys)
         else
           && sms[j].start + skip == phys
           && Follow(sms, kind, j + 1, 0, n - (sms[j].len - skip), sms[j].start + sms[j].len)
  }

  lemma {:induction false} FollowIffRun(sms: seq<Sm>, kind: nat, j: nat, skip: nat, n: int, phys: nat)
    requires j <= |sms| && skip <= |Area(sms, kind, j)|
    ensures Follow(sms, kind, j, skip, n, phys) <==> IsRun(Area(sms, kind, j)[skip..], n, phys)
    decreases |sms| - j
  {
    hide IsRun, Area, Total;
    if n <= 0 {
      NoRun(Area(sms, kind, j)[skip..], n, phys);
    } else if j == |sms| {
      NoArea(sms, kind, n, phys);
    } else if sms[j].kind != kind {
      OtherKind(sms, kind, j);
      FollowIffRun(sms, kind, j + 1, skip, n, phys);
    } else {
      AreaHead(sms, kind, j);
      var head, tail := seq(sms[j].len, k => sms[j].start + k), Area(sms, kind, j + 1);
      if sms[j].len <= skip {
        assert (head + tail)[skip..] == tail[skip - sms[j].len..];
        FollowIffRun(sms, kind, j + 1, skip - sms[j].len, n, phys);
      } else {
        var from, len := sms[j].start + skip, sms[j].len - skip;
        assert (head + tail)[skip..] == seq(len, k => from + k) + tail && tail[0..] == tail;
        if phys == from {
          RunExtends((head + tail)[skip..], tail, from, len, n);
          FollowIffRun(sms, kind, j + 1, 0, n - len, from + len);
        } else {
          NotARun((head + tail)[skip..], n, phys);
        }
      }
    }
  }

  lemma NoArea(sms: seq<Sm>, kind: nat, n: int, phys: nat)
    requires n > 0
    ensures Area(sms, kind, |sms|) == [] && !IsRun([], n, phys)
  {
  }

  lemma OtherKind(sms: seq<Sm>, kind: nat, j: nat)
    requires j < |sms| && sms[j].kind != kind
    ensures Area(sms, kind, j) == Area(sms, kind, j + 1)
  {
  }

  /** In every round of the walk: each FMMU starts at the first sync manager of its round,
      and covers as many bytes as have been counted up to there, of which `done` are
      mapped already; the sync managers that hold these bytes follow one another. */
  ghost predicate TableInOrder(sms: seq<Sm>, kind: nat, bits: nat, i: nat, done: nat, count: nat)
    requires |sms| == MAX_SM && i < MAX_SM && done <= Bytes(bits)
    requires done < Bytes(bits) ==> 8 * count < bits && bits <= 8 * (count + Total(sms, kind, i))
    decreases MAX_SM - i, Bytes(bits) - done
  {
    if done == Bytes(bits) then true
    else
      RoundStops(sms, kind, bits, i, count);
      var (n, m, c) := Round(sms, kind, bits, i, count);
      var size := Min(c, Bytes(bits) - done);
      && Follow(sms, kind, 0, done, size, sms[n].start)
      && (done + size < Bytes(bits) ==> TableInOrder(sms, kind, bits, m, done + size, c))
  }

  /** For any table whatever: each byte is mapped to where it is exactly if that holds. */
  lemma {:induction false} RightIffInOrder(sms: seq<Sm>, kind: nat, bits: nat, i: nat, done: nat, count: nat)
    requires |sms| == MAX_SM && i < MAX_SM && done <= Bytes(bits) <= |Area(sms, kind, 0)|
    requires done < Bytes(bits) ==> 8 * count < bits && bits <= 8 * (count + Total(sms, kind, i))
    ensures Right(Chunks(sms, kind, bits, i, done, count), Area(sms, kind, 0)[done..], Bytes(bits) - done)
      <==> TableInOrder(sms, kind, bits, i, done, count)
    decreases MAX_SM - i, Bytes(bits) - done
  {
    hide NextOfKind, Total, Absorb, IsRun, ChunkAddr, Chunks, Round, Right, Bytes, Area, Follow;
    var area := Area(sms, kind, 0)[done..];
    if done < Bytes(bits) {
      RoundStops(sms, kind, bits, i, count);
      ChunksByRound(sms, kind, bits, i, done, count);
      var (n, m, c) := Round(sms, kind, bits, i, count);
      var size := Min(c, Bytes(bits) - done);
      var rest := Chunks(sms, kind, bits, m, done + size, c);
      RightCons(Chunk(sms[n].start, size), rest, area, Bytes(bits) - done);
      FollowIffRun(sms, kind, 0, done, size, sms[n].start);
      assert area[size..] == Area(sms, kind, 0)[done + size..];
      if done + size < Bytes(bits) {
        RightIffInOrder(sms, kind, bits, m, done + size, c);
      } else {
        RightNone(rest, area[size..]);
      }
    } else {
      RightNone(Chunks(sms, kind, bits, i, done, count), area);
    }
  }

  /** From the start: empty runs come first and cover nothing, then the first run. */
  lemma {:induction false} RightIffTwoRuns(sms: seq<Sm>, kind: nat, bits: nat, i: nat)
    requires At(sms, kind, bits, i, 0)
    ensures Right(Chunks(sms, kind, bits, i, 0, 0), Area(sms, kind, i), Bytes(bits))
      <==> Joined(sms, kind, bits, i, 0) && Runs(sms, kind, bits, i, 0) <= 2
    decreases MAX_SM - i
  {
    hide NextOfKind, Total, Area, Absorb, IsRun, Abuts, EmptyInPlace, DataBefore, ChunkAddr, Chunks, Round, Right;
    RoundStops(sms, kind, bits, i, 0);
    RoundArea(sms, kind, bits, i, 0);
    RoundNext(sms, kind, bits, i, 0);
    RoundIffRun(sms, kind, bits, i, 0);
    ChunksByRound(sms, kind, bits, i, 0, 0);
    EnoughArea(sms, kind, bits, i, 0);
    var (n, m, c) := Round(sms, kind, bits, i, 0);
    var area, size := Area(sms, kind, i), Min(c, Bytes(bits));
    var rest := Chunks(sms, kind, bits, m, size, c);
    RightCons(Chunk(sms[n].start, size), rest, area, Bytes(bits));
    if 8 * c >= bits {
      RightNone(rest, area[size..]);
    } else if c == 0 {
      NoRun(area, 0, sms[n].start);
      RightIffTwoRuns(sms, kind, bits, m);
    } else {
      SecondRunIsLast(sms, kind, bits, m, c);
    }
  }

  /** Logical byte k of the direction, which starts at logical byte `start`, is
      mapped to byte k of its sync managers. */
  ghost predicate ByteInOrder(fmmus: seq<Fmmu>, start: nat, sms: seq<Sm>, kind: nat, k: nat) {
    k < |Area(sms, kind, 0)| && Physical(fmmus, start + k) == Some(Area(sms, kind, 0)[k])
  }

  ghost predicate MapsInOrder(fmmus: seq<Fmmu>, start: nat, sms: seq<Sm>, kind: nat, bits: nat)
  {
    forall k: nat :: k < Bytes(bits) ==> ByteInOrder(fmmus, start, sms, kind, k)
  }

  /** Main result.  That holds exactly when, in each round of the walk, the sync managers
      that hold the bytes of its FMMU follow one another.  With empty sync managers in
      place this is so exactly when the data lies in at most two runs of joined sync
      managers, empty ones in front not counted, and in each of them every sync manager
      starts where the one before it ends. */
  lemma MappedInOrder(sms: seq<Sm>, kind: nat, bits: nat, log: nat, bit: nat)
    requires ValidSms(sms, kind, bits) && bits > 7 && bit < 8
    ensures var ordered :=
              MapsInOrder(Fmmus(sms, kind, bits, log, bit), RangeStart(bits, 8 * log + bit) / 8, sms, kind, bits);
            && (ordered <==> TableInOrder(sms, kind, bits, 0, 0, 0))
            && (EmptyInPlace(sms, kind) ==>
                  (ordered <==> Joined(sms, kind, bits, 0, 0) && Runs(sms, kind, bits, 0, 0) <= 2))
  {
    hide *;
    ByteFmmus(sms, kind, bits, log, bit);
    PlacedInOrder(sms, kind, bits, RangeStart(bits, 8 * log + bit) / 8);
    FirstRound(sms, kind, bits);
    RightIffInOrder(sms, kind, bits, 0, 0, 0);
    if EmptyInPlace(sms, kind) {
      RightIffTwoRuns(sms, kind, bits, 0);
    }
  }

  /** The walk starts with nothing counted. */
  lemma FirstRound(sms: seq<Sm>, kind: nat, bits: nat)
    requires ValidSms(sms, kind, bits) && bits > 7
    ensures |sms| == MAX_SM && 0 <= Bytes(bits) <= |Area(sms, kind, 0)| && 0 < MAX_SM && 8 * 0 < bits
    ensures bits <= 8 * (0 + Total(sms, kind, 0))
    ensures EmptyInPlace(sms, kind) ==> At(sms, kind, bits, 0, 0)
  {
  }

  lemma ByteFmmus(sms: seq<Sm>, kind: nat, bits: nat, log: nat, bit: nat)
    requires ValidSms(sms, kind, bits) && bits > 7 && bit < 8
    ensures |sms| == MAX_SM
    ensures Fmmus(sms, kind, bits, log, bit)
      == Placed(Chunks(sms, kind, bits, 0, 0, 0), RangeStart(bits, 8 * log + bit) / 8)
  {
    hide Placed, Chunks, NextOfKind, Total;
    assert RangeStart(bits, 8 * log + bit) / 8 == if bit > 0 then log + 1 else log;
  }

  lemma PlacedInOrder(sms: seq<Sm>, kind: nat, bits: nat, start: nat)
    requires ValidSms(sms, kind, bits) && bits > 7
    ensures MapsInOrder(Placed(Chunks(sms, kind, bits, 0, 0, 0), start), start, sms, kind, bits)
      <==> Right(Chunks(sms, kind, bits, 0, 0, 0), Area(sms, kind, 0), Bytes(bits))
  {
    hide Absorb, Area, Chunks, Round, NextOfKind, Total, Physical, ChunkAddr, Placed;
    var chunks := Chunks(sms, kind, bits, 0, 0, 0);
    forall k: nat | k < Bytes(bits)
      ensures Physical(Placed(chunks, start), start + k) == ChunkAddr(chunks, k)
    {
      PlacedAddr(chunks, start, k);
    }
    var area := Area(sms, kind, 0);
    assert forall k: nat :: k < Bytes(bits) ==>
      (ByteInOrder(Placed(chunks, start), start, sms, kind, k)
       <==> k < |area| && ChunkAddr(chunks, k) == Some(area[k]));
  }

  // ----- two tables -----

  function Unused(n: nat): seq<Sm> {
    seq(n, _ => Sm(0, 0, 0))
  }

  lemma {:induction false} UnusedTotal(sms: seq<Sm>, kind: nat, i: nat)
    requires i <= |sms| && forall k :: i <= k < |sms| ==> sms[k].kind != kind
    ensures Total(sms, kind, i) == 0
    decreases |sms| - i
  {
    if i < |sms| {
      UnusedTotal(sms, kind, i + 1);
    }
  }

  /** Output sync managers at descending addresses are joined as if they adjoined: the
      fifth of these eight bytes is mapped to 0x1204, where there is none. */
  lemma DescendingMisplaced()
    ensures var sms := [Sm(0x1200, 4, 3), Sm(0x1000, 4, 3)] + Unused(6);
            && ValidSms(sms, 3, 64) && EmptyInPlace(sms, 3)
            && Runs(sms, 3, 64, 0, 0) == 1 && !Joined(sms, 3, 64, 0, 0)
            && ChunkAddr(Chunks(sms, 3, 64, 0, 0, 0), 4) == Some(0x1204) && Area(sms, 3, 0)[4] == 0x1000
  {
    var sms := [Sm(0x1200, 4, 3), Sm(0x1000, 4, 3)] + Unused(6);
    UnusedTotal(sms, 3, 2);
    assert Total(sms, 3, 1) == 4 && Total(sms, 3, 0) == 8;
    assert NextOfKind(sms, 3, 0) == 0 && NextOfKind(sms, 3, 1) == 1;
    AbsorbStep(sms, 3, 64, 0, 4, 0x1204);
    AbsorbStep(sms, 3, 64, 1, 8, 0x1004);
    RoundIs(sms, 3, 64, 0, 0);
    hide Absorb, NextOfKind, Round, Total;
    ChunksByRound(sms, 3, 64, 0, 0, 0);
    FirstChunkAddr(Chunk(0x1200, 8), Chunks(sms, 3, 64, 1, 8, 8), 4);
    AreaHead(sms, 3, 0);
    AreaStart(sms, 3, 1);
    assert Area(sms, 3, 0)[4] == Area(sms, 3, 1)[0];
  }

  function OutOfPlace(): (sms: seq<Sm>)
    ensures |sms| == MAX_SM
  {
    [Sm(0x1000, 4, 3), Sm(0x1100, 4, 3), Sm(0x10f0, 0, 3), Sm(0x1104, 4, 3)] + Unused(4)
  }

  lemma OutOfPlaceTotals()
    ensures var sms := OutOfPlace();
            && Total(sms, 3, 0) == 12 && Total(sms, 3, 1) == 8 && Total(sms, 3, 3) == 4
            && ValidSms(sms, 3, 96) && !EmptyInPlace(sms, 3)
  {
    var sms := OutOfPlace();
    UnusedTotal(sms, 3, 4);
    assert Total(sms, 3, 3) == 4 && Total(sms, 3, 2) == 4;
    assert Total(sms, 3, 1) == 8 && Total(sms, 3, 0) == 12;
    assert DataBefore(sms, 3, 2);
  }

  lemma OutOfPlaceRounds()
    ensures var sms := OutOfPlace();
            && Round(sms, 3, 96, 0, 0) == (0, 1, 4) && Round(sms, 3, 96, 1, 4) == (1, 3, 8)
            && Round(sms, 3, 96, 3, 8) == (3, 3, 12)
  {
    var sms := OutOfPlace();
    assert NextOfKind(sms, 3, 0) == 0 && NextOfKind(sms, 3, 1) == 1;
    assert NextOfKind(sms, 3, 2) == 2 && NextOfKind(sms, 3, 3) == 3;
    hide Absorb, NextOfKind, Round;
    AbsorbStep(sms, 3, 96, 0, 4, 0x1004);
    AbsorbStep(sms, 3, 96, 1, 8, 0x1104);
    AbsorbStep(sms, 3, 96, 2, 8, 0x10f0);
    AbsorbStep(sms, 3, 96, 3, 12, 0x1108);
    RoundIs(sms, 3, 96, 0, 0);
    RoundIs(sms, 3, 96, 1, 4);
    RoundIs(sms, 3, 96, 3, 8);
  }

  lemma OutOfPlaceArea()
    ensures var area := Area(OutOfPlace(), 3, 0);
            |area| == 12 && IsRun(area, 4, 0x1000) && IsRun(area[4..], 8, 0x1100)
  {
    var sms := OutOfPlace();
    hide Area;
    UnusedTotal(sms, 3, 4);
    AreaHead(sms, 3, 0);
    AreaHead(sms, 3, 1);
    AreaHead(sms, 3, 2);
    AreaHead(sms, 3, 3);
    assert Area(sms, 3, 0)[4..] == Area(sms, 3, 1);
    NextRun(sms, 3, 1, 8);
    NextRun(sms, 3, 3, 4);
    NoRun(Area(sms, 3, 4), 0, 0x1108);
  }

  /** Why empty sync managers have to be in place: here the third steps back, so that the
      fourth, which adjoins the second, starts a third run, and yet each byte is mapped
      to where it is. */
  lemma EmptyOutOfPlace()
    ensures var sms := OutOfPlace();
            && ValidSms(sms, 3, 96) && !EmptyInPlace(sms, 3) && Runs(sms, 3, 96, 0, 0) == 3
            && Right(Chunks(sms, 3, 96, 0, 0, 0), Area(sms, 3, 0), Bytes(96))
  {
    hide Absorb, NextOfKind, Round, Total, Chunks, Area, Right, OutOfPlace, ChunkAddr, IsRun, EmptyInPlace;
    var sms := OutOfPlace();
    OutOfPlaceTotals();
    OutOfPlaceRounds();
    OutOfPlaceArea();
    OutOfPlaceStarts();
    ChunksByRound(sms, 3, 96, 0, 0, 0);
    ChunksByRound(sms, 3, 96, 1, 4, 4);
    var area := Area(sms, 3, 0);
    var rest := Chunks(sms, 3, 96, 3, 12, 8);
    RightCons(Chunk(0x1000, 4), [Chunk(0x1100, 8)] + rest, area, 12);
    RightCons(Chunk(0x1100, 8), rest, area[4..], 8);
    RightNone(rest, area[4..][8..]);
  }

  lemma OutOfPlaceStarts()
    ensures OutOfPlace()[0].start == 0x1000 && OutOfPlace()[1].start == 0x1100
  {
  }
}
