/** Frame buffers, index allocation and the receive functions of the network
    driver. */
module Nic {
  import opened EtherCat
  import opened Options

  datatype BufStat = BufEmpty | BufAlloc | BufTx | BufRcvd | BufComplete

  /** Second word of the source address: which socket a frame was sent from. */
  datatype Source = Nothing | Primary | Secondary

  /** Frame contents as far as the driver is concerned: data and the last working
      counter.  `serial` tells frames with the same index apart; it is not on the
      wire. */
  datatype Body = Body(serial: nat, data: seq<bv8>, wkc: nat)

  /** What a socket delivers. */
  datatype Packet = Packet(ethercat: bool, index: nat, source: Source, body: Body)

  /** Result codes of a receive function: no frame, a frame for somebody else, or a
      working counter. */
  const NO_FRAME: int := -1
  const OTHER_FRAME: int := -2

  /** Receive side of one socket. */
  datatype Rx = Rx(stat: seq<BufStat>, buf: seq<Body>, source: seq<Source>)

  predicate ValidRx(r: Rx) {
    |r.stat| == |r.buf| == |r.source| == MAX_BUF
  }

  function Stored(r: Rx, i: nat, p: Packet, stat: BufStat): Rx
    requires ValidRx(r) && i < MAX_BUF
  {
    Rx(r.stat[i := stat], r.buf[i := p.body], r.source[i := p.source])
  }

  /** The frame that a poll for index `idx` takes from the socket, if it gets there. */
  function Received(r: Rx, idx: nat, arrival: Option<Packet>): Rx
    requires ValidRx(r) && idx < MAX_BUF
  {
    if arrival.None? || !arrival.value.ethercat then r
    else if arrival.value.index == idx then Stored(r, idx, arrival.value, BufComplete)
    else if arrival.value.index < MAX_BUF && r.stat[arrival.value.index] == BufTx then
      Stored(r, arrival.value.index, arrival.value, BufRcvd)
    else r
  }

  function Result(r: Rx, idx: nat, arrival: Option<Packet>): int
    requires ValidRx(r) && idx < MAX_BUF
  {
    if r.stat[idx] == BufRcvd then r.buf[idx].wkc
    else if arrival.None? then NO_FRAME
    else if arrival.value.ethercat && arrival.value.index == idx then arrival.value.body.wkc
    else OTHER_FRAME
  }

  /** State after a poll: a frame already stored is taken without touching the socket. */
  function Polled(r: Rx, idx: nat, arrival: Option<Packet>): Rx
    requires ValidRx(r) && idx < MAX_BUF
  {
    if r.stat[idx] == BufRcvd then r.(stat := r.stat[idx := BufComplete]) else Received(r, idx, arrival)
  }

  /** First empty index at or after i in cyclic order, looking at n of them; after
      that the next one, empty or not. */
  function Search(stat: seq<BufStat>, i: nat, n: nat): (r: nat)
    requires |stat| == MAX_BUF && i < MAX_BUF
    ensures r < MAX_BUF
    decreases n
  {
    if stat[i] == BufEmpty || n == 0 then i
    else Search(stat, if i + 1 >= MAX_BUF then 0 else i + 1, n - 1)
  }

  function NextIndex(stat: seq<BufStat>, lastidx: nat): (r: nat)
    requires |stat| == MAX_BUF
    ensures r < MAX_BUF
  {
    Search(stat, if lastidx + 1 >= MAX_BUF then 0 else lastidx + 1, MAX_BUF)
  }

  /** Buffers of one socket. */
  class Stack {
    const rxbufstat: array<BufStat>
    const rxbuf: array<Body>
    const rxsa: array<Source>

    constructor ()
      ensures fresh(rxbufstat) && fresh(rxbuf) && fresh(rxsa) && Valid()
      ensures forall i :: 0 <= i < MAX_BUF ==> rxbufstat[i] == BufEmpty
    {
      rxbufstat := new BufStat[MAX_BUF](_ => BufEmpty);
      rxbuf := new Body[MAX_BUF](_ => Body(0, [], 0));
      rxsa := new Source[MAX_BUF](_ => Nothing);
    }

    ghost predicate Valid() {
      rxbufstat.Length == rxbuf.Length == rxsa.Length == MAX_BUF
    }

    function View(): (r: Rx)
      requires Valid()
      reads rxbufstat, rxbuf, rxsa
      ensures ValidRx(r)
    {
      Rx(rxbufstat[..], rxbuf[..], rxsa[..])
    }

    method SetBufStat(idx: nat, bufstat: BufStat)
      requires Valid() && idx < MAX_BUF
      modifies rxbufstat
      ensures View() == old(View()).(stat := old(View()).stat[idx := bufstat])
    {
      rxbufstat[idx] := bufstat;
    }

    /** Non-blocking receive.  `arrival` is what the socket delivers if it is read. */
    method InFrame(idx: nat, arrival: Option<Packet>) returns (rval: int)
      requires Valid() && idx < MAX_BUF
      modifies rxbufstat, rxbuf, rxsa
      ensures rval == Result(old(View()), idx, arrival)
      ensures View() == Polled(old(View()), idx, arrival)
    {
      rval := NO_FRAME;
      if rxbufstat[idx] == BufRcvd {
        rval := rxbuf[idx].wkc;
        rxbufstat[idx] := BufComplete;
      } else {
        if arrival.Some? {
          rval := OTHER_FRAME;
          var temp := arrival.value;
          if temp.ethercat {
            var idxf := temp.index;
            if idxf == idx {
              rxbuf[idx] := temp.body;
              rval := rxbuf[idx].wkc;
              rxbufstat[idx] := BufComplete;
              rxsa[idx] := temp.source;
            } else {
              if idxf < MAX_BUF && rxbufstat[idxf] == BufTx {
                rxbuf[idxf] := temp.body;
                rxbufstat[idxf] := BufRcvd;
                rxsa[idxf] := temp.source;
              }
            }
          }
        }
      }
    }

    /** The index search of the allocation. */
    method FindIndex(lastidx: nat) returns (idx: nat)
      requires Valid()
      ensures idx == NextIndex(rxbufstat[..], lastidx)
    {
      idx := lastidx + 1;
      if idx >= MAX_BUF {
        idx := 0;
      }
      var cnt := 0;
      while rxbufstat[idx] != BufEmpty && cnt < MAX_BUF
        invariant idx < MAX_BUF && cnt <= MAX_BUF
        invariant Search(rxbufstat[..], idx, MAX_BUF - cnt) == NextIndex(rxbufstat[..], lastidx)
      {
        idx := idx + 1;
        cnt := cnt + 1;
        if idx >= MAX_BUF {
          idx := 0;
        }
      }
    }
  }

  lemma {:induction false} SearchFindsEmpty(stat: seq<BufStat>, i: nat, n: nat, e: nat)
    requires |stat| == MAX_BUF && i < MAX_BUF && e < MAX_BUF && stat[e] == BufEmpty
    requires if i <= e then e - i <= n else e + MAX_BUF - i <= n
    ensures stat[Search(stat, i, n)] == BufEmpty
    decreases n
  {
    if stat[i] != BufEmpty {
      SearchFindsEmpty(stat, if i + 1 >= MAX_BUF then 0 else i + 1, n - 1, e);
    }
  }

  /** The allocation hands out a busy index exactly when none is empty. */
  lemma BusyOnlyWhenFull(stat: seq<BufStat>, lastidx: nat)
    requires |stat| == MAX_BUF && lastidx < MAX_BUF
    ensures stat[NextIndex(stat, lastidx)] == BufEmpty <==> exists e :: 0 <= e < MAX_BUF && stat[e] == BufEmpty
  {
    if e :| 0 <= e < MAX_BUF && stat[e] == BufEmpty {
      SearchFindsEmpty(stat, if lastidx + 1 >= MAX_BUF then 0 else lastidx + 1, MAX_BUF, e);
    }
  }

  /** And it is the first empty one in cyclic order after the last index given out. */
  lemma {:induction false} SkipsOnlyBusy(stat: seq<BufStat>, i: nat, n: nat, j: nat)
    requires |stat| == MAX_BUF && i < MAX_BUF && j < MAX_BUF && n <= MAX_BUF
    requires var r := Search(stat, i, n); if i <= r then i <= j < r else j < r || i <= j
    ensures stat[j] != BufEmpty
    decreases n
  {
    if stat[i] != BufEmpty && n > 0 && j != i {
      SkipsOnlyBusy(stat, if i + 1 >= MAX_BUF then 0 else i + 1, n - 1, j);
    }
  }

  /** Steps from index i to index j in cyclic order. */
  function Steps(i: nat, j: nat): nat
    requires i < MAX_BUF && j < MAX_BUF
  {
    if i <= j then j - i else j + MAX_BUF - i
  }

  /** An empty index is found exactly when no other empty one comes before it. */
  lemma {:induction false} FirstEmpty(stat: seq<BufStat>, i: nat, n: nat, e: nat)
    requires |stat| == MAX_BUF && i < MAX_BUF && e < MAX_BUF && stat[e] == BufEmpty && Steps(i, e) <= n
    ensures Search(stat, i, n) == e
      <==> forall j :: 0 <= j < MAX_BUF && Steps(i, j) < Steps(i, e) ==> stat[j] != BufEmpty
    decreases n
  {
    if stat[i] != BufEmpty {
      var next := if i + 1 >= MAX_BUF then 0 else i + 1;
      FirstEmpty(stat, next, n - 1, e);
      assert forall j :: 0 <= j < MAX_BUF && j != i ==> Steps(i, j) == Steps(next, j) + 1;
    } else {
      assert Steps(i, i) == 0;
    }
  }
}
