/** The cache in front of the slaves' EEPROMs. */
module Sii {
  import opened Bytes

  const MAP_WORDS: nat := 128             // EC_MAXEEPBITMAP
  const BUF_SIZE: nat := 4096             // EC_MAXEEPBUF
  const UNAVAILABLE: byte := 0xff

  /** The bits of one word of the bitmap. */
  type Bits = s: seq<bool> | |s| == 32 witness seq(32, _ => false)

  predicate InRange(x: nat, start: nat, cnt: nat) {
    start <= x < start + cnt
  }

  function Range(start: nat, cnt: nat): set<nat> {
    set x: nat | x < start + cnt && InRange(x, start, cnt)
  }

  class Cache {
    const rom: (word, nat) -> byte          // EEPROM contents by slave and byte address
    const eightByte: word -> bool           // slaves that answer with 8 bytes, not 4
    const esibuf: array<byte>
    const esimap: array<Bits>
    var esislave: word

    constructor (rom: (word, nat) -> byte, eightByte: word -> bool)
      ensures this.rom == rom && this.eightByte == eightByte && Valid() && fresh(esibuf) && fresh(esimap)
    {
      this.rom := rom;
      this.eightByte := eightByte;
      esibuf := new byte[BUF_SIZE](_ => 0);
      esimap := new Bits[MAP_WORDS](_ => seq(32, _ => false));
      esislave := 0;
    }

    predicate Shape() {
      esibuf.Length == BUF_SIZE && esimap.Length == MAP_WORDS
    }

    ghost predicate Cached(x: nat)
      requires Shape() && x < BUF_SIZE
      reads esimap
    {
      esimap[x / 32][x % 32]
    }

    ghost function CachedSet(): set<nat>
      requires Shape()
      reads esimap
    {
      set x: nat | x < BUF_SIZE && Cached(x)
    }

    /** A set bit means that the buffered byte is the current slave's. */
    ghost predicate Valid()
      reads this, esibuf, esimap
    {
      Shape() && forall x :: x in CachedSet() ==> esibuf[x] == rom(esislave, x)
    }

    function Width(slave: word): nat {
      if eightByte(slave) then 8 else 4
    }

    /** A chunk read for this address stays inside the buffer. */
    predicate Fits(slave: word, address: nat) {
      address < BUF_SIZE ==> address / 2 * 2 + Width(slave) <= BUF_SIZE
    }

    /** What a read without a cache gives. */
    function Direct(slave: word, address: nat): byte {
      if address < BUF_SIZE then rom(slave, address) else UNAVAILABLE
    }

    method GetByte(slave: word, address: nat) returns (retval: byte)
      requires Valid() && Fits(slave, address)
      modifies this, esibuf, esimap
      ensures Valid() && esislave == slave
      ensures retval == if address < 0x1000 then rom(slave, address) else 0xff
      ensures var kept := if old(esislave) == slave then old(CachedSet()) else {};
              CachedSet() == kept + if address < 0x1000 && address !in kept
                                    then Range(address / 2 * 2, if eightByte(slave) then 8 else 4) else {}
    {
      retval := UNAVAILABLE;
      if slave != esislave {
        ClearMap();
        esislave := slave;
      }
      if address < BUF_SIZE {
        var mapw := address / 32;
        var mapb := address - mapw * 32;
        assert mapb == address % 32;
        assert address in CachedSet() <==> esimap[mapw][mapb];
        if esimap[mapw][mapb] {
          retval := esibuf[address];
        } else {
          var eadr := address / 2;
          var cnt := if eightByte(slave) then 8 else 4;
          Fill(slave, eadr * 2, cnt);
          mapw := eadr / 16;
          mapb := eadr * 2 - mapw * 32;
          assert 32 * mapw + mapb == address / 2 * 2;
          MarkRead(mapw, mapb, cnt);
          retval := esibuf[address];
        }
      }
    }

    method ClearMap()
      requires Shape()
      modifies esimap
      ensures CachedSet() == {}
    {
      for w := 0 to MAP_WORDS
        invariant forall v :: 0 <= v < w ==> esimap[v] == seq(32, _ => false)
      {
        esimap[w] := seq(32, _ => false);
      }
    }

    method Fill(slave: word, start: nat, cnt: nat)
      requires Shape() && start + cnt <= BUF_SIZE
      modifies esibuf
      ensures forall x :: 0 <= x < BUF_SIZE ==>
                esibuf[x] == if start <= x < start + cnt then rom(slave, x) else old(esibuf[x])
    {
      forall k | 0 <= k < cnt {
        esibuf[start + k] := rom(slave, start + k);
      }
    }

    /** Sets `cnt` bits from the given one on, going over to the next word. */
    method MarkRead(mapw0: nat, mapb0: nat, cnt: nat)
      requires Shape() && mapb0 < 32 && 32 * mapw0 + mapb0 + cnt <= BUF_SIZE
      modifies esimap
      ensures CachedSet() == old(CachedSet()) + Range(32 * mapw0 + mapb0, cnt)
    {
      var start := 32 * mapw0 + mapb0;
      var mapw: nat, mapb: nat := mapw0, mapb0;
      for lp := 0 to cnt
        invariant mapb < 32 && 32 * mapw + mapb == start + lp
        invariant start + lp <= BUF_SIZE
        invariant forall x :: 0 <= x < BUF_SIZE ==> (Cached(x) <==> old(Cached(x)) || start <= x < start + lp)
      {
        esimap[mapw] := esimap[mapw][mapb := true];
        mapb := mapb + 1;
        if mapb > 31 {
          mapb := 0;
          mapw := mapw + 1;
        }
      }
    }
  }
}
