/** Reading sections of the slave information through the cache. */
module SiiParse {
  import opened Bytes
  import opened Sii

  const SII_START: nat := 0x40            // word address of the first section
  const SII_PDO: word := 50
  const SII_END: word := 0xffff
  const MAX_SM: nat := 8                  // EC_MAXSM
  const MAX_PDO: nat := 0x200             // EC_MAXEEPDO

  function RomWord(c: Cache, slave: word, a: nat): word {
    var lo: int, hi: int := c.rom(slave, a), c.rom(slave, a + 1);
    lo + 0x100 * hi
  }

  /** What a read gives: beyond the buffer all bits are set. */
  function SeenWord(c: Cache, slave: word, a: nat): word {
    var lo: int, hi: int := c.Direct(slave, a), c.Direct(slave, a + 1);
    lo + 0x100 * hi
  }

  method ReadWord(c: Cache, slave: word, a: nat) returns (w: word)
    requires c.Valid() && c.Fits(slave, a) && c.Fits(slave, a + 1)
    modifies c, c.esibuf, c.esimap
    ensures c.Valid() && w == SeenWord(c, slave, a)
  {
    var lo := c.GetByte(slave, a);
    var hi := c.GetByte(slave, a + 1);
    w := (lo as int) + 0x100 * (hi as int);
  }

  // ----- finding a section -----

  datatype Section = Section(cat: word, data: seq<byte>)

  /** Sections have whole words, and no section has the category that ends the list. */
  predicate WellFormed(sections: seq<Section>) {
    forall s :: s in sections ==> s.cat != SII_END && |s.data| % 2 == 0 && |s.data| < 0x2_0000
  }

  function ImageBytes(sections: seq<Section>): (b: seq<byte>)
    requires WellFormed(sections)
    ensures |b| >= 2 && Word(b, 0) == if sections == [] then SII_END else sections[0].cat
  {
    if sections == [] then WordBytes(SII_END)
    else
      var s := sections[0];
      WordBytes(s.cat) + (WordBytes(|s.data| / 2) + (s.data + ImageBytes(sections[1..])))
  }

  /** The EEPROM holds these bytes at this address. */
  ghost predicate Holds(c: Cache, slave: word, at: nat, bytes: seq<byte>) {
    forall k :: 0 <= k < |bytes| ==> c.rom(slave, at + k) == bytes[k]
  }

  lemma HoldsParts(c: Cache, slave: word, at: nat, a: seq<byte>, b: seq<byte>)
    requires Holds(c, slave, at, a + b)
    ensures Holds(c, slave, at, a) && Holds(c, slave, at + |a|, b)
  {
    forall k | 0 <= k < |a|
      ensures c.rom(slave, at + k) == a[k]
    {
      assert (a + b)[k] == a[k];
    }
    forall k | 0 <= k < |b|
      ensures c.rom(slave, at + |a| + k) == b[k]
    {
      assert (a + b)[|a| + k] == b[k];
      assert at + |a| + k == at + (|a| + k);
    }
  }

  lemma HoldsWord(c: Cache, slave: word, at: nat, bytes: seq<byte>)
    requires Holds(c, slave, at, bytes) && |bytes| >= 2
    ensures RomWord(c, slave, at) == Word(bytes, 0)
  {
    assert c.rom(slave, at + 0) == bytes[0];
  }

  /** Address of the length word of the first section of the category, or 0; `at` is
      where the sections start. */
  function Lookup(sections: seq<Section>, cat: word, at: nat): nat {
    if sections == [] then 0
    else if sections[0].cat == cat then at + 2
    else Lookup(sections[1..], cat, at + 4 + |sections[0].data|)
  }

  /** The same, as far as the cache reaches. */
  function Visible(sections: seq<Section>, cat: word, at: nat): nat {
    if at >= BUF_SIZE || sections == [] then 0
    else if sections[0].cat == cat then at + 2
    else Visible(sections[1..], cat, at + 4 + |sections[0].data|)
  }

  /** The section headers up to the first one beyond the buffer can be read: their
      chunks stay inside the buffer. */
  predicate HeadersReadable(c: Cache, slave: word, sections: seq<Section>, at: nat)
    decreases |sections|
  {
    at < BUF_SIZE ==>
      c.Fits(slave, at)
      && (sections != [] ==>
            c.Fits(slave, at + 2) && HeadersReadable(c, slave, sections[1..], at + 4 + |sections[0].data|))
  }

  /** A well-formed list of sections from byte `at` on, in a memory with 16-bit addresses. */
  ghost predicate Image(c: Cache, slave: word, at: nat, sections: seq<Section>) {
    && WellFormed(sections) && at % 2 == 0 && at + |ImageBytes(sections)| <= 0x1_0000
    && HeadersReadable(c, slave, sections, at) && Holds(c, slave, at, ImageBytes(sections))
  }

  lemma SeenIsRom(c: Cache, slave: word, a: nat)
    requires a % 2 == 0
    ensures a < BUF_SIZE ==> SeenWord(c, slave, a) == RomWord(c, slave, a)
    ensures a >= BUF_SIZE ==> SeenWord(c, slave, a) == SII_END
    ensures c.Fits(slave, a) ==> c.Fits(slave, a + 1)
  {
  }

  /** The first section, and the image behind it. */
  lemma FirstSection(c: Cache, slave: word, at: nat, sections: seq<Section>)
    requires Image(c, slave, at, sections)
    ensures c.Fits(slave, at) && c.Fits(slave, at + 1)
    ensures SeenWord(c, slave, at) == if at >= BUF_SIZE || sections == [] then SII_END else sections[0].cat
    ensures sections != [] ==>
              var data := sections[0].data;
              && sections[0].cat != SII_END
              && (at < BUF_SIZE ==>
                    && at + 4 <= BUF_SIZE && c.Fits(slave, at + 2) && c.Fits(slave, at + 3)
                    && 2 * SeenWord(c, slave, at + 2) == |data| && Holds(c, slave, at + 4, data)
                    && Image(c, slave, at + 4 + |data|, sections[1..]))
  {
    SeenIsRom(c, slave, at);
    SeenIsRom(c, slave, at + 2);
    HoldsWord(c, slave, at, ImageBytes(sections));
    if sections != [] {
      SectionBytes(c, slave, at, sections);
    }
  }

  lemma SectionBytes(c: Cache, slave: word, at: nat, sections: seq<Section>)
    requires WellFormed(sections) && sections != [] && Holds(c, slave, at, ImageBytes(sections))
    ensures var data := sections[0].data;
            && 2 * RomWord(c, slave, at + 2) == |data| && Holds(c, slave, at + 4, data)
            && Holds(c, slave, at + 4 + |data|, ImageBytes(sections[1..]))
            && |ImageBytes(sections)| == 4 + |data| + |ImageBytes(sections[1..])|
  {
    hide Holds, Word, RomWord;
    var s := sections[0];
    var rest := ImageBytes(sections[1..]);
    var length := WordBytes(|s.data| / 2);
    HoldsParts(c, slave, at, WordBytes(s.cat), length + (s.data + rest));
    HoldsParts(c, slave, at + 2, length, s.data + rest);
    HoldsWord(c, slave, at + 2, length);
    HoldsParts(c, slave, at + 4, s.data, rest);
  }

  method Find(c: Cache, slave: word, cat: word, ghost sections: seq<Section>) returns (a: nat)
    requires c.Valid() && cat != SII_END && Image(c, slave, 2 * SII_START, sections)
    modifies c, c.esibuf, c.esimap
    ensures c.Valid() && a == Visible(sections, cat, 2 * SII_START)
  {
    hide Image, SeenWord;
    a := 2 * SII_START;
    FirstSection(c, slave, a, sections);
    var p := ReadWord(c, slave, a);
    a := a + 2;
    ghost var rest := sections;
    while p != cat && p != SII_END
      invariant c.Valid() && a >= 2 && Image(c, slave, a - 2, rest) && p == SeenWord(c, slave, a - 2)
      invariant Visible(rest, cat, a - 2) == Visible(sections, cat, 2 * SII_START)
      decreases |rest|
    {
      FirstSection(c, slave, a - 2, rest);
      p := ReadWord(c, slave, a);
      a := a + 2 + 2 * p;
      rest := rest[1..];
      FirstSection(c, slave, a, rest);
      p := ReadWord(c, slave, a);
      a := a + 2;
    }
    FirstSection(c, slave, a - 2, rest);
    if p != cat {
      a := 0;
    }
  }

  // ----- PDO sections -----

  /** One PDO as it is read: index, sync manager, number of entries, and their bits. */
  datatype Row = Row(index: word, sm: byte, entries: byte, bits: nat)

  /** Bit lengths of n entries. */
  ghost function EntryBits(c: Cache, slave: word, a: nat, n: nat): (b: nat)
    ensures b <= 0xff * n
  {
    if n == 0 then 0 else EntryBits(c, slave, a, n - 1) + c.Direct(slave, a + 8 * (n - 1) + 5)
  }

  ghost function RowAt(c: Cache, slave: word, a: nat): Row {
    var n := c.Direct(slave, a + 2);
    var sm := c.Direct(slave, a + 3);
    Row(SeenWord(c, slave, a), sm, n, if sm < MAX_SM then EntryBits(c, slave, a + 8, n) else 0)
  }

  /** The PDOs read from address `a` on, with `words` the word counter and n PDOs read
      before: at least one is read, whatever the length of the section. */
  ghost function Walk(c: Cache, slave: word, a: nat, words: nat, length: nat, n: nat): (rows: seq<Row>)
    requires n < MAX_PDO - 1
    ensures 1 <= |rows| < MAX_PDO - n
    decreases MAX_PDO - n
  {
    var row := RowAt(c, slave, a);
    var next := words + 4 + 4 * row.entries;
    if n + 1 >= MAX_PDO - 1 || next >= length then [row]
    else [row] + Walk(c, slave, a + 8 + 8 * row.entries, next, length, n + 1)
  }

  /** Everything that is read of a PDO can be read, and no address wraps. */
  ghost predicate RowReadable(c: Cache, slave: word, a: nat) {
    var row := RowAt(c, slave, a);
    && a + 8 + 8 * row.entries <= 0x1_0000
    && c.Fits(slave, a) && c.Fits(slave, a + 1) && c.Fits(slave, a + 2) && c.Fits(slave, a + 3)
    && (row.sm < MAX_SM ==> EntriesReadable(c, slave, a + 8, row.entries))
  }

  ghost predicate EntriesReadable(c: Cache, slave: word, a: nat, n: nat) {
    forall k :: 0 <= k < n ==> c.Fits(slave, a + 8 * k + 5)
  }

  /** The same for all PDOs of a walk. */
  ghost predicate WalkReadable(c: Cache, slave: word, a: nat, words: nat, length: nat, n: nat)
    requires n < MAX_PDO - 1
    decreases MAX_PDO - n
  {
    var row := RowAt(c, slave, a);
    var next := words + 4 + 4 * row.entries;
    && RowReadable(c, slave, a)
    && (n + 1 >= MAX_PDO - 1 || next >= length || WalkReadable(c, slave, a + 8 + 8 * row.entries, next, length, n + 1))
  }

  /** Mapped bits, of all PDOs or of those of one sync manager. */
  function Total(rows: seq<Row>): nat {
    if rows == [] then 0 else Total(rows[..|rows| - 1]) + rows[|rows| - 1].bits
  }

  function OfSm(rows: seq<Row>, sm: nat): nat {
    if rows == [] then 0
    else OfSm(rows[..|rows| - 1], sm) + if rows[|rows| - 1].sm == sm then rows[|rows| - 1].bits else 0
  }

  class PdoTable {
    var Startpos: nat
    var Length: word
    var nPDO: nat
    const Index: array<word>
    const SyncM: array<byte>
    const BitSize: array<nat>
    const SMbitsize: array<nat>

    constructor ()
      ensures Shape() && fresh(Index) && fresh(SyncM) && fresh(BitSize) && fresh(SMbitsize)
    {
      Startpos, Length, nPDO := 0, 0, 0;
      Index := new word[MAX_PDO](_ => 0);
      SyncM := new byte[MAX_PDO](_ => 0);
      BitSize := new nat[MAX_PDO](_ => 0);
      SMbitsize := new nat[MAX_SM](_ => 0);
    }

    ghost predicate Shape() {
      && Index.Length == SyncM.Length == BitSize.Length == MAX_PDO && SMbitsize.Length == MAX_SM
      && Index as object != SyncM && Index as object != BitSize && Index as object != SMbitsize
      && SyncM as object != BitSize && SyncM as object != SMbitsize && BitSize != SMbitsize
    }

    /** The table is not part of the cache. */
    ghost predicate Apart(c: Cache) {
      && Index as object !in {c, c.esibuf, c.esimap} && SyncM as object !in {c, c.esibuf, c.esimap}
      && BitSize as object !in {c, c.esibuf, c.esimap} && SMbitsize as object !in {c, c.esibuf, c.esimap}
    }

    ghost function View(): Table
      reads this, Index, SyncM, BitSize, SMbitsize
    {
      Table(nPDO, Index[..], SyncM[..], BitSize[..], SMbitsize[..])
    }
  }

  /** Contents of a PDO table. */
  datatype Table = Table(n: nat, index: seq<word>, sm: seq<byte>, bits: seq<nat>, smBits: seq<nat>)

  /** The table lists the rows; PDO numbers start at 1. */
  ghost predicate Lists(t: Table, rows: seq<Row>) {
    && t.n == |rows| < MAX_PDO && |t.index| == |t.sm| == |t.bits| == MAX_PDO && |t.smBits| == MAX_SM
    && (forall k :: 0 <= k < |rows| ==>
          t.index[k + 1] == rows[k].index && t.sm[k + 1] == rows[k].sm && t.bits[k + 1] == rows[k].bits)
    && forall s :: 0 <= s < MAX_SM ==> t.smBits[s] == OfSm(rows, s) % 0x1_0000
  }

  /** The table after one more row. */
  function WithRow(t: Table, row: Row): Table
    requires |t.index| == |t.sm| == |t.bits| == MAX_PDO && |t.smBits| == MAX_SM && t.n + 1 < MAX_PDO
  {
    Table(t.n + 1, t.index[t.n + 1 := row.index], t.sm[t.n + 1 := row.sm], t.bits[t.n + 1 := row.bits],
          if row.sm < MAX_SM then t.smBits[row.sm := (t.smBits[row.sm] + row.bits) % 0x1_0000] else t.smBits)
  }

  lemma ListsMore(t: Table, rows: seq<Row>, row: Row)
    requires Lists(t, rows) && |rows| + 1 < MAX_PDO
    ensures Lists(WithRow(t, row), rows + [row])
  {
    AppendRow(rows, row);
  }

  lemma AppendRow(rows: seq<Row>, row: Row)
    ensures Total(rows + [row]) == Total(rows) + row.bits
    ensures forall s :: OfSm(rows + [row], s) == OfSm(rows, s) + if row.sm == s then row.bits else 0
  {
    assert (rows + [row])[..|rows|] == rows;
  }

  /** The entries of one PDO, summed up in place. */
  method ReadEntries(c: Cache, slave: word, bitSize: array<nat>, k: nat, a: nat, n: byte)
    requires c.Valid() && k < bitSize.Length && EntriesReadable(c, slave, a, n) && bitSize[k] == 0
    requires bitSize as object !in {c, c.esibuf, c.esimap}
    modifies c, c.esibuf, c.esimap, bitSize
    ensures c.Valid() && bitSize[..] == old(bitSize[..])[k := EntryBits(c, slave, a, n)]
  {
    var b := a;
    for er := 0 to n
      invariant c.Valid() && bitSize[k] == EntryBits(c, slave, a, er) && b == a + 8 * er
      invariant forall j :: 0 <= j < bitSize.Length && j != k ==> bitSize[j] == old(bitSize[j])
    {
      b := b + 5;
      var bits := c.GetByte(slave, b);
      bitSize[k] := bitSize[k] + bits;
      b := b + 3;
    }
  }

  /** Index, number of entries and sync manager of one PDO. */
  method ReadHeader(c: Cache, slave: word, table: PdoTable, a: nat) returns (entries: byte, sm: byte)
    requires c.Valid() && table.Shape() && table.Apart(c) && table.nPDO + 1 < MAX_PDO
    requires c.Fits(slave, a) && c.Fits(slave, a + 1) && c.Fits(slave, a + 2) && c.Fits(slave, a + 3)
    modifies c, c.esibuf, c.esimap, table`nPDO, table.Index, table.SyncM, table.BitSize
    ensures c.Valid() && entries == c.Direct(slave, a + 2) && sm == c.Direct(slave, a + 3)
    ensures table.nPDO == old(table.nPDO) + 1
    ensures table.Index[..] == old(table.Index[..])[table.nPDO := SeenWord(c, slave, a)]
    ensures table.SyncM[..] == old(table.SyncM[..])[table.nPDO := sm]
    ensures table.BitSize[..] == old(table.BitSize[..])[table.nPDO := 0]
  {
    table.nPDO := table.nPDO + 1;
    var k := table.nPDO;
    var index := ReadWord(c, slave, a);
    table.Index[k] := index;
    table.BitSize[k] := 0;
    entries := c.GetByte(slave, a + 2);
    sm := c.GetByte(slave, a + 3);
    table.SyncM[k] := sm;
  }

  /** One PDO. */
  method ReadRow(c: Cache, slave: word, table: PdoTable, a: nat) returns (entries: byte)
    requires c.Valid() && table.Shape() && table.Apart(c) && table.nPDO + 1 < MAX_PDO
    requires RowReadable(c, slave, a)
    modifies c, c.esibuf, c.esimap, table`nPDO, table.Index, table.SyncM, table.BitSize, table.SMbitsize
    ensures c.Valid() && table.View() == WithRow(old(table.View()), RowAt(c, slave, a))
    ensures entries == RowAt(c, slave, a).entries && table.nPDO == old(table.nPDO) + 1
    ensures table.BitSize[table.nPDO] == RowAt(c, slave, a).bits
  {
    hide SeenWord, EntryBits, EntriesReadable;
    var sm;
    entries, sm := ReadHeader(c, slave, table, a);
    var k := table.nPDO;
    if sm < MAX_SM {
      ReadEntries(c, slave, table.BitSize, k, a + 8, entries);
      table.SMbitsize[sm] := (table.SMbitsize[sm] + table.BitSize[k]) % 0x1_0000;
    }
  }

  lemma WalkStep(c: Cache, slave: word, a: nat, words: nat, length: nat, n: nat)
    requires n < MAX_PDO - 1
    ensures var row := RowAt(c, slave, a); var next := words + 4 + 4 * row.entries;
            var rows := Walk(c, slave, a, words, length, n);
            if n + 1 >= MAX_PDO - 1 || next >= length then rows == [row]
            else rows == [row] + Walk(c, slave, a + 8 + 8 * row.entries, next, length, n + 1)
  {
    hide RowAt;
  }

  /** Category of the PDO section for receive (0) or transmit (1) PDOs. */
  function PdoCategory(t: nat): word {
    SII_PDO + if t > 1 then 1 else t
  }

  method SiiPdo(c: Cache, slave: word, table: PdoTable, t: nat, ghost sections: seq<Section>) returns (size: nat)
    requires c.Valid() && table.Shape() && table.Apart(c) && Image(c, slave, 2 * SII_START, sections)
    requires var start := Visible(sections, PdoCategory(t), 2 * SII_START);
             start > 0 ==> WalkReadable(c, slave, start + 2, 1, SeenWord(c, slave, start), 0)
    modifies c, c.esibuf, c.esimap, table, table.Index, table.SyncM, table.BitSize, table.SMbitsize
    ensures c.Valid() && table.Startpos == Visible(sections, PdoCategory(t), 2 * SII_START)
    ensures var start := table.Startpos;
            if start == 0 then Lists(table.View(), []) && size == 0 && table.Length == table.Index[1] == 0
            else
              var rows := Walk(c, slave, start + 2, 1, SeenWord(c, slave, start), 0);
              Lists(table.View(), rows) && size == Total(rows) % 0x1_0000 && table.Length == SeenWord(c, slave, start)
  {
    hide Walk, WalkReadable, SeenWord, Visible, RowAt, Image, Lists, WithRow, Total;
    size := 0;
    table.nPDO := 0;
    table.Length := 0;
    table.Index[1] := 0;
    for k := 0 to MAX_SM
      invariant forall j :: 0 <= j < k ==> table.SMbitsize[j] == 0
      modifies table.SMbitsize
    {
      table.SMbitsize[k] := 0;
    }
    NoRows(table.View());
    table.Startpos := Find(c, slave, PdoCategory(t), sections);
    if table.Startpos > 0 {
      var a := table.Startpos;
      LengthReadable(c, slave, sections, PdoCategory(t), 2 * SII_START);
      var w := ReadWord(c, slave, a);
      table.Length := w;
      a := a + 2;
      size := ReadPdos(c, slave, table, a, w);
    }
  }

  /** The length word of a section that is found can be read. */
  lemma {:induction false} LengthReadable(c: Cache, slave: word, sections: seq<Section>, cat: word, at: nat)
    requires Image(c, slave, at, sections) && Visible(sections, cat, at) > 0
    ensures var a := Visible(sections, cat, at); c.Fits(slave, a) && c.Fits(slave, a + 1)
    decreases |sections|
  {
    hide Image, SeenWord;
    FirstSection(c, slave, at, sections);
    if sections[0].cat != cat {
      LengthReadable(c, slave, sections[1..], cat, at + 4 + |sections[0].data|);
    }
  }

  lemma NoRows(t: Table)
    requires |t.index| == |t.sm| == |t.bits| == MAX_PDO && |t.smBits| == MAX_SM && t.n == 0
    requires forall s :: 0 <= s < MAX_SM ==> t.smBits[s] == 0
    ensures Lists(t, []) && Total([]) == 0
  {
  }

  lemma ListsCount(t: Table, rows: seq<Row>)
    requires Lists(t, rows)
    ensures t.n == |rows|
  {
  }

  lemma ModAdd(a: nat, b: nat)
    ensures (a % 0x1_0000 + b) % 0x1_0000 == (a + b) % 0x1_0000
  {
  }

  /** The do-while loop over the PDOs. */
  method ReadPdos(c: Cache, slave: word, table: PdoTable, start: nat, length: word) returns (size: nat)
    requires c.Valid() && table.Shape() && table.Apart(c) && Lists(table.View(), [])
    requires WalkReadable(c, slave, start, 1, length, 0)
    modifies c, c.esibuf, c.esimap, table`nPDO, table.Index, table.SyncM, table.BitSize, table.SMbitsize
    ensures var rows := Walk(c, slave, start, 1, length, 0);
            c.Valid() && Lists(table.View(), rows) && size == Total(rows) % 0x1_0000
  {
    hide Walk, RowAt, RowReadable, WithRow, Total, SeenWord, Lists;
    ghost var rows := Walk(c, slave, start, 1, length, 0);
    assert table.nPDO == 0 by {
      ListsCount(table.View(), []);
    }
    ghost var done: seq<Row> := [];
    var a: nat, words: nat, more := start, 1, true;
    size := 0;
    assert Total([]) == 0 by {
      NoRows(Table(0, seq(MAX_PDO, _ => 0), seq(MAX_PDO, _ => 0), seq(MAX_PDO, _ => 0), seq(MAX_SM, _ => 0)));
    }
    while more
      invariant c.Valid() && Lists(table.View(), done) && table.nPDO == |done| && size == Total(done) % 0x1_0000
      invariant more ==> |done| < MAX_PDO - 1 && rows == done + Walk(c, slave, a, words, length, |done|)
      invariant more ==> WalkReadable(c, slave, a, words, length, |done|)
      invariant !more ==> rows == done
      decreases more, MAX_PDO - |done|
    {
      ghost var row := RowAt(c, slave, a);
      WalkStep(c, slave, a, words, length, |done|);
      ListsMore(table.View(), done, row);
      AppendRow(done, row);
      var e: nat := ReadRow(c, slave, table, a);
      ModAdd(Total(done), row.bits);
      size := (size + table.BitSize[table.nPDO]) % 0x1_0000;
      words := words + 4 + 4 * e;
      a := a + 8 + 8 * e;
      done := done + [row];
      if table.nPDO >= MAX_PDO - 1 {
        words := length;
      }
      more := words < length;
    }
  }
}
