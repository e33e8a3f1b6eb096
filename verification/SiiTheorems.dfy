/** What the section search and the PDO parser return on well-formed contents. */
module SiiTheorems {
  import opened Bytes
  import opened Sii
  import opened SiiParse

  // ----- the search -----

  function Sizes(sections: seq<Section>): nat {
    if sections == [] then 0 else 4 + |sections[0].data| + Sizes(sections[1..])
  }

  /** No section before number k has the category, and this one has. */
  ghost predicate FirstOf(sections: seq<Section>, cat: word, k: nat) {
    k < |sections| && sections[k].cat == cat && forall j :: 0 <= j < k ==> sections[j].cat != cat
  }

  lemma {:induction false} FindsAt(sections: seq<Section>, cat: word, at: nat, k: nat)
    requires FirstOf(sections, cat, k)
    ensures Lookup(sections, cat, at) == at + Sizes(sections[..k]) + 2
    decreases k
  {
    if k > 0 {
      var rest := sections[1..];
      assert sections[..k][1..] == rest[..k - 1] && rest[k - 1] == sections[k];
      assert forall j :: 0 <= j < k - 1 ==> rest[j] == sections[j + 1];
      FindsAt(rest, cat, at + 4 + |sections[0].data|, k - 1);
    }
  }

  lemma {:induction false} FindsNone(sections: seq<Section>, cat: word, at: nat)
    ensures Lookup(sections, cat, at) == 0 <==> forall k :: 0 <= k < |sections| ==> sections[k].cat != cat
    decreases |sections|
  {
    if sections != [] {
      FindsNone(sections[1..], cat, at + 4 + |sections[0].data|);
      assert forall k :: 1 <= k < |sections| ==> sections[k] == sections[1..][k - 1];
    }
  }

  /** The search returns the address of the length word of the first section of the
      category, and 0 exactly if there is none. */
  lemma FindsFirst(sections: seq<Section>, cat: word, at: nat)
    ensures Lookup(sections, cat, at) == 0 <==> forall k :: 0 <= k < |sections| ==> sections[k].cat != cat
    ensures forall k: nat :: FirstOf(sections, cat, k) ==> Lookup(sections, cat, at) == at + Sizes(sections[..k]) + 2
  {
    hide Lookup, Sizes;
    FindsNone(sections, cat, at);
    forall k: nat | FirstOf(sections, cat, k)
      ensures Lookup(sections, cat, at) == at + Sizes(sections[..k]) + 2
    {
      FindsAt(sections, cat, at, k);
    }
  }

  /** Main result.  For an image of any size the search finds the first section of the
      category if and only if its header lies in the first 4096 bytes, or there is none. */
  lemma {:induction false} FoundIfInReach(sections: seq<Section>, cat: word, at: nat)
    ensures Visible(sections, cat, at) == Lookup(sections, cat, at) <==> Lookup(sections, cat, at) < BUF_SIZE + 2
    ensures Visible(sections, cat, at) != Lookup(sections, cat, at) ==> Visible(sections, cat, at) == 0
    decreases |sections|
  {
    LookupLater(sections, cat, at);
    if sections != [] && sections[0].cat != cat {
      FoundIfInReach(sections[1..], cat, at + 4 + |sections[0].data|);
    }
  }

  lemma {:induction false} LookupLater(sections: seq<Section>, cat: word, at: nat)
    ensures Lookup(sections, cat, at) == 0 || Lookup(sections, cat, at) >= at + 2
    decreases |sections|
  {
    if sections != [] {
      LookupLater(sections[1..], cat, at + 4 + |sections[0].data|);
    }
  }

  // ----- PDO sections -----

  /** An entry of eight bytes, the sixth of which is its length in bits. */
  datatype Entry = Entry(lead: seq<byte>, bits: byte, flags: seq<byte>)

  datatype Pdo = Pdo(index: word, sm: byte, misc: seq<byte>, entries: seq<Entry>)

  predicate ValidEntry(e: Entry) {
    |e.lead| == 5 && |e.flags| == 2
  }

  predicate ValidPdo(p: Pdo) {
    |p.misc| == 4 && |p.entries| < 0x100 && forall e :: e in p.entries ==> ValidEntry(e)
  }

  predicate ValidPdos(pdos: seq<Pdo>) {
    forall p :: p in pdos ==> ValidPdo(p)
  }

  function EntryBytes(e: Entry): (b: seq<byte>)
    requires ValidEntry(e)
    ensures |b| == 8 && b[5] == e.bits
  {
    e.lead + [e.bits] + e.flags
  }

  function EntriesBytes(es: seq<Entry>): (b: seq<byte>)
    requires forall e :: e in es ==> ValidEntry(e)
    ensures |b| == 8 * |es|
  {
    if es == [] then [] else EntriesBytes(es[..|es| - 1]) + EntryBytes(es[|es| - 1])
  }

  function HeaderBytes(p: Pdo): (b: seq<byte>)
    requires ValidPdo(p)
    ensures |b| == 8 && Word(b, 0) == p.index && b[2] == |p.entries| && b[3] == p.sm
  {
    WordBytes(p.index) + [|p.entries|, p.sm] + p.misc
  }

  function PdosBytes(pdos: seq<Pdo>): (b: seq<byte>)
    requires ValidPdos(pdos)
    ensures |b| % 8 == 0 && |b| >= 8 * |pdos|
  {
    if pdos == [] then []
    else HeaderBytes(pdos[0]) + (EntriesBytes(pdos[0].entries) + PdosBytes(pdos[1..]))
  }

  function BitSum(es: seq<Entry>): nat {
    if es == [] then 0 else BitSum(es[..|es| - 1]) + es[|es| - 1].bits
  }

  function RowOf(p: Pdo): Row
    requires ValidPdo(p)
  {
    Row(p.index, p.sm, |p.entries|, if p.sm < MAX_SM then BitSum(p.entries) else 0)
  }

  function RowsOf(pdos: seq<Pdo>): (r: seq<Row>)
    requires ValidPdos(pdos)
    ensures |r| == |pdos|
  {
    if pdos == [] then [] else [RowOf(pdos[0])] + RowsOf(pdos[1..])
  }

  lemma {:induction false} EntriesRead(c: Cache, slave: word, a: nat, es: seq<Entry>)
    requires (forall e :: e in es ==> ValidEntry(e)) && Holds(c, slave, a, EntriesBytes(es))
    requires a + 8 * |es| <= BUF_SIZE
    ensures EntryBits(c, slave, a, |es|) == BitSum(es)
    decreases |es|
  {
    if es != [] {
      var n := |es| - 1;
      HoldsParts(c, slave, a, EntriesBytes(es[..n]), EntryBytes(es[n]));
      EntriesRead(c, slave, a, es[..n]);
      assert c.rom(slave, a + 8 * n + 5) == EntryBytes(es[n])[5];
    }
  }

  lemma RowRead(c: Cache, slave: word, a: nat, p: Pdo)
    requires ValidPdo(p) && Holds(c, slave, a, HeaderBytes(p)) && Holds(c, slave, a + 8, EntriesBytes(p.entries))
    requires a % 2 == 0 && a + 8 + 8 * |p.entries| <= BUF_SIZE
    ensures RowAt(c, slave, a) == RowOf(p)
  {
    SeenIsRom(c, slave, a);
    HoldsWord(c, slave, a, HeaderBytes(p));
    assert c.rom(slave, a + 2) == HeaderBytes(p)[2] && c.rom(slave, a + 3) == HeaderBytes(p)[3];
    EntriesRead(c, slave, a + 8, p.entries);
  }

  lemma {:induction false} PdosRead(c: Cache, slave: word, a: nat, words: nat, length: nat, n: nat, pdos: seq<Pdo>)
    requires ValidPdos(pdos) && pdos != [] && n + |pdos| < MAX_PDO - 1
    requires Holds(c, slave, a, PdosBytes(pdos)) && 2 * words + |PdosBytes(pdos)| == 2 * length + 2
    requires a % 2 == 0 && a + |PdosBytes(pdos)| <= BUF_SIZE
    ensures Walk(c, slave, a, words, length, n) == RowsOf(pdos)
    ensures a + |PdosBytes(pdos)| <= BUF_SIZE - 8 ==> WalkReadable(c, slave, a, words, length, n)
    decreases |pdos|
  {
    hide RowAt, Holds, HeaderBytes, EntriesBytes, RowOf, RowReadable;
    var p := pdos[0];
    var rest := PdosBytes(pdos[1..]);
    HoldsParts(c, slave, a, HeaderBytes(p), EntriesBytes(p.entries) + rest);
    HoldsParts(c, slave, a + 8, EntriesBytes(p.entries), rest);
    RowRead(c, slave, a, p);
    RowCount(p);
    EarlyRowReadable(c, slave, a);
    if |pdos| == 1 {
      assert [RowAt(c, slave, a)] == RowsOf(pdos);
    } else {
      PdosRead(c, slave, a + 8 + 8 * |p.entries|, words + 4 + 4 * |p.entries|, length, n + 1, pdos[1..]);
    }
  }

  lemma EarlyRowReadable(c: Cache, slave: word, a: nat)
    ensures a + 8 + 8 * RowAt(c, slave, a).entries <= BUF_SIZE - 8 ==> RowReadable(c, slave, a)
  {
    hide RowAt;
  }

  lemma RowCount(p: Pdo)
    requires ValidPdo(p)
    ensures RowOf(p).entries == |p.entries|
  {
  }

  /** Main result.  From a section that holds a list of PDOs, and ends inside the buffer,
      the parser reads exactly these PDOs if and only if the list is not empty: of an
      empty section it still reads one. */
  lemma SectionRead(c: Cache, slave: word, sections: seq<Section>, t: nat, k: nat, pdos: seq<Pdo>)
    requires Image(c, slave, 2 * SII_START, sections) && k < |sections|
    requires var cat := if t == 0 then 50 else 51;
             sections[k].cat == cat && forall j :: 0 <= j < k ==> sections[j].cat != cat
    requires ValidPdos(pdos) && sections[k].data == PdosBytes(pdos)
    requires 2 * SII_START + Sizes(sections[..k]) + 4 + |PdosBytes(pdos)| <= BUF_SIZE
    ensures var start := Visible(sections, PdoCategory(t), 2 * SII_START);
            var length := SeenWord(c, slave, start);
            && start > 0 && 2 * length == |PdosBytes(pdos)|
            && (Walk(c, slave, start + 2, 1, length, 0) == RowsOf(pdos) <==> pdos != [])
            && (pdos != [] && start + 2 + |PdosBytes(pdos)| <= BUF_SIZE - 8 ==>
                  WalkReadable(c, slave, start + 2, 1, length, 0))
  {
    hide Walk, WalkReadable, Image, SeenWord, Visible, Holds, PdosBytes, ValidPdos, Sizes;
    SectionStart(sections, PdoCategory(t), 2 * SII_START, k);
    SectionAddress(c, slave, 2 * SII_START, sections, k);
    var start := Visible(sections, PdoCategory(t), 2 * SII_START);
    if pdos != [] {
      PdosRead(c, slave, start + 2, 1, SeenWord(c, slave, start), 0, pdos);
    }
  }

  lemma SectionStart(sections: seq<Section>, cat: word, at: nat, k: nat)
    requires k < |sections| && sections[k].cat == cat && forall j :: 0 <= j < k ==> sections[j].cat != cat
    requires at + Sizes(sections[..k]) + 4 <= BUF_SIZE
    ensures Visible(sections, cat, at) == at + Sizes(sections[..k]) + 2
  {
    hide Lookup, Visible, Sizes;
    FindsAt(sections, cat, at, k);
    FoundIfInReach(sections, cat, at);
  }

  /** Where the k-th section lies. */
  lemma {:induction false} SectionAddress(c: Cache, slave: word, at: nat, sections: seq<Section>, k: nat)
    requires Image(c, slave, at, sections) && k < |sections| && at + Sizes(sections[..k]) < BUF_SIZE
    ensures var a := at + Sizes(sections[..k]);
            && a % 2 == 0 && 2 * SeenWord(c, slave, a + 2) == |sections[k].data|
            && Holds(c, slave, a + 4, sections[k].data)
    decreases k
  {
    hide Image, SeenWord, Holds;
    ImageEven(c, slave, at, sections);
    FirstSection(c, slave, at, sections);
    if k > 0 {
      assert sections[..k][1..] == sections[1..][..k - 1];
      SectionAddress(c, slave, at + 4 + |sections[0].data|, sections[1..], k - 1);
    } else {
      assert sections[..0] == [];
    }
  }

  lemma ImageEven(c: Cache, slave: word, at: nat, sections: seq<Section>)
    requires Image(c, slave, at, sections)
    ensures at % 2 == 0
  {
  }

  // ----- sizes -----

  /** Bits of all entries of active PDOs. */
  function ActiveBits(pdos: seq<Pdo>): nat {
    if pdos == [] then 0
    else (if pdos[0].sm < MAX_SM then BitSum(pdos[0].entries) else 0) + ActiveBits(pdos[1..])
  }

  lemma {:induction false} TotalPrepend(row: Row, rows: seq<Row>)
    ensures Total([row] + rows) == row.bits + Total(rows)
    decreases |rows|
  {
    if rows == [] {
      assert [row] + rows == [row] && [row][..0] == [];
    } else {
      var n := |rows| - 1;
      assert ([row] + rows)[..n + 1] == [row] + rows[..n];
      TotalPrepend(row, rows[..n]);
    }
  }

  lemma {:induction false} TotalIsActiveBits(pdos: seq<Pdo>)
    requires ValidPdos(pdos)
    ensures Total(RowsOf(pdos)) == ActiveBits(pdos)
    decreases |pdos|
  {
    if pdos != [] {
      TotalPrepend(RowOf(pdos[0]), RowsOf(pdos[1..]));
      TotalIsActiveBits(pdos[1..]);
    }
  }

  /** Sum over the sync managers below n. */
  function SmSum(rows: seq<Row>, n: nat): nat {
    if n == 0 then 0 else SmSum(rows, n - 1) + OfSm(rows, n - 1)
  }

  lemma {:induction false} SmSumAppend(rows: seq<Row>, row: Row, n: nat)
    ensures SmSum(rows + [row], n) == SmSum(rows, n) + if row.sm < n then row.bits else 0
    decreases n
  {
    AppendRow(rows, row);
    if n > 0 {
      SmSumAppend(rows, row, n - 1);
    }
  }

  /** Every mapped bit belongs to exactly one sync manager. */
  lemma {:induction false} TotalIsSmSum(rows: seq<Row>)
    requires forall r :: r in rows ==> r.sm < MAX_SM || r.bits == 0
    ensures Total(rows) == SmSum(rows, MAX_SM)
    decreases |rows|
  {
    if rows == [] {
      NothingMapped(MAX_SM);
    } else {
      var n := |rows| - 1;
      assert rows == rows[..n] + [rows[n]];
      TotalIsSmSum(rows[..n]);
      AppendRow(rows[..n], rows[n]);
      SmSumAppend(rows[..n], rows[n], MAX_SM);
    }
  }

  lemma {:induction false} NothingMapped(n: nat)
    ensures SmSum([], n) == 0
  {
    if n > 0 {
      NothingMapped(n - 1);
    }
  }

  /** Sum of the table's sizes by sync manager. */
  function TableSum(t: Table, n: nat): nat
    requires n <= |t.smBits|
  {
    if n == 0 then 0 else TableSum(t, n - 1) + t.smBits[n - 1]
  }

  /** Main result.  The size returned for a list of PDOs is the number of bits of its
      active entries, and the sum of the sizes by sync manager, if and only if that
      number fits 16 bits. */
  lemma SizeIsActiveBits(pdos: seq<Pdo>, t: Table, size: nat)
    requires ValidPdos(pdos) && Lists(t, RowsOf(pdos)) && size == Total(RowsOf(pdos)) % 0x1_0000
    ensures size == ActiveBits(pdos) <==> ActiveBits(pdos) < 0x1_0000
    ensures ActiveBits(pdos) < 0x1_0000 ==> TableSum(t, MAX_SM) == ActiveBits(pdos)
  {
    TotalIsActiveBits(pdos);
    RowsActive(pdos);
    TotalIsSmSum(RowsOf(pdos));
    if ActiveBits(pdos) < 0x1_0000 {
      TableSumExact(t, RowsOf(pdos), MAX_SM);
    }
  }

  lemma {:induction false} RowsActive(pdos: seq<Pdo>)
    requires ValidPdos(pdos)
    ensures forall r :: r in RowsOf(pdos) ==> r.sm < MAX_SM || r.bits == 0
    decreases |pdos|
  {
    if pdos != [] {
      RowsActive(pdos[1..]);
    }
  }

  lemma {:induction false} TableSumExact(t: Table, rows: seq<Row>, n: nat)
    requires Lists(t, rows) && n <= MAX_SM && SmSum(rows, n) < 0x1_0000
    ensures TableSum(t, n) == SmSum(rows, n)
    decreases n
  {
    if n > 0 {
      TableSumExact(t, rows, n - 1);
    }
  }
}
