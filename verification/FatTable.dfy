/** The FAT12 allocation table that the mass-storage bootloader makes up when the host reads it. */
module FatTable {
  import opened Chips

  const SECTOR_SIZE: nat := 512
  const END_OF_CHAIN: word := 0xFFF

  type Table = t: seq<byte> | |t| == SECTOR_SIZE witness Zeros(SECTOR_SIZE)

  function Zeros(n: nat): (s: seq<byte>)
    ensures |s| == n
    ensures forall i :: 0 <= i < n ==> s[i] == 0
  {
    seq(n, _ => 0)
  }

  /** Bitwise disjunction of bytes. */
  function Or(a: byte, b: byte): (r: byte)
    ensures a % 16 == 0 && b < 16 ==> r == a + b
  {
    BitAndBound(a, b);
    NibblesDisjoint(a, b);
    a + b - BitAnd(a, b)
  }

  lemma BitAndBound(a: byte, b: byte)
    ensures a + b - BitAnd(a, b) < 0x100
  {
    BitOrBound(8, a, b);
    assert Ones(8) == 0xFF;
  }

  lemma {:induction false} BitOrBound(k: nat, a: nat, b: nat)
    requires a <= Ones(k) && b <= Ones(k)
    ensures a + b - BitAnd(a, b) <= Ones(k)
  {
    if a != 0 && b != 0 {
      BitOrBound(k - 1, a / 2, b / 2);
    }
  }

  lemma EvenAnd(x: nat, b: nat)
    ensures BitAnd(2 * x, b) == 2 * BitAnd(x, b / 2)
  {
  }

  lemma NibblesDisjoint(a: byte, b: byte)
    ensures a % 16 == 0 && b < 16 ==> BitAnd(a, b) == 0
  {
    if a % 16 == 0 && b < 16 {
      hide BitAnd;
      var x, b1 := a / 16, b / 2;
      var b2 := b1 / 2;
      var b3 := b2 / 2;
      assert a == 2 * (8 * x) && b1 < 8 && b2 < 4 && b3 < 2;
      EvenAnd(8 * x, b);
      EvenAnd(4 * x, b1);
      EvenAnd(2 * x, b2);
      EvenAnd(x, b3);
      AndZero(x);
    }
  }

  lemma AndZero(x: nat)
    ensures BitAnd(x, 0) == 0
  {
  }

  // Entries

  /** A table entry as the FAT12 format defines it: twelve bits, two entries in three bytes. */
  function Entry(t: Table, i: nat): word
    requires i + i / 2 + 1 < SECTOR_SIZE
  {
    var first: nat, second: nat := t[i + i / 2], t[i + i / 2 + 1];
    if i % 2 == 0 then first + 0x100 * (second % 16) else first / 16 + 16 * second
  }

  /** Position of an entry's first byte, computed in eight bits. */
  function EntryOffset(i: word): (o: nat)
    ensures o < 0x100
    ensures i <= 170 ==> o == i + i / 2
  {
    (i + i / 2) % 0x100
  }

  function SetEntry(t: Table, i: word, v: word): (r: Table) {
    var o := EntryOffset(i);
    if i % 2 == 1 then t[o := t[o] % 16 + v % 16 * 16][o + 1 := v / 16 % 0x100]
    else t[o := v % 0x100][o + 1 := Or(v % 0x100 / 16 * 16, v / 0x100)]
  }

  /** The entries of a linear chain, written in ascending order. */
  function SetChain(t: Table, start: word, from: nat, length: nat): (r: Table)
    requires from <= length < 0x100
    decreases length - from
  {
    if from == length then t
    else
      var current: word := (start + from) % 0x1_0000;
      var next: word := if from == length - 1 then END_OF_CHAIN else (current + 1) % 0x1_0000;
      SetChain(SetEntry(t, current, next), start, from + 1, length)
  }

  /** The table sent to the host: two reserved entries and the chains of the two files. */
  function MakeTable(flashStart: word, flashClusters: nat, eepromStart: word, eepromClusters: nat): Table
    requires flashClusters < 0x100 && eepromClusters < 0x100
  {
    var reserved := SetEntry(SetEntry(Zeros(SECTOR_SIZE), 0, 0xFF8), 1, 0xFFF);
    SetChain(SetChain(reserved, flashStart, 0, flashClusters), eepromStart, 0, eepromClusters)
  }

  // Two entries share three bytes; the lemmas below treat one such group at a time.

  lemma Groups(i: nat)
    ensures i % 2 == 0 ==> i == 2 * (i / 2) && i + i / 2 == 3 * (i / 2)
    ensures i % 2 == 1 ==> i == 2 * (i / 2) + 1 && i + i / 2 == 3 * (i / 2) + 1
  {
  }

  lemma EvenBytes(v: word)
    requires v < 0x1000
    ensures var second := Or(v % 0x100 / 16 * 16, v / 0x100);
            && v % 0x100 + 0x100 * (second % 16) == v
            && second / 16 == v / 16 % 16
  {
    hide Or;
    var h, m := v / 0x100, v / 16 % 16;
    assert v % 0x100 / 16 == m by { LowNibbles(v); }
    var high: byte := m * 16;
    assert high % 16 == 0 && high / 16 == m;
    assert Or(high, h) == high + h;
    assert (high + h) % 16 == h && (high + h) / 16 == m;
  }

  lemma LowNibbles(v: word)
    ensures v % 0x100 / 16 == v / 16 % 16
  {
    assert v == 0x100 * (v / 0x100) + v % 0x100;
    assert v / 16 == 16 * (v / 0x100) + v % 0x100 / 16;
  }

  lemma OddBytes(x: byte, v: word)
    requires v < 0x1000
    ensures var first := x % 16 + v % 16 * 16;
            && first / 16 + 16 * (v / 16 % 0x100) == v
            && first % 16 == x % 16
  {
  }

  lemma EntrySet(t: Table, i: word, v: word)
    requires i <= 170 && v < 0x1000
    ensures Entry(SetEntry(t, i, v), i) == v
  {
    hide Or;
    Groups(i);
    if i % 2 == 0 {
      EvenBytes(v);
    } else {
      OddBytes(t[i + i / 2], v);
    }
  }

  lemma EntryKept(t: Table, i: word, v: word, j: nat)
    requires i <= 170 && j <= 340 && v < 0x1000 && j != i && (i % 2 == 0 ==> j != i + 1)
    ensures Entry(SetEntry(t, i, v), j) == Entry(t, j)
  {
    hide Or, EntryOffset;
    Groups(i);
    Groups(j);
    var p, q := i / 2, j / 2;
    if p == q {
      assert i == 2 * p + 1 && j == 2 * p;
      OddBytes(t[3 * p + 1], v);
    } else if p < q {
      assert 3 * p + 3 <= 3 * q;
    } else {
      assert 3 * q + 3 <= 3 * p;
    }
  }

  /** Writing an even entry overwrites the low four bits of the next entry. */
  lemma EntrySpill(t: Table, i: word, v: word)
    requires i <= 170 && v < 0x1000 && i % 2 == 0
    ensures Entry(SetEntry(t, i, v), i + 1) == Entry(t, i + 1) / 16 * 16 + v / 16 % 16
  {
    hide Or, EntryOffset;
    var p := i / 2;
    Groups(i);
    assert (i + 1) % 2 == 1 && (i + 1) / 2 == p;
    EvenBytes(v);
    var second: nat, third: nat := t[3 * p + 1], t[3 * p + 2];
    assert Entry(t, i + 1) == second / 16 + 16 * third;
    assert Entry(t, i + 1) / 16 == third;
  }

  // Chains

  /** Following the entries from `start` visits the given number of consecutive clusters and then
      finds the end of the chain. */
  ghost predicate Chained(t: Table, start: nat, length: nat)
    requires start + length <= 171
  {
    forall j :: start <= j < start + length ==>
      Entry(t, j) == if j == start + length - 1 then END_OF_CHAIN else j + 1
  }

  /** What writing a chain does to the other entries: nothing, except that a chain that ends in an
      even entry leaves ones in the low bits of the entry after it. */
  ghost predicate Spilled(t: Table, r: Table, start: nat, length: nat)
    requires start + length <= 171
  {
    forall j :: 0 <= j <= 340 && !(start <= j < start + length) ==>
      Entry(r, j) == if 0 < length && j == start + length && j % 2 == 1 then Entry(t, j) / 16 * 16 + 15 else Entry(t, j)
  }

  lemma {:induction false} SetChainEffect(t: Table, start: word, from: nat, length: nat)
    requires from <= length && start + length <= 171
    ensures Chained(SetChain(t, start, from, length), start + from, length - from)
    ensures Spilled(t, SetChain(t, start, from, length), start + from, length - from)
    decreases length - from
  {
    hide SetEntry, Entry;
    if from < length {
      var current: word := start + from;
      var next: word := if from == length - 1 then END_OF_CHAIN else current + 1;
      var u := SetEntry(t, current, next);
      var r := SetChain(t, start, from, length);
      assert r == SetChain(u, start, from + 1, length);
      SetChainEffect(u, start, from + 1, length);
      EntrySet(t, current, next);
      assert Entry(u, current) == next;
      assert Entry(r, current) == next;
      forall j | 0 <= j <= 340 && j != current && (current % 2 == 0 ==> j != current + 1)
        ensures Entry(u, j) == Entry(t, j)
      {
        EntryKept(t, current, next, j);
      }
      if current % 2 == 0 {
        EntrySpill(t, current, next);
      }
    }
  }

  /** The EEPROM file's chain is written last; it damages the flash file's chain when it ends just
      before it on an even cluster, unless that chain is a single cluster. */
  predicate Damaging(flashStart: nat, flashClusters: nat, eepromStart: nat, eepromClusters: nat) {
    eepromStart + eepromClusters == flashStart && flashStart % 2 == 1 && flashClusters > 1
  }

  /** For files on disjoint clusters, the host finds both files by following the table exactly when
      the spill of the EEPROM chain does not hit the flash chain. */
  lemma ChainsExactly(flashStart: word, flashClusters: nat, eepromStart: word, eepromClusters: nat)
    requires 2 <= flashStart && 0 < flashClusters && flashStart + flashClusters <= 171
    requires 2 <= eepromStart && 0 < eepromClusters && eepromStart + eepromClusters <= 171
    requires flashStart + flashClusters <= eepromStart || eepromStart + eepromClusters <= flashStart
    ensures var t := MakeTable(flashStart, flashClusters, eepromStart, eepromClusters);
            && Chained(t, eepromStart, eepromClusters)
            && (Chained(t, flashStart, flashClusters)
                <==> !Damaging(flashStart, flashClusters, eepromStart, eepromClusters))
            && (Damaging(flashStart, flashClusters, eepromStart, eepromClusters)
                ==> Entry(t, flashStart) == (flashStart + 1) / 16 * 16 + 15)
  {
    hide SetEntry, Entry, SetChain;
    var reserved := SetEntry(SetEntry(Zeros(SECTOR_SIZE), 0, 0xFF8), 1, 0xFFF);
    var u := SetChain(reserved, flashStart, 0, flashClusters);
    var t := SetChain(u, eepromStart, 0, eepromClusters);
    SetChainEffect(reserved, flashStart, 0, flashClusters);
    SetChainEffect(u, eepromStart, 0, eepromClusters);
    if Damaging(flashStart, flashClusters, eepromStart, eepromClusters) {
      assert Entry(t, flashStart) == (flashStart + 1) / 16 * 16 + 15;
    }
  }

  lemma ReservedEntries(flashStart: word, flashClusters: nat, eepromStart: word, eepromClusters: nat)
    requires 2 <= flashStart && flashStart + flashClusters <= 171
    requires 2 <= eepromStart && eepromStart + eepromClusters <= 171
    ensures var t := MakeTable(flashStart, flashClusters, eepromStart, eepromClusters);
            Entry(t, 0) == 0xFF8 && Entry(t, 1) == 0xFFF
  {
    hide SetEntry, Entry, SetChain;
    var zero := Zeros(SECTOR_SIZE);
    var first := SetEntry(zero, 0, 0xFF8);
    var reserved := SetEntry(first, 1, 0xFFF);
    EntrySet(zero, 0, 0xFF8);
    EntryKept(first, 1, 0xFFF, 0);
    EntrySet(first, 1, 0xFFF);
    SetChainEffect(reserved, flashStart, 0, flashClusters);
    SetChainEffect(SetChain(reserved, flashStart, 0, flashClusters), eepromStart, 0, eepromClusters);
  }

  /** With a one-cluster EEPROM file in front, the flash file of clusters 3 and 4 seems to go on at
      cluster 15. */
  lemma DamagedChain()
    ensures var t := MakeTable(3, 2, 2, 1);
            Entry(t, 3) == 15 && Chained(t, 2, 1) && !Chained(t, 3, 2)
  {
    hide MakeTable, Entry, Chained;
    ChainsExactly(3, 2, 2, 1);
  }
}
