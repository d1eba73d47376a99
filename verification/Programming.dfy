/** What correct self-programming leaves in flash, and the erase-fill-commit
    sequence that all the bootloaders use to get there. */
module Programming {
  import opened Chips

  lemma SpliceOver<T>(s: seq<T>, at: nat, d1: seq<T>, d2: seq<T>)
    requires at + |d1| <= |s| && |d1| == |d2|
    ensures Splice(Splice(s, at, d1), at, d2) == Splice(s, at, d2)
    ensures Splice(s, at, d1)[at..at + |d1|] == d1
  {
  }

  lemma SpliceNext<T>(s: seq<T>, at: nat, d1: seq<T>, d2: seq<T>)
    requires at + |d1| + |d2| <= |s|
    ensures Splice(Splice(s, at, d1), at + |d1|, d2) == Splice(s, at, d1 + d2)
  {
  }

  lemma SpliceNone<T>(s: seq<T>, at: nat)
    requires at <= |s|
    ensures Splice(s, at, []) == s
  {
  }

  lemma SpliceAt<T>(s: seq<T>, at: nat, d: seq<T>, i: nat)
    requires at + |d| <= |s| && i < |s|
    ensures Splice(s, at, d)[i] == if at <= i < at + |d| then d[i - at] else s[i]
  {
  }

  /** Flash after `data` was programmed from address `start`: the rest of the
      pages touched is blank, every other page is as it was. */
  function Programmed(part: Part, flash: seq<byte>, start: nat, data: seq<byte>): (r: seq<byte>)
    requires part.Valid() && |flash| == part.flashSize && start + |data| <= |flash|
    ensures |r| == |flash|
  {
    var base, end := part.Base(start), start + |data|;
    part.PageEndBelow(end, part.flashSize);
    Splice(flash, base, Blanks(start - base) + data + Blanks(part.PageEnd(end) - end))
  }

  /** The loop that loads consecutive words into the page buffer. */
  function FillAll(c: Chip, a: nat, data: seq<byte>): (r: Chip)
    requires c.Valid() && |data| % 2 == 0
    ensures r.Valid() && r == c.(buffer := r.buffer)
    decreases |data|
  {
    if data == [] then c
    else FillAll(c.Fill(a, data[0], data[1]), a + 2, data[2..])
  }

  lemma {:induction false} FillAllBuffer(c: Chip, a: nat, data: seq<byte>)
    requires c.Valid() && |data| % 2 == 0 && a % 2 == 0
    requires c.part.Offset(a) + |data| <= c.part.pageSize
    ensures FillAll(c, a, data).buffer == Splice(c.buffer, c.part.Offset(a), data)
    decreases |data|
  {
    hide Part.Offset;
    var o := c.part.Offset(a);
    if data == [] {
      assert Splice(c.buffer, o, data) == c.buffer;
    } else if |data| == 2 {
      assert data[2..] == [] && data == [data[0], data[1]];
    } else {
      hide Splice;
      c.part.OffsetAdd(a, 2);
      FillAllBuffer(c.Fill(a, data[0], data[1]), a + 2, data[2..]);
      SpliceNext(c.buffer, o, [data[0], data[1]], data[2..]);
      assert data == [data[0], data[1]] + data[2..];
    }
  }

  lemma {:induction false} FillAllConcat(c: Chip, a: nat, d1: seq<byte>, d2: seq<byte>)
    requires c.Valid() && |d1| % 2 == 0 && |d2| % 2 == 0
    ensures FillAll(c, a, d1 + d2) == FillAll(FillAll(c, a, d1), a + |d1|, d2)
    decreases |d1|
  {
    if d1 == [] {
      assert d1 + d2 == d2;
    } else {
      assert (d1 + d2)[2..] == d1[2..] + d2;
      FillAllConcat(c.Fill(a, d1[0], d1[1]), a + 2, d1[2..], d2);
    }
  }

  /** Erasing a page and committing a buffer to it copies the buffer there. */
  lemma CommitErased(c: Chip, a: nat, buffer: seq<byte>)
    requires c.Valid() && |buffer| == c.part.pageSize
    ensures c.Erase(a).(buffer := buffer).Commit(a)
            == c.(flash := Splice(c.flash, c.part.Page(a), buffer), buffer := Blanks(|c.buffer|))
  {
    hide Splice, Blanks;
    SpliceOver(c.flash, c.part.Page(a), Blanks(c.part.pageSize), buffer);
  }

  /** Loading words into an erased page and committing it programs the page. */
  lemma ErasedPageProgrammed(c: Chip, a: nat, data: seq<byte>)
    requires c.Valid() && |data| % 2 == 0 && a % 2 == 0 && a < c.part.flashSize
    requires 0 < |data| && c.part.Offset(a) + |data| <= c.part.pageSize
    requires c.BufferBlank() || |data| == c.part.pageSize
    ensures a + |data| <= c.part.flashSize
    ensures FillAll(c.Erase(a), a, data).Commit(a)
            == c.(flash := Programmed(c.part, c.flash, a, data), buffer := Blanks(|c.buffer|))
  {
    hide Splice, Blanks, Part.Offset, FillAll, Chip.Commit;
    var o := c.part.Offset(a);
    c.part.PageEndInside(a, |data|);
    c.part.BaseBelow(a, c.part.flashSize);
    FillAllBuffer(c.Erase(a), a, data);
    BlankSplice(c.buffer, o, data);
    CommitErased(c, a, Splice(c.buffer, o, data));
  }

  lemma BlankSplice(buffer: seq<byte>, o: nat, data: seq<byte>)
    requires o + |data| <= |buffer|
    requires buffer == Blanks(|buffer|) || |data| == |buffer|
    ensures Splice(buffer, o, data) == Blanks(o) + data + Blanks(|buffer| - o - |data|)
  {
  }

  /** Programming page after page is programming the concatenation. */
  lemma ProgrammedConcat(part: Part, flash: seq<byte>, start: nat, d1: seq<byte>, d2: seq<byte>)
    requires part.Valid() && |flash| == part.flashSize && start + |d1| + |d2| <= |flash|
    requires part.Aligned(start + |d1|)
    ensures Programmed(part, Programmed(part, flash, start, d1), start + |d1|, d2)
            == Programmed(part, flash, start, d1 + d2)
  {
    hide Splice, Part.Offset, Blanks;
    var base, end := part.Base(start), start + |d1| + |d2|;
    var b1, b2 := Blanks(start - base), Blanks(part.PageEnd(end) - end);
    part.PageEndBelow(end, part.flashSize);
    SpliceNext(flash, base, b1 + d1 + Blanks(0), Blanks(0) + d2 + b2);
    assert (b1 + d1 + Blanks(0)) + (Blanks(0) + d2 + b2) == b1 + (d1 + d2) + b2;
  }

  lemma ProgrammedWhole(part: Part, flash: seq<byte>, start: nat, data: seq<byte>)
    requires part.Valid() && |flash| == part.flashSize && start + |data| <= |flash|
    requires part.Aligned(start) && part.Aligned(start + |data|)
    ensures Programmed(part, flash, start, data) == Splice(flash, start, data)
  {
    assert Blanks(0) + data + Blanks(0) == data;
  }

  lemma ProgrammedData(part: Part, flash: seq<byte>, a: nat, data: seq<byte>)
    requires part.Valid() && |flash| == part.flashSize && a + |data| <= |flash|
    ensures Programmed(part, flash, a, data)[a..a + |data|] == data
  {
    hide Part.Offset;
    part.PageEndBelow(a + |data|, part.flashSize);
  }

  /** The memory once `data` has been streamed word by word to the page boundary `at`: whole pages
      are programmed, and the page in progress is erased with its words in the page buffer. */
  function Streamed(c: Chip, at: nat, data: seq<byte>): (r: Chip)
    requires c.Valid() && c.part.Aligned(at) && at + |data| <= c.part.flashSize && |data| % 2 == 0
    ensures r.Valid() && r == c.(flash := r.flash, buffer := r.buffer)
  {
    c.part.OffsetFrom(at, |data|);
    c.part.OffsetParity(|data|);
    var k := |data| - c.part.Offset(at + |data|);
    var whole := c.(flash := Splice(c.flash, at, data[..k]), buffer := if k == 0 then c.buffer else Blanks(|c.buffer|));
    if k == |data| then whole else FillAll(whole.Erase(at + k), at + k, data[k..])
  }

  lemma FillOne(c: Chip, a: nat, lo: byte, hi: byte)
    requires c.Valid()
    ensures FillAll(c, a, [lo, hi]) == c.Fill(a, lo, hi)
  {
    assert [lo, hi][2..] == [];
  }

  lemma FillNone(c: Chip, a: nat)
    requires c.Valid()
    ensures FillAll(c, a, []) == c
  {
  }

  /** A page whose every word is loaded after its erasure takes over those words. */
  lemma WholePage(c: Chip, a: nat, page: seq<byte>)
    requires c.Valid() && c.part.Aligned(a) && a < c.part.flashSize && a % 2 == 0 && |page| == c.part.pageSize
    ensures a + |page| <= c.part.flashSize
    ensures FillAll(c.Erase(a), a, page).Commit(a) == c.(flash := Splice(c.flash, a, page), buffer := Blanks(|c.buffer|))
  {
    hide Splice, Blanks, Part.Offset, FillAll, Chip.Commit;
    c.part.BaseBelow(a, c.part.flashSize);
    FillAllBuffer(c.Erase(a), a, page);
    assert Splice(c.buffer, 0, page) == page by { SpliceAll(c.buffer, page); }
    CommitErased(c, a, page);
  }

  lemma SpliceAll<T>(s: seq<T>, d: seq<T>)
    requires |d| == |s|
    ensures Splice(s, 0, d) == d
  {
  }

  /** Streaming one more word: a new page is erased first, and a full page is committed. */
  lemma StreamedWord(c: Chip, at: nat, data: seq<byte>, lo: byte, hi: byte)
    requires c.Valid() && c.part.Aligned(at) && at % 2 == 0 && at + |data| + 2 <= c.part.flashSize && |data| % 2 == 0
    ensures var part, a := c.part, at + |data|;
            var e := if part.Aligned(a) then Streamed(c, at, data).Erase(a) else Streamed(c, at, data);
            var f := e.Fill(a, lo, hi);
            Streamed(c, at, data + [lo, hi]) == if part.Aligned(a + 2) then f.Commit(part.Base(a)) else f
  {
    hide Splice, FillAll, Part.Offset, Chip.Erase, Chip.Fill, Chip.Commit, Blanks;
    var part, a, more := c.part, at + |data|, data + [lo, hi];
    part.OffsetFrom(at, |data|);
    part.OffsetFrom(at, |more|);
    var o := part.Offset(a);
    var k := |data| - o;
    assert k % 2 == 0 && (at + k) % 2 == 0 && o % 2 == 0 && o + 2 <= part.pageSize by {
      part.WordFits(|data|);
      EvenDifference(|data|, o);
      EvenSumOf(at, k);
    }
    var whole := c.(flash := Splice(c.flash, at, data[..k]), buffer := if k == 0 then c.buffer else Blanks(|c.buffer|));
    var tail := data[k..];
    assert more[..k] == data[..k] && more[k..] == tail + [lo, hi];
    FillAllConcat(whole.Erase(at + k), at + k, tail, [lo, hi]);
    FillOne(FillAll(whole.Erase(at + k), at + k, tail), a, lo, hi);
    FillNone(whole.Erase(at + k), at + k);
    if o + 2 < part.pageSize {
      part.OffsetAdd(a, 2);
    } else {
      part.OffsetNext(a, 2);
      part.BaseAligned(a);
      assert more == data[..k] + (tail + [lo, hi]) && more[..|more|] == more;
      WholePage(whole, at + k, tail + [lo, hi]);
      SpliceNext(c.flash, at, data[..k], tail + [lo, hi]);
    }
  }

  /** The memory when the word behind `data` is about to be loaded: a page that begins there was erased. */
  function Loading(c: Chip, at: nat, data: seq<byte>): (e: Chip)
    requires c.Valid() && c.part.Aligned(at) && at + |data| < c.part.flashSize && |data| % 2 == 0
    ensures e.Valid() && e.part == c.part && |e.flash| == c.part.flashSize
  {
    var t, a := Streamed(c, at, data), at + |data|;
    if c.part.Aligned(a) then t.Erase(a) else t
  }

  /** Whenever a word is loaded, its page is blank in flash: it was erased, and nothing was committed
      to it since. */
  lemma StreamedErased(c: Chip, at: nat, data: seq<byte>)
    requires c.Valid() && c.part.Aligned(at) && at % 2 == 0 && at + |data| < c.part.flashSize && |data| % 2 == 0
    ensures var part, a, e := c.part, at + |data|, Loading(c, at, data);
            && part.Base(a) + part.pageSize <= part.flashSize == |e.flash|
            && e.flash[part.Base(a)..part.Base(a) + part.pageSize] == Blanks(part.pageSize)
  {
    hide Splice, FillAll, Part.Offset, Chip.Fill, Blanks;
    var part, a := c.part, at + |data|;
    part.OffsetFrom(at, |data|);
    part.BaseBelow(a, part.flashSize);
    part.BaseAligned(a);
    var k := |data| - part.Offset(a);
    var whole := c.(flash := Splice(c.flash, at, data[..k]), buffer := if k == 0 then c.buffer else Blanks(|c.buffer|));
    var d := if part.Aligned(a) then Streamed(c, at, data) else whole;
    assert part.Base(a) == at + k;
    part.BaseBelow(at + k, part.flashSize);
    SpliceOver(d.flash, part.Base(a), Blanks(part.pageSize), Blanks(part.pageSize));
  }

  lemma DoubleEven(k: nat)
    ensures 2 * k % 2 == 0
  {
  }

  lemma EvenDifference(x: nat, y: nat)
    requires x % 2 == 0 && y % 2 == 0 && y <= x
    ensures (x - y) % 2 == 0
  {
  }

  lemma EvenSumOf(x: nat, y: nat)
    requires x % 2 == 0 && y % 2 == 0
    ensures (x + y) % 2 == 0
  {
  }

  lemma EepromByteWritten(c: Chip, a: nat, b: byte)
    requires c.Valid() && a < c.part.eepromSize
    ensures c.WriteEeprom(a, b) == c.(eeprom := Splice(c.eeprom, a, [b])) && c.WriteEeprom(a, b).eeprom == c.eeprom[a := b]
  {
    c.part.WrapInside(a);
  }

  // Erasing the application section

  /** The application section blank; whatever the page buffer held went into the first page. */
  function ErasedApplication(c: Chip): (r: Chip)
    requires c.Valid()
    ensures r.Valid()
  {
    c.part.BaseBelow(0, c.part.bootStart);
    c.(flash := c.buffer + Blanks(c.part.bootStart - c.part.pageSize) + c.flash[c.part.bootStart..],
       buffer := Blanks(c.part.pageSize))
  }

  /** The memory once the pages below `end` have been erased and committed. */
  function Wiped(c: Chip, end: nat): (r: Chip)
    requires c.Valid() && (end == 0 || c.part.pageSize <= end <= c.part.flashSize)
    ensures r.Valid() && r.part == c.part
  {
    if end == 0 then c
    else c.(flash := Splice(c.flash, 0, c.buffer + Blanks(end - c.part.pageSize)), buffer := Blanks(c.part.pageSize))
  }

  lemma WipeStep(c: Chip, at: nat)
    requires c.Valid() && c.part.Aligned(at) && at < c.part.bootStart && (at == 0 || c.part.pageSize <= at)
    ensures at + c.part.pageSize <= c.part.bootStart && c.part.Aligned(at + c.part.pageSize)
    ensures Wiped(c, at).Erase(at).Commit(at) == Wiped(c, at + c.part.pageSize)
  {
    hide Chip.Erase, Chip.Commit, Part.Offset, Splice, Blanks;
    var part, w := c.part, Wiped(c, at);
    part.BaseBelow(at, part.bootStart);
    part.OffsetNext(at, part.pageSize);
    CommitErased(w, at, w.buffer);
    if at == 0 {
      assert c.buffer + Blanks(0) == c.buffer;
    } else {
      SpliceNext(c.flash, 0, c.buffer + Blanks(at - part.pageSize), Blanks(part.pageSize));
      BlanksConcat(at - part.pageSize, part.pageSize);
      assert (c.buffer + Blanks(at - part.pageSize)) + Blanks(part.pageSize) == c.buffer + Blanks(at);
    }
  }

  lemma BlanksConcat(m: nat, n: nat)
    ensures Blanks(m) + Blanks(n) == Blanks(m + n)
  {
  }

  lemma WipedAll(c: Chip)
    requires c.Valid()
    ensures c.part.pageSize <= c.part.bootStart
    ensures Wiped(c, c.part.bootStart) == ErasedApplication(c)
  {
    c.part.BaseBelow(0, c.part.bootStart);
  }

  lemma WipedNone(c: Chip)
    requires c.Valid()
    ensures Wiped(c, 0) == c && c.part.Aligned(0)
  {
  }
}
