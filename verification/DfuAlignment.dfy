/** The exact condition on the address range under which a DFU download programs every firmware. */
module DfuAlignment {
  import opened Chips
  import opened Programming
  import opened Endpoints
  import opened Dfu
  import opened DfuTransfer

  lemma {:induction false} BaseMonotone(part: Part, a: nat, b: nat)
    requires part.Valid() && a <= b
    ensures part.Base(a) <= part.Base(b)
  {
    if a >= part.pageSize {
      BaseMonotone(part, a - part.pageSize, b - part.pageSize);
    }
  }

  lemma {:induction false} OffsetDistinct(part: Part, a: nat, k: nat)
    requires part.Valid() && 0 < k < part.pageSize
    ensures part.Offset(a + k) != part.Offset(a)
  {
    if a >= part.pageSize {
      OffsetDistinct(part, a - part.pageSize, k);
    }
  }

  lemma BaseNextPage(part: Part, a: nat)
    requires part.Valid()
    ensures part.Base(a + part.pageSize) == part.Base(a) + part.pageSize
  {
  }

  /** Committing or erasing a page leaves lower addresses alone. */
  lemma LowerKept(c: Chip, page: nat, i: nat)
    requires c.Valid() && page < c.part.flashSize && i < c.part.Base(page)
    ensures c.Erase(page).flash[i] == c.flash[i] && c.Commit(page).flash[i] == c.flash[i]
  {
    hide Splice, AndAll, Part.Offset;
    var p := c.part.Page(page);
    SpliceAt(c.flash, p, Blanks(c.part.pageSize), i);
    SpliceAt(c.flash, p, AndAll(c.flash[p..p + c.part.pageSize], c.buffer), i);
  }

  /** A download changes nothing below the page it is at. */
  lemma {:induction false} LaterPages(c: Chip, rx: Rx, addr: nat, page: nat, filled: nat, remaining: nat, i: nat)
    requires c.Valid() && page <= addr && addr + 2 * remaining <= c.part.flashSize && i < c.part.Base(page)
    ensures i < |c.flash|
    ensures ProgramWords(c, rx, addr, page, filled, remaining).chip.part == c.part
    ensures ProgramWords(c, rx, addr, page, filled, remaining).chip.flash[i] == c.flash[i]
    decreases remaining
  {
    hide Chip.Fill, Chip.Erase, Chip.Commit, Part.Offset, Rx.Refilled, Rx.Head, Rx.Advance;
    if remaining != 0 && !rx.Exhausted() {
      var r := rx.Refilled();
      var f, r' := c.Fill(addr, r.Head(), r.Advance().Head()), r.Advance().Advance();
      if filled + 1 == c.part.pageSize / 2 || remaining == 1 {
        LowerKept(f, page, i);
        if remaining != 1 {
          BaseMonotone(c.part, page, addr + 2);
          LowerKept(f.Commit(page), addr + 2, i);
          LaterPages(f.Commit(page).Erase(addr + 2), r', addr + 2, addr + 2, 0, remaining - 1, i);
        }
      } else {
        LaterPages(f, r', addr + 2, page, filled + 1, remaining - 1, i);
      }
    }
  }

  lemma CommitAt(c: Chip, a: nat)
    requires c.Valid() && a < c.part.flashSize
    ensures c.Commit(a).flash[a] == And(c.flash[a], c.buffer[c.part.Offset(a)])
  {
    hide And, Part.Offset, Splice, AndAll;
    var p, n := c.part.Base(a), c.part.pageSize;
    BaseAbove(c.part, a);
    c.part.BaseBelow(a, c.part.flashSize);
    var cells := c.flash[p..p + n];
    assert cells[a - p] == c.flash[a];
    AndAllAt(cells, c.buffer, a - p);
    SpliceAt(c.flash, p, AndAll(cells, c.buffer), a);
    assert c.Commit(a).flash == Splice(c.flash, p, AndAll(cells, c.buffer));
  }

  lemma AndAllAt(cells: seq<byte>, data: seq<byte>, i: nat)
    requires |cells| == |data| && i < |data|
    ensures AndAll(cells, data)[i] == And(cells[i], data[i])
  {
  }

  lemma FillAt(c: Chip, a: nat, lo: byte, hi: byte, o: nat)
    requires c.Valid() && a % 2 == 0 && o % 2 == 0 && o < c.part.pageSize
    ensures c.Fill(a, lo, hi).buffer[o] == if o == c.part.Offset(a) then lo else c.buffer[o]
  {
    c.part.OffsetParity(a);
    hide Part.Offset;
  }

  /** The first word of a download is the one that reaches its first address, if it is committed. */
  lemma {:induction false} FirstByte(c: Chip, rx: Rx, a: nat, filled: nat, remaining: nat, x: byte)
    requires c.Valid() && a % 2 == 0 && filled < c.part.pageSize / 2
    requires a < c.part.flashSize && a + 2 * filled + 2 * remaining <= c.part.flashSize
    requires c.flash[a] == BLANK
    requires if filled == 0 then !rx.Exhausted() ==> rx.Refilled().Head() == x
             else c.buffer[c.part.Offset(a)] == x
    ensures var p := ProgramWords(c, rx, a + 2 * filled, a, filled, remaining);
            p.chip.part == c.part && (p.chip.flash[a] == BLANK || p.chip.flash[a] == x)
    decreases remaining
  {
    hide Chip.Fill, Chip.Erase, Chip.Commit, Part.Offset, Rx.Refilled, Rx.Head, Rx.Advance, And, Part.Base;
    if remaining != 0 && !rx.Exhausted() {
      var part, addr, r := c.part, a + 2 * filled, rx.Refilled();
      var f, r' := c.Fill(addr, r.Head(), r.Advance().Head()), r.Advance().Advance();
      part.OffsetParity(a);
      FillAt(c, addr, r.Head(), r.Advance().Head(), part.Offset(a));
      if filled != 0 {
        OffsetDistinct(part, a, 2 * filled);
      }
      assert f.buffer[part.Offset(a)] == x;
      if filled + 1 == part.pageSize / 2 || remaining == 1 {
        CommitAt(f, a);
        if remaining != 1 {
          BaseNextPage(part, a);
          BaseAbove(part, a);
          LowerKept(f.Commit(a), addr + 2, a);
          LaterPages(f.Commit(a).Erase(addr + 2), r', addr + 2, addr + 2, 0, remaining - 1, a);
        }
      } else {
        FirstByte(f, r', a, filled + 1, remaining - 1, x);
      }
    }
  }

  lemma BaseAbove(part: Part, a: nat)
    requires part.Valid()
    ensures part.Base(a) <= a < part.Base(a) + part.pageSize
  {
  }

  // Ranges that do not start on a packet boundary

  lemma MisalignedRx(t: Transfer)
    requires t.Valid() && t.start % PACKET_SIZE != 0
    ensures !t.FirmwareRx().Exhausted()
    ensures t.FirmwareRx().Refilled().Head() == t.align[|t.align| - 1]
  {
    hide Transfer.FirmwareRx, Packets, Flatten;
    FirmwareRead(t);
    var rx, r := t.FirmwareRx(), |t.align|;
    assert rx.bank[0] == rx.Stream()[0] == t.Rest()[r - 1];
  }

  /** After the download the addressed range of flash holds the payload. */
  ghost predicate Held(s: State, t: Transfer)
    requires s.Valid() && t.Valid() && t.Address(s) + |t.payload| <= s.chip.part.flashSize
  {
    var c, a := Handle(s, t.Request()).state.chip, t.Address(s);
    |c.flash| == s.chip.part.flashSize && c.flash[a..a + |t.payload|] == t.payload
  }

  /** Flash holds exactly the payload after the download: the range holds it, the rest of the pages it
      touches is blank and all other pages are as they were. */
  ghost predicate Right(s: State, t: Transfer)
    requires s.Valid() && t.Valid() && t.Address(s) + |t.payload| <= s.chip.part.flashSize
  {
    Handle(s, t.Request()).state.chip.flash == Programmed(s.chip.part, s.chip.flash, t.Address(s), t.payload)
  }

  lemma RightHeld(s: State, t: Transfer)
    requires s.Valid() && t.Valid() && t.Address(s) + |t.payload| <= s.chip.part.flashSize && Right(s, t)
    ensures Held(s, t)
  {
    hide Handle, Programmed;
    ProgrammedData(s.chip.part, s.chip.flash, t.Address(s), t.payload);
  }

  lemma ErasedAt(c: Chip, a: nat)
    requires c.Valid() && a < c.part.flashSize
    ensures c.Erase(a).flash[a] == BLANK
  {
    hide Part.Offset;
    BaseAbove(c.part, a);
  }

  /** The alignment bytes are dropped one short, so at an even start the last one lands at the first
      address. */
  lemma MisalignedWrong(s: State, t: Transfer)
    requires s.Valid() && !s.isSecure && !s.waitForExit && t.Valid() && t.memory == FLASH
    requires t.Address(s) + |t.payload| <= s.chip.part.flashSize && t.start % PACKET_SIZE != 0 && t.start % 2 == 0
    requires t.payload[0] != BLANK && t.payload[0] != t.align[|t.align| - 1]
    ensures !Held(s, t)
  {
    hide Handle, ProgramWords, Chip.Erase, Transfer.Request, Transfer.Command, Transfer.FirmwareRx;
    var a := t.Address(s);
    EvenSum(0x8000 * s.flash64KPage, t.start);
    DownloadHandled(s, t);
    MisalignedRx(t);
    ErasedAt(s.chip, a);
    FirstByte(s.chip.Erase(a), t.FirmwareRx(), a, 0, |t.payload| / 2, t.align[|t.align| - 1]);
    var flash := Handle(s, t.Request()).state.chip.flash;
    if |flash| == s.chip.part.flashSize {
      assert flash[a..a + |t.payload|][0] == flash[a] != t.payload[0];
    }
  }

  // Ranges whose last byte is never read

  ghost predicate SamePackets(ps: seq<Packet>, qs: seq<Packet>) {
    |ps| == |qs| && (ps != [] ==> |ps[0]| == |qs[0]| && SamePackets(ps[1..], qs[1..]))
  }

  /** Packets of the same sizes that carry the same first `n` bytes. */
  ghost predicate Agree(p: Rx, q: Rx, n: nat) {
    && |p.bank| == |q.bank| && SamePackets(p.queue, q.queue) && |p.Stream()| == |q.Stream()|
    && forall i :: 0 <= i < n && i < |p.Stream()| ==> p.Stream()[i] == q.Stream()[i]
  }

  lemma RefilledAgree(p: Rx, q: Rx, n: nat)
    requires Agree(p, q, n) && !p.Exhausted()
    ensures !q.Exhausted() && Agree(p.Refilled(), q.Refilled(), n)
  {
    if p.bank == [] {
      assert p.Next().Stream() == p.Stream() && q.Next().Stream() == q.Stream();
    }
  }

  lemma AdvanceAgree(p: Rx, q: Rx, n: nat)
    requires Agree(p, q, n) && 0 < n
    ensures p.Head() == q.Head() && Agree(p.Advance(), q.Advance(), n - 1)
  {
    hide Flatten, SamePackets;
    if p.bank != [] {
      assert p.Head() == p.Stream()[0] && q.Head() == q.Stream()[0];
      assert p.Advance().Stream() == p.Stream()[1..] && q.Advance().Stream() == q.Stream()[1..];
    }
  }

  /** Programming words depends on nothing beyond their bytes. */
  lemma {:induction false} ProgramWordsAgree(c: Chip, p: Rx, q: Rx, addr: nat, page: nat, filled: nat, remaining: nat)
    requires c.Valid() && Agree(p, q, 2 * remaining)
    ensures ProgramWords(c, p, addr, page, filled, remaining).chip == ProgramWords(c, q, addr, page, filled, remaining).chip
    decreases remaining
  {
    hide Agree, Chip.Fill, Chip.Erase, Chip.Commit, Rx.Refilled, Rx.Head, Rx.Advance, Rx.Exhausted;
    assert p.Exhausted() == q.Exhausted() by { ExhaustedAgree(p, q, 2 * remaining); }
    if remaining != 0 && !p.Exhausted() {
      var n := 2 * remaining;
      RefilledAgree(p, q, n);
      var p1, q1 := p.Refilled(), q.Refilled();
      AdvanceAgree(p1, q1, n);
      AdvanceAgree(p1.Advance(), q1.Advance(), n - 1);
      var p2, q2 := p1.Advance().Advance(), q1.Advance().Advance();
      var f := c.Fill(addr, p1.Head(), p1.Advance().Head());
      if filled + 1 == c.part.pageSize / 2 || remaining == 1 {
        if remaining != 1 {
          ProgramWordsAgree(f.Commit(page).Erase(addr + 2), p2, q2, addr + 2, addr + 2, 0, remaining - 1);
        }
      } else {
        ProgramWordsAgree(f, p2, q2, addr + 2, page, filled + 1, remaining - 1);
      }
    }
  }

  lemma ExhaustedAgree(p: Rx, q: Rx, n: nat)
    requires Agree(p, q, n)
    ensures p.Exhausted() == q.Exhausted()
  {
  }

  lemma {:induction false} PacketsSame(size: nat, b1: seq<byte>, b2: seq<byte>)
    requires 0 < size && |b1| == |b2|
    ensures SamePackets(Packets(size, b1), Packets(size, b2))
  {
    if |b1| <= size {
      assert [b1][1..] == [] && [b2][1..] == [];
    } else {
      PacketsSame(size, b1[size..], b2[size..]);
      assert Packets(size, b1)[1..] == Packets(size, b1[size..]) && Packets(size, b2)[1..] == Packets(size, b2[size..]);
    }
  }

  lemma FirmwareAgree(t: Transfer, u: Transfer, n: nat)
    requires t.Valid() && n < |t.payload| && u.Valid() && |u.payload| == |t.payload|
    requires u == t.(payload := u.payload) && u.payload[..n] == t.payload[..n]
    ensures Agree(t.FirmwareRx(), u.FirmwareRx(), if t.start % PACKET_SIZE == 0 then n else n + 1)
  {
    hide Transfer.FirmwareRx, Packets, Rx.Stream;
    var r := |t.align|;
    FirmwareRead(t);
    FirmwareRead(u);
    PacketsSame(PACKET_SIZE, t.Rest(), u.Rest());
    var q, v := Packets(PACKET_SIZE, t.Rest()), Packets(PACKET_SIZE, u.Rest());
    assert t.Rest()[..r + n] == t.align + t.payload[..n] == u.Rest()[..r + n];
  }

  /** A download reads its payload in whole words, and off a packet boundary starts one byte early: the
      last byte of an odd length or of a range off a packet boundary does not reach flash at all. */
  lemma LastByteUnread(s: State, t: Transfer, x: byte)
    requires s.Valid() && !s.isSecure && !s.waitForExit && t.Valid() && t.memory == FLASH
    requires t.start % PACKET_SIZE != 0 || |t.payload| % 2 == 1
    ensures var u := t.(payload := t.payload[..|t.payload| - 1] + [x]);
            Handle(s, u.Request()).state.chip == Handle(s, t.Request()).state.chip
  {
    hide Handle, ProgramWords, Chip.Erase, Transfer.Request, Transfer.Command, Transfer.FirmwareRx, Agree;
    var n, a := |t.payload|, t.Address(s);
    var u := t.(payload := t.payload[..n - 1] + [x]);
    assert u.payload[..n - 1] == t.payload[..n - 1];
    DownloadHandled(s, t);
    DownloadHandled(s, u);
    FirmwareAgree(t, u, n - 1);
    AgreeLess(t.FirmwareRx(), u.FirmwareRx(), if t.start % PACKET_SIZE == 0 then n - 1 else n, 2 * (n / 2));
    ProgramWordsAgree(s.chip.Erase(a), t.FirmwareRx(), u.FirmwareRx(), a, a, 0, n / 2);
  }

  lemma AgreeLess(p: Rx, q: Rx, n: nat, m: nat)
    requires Agree(p, q, n) && m <= n
    ensures Agree(p, q, m)
  {
  }

  lemma UnreadWrong(s: State, t: Transfer)
    requires s.Valid() && !s.isSecure && !s.waitForExit && t.Valid() && t.memory == FLASH
    requires t.Address(s) + |t.payload| <= s.chip.part.flashSize
    requires t.start % PACKET_SIZE != 0 || |t.payload| % 2 == 1
    ensures exists payload: seq<byte> :: |payload| == |t.payload| && !Held(s, t.(payload := payload))
  {
    hide Handle, Transfer.Request;
    var n, a := |t.payload|, t.Address(s);
    var x: byte := if t.payload[n - 1] == 0 then 1 else 0;
    var other := t.payload[..n - 1] + [x];
    var u := t.(payload := other);
    LastByteUnread(s, t, x);
    assert t.(payload := t.payload) == t;
    if Held(s, t) {
      assert other[n - 1] != t.payload[n - 1];
      assert |other| == |t.payload| && !Held(s, t.(payload := other));
    }
  }

  // Ranges that cross a page boundary without starting on one

  /** Words beyond the end of the page wrap to its start in the page buffer. */
  lemma WrappedFill(c: Chip, a: nat, data: seq<byte>)
    requires c.Valid() && a % 2 == 0 && |data| % 2 == 0 && c.part.pageSize - c.part.Offset(a) < |data| <= c.part.pageSize
    ensures FillAll(c, a, data).buffer[0] == data[c.part.pageSize - c.part.Offset(a)]
  {
    hide FillAll, Part.Offset, Splice;
    var q := c.part.pageSize - c.part.Offset(a);
    c.part.OffsetParity(a);
    c.part.OffsetNext(a, q);
    assert q % 2 == 0 && (a + q) % 2 == 0 && |data[q..]| % 2 == 0 by {
      EvenDifference(c.part.pageSize, c.part.Offset(a));
      EvenDifference(|data|, q);
      EvenSumOf(a, q);
    }
    assert data == data[..q] + data[q..];
    FillAllConcat(c, a, data[..q], data[q..]);
    var half := FillAll(c, a, data[..q]);
    FillAllBuffer(half, a + q, data[q..]);
    SpliceAt(half.buffer, 0, data[q..], 0);
    assert data[q..][0] == data[q];
  }

  lemma ProgrammedBefore(part: Part, flash: seq<byte>, a: nat, data: seq<byte>)
    requires part.Valid() && |flash| == part.flashSize && a + |data| <= |flash| && !part.Aligned(a)
    ensures Programmed(part, flash, a, data)[part.Base(a)] == BLANK
  {
    hide Part.Offset;
    part.PageEndBelow(a + |data|, part.flashSize);
  }

  /** The first page of a range that wraps receives the wrapped byte at its start. */
  lemma WrappedPage(c: Chip, rx: Rx, a: nat, remaining: nat)
    requires c.Valid() && EvenRx(rx) && 0 < remaining && 2 * remaining <= |rx.Stream()|
    requires a % 2 == 0 && a + 2 * remaining <= c.part.flashSize
    requires !c.part.Aligned(a) && c.part.Offset(a) + 2 * remaining > c.part.pageSize
    ensures var p := ProgramWords(c.Erase(a), rx, a, a, 0, remaining);
            && p.chip.part == c.part
            && p.chip.flash[c.part.Base(a)] == rx.Stream()[c.part.pageSize - c.part.Offset(a)]
  {
    hide Chip.Fill, Chip.Commit, Chip.Erase, FillAll, AfterWords, ProgramWords, Part.Offset, And, Rx.Stream, EvenRx;
    var part, s := c.part, rx.Stream();
    var n := if remaining <= part.pageSize / 2 then remaining else part.pageSize / 2;
    var b, e := part.Base(a), c.Erase(a);
    ProgramChunk(e, rx, a, remaining);
    var f := FillAll(e, a, s[..2 * n]);
    WrappedFill(e, a, s[..2 * n]);
    CommitBase(c, f, a);
    if n < remaining {
      BaseNextPage(part, a);
      LowerKept(f.Commit(a), a + 2 * n, b);
      LaterPages(f.Commit(a).Erase(a + 2 * n), AfterWords(rx, n), a + 2 * n, a + 2 * n, 0, remaining - n, b);
    }
  }

  lemma CommitBase(c: Chip, f: Chip, a: nat)
    requires c.Valid() && f.Valid() && f.part == c.part && f.flash == c.Erase(a).flash && a < c.part.flashSize
    ensures f.Commit(a).flash[c.part.Base(a)] == f.buffer[0]
  {
    hide Splice, Blanks;
    BaseAbove(c.part, a);
    CommitErased(c, a, f.buffer);
    assert f.Commit(a).flash == c.Erase(a).(buffer := f.buffer).Commit(a).flash;
    SpliceAt(c.flash, c.part.Base(a), f.buffer, c.part.Base(a));
  }

  /** The byte that belongs at the start of the second page never gets there: what is there then is old
      contents, blank, or a byte of the range a page further on. */
  lemma SecondPageStart(c: Chip, rx: Rx, a: nat, remaining: nat)
    requires c.Valid() && c.BufferBlank() && EvenRx(rx) && 0 < remaining && 2 * remaining <= |rx.Stream()|
    requires a % 2 == 0 && a + 2 * remaining <= c.part.flashSize
    requires !c.part.Aligned(a) && c.part.Offset(a) + 2 * remaining > c.part.pageSize
    ensures var p, b := ProgramWords(c.Erase(a), rx, a, a, 0, remaining), c.part.Base(a) + c.part.pageSize;
            var k := 2 * c.part.pageSize - c.part.Offset(a);
            && b < |p.chip.flash| == |c.flash|
            && (|| p.chip.flash[b] == c.flash[b] || p.chip.flash[b] == BLANK
                || (k < 2 * remaining && p.chip.flash[b] == rx.Stream()[k]))
  {
    hide Chip.Fill, Chip.Commit, Chip.Erase, FillAll, AfterWords, ProgramWords, Part.Offset, And, Rx.Stream, EvenRx;
    hide Programmed, Part.Base, Chip.BufferBlank, Blanks;
    var part, s := c.part, rx.Stream();
    var n := if remaining <= part.pageSize / 2 then remaining else part.pageSize / 2;
    var b, e := part.Base(a) + part.pageSize, c.Erase(a);
    BaseOffset(part, a);
    ProgramChunk(e, rx, a, remaining);
    var f := FillAll(e, a, s[..2 * n]);
    var w := f.Commit(a);
    UpperKept(c, a, b);
    UpperKept(f, a, b);
    if n < remaining {
      var a', rx' := a + part.pageSize, AfterWords(rx, n);
      AfterWordsStream(rx, n);
      NextRange(part, a);
      assert w.BufferBlank();
      if part.Offset(a) + 2 * (remaining - n) > part.pageSize {
        WrappedPage(w, rx', a', remaining - n);
        assert rx'.Stream()[part.pageSize - part.Offset(a)] == s[2 * part.pageSize - part.Offset(a)];
      } else {
        ProgramWordsImage(w, rx', a', remaining - n);
        ProgrammedBefore(part, w.flash, a', rx'.Stream()[..2 * (remaining - n)]);
      }
    }
  }

  lemma BaseOffset(part: Part, a: nat)
    requires part.Valid()
    ensures part.Base(a) == a - part.Offset(a)
  {
  }

  lemma NextRange(part: Part, a: nat)
    requires part.Valid() && a % 2 == 0 && !part.Aligned(a)
    ensures var b := a + part.pageSize;
            b % 2 == 0 && part.Base(b) == part.Base(a) + part.pageSize && part.Offset(b) == part.Offset(a)
  {
  }

  /** Committing or erasing a page leaves higher pages alone. */
  lemma UpperKept(c: Chip, page: nat, i: nat)
    requires c.Valid() && page < c.part.flashSize && c.part.Base(page) + c.part.pageSize <= i < c.part.flashSize
    ensures c.Erase(page).flash[i] == c.flash[i] && c.Commit(page).flash[i] == c.flash[i]
  {
    hide Splice, AndAll, Part.Offset;
    var p := c.part.Page(page);
    SpliceAt(c.flash, p, Blanks(c.part.pageSize), i);
    SpliceAt(c.flash, p, AndAll(c.flash[p..p + c.part.pageSize], c.buffer), i);
  }

  /** A range that crosses into a page without starting on one loses its first byte of that page, if
      that byte is none of those that can be there instead. */
  lemma WrappedWrong(s: State, t: Transfer)
    requires s.Valid() && !s.isSecure && !s.waitForExit && s.chip.BufferBlank() && t.Valid() && t.memory == FLASH
    requires t.Address(s) + |t.payload| <= s.chip.part.flashSize && t.start % PACKET_SIZE == 0 && |t.payload| % 2 == 0
    requires !s.chip.part.Aligned(t.Address(s))
    requires s.chip.part.Offset(t.Address(s)) + |t.payload| > s.chip.part.pageSize
    requires var part, a := s.chip.part, t.Address(s);
             var q := part.pageSize - part.Offset(a);
             && t.payload[q] != BLANK && t.payload[q] != s.chip.flash[a + q]
             && (q + part.pageSize < |t.payload| ==> t.payload[q] != t.payload[q + part.pageSize])
    ensures !Held(s, t)
  {
    hide Handle, ProgramWords, Chip.Erase, Transfer.Request, Transfer.Command, Transfer.FirmwareRx;
    hide Part.Offset, EvenRx;
    var a, part := t.Address(s), s.chip.part;
    var q := part.pageSize - part.Offset(a);
    EvenSum(0x8000 * s.flash64KPage, t.start);
    PacketEven(t.start);
    DownloadHandled(s, t);
    AlignedRx(t);
    SecondPageStart(s.chip, t.FirmwareRx(), a, |t.payload| / 2);
    assert q + part.pageSize < |t.payload| ==>
        t.FirmwareRx().Stream()[q + part.pageSize] == t.payload[q + part.pageSize];
    assert part.Base(a) + part.pageSize == a + q;
    var flash := Handle(s, t.Request()).state.chip.flash;
    assert flash[a..a + |t.payload|][q] == flash[a + q] != t.payload[q];
  }

  lemma WrappedSomeWrong(s: State, t: Transfer)
    requires s.Valid() && !s.isSecure && !s.waitForExit && s.chip.BufferBlank() && t.Valid() && t.memory == FLASH
    requires t.Address(s) + |t.payload| <= s.chip.part.flashSize && t.start % PACKET_SIZE == 0 && |t.payload| % 2 == 0
    requires !s.chip.part.Aligned(t.Address(s))
    requires s.chip.part.Offset(t.Address(s)) + |t.payload| > s.chip.part.pageSize
    ensures exists payload: seq<byte> :: |payload| == |t.payload| && !Held(s, t.(payload := payload))
  {
    hide Held, Part.Offset;
    var part, a := s.chip.part, t.Address(s);
    var q := part.pageSize - part.Offset(a);
    var x: byte := if s.chip.flash[a + q] == 1 then 2 else 1;
    var payload: seq<byte> := seq<byte>(|t.payload|, _ => 0)[q := x];
    WrappedWrong(s, t.(payload := payload));
    assert |payload| == |t.payload| && !Held(s, t.(payload := payload));
  }

  /** A download puts every payload of its length into its range, and then also leaves all other
      flash as it should be, exactly when the length is even and the range starts on a packet boundary,
      and on a page boundary unless it stays inside one page. */
  lemma DownloadExactly(s: State, t: Transfer)
    requires s.Valid() && !s.isSecure && !s.waitForExit && s.chip.BufferBlank() && t.Valid() && t.memory == FLASH
    requires t.Address(s) + |t.payload| <= s.chip.part.flashSize
    ensures t.Downloadable(s) <==>
            forall payload: seq<byte> :: |payload| == |t.payload| ==> Held(s, t.(payload := payload))
    ensures t.Downloadable(s) <==>
            forall payload: seq<byte> :: |payload| == |t.payload| ==> Right(s, t.(payload := payload))
  {
    hide Right, Held, Part.Offset;
    if t.Downloadable(s) {
      forall payload: seq<byte> | |payload| == |t.payload|
        ensures Right(s, t.(payload := payload)) && Held(s, t.(payload := payload))
      {
        DownloadRight(s, t.(payload := payload));
        RightHeld(s, t.(payload := payload));
      }
    } else {
      if t.start % PACKET_SIZE != 0 || |t.payload| % 2 == 1 {
        UnreadWrong(s, t);
      } else {
        WrappedSomeWrong(s, t);
      }
      var payload: seq<byte> :| |payload| == |t.payload| && !Held(s, t.(payload := payload));
      assert !Right(s, t.(payload := payload)) by {
        if Right(s, t.(payload := payload)) {
          RightHeld(s, t.(payload := payload));
        }
      }
    }
  }

  lemma DownloadRight(s: State, t: Transfer)
    requires s.Valid() && !s.isSecure && !s.waitForExit && s.chip.BufferBlank() && t.Valid() && t.memory == FLASH
    requires t.Address(s) + |t.payload| <= s.chip.part.flashSize && t.Downloadable(s)
    ensures Right(s, t)
  {
    hide Handle, Programmed, Transfer.Request;
    DownloadProgrammed(s, t);
  }

  // Single downloads that fail

  /** A word of firmware for address 2 arrives behind two bytes of alignment; the second of them is
      programmed in its place. */
  lemma MisalignedByTwo(s: State, t: Transfer)
    requires s.Valid() && !s.isSecure && !s.waitForExit && s.flash64KPage == 0
    requires t == Transfer(FLASH, 2, t.filler, [0, 0], [0x12, 0x34], t.suffix)
    requires |t.filler| == FILLER_SIZE && |t.suffix| == SUFFIX_SIZE
    ensures t.Address(s) + |t.payload| <= s.chip.part.flashSize && !Held(s, t)
  {
    hide Held;
    s.chip.part.BaseBelow(0, s.chip.part.bootStart);
    MisalignedWrong(s, t);
  }

  /** Firmware for the 128 bytes from address 32 on of a part with 128-byte pages, which is erased:
      its byte for address 128 does not get there. */
  lemma WrappedFrom32(s: State, t: Transfer)
    requires s.Valid() && !s.isSecure && !s.waitForExit && s.flash64KPage == 0 && s.chip.BufferBlank()
    requires s.chip.part.pageSize == 128 && 256 <= s.chip.part.flashSize && s.chip.flash[128] == BLANK
    requires t == Transfer(FLASH, 32, t.filler, [], seq(128, _ => 0x12), t.suffix)
    requires |t.filler| == FILLER_SIZE && |t.suffix| == SUFFIX_SIZE
    ensures t.Address(s) + |t.payload| <= s.chip.part.flashSize && !Held(s, t)
  {
    hide Held;
    assert s.chip.part.Offset(32) == 32;
    WrappedWrong(s, t);
  }

  /** The single byte 0x12 for address 0 is less than a word, and only the page is erased. */
  lemma OddLengthCut(s: State, t: Transfer)
    requires s.Valid() && !s.isSecure && !s.waitForExit && s.flash64KPage == 0
    requires t == Transfer(FLASH, 0, t.filler, [], [0x12], t.suffix)
    requires |t.filler| == FILLER_SIZE && |t.suffix| == SUFFIX_SIZE
    ensures t.Address(s) + |t.payload| <= s.chip.part.flashSize && !Held(s, t)
  {
    hide Handle, Chip.Erase, Transfer.Request, Transfer.Command, Transfer.FirmwareRx;
    DownloadHandled(s, t);
    ErasedAt(s.chip, 0);
    var flash := Handle(s, t.Request()).state.chip.flash;
    assert flash[0..1][0] == flash[0] == BLANK;
  }
}
