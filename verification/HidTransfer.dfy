/** Host and device together: which images the HID loader delivers. */
module HidTransfer {
  import opened Chips
  import opened Programming
  import opened Endpoints
  import opened HexReader
  import opened Hid

  // One report

  lemma {:induction false} FillPageAll(c: Chip, rx: Rx, a: nat, n: nat)
    requires c.Valid() && EvenRx(rx) && 2 * n <= |rx.Stream()|
    ensures FillPage(c, rx, a, n) == (FillAll(c, a, rx.Stream()[..2 * n]), true)
    decreases n
  {
    hide Chip.Fill, Rx.Stream, Rx.Refilled, Rx.Advance, Rx.Head, Rx.Exhausted, EvenRx;
    var s := rx.Stream();
    if n == 0 {
      assert s[..0] == [];
    } else {
      ReadWord(rx);
      var r := rx.Refilled().Advance().Advance();
      FillPageAll(c.Fill(a, s[0], s[1]), r, a + 2, n - 1);
      assert s[..2 * n][2..] == s[2..][..2 * (n - 1)];
    }
  }

  lemma FirstWord(lo: byte, hi: byte, data: seq<byte>)
    requires |data| % 2 == 0
    ensures var rx := Rx([], Packets(PACKET_SIZE, [lo, hi] + data)).Next();
            && rx.Head() == lo && rx.Advance().Head() == hi
            && EvenRx(rx.Advance().Advance()) && rx.Advance().Advance().Stream() == data
  {
    hide Packets, Flatten, EvenPackets, Rx.Exhausted, Rx.Head, Rx.Advance;
    var report := [lo, hi] + data;
    EvenSumOf(2, |data|);
    PacketsEven(PACKET_SIZE, report);
    FlattenPackets(PACKET_SIZE, report);
    var rx := Rx([], Packets(PACKET_SIZE, report));
    assert rx.Stream() == [] + Flatten(rx.queue) == report;
    ReadWord(rx);
    assert rx.Refilled() == rx.Next();
    assert report[0] == lo && report[1] == hi && report[2..] == data;
  }

  /** A page erased, loaded word by word and committed. */
  function PageProgrammed(c: Chip, a: nat, data: seq<byte>): (r: Chip)
    requires c.Valid() && |data| == c.part.pageSize
    ensures r.Valid() && r == c.(flash := r.flash, buffer := r.buffer)
  {
    FillAll(c.Erase(a), a, data).Commit(a)
  }

  lemma EvenPage(part: Part)
    requires part.Valid()
    ensures part.pageSize % 2 == 0 && 2 * (part.pageSize / 2) == part.pageSize
  {
  }

  /** A page report erases the page, loads every word of it and commits it. */
  lemma ReportHandled(s: State, lo: byte, hi: byte, data: seq<byte>)
    requires s.chip.Valid() && |data| == s.chip.part.pageSize && Word(lo, hi) != START_APPLICATION
    ensures SetReport(s, Packets(PACKET_SIZE, [lo, hi] + data))
            == s.(chip := PageProgrammed(s.chip, PageAddress(s.chip.part, Word(lo, hi)), data), complete := true)
  {
    hide Packets, Chip.Erase, Chip.Commit, FillPage, FillAll, Word, Rx.Head, Rx.Advance, EvenRx, Rx.Stream, PageAddress;
    var a, n := PageAddress(s.chip.part, Word(lo, hi)), s.chip.part.pageSize / 2;
    EvenPage(s.chip.part);
    FirstWord(lo, hi, data);
    var rx := Rx([], Packets(PACKET_SIZE, [lo, hi] + data)).Next().Advance().Advance();
    FillPageAll(s.chip.Erase(a), rx, a, n);
    assert data[..2 * n] == data;
  }

  // Parts

  /** The parts the loader knows, with its block size as their page size. */
  predicate Known(part: Part) {
    && part.Valid()
    && (|| (part.pageSize == 128 && (part.flashSize == 0x2000 || part.flashSize == 0x4000 || part.flashSize == 0x8000))
        || (part.pageSize == 256 && (part.flashSize == 0x1_0000 || part.flashSize == 0x2_0000)))
  }

  /** Below 64 KB the address is sent as it is. */
  lemma ShortAddress(a: nat)
    requires a < 0x1_0000
    ensures a % 0x100 + 0x100 * (a / 0x100 % 0x100) == a
  {
    var q := a / 0x100;
    SmallRemainder(q);
  }

  lemma SmallRemainder(q: nat)
    requires q < 0x100
    ensures q % 0x100 == q
  {
  }

  /** Above it the number of its 256-byte block is sent. */
  lemma LongAddress(k: nat)
    requires k < 0x1_0000
    ensures 0x100 * k / 0x100 % 0x100 + 0x100 * (0x100 * k / 0x1_0000 % 0x100) == k
  {
    var q := k / 0x100;
    assert 0x100 * k / 0x100 == k;
    BlockQuotient(k);
    SmallRemainder(q);
  }

  lemma BlockQuotient(k: nat)
    ensures 0x100 * k / 0x1_0000 == k / 0x100
  {
    var q, r := k / 0x100, k % 0x100;
    assert 0x100 * k == 0x1_0000 * q + 0x100 * r;
  }

  lemma PageBelow(a: nat, size: nat)
    requires a < size <= 0x2_0000 && a % 256 == 0
    ensures a == 0x100 * (a / 0x100) && a / 0x100 < 0x200
  {
  }

  /** Host and device use the same address unit, except on 64 KB parts. */
  lemma AddressAgrees(part: Part, a: nat)
    requires Known(part) && part.flashSize != 0x1_0000 && a < part.flashSize && a % part.pageSize == 0
    ensures var b := AddressBytes(part.flashSize, a);
            Word(b[0], b[1]) != START_APPLICATION && PageAddress(part, Word(b[0], b[1])) == a
  {
    hide Part.Valid;
    if part.flashSize < 0x1_0000 {
      ShortAddress(a);
    } else {
      PageBelow(a, part.flashSize);
      LongAddress(a / 0x100);
    }
  }

  lemma {:induction false} PagesAligned(part: Part, k: nat)
    requires part.Valid()
    ensures part.pageSize == 128 ==> part.Aligned(128 * k)
    ensures part.pageSize == 256 ==> part.Aligned(256 * k)
  {
    hide Part.Offset;
    if k > 0 {
      PagesAligned(part, k - 1);
      part.OffsetNext(part.pageSize * (k - 1), part.pageSize);
    } else {
      SmallOffset(part, 0);
    }
  }

  lemma MultipleAligned(part: Part, a: nat)
    requires part.Valid() && a % part.pageSize == 0
    ensures part.Aligned(a) && a % 2 == 0
  {
    hide Part.Offset;
    if part.pageSize == 128 {
      assert a == 128 * (a / 128);
      PagesAligned(part, a / 128);
      DoubleEven(64 * (a / 128));
    } else {
      assert a == 256 * (a / 256);
      PagesAligned(part, a / 256);
      DoubleEven(128 * (a / 256));
    }
  }

  /** One page report against a part on which the addresses agree. */
  lemma ReportProgrammed(r: Reader, s: State, a: nat)
    requires r.Valid() && s.chip.Valid() && Known(s.chip.part) && s.chip.part.flashSize != 0x1_0000
    requires a < s.chip.part.flashSize && a % s.chip.part.pageSize == 0
    ensures var part := s.chip.part;
            && a + part.pageSize <= part.flashSize
            && SetReport(s, Packets(PACKET_SIZE, Report(r, part.flashSize, part.pageSize, a)))
               == s.(chip := s.chip.(flash := Splice(s.chip.flash, a, GetData(r, a, part.pageSize)),
                                     buffer := Blanks(part.pageSize)),
                     complete := true)
  {
    hide Packets, SetReport, GetData, Word, PageAddress, Splice, Blanks, FillAll, Chip.Commit, Chip.Erase, AddressBytes;
    var part := s.chip.part;
    var b, data := AddressBytes(part.flashSize, a), GetData(r, a, part.pageSize);
    AddressAgrees(part, a);
    MultipleAligned(part, a);
    AddressPair(part.flashSize, a);
    assert [b[0], b[1]] + data == b + data;
    ReportHandled(s, b[0], b[1], data);
    WholePage(s.chip, a, data);
  }

  lemma AddressPair(codeSize: nat, a: nat)
    ensures |AddressBytes(codeSize, a)| == 2
  {
  }

  // The whole loop

  /** Flash after the pages from `a` on have been sent. */
  function Updated(r: Reader, part: Part, flash: seq<byte>, a: nat): (f: seq<byte>)
    requires r.Valid() && part.Valid() && |flash| == part.flashSize && part.Aligned(a)
    ensures |f| == |flash|
    decreases part.flashSize - a
  {
    if a >= part.flashSize then flash
    else
      part.BaseBelow(a, part.flashSize);
      part.OffsetNext(a, part.pageSize);
      var sent := if Sent(r, part.pageSize, a) then Splice(flash, a, GetData(r, a, part.pageSize)) else flash;
      Updated(r, part, sent, a + part.pageSize)
  }

  /** The value of a byte after the loop, page by page. */
  lemma {:induction false} UpdatedAt(r: Reader, part: Part, flash: seq<byte>, a: nat, i: nat)
    requires r.Valid() && part.Valid() && |flash| == part.flashSize && part.Aligned(a) && i < part.flashSize
    ensures Updated(r, part, flash, a)[i]
            == if a <= i && Sent(r, part.pageSize, part.Base(i)) then GetData(r, part.Base(i), part.pageSize)[part.Offset(i)]
               else flash[i]
    decreases part.flashSize - a
  {
    hide Sent, GetData, Splice, Part.Offset;
    if a < part.flashSize {
      part.BaseBelow(a, part.flashSize);
      part.OffsetNext(a, part.pageSize);
      var data := GetData(r, a, part.pageSize);
      var sent := if Sent(r, part.pageSize, a) then Splice(flash, a, data) else flash;
      UpdatedAt(r, part, sent, a + part.pageSize, i);
      SpliceAt(flash, a, data, i);
      if a <= i < a + part.pageSize {
        part.OffsetFrom(a, i - a);
        SmallOffset(part, i - a);
      }
    }
  }

  lemma SmallOffset(part: Part, k: nat)
    requires part.Valid() && k < part.pageSize
    ensures part.Offset(k) == k
  {
  }

  lemma {:induction false} LoopUpdates(r: Reader, s: State, a: nat)
    requires r.Valid() && s.chip.Valid() && Known(s.chip.part) && s.chip.part.flashSize != 0x1_0000
    requires s.complete && a % s.chip.part.pageSize == 0 && s.chip.part.Aligned(a)
    ensures var part := s.chip.part;
            var t := Program(r, part.flashSize, part.pageSize, a, s);
            && t.chip.part == part && t.chip.flash == Updated(r, part, s.chip.flash, a)
            && t.runBootloader == s.runBootloader && t.complete
    decreases s.chip.part.flashSize - a
  {
    hide Sent, GetData, Splice, Part.Offset, SetReport, Packets, Blanks, Report;
    var part := s.chip.part;
    if a < part.flashSize {
      ReportProgrammed(r, s, a);
      part.BaseBelow(a, part.flashSize);
      part.OffsetNext(a, part.pageSize);
      NextMultiple(part, a);
      var t := if Sent(r, part.pageSize, a)
               then SetReport(s, Packets(PACKET_SIZE, Report(r, part.flashSize, part.pageSize, a))) else s;
      LoopUpdates(r, t, a + part.pageSize);
    }
  }

  lemma NextMultiple(part: Part, a: nat)
    requires part.Valid() && a % part.pageSize == 0
    ensures (a + part.pageSize) % part.pageSize == 0
  {
    if part.pageSize == 128 {
      assert (a + 128) % 128 == 0;
    } else {
      assert (a + 256) % 256 == 0;
    }
  }

  // What is delivered

  /** The image as the user means it: loaded bytes, and 0xFF in the gaps. */
  function HostByte(r: Reader, i: nat): byte
    requires r.Valid()
  {
    if i < MEMORY_SIZE && r.mask[i] then r.image[i] else BLANK
  }

  /** The page at `b` holds a loaded byte. */
  ghost predicate PageLoaded(r: Reader, part: Part, b: nat)
    requires r.Valid()
  {
    exists k :: b <= k < b + part.pageSize && k < MEMORY_SIZE && r.mask[k]
  }

  /** No byte is loaded for an address that the part does not have. */
  ghost predicate Within(r: Reader, part: Part)
    requires r.Valid()
  {
    forall i :: part.flashSize <= i < MEMORY_SIZE ==> !r.mask[i]
  }

  /** All of the image is in flash: in page 0 and in every page with a loaded byte flash holds the image,
      it is unchanged elsewhere, and no loaded byte lies beyond it. */
  ghost predicate Right(r: Reader, part: Part, before: seq<byte>, after: seq<byte>)
    requires r.Valid() && part.Valid() && |before| == |after| == part.flashSize
  {
    && Within(r, part)
    && forall i :: 0 <= i < part.flashSize ==>
         after[i] == if part.Base(i) == 0 || PageLoaded(r, part, part.Base(i)) then HostByte(r, i) else before[i]
  }

  /** Flash after the host has programmed a device that holds `c0`. */
  function Delivered(r: Reader, c0: Chip): (f: seq<byte>)
    requires r.Valid() && c0.Valid()
  {
    Program(r, c0.part.flashSize, c0.part.pageSize, 0, State(c0, true, true)).chip.flash
  }

  /** The images that arrive: those within the part, of which the host drops the rest; on 64 KB parts
      those within the first page, because host and device count addresses differently; on 128 KB parts
      those with nothing but 0xFF in the last page of the loader's 64 KB, which it sends blank. */
  ghost predicate Deliverable(r: Reader, part: Part)
    requires r.Valid()
  {
    && Within(r, part)
    && (part.flashSize == 0x1_0000 ==> forall i :: 0x100 <= i < MEMORY_SIZE ==> !r.mask[i])
    && (part.flashSize == 0x2_0000 ==> forall i :: 0xFF00 <= i < MEMORY_SIZE && r.mask[i] ==> r.image[i] == BLANK)
  }

  lemma PageInImage(part: Part, b: nat)
    requires Known(part) && part.Aligned(b) && b < part.flashSize
    ensures b < MEMORY_SIZE ==> b + part.pageSize <= MEMORY_SIZE
    ensures part.flashSize < 0x1_0000 ==> b + part.pageSize < MEMORY_SIZE
    ensures b + part.pageSize == MEMORY_SIZE ==> b == 0xFF00 && part.pageSize == 256
  {
    hide Part.Offset;
    if b < MEMORY_SIZE {
      MultipleAligned(part, MEMORY_SIZE) by { assert 0x1_0000 % 128 == 0 && 0x1_0000 % 256 == 0; }
      part.BaseBelow(b, MEMORY_SIZE);
    }
    part.BaseBelow(b, part.flashSize);
  }

  lemma SentExactly(r: Reader, part: Part, b: nat)
    requires r.Valid() && Known(part) && part.Aligned(b) && b < part.flashSize
    ensures Sent(r, part.pageSize, b) <==> b == 0 || PageLoaded(r, part, b)
  {
    PageInImage(part, b);
    if k :| b <= k < b + part.pageSize && k < MEMORY_SIZE && r.mask[k] {
      assert b <= k <= b + part.pageSize - 1;
    }
  }

  lemma DataExactly(r: Reader, part: Part, i: nat)
    requires r.Valid() && Known(part) && part.flashSize != 0x1_0000 && i < part.flashSize
    requires part.Base(i) == 0 || PageLoaded(r, part, part.Base(i))
    ensures var d := GetData(r, part.Base(i), part.pageSize)[part.Offset(i)];
            d == if part.Base(i) == 0xFF00 then BLANK else HostByte(r, i)
  {
    hide Part.Offset;
    part.BaseAligned(i);
    PageInImage(part, part.Base(i));
  }

  lemma LastPageMeans(part: Part, i: nat)
    requires Known(part) && part.flashSize == 0x2_0000 && i < part.flashSize
    ensures part.Base(i) == 0xFF00 <==> 0xFF00 <= i < MEMORY_SIZE
  {
    hide Part.Offset;
    MultipleAligned(part, 0xFF00) by { assert 0xFF00 % 256 == 0; }
    MultipleAligned(part, 0x1_0000) by { assert 0x1_0000 % 256 == 0; }
    if 0xFF00 <= i < MEMORY_SIZE {
      part.OffsetFrom(0xFF00, i - 0xFF00);
      SmallOffset(part, i - 0xFF00);
    }
  }

  /** Byte by byte, on a part where the addresses agree. */
  lemma DeliveredAt(r: Reader, c0: Chip, i: nat)
    requires r.Valid() && c0.Valid() && Known(c0.part) && c0.part.flashSize != 0x1_0000 && i < c0.part.flashSize
    ensures var part, b := c0.part, c0.part.Base(i);
            && |Delivered(r, c0)| == part.flashSize
            && Delivered(r, c0)[i]
               == if b == 0 || PageLoaded(r, part, b) then (if b == 0xFF00 then BLANK else HostByte(r, i)) else c0.flash[i]
  {
    hide Program, Updated, Sent, GetData, Part.Offset, PageLoaded;
    var part := c0.part;
    assert part.Aligned(0) by { SmallOffset(part, 0); }
    LoopUpdates(r, State(c0, true, true), 0);
    UpdatedAt(r, part, c0.flash, 0, i);
    part.BaseAligned(i);
    SentExactly(r, part, part.Base(i));
    if part.Base(i) == 0 || PageLoaded(r, part, part.Base(i)) {
      DataExactly(r, part, i);
    }
  }

  lemma DeliveredExactly(r: Reader, c0: Chip)
    requires r.Valid() && c0.Valid() && Known(c0.part) && c0.part.flashSize != 0x1_0000
    ensures |Delivered(r, c0)| == c0.part.flashSize
    ensures Right(r, c0.part, c0.flash, Delivered(r, c0)) <==> Deliverable(r, c0.part)
  {
    hide Delivered, Part.Offset, PageLoaded, Part.Base, Within;
    var part, after := c0.part, Delivered(r, c0);
    DeliveredAt(r, c0, 0);
    forall i | 0 <= i < part.flashSize
      ensures var b := part.Base(i);
              after[i] == if b != 0 && !PageLoaded(r, part, b) then c0.flash[i]
                          else if b == 0xFF00 then BLANK else HostByte(r, i)
    {
      DeliveredAt(r, c0, i);
    }
    if part.flashSize == 0x2_0000 {
      forall i | 0xFF00 <= i < MEMORY_SIZE && r.mask[i]
        ensures part.Base(i) == 0xFF00 && PageLoaded(r, part, 0xFF00)
      {
        LastPageMeans(part, i);
        LoadedInPage(r, part, i);
      }
      forall i | 0 <= i < part.flashSize && part.Base(i) == 0xFF00
        ensures 0xFF00 <= i < MEMORY_SIZE
      {
        LastPageMeans(part, i);
      }
    } else {
      forall i | 0 <= i < part.flashSize
        ensures part.Base(i) != 0xFF00
      {
        part.BaseAligned(i);
      }
    }
  }

  lemma LoadedInPage(r: Reader, part: Part, i: nat)
    requires r.Valid() && part.Valid() && i < MEMORY_SIZE && r.mask[i]
    ensures PageLoaded(r, part, part.Base(i))
  {
    assert part.Base(i) <= i < part.Base(i) + part.pageSize;
  }

  // 64 KB parts

  lemma LowPageOnly(c: Chip, a: nat, data: seq<byte>)
    requires c.Valid() && a < c.part.pageSize && |data| == c.part.pageSize
    ensures PageProgrammed(c, a, data).part == c.part
    ensures PageProgrammed(c, a, data).flash[c.part.pageSize..] == c.flash[c.part.pageSize..]
  {
    hide FillAll, AndAll, Blanks;
    var n := c.part.pageSize;
    assert c.part.Base(a) == 0;
    c.part.BaseBelow(a, c.part.flashSize);
    var e := c.Erase(a);
    assert e.flash[n..] == c.flash[n..];
    var f := FillAll(e, a, data);
    assert f.flash == e.flash;
    assert f.Commit(a).flash[n..] == f.flash[n..];
  }

  /** Every address below 64 KB, divided by 256 by the host, lands in the first page of the device. */
  lemma SmallAddress(part: Part, a: nat)
    requires Known(part) && part.flashSize == 0x1_0000 && a < 0x1_0000
    ensures var b := AddressBytes(part.flashSize, a);
            Word(b[0], b[1]) != START_APPLICATION && PageAddress(part, Word(b[0], b[1])) == a / 0x100 < 0x100
  {
    assert a / 0x1_0000 == 0 && a / 0x100 < 0x100;
  }

  lemma ReportTo64(r: Reader, s: State, a: nat)
    requires r.Valid() && s.chip.Valid() && Known(s.chip.part) && s.chip.part.flashSize == 0x1_0000 && a < 0x1_0000
    ensures SetReport(s, Packets(PACKET_SIZE, Report(r, 0x1_0000, 256, a)))
            == s.(chip := PageProgrammed(s.chip, a / 0x100, GetData(r, a, 256)), complete := true)
  {
    hide Packets, SetReport, GetData, Word, PageAddress, PageProgrammed, AddressBytes;
    var b, data := AddressBytes(0x1_0000, a), GetData(r, a, 256);
    SmallAddress(s.chip.part, a);
    AddressPair(0x1_0000, a);
    assert [b[0], b[1]] + data == b + data;
    ReportHandled(s, b[0], b[1], data);
  }

  /** The loop never changes anything beyond the first page. */
  lemma {:induction false} LoopOn64(r: Reader, s: State, a: nat)
    requires r.Valid() && s.chip.Valid() && Known(s.chip.part) && s.chip.part.flashSize == 0x1_0000
    ensures var t := Program(r, 0x1_0000, 256, a, s);
            t.chip.part == s.chip.part && t.chip.flash[256..] == s.chip.flash[256..]
    decreases 0x1_0000 - a
  {
    hide Sent, SetReport, Packets, PageProgrammed, Report, GetData;
    if a < 0x1_0000 {
      if Sent(r, 256, a) {
        ReportTo64(r, s, a);
        LowPageOnly(s.chip, a / 0x100, GetData(r, a, 256));
        LoopOn64(r, SetReport(s, Packets(PACKET_SIZE, Report(r, 0x1_0000, 256, a))), a + 256);
      } else {
        LoopOn64(r, s, a + 256);
      }
    }
  }

  /** Without loaded bytes beyond the first page only that page is sent. */
  lemma {:induction false} NothingSent(r: Reader, s: State, a: nat)
    requires r.Valid() && s.chip.Valid() && 0x100 <= a
    requires forall i :: 0x100 <= i < MEMORY_SIZE ==> !r.mask[i]
    ensures Program(r, 0x1_0000, 256, a, s) == s
    decreases 0x1_0000 - a
  {
    if a < 0x1_0000 {
      assert !Sent(r, 256, a);
      NothingSent(r, s, a + 256);
    }
  }

  lemma FirstPageOn64(r: Reader, c0: Chip)
    requires r.Valid() && c0.Valid() && Known(c0.part) && c0.part.flashSize == 0x1_0000 && Deliverable(r, c0.part)
    ensures |Delivered(r, c0)| == c0.part.flashSize && Right(r, c0.part, c0.flash, Delivered(r, c0))
  {
    hide SetReport, Packets, Report, Splice, Blanks, Part.Offset, FillAll, Chip.Commit, Chip.Erase;
    var part, data, s := c0.part, GetData(r, 0, 256), State(c0, true, true);
    assert part.Aligned(0) by { SmallOffset(part, 0); }
    ReportTo64(r, s, 0);
    WholePage(c0, 0, data);
    var t := SetReport(s, Packets(PACKET_SIZE, Report(r, 0x1_0000, 256, 0)));
    NothingSent(r, t, 256);
    assert Delivered(r, c0) == Splice(c0.flash, 0, data);
    forall i | 0 <= i < part.flashSize
      ensures Delivered(r, c0)[i]
              == if part.Base(i) == 0 || PageLoaded(r, part, part.Base(i)) then HostByte(r, i) else c0.flash[i]
    {
      SpliceAt(c0.flash, 0, data, i);
      if i < 256 {
        SmallOffset(part, i);
      } else {
        part.BaseAligned(i);
        LowBase(part, i);
      }
    }
  }

  lemma LowBase(part: Part, i: nat)
    requires part.Valid() && part.pageSize == 256 && 256 <= i
    ensures part.Base(i) >= 256
  {
  }

  /** A byte beyond the first page that should have changed did not. */
  lemma LostOn64(r: Reader, part: Part, i: nat)
    requires r.Valid() && Known(part) && part.flashSize == 0x1_0000 && 0x100 <= i < MEMORY_SIZE && r.mask[i]
    ensures exists c0: Chip :: c0.Valid() && c0.part == part
              && |Delivered(r, c0)| == part.flashSize && !Right(r, part, c0.flash, Delivered(r, c0))
  {
    hide Program, PageLoaded;
    var x: byte := if r.image[i] == 0 then 1 else 0;
    var flash: seq<byte> := seq(part.flashSize, _ => x);
    var c0 := Chip(part, flash, Blanks(part.eepromSize), Blanks(part.pageSize));
    assert c0.Valid();
    LoopOn64(r, State(c0, true, true), 0);
    var after := Delivered(r, c0);
    assert after[i] == after[256..][i - 256] == flash[256..][i - 256] == x;
    LoadedInPage(r, part, i);
    assert !Right(r, part, c0.flash, after);
  }

  /** A part delivers an image whatever the device held before exactly when the image is deliverable
      there; in particular 8, 16 and 32 KB parts deliver every image that lies within them. */
  lemma DeliversExactly(r: Reader, part: Part)
    requires r.Valid() && Known(part)
    ensures Deliverable(r, part) <==>
            forall c0: Chip :: c0.Valid() && c0.part == part ==>
              |Delivered(r, c0)| == part.flashSize && Right(r, part, c0.flash, Delivered(r, c0))
  {
    hide Delivered, Right;
    if part.flashSize != 0x1_0000 {
      forall c0: Chip | c0.Valid() && c0.part == part
        ensures |Delivered(r, c0)| == part.flashSize
        ensures Right(r, part, c0.flash, Delivered(r, c0)) <==> Deliverable(r, part)
      {
        DeliveredExactly(r, c0);
      }
      var c := Chip(part, Blanks(part.flashSize), Blanks(part.eepromSize), Blanks(part.pageSize));
      assert c.Valid() && c.part == part;
    } else if Deliverable(r, part) {
      forall c0: Chip | c0.Valid() && c0.part == part
        ensures |Delivered(r, c0)| == part.flashSize && Right(r, part, c0.flash, Delivered(r, c0))
      {
        FirstPageOn64(r, c0);
      }
    } else {
      var i :| 0x100 <= i < MEMORY_SIZE && r.mask[i];
      LostOn64(r, part, i);
    }
  }

  /** No page report is taken for the command to start the application, which only the final report is. */
  lemma {:induction false} StillRunning(r: Reader, s: State, a: nat)
    requires r.Valid() && s.chip.Valid() && Known(s.chip.part) && a % s.chip.part.pageSize == 0
    ensures var part := s.chip.part;
            var t := Program(r, part.flashSize, part.pageSize, a, s);
            t.chip.part == part && t.runBootloader == s.runBootloader && (s.complete ==> t.complete)
    decreases s.chip.part.flashSize - a
  {
    hide Sent, GetData, Splice, Part.Offset, SetReport, Packets, Blanks, Report, PageProgrammed;
    var part := s.chip.part;
    if a < part.flashSize {
      if part.flashSize == 0x1_0000 {
        ReportTo64(r, s, a);
      } else {
        ReportProgrammed(r, s, a);
      }
      NextMultiple(part, a);
      var t := if Sent(r, part.pageSize, a)
               then SetReport(s, Packets(PACKET_SIZE, Report(r, part.flashSize, part.pageSize, a))) else s;
      StillRunning(r, t, a + part.pageSize);
    }
  }

  lemma StartReport(s: State, data: seq<byte>)
    requires s.chip.Valid() && |data| % 2 == 0
    ensures SetReport(s, Packets(PACKET_SIZE, [0xFF, 0xFF] + data)) == s.(runBootloader := false, complete := true)
  {
    hide Packets;
    FirstWord(0xFF, 0xFF, data);
  }

  /** On a 64 KB part an image with one byte behind the first page does not arrive. */
  lemma SecondPageLost(part: Part)
    requires Known(part) && part.flashSize == 0x1_0000
    ensures var r := Blank().(image := Blank().image[0x100 := 0x55], mask := Blank().mask[0x100 := true]);
            exists c0: Chip :: c0.Valid() && c0.part == part
              && |Delivered(r, c0)| == part.flashSize && !Right(r, part, c0.flash, Delivered(r, c0))
  {
    hide Delivered, Right;
    LostOn64(Blank().(image := Blank().image[0x100 := 0x55], mask := Blank().mask[0x100 := true]), part, 0x100);
  }

  /** On a 128 KB part an image with one byte at 0xFF00 does not arrive, whatever the part held. */
  lemma LastPageLost(c0: Chip)
    requires c0.Valid() && Known(c0.part) && c0.part.flashSize == 0x2_0000
    ensures var r := Blank().(image := Blank().image[0xFF00 := 0x55], mask := Blank().mask[0xFF00 := true]);
            |Delivered(r, c0)| == c0.part.flashSize && !Right(r, c0.part, c0.flash, Delivered(r, c0))
  {
    hide Delivered, Right;
    var r := Blank().(image := Blank().image[0xFF00 := 0x55], mask := Blank().mask[0xFF00 := true]);
    assert r.mask[0xFF00] && r.image[0xFF00] != BLANK;
    DeliveredExactly(r, c0);
  }

  /** On an 8 KB part an image with its one byte at 0x2000 is dropped without an error. */
  lemma BeyondFlashLost(c0: Chip)
    requires c0.Valid() && Known(c0.part) && c0.part.flashSize == 0x2000
    ensures var r := Blank().(image := Blank().image[0x2000 := 0x55], mask := Blank().mask[0x2000 := true]);
            |Delivered(r, c0)| == c0.part.flashSize && !Right(r, c0.part, c0.flash, Delivered(r, c0))
  {
    hide Delivered;
    var r := Blank().(image := Blank().image[0x2000 := 0x55], mask := Blank().mask[0x2000 := true]);
    assert r.mask[0x2000];
    DeliveredExactly(r, c0);
  }
}
