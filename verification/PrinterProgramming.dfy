/** A HEX file of contiguous data records, streamed to the printer bootloader
    from reset, ends up in flash. */
module PrinterProgramming {
  import opened Chips
  import opened HexText
  import opened Printer
  import opened PrinterStreams
  import opened Programming

  // From characters to bytes

  lemma DigitDecodes(n: nat)
    requires n < 16
    ensures HexToDecimal(Digit(n)) == n && Digit(n) != ':'
  {
  }

  lemma Nibbles(x: byte, b: byte)
    ensures Shift(Shift(x, b / 16), b % 16) == b
  {
    assert (x % 16 * 16 + b / 16) % 16 == b / 16;
  }

  lemma RunDigits(s: State, c1: char, c2: char)
    requires s.chip.Valid() && !s.phase.WaitLine? && !s.readMSB
    requires c1 != ':' && c2 != ':' && HexToDecimal(c1) >= 0 && HexToDecimal(c2) >= 0
    ensures Run(s, [c1, c2]) == ByteStep(s.(data := Shift(Shift(s.data, HexToDecimal(c1)), HexToDecimal(c2))))
  {
    hide ByteStep, HexToDecimal, Shift;
    assert [c1, c2] == [c1] + [c2];
    RunAppend(s, [c1], [c2]);
    assert Run(s, [c1]) == Step(s, c1);
    assert Run(Step(s, c1), [c2]) == Step(Step(s, c1), c2);
  }

  lemma RunHex(s: State, b: byte)
    requires s.chip.Valid() && !s.phase.WaitLine? && !s.readMSB
    ensures Run(s, Hex(b)) == ByteStep(s.(data := b))
  {
    hide ByteStep, Shift, HexToDecimal, Run, Digit;
    DigitDecodes(b / 16);
    DigitDecodes(b % 16);
    Nibbles(s.data, b);
    RunDigits(s, Digit(b / 16), Digit(b % 16));
  }

  function Feed(s: State, bytes: seq<byte>): (t: State)
    requires s.chip.Valid()
    ensures t.chip.Valid()
    decreases |bytes|
  {
    if bytes == [] then s else Feed(ByteStep(s.(data := bytes[0])), bytes[1..])
  }

  /** The parser stays inside its line while it is fed the bytes. */
  ghost predicate Stays(s: State, bytes: seq<byte>)
    requires s.chip.Valid()
    decreases |bytes|
  {
    bytes != [] ==> !s.phase.WaitLine? && Stays(ByteStep(s.(data := bytes[0])), bytes[1..])
  }

  lemma {:induction false} FeedConcat(s: State, b1: seq<byte>, b2: seq<byte>)
    requires s.chip.Valid()
    ensures Feed(s, b1 + b2) == Feed(Feed(s, b1), b2)
    ensures Stays(s, b1 + b2) <==> Stays(s, b1) && Stays(Feed(s, b1), b2)
    decreases |b1|
  {
    hide ByteStep;
    if b1 == [] {
      assert b1 + b2 == b2;
    } else {
      assert (b1 + b2)[1..] == b1[1..] + b2;
      FeedConcat(ByteStep(s.(data := b1[0])), b1[1..], b2);
    }
  }

  lemma ByteStepKeepsParity(s: State)
    requires s.chip.Valid()
    ensures ByteStep(s).readMSB == s.readMSB
  {
    hide FlushIfRequired, WordStep;
    FlushKeeps(s);
    WordStepKeeps(s.(checksum := Add8(s.checksum, s.data), dataRem := Sub8(s.dataRem, 1)));
  }

  lemma {:induction false} RunHexAll(s: State, bytes: seq<byte>)
    requires s.chip.Valid() && !s.readMSB && Stays(s, bytes)
    ensures Run(s, HexAll(bytes)) == Feed(s, bytes)
    decreases |bytes|
  {
    if bytes != [] {
      hide ByteStep;
      RunHex(s, bytes[0]);
      RunAppend(s, Hex(bytes[0]), HexAll(bytes[1..]));
      ByteStepKeepsParity(s.(data := bytes[0]));
      RunHexAll(ByteStep(s.(data := bytes[0])), bytes[1..]);
    }
  }

  // From bytes to memory

  /** The memory once `image` has been read from address 0. */
  function Pending(c0: Chip, image: seq<byte>): (c: Chip)
    requires c0.Valid() && |image| <= c0.part.flashSize && |image| % 2 == 0
    ensures c.Valid() && c.part == c0.part && c.eeprom == c0.eeprom
  {
    Streamed(c0, 0, image)
  }

  /** Between words the parser's memory state is the one the image read so far determines. */
  ghost predicate Loaded(s: State, c0: Chip, image: seq<byte>) {
    && c0.Valid() && c0.BufferBlank() && |image| <= c0.part.bootStart && |image| % 2 == 0
    && s.chip == Pending(c0, image)
    && s.pageStart == c0.part.Base(|image|)
    && s.pageDirty == !c0.part.Aligned(|image|)
    && s.baseAddress == 0 && s.runBootloader && !s.readMSB
  }

  /** The parser reads a data record and has `image` behind it. */
  ghost predicate InData(s: State, c0: Chip, image: seq<byte>) {
    && Loaded(s, c0, image)
    && s.phase == (if s.dataRem == 0 then Checksum else ReadData)
    && s.recordType == DATA && s.currAddress == |image|
  }

  lemma WordLoaded(s: State, c0: Chip, image: seq<byte>)
    requires Loaded(s, c0, image) && s.recordType == DATA && s.currAddress == |image|
    requires |image| + 2 <= c0.part.bootStart
    ensures var t := WordStep(s);
            && Loaded(t, c0, image + [s.prevData, s.data])
            && t == s.(chip := t.chip, pageStart := t.pageStart, pageDirty := t.pageDirty, currAddress := |image| + 2)
  {
    hide Streamed, Part.Offset, Chip.Erase, Chip.Fill, Chip.Commit;
    var p, k := c0.part, |image|;
    StreamedWord(c0, 0, image, s.prevData, s.data);
    p.OffsetParity(k);
    if p.Offset(k) + 2 < p.pageSize {
      p.OffsetAdd(k, 2);
    } else {
      p.OffsetNext(k, 2);
    }
  }

  lemma ReadLowByte(s: State)
    requires s.chip.Valid() && s.phase.ReadData? && s.dataRem >= 2 && s.dataRem % 2 == 0
    requires s.currAddress < s.chip.part.bootStart
    ensures ByteStep(s) == s.(prevData := s.data, checksum := Add8(s.checksum, s.data), dataRem := s.dataRem - 1)
  {
    hide WordStep;
  }

  lemma ReadHighByte(s: State)
    requires s.chip.Valid() && s.phase.ReadData? && s.dataRem % 2 == 1
    requires s.currAddress < s.chip.part.bootStart
    ensures var w := WordStep(s.(checksum := Add8(s.checksum, s.data), dataRem := s.dataRem - 1));
            ByteStep(s) == if w.dataRem == 0 then w.(phase := Checksum) else w
  {
    hide WordStep;
  }

  lemma FeedOne(s: State, x: byte)
    requires s.chip.Valid()
    ensures Feed(s, [x]) == ByteStep(s.(data := x))
    ensures !s.phase.WaitLine? ==> Stays(s, [x])
  {
    hide ByteStep;
    var t := ByteStep(s.(data := x));
    assert [x][1..] == [];
    assert Feed(t, []) == t && Stays(t, []);
  }

  lemma FeedWord(s: State, c0: Chip, image: seq<byte>, lo: byte, hi: byte)
    requires InData(s, c0, image) && s.dataRem >= 2 && s.dataRem % 2 == 0
    requires |image| + 2 <= c0.part.bootStart
    ensures Stays(s, [lo, hi]) && InData(Feed(s, [lo, hi]), c0, image + [lo, hi])
    ensures Feed(s, [lo, hi]).dataRem == s.dataRem - 2
  {
    hide ByteStep, WordStep, Pending, Feed, Stays, Part.Offset, Part.Base;
    var t := ByteStep(s.(data := lo));
    FeedOne(s, lo);
    FeedOne(t, hi);
    FeedConcat(s, [lo], [hi]);
    assert [lo, hi] == [lo] + [hi];
    ReadLowByte(s.(data := lo));
    ReadHighByte(t.(data := hi));
    WordLoaded(t.(data := hi, checksum := Add8(t.checksum, hi), dataRem := t.dataRem - 1), c0, image);
  }

  lemma {:induction false} FeedData(s: State, c0: Chip, image: seq<byte>, data: seq<byte>)
    requires InData(s, c0, image) && s.dataRem == |data| && |data| % 2 == 0
    requires |image| + |data| <= c0.part.bootStart
    ensures Stays(s, data) && InData(Feed(s, data), c0, image + data)
    ensures Feed(s, data).dataRem == 0
    decreases |data|
  {
    hide ByteStep, Pending, Part.Offset;
    if data == [] {
      assert image + data == image;
    } else {
      hide Feed, Stays;
      var word, rest := [data[0], data[1]], data[2..];
      assert data == word + rest && image + data == (image + word) + rest;
      FeedWord(s, c0, image, data[0], data[1]);
      FeedConcat(s, word, rest);
      FeedData(Feed(s, word), c0, image + word, rest);
    }
  }

  // Records

  function Headed(s: State, r: Record): State {
    s.(data := r.kind, checksum := Sum(r.Header()), dataRem := |r.data|,
       currAddress := Add32(Add32(s.currAddress, Hi(r.address) * 0x100), Lo(r.address)),
       recordType := r.kind, phase := if r.data == [] then Checksum else ReadData)
  }

  lemma HeaderBytes(s: State)
    requires s.chip.Valid()
    ensures var t := s.(checksum := Add8(s.checksum, s.data));
            && (s.phase.ByteCount? ==> ByteStep(s) == t.(dataRem := s.data, phase := AddressHigh))
            && (s.phase.AddressHigh? ==>
                  ByteStep(s) == t.(currAddress := Add32(s.currAddress, s.data * 0x100), phase := AddressLow))
            && (s.phase.AddressLow? ==>
                  ByteStep(s) == t.(currAddress := Add32(s.currAddress, s.data), phase := RecordType))
            && (s.phase.RecordType? ==>
                  ByteStep(s) == t.(recordType := s.data, phase := if s.dataRem != 0 then ReadData else Checksum))
  {
  }

  lemma SumFour(a: byte, b: byte, c: byte, d: byte)
    ensures Sum([a, b, c, d]) == Add8(Add8(Add8(Add8(0, a), b), c), d)
  {
    SumAppend([], a);
    SumAppend([a], b);
    SumAppend([a, b], c);
    SumAppend([a, b, c], d);
    assert [] + [a] == [a] && [a] + [b] == [a, b] && [a, b] + [c] == [a, b, c] && [a, b, c] + [d] == [a, b, c, d];
  }

  lemma FeedHeader(s: State, r: Record)
    requires s.chip.Valid()
    requires s.phase.ByteCount? && s.checksum == 0
    ensures Stays(s, r.Header()) && Feed(s, r.Header()) == Headed(s, r)
    ensures s.currAddress + r.address < 0x1_0000_0000 ==> Headed(s, r).currAddress == s.currAddress + r.address
  {
    hide ByteStep, Feed, Stays, Sum;
    var a, b, c, d := |r.data|, Hi(r.address), Lo(r.address), r.kind;
    var s1 := ByteStep(s.(data := a));
    var s2 := ByteStep(s1.(data := b));
    var s3 := ByteStep(s2.(data := c));
    HeaderBytes(s.(data := a));
    HeaderBytes(s1.(data := b));
    HeaderBytes(s2.(data := c));
    HeaderBytes(s3.(data := d));
    FeedOne(s, a);
    FeedOne(s1, b);
    FeedOne(s2, c);
    FeedOne(s3, d);
    FeedConcat(s, [a], [b]);
    FeedConcat(s, [a] + [b], [c]);
    FeedConcat(s, [a] + [b] + [c], [d]);
    assert r.Header() == [a] + [b] + [c] + [d];
    SumFour(a, b, c, d);
  }

  lemma FeedCheck(s: State, c0: Chip, image: seq<byte>, check: byte)
    requires InData(s, c0, image) && s.dataRem == 0
    ensures Loaded(ByteStep(s.(data := check)), c0, image)
  {
    hide Pending, Part.Offset;
  }

  /** A data record that continues the image, whatever its checksum byte, extends it. */
  lemma RunDataRecord(s: State, c0: Chip, image: seq<byte>, r: Record)
    requires Loaded(s, c0, image) && r.kind == DATA && r.address == |image|
    requires |r.data| % 2 == 0 && |image| + |r.data| <= c0.part.bootStart
    ensures Loaded(Run(s, Print(r)), c0, image + r.data)
  {
    hide ByteStep, Feed, Stays, Pending, Part.Offset, Sum, HexAll;
    var t := Step(s, ':');
    FeedHeader(t, r);
    var h := Headed(t, r);
    FeedData(h, c0, image, r.data);
    var d := Feed(h, r.data);
    FeedOne(d, r.check);
    FeedCheck(d, c0, image + r.data, r.check);
    FeedConcat(t, r.Header(), r.data);
    FeedConcat(t, r.Header() + r.data, [r.check]);
    RunHexAll(t, r.Bytes());
    assert Print(r)[1..] == HexAll(r.Bytes());
  }

  ghost predicate EvenRecords(rs: seq<Record>) {
    rs != [] ==> |rs[0].data| % 2 == 0 && EvenRecords(rs[1..])
  }

  lemma {:induction false} RunDataRecords(s: State, c0: Chip, image: seq<byte>, rs: seq<Record>)
    requires Loaded(s, c0, image) && Contiguous(rs, |image|) && EvenRecords(rs)
    requires |image| + |Image(rs)| <= c0.part.bootStart
    ensures Loaded(Run(s, PrintAll(rs)), c0, image + Image(rs))
    decreases |rs|
  {
    hide Step, Pending, Part.Offset, Print;
    if rs == [] {
      assert image + Image(rs) == image;
    } else {
      assert s.chip.Valid();
      hide Run, Loaded;
      RunDataRecord(s, c0, image, rs[0]);
      RunAppend(s, Print(rs[0]), PrintAll(rs[1..]));
      RunDataRecords(Run(s, Print(rs[0])), c0, image + rs[0].data, rs[1..]);
      assert image + Image(rs) == (image + rs[0].data) + Image(rs[1..]);
    }
  }

  /** The end-of-file record stops the bootloader and flushes the page in progress, unless the
      record's own address lies in that page. */
  lemma RunEndRecord(s: State, c0: Chip, image: seq<byte>, eof: Record)
    requires Loaded(s, c0, image)
    requires eof.kind == END_OF_FILE && eof.data == [] && eof.Checked()
    ensures var t, p := Run(s, Print(eof)), c0.part;
            && !t.phase.WaitLine? && !t.runBootloader
            && t.chip == if p.Aligned(|image|) || p.Base(eof.address) == p.Base(|image|) then Pending(c0, image)
                         else Pending(c0, image).Commit(p.Base(|image|))
  {
    hide Feed, Stays, Pending, Part.Offset, Sum, HexAll;
    var t := Step(s, ':');
    FeedHeader(t, eof);
    var h := Headed(t, eof);
    assert eof.Header() + eof.data == eof.Header();
    FeedOne(h, eof.check);
    FeedConcat(t, eof.Header(), [eof.check]);
    RunHexAll(t, eof.Bytes());
    assert Print(eof)[1..] == HexAll(eof.Bytes());
  }

  /** Flushing the page in progress completes the image. */
  lemma PendingCommitted(c0: Chip, image: seq<byte>)
    requires c0.Valid() && c0.BufferBlank() && |image| <= c0.part.flashSize && |image| % 2 == 0
    ensures var p, done := c0.part, c0.(flash := Programmed(c0.part, c0.flash, 0, image));
            if p.Aligned(|image|) then Pending(c0, image) == done
            else Pending(c0, image).Commit(p.Base(|image|)) == done
  {
    hide Programmed, FillAll, Part.Offset, Blanks, Chip.Commit, Chip.Erase, Splice;
    var p, k := c0.part, |image|;
    var b := p.Base(k);
    p.BaseAligned(k);
    ProgrammedWhole(p, c0.flash, 0, image[..b]);
    if p.Aligned(k) {
      assert image[..b] == image;
    } else {
      p.OffsetParity(k);
      assert image == image[..b] + image[b..];
      ProgrammedConcat(p, c0.flash, 0, image[..b], image[b..]);
      ErasedPageProgrammed(c0.(flash := Programmed(p, c0.flash, 0, image[..b])), b, image[b..]);
    }
  }

  /** Without the flush the image is complete only if the last page is blank anyway. */
  lemma PendingUnflushed(c0: Chip, image: seq<byte>)
    requires c0.Valid() && |image| <= c0.part.flashSize && |image| % 2 == 0 && !c0.part.Aligned(|image|)
    ensures var b := c0.part.Base(|image|);
            Pending(c0, image).flash == Programmed(c0.part, c0.flash, 0, image)
            <==> image[b..] == Blanks(|image| - b)
  {
    hide FillAll, Part.Offset, Blanks, Splice;
    var p, k := c0.part, |image|;
    var b := p.Base(k);
    var first, tail := image[..b], image[b..];
    p.OffsetParity(k);
    p.BaseAligned(k);
    p.BaseBelow(b, p.flashSize);
    var done := Programmed(p, c0.flash, 0, first);
    assert image == first + tail;
    ProgrammedWhole(p, c0.flash, 0, first);
    ProgrammedConcat(p, c0.flash, 0, first, tail);
    p.PageEndInside(b, |tail|);
    var rest := Blanks(p.pageSize - |tail|);
    assert Blanks(0) + tail + rest == tail + rest;
    assert Programmed(p, c0.flash, 0, image) == Splice(done, b, tail + rest);
    assert Pending(c0, image).flash == Splice(done, b, Blanks(p.pageSize));
    SpliceInjective(done, b, tail + rest, Blanks(p.pageSize));
    BlankPrefix(tail, p.pageSize);
  }

  lemma SpliceInjective<T>(s: seq<T>, at: nat, d1: seq<T>, d2: seq<T>)
    requires at + |d1| <= |s| && |d1| == |d2|
    ensures Splice(s, at, d1) == Splice(s, at, d2) <==> d1 == d2
  {
    assert Splice(s, at, d1)[at..at + |d1|] == d1;
    assert Splice(s, at, d2)[at..at + |d1|] == d2;
  }

  lemma BlankPrefix(d: seq<byte>, n: nat)
    requires |d| <= n
    ensures d + Blanks(n - |d|) == Blanks(n) <==> d == Blanks(|d|)
  {
    assert Blanks(n)[..|d|] == Blanks(|d|);
    assert (d + Blanks(n - |d|))[..|d|] == d;
    assert Blanks(|d|) + Blanks(n - |d|) == Blanks(n);
  }

  lemma ResetLoaded(c0: Chip)
    requires c0.Valid() && c0.BufferBlank()
    ensures Loaded(Reset(c0), c0, [])
  {
    var none: seq<byte> := [];
    assert none[..0] == none && Splice(c0.flash, 0, none) == c0.flash;
  }

  /** The whole text of a file, with anything that is neither a colon nor an upper-case digit
      strewn between its characters. */
  ghost predicate TextOf(text: string, rs: seq<Record>, eof: Record) {
    && Filter(text) == PrintAll(rs) + Print(eof)
    && eof.kind == END_OF_FILE && eof.data == [] && eof.Checked()
  }

  /** The end-of-file record finds no unflushed page, or lies outside it, or that page is blank. */
  ghost predicate Flushed(part: Part, image: seq<byte>, eof: Record)
    requires part.Valid()
  {
    var b := part.Base(|image|);
    part.Aligned(|image|) || part.Base(eof.address) != b || image[b..] == Blanks(|image| - b)
  }

  lemma FileRun(c0: Chip, text: string, rs: seq<Record>, eof: Record)
    requires c0.Valid() && c0.BufferBlank() && TextOf(text, rs, eof)
    requires Contiguous(rs, 0) && EvenRecords(rs) && |Image(rs)| <= c0.part.bootStart
    ensures |Image(rs)| % 2 == 0
    ensures var s, p, k := Run(Reset(c0), text), c0.part, |Image(rs)|;
            && !s.runBootloader
            && s.chip == if p.Aligned(k) || p.Base(eof.address) == p.Base(k) then Pending(c0, Image(rs))
                         else Pending(c0, Image(rs)).Commit(p.Base(k))
  {
    hide Step, Run, Pending, Part.Offset, Contiguous, Print, PrintAll, EvenRecords, Filter, Image;
    var r := Reset(c0);
    ResetLoaded(c0);
    assert [] + Image(rs) == Image(rs);
    RunDataRecords(r, c0, [], rs);
    RunEndRecord(Run(r, PrintAll(rs)), c0, Image(rs), eof);
    RunAppend(r, PrintAll(rs), Print(eof));
    SeparatorsIgnored(r, r, text);
  }

  /** Streaming a HEX file from reset. The file holds any even-length data records that follow one
      another from address 0, with any checksum bytes, and a correct end-of-file record. The
      bootloader stops, and flash holds the image - last page padded with 0xFF, other pages
      untouched - exactly when the last page was flushed. */
  lemma FileProgrammed(c0: Chip, text: string, rs: seq<Record>, eof: Record)
    requires c0.Valid() && c0.BufferBlank() && TextOf(text, rs, eof)
    requires Contiguous(rs, 0) && EvenRecords(rs) && |Image(rs)| <= c0.part.bootStart
    ensures var s := Run(Reset(c0), text);
            && !s.runBootloader && s.chip.eeprom == c0.eeprom
            && (s.chip.flash == Programmed(c0.part, c0.flash, 0, Image(rs)) <==> Flushed(c0.part, Image(rs), eof))
  {
    hide Run, Programmed, Part.Offset, Contiguous, EvenRecords, TextOf, Image;
    FileRun(c0, text, rs, eof);
    PendingCommitted(c0, Image(rs));
    if !c0.part.Aligned(|Image(rs)|) {
      PendingUnflushed(c0, Image(rs));
    }
  }

  /** With the usual end-of-file record at address 0, images of at least a page are programmed. */
  lemma WholePageImagesProgrammed(c0: Chip, text: string, rs: seq<Record>, eof: Record)
    requires c0.Valid() && c0.BufferBlank() && TextOf(text, rs, eof) && eof.address == 0
    requires Contiguous(rs, 0) && EvenRecords(rs) && c0.part.pageSize <= |Image(rs)| <= c0.part.bootStart
    ensures var s := Run(Reset(c0), text);
            !s.runBootloader && s.chip == c0.(flash := Programmed(c0.part, c0.flash, 0, Image(rs)))
  {
    hide Run, Programmed, Contiguous, EvenRecords, TextOf, Image, Pending, Chip.Commit;
    FileRun(c0, text, rs, eof);
    PendingCommitted(c0, Image(rs));
  }

  // Extended addresses

  lemma CheckKeepsBase(s: State)
    requires s.chip.Valid() && s.phase.Checksum?
    ensures ByteStep(s).baseAddress == s.baseAddress
  {
    hide Part.Offset, Chip.Commit;
  }

  lemma FeedTwo(h: State, x: byte, y: byte, check: byte, d: State, e: State)
    requires h.chip.Valid() && !h.phase.WaitLine?
    requires d == ByteStep(h.(data := x)) && !d.phase.WaitLine?
    requires e == ByteStep(d.(data := y)) && !e.phase.WaitLine?
    ensures Stays(h, [x] + [y] + [check]) && Feed(h, [x] + [y] + [check]) == ByteStep(e.(data := check))
  {
    hide ByteStep, Feed, Stays;
    FeedOne(h, x);
    FeedOne(d, y);
    FeedOne(e, check);
    FeedConcat(h, [x], [y]);
    FeedConcat(h, [x] + [y], [check]);
  }

  lemma BytesOfTwo(r: Record)
    requires |r.data| == 2
    ensures r.Bytes() == r.Header() + ([r.data[0]] + [r.data[1]] + [r.check])
  {
    var header, x, y: byte := r.Header(), r.data[0], r.data[1];
    assert r.data == [x] + [y];
    assert header + ([x] + [y]) + [r.check] == header + ([x] + [y] + [r.check]);
  }

  /** A record of two data bytes that is given up at neither of them: header and bytes lead to `h`, `d`
      and `e`. */
  lemma TwoBytes(s: State, r: Record, h: State, d: State, e: State)
    requires s.chip.Valid() && |r.data| == 2 && h == Headed(Step(s, ':'), r) && h.chip.Valid() && !h.phase.WaitLine?
    requires d == ByteStep(h.(data := r.data[0])) && !d.phase.WaitLine?
    requires e == ByteStep(d.(data := r.data[1])) && !e.phase.WaitLine?
    ensures Run(s, Print(r)) == ByteStep(e.(data := r.check))
  {
    hide ByteStep, Feed, Stays, HexAll, Run, Step, Headed, Record.Bytes, Record.Header;
    var t, tail := Step(s, ':'), [r.data[0]] + [r.data[1]] + [r.check];
    RunPrint(s, r);
    FeedHeader(t, r);
    FeedTwo(h, r.data[0], r.data[1], r.check, d, e);
    FeedConcat(t, r.Header(), tail);
    BytesOfTwo(r);
    RunHexAll(t, r.Bytes());
  }

  lemma RunPrint(s: State, r: Record)
    requires s.chip.Valid()
    ensures var t := Step(s, ':');
            t.phase.ByteCount? && t.checksum == 0 && !t.readMSB && Run(s, Print(r)) == Run(t, HexAll(r.Bytes()))
  {
    hide ByteStep, HexAll;
    assert Print(r)[1..] == HexAll(r.Bytes());
  }

  /** An extended address record sets the base from its two bytes low byte first, unless its own
      address, from the base before, is in the boot section: then the base stays. */
  lemma ExtendedAddress(s: State, r: Record)
    requires s.chip.Valid() && s.baseAddress + r.address < 0x1_0000_0000
    requires (r.kind == 2 || r.kind == 4) && |r.data| == 2
    ensures Run(s, Print(r)).baseAddress
            == if s.baseAddress + r.address >= s.chip.part.bootStart then s.baseAddress
               else Word(r.data[0], r.data[1]) * (if r.kind == 2 then 0x10 else 0x1_0000)
  {
    hide ByteStep, Feed, Stays, Part.Offset, Sum, HexAll;
    var t := Step(s, ':');
    var x, y := r.data[0], r.data[1];
    FeedHeader(t, r);
    var h := Headed(t, r);
    if s.baseAddress + r.address >= s.chip.part.bootStart {
      CutAtOnce(s, r);
    } else {
      var d := ByteStep(h.(data := x));
      var e := ByteStep(d.(data := y));
      ReadLowByte(h.(data := x));
      ReadHighByte(d.(data := y));
      CheckKeepsBase(e.(data := r.check));
      TwoBytes(s, r, h, d, e);
    }
  }

  lemma {:induction false} HexAllConcat(a: seq<byte>, b: seq<byte>)
    ensures HexAll(a + b) == HexAll(a) + HexAll(b)
    decreases |a|
  {
    if a == [] {
      assert a + b == b;
    } else {
      assert (a + b)[1..] == a[1..] + b;
      HexAllConcat(a[1..], b);
    }
  }

  /** Digits that reach a waiting parser change neither the base nor the flag. */
  lemma {:induction false} WaitsOut(s: State, bytes: seq<byte>)
    requires s.chip.Valid() && s.phase.WaitLine?
    ensures var t := Run(s, HexAll(bytes));
            t.phase.WaitLine? && t.baseAddress == s.baseAddress && t.runBootloader == s.runBootloader && t.chip == s.chip
    decreases |bytes|
  {
    hide Digit, ByteStep;
    if bytes != [] {
      var c1, c2 := Digit(bytes[0] / 16), Digit(bytes[0] % 16);
      DigitDecodes(bytes[0] / 16);
      DigitDecodes(bytes[0] % 16);
      var u := Step(Step(s, c1), c2);
      assert Hex(bytes[0]) == [c1] + [c2];
      RunAppend(s, [c1], [c2]);
      assert Run(s, [c1]) == Step(s, c1) && Run(Step(s, c1), [c2]) == u;
      RunAppend(s, Hex(bytes[0]), HexAll(bytes[1..]));
      WaitsOut(u, bytes[1..]);
    }
  }

  /** A record with data whose address is in the boot section is given up at its first data byte:
      whatever its type, it changes neither flash nor base nor flag. */
  lemma CutAtOnce(s: State, r: Record)
    requires s.chip.Valid() && r.data != []
    requires s.chip.part.bootStart <= s.baseAddress + r.address < 0x1_0000_0000
    ensures var t := Run(s, Print(r));
            t.phase.WaitLine? && t.baseAddress == s.baseAddress && t.runBootloader == s.runBootloader && t.chip == s.chip
  {
    hide Feed, Stays, Part.Offset, Sum, HexAll, Run;
    var t, x := Step(s, ':'), r.data[0];
    var h := Headed(t, r);
    FeedHeader(t, r);
    FeedOne(h, x);
    FeedConcat(t, r.Header(), [x]);
    var first, rest := r.Header() + [x], r.data[1..] + [r.check];
    RunHexAll(t, first);
    var d := ByteStep(h.(data := x));
    assert d.phase.WaitLine? && d.baseAddress == s.baseAddress && d.chip == s.chip;
    WaitsOut(d, rest);
    assert r.Bytes() == first + rest;
    HexAllConcat(first, rest);
    assert Print(r) == [':'] + (HexAll(first) + HexAll(rest));
    RunAppend(s, [':'], HexAll(first) + HexAll(rest));
    RunAppend(t, HexAll(first), HexAll(rest));
    assert Run(s, [':']) == t by { RunOne(s, ':'); }
  }

  lemma RunOne(s: State, c: char)
    requires s.chip.Valid()
    ensures Run(s, [c]) == Step(s, c)
  {
    assert Run(Step(s, c), []) == Step(s, c);
  }

  /** The record that moves the base to 0x10000 moves it to 0x1000000. */
  lemma ExtendedSwapped(chip: Chip, r: Record)
    requires chip.Valid() && r == Record(0, 4, [0x00, 0x01], 0xF9)
    ensures Word(r.data[1], r.data[0]) * 0x1_0000 == 0x1_0000 && Run(Reset(chip), Print(r)).baseAddress == 0x100_0000
  {
    hide Run, Print;
    chip.part.BaseBelow(0, chip.part.bootStart);
    ExtendedAddress(Reset(chip), r);
  }

  /** An end-of-file record of correct checksum that carries data for an address in the boot section
      does not end the bootloader. */
  lemma EndRecordGivenUp(chip: Chip, r: Record)
    requires chip.Valid() && chip.part.bootStart <= 0xFFFE && r == Record(0xFFFE, END_OF_FILE, [0, 0], 0)
    ensures r.Checked() && Run(Reset(chip), Print(r)).runBootloader
  {
    hide Run, Print;
    CutAtOnce(Reset(chip), r);
    SumFour(2, 0xFF, 0xFE, 1);
    SumAppend(r.Header(), 0);
    SumAppend(r.Header() + [0], 0);
    assert r.Header() + r.data == r.Header() + [0] + [0];
    assert r.Header() == [2, 0xFF, 0xFE, 1];
  }
}
