/** Whole HEX files: what the host loader makes of them, and that it agrees with the streaming parser
    of the printer bootloader. */
module HexFiles {
  import opened Chips
  import opened Programming
  import opened HexText
  import opened HexReader
  import opened HexReading
  import Printer
  import PrinterStreams
  import PrinterProgramming

  /** A line of a file: a printed record and whatever follows it, up to the newline if there is one. */
  datatype Line = Line(record: Record, tail: string) {

    function Text(): string {
      Print(record) + tail
    }

    /** It fits the line buffer, with no newline but at its end and no NUL. */
    ghost predicate Valid() {
      && |tail| <= LINE_LIMIT - 11 - 2 * |record.data|
      && (forall i :: 0 <= i < |tail| ==> tail[i] != '\0')
      && (forall i :: 0 <= i < |tail| - 1 ==> tail[i] != '\n')
    }

    predicate Terminated() {
      tail != [] && tail[|tail| - 1] == '\n'
    }
  }

  /** The lines of a file; the last may lack its newline. */
  ghost predicate Lines(ls: seq<Line>) {
    forall i :: 0 <= i < |ls| ==> ls[i].Valid() && (i < |ls| - 1 ==> ls[i].Terminated())
  }

  function TextOf(ls: seq<Line>): string {
    if ls == [] then [] else ls[0].Text() + TextOf(ls[1..])
  }

  // Cutting a text into lines

  predicate Plain(c: char) {
    c != '\n' && c != '\0'
  }

  lemma {:induction false} HexAllPlain(bytes: seq<byte>)
    ensures forall i :: 0 <= i < |HexAll(bytes)| ==> Plain(HexAll(bytes)[i])
    decreases |bytes|
  {
    if bytes != [] {
      hide Digit;
      DigitScans(bytes[0] / 16);
      DigitScans(bytes[0] % 16);
      HexAllPlain(bytes[1..]);
    }
  }

  lemma {:induction false} LineLengthOf(line: string, rest: string, limit: nat)
    requires 0 < |line| <= limit && (line[|line| - 1] == '\n' || rest == [])
    requires forall i :: 0 <= i < |line| - 1 ==> line[i] != '\n'
    ensures LineLength(line + rest, limit) == |line|
    decreases |line|
  {
    assert (line + rest)[1..] == line[1..] + rest;
    if |line| > 1 {
      LineLengthOf(line[1..], rest, limit - 1);
    }
  }

  lemma {:induction false} CStringOf(line: string)
    requires forall i :: 0 <= i < |line| ==> line[i] != '\0'
    ensures CString(line) == line
    decreases |line|
  {
    if line != [] {
      CStringOf(line[1..]);
    }
  }

  lemma FirstLine(l: Line, rest: string)
    requires l.Valid() && (l.Terminated() || rest == [])
    ensures var text := l.Text() + rest;
            var n := LineLength(text, LINE_LIMIT);
            n == |l.Text()| && CString(text[..n]) == l.Text() && text[n..] == rest && l.Text() != []
  {
    var line := l.Text();
    PrintLength(l.record);
    HexAllPlain(l.record.Bytes());
    hide HexAll;
    forall i | 0 <= i < |line|
      ensures line[i] != '\0' && (i < |line| - 1 ==> line[i] != '\n')
    {
      if 0 < i < |Print(l.record)| {
        assert line[i] == HexAll(l.record.Bytes())[i - 1];
        assert Plain(line[i]);
      }
    }
    LineLengthOf(line, rest, LINE_LIMIT);
    assert (line + rest)[..|line|] == line;
    CStringOf(line);
  }

  // Files

  /** The fold of records into the image, in file order; nothing after the end record counts. */
  function LoadAll(r: Reader, ls: seq<Line>): (q: Reader)
    requires r.Valid() && Sound(r, ls)
    ensures q.Valid()
    decreases |ls|
  {
    if ls == [] || r.endSeen then r else LoadAll(LoadRecord(r, ls[0].record).reader, ls[1..])
  }

  /** Up to the end record, every record lies inside the image and every data record has a correct
      checksum. */
  ghost predicate Sound(r: Reader, ls: seq<Line>)
    requires r.Valid()
    decreases |ls|
  {
    ls != [] && !r.endSeen ==>
      var rec := ls[0].record;
      Fits(r, rec) && (rec.kind == DATA ==> rec.Checked()) && Sound(LoadRecord(r, rec).reader, ls[1..])
  }

  /** As long as the records are sound, their addresses do not wrap around 32 bits. */
  ghost predicate Unwrapped(r: Reader, ls: seq<Line>)
    requires r.Valid()
    decreases |ls|
  {
    ls != [] && !r.endSeen ==>
      var rec := ls[0].record;
      && rec.address + r.extended + |rec.data| < 0x1_0000_0000
      && (Fits(r, rec) ==> Unwrapped(LoadRecord(r, rec).reader, ls[1..]))
  }

  /** Reading the text of a file is folding its records. */
  lemma {:induction false} TextRead(r: Reader, ls: seq<Line>)
    requires r.Valid() && !r.endSeen && Sound(r, ls)
    requires Lines(ls)
    ensures ReadText(r, TextOf(ls)) == Parsed(LoadAll(r, ls), Accepted)
    decreases |ls|
  {
    hide ParseLine, LineLength, CString, Line.Text, StoreAll, Record.Checked;
    if ls != [] {
      var l, rest := ls[0], TextOf(ls[1..]);
      assert l.Valid() && (l.Terminated() || rest == []);
      FirstLine(l, rest);
      assert l.Text() == Print(l.record) + l.tail by { LineText(l); }
      LineRead(r, l.record, l.tail);
      var q := LoadRecord(r, l.record).reader;
      if !q.endSeen {
        TextRead(q, ls[1..]);
      } else {
        assert LoadAll(q, ls[1..]) == q;
      }
    }
  }

  /** A file with an unsound record is refused. */
  lemma {:induction false} TextRefused(r: Reader, ls: seq<Line>)
    requires r.Valid() && !r.endSeen && Unwrapped(r, ls) && !Sound(r, ls)
    requires Lines(ls)
    ensures ReadText(r, TextOf(ls)).verdict.Rejected?
    decreases |ls|
  {
    hide ParseLine, LineLength, CString, Line.Text, StoreAll, Record.Checked;
    var l, rest := ls[0], TextOf(ls[1..]);
    assert l.Valid() && (l.Terminated() || rest == []);
    FirstLine(l, rest);
    assert l.Text() == Print(l.record) + l.tail by { LineText(l); }
    LineRead(r, l.record, l.tail);
    if Fits(r, l.record) && (l.record.kind == DATA ==> l.record.Checked()) {
      TextRefused(LoadRecord(r, l.record).reader, ls[1..]);
    }
  }

  lemma LineText(l: Line)
    ensures l.Text() == Print(l.record) + l.tail
  {
  }

  // What a file means, from its records alone

  /** The base after a record: a correct extended address record moves it. */
  function NextBase(base: uint32, rec: Record): uint32 {
    if (rec.kind == 2 || rec.kind == 4) && |rec.data| == 2 && rec.Checked()
    then Word(rec.data[1], rec.data[0]) * (if rec.kind == 2 then 0x10 else 0x1_0000)
    else base
  }

  /** The byte that the last data record covering an address puts there, or -1; nothing after an end
      record counts. */
  function LastWriter(ls: seq<Line>, base: uint32, a: nat): (r: int)
    ensures -1 <= r < 0x100
  {
    if ls == [] || ls[0].record.kind == END_OF_FILE then -1
    else
      var rec := ls[0].record;
      var later, at := LastWriter(ls[1..], NextBase(base, rec), a), base + rec.address;
      if later >= 0 then later
      else if rec.kind == DATA && at <= a < at + |rec.data| then rec.data[a - at]
      else -1
  }

  /** Sum of the lengths of the data records up to the end record. */
  function DataCount(ls: seq<Line>): nat {
    if ls == [] || ls[0].record.kind == END_OF_FILE then 0
    else (if ls[0].record.kind == DATA then |ls[0].record.data| else 0) + DataCount(ls[1..])
  }

  predicate Ended(ls: seq<Line>) {
    ls != [] && (ls[0].record.kind == END_OF_FILE || Ended(ls[1..]))
  }

  lemma StoreAllAt(r: Reader, a: nat, data: seq<byte>, i: nat)
    requires r.Valid() && a + |data| <= MEMORY_SIZE && i < MEMORY_SIZE
    ensures var q := StoreAll(r, a, data);
            && q.image[i] == (if a <= i < a + |data| then data[i - a] else r.image[i])
            && q.mask[i] == (a <= i < a + |data| || r.mask[i])
  {
    hide Splice;
    SpliceAt(r.image, a, data, i);
    SpliceAt(r.mask, a, Trues(|data|), i);
  }

  lemma RecordLoaded(r: Reader, rec: Record, a: nat)
    requires r.Valid() && !r.endSeen && Fits(r, rec) && a < MEMORY_SIZE
    ensures var q, at := LoadRecord(r, rec).reader, r.extended + rec.address;
            var covered := rec.kind == DATA && at <= a < at + |rec.data|;
            && q.image[a] == (if covered then rec.data[a - at] else r.image[a])
            && q.mask[a] == (covered || r.mask[a])
            && q.byteCount == r.byteCount + (if rec.kind == DATA then |rec.data| else 0)
            && q.endSeen == (rec.kind == END_OF_FILE) && q.extended == NextBase(r.extended, rec)
  {
    hide StoreAll, Record.Checked;
    if rec.kind == DATA {
      StoreAllAt(r, rec.address + r.extended, rec.data, a);
      StoreAllKeeps(r, rec.address + r.extended, rec.data);
    }
  }

  lemma StoreAllKeeps(r: Reader, a: nat, data: seq<byte>)
    requires r.Valid() && a + |data| <= MEMORY_SIZE
    ensures var q := StoreAll(r, a, data);
            q == r.(image := q.image, mask := q.mask)
  {
  }

  /** Later records overwrite earlier ones; exactly the bytes that some data record covers are marked. */
  lemma {:induction false} LastWriterWins(r: Reader, ls: seq<Line>, a: nat)
    requires r.Valid() && !r.endSeen && Sound(r, ls) && a < MEMORY_SIZE
    ensures var q, b := LoadAll(r, ls), LastWriter(ls, r.extended, a);
            && q.image[a] == (if b >= 0 then b else r.image[a])
            && q.mask[a] == (b >= 0 || r.mask[a])
            && q.byteCount == r.byteCount + DataCount(ls) && q.endSeen == Ended(ls)
    decreases |ls|
  {
    hide LoadRecord, NextBase, Record.Checked, Fits;
    if ls != [] {
      var rec := ls[0].record;
      RecordLoaded(r, rec, a);
      var q := LoadRecord(r, rec).reader;
      if q.endSeen {
        assert LoadAll(q, ls[1..]) == q;
      } else {
        LastWriterWins(q, ls[1..], a);
      }
    }
  }

  /** Every file of sound records, of whatever kinds: the loader accepts it, holds at each address the
      byte of the last data record covering it and 0xFF where there is none, marks exactly the covered
      bytes and returns the sum of the data lengths. */
  lemma FileMeans(ls: seq<Line>, a: nat)
    requires Sound(Blank(), ls) && a < MEMORY_SIZE && Lines(ls)
    ensures var p, b := ReadText(Blank(), TextOf(ls)), LastWriter(ls, 0, a);
            && p.verdict.Accepted?
            && p.reader.image[a] == (if b >= 0 then b else BLANK)
            && p.reader.mask[a] == (b >= 0)
            && p.reader.byteCount == DataCount(ls)
  {
    hide ReadText, LoadAll, Sound, LastWriter, DataCount, TextOf, Line.Valid;
    TextRead(Blank(), ls);
    LastWriterWins(Blank(), ls, a);
  }

  // Files of data records

  ghost predicate DataLines(ls: seq<Line>) {
    forall i :: 0 <= i < |ls| ==>
      ls[i].Valid() && ls[i].Terminated() && ls[i].record.Checked() && ls[i].record.kind == DATA
  }

  function Records(ls: seq<Line>): (rs: seq<Record>)
    ensures |rs| == |ls|
  {
    if ls == [] then [] else [ls[0].record] + Records(ls[1..])
  }

  lemma StoreNext(r: Reader, image: seq<byte>, data: seq<byte>)
    requires r.Valid() && |image| + |data| <= MEMORY_SIZE
    ensures StoreAll(StoreAll(r, 0, image), |image|, data) == StoreAll(r, 0, image + data)
  {
    hide Splice;
    SpliceNext(r.image, 0, image, data);
    SpliceNext(r.mask, 0, Trues(|image|), Trues(|data|));
    assert Trues(|image|) + Trues(|data|) == Trues(|image + data|);
  }

  /** A reader that has `image` from address 0 on and nothing else. */
  function Holding(image: seq<byte>): (r: Reader)
    requires |image| <= MEMORY_SIZE
    ensures r.Valid()
  {
    StoreAll(Blank(), 0, image).(byteCount := |image|)
  }

  lemma {:induction false} ContiguousLoad(image: seq<byte>, ls: seq<Line>)
    requires DataLines(ls) && Contiguous(Records(ls), |image|) && |image| + |Image(Records(ls))| < MEMORY_SIZE
    ensures Sound(Holding(image), ls)
    ensures LoadAll(Holding(image), ls) == Holding(image + Image(Records(ls)))
    decreases |ls|
  {
    hide StoreAll, Line.Valid, Blank, Record.Checked;
    if ls == [] {
      assert image + Image(Records(ls)) == image;
    } else {
      var rec, rest := ls[0].record, Records(ls[1..]);
      assert Records(ls)[1..] == rest && ls[0].record.kind == DATA;
      HoldingPlain(image);
      StoreNext(Blank(), image, rec.data);
      StoreKeepsCount(Blank(), image, rec.data);
      assert LoadRecord(Holding(image), rec).reader == Holding(image + rec.data);
      ContiguousLoad(image + rec.data, ls[1..]);
      assert image + Image(Records(ls)) == (image + rec.data) + Image(rest);
    }
  }

  lemma HoldingPlain(image: seq<byte>)
    requires |image| <= MEMORY_SIZE
    ensures !Holding(image).endSeen && Holding(image).extended == 0
  {
  }

  lemma StoreKeepsCount(r: Reader, image: seq<byte>, data: seq<byte>)
    requires r.Valid() && |image| + |data| <= MEMORY_SIZE
    ensures StoreAll(StoreAll(r, 0, image).(byteCount := |image|), |image|, data).(byteCount := |image| + |data|)
            == StoreAll(StoreAll(r, 0, image), |image|, data).(byteCount := |image| + |data|)
  {
  }

  // Both readers on one file

  /** What follows the records means nothing to the streaming parser. */
  ghost predicate Separators(s: string) {
    forall i :: 0 <= i < |s| ==> !PrinterStreams.Significant(s[i])
  }

  lemma {:induction false} FilterConcat(s: string, t: string)
    ensures PrinterStreams.Filter(s + t) == PrinterStreams.Filter(s) + PrinterStreams.Filter(t)
    decreases |s|
  {
    if s == [] {
      assert s + t == t;
    } else {
      assert (s + t)[1..] == s[1..] + t;
      FilterConcat(s[1..], t);
    }
  }

  lemma {:induction false} FilterAll(s: string)
    requires forall i :: 0 <= i < |s| ==> PrinterStreams.Significant(s[i])
    ensures PrinterStreams.Filter(s) == s
    decreases |s|
  {
    if s != [] {
      FilterAll(s[1..]);
    }
  }

  lemma {:induction false} FilterSeparators(s: string)
    requires Separators(s)
    ensures PrinterStreams.Filter(s) == []
    decreases |s|
  {
    if s != [] {
      FilterSeparators(s[1..]);
    }
  }

  lemma {:induction false} HexAllSignificant(bytes: seq<byte>)
    ensures forall i :: 0 <= i < |HexAll(bytes)| ==> PrinterStreams.Significant(HexAll(bytes)[i])
    decreases |bytes|
  {
    if bytes != [] {
      hide Digit, PrinterStreams.Significant;
      SignificantDigit(bytes[0] / 16);
      SignificantDigit(bytes[0] % 16);
      HexAllSignificant(bytes[1..]);
    }
  }

  lemma SignificantDigit(n: nat)
    requires n < 16
    ensures PrinterStreams.Significant(Digit(n))
  {
    PrinterProgramming.DigitDecodes(n);
  }

  lemma FilterLine(l: Line)
    requires Separators(l.tail)
    ensures PrinterStreams.Filter(l.Text()) == Print(l.record)
  {
    hide HexAll, PrinterStreams.Filter;
    var hex := HexAll(l.record.Bytes());
    HexAllSignificant(l.record.Bytes());
    assert Print(l.record) == [':'] + hex;
    FilterAll(Print(l.record));
    FilterSeparators(l.tail);
    FilterConcat(Print(l.record), l.tail);
  }

  lemma {:induction false} FilterText(ls: seq<Line>)
    requires forall i :: 0 <= i < |ls| ==> Separators(ls[i].tail)
    ensures PrinterStreams.Filter(TextOf(ls)) == PrintAll(Records(ls))
    decreases |ls|
  {
    if ls != [] {
      hide Line.Text, Print, PrinterStreams.Filter, Separators;
      FilterLine(ls[0]);
      FilterText(ls[1..]);
      FilterConcat(ls[0].Text(), TextOf(ls[1..]));
      assert Records(ls)[1..] == Records(ls[1..]);
    } else {
      assert PrinterStreams.Filter([]) == [];
    }
  }

  lemma {:induction false} TextAppend(ls: seq<Line>, l: Line)
    ensures TextOf(ls + [l]) == TextOf(ls) + l.Text()
    decreases |ls|
  {
    hide Line.Text;
    if ls == [] {
      assert ls + [l] == [l] && [l][1..] == [];
      assert TextOf([l]) == l.Text() + TextOf([]);
    } else {
      assert (ls + [l])[1..] == ls[1..] + [l];
      TextAppend(ls[1..], l);
    }
  }

  /** A file of data lines that follow one another from address 0, and an end-of-file line. */
  ghost predicate FileShape(ls: seq<Line>, eof: Line) {
    && DataLines(ls) && Contiguous(Records(ls), 0) && |Image(Records(ls))| < MEMORY_SIZE
    && eof.Valid() && eof.record.kind == END_OF_FILE && eof.record.data == [] && eof.record.Checked()
  }

  lemma {:induction false} LoadAppend(r: Reader, ls: seq<Line>, eof: Line)
    requires r.Valid() && Sound(r, ls) && !LoadAll(r, ls).endSeen && !r.endSeen
    requires LoadAll(r, ls).extended == 0 && eof.record.kind == END_OF_FILE && eof.record.data == []
    ensures Sound(r, ls + [eof]) && LoadAll(r, ls + [eof]) == LoadAll(r, ls).(endSeen := true)
    decreases |ls|
  {
    if ls == [] {
      assert ls + [eof] == [eof] && [eof][1..] == [];
      var q := LoadRecord(r, eof.record).reader;
      assert LoadAll(q, []) == q && Sound(q, []);
    } else {
      hide LoadRecord, Fits;
      assert (ls + [eof])[1..] == ls[1..] + [eof];
      var q := LoadRecord(r, ls[0].record).reader;
      LoadAppend(q, ls[1..], eof);
    }
  }

  /** The host loader reads such a file back as its image: printing then reading is the identity. */
  lemma FileRead(ls: seq<Line>, eof: Line)
    requires FileShape(ls, eof)
    ensures ReadText(Blank(), TextOf(ls + [eof])) == Parsed(Holding(Image(Records(ls))).(endSeen := true), Accepted)
  {
    hide LoadAll, Sound, ReadText, Line.Valid, StoreAll, Contiguous, Blank, LoadRecord;
    var image := Image(Records(ls));
    assert Holding([]) == Blank() by { HoldingNone(); }
    ContiguousLoad([], ls);
    assert [] + image == image;
    HoldingPlain(image);
    HoldingPlain([]);
    LoadAppend(Blank(), ls, eof);
    TextRead(Blank(), ls + [eof]);
  }

  lemma HoldingNone()
    ensures Holding([]) == Blank()
  {
    var none: seq<byte> := [];
    assert Splice(Blank().image, 0, none) == Blank().image && Splice(Blank().mask, 0, Trues(0)) == Blank().mask;
  }

  /** Flash holds what the host loader has read, from address 0 on, with the last page padded. */
  ghost predicate Holds(c0: Chip, device: Chip, host: Reader)
    requires c0.Valid() && host.Valid()
  {
    && host.byteCount <= MEMORY_SIZE && host.byteCount <= c0.part.flashSize
    && device.flash == Programmed(c0.part, c0.flash, 0, host.image[..host.byteCount])
  }

  /** On a file that both can hold, the streaming parser leaves in flash exactly the image that the
      host loader has read - under the streaming parser's condition that the last page was flushed. */
  lemma ReadersAgree(c0: Chip, ls: seq<Line>, eof: Line)
    requires c0.Valid() && c0.BufferBlank() && FileShape(ls, eof)
    requires PrinterProgramming.EvenRecords(Records(ls)) && |Image(Records(ls))| <= c0.part.bootStart
    requires Separators(eof.tail) && forall i :: 0 <= i < |ls| ==> Separators(ls[i].tail)
    ensures var text := TextOf(ls + [eof]);
            Holds(c0, Printer.Run(Printer.Reset(c0), text).chip, ReadText(Blank(), text).reader)
            <==> PrinterProgramming.Flushed(c0.part, Image(Records(ls)), eof.record)
  {
    hide ReadText, Printer.Run, PrinterProgramming.EvenRecords, Contiguous, DataLines, Programmed;
    hide PrinterProgramming.Flushed, Separators, TextOf;
    var rs, image := Records(ls), Image(Records(ls));
    FileRead(ls, eof);
    assert Holding(image).image[..|image|] == image by { HoldingImage(image); }
    FileFiltered(ls, eof);
    PrinterProgramming.FileProgrammed(c0, TextOf(ls + [eof]), rs, eof.record);
  }

  lemma HoldingImage(image: seq<byte>)
    requires |image| <= MEMORY_SIZE
    ensures Holding(image).image[..|image|] == image && Holding(image).byteCount == |image|
  {
    hide Blank;
  }

  lemma FileFiltered(ls: seq<Line>, eof: Line)
    requires FileShape(ls, eof) && Separators(eof.tail) && forall i :: 0 <= i < |ls| ==> Separators(ls[i].tail)
    ensures PrinterProgramming.TextOf(TextOf(ls + [eof]), Records(ls), eof.record)
  {
    hide PrinterStreams.Filter, Separators, Print, PrintAll;
    TextAppend(ls, eof);
    FilterConcat(TextOf(ls), eof.Text());
    FilterText(ls);
    FilterLine(eof);
  }

  /** The file of the two bytes 0x12 and 0x34: the host loader reads it, and the streaming parser
      accepts it and stops, but leaves flash without it. */
  lemma ShortImageLost(c0: Chip, line: Line, eof: Line)
    requires c0.Valid() && c0.BufferBlank()
    requires line == Line(Record(0, DATA, [0x12, 0x34], 0xB8), "\n") && eof == Line(Record(0, END_OF_FILE, [], 0xFF), "\n")
    ensures var text := TextOf([line] + [eof]);
            var s := Printer.Run(Printer.Reset(c0), text);
            && !s.runBootloader && s.chip.flash != Programmed(c0.part, c0.flash, 0, [0x12, 0x34])
            && !Holds(c0, s.chip, ReadText(Blank(), text).reader)
  {
    hide Printer.Run, ReadText, Programmed, TextOf, Holds, PrinterProgramming.EvenRecords;
    ShortFile(line, eof);
    FileFiltered([line], eof);
    c0.part.BaseBelow(0, c0.part.bootStart);
    var data: seq<byte> := [0x12, 0x34];
    PrinterProgramming.FileProgrammed(c0, TextOf([line] + [eof]), [line.record], eof.record);
    ReadersAgree(c0, [line], eof);
    assert data[0..] == data && data[0] != Blanks(2)[0];
  }

  lemma ShortFile(line: Line, eof: Line)
    requires line == Line(Record(0, DATA, [0x12, 0x34], 0xB8), "\n") && eof == Line(Record(0, END_OF_FILE, [], 0xFF), "\n")
    ensures FileShape([line], eof) && Records([line]) == [line.record] && Image([line.record]) == [0x12, 0x34]
    ensures PrinterProgramming.EvenRecords([line.record]) && Separators("\n")
  {
    ShortSums(line.record, eof.record);
    hide Record.Checked;
    assert [line][1..] == [] && [line.record][1..] == [] && Records([line]) == [line.record] + [];
    assert Image([line.record]) == [0x12, 0x34] + [];
    assert line.Valid() && eof.Valid();
    assert Records([line])[1..] == [] && Contiguous(Records([line]), 0);
  }

  lemma ShortSums(r: Record, eof: Record)
    requires r == Record(0, DATA, [0x12, 0x34], 0xB8) && eof == Record(0, END_OF_FILE, [], 0xFF)
    ensures r.Checked() && eof.Checked()
  {
    hide Sum;
    PrinterProgramming.SumFour(2, 0, 0, 0);
    PrinterProgramming.SumFour(0, 0, 0, 1);
    PrinterStreams.SumAppend([2, 0, 0, 0], 0x12);
    PrinterStreams.SumAppend([2, 0, 0, 0] + [0x12], 0x34);
    assert r.Header() + r.data == [2, 0, 0, 0] + [0x12] + [0x34];
    assert eof.Header() + eof.data == [0, 0, 0, 1];
  }

  /** On an extended address record the host loader takes the address that the format means, high byte
      first. The streaming parser does exactly when the record's address is below the boot section and
      its two bytes are equal, or when it keeps a base that happens to be that address. */
  lemma ExtendedAgree(s: Printer.State, r: Reader, rec: Record, tail: string)
    requires s.chip.Valid() && s.baseAddress + rec.address < 0x1_0000_0000
    requires r.Valid() && Fits(r, rec) && (rec.kind == 2 || rec.kind == 4) && |rec.data| == 2 && rec.Checked()
    ensures var meant := Word(rec.data[1], rec.data[0]) * (if rec.kind == 2 then 0x10 else 0x1_0000);
            && ParseLine(r, Print(rec) + tail).reader.extended == meant
            && (Printer.Run(s, Print(rec)).baseAddress == meant
                <==> if s.baseAddress + rec.address < s.chip.part.bootStart then rec.data[0] == rec.data[1]
                     else s.baseAddress == meant)
  {
    hide Print, ParseLine, Printer.Run, Record.Checked;
    LineRead(r, rec, tail);
    PrinterProgramming.ExtendedAddress(s, rec);
  }
}
