/** What holds of the printer bootloader's parser on every stream of characters. */
module PrinterStreams {
  import opened Chips
  import opened HexText
  import opened Printer

  lemma {:induction false} RunAppend(s: State, text: string, more: string)
    requires s.chip.Valid()
    ensures Run(s, text + more) == Run(Run(s, text), more)
    decreases |text|
  {
    if text == [] {
      assert text + more == more;
    } else {
      assert (text + more)[1..] == text[1..] + more;
      RunAppend(Step(s, text[0]), text[1..], more);
    }
  }

  // Batches

  function Joined(batches: seq<string>): string {
    if batches == [] then [] else batches[0] + Joined(batches[1..])
  }

  /** The main loop parses all batches up to the first that ends with the run flag cleared; how the
      characters are cut into batches does not matter otherwise. */
  lemma {:induction false} SessionStops(s: State, batches: seq<string>) returns (k: nat)
    requires s.chip.Valid()
    ensures k <= |batches| && Session(s, batches) == Run(s, Joined(batches[..k]))
    ensures k < |batches| ==> !Session(s, batches).runBootloader
    ensures forall j :: 0 <= j < k ==> Run(s, Joined(batches[..j])).runBootloader
    decreases |batches|
  {
    hide Step;
    k := 0;
    assert batches[..0] == [];
    if batches != [] && s.runBootloader {
      var t := Run(s, batches[0]);
      var m := SessionStops(t, batches[1..]);
      k := m + 1;
      forall j | 0 < j <= k
        ensures Run(s, Joined(batches[..j])) == Run(t, Joined(batches[1..][..j - 1]))
      {
        assert batches[..j][1..] == batches[1..][..j - 1];
        RunAppend(s, batches[0], Joined(batches[1..][..j - 1]));
      }
    }
  }

  // Separators

  predicate Significant(c: char) {
    c == ':' || HexToDecimal(c) >= 0
  }

  /** The characters of a text that are colons or upper-case hexadecimal digits. */
  function Filter(text: string): string {
    if text == [] then []
    else if Significant(text[0]) then [text[0]] + Filter(text[1..])
    else Filter(text[1..])
  }

  /** A waiting parser with its line registers as the next character will leave them. */
  function Settled(s: State): State {
    if s.phase.WaitLine? then s.(checksum := 0, currAddress := s.baseAddress, readMSB := false) else s
  }

  /** Characters that are neither colons nor digits never matter, wherever they stand. */
  lemma {:induction false} SeparatorsIgnored(s: State, t: State, text: string)
    requires s.chip.Valid() && t.chip.Valid() && Settled(s) == Settled(t)
    ensures Settled(Run(s, text)) == Settled(Run(t, Filter(text)))
    decreases |text|
  {
    if text != [] {
      var c := text[0];
      if Significant(c) {
        assert Filter(text)[1..] == Filter(text[1..]);
        SeparatorsIgnored(Step(s, c), Step(t, c), text[1..]);
      } else {
        hide ByteStep;
        assert Settled(Step(s, c)) == Settled(s);
        SeparatorsIgnored(Step(s, c), t, text[1..]);
      }
    }
  }

  // The current line

  /** The bytes decoded since the last colon, and the pending high digit or -1. */
  datatype Line = Line(bytes: seq<byte>, half: int)

  function LineOf(text: string): (l: Line)
    ensures -1 <= l.half < 16
  {
    if text == [] then Line([], -1)
    else
      var l, c := LineOf(text[..|text| - 1]), text[|text| - 1];
      if c == ':' then Line([], -1) else Extend(l, c)
  }

  function Extend(l: Line, c: char): (r: Line)
    requires -1 <= l.half < 16
    ensures -1 <= r.half < 16
  {
    var d := HexToDecimal(c);
    if d < 0 then l
    else if l.half < 0 then Line(l.bytes, d)
    else Line(l.bytes + [l.half * 16 + d], -1)
  }

  /** Number of bytes of a record before its checksum. */
  function Length(b: seq<byte>): nat
    requires b != []
  {
    var count: nat := b[0];
    count + 4
  }

  /** The part of a record that its checksum covers. */
  function Covered(b: seq<byte>): seq<byte> {
    if |b| >= 4 && |b| > Length(b) then b[..Length(b)] else b
  }

  function PhaseOf(b: seq<byte>): Phase {
    match |b|
    case 0 => ByteCount
    case 1 => AddressHigh
    case 2 => AddressLow
    case 3 => RecordType
    case _ => if |b| < Length(b) then ReadData else Checksum
  }

  /** The last byte is an accepted checksum of an end-of-file record. */
  predicate Accepting(b: seq<byte>) {
    && |b| >= 5 && |b| > Length(b) && b[3] == END_OF_FILE
    && Add8(Sum(Covered(b)), b[|b| - 1]) == 0
  }

  predicate Started(text: string) {
    text != [] && (text[|text| - 1] == ':' || Started(text[..|text| - 1]))
  }

  type Base = b: int | 0 <= b <= 0xFFFF_0000

  /** What earlier lines leave behind: the base address, and the last byte read as the low byte of a word. */
  datatype Context = Context(base: Base, low: byte)

  /** What the data bytes of a line come to: the context after them, the address of the next word, and
      whether the line was given up because that address reached the boot section. */
  datatype Taken = Taken(context: Context, at: nat, cut: bool)

  function TakeData(boot: nat, start: nat, count: byte, kind: byte, c: Context, data: seq<byte>): Taken {
    if data == [] then Taken(c, start, false)
    else
      var t := TakeData(boot, start, count, kind, c, data[..|data| - 1]);
      TakeOne(boot, kind, t, (count - |data|) % 2 == 1, data[|data| - 1])
  }

  /** One data byte, which is the low byte of a word or completes one. */
  function TakeOne(boot: nat, kind: byte, t: Taken, low: bool, x: byte): Taken {
    if t.cut then t
    else if t.at >= boot then t.(cut := true)
    else if low then t.(context := t.context.(low := x))
    else Complete(t, kind, Word(t.context.low, x))
  }

  /** A complete word of a record of some kind. */
  function Complete(t: Taken, kind: byte, w: word): Taken {
    if kind == DATA then t.(at := t.at + 2)
    else if kind == EXTENDED_SEGMENT_ADDRESS then t.(context := t.context.(base := w * 0x10))
    else if kind == EXTENDED_LINEAR_ADDRESS then t.(context := t.context.(base := w * 0x1_0000))
    else t
  }

  /** The address that the line has announced so far. */
  function LineAddress(base: Base, b: seq<byte>): nat {
    var high: nat, low: nat := if |b| >= 2 then Word(0, b[1]) else 0, if |b| >= 3 then b[2] else 0;
    base + high + low
  }

  function DataOf(b: seq<byte>): seq<byte> {
    if |b| <= 4 then [] else if |b| <= Length(b) then b[4..] else b[4..Length(b)]
  }

  function TakeLine(boot: nat, c: Context, b: seq<byte>): Taken {
    if |b| <= 4 then Taken(c, LineAddress(c.base, b), false)
    else TakeData(boot, LineAddress(c.base, b), b[0], b[3], c, DataOf(b))
  }

  /** The context in which the current line was begun. */
  function ContextOf(boot: nat, text: string): Context {
    if text == [] then Context(0, 0)
    else
      var before := text[..|text| - 1];
      var c := ContextOf(boot, before);
      if text[|text| - 1] == ':' && Started(before) then TakeLine(boot, c, LineOf(before).bytes).context else c
  }

  /** Some data byte of the line comes when the line's address, advanced by two for every word of data
      before it, is in the boot section. */
  predicate Abandoned(boot: nat, base: Base, b: seq<byte>) {
    var m := |DataOf(b)|;
    m > 0 && LineAddress(base, b) + (if b[3] == DATA then 2 * ((m - 1 + b[0] % 2) / 2) else 0) >= boot
  }

  lemma {:induction false} TakenExactly(boot: nat, start: nat, count: byte, kind: byte, c: Context, data: seq<byte>)
    requires |data| <= count
    ensures var t := TakeData(boot, start, count, kind, c, data);
            && (t.cut <==> data != [] && start + (if kind == DATA then 2 * ((|data| - 1 + count % 2) / 2) else 0) >= boot)
            && (!t.cut ==> t.at == start + if kind == DATA then 2 * ((|data| + count % 2) / 2) else 0)
    decreases |data|
  {
    if data != [] {
      var before := data[..|data| - 1];
      TakenExactly(boot, start, count, kind, c, before);
      WordsTaken(count, |data|);
    }
  }

  /** Words that are complete after `n` of `count` data bytes. */
  lemma WordsTaken(count: nat, n: nat)
    requires 0 < n <= count
    ensures (n + count % 2) / 2 == (n - 1 + count % 2) / 2 + (if (count - n) % 2 == 1 then 0 else 1)
    ensures n > 1 ==> (n - 2 + count % 2) / 2 <= (n - 1 + count % 2) / 2
    ensures (0 + count % 2) / 2 == 0
  {
  }

  lemma AbandonedCut(boot: nat, c: Context, b: seq<byte>)
    ensures TakeLine(boot, c, b).cut <==> Abandoned(boot, c.base, b)
  {
    if |b| > 4 {
      TakenExactly(boot, LineAddress(c.base, b), b[0], b[3], c, DataOf(b));
    }
  }

  /** The parser's registers are the ones the bytes of the current line determine. */
  ghost predicate Follows(s: State, l: Line) {
    var b := l.bytes;
    && s.phase == PhaseOf(b)
    && s.readMSB == (l.half >= 0)
    && (s.readMSB ==> s.data % 16 == l.half)
    && s.checksum == Sum(Covered(b))
    && (1 <= |b| ==> s.dataRem == if |b| <= 4 then b[0] else if s.phase.ReadData? then Length(b) - |b| else 0)
    && (4 <= |b| ==> s.recordType == b[3])
    && (Accepting(b) ==> !s.runBootloader)
  }

  /** The parser is where the text of the current line, begun in context `c`, puts it. */
  ghost predicate Tracks(s: State, c: Context, l: Line) {
    var t := TakeLine(s.chip.part.bootStart, c, l.bytes);
    && s.baseAddress == t.context.base && s.prevData == t.context.low
    && (s.phase.WaitLine? <==> t.cut)
    && (!t.cut ==> Follows(s, l) && s.currAddress == t.at)
  }

  lemma FlushKeeps(s: State)
    requires s.chip.Valid()
    ensures var f := FlushIfRequired(s);
            f == s.(chip := f.chip, pageStart := f.pageStart, pageDirty := f.pageDirty) && f.chip.part == s.chip.part
  {
  }

  lemma WordStepKeeps(s: State)
    requires s.chip.Valid()
    ensures var w := WordStep(s);
            && w == s.(chip := w.chip, pageStart := w.pageStart, pageDirty := w.pageDirty,
                       currAddress := w.currAddress, baseAddress := w.baseAddress)
            && w.chip.part == s.chip.part
  {
    hide Chip.Erase, Chip.Fill, Chip.Commit, Part.Offset;
  }

  /** A completed word moves the address or the base as it does in the text. */
  lemma WordStepTakes(s: State, t: Taken)
    requires s.chip.Valid() && s.baseAddress == t.context.base && s.currAddress == t.at < s.chip.part.bootStart
    ensures var w, u := WordStep(s), Complete(t, s.recordType, Word(s.prevData, s.data));
            w.baseAddress == u.context.base && w.currAddress == u.at && u.context.low == t.context.low && u.cut == t.cut
  {
    hide Chip.Erase, Chip.Fill, Chip.Commit, Part.Offset;
  }

  lemma SumAppend(b: seq<byte>, x: byte)
    ensures Sum(b + [x]) == Add8(Sum(b), x)
  {
    assert (b + [x])[..|b|] == b;
  }

  /** One more byte of the line. */
  lemma FollowsByte(s: State, b: seq<byte>, x: byte)
    requires s.chip.Valid() && Follows(s, Line(b, -1))
    ensures var t := ByteStep(s.(data := x));
            t.chip.part == s.chip.part && (t.phase.WaitLine? || Follows(t, Line(b + [x], -1)))
  {
    hide FlushIfRequired, WordStep, Sum;
    var u := s.(data := x);
    SumAppend(b, x);
    FlushKeeps(u);
    match s.phase {
      case ReadData =>
        var v := u.(checksum := Add8(u.checksum, x), dataRem := Sub8(u.dataRem, 1));
        WordStepKeeps(v);
      case Checksum =>
        assert Covered(b + [x]) == Covered(b);
      case _ =>
    }
  }

  /** One more data byte moves address, base and low byte as it does in the text. */
  lemma TakesDataByte(s: State, c: Context, b: seq<byte>, x: byte)
    requires s.chip.Valid() && Follows(s, Line(b, -1)) && Tracks(s, c, Line(b, -1)) && s.phase.ReadData?
    ensures var t, u := ByteStep(s.(data := x)), TakeLine(s.chip.part.bootStart, c, b + [x]);
            && t.baseAddress == u.context.base && t.prevData == u.context.low
            && (t.phase.WaitLine? <==> u.cut) && (!u.cut ==> t.currAddress == u.at)
  {
    hide FlushIfRequired, WordStep, Covered, Sum, Accepting, TakeData, TakeLine, Complete, LineAddress;
    var boot, u := s.chip.part.bootStart, s.(data := x);
    var v := u.(checksum := Add8(u.checksum, x), dataRem := Sub8(u.dataRem, 1));
    var k, data, count, kind := TakeLine(boot, c, b), DataOf(b), b[0], b[3];
    assert |data| == |b| - 4 && v.dataRem == count - |data| - 1 && v.recordType == kind;
    WordStepKeeps(v);
    if v.currAddress < boot {
      WordStepTakes(v, k);
    }
    LineTaken(boot, c, b);
    LineTaken(boot, c, b + [x]);
    assert DataOf(b + [x]) == data + [x] && (b + [x])[0] == count && (b + [x])[3] == kind;
    assert LineAddress(c.base, b + [x]) == LineAddress(c.base, b) by { SameAddress(c.base, b, x); }
    TakeMore(boot, LineAddress(c.base, b), count, kind, c, data, x);
  }

  lemma SameAddress(base: Base, b: seq<byte>, x: byte)
    requires |b| >= 3
    ensures LineAddress(base, b + [x]) == LineAddress(base, b)
  {
  }

  lemma LineTaken(boot: nat, c: Context, b: seq<byte>)
    requires |b| >= 4
    ensures TakeLine(boot, c, b) == TakeData(boot, LineAddress(c.base, b), b[0], b[3], c, DataOf(b))
  {
    TakeNone(boot, LineAddress(c.base, b), b[0], b[3], c);
  }

  /** One more byte of the line moves address, base and low byte as it does in the text. */
  lemma TakesByte(s: State, c: Context, b: seq<byte>, x: byte)
    requires s.chip.Valid() && Follows(s, Line(b, -1)) && Tracks(s, c, Line(b, -1)) && !s.phase.WaitLine?
    ensures var t, u := ByteStep(s.(data := x)), TakeLine(s.chip.part.bootStart, c, b + [x]);
            && t.baseAddress == u.context.base && t.prevData == u.context.low
            && (t.phase.WaitLine? <==> u.cut) && (!u.cut ==> t.currAddress == u.at)
  {
    hide FlushIfRequired, WordStep, Covered, Sum, Accepting, TakeData;
    match s.phase {
      case ReadData =>
        TakesDataByte(s, c, b, x);
      case Checksum =>
        FlushKeeps(s.(data := x));
        LineTaken(s.chip.part.bootStart, c, b);
        LineTaken(s.chip.part.bootStart, c, b + [x]);
        SameAddress(c.base, b, x);
        assert DataOf(b + [x]) == DataOf(b);
      case _ =>
    }
  }

  lemma TakeMore(boot: nat, start: nat, count: byte, kind: byte, c: Context, data: seq<byte>, x: byte)
    ensures TakeData(boot, start, count, kind, c, data + [x])
            == TakeOne(boot, kind, TakeData(boot, start, count, kind, c, data), (count - |data| - 1) % 2 == 1, x)
  {
    hide TakeOne;
    assert (data + [x])[..|data|] == data;
  }

  lemma TakeNone(boot: nat, start: nat, count: byte, kind: byte, c: Context)
    ensures TakeData(boot, start, count, kind, c, []) == Taken(c, start, false)
  {
  }

  /** A line that is given up stays so. */
  lemma StaysCut(boot: nat, c: Context, b: seq<byte>, x: byte)
    requires TakeLine(boot, c, b).cut
    ensures TakeLine(boot, c, b + [x]) == TakeLine(boot, c, b)
  {
    hide TakeData;
    if |b| < Length(b) {
      assert DataOf(b + [x]) == DataOf(b) + [x];
      TakeMore(boot, LineAddress(c.base, b), b[0], b[3], c, DataOf(b), x);
    } else {
      assert DataOf(b + [x]) == DataOf(b);
    }
  }

  /** One more character of any text, inside a line. */
  lemma TracksStep(s: State, c: Context, l: Line, ch: char)
    requires s.chip.Valid() && -1 <= l.half < 16 && Tracks(s, c, l)
    ensures Step(s, ch).chip.part == s.chip.part
    ensures ch != ':' ==> Tracks(Step(s, ch), c, Extend(l, ch))
    ensures ch == ':' ==> Tracks(Step(s, ch), TakeLine(s.chip.part.bootStart, c, l.bytes).context, Line([], -1))
  {
    hide ByteStep, Covered, Sum, Accepting, PhaseOf, TakeLine;
    var d, boot := HexToDecimal(ch), s.chip.part.bootStart;
    var t := TakeLine(boot, c, l.bytes);
    if ch == ':' {
      FollowsEmpty();
      LineEmpty(boot, t.context);
    } else if d >= 0 && l.half >= 0 {
      var x: byte := l.half * 16 + d;
      if t.cut {
        StaysCut(boot, c, l.bytes, x);
      } else {
        assert Shift(s.data, d) == x;
        FollowsByte(s.(readMSB := false), l.bytes, x);
        TakesByte(s.(readMSB := false), c, l.bytes, x);
      }
    }
  }

  lemma LineEmpty(boot: nat, c: Context)
    ensures TakeLine(boot, c, []) == Taken(c, c.base, false)
  {
  }

  lemma FollowsEmpty()
    ensures PhaseOf([]) == ByteCount && Sum(Covered([])) == 0 && !Accepting([])
  {
  }

  /** After every text the parser waits for a line exactly if no line was begun or the current one was
      given up, and otherwise holds exactly what the bytes since the last colon say: its phase, the
      bytes remaining, the checksum, the type and the address. The base is always that of the text. */
  lemma {:induction false} RegistersFollowLine(chip: Chip, text: string)
    requires chip.Valid()
    ensures var s, boot, b := Run(Reset(chip), text), chip.part.bootStart, LineOf(text).bytes;
            var c := ContextOf(boot, text);
            && s.chip.part == chip.part
            && (s.phase.WaitLine? <==> !Started(text) || Abandoned(boot, c.base, b))
            && (!s.phase.WaitLine? ==> Follows(s, LineOf(text)) && s.currAddress == TakeLine(boot, c, b).at)
            && s.baseAddress == if Started(text) then TakeLine(boot, c, b).context.base else 0
    ensures Started(text) ==> Tracks(Run(Reset(chip), text), ContextOf(chip.part.bootStart, text), LineOf(text))
    ensures !Started(text) ==> ContextOf(chip.part.bootStart, text) == Context(0, 0) && Run(Reset(chip), text).prevData == 0
    decreases |text|
  {
    hide Step, Follows, TakeLine, Abandoned;
    var boot := chip.part.bootStart;
    if text != [] {
      var n := |text| - 1;
      var before, ch := text[..n], text[n];
      RegistersFollowLine(chip, before);
      assert text == before + [ch];
      RunAppend(Reset(chip), before, [ch]);
      var s := Run(Reset(chip), before);
      assert Run(s, [ch]) == Step(s, ch);
      if Started(before) {
        TracksStep(s, ContextOf(boot, before), LineOf(before), ch);
      } else {
        FirstLine(s, ch);
      }
    }
    AbandonedCut(boot, ContextOf(boot, text), LineOf(text).bytes);
  }

  lemma FirstLine(s: State, ch: char)
    requires s.chip.Valid() && s.phase.WaitLine? && s.baseAddress == 0 && s.prevData == 0
    ensures var t := Step(s, ch);
            && t.chip.part == s.chip.part && t.baseAddress == 0 && t.prevData == 0
            && (ch == ':' ==> Tracks(t, Context(0, 0), Line([], -1))) && (ch != ':' ==> t.phase.WaitLine?)
  {
    FollowsEmpty();
  }

  /** The data counter never wraps: the parser reads data only with bytes remaining. */
  lemma DataRemPositive(chip: Chip, text: string)
    requires chip.Valid() && Run(Reset(chip), text).phase.ReadData?
    ensures Run(Reset(chip), text).dataRem >= 1
  {
    hide Run, TakeLine, Abandoned;
    RegistersFollowLine(chip, text);
  }

  /** The text ends with an end-of-file record of correct checksum that was not given up. */
  ghost predicate Accepted(boot: nat, text: string) {
    var b := LineOf(text).bytes;
    Started(text) && Accepting(b) && !Abandoned(boot, ContextOf(boot, text).base, b)
  }

  /** A step clears the run flag only by accepting an end-of-file record. */
  lemma ExitStep(s: State, l: Line, c: char)
    requires s.chip.Valid() && -1 <= l.half < 16 && Follows(s, l) && c != ':'
    ensures Step(s, c).runBootloader != s.runBootloader ==>
              !Step(s, c).phase.WaitLine? && Accepting(Extend(l, c).bytes)
  {
    hide FlushIfRequired, WordStep, Sum;
    var d := HexToDecimal(c);
    if d >= 0 && s.readMSB {
      var x: byte := l.half * 16 + d;
      var u := s.(data := x, readMSB := false);
      assert Shift(s.data, d) == x;
      FlushKeeps(u);
      if u.phase.Checksum? {
        assert Covered(l.bytes + [x]) == Covered(l.bytes);
      } else {
        WordStepKeeps(u.(checksum := Add8(u.checksum, x), dataRem := Sub8(u.dataRem, 1)));
      }
    }
  }

  lemma RunFlagStep(s: State, c: char)
    requires s.chip.Valid()
    ensures !s.runBootloader ==> !Step(s, c).runBootloader
    ensures s.phase.WaitLine? || c == ':' ==> Step(s, c).runBootloader == s.runBootloader
  {
    hide FlushIfRequired, WordStep;
    if !(s.phase.WaitLine? || c == ':' || HexToDecimal(c) < 0) {
      var u := s.(data := Shift(s.data, HexToDecimal(c)), readMSB := !s.readMSB);
      FlushKeeps(u);
      WordStepKeeps(u.(checksum := Add8(u.checksum, u.data), dataRem := Sub8(u.dataRem, 1)));
    }
  }

  /** One more character clears the flag exactly when the text then ends in an accepted record. */
  lemma ExitNext(chip: Chip, before: string, ch: char)
    requires chip.Valid()
    ensures var s, t := Run(Reset(chip), before), Run(Reset(chip), before + [ch]);
            !t.runBootloader <==> !s.runBootloader || Accepted(chip.part.bootStart, before + [ch])
  {
    hide Step, TakeLine, Abandoned, Accepting, ContextOf;
    var text, s := before + [ch], Run(Reset(chip), before);
    RunAppend(Reset(chip), before, [ch]);
    assert Run(s, [ch]) == Step(s, ch);
    assert text[..|text| - 1] == before && text[|text| - 1] == ch;
    RegistersFollowLine(chip, before);
    RegistersFollowLine(chip, text);
    RunFlagStep(s, ch);
    if ch != ':' && !s.phase.WaitLine? {
      ExitStep(s, LineOf(before), ch);
    } else if ch == ':' {
      FollowsEmpty();
    }
  }

  /** The bootloader exits exactly when some prefix of the text ends in an end-of-file record whose
      checksum byte makes the sum of its bytes zero, and whose data, if it has any, are not announced
      for the boot section. */
  lemma {:induction false} ExitExactly(chip: Chip, text: string)
    requires chip.Valid()
    ensures !Run(Reset(chip), text).runBootloader
            <==> exists i :: 0 <= i <= |text| && Accepted(chip.part.bootStart, text[..i])
    decreases |text|
  {
    hide Run, Accepted;
    var boot := chip.part.bootStart;
    if text == [] {
      NothingAccepted(boot, chip);
      assert forall i :: 0 <= i <= |text| ==> text[..i] == [];
    } else {
      var n := |text| - 1;
      var before := text[..n];
      ExitExactly(chip, before);
      assert text == before + [text[n]] && text[..|text|] == text;
      ExitNext(chip, before, text[n]);
      assert forall i :: 0 <= i <= n ==> text[..i] == before[..i];
      if i :| 0 <= i <= n && Accepted(boot, before[..i]) {
        assert Accepted(boot, text[..i]);
      }
      if Accepted(boot, text) {
        assert Accepted(boot, text[..|text|]);
      }
      if i :| 0 <= i <= |text| && Accepted(boot, text[..i]) {
        assert i <= n ==> Accepted(boot, before[..i]);
      }
    }
  }

  lemma NothingAccepted(boot: nat, chip: Chip)
    ensures !Accepted(boot, []) && (chip.Valid() ==> Run(Reset(chip), []).runBootloader)
  {
  }
}
