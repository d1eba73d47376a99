/** Which texts leave the boot section alone. The parser refuses data for addresses in the boot section,
    but erases and commits the page that it last moved on to, which need not be the one of the data. */
module PrinterGuard {
  import opened Chips
  import opened Programming
  import opened HexText
  import opened Printer
  import opened PrinterStreams
  import opened PrinterProgramming

  // The page in progress, from the text alone

  /** The page that the parser is at, and whether words were loaded for it. */
  datatype Page = Page(start: nat, dirty: bool)

  function PageFlushed(part: Part, p: Page, at: nat): Page
    requires part.Valid()
  {
    if p.dirty && p.start != part.Base(at) then Page(part.Base(at), false) else p
  }

  /** One more byte completes a word of data. */
  predicate WordEnds(b: seq<byte>) {
    |b| >= 4 && |b| < Length(b) && (Length(b) - |b| - 1) % 2 == 0 && b[3] == DATA
  }

  /** What one more byte of a line does to the page. */
  function PageAfter(part: Part, p: Page, c: Context, b: seq<byte>, x: byte): Page
    requires part.Valid()
  {
    var before, after := TakeLine(part.bootStart, c, b), TakeLine(part.bootStart, c, b + [x]);
    if before.cut || |b| < 4 then p
    else if |b| < Length(b) then
      if after.cut then p.(dirty := false)
      else if WordEnds(b) then PageFlushed(part, p.(dirty := true), after.at)
      else p
    else if Add8(Sum(Covered(b)), x) == 0 then PageFlushed(part, p, after.at)
    else p
  }

  /** The byte that a character completes in the current line, or -1. */
  function Completes(text: string, ch: char): (x: int)
    ensures -1 <= x < 0x100
  {
    var l, d := LineOf(text), HexToDecimal(ch);
    if Started(text) && ch != ':' && d >= 0 && l.half >= 0 then l.half * 16 + d else -1
  }

  function PageOf(part: Part, text: string): Page
    requires part.Valid()
  {
    if text == [] then Page(0, false)
    else
      var before := text[..|text| - 1];
      var p, x := PageOf(part, before), Completes(before, text[|text| - 1]);
      if x < 0 then p
      else PageAfter(part, p, ContextOf(part.bootStart, before), LineOf(before).bytes, x)
  }

  /** The character completes a word of data that is loaded. */
  predicate Loads(part: Part, text: string, ch: char)
    requires part.Valid()
  {
    var b, c, x := LineOf(text).bytes, ContextOf(part.bootStart, text), Completes(text, ch);
    x >= 0 && WordEnds(b) && !TakeLine(part.bootStart, c, b + [x]).cut
  }

  /** The word is the first of its page, and that page, which is erased for it, is in the boot section. */
  predicate Touches(part: Part, text: string, ch: char)
    requires part.Valid()
  {
    Loads(part, text, ch) && !PageOf(part, text).dirty && part.Page(PageOf(part, text).start) >= part.bootStart
  }

  /** The parser's page is that of the text. */
  ghost predicate Paged(s: State, p: Page) {
    s.pageStart == p.start && s.pageDirty == p.dirty
  }

  lemma FlushPaged(s: State, p: Page)
    requires s.chip.Valid() && Paged(s, p)
    ensures Paged(FlushIfRequired(s), PageFlushed(s.chip.part, p, s.currAddress))
  {
  }

  lemma WordPaged(s: State, p: Page)
    requires s.chip.Valid() && Paged(s, p) && s.currAddress < s.chip.part.bootStart
    ensures var w := WordStep(s);
            Paged(w, if s.recordType == DATA then PageFlushed(s.chip.part, p.(dirty := true), w.currAddress) else p)
  {
    hide Chip.Erase, Chip.Fill, Chip.Commit, FlushIfRequired;
    if s.recordType == DATA {
      var e := if s.pageDirty then s else s.(chip := s.chip.Erase(s.pageStart), pageDirty := true);
      var f := e.(chip := e.chip.Fill(s.currAddress, s.prevData, s.data), currAddress := Add32(s.currAddress, 2));
      FlushPaged(f, p.(dirty := true));
      FlushKeeps(f);
    }
  }

  lemma BytePaged(s: State, c: Context, b: seq<byte>, x: byte, p: Page)
    requires s.chip.Valid() && !s.phase.WaitLine? && Follows(s, Line(b, -1)) && Tracks(s, c, Line(b, -1)) && Paged(s, p)
    ensures Paged(ByteStep(s.(data := x)), PageAfter(s.chip.part, p, c, b, x))
  {
    hide FlushIfRequired, WordStep, PageFlushed, TakeLine, Covered, Sum, Accepting;
    var u, boot := s.(data := x), s.chip.part.bootStart;
    TakesByte(s, c, b, x);
    match s.phase {
      case ReadData =>
        var v := u.(checksum := Add8(u.checksum, x), dataRem := Sub8(u.dataRem, 1));
        WordStepKeeps(v);
        if v.currAddress < boot {
          WordPaged(v, p);
        }
      case Checksum =>
        FlushPaged(u, p);
        FlushKeeps(u);
      case _ =>
    }
  }

  lemma StepPaged(s: State, c: Context, l: Line, ch: char, p: Page)
    requires s.chip.Valid() && -1 <= l.half < 16 && Tracks(s, c, l) && Paged(s, p)
    ensures var d := HexToDecimal(ch);
            Paged(Step(s, ch), if ch != ':' && d >= 0 && l.half >= 0
                               then PageAfter(s.chip.part, p, c, l.bytes, l.half * 16 + d) else p)
  {
    hide ByteStep, TakeLine, PageFlushed, Covered, Sum, Accepting, PhaseOf;
    var d := HexToDecimal(ch);
    if ch != ':' && d >= 0 && l.half >= 0 && !s.phase.WaitLine? {
      assert Shift(s.data, d) == l.half * 16 + d;
      BytePaged(s.(readMSB := false), c, l.bytes, l.half * 16 + d, p);
    }
  }

  /** After every text the parser is at the page that the text says. */
  lemma {:induction false} PagesFollow(chip: Chip, text: string)
    requires chip.Valid()
    ensures Run(Reset(chip), text).chip.part == chip.part && Paged(Run(Reset(chip), text), PageOf(chip.part, text))
    decreases |text|
  {
    hide Step, Follows, TakeLine, Tracks, PageAfter, Abandoned, Paged;
    if text == [] {
      assert Paged(Reset(chip), Page(0, false)) by { FreshPage(chip); }
    } else {
      var n := |text| - 1;
      var before, ch := text[..n], text[n];
      var s := Run(Reset(chip), before);
      PagesFollow(chip, before);
      RegistersFollowLine(chip, before);
      RegistersFollowLine(chip, text);
      assert text == before + [ch];
      RunAppend(Reset(chip), before, [ch]);
      assert Run(s, [ch]) == Step(s, ch) by { RunOne(s, ch); }
      if Started(before) {
        StepPaged(s, ContextOf(chip.part.bootStart, before), LineOf(before), ch, PageOf(chip.part, before));
      } else {
        WaitsPaged(s, ch, PageOf(chip.part, before));
      }
    }
  }

  lemma FreshPage(chip: Chip)
    ensures Paged(Reset(chip), Page(0, false))
  {
  }

  lemma WaitsPaged(s: State, ch: char, p: Page)
    requires s.chip.Valid() && s.phase.WaitLine? && Paged(s, p)
    ensures Paged(Step(s, ch), p)
  {
  }

  // One cell of flash

  lemma EraseCell(c: Chip, a: nat, i: nat)
    requires c.Valid() && i < c.part.flashSize
    ensures var b := c.part.Page(a);
            c.Erase(a).flash[i] == if b <= i < b + c.part.pageSize then BLANK else c.flash[i]
  {
    hide Splice, Part.Page;
    SpliceAt(c.flash, c.part.Page(a), Blanks(c.part.pageSize), i);
  }

  lemma CommitCell(c: Chip, a: nat, i: nat)
    requires c.Valid() && i < c.part.flashSize
    ensures var b := c.part.Page(a);
            c.Commit(a).flash[i] == if b <= i < b + c.part.pageSize then And(c.flash[i], c.buffer[i - b]) else c.flash[i]
  {
    hide Splice, Part.Page, And;
    var b, n := c.part.Page(a), c.part.pageSize;
    var cells := AndAll(c.flash[b..b + n], c.buffer);
    SpliceAt(c.flash, b, cells, i);
    if b <= i < b + n {
      assert cells[i - b] == And(c.flash[b..b + n][i - b], c.buffer[i - b]);
    }
  }

  /** Two parsers alike but for the contents of their flash. */
  ghost predicate Twins(s: State, t: State) {
    s.chip.Valid() && t.chip.Valid() && s == t.(chip := t.chip.(flash := s.chip.flash))
  }

  /** Two memories agree at cell `i` of their flash. */
  ghost predicate Agree(c: Chip, d: Chip, i: nat) {
    i < |c.flash| && i < |d.flash| && c.flash[i] == d.flash[i]
  }

  /** Cell `i` is of the page that starts at `start`. */
  predicate InPage(part: Part, start: nat, i: nat)
    requires part.Valid()
  {
    part.Page(start) <= i < part.Page(start) + part.pageSize
  }

  lemma FlushTwins(s: State, t: State, i: nat)
    requires Twins(s, t) && i < s.chip.part.flashSize
    ensures var u, v := FlushIfRequired(s), FlushIfRequired(t);
            Twins(u, v) && (Agree(s.chip, t.chip, i) ==> Agree(u.chip, v.chip, i))
  {
    hide Chip.Commit, Part.Base, And;
    CommitCell(s.chip, s.pageStart, i);
    CommitCell(t.chip, s.pageStart, i);
  }

  /** The word erases its page first. */
  predicate Opens(s: State) {
    s.recordType == DATA && !s.pageDirty
  }

  lemma WordTwins(s: State, t: State, i: nat)
    requires Twins(s, t) && i < s.chip.part.flashSize
    ensures var u, v := WordStep(s), WordStep(t);
            && Twins(u, v)
            && (Agree(s.chip, t.chip, i) || (Opens(s) && InPage(s.chip.part, s.pageStart, i))
                ==> Agree(u.chip, v.chip, i))
  {
    hide Chip.Commit, Chip.Erase, Chip.Fill, FlushIfRequired, Part.Page;
    if s.recordType == DATA {
      EraseCell(s.chip, s.pageStart, i);
      EraseCell(t.chip, s.pageStart, i);
      var e := if s.pageDirty then s else s.(chip := s.chip.Erase(s.pageStart), pageDirty := true);
      var f := if s.pageDirty then t else t.(chip := t.chip.Erase(s.pageStart), pageDirty := true);
      var a := Add32(s.currAddress, 2);
      FillTwins(e.chip, f.chip, s.currAddress, s.prevData, s.data);
      FlushTwins(e.(chip := e.chip.Fill(s.currAddress, s.prevData, s.data), currAddress := a),
                 f.(chip := f.chip.Fill(s.currAddress, s.prevData, s.data), currAddress := a), i);
    }
  }

  lemma FillTwins(c: Chip, d: Chip, a: nat, lo: byte, hi: byte)
    requires c.Valid() && d.Valid() && c == d.(flash := c.flash)
    ensures c.Fill(a, lo, hi) == d.Fill(a, lo, hi).(flash := c.flash) && d.Fill(a, lo, hi).flash == d.flash
  {
    hide Part.Offset, Splice;
  }

  /** The byte completes a word that erases its page. */
  ghost predicate ByteOpens(s: State) {
    s.phase.ReadData? && s.currAddress < s.chip.part.bootStart && Sub8(s.dataRem, 1) % 2 == 0 && Opens(s)
  }

  lemma ByteTwins(s: State, t: State, i: nat)
    requires Twins(s, t) && i < s.chip.part.flashSize
    ensures var u, v := ByteStep(s), ByteStep(t);
            && Twins(u, v)
            && (Agree(s.chip, t.chip, i) || (ByteOpens(s) && InPage(s.chip.part, s.pageStart, i))
                ==> Agree(u.chip, v.chip, i))
  {
    hide FlushIfRequired, WordStep, Agree, InPage, Add8, Add32, Sub8, Negate;
    FlushTwins(s, t, i);
    var v, w := s.(checksum := Add8(s.checksum, s.data), dataRem := Sub8(s.dataRem, 1)),
                t.(checksum := Add8(s.checksum, s.data), dataRem := Sub8(s.dataRem, 1));
    WordTwins(v, w, i);
  }

  lemma StepTwins(s: State, t: State, ch: char, i: nat)
    requires Twins(s, t) && i < s.chip.part.flashSize
    ensures var u, v := Step(s, ch), Step(t, ch);
            Twins(u, v) && (Agree(s.chip, t.chip, i) ==> Agree(u.chip, v.chip, i))
  {
    hide ByteStep, Shift, InPage;
    if !(s.phase.WaitLine? || ch == ':' || HexToDecimal(ch) < 0) {
      var d := Shift(s.data, HexToDecimal(ch));
      ByteTwins(s.(data := d, readMSB := !s.readMSB), t.(data := d, readMSB := !s.readMSB), i);
    }
  }

  lemma {:induction false} RunTwins(s: State, t: State, text: string, i: nat)
    requires Twins(s, t) && i < s.chip.part.flashSize
    ensures var u, v := Run(s, text), Run(t, text);
            Twins(u, v) && u.chip.part == s.chip.part && (Agree(s.chip, t.chip, i) ==> Agree(u.chip, v.chip, i))
    decreases |text|
  {
    hide Step;
    if text != [] {
      StepTwins(s, t, text[0], i);
      StepPart(s, text[0]);
      RunTwins(Step(s, text[0]), Step(t, text[0]), text[1..], i);
    }
  }

  lemma StepPart(s: State, ch: char)
    requires s.chip.Valid()
    ensures Step(s, ch).chip.part == s.chip.part
  {
    hide FlushIfRequired, WordStep;
    if !(s.phase.WaitLine? || ch == ':' || HexToDecimal(ch) < 0) {
      var u := s.(data := Shift(s.data, HexToDecimal(ch)), readMSB := !s.readMSB);
      FlushKeeps(u);
      WordStepKeeps(u.(checksum := Add8(u.checksum, u.data), dataRem := Sub8(u.dataRem, 1)));
    }
  }

  // Texts that keep clear of the boot section

  /** The words loaded and not yet committed are for a page below the boot section. */
  ghost predicate Clear(s: State) {
    s.chip.Valid() && (s.pageDirty ==> s.chip.part.Page(s.pageStart) < s.chip.part.bootStart)
  }

  lemma BelowBoot(part: Part, start: nat, i: nat)
    requires part.Valid() && part.Page(start) < part.bootStart <= i
    ensures !InPage(part, start, i)
  {
    hide Part.Page, Part.Offset;
    part.BaseBelow(part.Page(start), part.bootStart);
  }

  lemma FlushClear(s: State, i: nat)
    requires Clear(s) && s.chip.part.bootStart <= i < s.chip.part.flashSize
    ensures Clear(FlushIfRequired(s)) && Agree(FlushIfRequired(s).chip, s.chip, i)
  {
    hide Chip.Commit, Part.Base, Part.Page, And;
    CommitCell(s.chip, s.pageStart, i);
    if s.pageDirty {
      BelowBoot(s.chip.part, s.pageStart, i);
    }
  }

  lemma WordClear(s: State, i: nat)
    requires Clear(s) && s.chip.part.bootStart <= i < s.chip.part.flashSize
    requires Opens(s) ==> s.chip.part.Page(s.pageStart) < s.chip.part.bootStart
    ensures Clear(WordStep(s)) && Agree(WordStep(s).chip, s.chip, i)
  {
    hide Chip.Commit, Chip.Erase, Chip.Fill, FlushIfRequired, Part.Page;
    if s.recordType == DATA {
      EraseCell(s.chip, s.pageStart, i);
      BelowBoot(s.chip.part, s.pageStart, i);
      var e := if s.pageDirty then s else s.(chip := s.chip.Erase(s.pageStart), pageDirty := true);
      FlushClear(e.(chip := e.chip.Fill(s.currAddress, s.prevData, s.data), currAddress := Add32(s.currAddress, 2)), i);
    }
  }

  lemma ByteClear(s: State, i: nat)
    requires Clear(s) && s.chip.part.bootStart <= i < s.chip.part.flashSize
    requires ByteOpens(s) ==> s.chip.part.Page(s.pageStart) < s.chip.part.bootStart
    ensures Clear(ByteStep(s)) && Agree(ByteStep(s).chip, s.chip, i)
  {
    hide FlushIfRequired, WordStep, Part.Page, Add8, Add32, Sub8, Negate;
    FlushClear(s, i);
    if s.phase.ReadData? && s.currAddress < s.chip.part.bootStart && Sub8(s.dataRem, 1) % 2 == 0 {
      WordClear(s.(checksum := Add8(s.checksum, s.data), dataRem := Sub8(s.dataRem, 1)), i);
    }
  }

  /** The character completes a word that erases its page. */
  ghost predicate StepOpens(s: State, ch: char) {
    !s.phase.WaitLine? && ch != ':' && HexToDecimal(ch) >= 0 && s.readMSB && ByteOpens(s)
  }

  lemma StepClear(s: State, ch: char, i: nat)
    requires Clear(s) && s.chip.part.bootStart <= i < s.chip.part.flashSize
    requires StepOpens(s, ch) ==> s.chip.part.Page(s.pageStart) < s.chip.part.bootStart
    ensures Clear(Step(s, ch)) && Agree(Step(s, ch).chip, s.chip, i)
  {
    hide ByteStep, Shift, Part.Page;
    if !s.phase.WaitLine? && ch != ':' && HexToDecimal(ch) >= 0 && s.readMSB {
      ByteClear(s.(data := Shift(s.data, HexToDecimal(ch)), readMSB := false), i);
    }
  }

  lemma StepErases(s: State, t: State, ch: char, i: nat)
    requires Twins(s, t) && i < s.chip.part.flashSize && StepOpens(s, ch) && InPage(s.chip.part, s.pageStart, i)
    ensures Agree(Step(s, ch).chip, Step(t, ch).chip, i)
  {
    hide ByteStep, Shift, InPage;
    var d := Shift(s.data, HexToDecimal(ch));
    ByteTwins(s.(data := d, readMSB := false), t.(data := d, readMSB := false), i);
  }

  /** The text says exactly when the parser erases a page of the boot section. */
  lemma TouchesExactly(chip: Chip, text: string, ch: char)
    requires chip.Valid()
    ensures var s := Run(Reset(chip), text);
            Touches(chip.part, text, ch)
            <==> StepOpens(s, ch) && chip.part.Page(s.pageStart) >= chip.part.bootStart
  {
    hide Run, TakeLine, Abandoned, Covered, Sum, Accepting, Part.Page, PageOf;
    var s, part, l := Run(Reset(chip), text), chip.part, LineOf(text);
    var c, x := ContextOf(part.bootStart, text), Completes(text, ch);
    RegistersFollowLine(chip, text);
    PagesFollow(chip, text);
    if x >= 0 {
      if s.phase.WaitLine? {
        StaysCut(part.bootStart, c, l.bytes, x);
      } else {
        LoadsExactly(s.(readMSB := false), c, l.bytes, x);
      }
    }
  }

  lemma LoadsExactly(s: State, c: Context, b: seq<byte>, x: byte)
    requires s.chip.Valid() && !s.phase.WaitLine? && Follows(s, Line(b, -1)) && Tracks(s, c, Line(b, -1))
    ensures WordEnds(b) && !TakeLine(s.chip.part.bootStart, c, b + [x]).cut
            <==> s.phase.ReadData? && s.currAddress < s.chip.part.bootStart && Sub8(s.dataRem, 1) % 2 == 0
                 && s.recordType == DATA
  {
    hide TakeLine, Covered, Sum, Accepting, WordStep, FlushIfRequired;
    if s.phase.ReadData? {
      TakesByte(s, c, b, x);
      var v := s.(data := x, checksum := Add8(s.checksum, x), dataRem := Sub8(s.dataRem, 1));
      WordStepKeeps(v);
    }
  }

  /** Some character of the text makes the parser erase a page of the boot section. */
  ghost predicate Touched(part: Part, text: string)
    requires part.Valid()
  {
    exists i :: 0 <= i < |text| && Touches(part, text[..i], text[i])
  }

  lemma {:induction false} Untouched(chip: Chip, text: string, i: nat)
    requires chip.Valid() && chip.part.bootStart <= i < chip.part.flashSize && !Touched(chip.part, text)
    ensures Clear(Run(Reset(chip), text)) && Agree(Run(Reset(chip), text).chip, chip, i)
    decreases |text|
  {
    hide Step, Touches, StepOpens, Part.Page;
    if text != [] {
      var n := |text| - 1;
      var before, ch := text[..n], text[n];
      assert !Touches(chip.part, before, ch);
      assert forall k :: 0 <= k < n ==> before[..k] == text[..k] && before[k] == text[k];
      Untouched(chip, before, i);
      TouchesExactly(chip, before, ch);
      PagesFollow(chip, before);
      var s := Run(Reset(chip), before);
      StepClear(s, ch, i);
      assert text == before + [ch];
      RunAppend(Reset(chip), before, [ch]);
      assert Run(s, [ch]) == Step(s, ch) by { RunOne(s, ch); }
    }
  }

  /** What the cell holds at the end does not depend on what it held before. */
  lemma Overwritten(c: Chip, d: Chip, text: string, k: nat, i: nat)
    requires c.Valid() && d.Valid() && c == d.(flash := c.flash) && k < |text|
    requires Touches(c.part, text[..k], text[k]) && InPage(c.part, PageOf(c.part, text[..k]).start, i)
    ensures Agree(Run(Reset(c), text).chip, Run(Reset(d), text).chip, i)
  {
    hide Step, Run, Touches, StepOpens, InPage, Agree, PageOf;
    var before, ch, rest := text[..k], text[k], text[k + 1..];
    assert i < c.part.flashSize by { PageInside(c.part, PageOf(c.part, before).start, i); }
    RunTwins(Reset(c), Reset(d), before, i);
    var s, t := Run(Reset(c), before), Run(Reset(d), before);
    TouchesExactly(c, before, ch);
    PagesFollow(c, before);
    StepTwins(s, t, ch, i);
    StepPart(s, ch);
    StepErases(s, t, ch, i);
    RunTwins(Step(s, ch), Step(t, ch), rest, i);
    RunSplit(Reset(c), text, k);
    RunSplit(Reset(d), text, k);
  }

  lemma PageInside(part: Part, start: nat, i: nat)
    requires part.Valid() && InPage(part, start, i)
    ensures i < part.flashSize
  {
  }

  lemma RunSplit(s: State, text: string, k: nat)
    requires s.chip.Valid() && k < |text|
    ensures Run(s, text) == Run(Step(Run(s, text[..k]), text[k]), text[k + 1..])
  {
    hide Step;
    assert text == text[..k] + text[k..];
    RunAppend(s, text[..k], text[k..]);
    assert text[k..][0] == text[k] && text[k..][1..] == text[k + 1..];
  }

  /** The boot section holds after the text what it held before. */
  ghost predicate Spared(chip: Chip, flash: seq<byte>, text: string)
    requires chip.Valid() && |flash| == chip.part.flashSize
  {
    var boot, after := chip.part.bootStart, Run(Reset(chip.(flash := flash)), text).chip.flash;
    |after| == |flash| && after[boot..] == flash[boot..]
  }

  lemma SparedUntouched(chip: Chip, flash: seq<byte>, text: string)
    requires chip.Valid() && |flash| == chip.part.flashSize && !Touched(chip.part, text)
    ensures Spared(chip, flash, text)
  {
    hide Run, Touched;
    var c := chip.(flash := flash);
    var t, boot := Run(Reset(c), text), chip.part.bootStart;
    PagesFollow(c, text);
    forall i | boot <= i < |flash|
      ensures t.chip.flash[i] == flash[i]
    {
      Untouched(c, text, i);
    }
  }

  lemma TouchedNotSpared(chip: Chip, text: string, k: nat)
    requires chip.Valid() && k < |text| && Touches(chip.part, text[..k], text[k])
    ensures exists f: seq<byte> :: |f| == chip.part.flashSize && !Spared(chip, f, text)
  {
    hide Run, PageOf, Loads, Part.Page;
    var i := chip.part.Page(PageOf(chip.part, text[..k]).start);
    var other: byte := if chip.flash[i] == 0 then 1 else 0;
    var f, g := chip.flash, chip.flash[i := other];
    var c, d := chip, chip.(flash := g);
    assert c.(flash := f) == c;
    Overwritten(c, d, text, k, i);
    SparedCell(chip, f, text, i);
    SparedCell(chip, g, text, i);
  }

  lemma SparedCell(chip: Chip, flash: seq<byte>, text: string, i: nat)
    requires chip.Valid() && |flash| == chip.part.flashSize && chip.part.bootStart <= i < |flash|
    ensures Spared(chip, flash, text) ==>
              Agree(Run(Reset(chip.(flash := flash)), text).chip, chip.(flash := flash), i)
  {
    hide Run;
    var boot, after := chip.part.bootStart, Run(Reset(chip.(flash := flash)), text).chip.flash;
    if Spared(chip, flash, text) {
      assert after[boot..][i - boot] == flash[boot..][i - boot];
    }
  }

  /** The boot section survives a text, whatever the flash holds, exactly if no word of the text is the
      first one loaded while the parser is at a page of the boot section. */
  lemma GuardExactly(chip: Chip, text: string)
    requires chip.Valid()
    ensures !Touched(chip.part, text)
            <==> forall f: seq<byte> :: |f| == chip.part.flashSize ==> Spared(chip, f, text)
  {
    hide Spared, Touches;
    if k :| 0 <= k < |text| && Touches(chip.part, text[..k], text[k]) {
      TouchedNotSpared(chip, text, k);
    } else {
      forall f: seq<byte> | |f| == chip.part.flashSize
        ensures Spared(chip, f, text)
      {
        SparedUntouched(chip, f, text);
      }
    }
  }

  // Two records that reach the boot section

  /** One word of data, and the state of the memory after it. */
  lemma OneWord(s: State, r: Record)
    requires s.chip.Valid() && s.baseAddress == 0
    requires r.kind == DATA && |r.data| == 2 && r.address < s.chip.part.bootStart
    ensures var t, w := Run(s, Print(r)), WordStep(s.(recordType := DATA, currAddress := r.address,
                                                       prevData := r.data[0], data := r.data[1]));
            && t.chip == w.chip && t.pageStart == w.pageStart && t.pageDirty == w.pageDirty
            && t.baseAddress == 0
  {
    hide ByteStep, WordStep, Run, Part.Base, Sum;
    var t := Step(s, ':');
    var x, y := r.data[0], r.data[1];
    FeedHeader(t, r);
    var h := Headed(t, r);
    var d := ByteStep(h.(data := x));
    var e := ByteStep(d.(data := y));
    ReadLowByte(h.(data := x));
    ReadHighByte(d.(data := y));
    WordAlike(s.(recordType := DATA, currAddress := r.address, prevData := x, data := y),
              d.(data := y, checksum := Add8(d.checksum, y), dataRem := 0));
    CheckSettled(e.(data := r.check));
    TwoBytes(s, r, h, d, e);
  }

  lemma WordAlike(s: State, t: State)
    requires s.chip.Valid() && s.chip == t.chip && s.recordType == t.recordType == DATA
    requires s.prevData == t.prevData && s.data == t.data && s.currAddress == t.currAddress
    requires s.pageStart == t.pageStart && s.pageDirty == t.pageDirty
    ensures var v, w := WordStep(s), WordStep(t);
            && v.chip == w.chip && v.pageStart == w.pageStart && v.pageDirty == w.pageDirty
            && w.baseAddress == t.baseAddress && w.recordType == DATA && w.dataRem == t.dataRem
            && (w.pageDirty ==> w.pageStart == w.chip.part.Base(w.currAddress))
  {
    hide Chip.Erase, Chip.Fill, Chip.Commit, Part.Base;
  }

  /** A check byte finds nothing left to flush. */
  lemma CheckSettled(s: State)
    requires s.chip.Valid() && s.phase.Checksum? && s.recordType == DATA
    requires s.pageDirty ==> s.pageStart == s.chip.part.Base(s.currAddress)
    ensures ByteStep(s) == s
  {
    hide Part.Base;
  }

  /** Data for the last word below the boot section moves the parser on to the boot section; the data of
      the next record, for address 0, is then programmed over the first word of the boot section. */
  lemma GuardEscaped(chip: Chip, r1: Record, r2: Record)
    requires chip.Valid() && chip.part.bootStart < chip.part.flashSize && chip.part.bootStart <= 0x1_0000
    requires r1.kind == DATA && |r1.data| == 2 && r1.address == chip.part.bootStart - 2
    requires r2.kind == DATA && |r2.data| == 2 && r2.address == 0
    ensures var boot, after := chip.part.bootStart, Run(Reset(chip), Print(r1) + Print(r2)).chip.flash;
            boot + 2 <= |after| && after[boot..boot + 2] == r2.data
  {
    hide Run, WordStep;
    var s := Run(Reset(chip), Print(r1));
    RunAppend(Reset(chip), Print(r1), Print(r2));
    OneWord(Reset(chip), r1);
    MovesOn(Reset(chip).(recordType := DATA, currAddress := r1.address, prevData := r1.data[0], data := r1.data[1]));
    OneWord(s, r2);
    WritesBoot(s.(recordType := DATA, currAddress := 0, prevData := r2.data[0], data := r2.data[1]));
  }

  lemma MovesOn(s: State)
    requires s.chip.Valid() && s.recordType == DATA && s.pageStart == 0 && s.currAddress == s.chip.part.bootStart - 2
    ensures var t := WordStep(s);
            t.chip.part == s.chip.part && t.pageStart == s.chip.part.bootStart && !t.pageDirty
  {
    hide Chip.Erase, Chip.Fill, Chip.Commit, Part.Offset;
  }

  lemma WritesBoot(s: State)
    requires s.chip.Valid() && s.recordType == DATA && s.currAddress == 0 && !s.pageDirty
    requires s.pageStart == s.chip.part.bootStart < s.chip.part.flashSize
    ensures var t, boot := WordStep(s), s.chip.part.bootStart;
            boot + 2 <= |t.chip.flash| && t.chip.flash[boot] == s.prevData && t.chip.flash[boot + 1] == s.data
  {
    hide Chip.Erase, Chip.Commit, And, Splice, Part.Page;
    var boot, part := s.chip.part.bootStart, s.chip.part;
    assert part.Page(boot) == boot;
    var e := s.chip.Erase(boot);
    var f := e.Fill(0, s.prevData, s.data);
    EraseCell(s.chip, boot, boot);
    EraseCell(s.chip, boot, boot + 1);
    SpliceAt(e.buffer, 0, [s.prevData, s.data], 0);
    SpliceAt(e.buffer, 0, [s.prevData, s.data], 1);
    CommitCell(f, boot, boot);
    CommitCell(f, boot, boot + 1);
  }
}
