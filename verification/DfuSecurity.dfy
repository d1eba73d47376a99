/** Secure mode: until an erase, nothing a host can do reveals or changes the old firmware. */
module DfuSecurity {
  import opened Chips
  import opened Programming
  import opened Endpoints
  import opened Dfu

  /** States that differ at most in the application section of flash, and only in secure mode. */
  ghost predicate Indistinguishable(s: State, t: State) {
    && s.Valid() && t.Valid()
    && s == t.(chip := s.chip)
    && s.chip == t.chip.(flash := s.chip.flash)
    && s.chip.flash[s.chip.part.bootStart..] == t.chip.flash[s.chip.part.bootStart..]
    && (s.isSecure || s == t)
  }

  /** What every state reached in secure mode satisfies. */
  ghost predicate Locked(s: State) {
    s.isSecure ==> (s.mode.Idle? || s.mode.Error?) && !s.waitForExit
  }

  lemma ProcessLocked(s: State)
    requires s.Valid() && Locked(s)
    ensures var t := Process(s);
            && Locked(t) && (t.isSecure ==> s.isSecure)
            && (t.isSecure ==> t == s.(mode := t.mode, status := t.status, responseByte := t.responseByte))
  {
    hide ErasedApplication, Identification;
  }

  lemma ProcessIndistinguishable(s: State, t: State)
    requires Indistinguishable(s, t)
    ensures Indistinguishable(Process(s), Process(t))
    ensures Refused(s) == Refused(t)
  {
    hide Identification;
    if s.isSecure {
      var f, g := s.chip, t.chip;
      assert f.flash[f.part.bootStart..] == g.flash[f.part.bootStart..];
      assert ErasedApplication(f) == ErasedApplication(g);
      hide ErasedApplication;
    }
  }

  lemma DownloadIndistinguishable(s: State, t: State, packets: seq<Packet>)
    requires Indistinguishable(s, t) && Locked(s)
    ensures Download(s, packets).response == Download(t, packets).response
    ensures Indistinguishable(Download(s, packets).state, Download(t, packets).state)
    ensures Locked(Download(s, packets).state)
  {
    if s.isSecure {
      hide Process, Firmware;
      if s.sent.size != 0 && packets != [] {
        var rx := Rx([], packets).Next();
        var command := s.sent.(code := rx.Head(), size := Sub16(s.sent.size, 1));
        var sent := LoadParameters(command, rx.Advance(), 0).0;
        hide LoadParameters;
        ProcessLocked(s.(sent := sent));
        ProcessIndistinguishable(s.(sent := sent), t.(sent := sent));
      }
    } else {
      hide Download;
    }
  }

  lemma HandleIndistinguishable(s: State, t: State, req: Request)
    requires Indistinguishable(s, t) && Locked(s)
    ensures Handle(s, req).response == Handle(t, req).response
    ensures Indistinguishable(Handle(s, req).state, Handle(t, req).state)
    ensures Locked(Handle(s, req).state)
  {
    hide Download, FlashBytes, EepromBytes, Packets;
    if req.toDfu {
      var s0, t0 := s.(sent := s.sent.(size := req.length)), t.(sent := t.sent.(size := req.length));
      DownloadIndistinguishable(s0, t0, req.packets);
    }
  }

  /** Two devices whose application sections differ in any way answer every sequence of requests
      alike as long as they started in secure mode, and stay alike outside that section; once one
      has left secure mode both hold the same memory. */
  lemma {:induction false} RunIndistinguishable(s: State, t: State, reqs: seq<Request>)
    requires Indistinguishable(s, t) && Locked(s)
    ensures Run(s, reqs).1 == Run(t, reqs).1
    ensures Indistinguishable(Run(s, reqs).0, Run(t, reqs).0)
    decreases |reqs|
  {
    if reqs != [] {
      HandleIndistinguishable(s, t, reqs[0]);
      hide Handle;
      RunIndistinguishable(Handle(s, reqs[0]).state, Handle(t, reqs[0]).state, reqs[1..]);
    }
  }

  lemma SecureRunsIndependent(c1: Chip, c2: Chip, reqs: seq<Request>)
    requires c1.Valid() && c2.Valid() && c1 == c2.(flash := c1.flash)
    requires c1.flash[c1.part.bootStart..] == c2.flash[c1.part.bootStart..]
    ensures Run(Reset(true, c1), reqs).1 == Run(Reset(true, c2), reqs).1
    ensures var s, t := Run(Reset(true, c1), reqs).0, Run(Reset(true, c2), reqs).0;
            s.isSecure == t.isSecure && (!s.isSecure ==> s == t)
  {
    RunIndistinguishable(Reset(true, c1), Reset(true, c2), reqs);
  }

  /** Nothing but identification reads has happened since power-up. */
  ghost predicate Untouched(s: State, chip: Chip) {
    && s.Valid() && s.isSecure
    && s == Reset(true, chip).(mode := s.mode, status := s.status, sent := s.sent, responseByte := s.responseByte)
    && (s.mode.Idle? || s.mode.Error?)
  }

  lemma UntouchedStep(s: State, chip: Chip, req: Request)
    requires chip.Valid() && Untouched(s, chip) && Handle(s, req).state.isSecure
    ensures Untouched(Handle(s, req).state, chip)
  {
    hide ProgramWords, ProgramEeprom, FlashBytes, EepromBytes, Packets, ErasedApplication, Identification, LoadParameters;
    var s0 := s.(sent := s.sent.(size := req.length));
    if req.toDfu && req.code == REQ_DNLOAD && s0.sent.size != 0 && req.packets != [] {
      var rx := Rx([], req.packets).Next();
      var command := s0.sent.(code := rx.Head(), size := Sub16(s0.sent.size, 1));
      ProcessLocked(s0.(sent := LoadParameters(command, rx.Advance(), 0).0));
      hide Process;
    }
  }

  /** Secure mode is left only by an erase, is never entered again, and while it lasts no request
      has changed memory, an address register or an exit flag. */
  lemma {:induction false} SecureRunUntouched(s: State, chip: Chip, reqs: seq<Request>)
    requires chip.Valid() && Untouched(s, chip)
    ensures Run(s, reqs).0.isSecure ==> Untouched(Run(s, reqs).0, chip)
    decreases |reqs|
  {
    if reqs != [] {
      hide Handle;
      var t := Handle(s, reqs[0]).state;
      if t.isSecure {
        UntouchedStep(s, chip, reqs[0]);
        SecureRunUntouched(t, chip, reqs[1..]);
      }
    }
  }

  // The page buffer

  ghost predicate AttachedRun(s: State, reqs: seq<Request>)
    requires s.Valid()
    decreases |reqs|
  {
    reqs != [] ==> var h := Handle(s, reqs[0]); h.complete && AttachedRun(h.state, reqs[1..])
  }

  lemma {:induction false} ProgramWordsBlank(c: Chip, rx: Rx, addr: nat, page: nat, filled: nat, remaining: nat)
    requires c.Valid() && (c.BufferBlank() || remaining > 0)
    requires ProgramWords(c, rx, addr, page, filled, remaining).complete
    ensures ProgramWords(c, rx, addr, page, filled, remaining).chip.BufferBlank()
    decreases remaining
  {
    hide Chip.Fill, Chip.Erase, Chip.Commit, Blanks;
    if remaining != 0 {
      var r := rx.Refilled();
      var f, r' := c.Fill(addr, r.Head(), r.Advance().Head()), r.Advance().Advance();
      if remaining == 1 {
      } else if filled + 1 == c.part.pageSize / 2 {
        ProgramWordsBlank(f.Commit(page).Erase(addr + 2), r', addr + 2, addr + 2, 0, remaining - 1);
      } else {
        ProgramWordsBlank(f, r', addr + 2, page, filled + 1, remaining - 1);
      }
    }
  }

  lemma {:induction false} ProgramEepromBuffer(c: Chip, rx: Rx, addr: word, remaining: nat)
    requires c.Valid()
    ensures ProgramEeprom(c, rx, addr, remaining).0.chip.buffer == c.buffer
    decreases remaining
  {
    if remaining != 0 && !rx.Exhausted() {
      var r := rx.Refilled();
      ProgramEepromBuffer(c.WriteEeprom(addr, r.Head()), r.Advance(), Inc16(addr), remaining - 1);
    }
  }

  lemma TailBlank(s: State, rx: Rx)
    requires s.Valid() && s.chip.BufferBlank() && DownloadTail(s, rx).complete
    ensures DownloadTail(s, rx).state.chip.BufferBlank()
  {
    hide ProgramWords, ProgramEeprom, Discard;
    if s.mode.DownloadIdle? && s.sent.size != 0 {
      var r := Discard(Discard(rx, FILLER_SIZE), s.startAddr % PACKET_SIZE);
      if s.sent.Is(0) {
        ProgramWordsBlank(s.chip, r, FlashAddress(s), FlashAddress(s), 0, RangeLength(s) / 2);
      } else {
        ProgramEepromBuffer(s.chip, r, s.startAddr, RangeLength(s));
      }
    }
  }

  lemma ProcessBlank(s: State)
    requires s.Valid() && s.chip.BufferBlank()
    ensures Process(s).chip.BufferBlank()
  {
    hide Identification, FirstUsed, Chip.Erase;
  }

  lemma HandleBlank(s: State, req: Request)
    requires s.Valid() && s.chip.BufferBlank() && Handle(s, req).complete
    ensures Handle(s, req).state.chip.BufferBlank()
  {
    hide FlashBytes, EepromBytes, Packets, Process, DataStage, Blanks;
    var s0 := s.(sent := s.sent.(size := req.length));
    if req.toDfu && req.code == REQ_DNLOAD {
      ProcessBlank(s0);
      StageBlank(if s0.waitForExit then Process(s0).(waitForExit := false) else s0, req.packets);
    }
  }

  lemma StageBlank(s: State, packets: seq<Packet>)
    requires s.Valid() && s.chip.BufferBlank() && DataStage(s, packets).complete
    ensures DataStage(s, packets).state.chip.BufferBlank()
  {
    hide LoadParameters, Process, DownloadTail, Blanks;
    if s.sent.size == 0 {
      SizeZeroTail(s, Rx([], packets));
    } else if packets != [] {
      var rx := Rx([], packets).Next();
      var command := s.sent.(code := rx.Head(), size := Sub16(s.sent.size, 1));
      var (sent, rx') := LoadParameters(command, rx.Advance(), 0);
      ProcessBlank(s.(sent := sent));
      TailBlank(Process(s.(sent := sent)), rx');
    }
  }

  lemma SizeZeroTail(s: State, rx: Rx)
    requires s.Valid() && s.sent.size == 0
    ensures DownloadTail(s, rx).state.chip == s.chip
  {
  }

  /** While the host stays attached the page buffer is blank between requests. */
  lemma {:induction false} AttachedRunBlank(s: State, reqs: seq<Request>)
    requires s.Valid() && s.chip.BufferBlank() && AttachedRun(s, reqs)
    ensures Run(s, reqs).0.chip.BufferBlank()
    decreases |reqs|
  {
    if reqs != [] {
      hide Handle, Blanks;
      HandleBlank(s, reqs[0]);
      AttachedRunBlank(Handle(s, reqs[0]).state, reqs[1..]);
    }
  }

  /** A device that stays secure leaves the error state by an abort and by nothing else. */
  lemma SecureErrorKept(s: State, req: Request)
    requires s.Valid() && s.isSecure && s.mode.Error? && Handle(s, req).state.isSecure
    ensures Handle(s, req).state.mode.Error? <==> !(req.toDfu && req.code == REQ_ABORT)
  {
    hide LoadParameters, Firmware, ErasedApplication, Packets, FlashBytes, EepromBytes;
  }
}
