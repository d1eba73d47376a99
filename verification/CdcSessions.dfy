/** The CDC bootloader on one queue of packets: every task takes its command from the packets that
    wait, and drops what is left of the packet in which the command ends. */
module CdcSessions {
  import opened Chips
  import opened Endpoints
  import opened Cdc
  import opened CdcStreams
  import opened CdcProgramming

  // Reading a queue

  function Min(x: nat, y: nat): nat {
    if x <= y then x else y
  }

  /** The last packet of the queue has a byte: behind an empty packet a task would still wait for one. */
  predicate Ended(packets: seq<Packet>) {
    packets != [] ==> packets[|packets| - 1] != []
  }

  /** The endpoint when `m` bytes of the queue have been read. */
  function ReadTo(packets: seq<Packet>, m: nat): Rx
    decreases |packets|
  {
    if packets == [] then Rx([], [])
    else if m <= |packets[0]| then Rx(packets[0][m..], packets[1..])
    else ReadTo(packets[1..], m - |packets[0]|)
  }

  /** The byte at a position of a stream; nothing comes once the host is gone. */
  function ByteAt(bytes: seq<byte>, m: nat): byte {
    if m < |bytes| then bytes[m] else 0
  }

  lemma {:induction false} ReadToStream(packets: seq<Packet>, m: nat)
    requires m <= |Flatten(packets)|
    ensures ReadTo(packets, m).Stream() == Flatten(packets)[m..]
    decreases |packets|
  {
    if packets != [] {
      var first, rest := packets[0], Flatten(packets[1..]);
      if m <= |first| {
        assert (first + rest)[m..] == first[m..] + rest;
      } else {
        ReadToStream(packets[1..], m - |first|);
        assert (first + rest)[m..] == rest[m - |first|..];
      }
    }
  }

  lemma {:induction false} FetchAt(packets: seq<Packet>, m: nat)
    requires Ended(packets) && m <= |Flatten(packets)|
    ensures Fetch(ReadTo(packets, m)) == (ByteAt(Flatten(packets), m), ReadTo(packets, Min(m + 1, |Flatten(packets)|)))
    decreases |packets|
  {
    if packets != [] {
      var first, rest := packets[0], packets[1..];
      if m < |first| {
        assert first[m..][1..] == first[m + 1..];
      } else if m > |first| {
        FetchAt(rest, m - |first|);
      } else if rest == [] {
        assert Flatten(packets) == first + [];
      } else {
        assert ReadTo(packets, m) == Rx([], rest);
        assert Fetch(Rx([], rest)) == Fetch(Rx(rest[0], rest[1..])) && ReadTo(rest, 0) == Rx(rest[0], rest[1..]);
        FetchAt(rest, 0);
        EndedBytes(rest);
        assert Flatten(packets)[m] == Flatten(rest)[0] && ReadTo(packets, m + 1) == ReadTo(rest, 1);
      }
    }
  }

  lemma {:induction false} FetchManyAt(packets: seq<Packet>, m: nat, k: nat)
    requires Ended(packets) && m <= |Flatten(packets)|
    ensures var bytes, r := Flatten(packets), FetchMany(ReadTo(packets, m), k);
            && (forall i :: 0 <= i < k ==> r.0[i] == ByteAt(bytes, m + i))
            && r.1 == ReadTo(packets, Min(m + k, |bytes|))
    decreases k
  {
    if k > 0 {
      hide ReadTo, Fetch, Ended, Flatten;
      FetchAt(packets, m);
      FetchManyAt(packets, Min(m + 1, |Flatten(packets)|), k - 1);
    }
  }

  // Commands

  /** Bytes of the command at the front of a stream. */
  function CommandLength(bytes: seq<byte>): (n: nat)
    requires bytes != []
    ensures n > 0
  {
    var c, memory, size: nat := bytes[0], ByteAt(bytes, 3), Word(ByteAt(bytes, 2), ByteAt(bytes, 1));
    if c == Ascii('x') || c == Ascii('y') || c == Ascii('T') || c == Ascii('l')
       || c == Ascii('C') || c == Ascii('c') || c == Ascii('D') then 2
    else if c == Ascii('A') then 3
    else if c == Ascii('g') then 4
    else if c == Ascii('B') then if memory == Ascii('F') || memory == Ascii('E') then 4 + size else 4
    else 1
  }

  /** Bytes of it that are there. */
  function Taken(bytes: seq<byte>): (n: nat)
    requires bytes != []
    ensures 0 < n <= |bytes|
  {
    Min(CommandLength(bytes), |bytes|)
  }

  /** A block command reads its header, and its data if it writes a block. */
  lemma BlockAt(s: State, write: bool, packets: seq<Packet>)
    requires s.chip.Valid() && Ended(packets) && Flatten(packets) != []
    requires Flatten(packets)[0] == Ascii(if write then 'B' else 'g')
    ensures BlockCommand(s, write, ReadTo(packets, 1)).rx == ReadTo(packets, Taken(Flatten(packets)))
  {
    hide ReadTo, Fetch, FetchMany, Ended, Flatten, Skip, ReadWords, ReadEepromBlock, Written, Chip.Valid;
    var bytes := Flatten(packets);
    FetchManyAt(packets, 1, 3);
    var n: nat := Word(ByteAt(bytes, 2), ByteAt(bytes, 1));
    FetchManyAt(packets, Min(4, |bytes|), n);
  }

  lemma ExecuteAt(s: State, packets: seq<Packet>)
    requires s.chip.Valid() && Ended(packets) && Flatten(packets) != []
    ensures Execute(s, Flatten(packets)[0], ReadTo(packets, 1)).rx == ReadTo(packets, Taken(Flatten(packets)))
  {
    hide ReadTo, Fetch, FetchMany, Ended, Flatten, BlockCommand, FixedReply, Add32, EepromAddress, CommandAddress,
      Chip.Valid;
    var c := Flatten(packets)[0];
    FetchAt(packets, 1);
    FetchManyAt(packets, 1, 2);
    if c == Ascii('B') || c == Ascii('g') {
      BlockAt(s, c == Ascii('B'), packets);
    }
  }

  /** The streams agree on the command at their front. */
  ghost predicate SameCommand(b1: seq<byte>, b2: seq<byte>) {
    b1 != [] && b2 != [] && forall i :: 0 <= i < CommandLength(b1) ==> ByteAt(b1, i) == ByteAt(b2, i)
  }

  lemma BlockAgrees(s: State, write: bool, ps: seq<Packet>, qs: seq<Packet>)
    requires s.chip.Valid() && Ended(ps) && Ended(qs) && SameCommand(Flatten(ps), Flatten(qs))
    requires Flatten(ps)[0] == Ascii(if write then 'B' else 'g')
    ensures var r, q := BlockCommand(s, write, ReadTo(ps, 1)), BlockCommand(s, write, ReadTo(qs, 1));
            r.state == q.state && r.response == q.response
  {
    hide ReadTo, Fetch, FetchMany, Ended, Flatten, Skip, ReadWords, ReadEepromBlock, Written, Chip.Valid;
    var b1, b2 := Flatten(ps), Flatten(qs);
    FetchManyAt(ps, 1, 3);
    FetchManyAt(qs, 1, 3);
    var h1, h2 := FetchMany(ReadTo(ps, 1), 3), FetchMany(ReadTo(qs, 1), 3);
    assert h1.0 == h2.0;
    var n: nat := Word(h1.0[1], h1.0[0]);
    if write && (h1.0[2] == Ascii('F') || h1.0[2] == Ascii('E')) {
      FetchManyAt(ps, Min(4, |b1|), n);
      FetchManyAt(qs, Min(4, |b2|), n);
      assert FetchMany(h1.1, n).0 == FetchMany(h2.1, n).0;
    }
  }

  /** A command depends on nothing behind its bytes, and not on how they are cut into packets. */
  lemma ExecuteAgrees(s: State, ps: seq<Packet>, qs: seq<Packet>)
    requires s.chip.Valid() && Ended(ps) && Ended(qs) && SameCommand(Flatten(ps), Flatten(qs))
    ensures var r, q := Execute(s, Flatten(ps)[0], ReadTo(ps, 1)), Execute(s, Flatten(qs)[0], ReadTo(qs, 1));
            r.state == q.state && r.response == q.response
  {
    hide ReadTo, Fetch, FetchMany, Ended, Flatten, BlockCommand, FixedReply, Add32, EepromAddress, CommandAddress,
      Chip.Valid;
    var b1, b2 := Flatten(ps), Flatten(qs);
    var c := b1[0];
    assert ByteAt(b1, 0) == ByteAt(b2, 0) && c == b2[0];
    FetchAt(ps, 1);
    FetchAt(qs, 1);
    FetchManyAt(ps, 1, 2);
    FetchManyAt(qs, 1, 2);
    if c == Ascii('B') || c == Ascii('g') {
      BlockAgrees(s, c == Ascii('B'), ps, qs);
    }
  }

  lemma {:induction false} EndedBytes(packets: seq<Packet>)
    requires Ended(packets) && packets != []
    ensures Flatten(packets) != []
    decreases |packets|
  {
    if packets[0] == [] {
      EndedBytes(packets[1..]);
    }
  }

  /** One task on the queue: the command at its front is executed, and the queue goes on behind the
      packet in which that command ends. */
  lemma TaskServes(s: State, packets: seq<Packet>)
    requires s.chip.Valid() && Ended(packets) && packets != []
    ensures Flatten(packets) != []
    ensures var bytes, d := Flatten(packets), Task(s, packets);
            var r := Execute(s, bytes[0], ReadTo(packets, 1));
            d == Done(r.state, Transfer(r.response), ReadTo(packets, Taken(bytes)).queue)
  {
    hide Execute, Transfer, Fetch, Ended, Flatten;
    EndedBytes(packets);
    FetchAt(packets, 0);
    assert packets[0][0..] == packets[0];
    ExecuteAt(s, packets);
  }

  lemma {:induction false} QueueLeft(packets: seq<Packet>, m: nat)
    requires Ended(packets) && packets != []
    ensures |ReadTo(packets, m).queue| < |packets| && Ended(ReadTo(packets, m).queue)
    decreases |packets|
  {
    if m > |packets[0]| && packets[1..] != [] {
      QueueLeft(packets[1..], m - |packets[0]|);
    }
  }

  // Sessions

  /** The state after a queue is used up, and the packets of every response. */
  datatype Served = Served(state: State, replies: seq<seq<Packet>>)

  function Serve(s: State, packets: seq<Packet>): (v: Served)
    requires s.chip.Valid() && Ended(packets)
    ensures v.state.chip.Valid()
    decreases |packets|
  {
    if packets == [] then Served(s, [])
    else
      TaskServes(s, packets);
      QueueLeft(packets, Taken(Flatten(packets)));
      var d := Task(s, packets);
      var v := Serve(d.state, d.waiting);
      v.(replies := [d.sent] + v.replies)
  }

  /** The commands that the tasks find in the queue. */
  function CommandsServed(packets: seq<Packet>): seq<seq<byte>>
    requires Ended(packets)
    decreases |packets|
  {
    if packets == [] then []
    else
      EndedBytes(packets);
      var bytes := Flatten(packets);
      QueueLeft(packets, Taken(bytes));
      [bytes[..Taken(bytes)]] + CommandsServed(ReadTo(packets, Taken(bytes)).queue)
  }

  /** The commands in the bytes that the host sent. */
  function CommandsIn(bytes: seq<byte>): seq<seq<byte>>
    decreases |bytes|
  {
    if bytes == [] then [] else [bytes[..Taken(bytes)]] + CommandsIn(bytes[Taken(bytes)..])
  }

  /** The commands executed one after another, each from a packet of its own. */
  function Perform(s: State, commands: seq<seq<byte>>): (v: Served)
    requires s.chip.Valid()
    ensures v.state.chip.Valid()
    decreases |commands|
  {
    if commands == [] then Served(s, [])
    else
      var d := Task(s, [commands[0]]);
      var v := Perform(d.state, commands[1..]);
      v.(replies := [d.sent] + v.replies)
  }

  lemma CommandAlone(bytes: seq<byte>)
    requires bytes != []
    ensures var c := bytes[..Taken(bytes)];
            SameCommand(bytes, c) && Taken(c) == |c| && Flatten([c]) == c && Ended([c])
  {
    var c := bytes[..Taken(bytes)];
    var alone: seq<Packet> := [c];
    assert alone[1..] == [] && Flatten(alone) == c + Flatten([]);
  }

  /** Serving a queue executes the commands that its tasks find. */
  lemma {:induction false} ServePerforms(s: State, packets: seq<Packet>)
    requires s.chip.Valid() && Ended(packets)
    ensures Serve(s, packets) == Perform(s, CommandsServed(packets))
    decreases |packets|
  {
    hide Task, Execute, Transfer, Flatten, Ended, ReadTo, Taken, SameCommand;
    if packets != [] {
      TaskServes(s, packets);
      var bytes := Flatten(packets);
      QueueLeft(packets, Taken(bytes));
      CommandAlone(bytes);
      var c := bytes[..Taken(bytes)];
      TaskServes(s, [c]);
      ExecuteAgrees(s, packets, [c]);
      var d := Task(s, packets);
      assert d.state == Task(s, [c]).state && d.sent == Task(s, [c]).sent;
      ServePerforms(d.state, d.waiting);
      assert CommandsServed(packets)[1..] == CommandsServed(d.waiting);
    }
  }

  /** Every command ends where a packet ends. */
  ghost predicate EndPackets(packets: seq<Packet>)
    requires Ended(packets)
    decreases |packets|
  {
    packets == [] ||
      (EndedBytes(packets);
       QueueLeft(packets, Taken(Flatten(packets)));
       var rx := ReadTo(packets, Taken(Flatten(packets)));
       rx.bank == [] && EndPackets(rx.queue))
  }

  lemma {:induction false} CommandsComplete(bytes: seq<byte>)
    ensures Flatten(CommandsIn(bytes)) == bytes
    decreases |bytes|
  {
    hide Taken;
    if bytes != [] {
      var n := Taken(bytes);
      CommandsComplete(bytes[n..]);
      assert CommandsIn(bytes)[1..] == CommandsIn(bytes[n..]);
      assert bytes == bytes[..n] + bytes[n..];
    }
  }

  lemma {:induction false} ServedBytes(packets: seq<Packet>)
    requires Ended(packets)
    ensures |Flatten(CommandsServed(packets))| <= |Flatten(packets)|
    decreases |packets|
  {
    hide Taken, ReadTo, Ended;
    if packets != [] {
      EndedBytes(packets);
      var bytes := Flatten(packets);
      var n := Taken(bytes);
      var rx := ReadTo(packets, n);
      QueueLeft(packets, n);
      ReadToStream(packets, n);
      ServedBytes(rx.queue);
      assert CommandsServed(packets)[1..] == CommandsServed(rx.queue);
    }
  }

  /** The tasks find the commands that the host sent exactly when every command ends where a packet ends. */
  lemma {:induction false} ServedExactly(packets: seq<Packet>)
    requires Ended(packets)
    ensures CommandsServed(packets) == CommandsIn(Flatten(packets)) <==> EndPackets(packets)
    decreases |packets|
  {
    hide Taken, ReadTo, Ended;
    if packets != [] {
      EndedBytes(packets);
      var bytes := Flatten(packets);
      var n := Taken(bytes);
      var rx := ReadTo(packets, n);
      QueueLeft(packets, n);
      ReadToStream(packets, n);
      assert CommandsServed(packets)[1..] == CommandsServed(rx.queue);
      assert CommandsIn(bytes)[1..] == CommandsIn(bytes[n..]);
      if rx.bank == [] {
        assert Flatten(rx.queue) == bytes[n..];
        ServedExactly(rx.queue);
      } else {
        ServedBytes(rx.queue);
        CommandsComplete(bytes[n..]);
      }
    }
  }

  /** A queue in which every command ends where a packet ends is served as the host means it. */
  lemma SessionServed(s: State, packets: seq<Packet>)
    requires s.chip.Valid() && Ended(packets) && EndPackets(packets)
    ensures Serve(s, packets) == Perform(s, CommandsIn(Flatten(packets)))
  {
    hide Serve, Perform, CommandsServed, CommandsIn, EndPackets;
    ServePerforms(s, packets);
    ServedExactly(packets);
  }

  // Commands in packets of their own

  function Joined(inputs: seq<seq<Packet>>): seq<Packet> {
    if inputs == [] then [] else inputs[0] + Joined(inputs[1..])
  }

  /** Each input is one command, in packets of which the last is not empty. */
  ghost predicate OneEach(inputs: seq<seq<Packet>>) {
    inputs != [] ==>
      && inputs[0] != [] && Ended(inputs[0])
      && (EndedBytes(inputs[0]); CommandLength(Flatten(inputs[0])) == |Flatten(inputs[0])|)
      && OneEach(inputs[1..])
  }

  lemma {:induction false} EndedConcat(ps: seq<Packet>, qs: seq<Packet>)
    requires Ended(ps) && Ended(qs)
    ensures Ended(ps + qs) && Flatten(ps + qs) == Flatten(ps) + Flatten(qs)
    decreases |ps|
  {
    if ps == [] {
      assert ps + qs == qs && Flatten(ps) + Flatten(qs) == Flatten(qs);
    } else {
      assert (ps + qs)[1..] == ps[1..] + qs;
      EndedConcat(ps[1..], qs);
    }
  }

  lemma {:induction false} EndedJoined(inputs: seq<seq<Packet>>)
    requires OneEach(inputs)
    ensures Ended(Joined(inputs))
    decreases |inputs|
  {
    if inputs != [] {
      EndedJoined(inputs[1..]);
      EndedConcat(inputs[0], Joined(inputs[1..]));
    }
  }

  lemma {:induction false} ReadWhole(ps: seq<Packet>, qs: seq<Packet>)
    requires ps != [] && Ended(ps)
    ensures ReadTo(ps + qs, |Flatten(ps)|) == Rx([], qs)
    decreases |ps|
  {
    var rest := ps[1..];
    assert (ps + qs)[0] == ps[0] && (ps + qs)[1..] == rest + qs;
    if rest == [] {
      assert Flatten(ps) == ps[0] + [] && rest + qs == qs;
    } else {
      EndedBytes(rest);
      ReadWhole(rest, qs);
    }
  }

  /** Commands in packets of their own can be queued: serving them together is running them one by one. */
  lemma {:induction false} ServeRuns(s: State, inputs: seq<seq<Packet>>)
    requires s.chip.Valid() && OneEach(inputs)
    ensures Ended(Joined(inputs))
    ensures Serve(s, Joined(inputs)).state == Run(s, inputs)
    decreases |inputs|
  {
    hide Task, Execute, Transfer, Flatten, Ended, ReadTo, CommandLength;
    EndedJoined(inputs);
    if inputs != [] {
      var first, rest := inputs[0], Joined(inputs[1..]);
      EndedJoined(inputs[1..]);
      EndedConcat(first, rest);
      EndedBytes(first);
      var b1, b2 := Flatten(first + rest), Flatten(first);
      OneCommand(b2, Flatten(rest));
      TaskServes(s, first + rest);
      TaskServes(s, first);
      ExecuteAgrees(s, first + rest, first);
      ReadWhole(first, rest);
      ServeRuns(Task(s, first).state, inputs[1..]);
    }
  }

  lemma OneCommand(bytes: seq<byte>, more: seq<byte>)
    requires bytes != [] && CommandLength(bytes) == |bytes|
    ensures SameCommand(bytes + more, bytes) && Taken(bytes + more) == |bytes|
  {
  }

  /** Two commands in one packet: the second, which should end the bootloader, is lost. */
  lemma SharedPacket(s: State)
    requires s.chip.Valid()
    ensures var packets: seq<Packet> := [[Ascii('P'), Ascii('E')]];
            && Ended(packets) && CommandsIn(Flatten(packets)) == [[Ascii('P')], [Ascii('E')]]
            && Serve(s, packets).state == s
  {
    var packets: seq<Packet> := [[Ascii('P'), Ascii('E')]];
    assert packets[1..] == [] && Flatten(packets) == packets[0];
    TaskServes(s, packets);
    var bytes := Flatten(packets);
    assert bytes[..1] == [Ascii('P')] && bytes[1..] == [Ascii('E')];
    assert bytes[1..][..1] == [Ascii('E')] && bytes[1..][1..] == [];
  }
}
