/** When the mass-storage bootloader leaves its main loop. */
module MassStorageLoop {
  import opened Chips
  import opened Scsi

  /** What happened in one iteration: nothing, or a SCSI command. */
  datatype Event = Quiet | Command(cdb: CommandBlock)

  /** The effect of a command on the run flag: ejecting the medium clears it, other start and stop
      commands set it. */
  function RunFlag(run: bool, cdb: CommandBlock): bool {
    if cdb[0] == START_STOP_UNIT then cdb[4] % 4 != 2 else run
  }

  lemma DecodeRunFlag(u: Unit, cdb: CommandBlock, input: seq<byte>)
    requires u.disk.Valid() && (cdb[0] == WRITE_10 ==> |input| == 512 * BlockCount(cdb))
    ensures Decode(u, cdb, input).unit.runBootloader == RunFlag(u.runBootloader, cdb)
  {
    hide ReadBlocks, WriteBlocks, BlockCount, BlockAddress;
  }

  /** The run flag after a sequence of events from power-up. */
  function RunAfter(events: seq<Event>): bool {
    if events == [] then true
    else
      var run, last := RunAfter(events[..|events| - 1]), events[|events| - 1];
      if last.Command? then RunFlag(run, last.cdb) else run
  }

  /** How many quiet iterations a sequence of events ends with. */
  function QuietTail(events: seq<Event>): (n: nat)
    ensures n <= |events|
    ensures forall i :: |events| - n <= i < |events| ==> events[i].Quiet?
    ensures n < |events| ==> events[|events| - n - 1].Command?
  {
    if events == [] || events[|events| - 1].Command? then 0 else 1 + QuietTail(events[..|events| - 1])
  }

  /** The loop ends after these iterations: the run flag is clear and 255 of them have passed since
      the last command. */
  predicate Ends(events: seq<Event>) {
    !RunAfter(events) && QuietTail(events) == 255
  }

  /** The main loop, over the events of its iterations; `n` iterations ran, and the loop ended
      unless the events ran out. */
  method Loop(events: seq<Event>) returns (n: nat, ended: bool)
    ensures n <= |events|
    ensures ended <==> Ends(events[..n])
    ensures forall k :: 0 <= k < n ==> !Ends(events[..k])
    ensures !ended ==> n == |events|
  {
    var runBootloader, ticks: byte := true, 0;
    n := 0;
    while true
      invariant n <= |events|
      invariant runBootloader == RunAfter(events[..n])
      invariant ticks == if runBootloader then 0 else QuietTail(events[..n])
      invariant QuietTail(events[..n]) <= 255 || runBootloader
      invariant forall k :: 0 <= k < n ==> !Ends(events[..k])
      decreases |events| - n
    {
      var again := runBootloader;
      if !again {
        again := ticks < 0xFF;
        ticks := if ticks == 0xFF then 0 else ticks + 1;
      }
      if !again {
        return n, true;
      }
      if n == |events| {
        return n, false;
      }
      assert events[..n + 1][..n] == events[..n];
      if events[n].Command? {
        runBootloader := RunFlag(runBootloader, events[n].cdb);
        ticks := 0;
      }
      n := n + 1;
    }
  }

  lemma {:induction false} QuietTailGrows(events: seq<Event>, quiet: nat)
    requires quiet <= |events| && forall i :: |events| - quiet <= i < |events| ==> events[i].Quiet?
    ensures QuietTail(events) == quiet + QuietTail(events[..|events| - quiet])
    ensures RunAfter(events) == RunAfter(events[..|events| - quiet])
    decreases quiet
  {
    if quiet == 0 {
      assert events[..|events|] == events;
    } else {
      var before := events[..|events| - 1];
      QuietTailGrows(before, quiet - 1);
      assert before[..|before| - (quiet - 1)] == events[..|events| - quiet];
    }
  }

  /** Once the medium is ejected and commands stop, the loop ends: by the 255th quiet iteration after
      the last command if it has not ended before. */
  lemma EndsAfterEject(events: seq<Event>, k: nat)
    requires k <= |events| && !RunAfter(events[..k]) && QuietTail(events[..k]) <= 255
    requires |events| == k + 255 - QuietTail(events[..k])
    requires forall i :: k <= i < |events| ==> events[i].Quiet?
    ensures Ends(events)
  {
    QuietTailGrows(events, |events| - k);
  }
}
