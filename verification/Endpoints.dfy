/** USB endpoints as packet queues. */
module Endpoints {
  import opened Chips

  type Packet = seq<byte>

  /** An OUT endpoint: the unread bytes of the packet in its bank, and the packets that will still
      arrive before the host detaches. */
  datatype Rx = Rx(bank: Packet, queue: seq<Packet>) {

    /** No byte is left and none will come. */
    predicate Exhausted() {
      bank == [] && queue == []
    }

    /** Release the packet in the bank and take the next one. */
    function Next(): Rx
      requires queue != []
    {
      Rx(queue[0], queue[1..])
    }

    /** Take the next packet if the bank is empty. */
    function Refilled(): Rx
      requires !Exhausted()
    {
      if bank == [] then Next() else this
    }

    /** The byte a read returns; an empty bank reads as zero. */
    function Head(): byte {
      if bank == [] then 0 else bank[0]
    }

    function Advance(): Rx {
      if bank == [] then this else this.(bank := bank[1..])
    }

    /** All bytes still to be read. */
    function Stream(): seq<byte> {
      bank + Flatten(queue)
    }
  }

  function Flatten(ps: seq<Packet>): seq<byte> {
    if ps == [] then [] else ps[0] + Flatten(ps[1..])
  }

  lemma FlattenStep(ps: seq<Packet>)
    ensures ps == [] ==> Flatten(ps) == []
    ensures ps != [] ==> Flatten(ps) == ps[0] + Flatten(ps[1..])
  {
  }

  /** Bytes written to an IN endpoint, as the host receives them: full packets and a last one
      that may be short. */
  function Packets(size: nat, bytes: seq<byte>): (ps: seq<Packet>)
    requires 0 < size
    ensures ps != []
  {
    if |bytes| <= size then [bytes] else [bytes[..size]] + Packets(size, bytes[size..])
  }

  lemma {:induction false} FlattenPackets(size: nat, bytes: seq<byte>)
    requires 0 < size
    ensures Flatten(Packets(size, bytes)) == bytes
  {
    if |bytes| <= size {
      assert Packets(size, bytes)[1..] == [];
    } else {
      FlattenPackets(size, bytes[size..]);
      assert Packets(size, bytes)[1..] == Packets(size, bytes[size..]);
      assert bytes == bytes[..size] + bytes[size..];
    }
  }

  lemma PacketsShort(size: nat, bytes: seq<byte>)
    requires 0 < size && |bytes| <= size
    ensures Packets(size, bytes) == [bytes]
  {
  }

  lemma PacketsLong(size: nat, bytes: seq<byte>)
    requires 0 < size < |bytes|
    ensures Packets(size, bytes) == [bytes[..size]] + Packets(size, bytes[size..])
  {
  }

  lemma LastOfOne<T>(full: seq<T>, last: T, x: T)
    requires full + [last] == [x]
    ensures full == [] && last == x
  {
    assert |full + [last]| == 1 && (full + [last])[|full|] == last;
  }

  lemma FirstOfMore<T>(full: seq<T>, last: T, x: T, rest: seq<T>)
    requires full + [last] == [x] + rest && rest != []
    ensures full != [] && full[0] == x && rest == full[1..] + [last]
  {
    assert |full| == |rest| && (full + [last])[0] == x;
    assert (full + [last])[1..] == full[1..] + [last] && ([x] + rest)[1..] == rest;
  }

  /** Writing to an IN endpoint whose bank is sent when it is found full. */
  lemma {:induction false} PacketsAppend(size: nat, bytes: seq<byte>, full: seq<Packet>, last: Packet, more: seq<byte>)
    requires 0 < size && Packets(size, bytes) == full + [last]
    requires 0 < |more| <= size && (|last| == size || |last| + |more| <= size)
    ensures Packets(size, bytes + more) == if |last| == size then full + [last] + [more] else full + [last + more]
    decreases |bytes|
  {
    hide Packets;
    if |bytes| <= size {
      PacketsShort(size, bytes);
      LastOfOne(full, last, bytes);
      if |last| == size {
        PacketsLong(size, bytes + more);
        assert (bytes + more)[..size] == bytes && (bytes + more)[size..] == more;
        PacketsShort(size, more);
      } else {
        PacketsShort(size, bytes + more);
      }
    } else {
      PacketsLong(size, bytes);
      FirstOfMore(full, last, bytes[..size], Packets(size, bytes[size..]));
      PacketsAppend(size, bytes[size..], full[1..], last, more);
      PacketsLong(size, bytes + more);
      assert (bytes + more)[..size] == bytes[..size] && (bytes + more)[size..] == bytes[size..] + more;
      assert full == [full[0]] + full[1..];
    }
  }

  // Bytes from packets

  ghost predicate Filled(ps: seq<Packet>) {
    ps != [] ==> ps[0] != [] && Filled(ps[1..])
  }

  lemma {:induction false} PacketsFilled(size: nat, bytes: seq<byte>)
    requires 0 < size && bytes != []
    ensures Filled(Packets(size, bytes))
  {
    if |bytes| <= size {
      assert Packets(size, bytes)[1..] == [];
    } else {
      PacketsFilled(size, bytes[size..]);
      assert Packets(size, bytes)[1..] == Packets(size, bytes[size..]);
    }
  }

  lemma FilledRest(q: seq<Packet>)
    requires Filled(q) && q != []
    ensures Filled(q[1..])
  {
  }

  // Words from packets

  ghost predicate EvenPackets(ps: seq<Packet>) {
    ps != [] ==> ps[0] != [] && |ps[0]| % 2 == 0 && EvenPackets(ps[1..])
  }

  ghost predicate EvenRx(rx: Rx) {
    |rx.bank| % 2 == 0 && EvenPackets(rx.queue)
  }

  lemma {:induction false} PacketsEven(size: nat, bytes: seq<byte>)
    requires 0 < size && size % 2 == 0 && bytes != [] && |bytes| % 2 == 0
    ensures EvenPackets(Packets(size, bytes))
  {
    if |bytes| <= size {
      assert Packets(size, bytes)[1..] == [];
    } else {
      PacketsEven(size, bytes[size..]);
      assert Packets(size, bytes)[1..] == Packets(size, bytes[size..]);
    }
  }

  lemma RefilledEven(rx: Rx)
    requires EvenRx(rx) && rx.Stream() != []
    ensures !rx.Exhausted()
    ensures var r := rx.Refilled();
            EvenRx(r) && |r.bank| >= 2 && r.Stream() == rx.Stream()
  {
    if rx.bank == [] {
      assert rx.queue != [] && rx.Stream() == rx.queue[0] + Flatten(rx.queue[1..]);
    }
  }

  lemma ReadWord(rx: Rx)
    requires EvenRx(rx) && rx.Stream() != []
    ensures !rx.Exhausted()
    ensures var s, r := rx.Stream(), rx.Refilled();
            && |s| >= 2 && r.Head() == s[0] && r.Advance().Head() == s[1]
            && EvenRx(r.Advance().Advance()) && r.Advance().Advance().Stream() == s[2..]
  {
    RefilledEven(rx);
    hide Rx.Refilled, Flatten, EvenPackets;
    var r, s := rx.Refilled(), rx.Stream();
    assert r.Advance().Advance() == r.(bank := r.bank[2..]);
    assert r.bank[2..] + Flatten(r.queue) == s[2..];
  }
}
