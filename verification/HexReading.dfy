/** Reading back printed records with the host loader. */
module HexReading {
  import opened Chips
  import opened HexText
  import opened HexReader

  // Fields of a printed record

  lemma {:induction false} HexAllAt(bytes: seq<byte>, k: nat)
    requires k < |bytes|
    ensures |HexAll(bytes)| == 2 * |bytes|
    ensures HexAll(bytes)[2 * k] == Digit(bytes[k] / 16) && HexAll(bytes)[2 * k + 1] == Digit(bytes[k] % 16)
    decreases |bytes|
  {
    if k > 0 {
      HexAllAt(bytes[1..], k - 1);
    } else if |bytes| > 1 {
      HexAllAt(bytes[1..], 0);
    } else {
      assert HexAll(bytes[1..]) == [];
    }
  }

  lemma DigitScans(n: nat)
    requires n < 16
    ensures IsDigit(Digit(n)) && DigitValue(Digit(n)) == n
    ensures Digit(n) !in " \t\n\r+-" && Digit(n) as int > 12 && Digit(n) != '\0'
  {
  }

  lemma ScanTwo(s: string, a: nat, b: nat)
    requires |s| >= 2 && a < 16 && b < 16 && s[0] == Digit(a) && s[1] == Digit(b)
    ensures ScanHex(s, 2) == Number(16 * a + b)
  {
    hide Digit, DigitValue, IsDigit;
    DigitScans(a);
    DigitScans(b);
    assert DigitCount(s[1..], 1) == 1 by { assert DigitCount(s[1..][1..], 0) == 0; }
    assert DigitCount(s, 2) == 2;
    var t := s[..2];
    assert t[..1] == [s[0]] && t[..1][..0] == [];
    assert HexValue([]) == 0;
    assert HexValue(t[..1]) == a;
  }

  lemma ScanFour(s: string, a: nat, b: nat, c: nat, d: nat)
    requires |s| >= 4 && a < 16 && b < 16 && c < 16 && d < 16
    requires s[0] == Digit(a) && s[1] == Digit(b) && s[2] == Digit(c) && s[3] == Digit(d)
    ensures ScanHex(s, 4) == Number(0x1000 * a + 0x100 * b + 0x10 * c + d)
  {
    hide Digit, DigitValue, IsDigit;
    DigitScans(a);
    DigitScans(b);
    DigitScans(c);
    DigitScans(d);
    assert DigitCount(s[1..][1..][1..], 1) == 1 by { assert DigitCount(s[1..][1..][1..][1..], 0) == 0; }
    assert DigitCount(s[1..][1..], 2) == 2;
    assert DigitCount(s[1..], 3) == 3;
    assert DigitCount(s, 4) == 4;
    var t := s[..4];
    assert t[..3] == s[..3] && t[..3][..2] == s[..2] && s[..2][..1] == [s[0]] && s[..2][..1][..0] == [];
    assert HexValue([]) == 0;
    assert HexValue(s[..2][..1]) == a;
    assert HexValue(s[..2]) == 16 * a + b;
    assert HexValue(s[..3]) == 0x100 * a + 0x10 * b + c by { assert s[..3][..2] == s[..2]; }
  }

  /** The k-th byte of a printed record is the field at position 2k + 1. */
  lemma ByteField(r: Record, tail: string, k: nat)
    requires k < |r.Bytes()|
    ensures Field(Print(r) + tail, 1 + 2 * k, 2) == Number(r.Bytes()[k])
  {
    hide HexAll, Digit, ScanHex, Record.Bytes;
    var bytes, line := r.Bytes(), Print(r) + tail;
    HexAllAt(bytes, k);
    var s := line[1 + 2 * k..];
    assert s[0] == HexAll(bytes)[2 * k] && s[1] == HexAll(bytes)[2 * k + 1];
    ScanTwo(s, bytes[k] / 16, bytes[k] % 16);
  }

  lemma WordField(r: Record, tail: string, k: nat)
    requires k + 1 < |r.Bytes()|
    ensures Field(Print(r) + tail, 1 + 2 * k, 4) == Number(Word(r.Bytes()[k + 1], r.Bytes()[k]))
  {
    hide HexAll, Digit, ScanHex, Record.Bytes;
    var bytes, line := r.Bytes(), Print(r) + tail;
    HexAllAt(bytes, k);
    HexAllAt(bytes, k + 1);
    var s := line[1 + 2 * k..];
    assert s[0] == HexAll(bytes)[2 * k] && s[1] == HexAll(bytes)[2 * k + 1];
    assert s[2] == HexAll(bytes)[2 * (k + 1)] && s[3] == HexAll(bytes)[2 * (k + 1) + 1];
    ScanFour(s, bytes[k] / 16, bytes[k] % 16, bytes[k + 1] / 16, bytes[k + 1] % 16);
  }

  // What a record means

  function Trues(n: nat): (s: seq<bool>)
    ensures |s| == n
  {
    seq(n, _ => true)
  }

  /** Data stored in the image and marked in the mask. */
  function StoreAll(r: Reader, a: nat, data: seq<byte>): (q: Reader)
    requires r.Valid() && a + |data| <= MEMORY_SIZE
    ensures q.Valid()
  {
    r.(image := Splice(r.image, a, data), mask := Splice(r.mask, a, Trues(|data|)))
  }

  /** The record neither runs past the image nor wraps around 32 bits. */
  predicate Fits(r: Reader, rec: Record) {
    rec.address + r.extended + |rec.data| < MEMORY_SIZE
  }

  /** The loader's meaning of a record. A wrong checksum spoils a data record, after its bytes are
      stored, and makes the loader ignore an extended address; it does not matter in other records. */
  function LoadRecord(r: Reader, rec: Record): (p: Parsed)
    requires r.Valid() && Fits(r, rec)
    ensures p.reader.Valid()
  {
    if rec.kind == DATA then
      Parsed(StoreAll(r, rec.address + r.extended, rec.data).(byteCount := r.byteCount + |rec.data|),
             if rec.Checked() then Accepted else Rejected)
    else if rec.kind == END_OF_FILE then Parsed(r.(endSeen := true), Accepted)
    else if (rec.kind == 2 || rec.kind == 4) && |rec.data| == 2 && rec.Checked() then
      Parsed(r.(extended := Word(rec.data[1], rec.data[0]) * (if rec.kind == 2 then 0x10 else 0x1_0000)), Accepted)
    else Parsed(r, Accepted)
  }

  function Total(s: seq<byte>): nat {
    if s == [] then 0
    else
      var last: nat := s[|s| - 1];
      Total(s[..|s| - 1]) + last
  }

  lemma {:induction false} SumTotal(s: seq<byte>)
    ensures Sum(s) == Total(s) % 0x100
    decreases |s|
  {
    if s != [] {
      SumTotal(s[..|s| - 1]);
    }
  }

  lemma TotalAppend(s: seq<byte>, b: byte)
    ensures Total(s + [b]) == Total(s) + b
  {
    assert (s + [b])[..|s|] == s;
  }

  lemma {:induction false} TotalConcat(s: seq<byte>, t: seq<byte>)
    ensures Total(s + t) == Total(s) + Total(t)
    decreases |t|
  {
    if t == [] {
      assert s + t == s;
    } else {
      assert (s + t)[..|s + t| - 1] == s + t[..|t| - 1];
      TotalConcat(s, t[..|t| - 1]);
    }
  }

  lemma NegateSum(x: nat, check: byte)
    ensures (x + check) % 0x100 == 0 <==> check == Negate(x % 0x100)
  {
  }

  lemma SplicePrefix(r: Reader, a: nat, data: seq<byte>, b: byte)
    requires r.Valid() && a + |data| < MEMORY_SIZE
    ensures Store(StoreAll(r, a, data), a + |data|, b) == StoreAll(r, a, data + [b])
  {
    var q := StoreAll(r, a, data);
    assert Splice(r.image, a, data)[a + |data| := b] == Splice(r.image, a, data + [b]);
    assert Splice(r.mask, a, Trues(|data|))[a + |data| := true] == Splice(r.mask, a, Trues(|data| + 1));
  }

  /** The data loop from the k-th data byte on. */
  lemma {:induction false} DataRead(r: Reader, rec: Record, tail: string, a: nat, k: nat, sum: nat)
    requires r.Valid() && k <= |rec.data| && a + |rec.data| < MEMORY_SIZE
    requires sum == Total(rec.Header() + rec.data[..k])
    ensures ReadData(StoreAll(r, a, rec.data[..k]), Print(rec) + tail, 9 + 2 * k, a + k, |rec.data| - k, sum)
            == Parsed(StoreAll(r, a, rec.data), if rec.Checked() then Accepted else Rejected)
    decreases |rec.data| - k
  {
    hide Print, StoreAll, Store, Total, Sum, Field;
    var line, bytes := Print(rec) + tail, rec.Bytes();
    ByteField(rec, tail, 4 + k);
    if k == |rec.data| {
      assert rec.data[..k] == rec.data && bytes[4 + k] == rec.check;
      SumTotal(rec.Header() + rec.data);
      NegateSum(sum, rec.check);
    } else {
      var b := rec.data[k];
      assert bytes[4 + k] == b;
      assert rec.data[..k] + [b] == rec.data[..k + 1];
      assert rec.Header() + rec.data[..k] + [b] == rec.Header() + rec.data[..k + 1];
      TotalAppend(rec.Header() + rec.data[..k], b);
      SplicePrefix(r, a, rec.data[..k], b);
      DataRead(r, rec, tail, a, k + 1, sum + b);
    }
  }

  lemma PrintLength(r: Record)
    ensures |Print(r)| == 11 + 2 * |r.data|
  {
    HexAllAt(r.Bytes(), 0);
  }

  lemma HeaderTotal(rec: Record)
    ensures Total(rec.Header()) == |rec.data| + rec.address / 0x100 + rec.address % 0x100 + rec.kind
  {
    var a: byte, b, c, d := |rec.data|, Hi(rec.address), Lo(rec.address), rec.kind;
    TotalAppend([], a);
    TotalAppend([a], b);
    TotalAppend([a, b], c);
    TotalAppend([a, b, c], d);
    assert [] + [a] == [a] && [a] + [b] == [a, b] && [a, b] + [c] == [a, b, c] && [a, b, c] + [d] == rec.Header();
  }

  lemma HeaderFields(rec: Record, tail: string)
    ensures var line := Print(rec) + tail;
            && Field(line, 1, 2) == Number(|rec.data|)
            && Field(line, 3, 4) == Number(rec.address)
            && Field(line, 7, 2) == Number(rec.kind)
  {
    hide Print, Field, Lo, Hi, Word;
    ByteField(rec, tail, 0);
    WordField(rec, tail, 1);
    ByteField(rec, tail, 3);
    WordParts(rec.address);
    var bytes := rec.Bytes();
    assert bytes[0] == |rec.data| && bytes[1] == Hi(rec.address) && bytes[2] == Lo(rec.address) && bytes[3] == rec.kind;
  }

  lemma ExtendedRead(r: Reader, rec: Record, tail: string, linear: bool)
    requires r.Valid() && |rec.data| == 2
    ensures var w := Word(rec.data[1], rec.data[0]);
            ReadExtended(r, Print(rec) + tail, Total(rec.Header()), linear)
            == Parsed(if !rec.Checked() then r else r.(extended := if linear then w * 0x1_0000 else w * 0x10), Accepted)
  {
    hide Print, Field, Total, Sum;
    var bytes, x, y := rec.Bytes(), rec.data[0], rec.data[1];
    WordField(rec, tail, 4);
    ByteField(rec, tail, 6);
    assert bytes[4] == x && bytes[5] == y && bytes[6] == rec.check;
    TotalAppend(rec.Header(), x);
    TotalAppend(rec.Header() + [x], y);
    assert rec.Header() + [x] + [y] == rec.Header() + rec.data;
    SumTotal(rec.Header() + rec.data);
    NegateSum(Total(rec.Header() + rec.data), rec.check);
    assert Word(y, x) / 0x100 == x && Word(y, x) % 0x100 == y;
  }

  /** Reading a printed record gives its meaning; a record that runs past the image is refused. */
  lemma LineRead(r: Reader, rec: Record, tail: string)
    requires r.Valid() && rec.address + r.extended + |rec.data| < 0x1_0000_0000
    ensures ParseLine(r, Print(rec) + tail) == if Fits(r, rec) then LoadRecord(r, rec) else Parsed(r, Rejected)
  {
    hide Print, Field, ReadData, ReadExtended, Total, StoreAll, Record.Checked;
    var line := Print(rec) + tail;
    PrintLength(rec);
    assert line[0] == ':' by { PrintStart(rec); }
    HeaderFields(rec, tail);
    HeaderTotal(rec);
    if Fits(r, rec) {
      if rec.kind == DATA {
        var q, a := r.(byteCount := r.byteCount + |rec.data|), rec.address + r.extended;
        assert rec.Header() + rec.data[..0] == rec.Header();
        DataRead(q, rec, tail, a, 0, Total(rec.Header()));
        StoreNone(q, a, rec.data);
        StoreCount(r, a, rec.data);
      } else if (rec.kind == 2 || rec.kind == 4) && |rec.data| == 2 {
        ExtendedRead(r, rec, tail, rec.kind == 4);
      }
    }
  }

  lemma PrintStart(rec: Record)
    ensures Print(rec)[0] == ':'
  {
  }

  lemma StoreNone(r: Reader, a: nat, data: seq<byte>)
    requires r.Valid() && a + |data| <= MEMORY_SIZE
    ensures StoreAll(r, a, data[..0]) == r
  {
    assert Splice(r.image, a, data[..0]) == r.image && Splice(r.mask, a, Trues(0)) == r.mask;
  }

  lemma StoreCount(r: Reader, a: nat, data: seq<byte>)
    requires r.Valid() && a + |data| <= MEMORY_SIZE
    ensures StoreAll(r.(byteCount := r.byteCount + |data|), a, data)
            == StoreAll(r, a, data).(byteCount := r.byteCount + |data|)
  {
  }
}
