/** From a HEX file to flash over HID: the loader reads the file, and its image is programmed page by page. */
module HidFiles {
  import opened Chips
  import opened Programming
  import opened HexText
  import opened HexReader
  import opened HexFiles
  import opened HidTransfer

  /** The byte that a file puts at an address, or 0xFF. */
  function FileByte(ls: seq<Line>, i: nat): byte {
    if i < MEMORY_SIZE && LastWriter(ls, 0, i) >= 0 then LastWriter(ls, 0, i) else BLANK
  }

  /** The file has a byte in the page at `b`. */
  ghost predicate InPage(ls: seq<Line>, part: Part, b: nat) {
    exists k :: b <= k < b + part.pageSize && k < MEMORY_SIZE && LastWriter(ls, 0, k) >= 0
  }

  /** The file has no byte for an address that the part does not have. */
  ghost predicate WithinPart(ls: seq<Line>, part: Part) {
    forall i :: part.flashSize <= i < MEMORY_SIZE ==> LastWriter(ls, 0, i) < 0
  }

  /** All of the file is in flash: in page 0 and in every page that the file has a byte in flash holds
      the file, it is unchanged elsewhere, and the file has no byte beyond it. */
  ghost predicate InFlash(ls: seq<Line>, part: Part, before: seq<byte>, after: seq<byte>)
    requires part.Valid() && |before| == |after| == part.flashSize
  {
    && WithinPart(ls, part)
    && forall i :: 0 <= i < part.flashSize ==>
         after[i] == if part.Base(i) == 0 || InPage(ls, part, part.Base(i)) then FileByte(ls, i) else before[i]
  }

  /** The files that arrive on a part. */
  ghost predicate Arrives(ls: seq<Line>, part: Part) {
    && WithinPart(ls, part)
    && (part.flashSize == 0x1_0000 ==> forall i :: 0x100 <= i < MEMORY_SIZE ==> LastWriter(ls, 0, i) < 0)
    && (part.flashSize == 0x2_0000 ==> forall i :: 0xFF00 <= i < MEMORY_SIZE ==> FileByte(ls, i) == BLANK)
  }

  ghost predicate Reads(ls: seq<Line>, r: Reader) {
    r.Valid() && forall a :: 0 <= a < MEMORY_SIZE ==>
      r.mask[a] == (LastWriter(ls, 0, a) >= 0) && r.image[a] == FileByte(ls, a)
  }

  lemma FileRead(ls: seq<Line>)
    requires Sound(Blank(), ls) && Lines(ls)
    ensures ReadText(Blank(), TextOf(ls)).verdict.Accepted? && Reads(ls, ReadText(Blank(), TextOf(ls)).reader)
  {
    hide ReadText, Sound, LastWriter, TextOf, Lines, Blank;
    forall a | 0 <= a < MEMORY_SIZE
      ensures var p := ReadText(Blank(), TextOf(ls));
              p.reader.mask[a] == (LastWriter(ls, 0, a) >= 0) && p.reader.image[a] == FileByte(ls, a)
    {
      FileMeans(ls, a);
    }
    FileMeans(ls, 0);
  }

  lemma SameMeaning(ls: seq<Line>, r: Reader, part: Part)
    requires Reads(ls, r)
    ensures Arrives(ls, part) <==> Deliverable(r, part)
  {
    hide LastWriter;
  }

  lemma SameFlash(ls: seq<Line>, r: Reader, part: Part, before: seq<byte>, after: seq<byte>)
    requires Reads(ls, r) && part.Valid() && |before| == |after| == part.flashSize
    ensures InFlash(ls, part, before, after) <==> Right(r, part, before, after)
  {
    hide LastWriter, Part.Base;
    forall b: nat
      ensures InPage(ls, part, b) <==> PageLoaded(r, part, b)
    {
      if k :| b <= k < b + part.pageSize && k < MEMORY_SIZE && LastWriter(ls, 0, k) >= 0 {
        assert r.mask[k];
      }
      if k :| b <= k < b + part.pageSize && k < MEMORY_SIZE && r.mask[k] {
        assert LastWriter(ls, 0, k) >= 0;
      }
    }
    hide InPage, PageLoaded;
    forall i | 0 <= i < part.flashSize
      ensures FileByte(ls, i) == HostByte(r, i)
    {
    }
  }

  /** A file of sound records, of whatever kinds, read by the loader and programmed over HID, is in
      flash afterwards whatever the device held before, exactly when the file arrives on the part. */
  lemma FileDelivered(ls: seq<Line>, part: Part)
    requires Sound(Blank(), ls) && Known(part) && Lines(ls)
    ensures var p := ReadText(Blank(), TextOf(ls));
            && p.verdict.Accepted?
            && (Arrives(ls, part) <==>
                forall c0: Chip :: c0.Valid() && c0.part == part ==>
                  |Delivered(p.reader, c0)| == part.flashSize && InFlash(ls, part, c0.flash, Delivered(p.reader, c0)))
  {
    hide ReadText, Sound, LastWriter, TextOf, Lines, Blank, Delivered, Right, Reads, Arrives, InFlash, Deliverable;
    FileRead(ls);
    var r := ReadText(Blank(), TextOf(ls)).reader;
    SameMeaning(ls, r, part);
    forall c0: Chip | c0.Valid() && c0.part == part && |Delivered(r, c0)| == part.flashSize
      ensures InFlash(ls, part, c0.flash, Delivered(r, c0)) <==> Right(r, part, c0.flash, Delivered(r, c0))
    {
      SameFlash(ls, r, part, c0.flash, Delivered(r, c0));
    }
    DeliversExactly(r, part);
  }

  // Files of one contiguous image

  lemma HoldingAt(image: seq<byte>, i: nat)
    requires |image| <= MEMORY_SIZE && i < MEMORY_SIZE
    ensures var r := Holding(image);
            r.mask[i] == (i < |image|) && r.image[i] == if i < |image| then image[i] else BLANK
  {
    StoreAllAt(Blank(), 0, image, i);
  }

  /** The images that arrive on a part. */
  ghost predicate ImageArrives(image: seq<byte>, part: Part) {
    && |image| <= part.flashSize
    && (part.flashSize == 0x1_0000 ==> |image| <= 0x100)
    && (part.flashSize == 0x2_0000 ==> forall i :: 0xFF00 <= i < |image| ==> image[i] == BLANK)
  }

  /** The image is in flash from address 0 on, last page padded and other pages untouched. The first
      page is programmed even for an empty image, which erases it. */
  ghost predicate ImageInFlash(image: seq<byte>, part: Part, before: seq<byte>, after: seq<byte>)
    requires part.Valid() && |before| == part.flashSize
  {
    |image| <= part.flashSize && after == Programmed(part, before, 0, if image == [] then [BLANK] else image)
  }

  ghost predicate Holds(r: Reader, image: seq<byte>) {
    r.Valid() && |image| <= MEMORY_SIZE && forall i :: 0 <= i < MEMORY_SIZE ==>
      r.mask[i] == (i < |image|) && r.image[i] == if i < |image| then image[i] else BLANK
  }

  lemma WithinImage(r: Reader, image: seq<byte>, part: Part)
    requires Holds(r, image)
    ensures Within(r, part) <==> |image| <= part.flashSize
  {
    if part.flashSize < |image| {
      assert r.mask[part.flashSize];
    }
  }

  lemma ImageMeaning(r: Reader, image: seq<byte>, part: Part)
    requires Holds(r, image)
    ensures ImageArrives(image, part) <==> Deliverable(r, part)
  {
    hide Within;
    WithinImage(r, image, part);
    if |image| > 0x100 {
      assert r.mask[0x100];
    }
  }

  /** The pages that programming from address 0 touches. */
  lemma {:induction false} PageEndAbove(part: Part, i: nat, n: nat)
    requires part.Valid()
    ensures i < part.PageEnd(n) <==> part.Base(i) < n
    decreases n
  {
    if i >= part.pageSize && n >= part.pageSize {
      PageEndAbove(part, i - part.pageSize, n - part.pageSize);
    }
  }

  lemma ImageFlash(r: Reader, image: seq<byte>, part: Part, before: seq<byte>, i: nat)
    requires Holds(r, image) && part.Valid() && |before| == part.flashSize
    requires |image| <= part.flashSize && i < part.flashSize
    ensures Programmed(part, before, 0, if image == [] then [BLANK] else image)[i]
            == if part.Base(i) == 0 || PageLoaded(r, part, part.Base(i)) then HostByte(r, i) else before[i]
  {
    hide Part.Offset;
    var data := if image == [] then [BLANK] else image;
    var n, b := |data|, part.Base(i);
    assert PageLoaded(r, part, b) <==> b < |image| by {
      if b < |image| {
        assert b <= b < b + part.pageSize && r.mask[b];
      }
    }
    part.BaseAligned(0);
    part.PageEndBelow(n, part.flashSize);
    PageEndAbove(part, i, n);
    var all := Blanks(0) + data + Blanks(part.PageEnd(n) - n);
    SpliceAt(before, 0, all, i);
  }

  lemma ImageRight(r: Reader, image: seq<byte>, part: Part, before: seq<byte>, after: seq<byte>)
    requires r.Valid() && Holds(r, image) && part.Valid() && |before| == |after| == part.flashSize
    ensures Right(r, part, before, after) <==> ImageInFlash(image, part, before, after)
  {
    hide Programmed, PageLoaded, HostByte, Part.Base, Holds, Within;
    WithinImage(r, image, part);
    if |image| <= part.flashSize {
      forall i | 0 <= i < part.flashSize
        ensures Programmed(part, before, 0, if image == [] then [BLANK] else image)[i]
                == if part.Base(i) == 0 || PageLoaded(r, part, part.Base(i)) then HostByte(r, i) else before[i]
      {
        ImageFlash(r, image, part, before, i);
      }
    }
  }

  /** A file of data records that follow one another from address 0, read by the loader and programmed
      over HID, leaves its image in flash, whatever the device held before, exactly when the image
      arrives on the part. */
  lemma ImageDelivered(ls: seq<Line>, eof: Line, part: Part)
    requires FileShape(ls, eof) && Known(part)
    ensures var image, p := Image(Records(ls)), ReadText(Blank(), TextOf(ls + [eof]));
            && p.verdict.Accepted?
            && (ImageArrives(image, part) <==>
                forall c0: Chip :: c0.Valid() && c0.part == part ==>
                  ImageInFlash(image, part, c0.flash, Delivered(p.reader, c0)))
  {
    hide ReadText, TextOf, Blank, Delivered, Right, ImageArrives, Deliverable, ImageInFlash, Holding, DataLines;
    var image := Image(Records(ls));
    HexFiles.FileRead(ls, eof);
    var r := ReadText(Blank(), TextOf(ls + [eof])).reader;
    forall i | 0 <= i < MEMORY_SIZE
      ensures r.mask[i] == (i < |image|) && r.image[i] == if i < |image| then image[i] else BLANK
    {
      HoldingAt(image, i);
    }
    assert Holds(r, image);
    hide Holds;
    ImageMeaning(r, image, part);
    forall c0: Chip | c0.Valid() && c0.part == part
      ensures |Delivered(r, c0)| == part.flashSize && Right(r, part, c0.flash, Delivered(r, c0))
              <==> ImageInFlash(image, part, c0.flash, Delivered(r, c0))
    {
      if |Delivered(r, c0)| == part.flashSize {
        ImageRight(r, image, part, c0.flash, Delivered(r, c0));
      } else if ImageInFlash(image, part, c0.flash, Delivered(r, c0)) {
        ImageLength(image, part, c0.flash, Delivered(r, c0));
      }
    }
    DeliversExactly(r, part);
  }

  lemma ImageLength(image: seq<byte>, part: Part, before: seq<byte>, after: seq<byte>)
    requires part.Valid() && |before| == part.flashSize && ImageInFlash(image, part, before, after)
    ensures |after| == part.flashSize
  {
  }
}
