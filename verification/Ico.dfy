/** The Windows icon container: a directory of independent images, some of them raw bitmaps. */
module Ico {
  import opened Bytes
  import opened Options

  const DIR_HEADER := 6
  const DIR_ENTRY := 16

  datatype Image = Image(size: nat, bytes: seq<byte>)

  // ---- The container ----

  function Header(count: nat): (b: seq<byte>)
    ensures |b| == DIR_HEADER
  {
    Le16(0) + Le16(1) + Le16(count)
  }

  /** One byte an axis: 256 is written as 0. */
  function Axis(size: nat): byte {
    if size >= 256 then 0 else size
  }

  function Entry(image: Image, offset: nat): (b: seq<byte>)
    ensures |b| == DIR_ENTRY
  {
    [Axis(image.size), Axis(image.size), 0, 0] + Le16(1) + Le16(32) + Le32(|image.bytes|) + Le32(offset)
  }

  /** Where image `i` starts in the file; the file's length for `i` == |images|. */
  function Offset(images: seq<Image>, i: nat): nat
    requires i <= |images|
  {
    if i == 0 then DIR_HEADER + DIR_ENTRY * |images| else Offset(images, i - 1) + |images[i - 1].bytes|
  }

  function Entries(images: seq<Image>, i: nat): (rows: seq<seq<byte>>)
    requires i <= |images|
    ensures |rows| == i && forall k :: 0 <= k < i ==> rows[k] == Entry(images[k], Offset(images, k))
  {
    if i == 0 then [] else Entries(images, i - 1) + [Entry(images[i - 1], Offset(images, i - 1))]
  }

  /** The first `n` images, end to end. */
  function Payload(images: seq<Image>, n: nat): seq<byte>
    requires n <= |images|
  {
    if n == 0 then [] else Payload(images, n - 1) + images[n - 1].bytes
  }

  function Front(images: seq<Image>): seq<byte> {
    Header(|images|) + Flat(Entries(images, |images|))
  }

  function File(images: seq<Image>): seq<byte> {
    Front(images) + Payload(images, |images|)
  }

  method Container(images: seq<Image>) returns (out: seq<byte>)
    ensures out == File(images)
  {
    hide *;
    out := Le16(0);
    out := out + Le16(1);
    out := out + Le16(|images|);
    var offset := DIR_HEADER + DIR_ENTRY * |images|;
    NoEntries(images);
    HeaderParts(images, out);
    for i := 0 to |images|
      invariant offset == Offset(images, i)
      invariant out == Header(|images|) + Flat(Entries(images, i))
    {
      EntriesNext(images, i);
      out := out + Entry(images[i], offset);
      offset := offset + |images[i].bytes|;
    }
    FrontParts(images);
    for i := 0 to |images|
      invariant out == Front(images) + Payload(images, i)
    {
      PayloadNext(images, i);
      out := out + images[i].bytes;
    }
  }

  lemma HeaderParts(images: seq<Image>, out: seq<byte>)
    requires out == Le16(0) + Le16(1) + Le16(|images|)
    ensures Offset(images, 0) == DIR_HEADER + DIR_ENTRY * |images|
    ensures out == Header(|images|) + Flat(Entries(images, 0))
  {
    hide Le16;
  }

  lemma FrontParts(images: seq<Image>)
    ensures Front(images) == Header(|images|) + Flat(Entries(images, |images|))
    ensures Front(images) == Front(images) + Payload(images, 0)
    ensures File(images) == Front(images) + Payload(images, |images|)
    ensures |Front(images)| == Offset(images, 0)
  {
    hide Entries, Header;
    FlatLength(Entries(images, |images|), DIR_ENTRY);
  }

  lemma NoEntries(images: seq<Image>)
    ensures Flat(Entries(images, 0)) == []
  {
  }

  lemma EntriesNext(images: seq<Image>, i: nat)
    requires i < |images|
    ensures Flat(Entries(images, i + 1)) == Flat(Entries(images, i)) + Entry(images[i], Offset(images, i))
    ensures Offset(images, i + 1) == Offset(images, i) + |images[i].bytes|
  {
    hide Flat, Entry;
    FlatOneMore(Entries(images, i), Entry(images[i], Offset(images, i)));
  }

  lemma PayloadNext(images: seq<Image>, i: nat)
    requires i < |images|
    ensures Payload(images, i + 1) == Payload(images, i) + images[i].bytes
  {
  }

  // ---- Reading it back ----

  /**
   * The size and the bytes directory entry `i` points at, if it is one for a square picture of 32 bits a
   * pixel on one plane, without a palette.
   */
  function ReadImage(file: seq<byte>, i: nat): Option<Image> {
    var at := DIR_HEADER + DIR_ENTRY * i;
    if at + DIR_ENTRY > |file| then None
    else if !IsSquareEntry(file, at) then None
    else
      var axis := file[at];
      var len, offset := ReadLe32(file, at + 8), ReadLe32(file, at + 12);
      if offset + len > |file| then None
      else Some(Image(if axis == 0 then 256 else axis, file[offset..offset + len]))
  }

  predicate IsSquareEntry(file: seq<byte>, at: nat)
    requires at + DIR_ENTRY <= |file|
  {
    && file[at + 1] == file[at] && file[at + 2] == 0 && file[at + 3] == 0
    && ReadLe16(file, at + 4) == 1 && ReadLe16(file, at + 6) == 32
  }

  function ReadImages(file: seq<byte>, count: nat): Option<seq<Image>> {
    if count == 0 then Some([])
    else
      match ReadImages(file, count - 1) case None => None case Some(images) =>
      match ReadImage(file, count - 1) case None => None case Some(image) =>
      Some(images + [image])
  }

  function ReadIcon(file: seq<byte>): Option<seq<Image>> {
    if |file| < DIR_HEADER || ReadLe16(file, 0) != 0 || ReadLe16(file, 2) != 1 then None
    else ReadImages(file, ReadLe16(file, 4))
  }

  /** Every number the directory stores fits the field it is stored in. */
  ghost predicate FitsFields(images: seq<Image>) {
    && |images| < 0x1_0000
    && forall i :: 0 <= i < |images| ==>
         && 1 <= images[i].size <= 256
         && |images[i].bytes| < 0x1_0000_0000
         && Offset(images, i) < 0x1_0000_0000
  }

  lemma EntryInFile(images: seq<Image>, i: nat)
    requires i < |images|
    ensures Holds(File(images), DIR_HEADER + DIR_ENTRY * i, Entry(images[i], Offset(images, i)))
  {
    hide Flat, Entry, Offset, Payload, Header;
    var rows := Entries(images, |images|);
    FlatAt(rows, DIR_ENTRY, i);
    HoldsAfter(Header(|images|), Flat(rows), DIR_HEADER + DIR_ENTRY * i, rows[i]);
    HoldsBefore(Front(images), Payload(images, |images|), DIR_HEADER + DIR_ENTRY * i, rows[i]);
  }

  lemma {:induction false} PayloadAt(images: seq<Image>, n: nat, i: nat)
    requires i < n <= |images|
    ensures Offset(images, n) == Offset(images, 0) + |Payload(images, n)|
    ensures Offset(images, i) >= Offset(images, 0)
    ensures Holds(Payload(images, n), Offset(images, i) - Offset(images, 0), images[i].bytes)
    decreases n
  {
    if i < n - 1 {
      PayloadAt(images, n - 1, i);
      HoldsBefore(Payload(images, n - 1), images[n - 1].bytes, Offset(images, i) - Offset(images, 0), images[i].bytes);
    } else {
      if n > 1 {
        PayloadAt(images, n - 1, 0);
      }
      PayloadNext(images, i);
      hide Payload;
      HoldsLast(Payload(images, i), images[i].bytes);
    }
  }

  lemma PayloadInFile(images: seq<Image>, i: nat)
    requires i < |images|
    ensures Holds(File(images), Offset(images, i), images[i].bytes)
    ensures |File(images)| == Offset(images, |images|)
  {
    hide Payload, Front, Offset;
    PayloadAt(images, |images|, i);
    FrontParts(images);
    HoldsAfter(Front(images), Payload(images, |images|), Offset(images, i), images[i].bytes);
  }

  lemma ImageReadsBack(images: seq<Image>, i: nat)
    requires FitsFields(images) && i < |images|
    ensures ReadImage(File(images), i) == Some(images[i])
  {
    hide File, Offset, Le32, ReadLe32;
    var file, at, entry := File(images), DIR_HEADER + DIR_ENTRY * i, Entry(images[i], Offset(images, i));
    EntryInFile(images, i);
    PayloadInFile(images, i);
    EntryFields(file, at, images[i], Offset(images, i));
    EntryIsSquare(file, at, images[i], Offset(images, i));
    hide IsSquareEntry;
  }

  lemma EntryMiddle(image: Image, offset: nat)
    ensures Entry(image, offset)[4..6] == Le16(1) && Entry(image, offset)[6..8] == Le16(32)
  {
    hide Le16, Le32;
  }

  lemma EntryIsSquare(file: seq<byte>, at: nat, image: Image, offset: nat)
    requires Holds(file, at, Entry(image, offset))
    ensures at + DIR_ENTRY <= |file| && IsSquareEntry(file, at)
  {
    hide Le32, Le16, ReadLe16;
    var entry := file[at..at + 16];
    assert file[at] == entry[0] && file[at + 1] == entry[1] && file[at + 2] == entry[2] && file[at + 3] == entry[3];
    EntryMiddle(image, offset);
    assert file[at + 4..at + 6] == entry[4..6] && file[at + 6..at + 8] == entry[6..8];
    Le16ReadsBack(file, at + 4, 1);
    Le16ReadsBack(file, at + 6, 32);
  }

  lemma EntryFields(file: seq<byte>, at: nat, image: Image, offset: nat)
    requires Holds(file, at, Entry(image, offset))
    requires 1 <= image.size <= 256 && |image.bytes| < 0x1_0000_0000 && offset < 0x1_0000_0000
    ensures at + DIR_ENTRY <= |file|
    ensures (if file[at] == 0 then 256 else file[at]) == image.size
    ensures ReadLe32(file, at + 8) == |image.bytes| && ReadLe32(file, at + 12) == offset
  {
    hide Le32, Le16, ReadLe32;
    var entry := Entry(image, offset);
    assert file[at] == file[at..at + 16][0] == Axis(image.size);
    assert file[at + 8..at + 12] == file[at..at + 16][8..12] == Le32(|image.bytes|);
    assert file[at + 12..at + 16] == file[at..at + 16][12..16] == Le32(offset);
    Le32ReadsBack(file, at + 8, |image.bytes|);
    Le32ReadsBack(file, at + 12, offset);
  }

  lemma {:induction false} ImagesReadBack(images: seq<Image>, n: nat)
    requires FitsFields(images) && n <= |images|
    ensures ReadImages(File(images), n) == Some(images[..n])
  {
    hide *;
    if n > 0 {
      ImagesReadBack(images, n - 1);
      ImageReadsBack(images, n - 1);
      OneMoreImage(File(images), n);
      TakeNext(images, n);
    } else {
      NoImages(File(images));
    }
  }

  lemma TakeNext(images: seq<Image>, n: nat)
    requires 0 < n <= |images|
    ensures images[..n] == images[..n - 1] + [images[n - 1]]
  {
  }

  lemma NoImages(file: seq<byte>)
    ensures ReadImages(file, 0) == Some([])
  {
  }

  lemma OneMoreImage(file: seq<byte>, n: nat)
    requires n > 0 && ReadImages(file, n - 1).Some? && ReadImage(file, n - 1).Some?
    ensures ReadImages(file, n) == Some(ReadImages(file, n - 1).value + [ReadImage(file, n - 1).value])
  {
    hide ReadImage;
  }

  /** Following the directory gives back every size and every image, whole and in order. */
  lemma IconReadsBack(images: seq<Image>)
    requires FitsFields(images)
    ensures ReadIcon(File(images)) == Some(images)
  {
    HeaderReadsBack(images);
    hide File, FitsFields, ReadLe16, ReadImages;
    ImagesReadBack(images, |images|);
    assert images[..|images|] == images;
  }

  lemma HeaderReadsBack(images: seq<Image>)
    requires |images| < 0x1_0000
    ensures |File(images)| >= DIR_HEADER
    ensures ReadLe16(File(images), 0) == 0 && ReadLe16(File(images), 2) == 1
    ensures ReadLe16(File(images), 4) == |images|
  {
    hide Flat, Le16, ReadLe16, Entries, Payload;
    var file := File(images);
    assert file[0..2] == Le16(0) && file[2..4] == Le16(1) && file[4..6] == Le16(|images|);
    Le16ReadsBack(file, 0, 0);
    Le16ReadsBack(file, 2, 1);
    Le16ReadsBack(file, 4, |images|);
  }
}
