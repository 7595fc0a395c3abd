/** The images that mkbootimg of fastboot/bootimg_utils.cpp builds. The header structs are declared in bootimg.h, which
    is not part of this model: their sizes and the header's bytes are parameters. */
module BootImage {
  import opened Bytes
  import opened PageRounding

  // ---- Copies into an image of zeros ----

  /** Bytes that are copied to an offset. */
  datatype Placed = Placed(at: nat, bytes: seq<byte>)

  predicate Covers(p: Placed, i: nat) {
    p.at <= i < p.at + |p.bytes|
  }

  /** What is at an offset after the copies, of which the last one counts. */
  function ByteAt(copies: seq<Placed>, i: nat): byte {
    if copies == [] then 0
    else
      var last := copies[|copies| - 1];
      if Covers(last, i) then last.bytes[i - last.at] else ByteAt(copies[..|copies| - 1], i)
  }

  lemma ByteAtSnoc(copies: seq<Placed>, last: Placed, i: nat)
    ensures ByteAt(copies + [last], i) == if Covers(last, i) then last.bytes[i - last.at] else ByteAt(copies, i)
  {
    assert (copies + [last])[..|copies|] == copies;
  }

  function ImageOf(copies: seq<Placed>, length: nat): (image: seq<byte>)
    ensures |image| == length
  {
    seq(length, i requires 0 <= i => ByteAt(copies, i))
  }

  /** The header at offset 0, then each section at its offset. */
  function Copies(header: seq<byte>, sections: seq<seq<byte>>, offsets: seq<nat>): (copies: seq<Placed>)
    requires |sections| == |offsets|
    ensures |copies| == |sections| + 1
  {
    [Placed(0, header)] + seq(|sections|, i requires 0 <= i < |sections| => Placed(offsets[i], sections[i]))
  }

  lemma CopiesUnsnoc(header: seq<byte>, sections: seq<seq<byte>>, offsets: seq<nat>)
    requires |sections| == |offsets| > 0
    ensures var n := |sections| - 1;
      Copies(header, sections, offsets)
      == Copies(header, sections[..n], offsets[..n]) + [Placed(offsets[n], sections[n])]
  {
  }

  /** Each section ends before any later one starts. */
  predicate Apart(sections: seq<seq<byte>>, offsets: seq<nat>)
    requires |sections| == |offsets|
  {
    forall i, j | 0 <= i < j < |sections| :: offsets[i] + |sections[i]| <= offsets[j]
  }

  /** Then every section is whole at its offset. */
  lemma {:induction false} SectionIsWhole(header: seq<byte>, sections: seq<seq<byte>>, offsets: seq<nat>,
                                          i: nat, x: nat)
    requires |sections| == |offsets| && Apart(sections, offsets)
    requires i < |sections| && x < |sections[i]|
    ensures ByteAt(Copies(header, sections, offsets), offsets[i] + x) == sections[i][x]
    decreases |sections|
  {
    var n := |sections| - 1;
    CopiesUnsnoc(header, sections, offsets);
    ByteAtSnoc(Copies(header, sections[..n], offsets[..n]), Placed(offsets[n], sections[n]), offsets[i] + x);
    if i < n {
      SectionIsWhole(header, sections[..n], offsets[..n], i, x);
    }
  }

  /** Whether a byte of the image is a section's. */
  predicate InSection(sections: seq<seq<byte>>, offsets: seq<nat>, at: nat)
    requires |sections| == |offsets|
  {
    exists i :: 0 <= i < |sections| && offsets[i] <= at < offsets[i] + |sections[i]|
  }

  /** All other bytes are the header's, or zero. */
  lemma {:induction false} OutsideSections(header: seq<byte>, sections: seq<seq<byte>>, offsets: seq<nat>, at: nat)
    requires |sections| == |offsets| && !InSection(sections, offsets, at)
    ensures ByteAt(Copies(header, sections, offsets), at) == if at < |header| then header[at] else 0
    decreases |sections|
  {
    if sections == [] {
      assert Copies(header, sections, offsets) == [] + [Placed(0, header)];
      ByteAtSnoc([], Placed(0, header), at);
    } else {
      var n := |sections| - 1;
      CopiesUnsnoc(header, sections, offsets);
      ByteAtSnoc(Copies(header, sections[..n], offsets[..n]), Placed(offsets[n], sections[n]), at);
      OutsideSections(header, sections[..n], offsets[..n], at);
    }
  }

  // ---- Whether the header survives ----

  predicate HeaderIntact(header: seq<byte>, sections: seq<seq<byte>>, offsets: seq<nat>)
    requires |sections| == |offsets|
  {
    forall i | 0 <= i < |header| :: ByteAt(Copies(header, sections, offsets), i) == header[i]
  }

  /** The header survives exactly if every section byte that is copied into it is the byte that was there. */
  lemma HeaderIntactIff(header: seq<byte>, sections: seq<seq<byte>>, offsets: seq<nat>)
    requires |sections| == |offsets| && Apart(sections, offsets)
    ensures HeaderIntact(header, sections, offsets)
      <==> forall i, x | 0 <= i < |sections| && 0 <= x < |sections[i]| && offsets[i] + x < |header| ::
             sections[i][x] == header[offsets[i] + x]
  {
    forall i, x | 0 <= i < |sections| && 0 <= x < |sections[i]|
      ensures ByteAt(Copies(header, sections, offsets), offsets[i] + x) == sections[i][x]
    {
      SectionIsWhole(header, sections, offsets, i, x);
    }
    forall at: nat | at < |header| && ByteAt(Copies(header, sections, offsets), at) != header[at]
      ensures exists i, x :: 0 <= i < |sections| && 0 <= x < |sections[i]| && offsets[i] + x < |header|
                             && sections[i][x] != header[offsets[i] + x]
    {
      if !InSection(sections, offsets, at) {
        OutsideSections(header, sections, offsets, at);
        assert false;
      }
      var i :| 0 <= i < |sections| && offsets[i] <= at < offsets[i] + |sections[i]|;
      assert sections[i][at - offsets[i]] != header[offsets[i] + (at - offsets[i])];
    }
  }

  function Filled(size: nat, b: byte): (bytes: seq<byte>)
    ensures |bytes| == size && forall i | 0 <= i < size :: bytes[i] == b
  {
    seq(size, _ => b)
  }

  function Sizes(sections: seq<seq<byte>>): (sizes: seq<nat>)
    ensures |sizes| == |sections| && forall i | 0 <= i < |sizes| :: sizes[i] == |sections[i]|
  {
    seq(|sections|, i requires 0 <= i < |sections| => |sections[i]|)
  }

  /** Sections of given sizes, all bytes of which are the same. */
  function AllFilled(sizes: seq<nat>, b: byte): (sections: seq<seq<byte>>)
    ensures Sizes(sections) == sizes && forall i | 0 <= i < |sizes| :: sections[i] == Filled(sizes[i], b)
  {
    var sections := seq(|sizes|, i requires 0 <= i < |sizes| => Filled(sizes[i], b));
    assert Sizes(sections) == sizes;
    sections
  }

  predicate SizesApart(sizes: seq<nat>, offsets: seq<nat>)
    requires |sizes| == |offsets|
  {
    forall i, j | 0 <= i < j < |sizes| :: offsets[i] + sizes[i] <= offsets[j]
  }

  /** For all bytes of given sizes, it survives exactly if no section that has bytes starts before the header's end. */
  lemma HeaderIntactForAllIff(headerSize: nat, sizes: seq<nat>, offsets: seq<nat>)
    requires |sizes| == |offsets| && SizesApart(sizes, offsets)
    ensures (forall header, sections | |header| == headerSize && Sizes(sections) == sizes ::
               HeaderIntact(header, sections, offsets))
      <==> forall i | 0 <= i < |sizes| && sizes[i] > 0 :: headerSize <= offsets[i]
  {
    if forall i | 0 <= i < |sizes| && sizes[i] > 0 :: headerSize <= offsets[i] {
      forall header, sections | |header| == headerSize && Sizes(sections) == sizes
        ensures HeaderIntact(header, sections, offsets)
      {
        HeaderIntactIff(header, sections, offsets);
      }
    } else {
      var i :| 0 <= i < |sizes| && sizes[i] > 0 && offsets[i] < headerSize;
      var header, sections := Filled(headerSize, 0), AllFilled(sizes, 1);
      HeaderIntactIff(header, sections, offsets);
      assert sections[i][0] != header[offsets[i] + 0];
      assert !HeaderIntact(header, sections, offsets);
    }
  }

  // ---- A loader that goes by the header's sizes ----

  /** What is at an offset of the image, for the uint32_t that holds the section's size, is the section. */
  predicate Finds(image: seq<byte>, section: seq<byte>, at: nat) {
    at + AsUint32(|section|) <= |image| && image[at..at + AsUint32(|section|)] == section
  }

  /** Every copy stays inside an image of this length. */
  predicate Fits(headerSize: nat, sizes: seq<nat>, offsets: seq<nat>, length: nat)
    requires |sizes| == |offsets|
  {
    headerSize <= length && forall i | 0 <= i < |sizes| && sizes[i] > 0 :: offsets[i] + sizes[i] <= length
  }

  lemma FindsAtOffset(header: seq<byte>, sections: seq<seq<byte>>, offsets: seq<nat>, i: nat, length: nat)
    requires |sections| == |offsets| && Apart(sections, offsets) && i < |sections| && offsets[i] <= length
    requires Fits(|header|, Sizes(sections), offsets, length) && |sections[i]| < 0x1_0000_0000
    ensures Finds(ImageOf(Copies(header, sections, offsets), length), sections[i], offsets[i])
  {
    forall x | 0 <= x < |sections[i]|
      ensures ByteAt(Copies(header, sections, offsets), offsets[i] + x) == sections[i][x]
    {
      SectionIsWhole(header, sections, offsets, i, x);
    }
    assert Sizes(sections)[i] == |sections[i]|;
  }

  /** Zeros but for one section of ones: no byte before that section is a one. */
  lemma ZeroBefore(headerSize: nat, sizes: seq<nat>, offsets: seq<nat>, i: nat, at: nat)
    requires |sizes| == |offsets| && SizesApart(sizes, offsets) && i < |sizes| && at < offsets[i]
    ensures var sections := AllFilled(sizes, 0)[i := Filled(sizes[i], 1)];
      ByteAt(Copies(Filled(headerSize, 0), sections, offsets), at) == 0
  {
    var header, sections := Filled(headerSize, 0), AllFilled(sizes, 0)[i := Filled(sizes[i], 1)];
    assert Apart(sections, offsets);
    if j :| 0 <= j < |sections| && offsets[j] <= at < offsets[j] + |sections[j]| {
      SectionIsWhole(header, sections, offsets, j, at - offsets[j]);
    } else {
      OutsideSections(header, sections, offsets, at);
    }
  }

  lemma NotFound(headerSize: nat, sizes: seq<nat>, offsets: seq<nat>, i: nat, at: nat, length: nat)
    requires |sizes| == |offsets| && SizesApart(sizes, offsets)
    requires i < |sizes| && (sizes[i] >= 0x1_0000_0000 || (sizes[i] > 0 && at < offsets[i]))
    ensures var sections := AllFilled(sizes, 0)[i := Filled(sizes[i], 1)];
      !Finds(ImageOf(Copies(Filled(headerSize, 0), sections, offsets), length), sections[i], at)
  {
    var sections := AllFilled(sizes, 0)[i := Filled(sizes[i], 1)];
    var image := ImageOf(Copies(Filled(headerSize, 0), sections, offsets), length);
    if Finds(image, sections[i], at) {
      assert |image[at..at + AsUint32(sizes[i])]| == sizes[i];
      assert image[at..at + AsUint32(sizes[i])][0] == sections[i][0] == 1;
      ZeroBefore(headerSize, sizes, offsets, i, at);
      assert false;
    }
  }

  /** Looking for a section at or before its true offset finds it, whatever the bytes, exactly if its size fits a
      uint32_t and the offset is right or there is nothing to find. */
  lemma FindsForAllIff(headerSize: nat, sizes: seq<nat>, offsets: seq<nat>, i: nat, at: nat, length: nat)
    requires |sizes| == |offsets| && SizesApart(sizes, offsets) && Fits(headerSize, sizes, offsets, length)
    requires i < |sizes| && at <= offsets[i] <= length
    ensures (forall header, sections | |header| == headerSize && Sizes(sections) == sizes ::
               Finds(ImageOf(Copies(header, sections, offsets), length), sections[i], at))
      <==> sizes[i] < 0x1_0000_0000 && (sizes[i] == 0 || at == offsets[i])
  {
    if sizes[i] < 0x1_0000_0000 && (sizes[i] == 0 || at == offsets[i]) {
      forall header, sections | |header| == headerSize && Sizes(sections) == sizes
        ensures Finds(ImageOf(Copies(header, sections, offsets), length), sections[i], at)
      {
        if sizes[i] > 0 {
          FindsAtOffset(header, sections, offsets, i, length);
        }
      }
    } else {
      var header, sections := Filled(headerSize, 0), AllFilled(sizes, 0)[i := Filled(sizes[i], 1)];
      assert Sizes(sections) == sizes;
      NotFound(headerSize, sizes, offsets, i, at, length);
      assert !Finds(ImageOf(Copies(header, sections, offsets), length), sections[i], at);
    }
  }

  // ---- mkbootimg ----

  /** Where mkbootimg copies the sections: the first to the page size, not behind the rounded header. */
  function Offsets(sizes: seq<nat>, page: nat): (offsets: seq<nat>)
    ensures |offsets| == |sizes|
  {
    seq(|sizes|, i requires 0 <= i < |sizes| => page + End(sizes[..i], page))
  }

  /** Whatever the page size, the sections do not overlap each other. */
  lemma OffsetsApart(sizes: seq<nat>, page: nat)
    ensures SizesApart(sizes, Offsets(sizes, page))
  {
    forall i, j | 0 <= i < j < |sizes| ensures Offsets(sizes, page)[i] + sizes[i] <= Offsets(sizes, page)[j] {
      EndsRise(sizes, i, j, page);
    }
  }

  /** The size that the image gets, which does count the rounded header. */
  function Length(sizes: seq<nat>, v1Size: nat, page: nat): nat {
    Round(v1Size, page) + End(sizes, page)
  }

  /** For a power of two, only a header longer than the image can be copied past its end. */
  lemma FitsIff(headerSize: nat, sizes: seq<nat>, v1Size: nat, page: nat)
    requires IsPowerOfTwo(page) && 0 < v1Size
    ensures Fits(headerSize, sizes, Offsets(sizes, page), Length(sizes, v1Size, page))
      <==> headerSize <= Length(sizes, v1Size, page)
  {
    RoundFirstPage(v1Size, page);
    forall i | 0 <= i < |sizes| ensures Offsets(sizes, page)[i] + sizes[i] <= Length(sizes, v1Size, page) {
      SectionsAreApart(sizes, i, page);
    }
  }

  /** What a page size that is a power of two and holds the header guarantees: the image is as long as its pages,
      nothing is copied past its end, and no section touches the header. */
  lemma PagesHoldAll(headerSize: nat, sizes: seq<nat>, v1Size: nat, page: nat)
    requires IsPowerOfTwo(page) && 0 < v1Size <= page && headerSize <= page
    ensures Length(sizes, v1Size, page) == page + End(sizes, page)
    ensures Fits(headerSize, sizes, Offsets(sizes, page), Length(sizes, v1Size, page))
    ensures forall i | 0 <= i < |sizes| :: headerSize <= Offsets(sizes, page)[i]
  {
    RoundFirstPage(v1Size, page);
    FitsIff(headerSize, sizes, v1Size, page);
  }

  lemma PageIsAligned(page: nat)
    requires page > 0
    ensures page % page == 0
  {
  }

  /** For a power of two, every section also starts on a page of its own. */
  lemma OffsetIsAligned(sizes: seq<nat>, i: nat, page: nat)
    requires IsPowerOfTwo(page) && i < |sizes|
    ensures Offsets(sizes, page)[i] % page == 0
  {
    EndIsAligned(sizes[..i], page);
    PageIsAligned(page);
    SumIsAligned(page, End(sizes[..i], page), page);
  }

  /** For a page size of 6, a kernel of one byte is. */
  lemma KernelPastTheEnd()
    ensures !Fits(1, [1], Offsets([1], 6), Length([1], 1, 6))
  {
    assert AndNot(6, 5) == 2 by {
      assert AndNot(3, 2) == 1 && AndNot(1, 1) == 0;
    }
    EndSnoc([], 1, 6);
    assert [] + [1] == [1];
  }

  /** The header survives for all bytes of given sizes exactly if no section that has bytes starts before its end. */
  lemma MkbootimgHeaderIff(headerSize: nat, sizes: seq<nat>, page: nat)
    ensures (forall header, sections | |header| == headerSize && Sizes(sections) == sizes ::
               HeaderIntact(header, sections, Offsets(sizes, page)))
      <==> forall i | 0 <= i < |sizes| && sizes[i] > 0 :: headerSize <= page + End(sizes[..i], page)
  {
    OffsetsApart(sizes, page);
    HeaderIntactForAllIff(headerSize, sizes, Offsets(sizes, page));
  }

  /** A page of one byte, a header of two and a kernel of one: the kernel overwrites the header's second byte. */
  lemma KernelOverwritesHeader()
    ensures IsPowerOfTwo(1) && Fits(2, [1], Offsets([1], 1), Length([1], 2, 1))
    ensures !HeaderIntact([0, 0], [[1]], Offsets([1], 1))
  {
    var sizes: seq<nat>, sections: seq<seq<byte>>, header: seq<byte> := [1], [[1]], [0, 0];
    assert Offsets(sizes, 1) == [1] by {
      assert sizes[..0] == [];
    }
    assert Fits(2, sizes, Offsets(sizes, 1), Length(sizes, 2, 1)) by {
      RoundHolds(2, 1);
      FitsIff(2, sizes, 2, 1);
    }
    assert ByteAt(Copies(header, sections, [1]), 1) == 1 by {
      SectionIsWhole(header, sections, [1], 0, 0);
    }
    assert ByteAt(Copies(header, sections, Offsets(sizes, 1)), 1) != header[1];
  }

  /** Where a loader looks that works out the offsets from the header's uint32_t sizes. */
  function LoaderOffsets(sizes: seq<nat>, page: nat): (offsets: seq<nat>)
    ensures |offsets| == |sizes|
  {
    Offsets(Truncated(sizes), page)
  }

  lemma LoaderOffsetIff(sizes: seq<nat>, i: nat, page: nat)
    requires page <= 0x1_0000_0000 && i < |sizes|
    ensures LoaderOffsets(sizes, page)[i] <= Offsets(sizes, page)[i]
    ensures LoaderOffsets(sizes, page)[i] == Offsets(sizes, page)[i]
      <==> forall j | 0 <= j < i :: sizes[j] < 0x1_0000_0000
  {
    assert Truncated(sizes)[..i] == Truncated(sizes[..i]);
    EndTruncated(sizes[..i], page);
  }

  /** The loader finds a section, whatever the bytes, exactly if the section and all sections before it are shorter than
      4 GiB, unless it is empty. */
  lemma LoaderFindsIff(headerSize: nat, sizes: seq<nat>, i: nat, v1Size: nat, page: nat)
    requires page <= 0x1_0000_0000 && i < |sizes|
    requires Fits(headerSize, sizes, Offsets(sizes, page), Length(sizes, v1Size, page))
    requires Offsets(sizes, page)[i] <= Length(sizes, v1Size, page)
    ensures (forall header, sections | |header| == headerSize && Sizes(sections) == sizes ::
               Finds(ImageOf(Copies(header, sections, Offsets(sizes, page)), Length(sizes, v1Size, page)),
                     sections[i], LoaderOffsets(sizes, page)[i]))
      <==> sizes[i] == 0 || forall j | 0 <= j <= i :: sizes[j] < 0x1_0000_0000
  {
    OffsetsApart(sizes, page);
    LoaderOffsetIff(sizes, i, page);
    FindsForAllIff(headerSize, sizes, Offsets(sizes, page), i, LoaderOffsets(sizes, page)[i],
                   Length(sizes, v1Size, page));
  }

  lemma FindsNothingLong(image: seq<byte>, section: seq<byte>, at: nat)
    requires |section| >= 0x1_0000_0000
    ensures !Finds(image, section, at)
  {
    if at + AsUint32(|section|) <= |image| {
      assert |image[at..at + AsUint32(|section|)]| == AsUint32(|section|);
    }
  }

  /** It finds all sections of an image exactly if each of them is shorter than 4 GiB. */
  lemma LoaderFindsAllIff(header: seq<byte>, sections: seq<seq<byte>>, v1Size: nat, page: nat)
    requires page <= 0x1_0000_0000
    requires Fits(|header|, Sizes(sections), Offsets(Sizes(sections), page), Length(Sizes(sections), v1Size, page))
    requires forall i | 0 <= i < |sections| ::
               Offsets(Sizes(sections), page)[i] <= Length(Sizes(sections), v1Size, page)
    ensures var sizes := Sizes(sections);
      var image := ImageOf(Copies(header, sections, Offsets(sizes, page)), Length(sizes, v1Size, page));
      (forall i | 0 <= i < |sections| :: Finds(image, sections[i], LoaderOffsets(sizes, page)[i]))
      <==> forall i | 0 <= i < |sections| :: |sections[i]| < 0x1_0000_0000
  {
    var sizes := Sizes(sections);
    var image := ImageOf(Copies(header, sections, Offsets(sizes, page)), Length(sizes, v1Size, page));
    OffsetsApart(sizes, page);
    assert Apart(sections, Offsets(sizes, page));
    forall i | 0 <= i < |sections|
      ensures |sections[i]| >= 0x1_0000_0000 ==> !Finds(image, sections[i], LoaderOffsets(sizes, page)[i])
      ensures (forall j | 0 <= j <= i :: |sections[j]| < 0x1_0000_0000) ==>
                Finds(image, sections[i], LoaderOffsets(sizes, page)[i])
    {
      LoaderOffsetIff(sizes, i, page);
      if |sections[i]| < 0x1_0000_0000 {
        FindsAtOffset(header, sections, Offsets(sizes, page), i, Length(sizes, v1Size, page));
      } else {
        FindsNothingLong(image, sections[i], LoaderOffsets(sizes, page)[i]);
      }
    }
  }

  lemma BigKernel(big: nat)
    ensures var sections := [Filled(big, 0), [1]];
      AllFilled([big, 1], 0)[1 := Filled(1, 1)] == sections && Sizes(sections) == [big, 1]
  {
    assert Filled(1, 1) == [1];
  }

  /** A kernel of 4 GiB or more of zeros hides a ramdisk of one byte behind it. */
  lemma BigKernelHidesRamdisk(big: nat, headerSize: nat, length: nat, page: nat)
    requires big >= 0x1_0000_0000 && page <= 0x1_0000_0000
    ensures var sections, sizes := [Filled(big, 0), [1]], [big, 1];
      Sizes(sections) == sizes
      && !Finds(ImageOf(Copies(Filled(headerSize, 0), sections, Offsets(sizes, page)), length),
                sections[1], LoaderOffsets(sizes, page)[1])
  {
    var sizes := [big, 1];
    OffsetsApart(sizes, page);
    LoaderOffsetIff(sizes, 1, page);
    NotFound(headerSize, sizes, Offsets(sizes, page), 1, LoaderOffsets(sizes, page)[1], length);
    BigKernel(big);
  }

  /** memcpy to an offset of the image. False if it would go past the end, after which nothing is defined. */
  method Place(out: array<byte>, ghost copies: seq<Placed>, at: nat, bytes: seq<byte>) returns (ok: bool)
    requires out[..] == ImageOf(copies, out.Length)
    modifies out
    ensures ok <==> |bytes| == 0 || at + |bytes| <= out.Length
    ensures ok ==> out[..] == ImageOf(copies + [Placed(at, bytes)], out.Length)
  {
    if |bytes| > 0 && at + |bytes| > out.Length {
      return false;
    }
    forall i: nat ensures ByteAt(copies + [Placed(at, bytes)], i)
                     == if at <= i < at + |bytes| then bytes[i - at] else ByteAt(copies, i)
    {
      ByteAtSnoc(copies, Placed(at, bytes), i);
    }
    forall i | 0 <= i < |bytes| {
      out[at + i] := bytes[i];
    }
    return true;
  }

  /** The image of zeros with the header copied to its front. */
  method PlaceHeader(header: seq<byte>, length: nat) returns (out: array<byte>, ok: bool)
    ensures fresh(out) && out.Length == length && (ok <==> |header| <= length)
    ensures ok ==> out[..] == ImageOf(Copies(header, [], []), length)
  {
    out := new byte[length](_ => 0);
    assert out[..] == ImageOf([], length);
    ok := Place(out, [], 0, header);
    assert Copies(header, [], []) == [] + [Placed(0, header)];
  }

  /** The next section. */
  method PlaceSection(out: array<byte>, header: seq<byte>, ghost sections: seq<seq<byte>>, ghost offsets: seq<nat>,
                      at: nat, section: seq<byte>)
    returns (ok: bool)
    requires |sections| == |offsets| && out[..] == ImageOf(Copies(header, sections, offsets), out.Length)
    modifies out
    ensures ok <==> |section| == 0 || at + |section| <= out.Length
    ensures ok ==> out[..] == ImageOf(Copies(header, sections + [section], offsets + [at]), out.Length)
  {
    ok := Place(out, Copies(header, sections, offsets), at, section);
    CopiesUnsnoc(header, sections + [section], offsets + [at]);
    assert (sections + [section])[..|sections|] == sections && (offsets + [at])[..|offsets|] == offsets;
  }

  /** The image with all copies in it, or None if one of them goes past its end. */
  predicate IsImage(image: Option<array<byte>>, header: seq<byte>, sections: seq<seq<byte>>, offsets: seq<nat>,
                    length: nat)
    requires |sections| == |offsets|
    reads if image.Some? then {image.value} else {}
  {
    && (image.Some? <==> Fits(|header|, Sizes(sections), offsets, length))
    && (image.Some? ==> image.value[..] == ImageOf(Copies(header, sections, offsets), length))
  }

  lemma DoesNotFit(headerSize: nat, sections: seq<seq<byte>>, offsets: seq<nat>, i: nat, length: nat)
    requires |sections| == |offsets| && i < |sections| && sections[i] != [] && offsets[i] + |sections[i]| > length
    ensures !Fits(headerSize, Sizes(sections), offsets, length)
  {
    assert offsets[i] + Sizes(sections)[i] > length;
  }

  /** The copies of mkbootimg. */
  method Build(header: seq<byte>, kernel: seq<byte>, ramdisk: seq<byte>, second: seq<byte>, dtb: seq<byte>,
               length: nat, k: nat, r: nat, s: nat, d: nat)
    returns (image: Option<array<byte>>)
    ensures IsImage(image, header, [kernel, ramdisk, second, dtb], [k, r, s, d], length) == true
  {
    var out, ok := PlaceHeader(header, length);
    if !ok {
      return None;
    }
    ghost var sections: seq<seq<byte>>, offsets: seq<nat> := [], [];
    ok := PlaceSection(out, header, sections, offsets, k, kernel);
    if !ok {
      DoesNotFit(|header|, [kernel, ramdisk, second, dtb], [k, r, s, d], 0, length);
      return None;
    }
    sections, offsets := sections + [kernel], offsets + [k];
    ok := PlaceSection(out, header, sections, offsets, r, ramdisk);
    if !ok {
      DoesNotFit(|header|, [kernel, ramdisk, second, dtb], [k, r, s, d], 1, length);
      return None;
    }
    sections, offsets := sections + [ramdisk], offsets + [r];
    ok := PlaceSection(out, header, sections, offsets, s, second);
    if !ok {
      DoesNotFit(|header|, [kernel, ramdisk, second, dtb], [k, r, s, d], 2, length);
      return None;
    }
    sections, offsets := sections + [second], offsets + [s];
    ok := PlaceSection(out, header, sections, offsets, d, dtb);
    if !ok {
      DoesNotFit(|header|, [kernel, ramdisk, second, dtb], [k, r, s, d], 3, length);
      return None;
    }
    assert sections + [dtb] == [kernel, ramdisk, second, dtb] && offsets + [d] == [k, r, s, d];
    return Some(out);
  }

  lemma OffsetsSnoc(sizes: seq<nat>, last: nat, page: nat)
    ensures Offsets(sizes + [last], page) == Offsets(sizes, page) + [page + End(sizes, page)]
    ensures End(sizes + [last], page) == End(sizes, page) + Round(last, page)
  {
    EndSnoc(sizes, last, page);
    var all := sizes + [last];
    forall i | 0 <= i < |sizes| ensures Offsets(all, page)[i] == Offsets(sizes, page)[i] {
      assert all[..i] == sizes[..i];
    }
    assert all[..|sizes|] == sizes;
    assert Offsets(all, page)[|sizes|] == page + End(sizes, page);
  }

  lemma EndsOfTwo(k: nat, r: nat, page: nat, ka: nat, ra: nat)
    requires ka == Round(k, page) && ra == Round(r, page)
    ensures Offsets([k, r], page) == [page, page + ka] && End([k, r], page) == ka + ra
  {
    OffsetsSnoc([], k, page);
    OffsetsSnoc([k], r, page);
    assert [] + [k] == [k] && [k] + [r] == [k, r];
  }

  lemma EndsOfFour(k: nat, r: nat, s: nat, d: nat, page: nat, ka: nat, ra: nat, sa: nat, da: nat)
    requires ka == Round(k, page) && ra == Round(r, page) && sa == Round(s, page) && da == Round(d, page)
    ensures Offsets([k, r, s, d], page) == [page, page + ka, page + ka + ra, page + ka + ra + sa]
    ensures End([k, r, s, d], page) == ka + ra + sa + da
  {
    EndsOfTwo(k, r, page, ka, ra);
    OffsetsSnoc([k, r], s, page);
    OffsetsSnoc([k, r, s], d, page);
    assert [k, r] + [s] == [k, r, s] && [k, r, s] + [d] == [k, r, s, d];
  }

  /** The rounded sizes, and what they make of the offsets and the length. */
  method OffsetsAndLength(kernel: nat, ramdisk: nat, second: nat, dtb: nat, v1Size: nat, pageSize: nat)
    returns (k: nat, r: nat, s: nat, d: nat, length: nat)
    ensures Offsets([kernel, ramdisk, second, dtb], pageSize) == [k, r, s, d]
    ensures Length([kernel, ramdisk, second, dtb], v1Size, pageSize) == length
  {
    var headerActual, kernelActual := Round(v1Size, pageSize), Round(kernel, pageSize);
    var ramdiskActual, secondActual := Round(ramdisk, pageSize), Round(second, pageSize);
    var dtbActual := Round(dtb, pageSize);
    EndsOfFour(kernel, ramdisk, second, dtb, pageSize, kernelActual, ramdiskActual, secondActual, dtbActual);
    k, r := pageSize, pageSize + kernelActual;
    s, d := pageSize + kernelActual + ramdiskActual, pageSize + kernelActual + ramdiskActual + secondActual;
    length := headerActual + kernelActual + ramdiskActual + secondActual + dtbActual;
  }

  /** mkbootimg for header versions below 3, with the header's bytes as they are to be written, for every page size. */
  method Mkbootimg(kernel: seq<byte>, ramdisk: seq<byte>, second: seq<byte>, dtb: seq<byte>,
                   header: seq<byte>, v1Size: nat, pageSize: nat)
    returns (image: Option<array<byte>>)
    ensures var sections := [kernel, ramdisk, second, dtb];
      var sizes := Sizes(sections);
      var offsets, length := Offsets(sizes, pageSize), Length(sizes, v1Size, pageSize);
      && (image.Some? <==> Fits(|header|, sizes, offsets, length))
      && (image.Some? ==> image.value[..] == ImageOf(Copies(header, sections, offsets), length))
  {
    assert Sizes([kernel, ramdisk, second, dtb]) == [|kernel|, |ramdisk|, |second|, |dtb|];
    var k, r, s, d, length := OffsetsAndLength(|kernel|, |ramdisk|, |second|, |dtb|, v1Size, pageSize);
    image := Build(header, kernel, ramdisk, second, dtb, length, k, r, s, d);
  }

  const V3_PAGE_SIZE: nat := 4096

  method OffsetsAndLengthV3(kernel: nat, ramdisk: nat) returns (k: nat, r: nat, length: nat)
    ensures Offsets([kernel, ramdisk], V3_PAGE_SIZE) == [k, r]
    ensures V3_PAGE_SIZE + End([kernel, ramdisk], V3_PAGE_SIZE) == length
  {
    var kernelActual, ramdiskActual := Round(kernel, V3_PAGE_SIZE), Round(ramdisk, V3_PAGE_SIZE);
    EndsOfTwo(kernel, ramdisk, V3_PAGE_SIZE, kernelActual, ramdiskActual);
    k, r, length := V3_PAGE_SIZE, V3_PAGE_SIZE + kernelActual, V3_PAGE_SIZE + kernelActual + ramdiskActual;
  }

  method BuildTwo(header: seq<byte>, kernel: seq<byte>, ramdisk: seq<byte>, length: nat, k: nat, r: nat)
    returns (image: Option<array<byte>>)
    ensures IsImage(image, header, [kernel, ramdisk], [k, r], length) == true
  {
    var out, ok := PlaceHeader(header, length);
    if !ok {
      return None;
    }
    ok := PlaceSection(out, header, [], [], k, kernel);
    if !ok {
      DoesNotFit(|header|, [kernel, ramdisk], [k, r], 0, length);
      return None;
    }
    assert [] + [kernel] == [kernel] && [] + [k] == [k];
    ok := PlaceSection(out, header, [kernel], [k], r, ramdisk);
    if !ok {
      DoesNotFit(|header|, [kernel, ramdisk], [k, r], 1, length);
      return None;
    }
    assert [kernel] + [ramdisk] == [kernel, ramdisk] && [k] + [r] == [k, r];
    return Some(out);
  }

  /** The page of header versions from 3 on guarantees that. */
  lemma V3HoldsAll(headerSize: nat, sizes: seq<nat>)
    requires headerSize <= V3_PAGE_SIZE
    ensures Fits(headerSize, sizes, Offsets(sizes, V3_PAGE_SIZE), V3_PAGE_SIZE + End(sizes, V3_PAGE_SIZE))
    ensures forall i | 0 <= i < |sizes| :: headerSize <= Offsets(sizes, V3_PAGE_SIZE)[i]
  {
    assert IsPowerOfTwo(16);
    assert IsPowerOfTwo(256);
    PagesHoldAll(headerSize, sizes, V3_PAGE_SIZE, V3_PAGE_SIZE);
  }

  /** mkbootimg for header versions from 3 on, whose header takes one page: None stands for die. */
  method MkbootimgV3(kernel: seq<byte>, ramdisk: seq<byte>, second: seq<byte>, dtb: seq<byte>, header: seq<byte>)
    returns (image: Option<array<byte>>)
    requires 0 < |header| <= 4096
    ensures image == None <==> second != [] || dtb != []
    ensures image.Some? ==>
              var offsets := Offsets([|kernel|, |ramdisk|], 4096);
              image.value[..] == ImageOf(Copies(header, [kernel, ramdisk], offsets),
                                         4096 + End([|kernel|, |ramdisk|], 4096))
  {
    if second != [] || dtb != [] {
      return None;
    }
    var k, r, length := OffsetsAndLengthV3(|kernel|, |ramdisk|);
    assert Sizes([kernel, ramdisk]) == [|kernel|, |ramdisk|];
    V3HoldsAll(|header|, [|kernel|, |ramdisk|]);
    image := BuildTwo(header, kernel, ramdisk, length, k, r);
  }
}
