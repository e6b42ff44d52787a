/** The file length in the MZ header: whole pages of 512 bytes and a partial last page. */
module ExeHeader {
  import opened Division
  import opened Machine

  const PAGE: int := 512
  const PARAGRAPH: int := 16
  const MAX_LENGTH: int := 65535 * 512

  /** The length that a header stands for. */
  function LengthOf(partPag: uint16, pageCnt: uint16, hdrSize: uint16): int32 {
    pageCnt * PAGE - hdrSize * PARAGRAPH - (if partPag != 0 then PAGE - partPag else 0)
  }

  function PagesOf(len: int32): (uint16, uint16) {
    var part := ToUint16(TruncMod(len, PAGE));
    var pages := ToUint16(TruncDiv(len, PAGE));
    (part, if part != 0 then ToUint16(pages + 1) else pages)
  }

  /** A header as a linker writes it: a partial last page is less than a page and counted. */
  predicate IsNormal(partPag: uint16, pageCnt: uint16) {
    partPag < PAGE && (partPag != 0 ==> pageCnt >= 1)
  }

  class ExeHdr {
    var PartPag: uint16
    var PageCnt: uint16
    var HdrSize: uint16

    constructor (partPag: uint16, pageCnt: uint16, hdrSize: uint16)
      ensures PartPag == partPag && PageCnt == pageCnt && HdrSize == hdrSize
    {
      PartPag, PageCnt, HdrSize := partPag, pageCnt, hdrSize;
    }

    /** The file size that a length and its header stand for gives back the page fields of a normal header, and of no other. */
    method CalcLength() returns (len: int32)
      ensures len == LengthOf(PartPag, PageCnt, HdrSize)
      ensures len + 16 * HdrSize == if PartPag == 0 then 512 * PageCnt else 512 * (PageCnt - 1) + PartPag
      ensures -0x8000_0000 <= len + PARAGRAPH * HdrSize < 0x8000_0000
      ensures PagesOf(len + PARAGRAPH * HdrSize) == (PartPag, PageCnt) <==> IsNormal(PartPag, PageCnt)
    {
      HeaderRoundTrip(PartPag, PageCnt, HdrSize);
      len := PageCnt * PAGE - HdrSize * PARAGRAPH;
      if PartPag != 0 {
        len := len - (PAGE - PartPag);
      }
    }

    /** The new page fields stand for `len` less the header exactly when it is not negative and fits; they are normal then. */
    method CalcPages(len: int32)
      modifies `PartPag, `PageCnt
      ensures (PartPag, PageCnt) == PagesOf(len)
      ensures 0 <= len <= 65535 * 512 ==>
                PartPag == len % 512 && 512 * PageCnt == len + (if len % 512 == 0 then 0 else 512 - len % 512)
      ensures LengthOf(PartPag, PageCnt, HdrSize) == len - PARAGRAPH * HdrSize <==> 0 <= len <= MAX_LENGTH
      ensures 0 <= len <= MAX_LENGTH ==> IsNormal(PartPag, PageCnt)
    {
      LengthRoundTrip(len, HdrSize);
      if 0 <= len <= MAX_LENGTH {
        PagesInNumbers(len);
      }
      PartPag := ToUint16(TruncMod(len, PAGE));
      PageCnt := ToUint16(TruncDiv(len, PAGE));
      if PartPag != 0 {
        PageCnt := ToUint16(PageCnt + 1);
      }
    }
  }

  /** A length that is not negative: its pages and the rest. */
  lemma PagesOfLength(len: int32)
    requires len >= 0
    ensures var q, r := len / PAGE, len % PAGE;
            && len == PAGE * q + r && 0 <= r < PAGE && 0 <= q
            && PagesOf(len) == (r, if r != 0 then ToUint16(ToUint16(q) + 1) else ToUint16(q))
  {
    TruncIs(len);
    ToUint16Is(len % PAGE);
  }

  /** The partial page is the rest, and the pages are as many as it takes. */
  lemma PagesInNumbers(len: int32)
    requires 0 <= len <= 65535 * 512
    ensures PagesOf(len).0 == len % 512
    ensures 512 * PagesOf(len).1 == len + (if len % 512 == 0 then 0 else 512 - len % 512)
  {
    hide PagesOf, ToUint16;
    PagesOfLength(len);
    PageCountWraps(len / PAGE);
  }

  lemma TruncIs(len: int)
    ensures len >= 0 ==> TruncMod(len, PAGE) == len % PAGE && TruncDiv(len, PAGE) == len / PAGE
    ensures len < 0 ==> -PAGE < TruncMod(len, PAGE) <= 0
  {}

  lemma ToUint16Is(x: int)
    ensures 0 <= x < 0x1_0000 ==> ToUint16(x) == x
    ensures -0x1_0000 <= x < 0 ==> ToUint16(x) == x + 0x1_0000
  {}

  /** A page count past the last one wraps, so the length does not come back. */
  lemma PageCountWraps(q: int)
    requires q >= 0
    ensures ToUint16(q) <= q && (ToUint16(q) == q <==> q < 0x1_0000)
    ensures ToUint16(ToUint16(q) + 1) <= q + 1 && (ToUint16(ToUint16(q) + 1) == q + 1 <==> q < 0xFFFF)
  {
    ToUint16Is(ToUint16(q) + 1);
  }

  /** The length survives the header exactly when it is not negative and fits in 65535 pages. */
  lemma LengthRoundTrip(len: int32, hdrSize: uint16)
    ensures var (part, pages) := PagesOf(len);
            && (LengthOf(part, pages, hdrSize) == len - PARAGRAPH * hdrSize <==> 0 <= len <= MAX_LENGTH)
            && (0 <= len <= MAX_LENGTH ==> IsNormal(part, pages))
  {
    hide PagesOf, ToUint16;
    if len >= 0 {
      PagesOfLength(len);
      PageCountWraps(len / PAGE);
    } else {
      NegativeLength(len);
    }
  }

  /** A negative length leaves a huge partial page, or a negative number of pages that cannot be written. */
  lemma NegativeLength(len: int32)
    requires len < 0
    ensures var (part, pages) := PagesOf(len);
            LengthOf(part, pages, 0) >= 0
  {
    hide ToUint16;
    var part := TruncMod(len, PAGE);
    TruncIs(len);
    ToUint16Is(part);
  }

  lemma NormalHeader(partPag: uint16, pageCnt: uint16, len: int32)
    requires IsNormal(partPag, pageCnt) && len == LengthOf(partPag, pageCnt, 0)
    ensures PagesOf(len) == (partPag, pageCnt)
  {
    hide PagesOf, ToUint16;
    var q := if partPag == 0 then pageCnt else pageCnt - 1;
    DivisionIs(len, PAGE, q, partPag);
    PagesOfLength(len);
    PageCountWraps(q);
  }

  /** The partial page that is written back is below a page for a length, and huge otherwise. */
  lemma PartWritten(len: int32)
    ensures len >= 0 ==> PagesOf(len).0 < PAGE
    ensures -PAGE < len < 0 ==> PagesOf(len).0 >= PAGE
  {
    hide PagesOf, ToUint16;
    if len >= 0 {
      PagesOfLength(len);
    } else if -PAGE < len {
      SmallNegative(len);
    }
  }

  lemma SmallNegative(len: int32)
    requires -PAGE < len < 0
    ensures PagesOf(len).0 == len + 0x1_0000
  {
    hide ToUint16;
    DivisionIs(-len, PAGE, 0, -len);
    ToUint16Is(len);
  }

  /** The header survives its length exactly when it is in normal form. */
  lemma HeaderRoundTrip(partPag: uint16, pageCnt: uint16, hdrSize: uint16)
    ensures var len := LengthOf(partPag, pageCnt, hdrSize) + PARAGRAPH * hdrSize;
            && -0x8000_0000 <= len < 0x8000_0000
            && (PagesOf(len) == (partPag, pageCnt) <==> IsNormal(partPag, pageCnt))
  {
    hide PagesOf, ToUint16;
    var len := LengthOf(partPag, pageCnt, 0);
    assert len == LengthOf(partPag, pageCnt, hdrSize) + PARAGRAPH * hdrSize;
    PartWritten(len);
    if IsNormal(partPag, pageCnt) {
      NormalHeader(partPag, pageCnt, len);
    }
  }
}
