/** List objects: one ziplist when small, else a quicklist of ziplist pages cut at 4096 bytes. */
module Lists {
  import opened Bytes
  import opened Parsing
  import opened RdbString
  import opened ZipList

  const PAGE_LIMIT := 4096

  type Values = seq<seq<byte>>

  function TotalSize(values: Values): nat
  {
    if values == [] then 0 else TotalSize(values[..|values| - 1]) + |values[|values| - 1]|
  }

  function Concat(pages: seq<Values>): Values
  {
    if pages == [] then [] else pages[0] + Concat(pages[1..])
  }

  /** The paging loop, with the page under construction. */
  function PagesFrom(values: Values, page: Values, size: nat): seq<Values>
    decreases |values|
  {
    if values == [] then if page == [] then [] else [page]
    else
      var page' := page + [values[0]];
      var size' := size + |values[0]|;
      if size' >= PAGE_LIMIT then [page'] + PagesFrom(values[1..], [], 0)
      else PagesFrom(values[1..], page', size')
  }

  function Pages(values: Values): seq<Values>
  {
    PagesFrom(values, [], 0)
  }

  /** A page is cut right after the value that takes it to the limit. */
  predicate CutAtLimit(page: Values)
  {
    page != [] && TotalSize(page[..|page| - 1]) < PAGE_LIMIT
  }

  lemma TotalSizePush(page: Values, v: seq<byte>)
    ensures TotalSize(page + [v]) == TotalSize(page) + |v|
  {
    assert (page + [v])[..|page|] == page;
  }

  /** Paging loses and reorders nothing; no page is empty; every page but the last reaches the limit,
      and none reaches it before its final value. */
  lemma {:induction false} PagesShape(values: Values, page: Values, size: nat)
    requires size == TotalSize(page) < PAGE_LIMIT
    ensures Concat(PagesFrom(values, page, size)) == page + values
    ensures forall p :: p in PagesFrom(values, page, size) ==> CutAtLimit(p)
    ensures var ps := PagesFrom(values, page, size);
            forall i :: 0 <= i < |ps| - 1 ==> TotalSize(ps[i]) >= PAGE_LIMIT
    decreases |values|
  {
    if values == [] {
      if page != [] {
        TotalSizePush(page[..|page| - 1], page[|page| - 1]);
        assert page[..|page| - 1] + [page[|page| - 1]] == page;
      }
      assert page + values == page;
    } else {
      var page' := page + [values[0]];
      TotalSizePush(page, values[0]);
      assert page'[..|page'| - 1] == page;
      assert page + values == page' + values[1..];
      if size + |values[0]| >= PAGE_LIMIT {
        PagesShape(values[1..], [], 0);
        assert [] + values[1..] == values[1..];
      } else {
        PagesShape(values[1..], page', size + |values[0]|);
      }
    }
  }

  predicate NonEmptyValues(values: Values)
  {
    forall i :: 0 <= i < |values| ==> values[i] != []
  }

  lemma {:induction false} SizeCounts(values: Values)
    requires NonEmptyValues(values)
    ensures TotalSize(values) >= |values|
  {
    if values != [] {
      SizeCounts(values[..|values| - 1]);
    }
  }

  lemma {:induction false} ConcatMember(pages: seq<Values>, p: Values, i: nat)
    requires p in pages && i < |p|
    ensures p[i] in Concat(pages)
  {
    if pages[0] != p {
      ConcatMember(pages[1..], p, i);
    }
  }

  lemma {:induction false} ConcatLength(pages: seq<Values>, p: Values)
    requires p in pages
    ensures |p| <= |Concat(pages)|
  {
    if pages[0] != p {
      ConcatLength(pages[1..], p);
    }
  }

  /** With nonempty values no page holds more than 4096 of them, so the 16-bit count is exact. */
  lemma PageCount(values: Values, p: Values)
    requires p in Pages(values)
    ensures NonEmptyValues(values) ==> |p| <= PAGE_LIMIT
    ensures |p| <= |values|
    ensures forall i :: 0 <= i < |p| ==> p[i] in values
  {
    PagesShape(values, [], 0);
    ConcatLength(Pages(values), p);
    assert [] + values == values;
    forall i | 0 <= i < |p| ensures p[i] in values {
      ConcatMember(Pages(values), p, i);
    }
    if NonEmptyValues(values) {
      var init := p[..|p| - 1];
      assert CutAtLimit(p);
      SizeCounts(init);
    }
  }

  // ----- sizes

  lemma EntrySize(prevLen: nat, val: seq<byte>)
    requires |val| < TWO_32 && ZipOk(val)
    ensures |EncEntry(prevLen, val)| <= 16390
  {
    hide EncIntEntry, LE;
  }

  lemma {:induction false} BodySize(values: Values, prevLen: nat)
    requires AllZipOk(values)
    ensures |Body(values, prevLen)| <= 16390 * |values|
    decreases |values|
  {
    hide EncEntry, ZipOk;
    if values != [] {
      EntrySize(prevLen, values[0]);
      BodySize(values[1..], |EncEntry(prevLen, values[0])| % TWO_32);
    }
  }

  lemma ZipListWritable(values: Values, compress: bool)
    requires AllZipOk(values) && |values| <= MAX_ENTRIES
    ensures |EncZipList(values)| < TWO_32 && Writable(EncZipList(values), compress)
  {
    hide Body, ListHeader;
    BodySize(values, 0);
  }

  // ----- the two encodings

  predicate PagesWritable(pages: seq<Values>, compress: bool)
  {
    forall i :: 0 <= i < |pages| ==> AllShort(pages[i]) && Writable(EncZipList(pages[i]), compress)
  }

  function EncPages(pages: seq<Values>, compress: bool): seq<byte>
    requires PagesWritable(pages, compress)
  {
    if pages == [] then []
    else EncNanString(EncZipList(pages[0]), compress) + EncPages(pages[1..], compress)
  }

  function EncQuickList(pages: seq<Values>, compress: bool): seq<byte>
    requires |pages| < TWO_63 && PagesWritable(pages, compress)
  {
    EncLength(|pages|) + EncPages(pages, compress)
  }

  /** int(size) as a loop bound: a length of 2^63 or more is negative and gives no iterations. */
  function LoopCount(v: nat): nat
  {
    if v < TWO_63 then v else 0
  }

  function PPages(s: seq<byte>, n: nat): (p: Parsed<Values>)
    ensures p.Got? ==> |p.rest| <= |s|
    decreases n
  {
    if n == 0 then Got([], s)
    else
      var (page, t) :- PZipList(s);
      var (rest, u) :- PPages(t, n - 1);
      Got(page + rest, u)
  }

  /** readQuickList */
  function PQuickList(s: seq<byte>): (p: Parsed<Values>)
    ensures p.Got? ==> |p.rest| < |s|
  {
    var (len, t) :- PLength(s);
    PPages(t, LoopCount(len.value))
  }

  /** A page reads as its buffer does, and reading stops at its end. */
  lemma PageRead(page: Values, compress: bool, t: seq<byte>)
    requires AllShort(page) && Writable(EncZipList(page), compress)
    ensures PZipList(EncNanString(EncZipList(page), compress) + t) ==
            if PZipListBuf(EncZipList(page)).Some? then Got(PZipListBuf(EncZipList(page)).value, t) else Bad
  {
    hide EncZipList, EncNanString, PString, PZipListBuf, AllShort;
    NanStringRoundTrip(EncZipList(page), compress, t);
  }

  /** Every page comes back by itself. */
  predicate PagesOk(pages: seq<Values>)
  {
    forall i :: 0 <= i < |pages| ==> |pages[i]| <= MAX_ENTRIES && ListOk(pages[i])
  }

  lemma PagesOkStep(pages: seq<Values>)
    requires pages != []
    ensures PagesOk(pages) <==> |pages[0]| <= MAX_ENTRIES && ListOk(pages[0]) && PagesOk(pages[1..])
  {
    hide ListOk;
    if PagesOk(pages[1..]) {
      assert forall i :: 0 < i < |pages| ==> pages[i] == pages[1..][i - 1];
    }
  }

  /** Pages read one after the other give the whole list exactly when each comes back by itself: no page
      reads longer than it is, so nothing can make up for a lost value. */
  lemma {:induction false} PagesIff(pages: seq<Values>, compress: bool, t: seq<byte>)
    requires PagesWritable(pages, compress)
    ensures var p := PPages(EncPages(pages, compress) + t, |pages|);
            && (p.Got? ==> p.rest == t && |p.value| <= |Concat(pages)|)
            && ((p.Got? && p.value == Concat(pages)) <==> PagesOk(pages))
  {
    hide EncZipList, EncNanString, EncPages, PPages, PZipListBuf, AllShort, ListOk, PagesOk, Joined, Writable;
    if pages == [] {
      NoPages(compress, t);
    } else {
      var first, q := PZipListBuf(EncZipList(pages[0])), PPages(EncPages(pages[1..], compress) + t, |pages| - 1);
      PagesCons(pages, compress, t);
      PagesIff(pages[1..], compress, t);
      PagesOkStep(pages);
      BufRoundTripIff(pages[0]);
      BufCount(pages[0]);
      JoinedIff(first, q, pages[0], Concat(pages[1..]));
    }
  }

  /** The first page as read, before the others as read. */
  function Joined(first: Option<Values>, others: Parsed<Values>): Parsed<Values>
  {
    if first.Some? && others.Got? then Got(first.value + others.value, others.rest) else Bad
  }

  lemma NoPages(compress: bool, t: seq<byte>)
    ensures PPages(EncPages([], compress) + t, 0) == Got([], t) && PagesOk([])
  {
    assert EncPages([], compress) + t == t;
  }

  lemma PagesCons(pages: seq<Values>, compress: bool, t: seq<byte>)
    requires pages != [] && PagesWritable(pages, compress)
    ensures PPages(EncPages(pages, compress) + t, |pages|) ==
            Joined(PZipListBuf(EncZipList(pages[0])), PPages(EncPages(pages[1..], compress) + t, |pages| - 1))
  {
    hide EncZipList, EncNanString, PZipList, PZipListBuf, AllShort;
    var first := EncNanString(EncZipList(pages[0]), compress);
    var rest := EncPages(pages[1..], compress);
    Assoc(first, rest, t);
    PageRead(pages[0], compress, rest + t);
  }

  lemma JoinedIff(first: Option<Values>, others: Parsed<Values>, page: Values, tail: Values)
    requires first.Some? ==> |first.value| <= |page|
    requires others.Got? ==> |others.value| <= |tail|
    ensures var p := Joined(first, others);
            && (p.Got? ==> first.Some? && others.Got? && |p.value| <= |page + tail| && p.rest == others.rest)
            && ((p.Got? && p.value == page + tail) <==> first == Some(page) && others.Got? && others.value == tail)
  {
    if first.Some? && others.Got? {
      SamePieces(first.value, others.value, page, tail);
    }
  }

  lemma SamePieces(a: Values, b: Values, c: Values, d: Values)
    requires |a| <= |c| && |b| <= |d|
    ensures a + b == c + d <==> a == c && b == d
  {
    if a + b == c + d {
      assert |a| == |c|;
      assert a == (a + b)[..|a|] == (c + d)[..|c|] == c;
      assert b == (a + b)[|a|..] == (c + d)[|c|..] == d;
    }
  }

  predicate PagesFit(pages: seq<Values>)
  {
    forall i :: 0 <= i < |pages| ==> |pages[i]| <= MAX_ENTRIES
  }

  /** Every value is an integer, at most 16383 bytes long, or a zero run. */
  predicate RunsOk(values: Values)
  {
    forall i :: 0 <= i < |values| ==> ZipOk(values[i]) || ZeroRun(values[i])
  }

  lemma {:induction false} MemberSize(values: Values, i: nat)
    requires i < |values|
    ensures |values[i]| <= TotalSize(values)
  {
    if i < |values| - 1 {
      MemberSize(values[..|values| - 1], i);
    }
  }

  /** A long value ends its page, so it has nothing behind it. */
  lemma PageOkIff(page: Values)
    requires CutAtLimit(page)
    ensures ListOk(page) <==> RunsOk(page)
  {
    hide ZeroRun;
    var init := page[..|page| - 1];
    forall i | 0 <= i < |page| - 1 ensures ZipOk(page[i]) {
      MemberSize(init, i);
      assert init[i] == page[i];
    }
  }

  lemma {:induction false} RunsOkConcat(pages: seq<Values>)
    ensures RunsOk(Concat(pages)) <==> forall i :: 0 <= i < |pages| ==> RunsOk(pages[i])
  {
    hide ZipOk, ZeroRun, RunsOk;
    if pages == [] {
      assert RunsOk([]) by {
        NothingRuns();
      }
    } else {
      RunsOkConcat(pages[1..]);
      RunsOkBoth(pages[0], Concat(pages[1..]));
      assert forall i :: 0 < i < |pages| ==> pages[i] == pages[1..][i - 1];
    }
  }

  lemma NothingRuns()
    ensures RunsOk([])
  {
  }

  lemma RunsOkBoth(a: Values, b: Values)
    ensures RunsOk(a + b) <==> RunsOk(a) && RunsOk(b)
  {
    hide ZipOk, ZeroRun;
    assert forall i :: 0 <= i < |a| ==> (a + b)[i] == a[i];
    assert forall i :: 0 <= i < |b| ==> (a + b)[|a| + i] == b[i];
  }

  lemma PagesOkIff(values: Values)
    ensures PagesOk(Pages(values)) <==> PagesFit(Pages(values)) && RunsOk(values)
  {
    hide ListOk, RunsOk, CutAtLimit, PagesFrom;
    var pages := Pages(values);
    PagesShape(values, [], 0);
    assert [] + values == values;
    RunsOkConcat(pages);
    forall i | 0 <= i < |pages| ensures ListOk(pages[i]) <==> RunsOk(pages[i]) {
      assert pages[i] in pages;
      PageOkIff(pages[i]);
    }
  }

  /** A quicklist reads back as the list that was paged exactly when every page's count fits in 16 bits
      and every value is an integer, at most 16383 bytes long, or a zero run. */
  lemma QuickListRoundTripIff(values: Values, compress: bool, t: seq<byte>)
    requires |Pages(values)| < TWO_63 && PagesWritable(Pages(values), compress)
    ensures (PQuickList(EncQuickList(Pages(values), compress) + t) == Got(values, t))
            <==> PagesFit(Pages(values)) && RunsOk(values)
    ensures PQuickList(EncQuickList(Pages(values), compress) + t).Got? ==>
              PQuickList(EncQuickList(Pages(values), compress) + t).rest == t
  {
    hide EncZipList, EncNanString, PZipList, AllShort, EncLength, PLength, PPages, EncPages, RunsOk, PagesOk,
      PagesWritable;
    var pages := Pages(values);
    PagesShape(values, [], 0);
    assert [] + values == values;
    Assoc(EncLength(|pages|), EncPages(pages, compress), t);
    LengthRoundTrip(|pages|, EncPages(pages, compress) + t);
    PagesIff(pages, compress, t);
    PagesOkIff(values);
  }

  // ----- which values are safe, as a caller can check

  /** Integers and strings up to 16383 bytes; and, unless all are nonempty, at most 65535 of them. */
  predicate QuickListOk(values: Values)
  {
    AllZipOk(values) && (|values| <= MAX_ENTRIES || NonEmptyValues(values)) && |values| < TWO_63
  }

  lemma {:induction false} PagesNumber(values: Values, page: Values, size: nat)
    requires size < PAGE_LIMIT
    ensures |PagesFrom(values, page, size)| <= |values| + (if page == [] then 0 else 1)
    decreases |values|
  {
    if values != [] {
      var page', size' := page + [values[0]], size + |values[0]|;
      if size' >= PAGE_LIMIT {
        PagesNumber(values[1..], [], 0);
      } else {
        PagesNumber(values[1..], page', size');
      }
    }
  }

  lemma QuickListSafe(values: Values, compress: bool)
    requires QuickListOk(values)
    ensures |Pages(values)| < TWO_63
    ensures PagesWritable(Pages(values), compress) && PagesFit(Pages(values)) && RunsOk(values)
  {
    hide ZipOk, ZeroRun, EncZipList, PagesFrom;
    var pages := Pages(values);
    PagesNumber(values, [], 0);
    forall i | 0 <= i < |pages|
      ensures AllShort(pages[i]) && |pages[i]| <= MAX_ENTRIES && Writable(EncZipList(pages[i]), compress)
    {
      PageCount(values, pages[i]);
      assert AllZipOk(pages[i]);
      ZipListWritable(pages[i], compress);
    }
  }

  /** A condition that looks at one value at a time and suffices. */
  lemma QuickListRoundTrip(values: Values, compress: bool, t: seq<byte>)
    requires QuickListOk(values)
    ensures |Pages(values)| < TWO_63 && PagesWritable(Pages(values), compress)
    ensures PQuickList(EncQuickList(Pages(values), compress) + t) == Got(values, t)
  {
    hide PQuickList, EncQuickList, Pages, QuickListOk, PagesWritable, RunsOk;
    QuickListSafe(values, compress);
    QuickListRoundTripIff(values, compress, t);
  }
}
