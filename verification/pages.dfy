/**
 Page records and the merge step `__filter_and_sort_data`: drop the records
 without text, then sort stably by page number.
 */
module Pages {
  import opened Wrappers
  import opened Seqs

  /** One page's result. `text == None` marks a page queued for OCR; `ocr` is
      `Some(false)` for native text, `Some(true)` for remapped OCR text and
      `None` when the record carries no `ocr` key at all. */
  datatype PageRecord = PageRecord(pageNo: nat, text: Option<string>, ocr: Option<bool>)

  /** Python truthiness of `entry.get('text')`: present and non-empty. */
  predicate HasText(r: PageRecord) {
    r.text.Some? && r.text.value != []
  }

  function PageNos(s: seq<PageRecord>): (ps: seq<nat>)
    ensures |ps| == |s|
    ensures forall i :: 0 <= i < |s| ==> ps[i] == s[i].pageNo
  {
    seq(|s|, i requires 0 <= i < |s| => s[i].pageNo)
  }

  predicate SortedByPage(s: seq<PageRecord>) {
    forall i, j :: 0 <= i < j < |s| ==> s[i].pageNo <= s[j].pageNo
  }

  predicate StrictlyAscending(s: seq<PageRecord>) {
    forall i, j :: 0 <= i < j < |s| ==> s[i].pageNo < s[j].pageNo
  }

  predicate StrictlyIncreasing(ps: seq<nat>) {
    forall i, j :: 0 <= i < j < |ps| ==> ps[i] < ps[j]
  }

  predicate UniquePages(s: seq<PageRecord>) {
    forall i, j :: 0 <= i < j < |s| ==> s[i].pageNo != s[j].pageNo
  }

  /** The records of page `k`, in their order in `s`. A sort is stable exactly
      when it leaves every such subsequence unchanged. */
  function OnPage(s: seq<PageRecord>, k: nat): (r: seq<PageRecord>)
    ensures |r| <= |s|
    ensures forall x :: x in r <==> x in s && x.pageNo == k
  {
    if s == [] then []
    else (if s[0].pageNo == k then [s[0]] else []) + OnPage(s[1..], k)
  }

  lemma {:induction false} OnPageConcat(a: seq<PageRecord>, b: seq<PageRecord>, k: nat)
    ensures OnPage(a + b, k) == OnPage(a, k) + OnPage(b, k)
  {
    if a == [] {
      assert a + b == b;
    } else {
      assert (a + b)[1..] == a[1..] + b;
      OnPageConcat(a[1..], b, k);
    }
  }

  /** `[entry for entry in data if entry.get('text')]`. */
  function KeepWithText(data: seq<PageRecord>): (r: seq<PageRecord>)
    ensures |r| <= |data|
    ensures forall x :: x in r <==> x in data && HasText(x)
  {
    if data == [] then []
    else (if HasText(data[0]) then [data[0]] else []) + KeepWithText(data[1..])
  }

  /** The filter keeps every record with text as often as it occurs. */
  lemma {:induction false} KeepMultiset(data: seq<PageRecord>)
    ensures forall x :: multiset(KeepWithText(data))[x] == if HasText(x) then multiset(data)[x] else 0
  {
    if data != [] {
      KeepMultiset(data[1..]);
      assert data == [data[0]] + data[1..];
    }
  }

  lemma {:induction false} KeepConcat(a: seq<PageRecord>, b: seq<PageRecord>)
    ensures KeepWithText(a + b) == KeepWithText(a) + KeepWithText(b)
  {
    if a == [] {
      assert a + b == b;
    } else {
      var head := if HasText(a[0]) then [a[0]] else [];
      assert (a + b)[0] == a[0] && (a + b)[1..] == a[1..] + b;
      assert KeepWithText(a + b) == head + KeepWithText(a[1..] + b);
      KeepConcat(a[1..], b);
      assert KeepWithText(a) == head + KeepWithText(a[1..]);
    }
  }

  /** Filtering by text and selecting one page commute. */
  lemma {:induction false} KeepOnPage(s: seq<PageRecord>, k: nat)
    ensures OnPage(KeepWithText(s), k) == KeepWithText(OnPage(s, k))
  {
    if s != [] {
      KeepOnPage(s[1..], k);
      var head := if HasText(s[0]) then [s[0]] else [];
      OnPageConcat(head, KeepWithText(s[1..]), k);
      var onHead := if s[0].pageNo == k then [s[0]] else [];
      KeepConcat(onHead, OnPage(s[1..], k));
    }
  }

  lemma OnPageUnfold(s: seq<PageRecord>, k: nat)
    requires s != []
    ensures OnPage(s, k) == (if s[0].pageNo == k then [s[0]] else []) + OnPage(s[1..], k)
  {
  }

  lemma HeadOnItsPage(s: seq<PageRecord>)
    requires s != []
    ensures OnPage(s, s[0].pageNo) != []
  {
    OnPageUnfold(s, s[0].pageNo);
  }

  lemma SortedHeadIsLeast(s: seq<PageRecord>, x: PageRecord)
    requires SortedByPage(s) && x in s
    ensures s[0].pageNo <= x.pageNo
  {
    var j :| 0 <= j < |s| && s[j] == x;
  }

  /** Inserts `x` in front of the first record whose page is not smaller, so
      `x` precedes the records of its own page already in `t`. */
  function InsertByPage(x: PageRecord, t: seq<PageRecord>): (r: seq<PageRecord>)
    requires SortedByPage(t)
    ensures |r| == |t| + 1
    ensures SortedByPage(r)
    ensures r[0] == x || (t != [] && r[0] == t[0])
  {
    if t == [] || x.pageNo <= t[0].pageNo then
      [x] + t
    else
      SortedTail(t);
      var rest := InsertByPage(x, t[1..]);
      assert t == [t[0]] + t[1..];
      assert rest[0] == x || rest[0] == t[1];
      ConsSorted(t[0], rest);
      [t[0]] + rest
  }

  /** Insertion adds exactly the one record. */
  lemma {:induction false} InsertMultiset(x: PageRecord, t: seq<PageRecord>)
    requires SortedByPage(t)
    ensures multiset(InsertByPage(x, t)) == multiset(t) + multiset{x}
  {
    if t != [] && x.pageNo > t[0].pageNo {
      SortedTail(t);
      InsertMultiset(x, t[1..]);
      assert t == [t[0]] + t[1..];
      assert InsertByPage(x, t) == [t[0]] + InsertByPage(x, t[1..]);
    }
  }

  lemma SortedTail(t: seq<PageRecord>)
    requires SortedByPage(t) && t != []
    ensures SortedByPage(t[1..])
    ensures |t| > 1 ==> t[0].pageNo <= t[1].pageNo
  {
    forall i, j | 0 <= i < j < |t| - 1
      ensures t[1..][i].pageNo <= t[1..][j].pageNo
    {
      assert t[1..][i] == t[i + 1] && t[1..][j] == t[j + 1];
    }
  }

  lemma ConsSorted(h: PageRecord, s: seq<PageRecord>)
    requires SortedByPage(s) && (s == [] || h.pageNo <= s[0].pageNo)
    ensures SortedByPage([h] + s)
  {
    var r := [h] + s;
    forall i, j | 0 <= i < j < |r|
      ensures r[i].pageNo <= r[j].pageNo
    {
      if i == 0 {
        assert r[j] == s[j - 1];
      } else {
        assert r[i] == s[i - 1] && r[j] == s[j - 1];
      }
    }
  }

  lemma {:induction false} InsertOnPage(x: PageRecord, t: seq<PageRecord>, k: nat)
    requires SortedByPage(t)
    ensures OnPage(InsertByPage(x, t), k) == if k == x.pageNo then [x] + OnPage(t, k) else OnPage(t, k)
  {
    var r := InsertByPage(x, t);
    if t == [] || x.pageNo <= t[0].pageNo {
      assert r == [x] + t;
      OnPageUnfold(r, k);
      assert r[1..] == t;
    } else {
      var rest := InsertByPage(x, t[1..]);
      assert r == [t[0]] + rest;
      OnPageUnfold(r, k);
      assert r[1..] == rest;
      OnPageUnfold(t, k);
      InsertOnPage(x, t[1..], k);
    }
  }

  /** Python's `sorted(..., key=page_no)`: a stable sort by page number. */
  function SortByPage(s: seq<PageRecord>): (r: seq<PageRecord>)
    ensures SortedByPage(r)
    ensures multiset(r) == multiset(s)
    ensures forall k :: OnPage(r, k) == OnPage(s, k)
  {
    if s == [] then []
    else
      var sortedTail := SortByPage(s[1..]);
      assert s == [s[0]] + s[1..];
      InsertMultiset(s[0], sortedTail);
      assert forall k :: OnPage(InsertByPage(s[0], sortedTail), k) == OnPage(s, k) by {
        forall k
          ensures OnPage(InsertByPage(s[0], sortedTail), k) == OnPage(s, k)
        {
          InsertOnPage(s[0], sortedTail, k);
          OnPageUnfold(s, k);
        }
      }
      InsertByPage(s[0], sortedTail)
  }

  /** Two non-empty sorted sequences with the same per-page subsequences start
      with the same record, and their tails again agree page by page. */
  lemma SortedHeadsAgree(a: seq<PageRecord>, b: seq<PageRecord>)
    requires a != [] && b != []
    requires SortedByPage(a) && SortedByPage(b)
    requires forall k :: OnPage(a, k) == OnPage(b, k)
    ensures a[0] == b[0]
    ensures forall k :: OnPage(a[1..], k) == OnPage(b[1..], k)
  {
    var ka, kb := a[0].pageNo, b[0].pageNo;
    OnPageUnfold(a, ka);
    OnPageUnfold(b, kb);
    assert OnPage(a, ka)[0] == a[0] && OnPage(b, kb)[0] == b[0];
    assert a[0] in OnPage(b, ka);
    SortedHeadIsLeast(b, a[0]);
    assert b[0] in OnPage(a, kb);
    SortedHeadIsLeast(a, b[0]);
    assert ka == kb;
    SameHeadTailsAgree(a, b);
  }

  lemma SameHeadTailsAgree(a: seq<PageRecord>, b: seq<PageRecord>)
    requires a != [] && b != [] && a[0] == b[0]
    requires forall k :: OnPage(a, k) == OnPage(b, k)
    ensures forall k :: OnPage(a[1..], k) == OnPage(b[1..], k)
  {
    forall k
      ensures OnPage(a[1..], k) == OnPage(b[1..], k)
    {
      OnPageUnfold(a, k);
      OnPageUnfold(b, k);
      var h := if a[0].pageNo == k then [a[0]] else [];
      assert OnPage(a[1..], k) == OnPage(a, k)[|h|..];
      assert OnPage(b[1..], k) == OnPage(b, k)[|h|..];
    }
  }

  /** A sorted sequence is determined by its per-page subsequences, so the
      contract of SortByPage pins down the result of a stable sort. */
  lemma {:induction false} StableSortUnique(a: seq<PageRecord>, b: seq<PageRecord>)
    requires SortedByPage(a) && SortedByPage(b)
    requires forall k :: OnPage(a, k) == OnPage(b, k)
    ensures a == b
    decreases |a|
  {
    if a == [] && b != [] {
      HeadOnItsPage(b);
      assert false;
    } else if a != [] && b == [] {
      HeadOnItsPage(a);
      assert false;
    } else if a != [] {
      SortedHeadsAgree(a, b);
      StableSortUnique(a[1..], b[1..]);
      assert a == [a[0]] + a[1..];
      assert b == [b[0]] + b[1..];
    }
  }

  /** `__filter_and_sort_data`. */
  function FilterAndSort(data: seq<PageRecord>): (r: seq<PageRecord>)
    ensures SortedByPage(r)
    ensures forall x :: x in r <==> x in data && HasText(x)
    ensures forall x :: multiset(r)[x] == if HasText(x) then multiset(data)[x] else 0
    ensures forall k :: OnPage(r, k) == KeepWithText(OnPage(data, k))
  {
    var kept := KeepWithText(data);
    KeepMultiset(data);
    var r := SortByPage(kept);
    assert forall x :: x in r <==> x in multiset(kept);
    assert forall k :: OnPage(r, k) == KeepWithText(OnPage(data, k)) by {
      forall k
        ensures OnPage(r, k) == KeepWithText(OnPage(data, k))
      {
        KeepOnPage(data, k);
      }
    }
    r
  }

  /** Stability at the merge: among records of one page, those of the first
      operand come first (the OCR records, concatenated in front). */
  lemma MergeKeepsOperandOrder(first: seq<PageRecord>, second: seq<PageRecord>, k: nat)
    ensures OnPage(FilterAndSort(first + second), k)
         == KeepWithText(OnPage(first, k)) + KeepWithText(OnPage(second, k))
  {
    OnPageConcat(first, second, k);
    KeepConcat(OnPage(first, k), OnPage(second, k));
  }

  lemma {:induction false} NoneOnPage(s: seq<PageRecord>, k: nat)
    requires forall i :: 0 <= i < |s| ==> s[i].pageNo != k
    ensures OnPage(s, k) == []
  {
    if s != [] {
      NoneOnPage(s[1..], k);
    }
  }

  /** Uniqueness of page numbers, stated through the per-page subsequences. */
  lemma {:induction false} UniqueOnPageAtMostOne(s: seq<PageRecord>, k: nat)
    requires UniquePages(s)
    ensures |OnPage(s, k)| <= 1
  {
    if s != [] {
      UniqueOnPageAtMostOne(s[1..], k);
      if s[0].pageNo == k {
        NoneOnPage(s[1..], k);
      }
    }
  }

  lemma {:induction false} AtMostOneOnPageUnique(s: seq<PageRecord>)
    requires forall k :: |OnPage(s, k)| <= 1
    ensures UniquePages(s)
  {
    if s != [] {
      forall k
        ensures |OnPage(s[1..], k)| <= 1
      {
        assert |OnPage(s, k)| <= 1;
      }
      AtMostOneOnPageUnique(s[1..]);
      assert |OnPage(s, s[0].pageNo)| == 1 + |OnPage(s[1..], s[0].pageNo)|;
      forall j | 1 <= j < |s|
        ensures s[0].pageNo != s[j].pageNo
      {
        assert s[j] in s[1..];
      }
    }
  }

  /** Merging two operands that each hold a page at most once, and never both
      with text for the same page, yields strictly ascending page numbers. */
  lemma MergeOfDisjointIsStrict(a: seq<PageRecord>, b: seq<PageRecord>)
    requires UniquePages(a) && UniquePages(b)
    requires forall x, y :: x in a && y in b && HasText(x) && HasText(y) ==> x.pageNo != y.pageNo
    ensures StrictlyAscending(FilterAndSort(a + b))
  {
    var out := FilterAndSort(a + b);
    forall k: nat
      ensures |OnPage(out, k)| <= 1
    {
      MergeKeepsOperandOrder(a, b, k);
      UniqueOnPageAtMostOne(a, k);
      UniqueOnPageAtMostOne(b, k);
      var fromA, fromB := KeepWithText(OnPage(a, k)), KeepWithText(OnPage(b, k));
      if fromA != [] && fromB != [] {
        HeadIsMember(fromA);
        HeadIsMember(fromB);
        assert false;
      }
    }
    AtMostOneOnPageUnique(out);
  }
}
