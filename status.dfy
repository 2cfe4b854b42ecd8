/** The HTTP reason-phrase table of packages/medkit/src/utils.js. Most of the
    phrases are those of section 6 of RFC 7231; 422, 423, 424 and 507 come
    from RFC 4918, 508 from RFC 5842, 451 from RFC 7725, 418 from RFC 2324,
    and 509 is a common non-standard code. */
module Status {
  const StatusMap: map<int, string> := map[
    400 := "Bad Request",
    401 := "Unauthorized",
    402 := "Payment Required",
    403 := "Forbidden",
    404 := "Not Found",
    405 := "Method Not Allowed",
    406 := "Not Acceptable",
    407 := "Proxy Authentication Required",
    408 := "Request Timeout",
    409 := "Conflict",
    410 := "Gone",
    411 := "Length Required",
    412 := "Precondition Failed",
    413 := "Payload Too Large",
    414 := "URI Too Long",
    415 := "Unsupported Media Type",
    416 := "Range Not Satisfiable",
    417 := "Expectation Failed",
    418 := "I'm a teapot",
    421 := "Misdirected Request",
    422 := "Unprocessable Entity",
    423 := "Locked",
    424 := "Failed Dependency",
    426 := "Upgrade Required",
    451 := "Unavailable For Legal Reasons",
    500 := "Internal Server Error",
    501 := "Not Implemented",
    502 := "Bad Gateway",
    503 := "Service Unavailable",
    504 := "Gateway Timeout",
    505 := "HTTP Version Not Supported",
    506 := "Variant Also Negotiates",
    507 := "Insufficient Storage",
    508 := "Loop Detected",
    509 := "Bandwidth Limit Exceeded",
    510 := "Not Extended"
  ]

  const UnknownText: string := "Unknown"

  /** The codes the table lists. */
  predicate Listed(status: int)
  {
    (400 <= status <= 418) || (421 <= status <= 424) || status == 426 || status == 451
    || (500 <= status <= 510)
  }

  /** `statusText(status)`: the table's phrase, or "Unknown" for a code it
      does not list (every listed phrase is non-empty, so `||` only falls
      back off the table). */
  function StatusText(status: int): (r: string)
    ensures r != ""
    ensures status in StatusMap ==> r == StatusMap[status]
    ensures status !in StatusMap ==> r == UnknownText
  {
    if status in StatusMap && StatusMap[status] != "" then StatusMap[status] else UnknownText
  }

  /** The table lists exactly the codes 400-418, 421-424, 426, 451 and
      500-510. */
  lemma Domain(status: int)
    ensures status in StatusMap <==> Listed(status)
  {
    if Listed(status) {
      ListedInTable(status);
    } else {
      UnlistedNotInTable(status);
    }
  }

  lemma ListedInTable(status: int)
    requires Listed(status)
    ensures status in StatusMap
  {
    if 400 <= status <= 418 {
      assert status in StatusMap;
    }
  }

  lemma UnlistedNotInTable(status: int)
    requires !Listed(status)
    ensures status !in StatusMap
  {
  }

  function Range(lo: int, hi: int): set<int>
    decreases hi - lo
  {
    if lo >= hi then {} else Range(lo, hi - 1) + {hi - 1}
  }

  lemma {:induction false} RangeContents(lo: int, hi: int, x: int)
    ensures x in Range(lo, hi) <==> lo <= x < hi
    decreases hi - lo
  {
    if lo < hi {
      RangeContents(lo, hi - 1, x);
    }
  }

  lemma {:induction false} RangeSize(lo: int, hi: int)
    requires lo <= hi
    ensures |Range(lo, hi)| == hi - lo
    decreases hi - lo
  {
    if lo < hi {
      RangeSize(lo, hi - 1);
      RangeContents(lo, hi - 1, hi - 1);
    }
  }

  /** The listed codes as ranges. */
  function ListedCodes(): set<int>
  {
    Range(400, 419) + Range(421, 425) + {426, 451} + Range(500, 511)
  }

  lemma KeysAreListed()
    ensures StatusMap.Keys == ListedCodes()
  {
    forall x
      ensures x in StatusMap.Keys <==> x in ListedCodes()
    {
      KeyListed(x);
    }
  }

  lemma KeyListed(x: int)
    ensures x in StatusMap.Keys <==> x in ListedCodes()
  {
    Domain(x);
    OrderedRangesContents(400, 419, 421, 425, 426, 451, 500, 511, x);
  }

  lemma OrderedRangesContents(lo1: int, hi1: int, lo2: int, hi2: int, x: int, y: int, lo3: int, hi3: int, z: int)
    ensures z in Range(lo1, hi1) + Range(lo2, hi2) + {x, y} + Range(lo3, hi3)
      <==> (lo1 <= z < hi1) || (lo2 <= z < hi2) || z == x || z == y || (lo3 <= z < hi3)
  {
    RangeContents(lo1, hi1, z);
    RangeContents(lo2, hi2, z);
    RangeContents(lo3, hi3, z);
  }

  lemma DisjointSize(a: set<int>, b: set<int>)
    requires forall x :: x in a ==> x !in b
    ensures |a + b| == |a| + |b|
  {
    assert forall x :: x !in a * b;
    assert a * b == {};
  }

  /** Codes below `hi` and codes from `hi` on do not overlap. */
  lemma SplitSize(a: set<int>, b: set<int>, hi: int)
    requires forall x :: x in a ==> x < hi
    requires forall x :: x in b ==> x >= hi
    ensures |a + b| == |a| + |b|
  {
    DisjointSize(a, b);
  }

  lemma RangeBounds(lo: int, hi: int)
    ensures forall x :: x in Range(lo, hi) ==> lo <= x < hi
  {
    forall x | x in Range(lo, hi)
      ensures lo <= x < hi
    {
      RangeContents(lo, hi, x);
    }
  }

  lemma TwoRangesSize(lo1: int, hi1: int, lo2: int, hi2: int)
    requires lo1 <= hi1 <= lo2 <= hi2
    ensures |Range(lo1, hi1) + Range(lo2, hi2)| == (hi1 - lo1) + (hi2 - lo2)
    ensures forall z :: z in Range(lo1, hi1) + Range(lo2, hi2) ==> z < hi2
  {
    RangeSize(lo1, hi1);
    RangeSize(lo2, hi2);
    RangeBounds(lo1, hi1);
    RangeBounds(lo2, hi2);
    SplitSize(Range(lo1, hi1), Range(lo2, hi2), lo2);
  }

  lemma AddPairSize(a: set<int>, x: int, y: int)
    requires x < y && forall z :: z in a ==> z < x
    ensures |a + {x, y}| == |a| + 2
    ensures forall z :: z in a + {x, y} ==> z <= y
  {
    SplitSize(a, {x, y}, x);
  }

  lemma AddRangeSize(a: set<int>, lo: int, hi: int)
    requires lo <= hi && forall z :: z in a ==> z < lo
    ensures |a + Range(lo, hi)| == |a| + (hi - lo)
  {
    RangeSize(lo, hi);
    RangeBounds(lo, hi);
    SplitSize(a, Range(lo, hi), lo);
  }

  /** The size of three ordered ranges with two codes between the second
      and the third. */
  lemma OrderedRangesSize(lo1: int, hi1: int, lo2: int, hi2: int, x: int, y: int, lo3: int, hi3: int)
    requires lo1 <= hi1 <= lo2 <= hi2 <= x < y < lo3 <= hi3
    ensures |Range(lo1, hi1) + Range(lo2, hi2) + {x, y} + Range(lo3, hi3)|
      == (hi1 - lo1) + (hi2 - lo2) + 2 + (hi3 - lo3)
  {
    var ab := Range(lo1, hi1) + Range(lo2, hi2);
    TwoRangesSize(lo1, hi1, lo2, hi2);
    AddPairSize(ab, x, y);
    AddRangeSize(ab + {x, y}, lo3, hi3);
  }

  lemma ListedCount()
    ensures |ListedCodes()| == 36
  {
    OrderedRangesSize(400, 419, 421, 425, 426, 451, 500, 511);
  }

  /** The table has 36 entries. */
  lemma DomainSize()
    ensures |StatusMap| == 36
  {
    KeysAreListed();
    ListedCount();
    assert |StatusMap| == |StatusMap.Keys|;
  }

  /** Every code off the table, every code below 400 among them, reads
      "Unknown". */
  lemma OffTable(status: int)
    requires !Listed(status)
    ensures StatusText(status) == UnknownText
  {
    Domain(status);
  }

  /** No listed code reads "Unknown". */
  lemma ListedIsKnown(status: int)
    requires Listed(status)
    ensures StatusText(status) != UnknownText
  {
    Domain(status);
  }

  /** The test "destroy" reads 410 as "Gone". */
  lemma GoneIs410()
    ensures StatusText(410) == "Gone"
  {
  }

  /** The gaps 419, 420 and 425 read "Unknown". */
  lemma Gaps()
    ensures StatusText(419) == UnknownText && StatusText(420) == UnknownText && StatusText(425) == UnknownText
  {
    OffTable(419);
    OffTable(420);
    OffTable(425);
  }
}
