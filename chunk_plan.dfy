/** Planning of a chunked download: the file `[0, totalSize)` is cut into
    4 MiB spans, and every span is asked for with an inclusive HTTP byte
    range (section 14.1.2 of RFC 9110, `Range: bytes=first-last`). */
module ChunkPlan {
  import opened Wrappers
  import opened Text

  /** Size of one span, `4 * 1024 * 1024` bytes. */
  const ChunkSize: nat := 4 * 1024 * 1024

  /** The half-open byte span `[start, end)` that one chunk worker owns. */
  datatype Span = Span(start: nat, end: nat)
  {
    function Length(): nat
      requires start <= end
    {
      end - start
    }

    predicate Holds(b: int) {
      start <= b < end
    }
  }

  function Min(a: int, b: int): int {
    if a <= b then a else b
  }

  /** How many starts `range(0, totalSize, ChunkSize)` produces. */
  function SpanCount(totalSize: nat): nat {
    (totalSize + ChunkSize - 1) / ChunkSize
  }

  /** The spans that the chunked download submits, one per start in
      `range(0, totalSize, ChunkSize)`, each ending at
      `min(start + ChunkSize, totalSize)`. */
  function Plan(totalSize: nat): (spans: seq<Span>)
    ensures |spans| == SpanCount(totalSize)
  {
    seq(SpanCount(totalSize), i requires 0 <= i < SpanCount(totalSize) =>
      Span(i * ChunkSize, Min(i * ChunkSize + ChunkSize, totalSize)))
  }

  /** Every planned span is non-empty, lies inside the file and is at most
      one chunk long; its start is the `i`-th multiple of the chunk size. */
  lemma PlanSpansWellFormed(totalSize: nat, i: nat)
    requires i < |Plan(totalSize)|
    ensures Plan(totalSize)[i].start == i * ChunkSize
    ensures 0 <= Plan(totalSize)[i].start < Plan(totalSize)[i].end <= totalSize
    ensures Plan(totalSize)[i].end - Plan(totalSize)[i].start <= ChunkSize
  {
    assert i * ChunkSize < totalSize by {
      assert i < (totalSize + ChunkSize - 1) / ChunkSize;
      assert (i + 1) * ChunkSize <= ((totalSize + ChunkSize - 1) / ChunkSize) * ChunkSize;
    }
  }

  /** Byte `j` of span `i` is the byte of the file that span `i` owns. */
  lemma OffsetInSpan(totalSize: nat, i: nat, j: nat)
    requires i < |Plan(totalSize)|
    requires j < Plan(totalSize)[i].end - Plan(totalSize)[i].start
    ensures Plan(totalSize)[i].start + j < totalSize
    ensures (Plan(totalSize)[i].start + j) / ChunkSize == i
  {
    PlanSpansWellFormed(totalSize, i);
    var b := Plan(totalSize)[i].start + j;
    assert i * ChunkSize <= b < i * ChunkSize + ChunkSize;
  }

  /** An empty file yields no span at all. */
  lemma EmptyFileHasNoSpans()
    ensures Plan(0) == []
  {
  }

  /** Every span but the last is exactly one chunk long; the last one is
      `totalSize mod ChunkSize` long, or a whole chunk when that is 0. */
  lemma SpanLengths(totalSize: nat, i: nat)
    requires i < |Plan(totalSize)|
    ensures i < |Plan(totalSize)| - 1 ==> Plan(totalSize)[i].end - Plan(totalSize)[i].start == ChunkSize
    ensures i == |Plan(totalSize)| - 1 ==>
      Plan(totalSize)[i].end - Plan(totalSize)[i].start
        == if totalSize % ChunkSize == 0 then ChunkSize else totalSize % ChunkSize
  {
    var n := SpanCount(totalSize);
    var q, r := totalSize / ChunkSize, totalSize % ChunkSize;
    assert totalSize == q * ChunkSize + r;
    if r == 0 {
      assert n == q by {
        assert totalSize + ChunkSize - 1 == q * ChunkSize + (ChunkSize - 1);
      }
    } else {
      assert n == q + 1 by {
        assert totalSize + ChunkSize - 1 == (q + 1) * ChunkSize + (r - 1);
      }
    }
  }

  /** The starts cover the file: `SpanCount` chunks reach `totalSize`, one
      fewer do not. */
  lemma SpanCountBounds(totalSize: nat)
    ensures SpanCount(totalSize) * ChunkSize >= totalSize
    ensures SpanCount(totalSize) > 0 ==> (SpanCount(totalSize) - 1) * ChunkSize < totalSize
    ensures SpanCount(totalSize) == 0 <==> totalSize == 0
  {
    var q, r := totalSize / ChunkSize, totalSize % ChunkSize;
    assert totalSize == q * ChunkSize + r;
    if r == 0 {
      assert SpanCount(totalSize) == q by {
        assert totalSize + ChunkSize - 1 == q * ChunkSize + (ChunkSize - 1);
      }
    } else {
      assert SpanCount(totalSize) == q + 1 by {
        assert totalSize + ChunkSize - 1 == (q + 1) * ChunkSize + (r - 1);
      }
    }
  }

  /** Neighbouring spans touch: the first starts at 0, each ends where the
      next starts, and the last ends at `totalSize`. */
  lemma SpansAreContiguous(totalSize: nat)
    ensures |Plan(totalSize)| > 0 ==> Plan(totalSize)[0].start == 0
    ensures forall i :: 0 <= i < |Plan(totalSize)| - 1 ==> Plan(totalSize)[i].end == Plan(totalSize)[i + 1].start
    ensures |Plan(totalSize)| > 0 ==> Plan(totalSize)[|Plan(totalSize)| - 1].end == totalSize
    ensures |Plan(totalSize)| == 0 <==> totalSize == 0
  {
    var spans := Plan(totalSize);
    forall i | 0 <= i < |spans| - 1
      ensures spans[i].end == spans[i + 1].start
    {
      SpanLengths(totalSize, i);
    }
    SpanCountBounds(totalSize);
    if |spans| > 0 {
      var last := |spans| - 1;
      assert last * ChunkSize + ChunkSize == SpanCount(totalSize) * ChunkSize;
    }
  }

  /** The chunk that starts at `i * ChunkSize` is the only one holding `b`. */
  lemma ChunkIndex(i: nat, b: int)
    requires i * ChunkSize <= b < i * ChunkSize + ChunkSize
    ensures i == b / ChunkSize
  {
  }

  /** Exact cover: byte `b` of the file lies in a span iff `0 <= b < totalSize`,
      and then it lies in exactly one span, the one at index `b / ChunkSize`. */
  lemma ExactCover(totalSize: nat, b: int)
    ensures (exists i :: 0 <= i < |Plan(totalSize)| && Plan(totalSize)[i].Holds(b)) <==> 0 <= b < totalSize
    ensures 0 <= b < totalSize ==>
      b / ChunkSize < |Plan(totalSize)| && Plan(totalSize)[b / ChunkSize].Holds(b) &&
      forall i :: 0 <= i < |Plan(totalSize)| && Plan(totalSize)[i].Holds(b) ==> i == b / ChunkSize
  {
    var spans := Plan(totalSize);
    if 0 <= b < totalSize {
      var k := b / ChunkSize;
      assert k * ChunkSize <= b < k * ChunkSize + ChunkSize;
      assert k < |spans| by {
        SpanCountBounds(totalSize);
        assert k * ChunkSize < SpanCount(totalSize) * ChunkSize;
      }
      PlanSpansWellFormed(totalSize, k);
      assert spans[k].Holds(b);
      forall i | 0 <= i < |spans| && spans[i].Holds(b)
        ensures i == k
      {
        PlanSpansWellFormed(totalSize, i);
        ChunkIndex(i, b);
      }
    } else {
      forall i | 0 <= i < |spans|
        ensures !spans[i].Holds(b)
      {
        PlanSpansWellFormed(totalSize, i);
      }
    }
  }

  /** No two distinct spans share a byte. */
  lemma SpansDisjoint(totalSize: nat, i: nat, j: nat)
    requires i < j < |Plan(totalSize)|
    ensures Plan(totalSize)[i].end <= Plan(totalSize)[j].start
  {
    PlanSpansWellFormed(totalSize, i);
    PlanSpansWellFormed(totalSize, j);
    assert (i + 1) * ChunkSize <= j * ChunkSize;
  }

  /** Sum of the lengths of a sequence of well-formed spans. */
  function TotalLength(spans: seq<Span>): nat
    requires forall i :: 0 <= i < |spans| ==> spans[i].start <= spans[i].end
  {
    if spans == [] then 0 else spans[0].Length() + TotalLength(spans[1..])
  }

  /** Contiguous spans from `from` to `to` have lengths summing to `to - from`. */
  lemma {:induction false} ContiguousTotalLength(spans: seq<Span>, from: nat, to: nat)
    requires forall i :: 0 <= i < |spans| ==> spans[i].start <= spans[i].end
    requires |spans| > 0 ==> spans[0].start == from && spans[|spans| - 1].end == to
    requires |spans| == 0 ==> from == to
    requires forall i :: 0 <= i < |spans| - 1 ==> spans[i].end == spans[i + 1].start
    ensures TotalLength(spans) == to - from
  {
    if |spans| > 0 {
      ContiguousTotalLength(spans[1..], spans[0].end, to);
    }
  }

  /** The spans together are exactly as long as the file. */
  lemma PlanLengthsSumToSize(totalSize: nat)
    ensures forall i :: 0 <= i < |Plan(totalSize)| ==> Plan(totalSize)[i].start <= Plan(totalSize)[i].end
    ensures TotalLength(Plan(totalSize)) == totalSize
  {
    var spans := Plan(totalSize);
    forall i | 0 <= i < |spans|
      ensures spans[i].start <= spans[i].end
    {
      PlanSpansWellFormed(totalSize, i);
    }
    SpansAreContiguous(totalSize);
    ContiguousTotalLength(spans, 0, totalSize);
  }

  // ---- The Range request header ----

  function DigitChar(d: nat): char
    requires d < 10
  {
    "0123456789"[d]
  }

  predicate IsDigit(c: char) {
    '0' <= c <= '9'
  }

  /** Python's `str(n)` for a non-negative integer: decimal digits,
      no leading zero. */
  function Decimal(n: nat): (s: string)
    ensures |s| > 0 && forall i :: 0 <= i < |s| ==> IsDigit(s[i])
  {
    if n < 10 then [DigitChar(n)] else Decimal(n / 10) + [DigitChar(n % 10)]
  }

  /** Like `str(n)`, the text starts with `0` only for the number 0 itself. */
  lemma {:induction false} DecimalNoLeadingZero(n: nat)
    ensures Decimal(n)[0] == '0' <==> n == 0
  {
    if n >= 10 {
      DecimalNoLeadingZero(n / 10);
      assert Decimal(n)[0] == Decimal(n / 10)[0];
    }
  }

  function DigitValue(c: char): nat
    requires IsDigit(c)
  {
    (c as int) - ('0' as int)
  }

  function ParseDecimal(s: string): nat
    requires forall i :: 0 <= i < |s| ==> IsDigit(s[i])
  {
    if s == [] then 0
    else ParseDecimal(s[..|s| - 1]) * 10 + DigitValue(s[|s| - 1])
  }

  lemma {:induction false} DecimalRoundTrip(n: nat)
    ensures ParseDecimal(Decimal(n)) == n
  {
    var s := Decimal(n);
    if n >= 10 {
      DecimalRoundTrip(n / 10);
      assert s[..|s| - 1] == Decimal(n / 10);
    }
  }

  /** The header value `bytes={start}-{end-1}` sent for a span: read back
      as a server reads an inclusive byte range, it names first byte `start`
      and last byte `end - 1`, so exactly the span's bytes. */
  function RangeHeader(s: Span): (h: string)
    requires s.start < s.end
    ensures ParseRangeHeader(h) == Some(ByteRange(s.start, s.end - 1))
  {
    ParseJoinedRange(Decimal(s.start), Decimal(s.end - 1));
    DecimalRoundTrip(s.start);
    DecimalRoundTrip(s.end - 1);
    "bytes=" + Decimal(s.start) + "-" + Decimal(s.end - 1)
  }

  /** The inclusive byte range a header value names. */
  datatype ByteRange = ByteRange(first: nat, last: nat)

  predicate AllDigits(s: string) {
    |s| > 0 && forall i :: 0 <= i < |s| ==> IsDigit(s[i])
  }

  /** Reads a `bytes=first-last` header value as the server would. */
  function ParseRangeHeader(h: string): Option<ByteRange> {
    if |h| < 6 || h[..6] != "bytes=" then None
    else
      var rest := h[6..];
      match IndexOf(rest, '-')
      case None => None
      case Some(k) =>
        if AllDigits(rest[..k]) && AllDigits(rest[k + 1..])
        then Some(ByteRange(ParseDecimal(rest[..k]), ParseDecimal(rest[k + 1..])))
        else None
  }

  /** A header built from two digit strings parses back to their values. */
  lemma ParseJoinedRange(a: string, b: string)
    requires AllDigits(a) && AllDigits(b)
    ensures ParseRangeHeader("bytes=" + a + "-" + b) == Some(ByteRange(ParseDecimal(a), ParseDecimal(b)))
  {
    var h := "bytes=" + a + "-" + b;
    var rest := a + "-" + b;
    assert h[..6] == "bytes=";
    assert h[6..] == rest;
    assert '-' !in a by {
      forall i | 0 <= i < |a| ensures a[i] != '-' { assert IsDigit(a[i]); }
    }
    IndexOfFirst(a, '-', b);
    assert rest[..|a|] == a;
    assert rest[|a| + 1..] == b;
  }

  /** Every span of a plan has a header that names it exactly. */
  lemma PlanHeadersNameSpans(totalSize: nat, i: nat)
    requires i < |Plan(totalSize)|
    ensures Plan(totalSize)[i].start < Plan(totalSize)[i].end
    ensures ParseRangeHeader(RangeHeader(Plan(totalSize)[i]))
      == Some(ByteRange(i * ChunkSize, Plan(totalSize)[i].end - 1))
  {
    PlanSpansWellFormed(totalSize, i);
  }
}
