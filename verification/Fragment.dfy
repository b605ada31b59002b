/** User-space fragmentation: the split of a frame into chunks, the chunk headers
    written in place, and the arrival tracker (vsomeip/bench/fragment.h). */
module Fragment {
  import opened Bytes

  const E2E_HEADER_BYTES := 12
  const HEADER_BYTES := 8
  const SEND_NS_OFFSET := 8
  const MIN_FRAME_BYTES := 16

  datatype ChunkHeader = ChunkHeader(seqNo: U32, index: U16, count: U16)

  /** The packed struct: seq (4 bytes), index (2), count (2). */
  function HeaderBytes(h: ChunkHeader): (b: seq<Byte>)
    ensures |b| == HEADER_BYTES
  {
    LeBytes(h.seqNo, 4) + LeBytes(h.index, 2) + LeBytes(h.count, 2)
  }

  /** The header of a chunk that starts at offset off. */
  function HeaderOf(b: seq<Byte>, off: nat): ChunkHeader
    requires |b| >= off + HEADER_BYTES
  {
    ChunkHeader(Load32(b, off), Load16(b, off + 4), Load16(b, off + 6))
  }

  /** The stamp of a chunk that starts at offset off, when it is long enough to hold one. */
  function StampIn(b: seq<Byte>, off: nat): Option<U64>
    requires |b| >= off
  {
    if |b| < off + MIN_FRAME_BYTES then None else Some(Load64(b, off + SEND_NS_OFFSET))
  }

  /** The packed layout: seq in bytes 0..4, index in 4..6, count in 6..8. */
  lemma HeaderLayout(h: ChunkHeader)
    ensures HeaderBytes(h)[0..4] == LeBytes(h.seqNo, 4)
    ensures HeaderBytes(h)[4..6] == LeBytes(h.index, 2)
    ensures HeaderBytes(h)[6..8] == LeBytes(h.count, 2)
  {
  }

  lemma HeaderRoundTrip(h: ChunkHeader, b: seq<Byte>, off: nat)
    requires |b| >= off + HEADER_BYTES && b[off..off + HEADER_BYTES] == HeaderBytes(h)
    ensures HeaderOf(b, off) == h
  {
    Widths();
    var p := b[off..off + HEADER_BYTES];
    assert b[off..off + 4] == p[0..4] == LeBytes(h.seqNo, 4);
    assert b[off + 4..off + 6] == p[4..6] == LeBytes(h.index, 2);
    assert b[off + 6..off + 8] == p[6..8] == LeBytes(h.count, 2);
    ReadStored(b, off, h.seqNo, 4);
    ReadStored(b, off + 4, h.index, 2);
    ReadStored(b, off + 6, h.count, 2);
  }

  // ---------------------------------------------------------------- planning

  datatype ChunkPlan = ChunkPlan(count: nat, len: nat)

  /** Unsigned division truncates: how often d fits into a. */
  function Div(a: nat, d: nat): (q: nat)
    requires d >= 1
    ensures q * d <= a < q * d + d
    ensures q <= a
  {
    if a < d then 0 else 1 + Div(a - d, d)
  }

  lemma QuotientUnique(a: nat, d: nat, q: nat, r: nat)
    requires q * d <= a < q * d + d && r * d <= a < r * d + d
    ensures q == r
  {
    if q < r {
      MulLess(q, r, d);
    } else if r < q {
      MulLess(r, q, d);
    }
  }

  lemma DivIsQuotient(a: nat, d: nat)
    requires d >= 1
    ensures Div(a, d) == a / d
  {
    assert a == (a / d) * d + a % d;
    QuotientUnique(a, d, a / d, Div(a, d));
  }

  /** (n + d - 1) / d in 64-bit unsigned arithmetic, evaluated left to right. */
  function DivUp64(n: U64, d: U64): U64
    requires d >= 1
  {
    Div(Wrap64(Wrap64(n + d) - 1), d)
  }

  /** PlanChunks; None where the code divides by zero. */
  function PlanChunks(size: U64, maxDatagram: U64): Option<ChunkPlan> {
    var budget := Wrap64(maxDatagram - E2E_HEADER_BYTES);
    if budget == 0 then None else
    var count := DivUp64(size, budget);
    if count == 0 then None else
    Some(ChunkPlan(count, DivUp64(size, count)))
  }

  /** Where chunk i starts: i times the chunk length. */
  function Offset(plan: ChunkPlan, i: nat): nat {
    if i == 0 then 0 else Offset(plan, i - 1) + plan.len
  }

  lemma {:induction false} OffsetIsProduct(plan: ChunkPlan, i: nat)
    ensures Offset(plan, i) == i * plan.len
    decreases i
  {
    if i > 0 {
      OffsetIsProduct(plan, i - 1);
      assert i * plan.len == (i - 1) * plan.len + plan.len;
    }
  }

  /** The plan covers [0, size) with non-empty chunks, only the last of which may be short. */
  predicate Covers(plan: ChunkPlan, size: nat) {
    plan.count >= 1 && Offset(plan, plan.count - 1) < size <= Offset(plan, plan.count)
  }

  function LastChunk(plan: ChunkPlan, size: nat): (n: nat)
    requires Covers(plan, size)
    ensures n >= 1
  {
    size - Offset(plan, plan.count - 1)
  }

  function ChunkLen(plan: ChunkPlan, size: nat, i: nat): (n: nat)
    requires Covers(plan, size) && i < plan.count
  {
    OffsetInside(plan, size, i);
    if plan.len < size - Offset(plan, i) then plan.len else size - Offset(plan, i)
  }

  lemma {:induction false} OffsetMonotone(plan: ChunkPlan, i: nat, j: nat)
    requires i <= j
    ensures Offset(plan, i) <= Offset(plan, j)
    ensures i < j ==> Offset(plan, i) + plan.len <= Offset(plan, j)
    decreases j
  {
    if i < j {
      OffsetMonotone(plan, i, j - 1);
    }
  }

  lemma OffsetInside(plan: ChunkPlan, size: nat, i: nat)
    requires Covers(plan, size) && i < plan.count
    ensures Offset(plan, i) < size
    ensures i < plan.count - 1 ==> Offset(plan, i) + plan.len < size
    ensures Offset(plan, i + 1) == Offset(plan, i) + plan.len
  {
    OffsetMonotone(plan, i, plan.count - 1);
    if i < plan.count - 1 {
      OffsetMonotone(plan, i + 1, plan.count - 1);
    }
  }

  lemma MulLe(a: nat, b: nat, c: nat)
    requires a <= b
    ensures a * c <= b * c
  {
    assert b * c == a * c + (b - a) * c;
  }

  /** DivUp64 is 0 when the numerator wraps and the mathematical ceiling otherwise. */
  lemma DivUpMeaning(n: U64, d: U64)
    requires d >= 1
    ensures DivUp64(n, d) == 0 <==> n == 0 || n + d > TWO64
    ensures DivUp64(n, d) >= 1 ==> (DivUp64(n, d) - 1) * d < n <= DivUp64(n, d) * d
  {
    var a := Wrap64(Wrap64(n + d) - 1);
    var q := Div(a, d);
    if n == 0 || n + d > TWO64 {
      assert a < d;
    } else {
      assert a == n + d - 1;
      assert q != 0;
      assert (q - 1) * d == q * d - d;
    }
  }

  /** Exactly when planning divides by zero: an empty frame, no room beyond the E2E
      header, or a wrapped numerator. */
  lemma PlanTraps(size: U64, maxDatagram: U64)
    ensures PlanChunks(size, maxDatagram).None?
       <==> size == 0 || maxDatagram == E2E_HEADER_BYTES
            || size + Wrap64(maxDatagram - E2E_HEADER_BYTES) > TWO64
  {
    var budget := Wrap64(maxDatagram - E2E_HEADER_BYTES);
    if budget != 0 {
      DivUpMeaning(size, budget);
    }
  }

  /** Two ceiling divisions in a row: split into the fewest parts, then evenly. */
  lemma EvenSplit(size: nat, budget: nat, count: nat, len: nat)
    requires size >= 1 && budget >= 1 && count >= 1
    requires (count - 1) * budget < size <= count * budget
    requires len >= 1 && (len - 1) * count < size <= len * count
    ensures len <= budget
    ensures (count - 1) * len < size <= count * len
    ensures count * len <= size + count - 1
  {
    assert (len - 1) * count == len * count - count;
    if len > budget {
      MulLe(budget, len - 1, count);
      assert false;
    }
    MulLe(len, budget, count - 1);
  }

  lemma BudgetCarriesStamp(size: nat, budget: nat, count: nat, len: nat)
    requires size >= MIN_FRAME_BYTES && budget >= 31 && count >= 1
    requires (count - 1) * budget < size <= len * count
    ensures len >= MIN_FRAME_BYTES
  {
    if len < MIN_FRAME_BYTES {
      MulLe(len, 15, count);
      MulLe(31, budget, count - 1);
      assert false;
    }
  }

  /** A frame that fits in memory has no more chunks than bytes. */
  lemma CountBounded(size: nat, budget: nat, count: nat)
    requires budget >= 1 && count >= 1 && (count - 1) * budget < size
    ensures count <= size
  {
    MulLe(1, budget, count - 1);
  }

  /** The two quotients of a plan, as ceilings over the integers. */
  lemma PlanCeilings(size: U64, maxDatagram: U64, plan: ChunkPlan)
    requires MIN_FRAME_BYTES <= size < 0x8000_0000_0000_0000
    requires PlanChunks(size, maxDatagram) == Some(plan)
    ensures maxDatagram > E2E_HEADER_BYTES && plan.count >= 1 && plan.len >= 1
    ensures (plan.count - 1) * (maxDatagram - E2E_HEADER_BYTES) < size
    ensures size <= plan.count * (maxDatagram - E2E_HEADER_BYTES)
    ensures (plan.len - 1) * plan.count < size <= plan.len * plan.count
  {
    PlanTraps(size, maxDatagram);
    DivUpMeaning(size, maxDatagram - E2E_HEADER_BYTES);
    CountBounded(size, maxDatagram - E2E_HEADER_BYTES, plan.count);
    DivUpMeaning(size, plan.count);
  }

  /** The chunk plan of a block that fits in memory: it covers the frame, every chunk
      fits its datagram beside the E2E header, the last chunk is no more than
      count - 1 bytes short of the rest, and a budget of 31 bytes is enough for the
      first chunk to carry its time stamp. */
  lemma PlanShape(size: U64, maxDatagram: U64, plan: ChunkPlan)
    requires MIN_FRAME_BYTES <= size < 0x8000_0000_0000_0000
    requires PlanChunks(size, maxDatagram) == Some(plan)
    ensures maxDatagram > E2E_HEADER_BYTES && Covers(plan, size)
    ensures plan.len + E2E_HEADER_BYTES <= maxDatagram
    ensures LastChunk(plan, size) <= plan.len <= LastChunk(plan, size) + plan.count - 1
    ensures plan.count == 1 ==> plan.len == size
    ensures maxDatagram >= 31 + E2E_HEADER_BYTES ==> plan.len >= MIN_FRAME_BYTES
  {
    PlanCeilings(size, maxDatagram, plan);
    EvenSplit(size, maxDatagram - E2E_HEADER_BYTES, plan.count, plan.len);
    OffsetIsProduct(plan, plan.count);
    OffsetIsProduct(plan, plan.count - 1);
    if maxDatagram >= 31 + E2E_HEADER_BYTES {
      BudgetCarriesStamp(size, maxDatagram - E2E_HEADER_BYTES, plan.count, plan.len);
    }
  }

  lemma EqualChunks(count: nat, len: nat, size: nat, last: nat)
    requires count >= 1 && last <= len && size == (count - 1) * len + last && (count == 1 ==> last == len)
    ensures count * last >= size <==> last == len
  {
    var k, gap := count - 1, len - last;
    assert k * len == k * last + k * gap;
    assert count * last == k * last + last;
    if gap >= 1 && k >= 1 {
      MulLe(1, k, gap);
    }
  }

  lemma MulLess(a: nat, b: nat, c: nat)
    requires a < b
    ensures a * c + c <= b * c
  {
    MulLe(a + 1, b, c);
    assert (a + 1) * c == a * c + c;
  }

  /** count divides size exactly when rounding up changes nothing. */
  lemma DividesIff(count: nat, len: nat, size: nat)
    requires count >= 1 && size <= len * count < size + count
    ensures Div(size, count) * count == size <==> size == len * count
  {
    var q := Div(size, count);
    if q < len {
      MulLess(q, len, count);
    } else if len < q {
      MulLess(len, q, count);
    }
  }

  /** No chunk is smaller than the exact quotient size / count if and only if the count divides the size. */
  lemma EvenIffDivides(size: U64, maxDatagram: U64, plan: ChunkPlan)
    requires MIN_FRAME_BYTES <= size < 0x8000_0000_0000_0000
    requires PlanChunks(size, maxDatagram) == Some(plan)
    ensures plan.count >= 1 && Covers(plan, size)
    ensures plan.count * LastChunk(plan, size) >= size <==> Div(size, plan.count) * plan.count == size
  {
    PlanShape(size, maxDatagram, plan);
    PlanCeilings(size, maxDatagram, plan);
    OffsetIsProduct(plan, plan.count - 1);
    EvenSplits(plan.count, plan.len, size, LastChunk(plan, size));
  }

  lemma EvenSplits(count: nat, len: nat, size: nat, last: nat)
    requires count >= 1 && last <= len && size == (count - 1) * len + last && (count == 1 ==> last == len)
    requires (len - 1) * count < size <= len * count
    ensures count * last >= size <==> Div(size, count) * count == size
  {
    EqualChunks(count, len, size, last);
    assert (count - 1) * len == len * count - len;
    assert (len - 1) * count == len * count - count;
    DividesIff(count, len, size);
  }

  /** The remainder left by count is what the last chunk falls short by, turned round. */
  lemma LastAgainstFloor(count: nat, len: nat, size: nat, last: nat)
    requires count >= 1 && 1 <= last <= len && size == (count - 1) * len + last
    requires (len - 1) * count < size <= len * count
    ensures var r := size - Div(size, count) * count;
            0 <= r < count && (last >= Div(size, count) <==> r == 0 || r == count - 1)
  {
    assert (count - 1) * len == len * count - len;
    assert (len - 1) * count == len * count - count;
    var q := Div(size, count);
    if size == len * count {
      QuotientUnique(size, count, q, len);
    } else {
      QuotientUnique(size, count, q, len - 1);
    }
  }

  /** No chunk is smaller than the quotient as C++ computes it if and only if the size is a multiple of
      the count or one byte short of one. */
  lemma EvenIffNearMultiple(size: U64, maxDatagram: U64, plan: ChunkPlan)
    requires MIN_FRAME_BYTES <= size < 0x8000_0000_0000_0000
    requires PlanChunks(size, maxDatagram) == Some(plan)
    ensures plan.count >= 1 && Covers(plan, size)
    ensures LastChunk(plan, size) >= size / plan.count
       <==> size % plan.count == 0 || size % plan.count == plan.count - 1
  {
    PlanShape(size, maxDatagram, plan);
    PlanCeilings(size, maxDatagram, plan);
    OffsetIsProduct(plan, plan.count - 1);
    LastAgainstFloor(plan.count, plan.len, size, LastChunk(plan, size));
    DivIsQuotient(size, plan.count);
    RemainderIs(size, plan.count);
  }

  lemma RemainderIs(a: nat, d: nat)
    requires d >= 1
    ensures a % d == a - Div(a, d) * d
  {
    DivIsQuotient(a, d);
    assert a == (a / d) * d + a % d;
  }

  /** 17 bytes with room for 5 make chunks of 5, 5, 5 and 2. */
  lemma ShortLastChunk()
    ensures PlanChunks(17, 17) == Some(ChunkPlan(4, 5))
    ensures Covers(ChunkPlan(4, 5), 17) && LastChunk(ChunkPlan(4, 5), 17) == 2
  {
    OffsetIsProduct(ChunkPlan(4, 5), 3);
    OffsetIsProduct(ChunkPlan(4, 5), 4);
  }

  /** 751 bytes over datagrams of 43: 25 chunks of 31, and a last one of 7. */
  lemma ShortTailPlan()
    ensures PlanChunks(751, 43) == Some(ChunkPlan(25, 31))
    ensures Sliceable(ChunkPlan(25, 31), 751) && LastChunk(ChunkPlan(25, 31), 751) == 7
    ensures !HeadersFit(ChunkPlan(25, 31), 751)
  {
    DivIsQuotient(781, 31);
    DivIsQuotient(775, 25);
    OffsetIsProduct(ChunkPlan(25, 31), 24);
    OffsetIsProduct(ChunkPlan(25, 31), 25);
  }

  function Sum(parts: seq<nat>): nat {
    if parts == [] then 0 else parts[0] + Sum(parts[1..])
  }

  lemma {:induction false} SumBound(parts: seq<nat>, bound: nat)
    requires forall k :: 0 <= k < |parts| ==> parts[k] <= bound
    ensures Sum(parts) <= |parts| * bound
  {
    if parts != [] {
      SumBound(parts[1..], bound);
      assert |parts| * bound == bound + |parts[1..]| * bound;
    }
  }

  /** No split of the frame into datagram-sized parts has fewer parts. */
  lemma PlanFewest(size: U64, maxDatagram: U64, plan: ChunkPlan, parts: seq<nat>)
    requires MIN_FRAME_BYTES <= size < 0x8000_0000_0000_0000
    requires PlanChunks(size, maxDatagram) == Some(plan)
    requires Sum(parts) == size
    requires forall k :: 0 <= k < |parts| ==> parts[k] + E2E_HEADER_BYTES <= maxDatagram
    ensures |parts| >= plan.count
  {
    PlanCeilings(size, maxDatagram, plan);
    var budget := maxDatagram - E2E_HEADER_BYTES;
    SumBound(parts, budget);
    if |parts| < plan.count {
      MulLe(|parts|, plan.count - 1, budget);
    }
  }

  // ----------------------------------------------------------- block in place

  /** A plan of a frame that both programs accept; the service refuses frames under 16 bytes. */
  predicate Sliceable(plan: ChunkPlan, size: nat) {
    size >= MIN_FRAME_BYTES && Covers(plan, size)
  }

  /** The last chunk is long enough for its header. */
  predicate HeadersFit(plan: ChunkPlan, size: nat) {
    Sliceable(plan, size) && LastChunk(plan, size) >= HEADER_BYTES
  }

  /** Headers and stamp do not overwrite each other, and the uint16 fields hold them. */
  predicate Usable(plan: ChunkPlan, size: nat) {
    HeadersFit(plan, size) && plan.count < TWO16 && (plan.count == 1 || plan.len >= MIN_FRAME_BYTES)
  }

  /** Every header copy stays inside the block exactly when the last chunk holds its header. */
  lemma HeaderWritesInside(plan: ChunkPlan, size: nat)
    requires Sliceable(plan, size)
    ensures HeadersFit(plan, size) <==> forall i :: 0 <= i < plan.count ==> Offset(plan, i) + HEADER_BYTES <= size
  {
    if HeadersFit(plan, size) {
      forall i | 0 <= i < plan.count ensures Offset(plan, i) + HEADER_BYTES <= size {
        HeaderInside(plan, size, i);
      }
    } else {
      assert Offset(plan, plan.count - 1) + HEADER_BYTES > size;
    }
  }

  /** A plan with room for 31 bytes beside the E2E header is usable if and only if its last chunk
      holds a header and the count fits 16 bits. */
  lemma PlanUsable(size: U64, maxDatagram: U64, plan: ChunkPlan)
    requires MIN_FRAME_BYTES <= size < 0x8000_0000_0000_0000 && maxDatagram >= 31 + E2E_HEADER_BYTES
    requires PlanChunks(size, maxDatagram) == Some(plan)
    ensures Covers(plan, size)
    ensures Usable(plan, size) <==> LastChunk(plan, size) >= HEADER_BYTES && plan.count < TWO16
  {
    PlanShape(size, maxDatagram, plan);
  }

  lemma HeaderInside(plan: ChunkPlan, size: nat, i: nat)
    requires HeadersFit(plan, size) && i < plan.count
    ensures Offset(plan, i) + HEADER_BYTES <= size
  {
    OffsetMonotone(plan, i, plan.count - 1);
  }

  function WireHeader(seqNo: U32, i: nat, count: nat): ChunkHeader {
    ChunkHeader(seqNo, Wrap16(i), Wrap16(count))
  }

  /** The block after the first n header images were copied to the chunk starts. */
  function WithImages(b: seq<Byte>, images: seq<seq<Byte>>, plan: ChunkPlan, n: nat): (r: seq<Byte>)
    requires Sliceable(plan, |b|) && n <= plan.count == |images|
    requires forall i :: 0 <= i < |images| ==> |images[i]| == HEADER_BYTES
    ensures |r| == |b|
    decreases n
  {
    if n == 0 then b else
    Put(WithImages(b, images, plan, n - 1), Offset(plan, n - 1), images[n - 1])
  }

  /** The images of headers 0..n-1 of a frame of `count` chunks. */
  function HeaderImages(seqNo: U32, count: nat, n: nat): (images: seq<seq<Byte>>)
    ensures |images| == n
    ensures forall i :: 0 <= i < n ==> |images[i]| == HEADER_BYTES
    decreases n
  {
    if n == 0 then [] else
    HeaderImages(seqNo, count, n - 1) + [HeaderBytes(WireHeader(seqNo, n - 1, count))]
  }

  function Headers(seqNo: U32, count: nat): (images: seq<seq<Byte>>)
    ensures |images| == count
    ensures forall i :: 0 <= i < count ==> |images[i]| == HEADER_BYTES
  {
    HeaderImages(seqNo, count, count)
  }

  lemma {:induction false} HeaderAt(seqNo: U32, count: nat, n: nat, i: nat)
    requires i < n
    ensures HeaderImages(seqNo, count, n)[i] == HeaderBytes(WireHeader(seqNo, i, count))
    decreases n
  {
    if i < n - 1 {
      HeaderAt(seqNo, count, n - 1, i);
    }
  }

  /** The block as published: all headers, then the time stamp. */
  function Stamped(b: seq<Byte>, plan: ChunkPlan, seqNo: U32, sendNs: U64): (r: seq<Byte>)
    requires Sliceable(plan, |b|)
    ensures |r| == |b|
  {
    Put(WithImages(b, Headers(seqNo, plan.count), plan, plan.count), SEND_NS_OFFSET, LeBytes(sendNs, 8))
  }

  method WriteHeader(block: array<Byte>, seqNo: U32, plan: ChunkPlan, i: nat, ghost before: seq<Byte>)
    requires Sliceable(plan, block.Length) && i < plan.count && |before| == block.Length
    requires block[..] == WithImages(before, Headers(seqNo, plan.count), plan, i)
    modifies block
    ensures block[..] == WithImages(before, Headers(seqNo, plan.count), plan, i + 1)
  {
    var hdr := ChunkHeader(seqNo, Wrap16(i), Wrap16(plan.count));
    HeaderAt(seqNo, plan.count, plan.count, i);
    OffsetIsProduct(plan, i);
    CopyInto(block, i * plan.len, HeaderBytes(hdr));
  }

  method WriteChunkHeaders(block: array<Byte>, seqNo: U32, plan: ChunkPlan)
    requires Sliceable(plan, block.Length)
    modifies block
    ensures block[..] == WithImages(old(block[..]), Headers(seqNo, plan.count), plan, plan.count)
  {
    ghost var before := block[..];
    for i := 0 to plan.count
      invariant block[..] == WithImages(before, Headers(seqNo, plan.count), plan, i)
    {
      WriteHeader(block, seqNo, plan, i, before);
    }
  }

  method StampSendNs(block: array<Byte>, sendNs: U64)
    requires block.Length >= MIN_FRAME_BYTES
    modifies block
    ensures block[..] == Put(old(block[..]), SEND_NS_OFFSET, LeBytes(sendNs, 8))
  {
    CopyInto(block, SEND_NS_OFFSET, LeBytes(sendNs, 8));
  }

  predicate InHeader(plan: ChunkPlan, i: nat, j: int) {
    Offset(plan, i) <= j < Offset(plan, i) + HEADER_BYTES
  }

  /** Byte j is payload: neither a chunk header nor the stamp covers it. */
  ghost predicate IsPayload(plan: ChunkPlan, j: int) {
    !(SEND_NS_OFFSET <= j < MIN_FRAME_BYTES) && forall i :: 0 <= i < plan.count ==> !InHeader(plan, i, j)
  }

  /** Image i survives the later ones when chunks are at least a header long. */
  lemma {:induction false} ImageKept(b: seq<Byte>, images: seq<seq<Byte>>, plan: ChunkPlan, n: nat, i: nat)
    requires Sliceable(plan, |b|) && i < n <= plan.count == |images| && plan.len >= HEADER_BYTES
    requires Offset(plan, i) + HEADER_BYTES <= |b|
    requires forall k :: 0 <= k < |images| ==> |images[k]| == HEADER_BYTES
    ensures WithImages(b, images, plan, n)[Offset(plan, i)..Offset(plan, i) + HEADER_BYTES] == images[i]
    decreases n
  {
    if i == n - 1 {
      PutRange(WithImages(b, images, plan, n - 1), Offset(plan, n - 1), images[n - 1]);
    } else {
      ImageKept(b, images, plan, n - 1, i);
      OffsetMonotone(plan, i, n - 1);
      PutElsewhere(WithImages(b, images, plan, n - 1), Offset(plan, n - 1), images[n - 1],
                   Offset(plan, i), Offset(plan, i) + HEADER_BYTES);
    }
  }

  lemma {:induction false} OutsideImages(b: seq<Byte>, images: seq<seq<Byte>>, plan: ChunkPlan, n: nat, j: nat)
    requires Sliceable(plan, |b|) && n <= plan.count == |images| && j < |b|
    requires forall k :: 0 <= k < |images| ==> |images[k]| == HEADER_BYTES
    requires forall i :: 0 <= i < n ==> !InHeader(plan, i, j)
    ensures WithImages(b, images, plan, n)[j] == b[j]
    decreases n
  {
    if n > 0 {
      OutsideImages(b, images, plan, n - 1, j);
      assert !InHeader(plan, n - 1, j);
      PutAt(WithImages(b, images, plan, n - 1), Offset(plan, n - 1), images[n - 1], j);
    }
  }

  lemma PayloadKept(b: seq<Byte>, plan: ChunkPlan, seqNo: U32, sendNs: U64, j: nat)
    requires Sliceable(plan, |b|) && j < |b| && IsPayload(plan, j)
    ensures Stamped(b, plan, seqNo, sendNs)[j] == b[j]
  {
    var images := Headers(seqNo, plan.count);
    PutAt(WithImages(b, images, plan, plan.count), SEND_NS_OFFSET, LeBytes(sendNs, 8), j);
    OutsideImages(b, images, plan, plan.count, j);
  }

  /** Header i stands where chunk i starts. */
  ghost predicate HasHeader(r: seq<Byte>, plan: ChunkPlan, seqNo: U32, i: nat) {
    Offset(plan, i) + HEADER_BYTES <= |r|
    && r[Offset(plan, i)..Offset(plan, i) + HEADER_BYTES] == HeaderBytes(WireHeader(seqNo, i, plan.count))
  }

  /** What the published block holds: each header that fits where its chunk starts, the stamp
      right after the first header, and every other byte untouched. */
  lemma BlockLayout(b: seq<Byte>, plan: ChunkPlan, seqNo: U32, sendNs: U64)
    requires Sliceable(plan, |b|) && (plan.count == 1 || plan.len >= MIN_FRAME_BYTES)
    ensures var r := Stamped(b, plan, seqNo, sendNs);
            && r[SEND_NS_OFFSET..MIN_FRAME_BYTES] == LeBytes(sendNs, 8)
            && (forall i :: 0 <= i < plan.count && Offset(plan, i) + HEADER_BYTES <= |r| ==>
                  HasHeader(r, plan, seqNo, i))
            && (forall j :: 0 <= j < |b| && IsPayload(plan, j) ==> r[j] == b[j])
  {
    var r := Stamped(b, plan, seqNo, sendNs);
    FirstChunkLong(plan, |b|);
    PutRange(WithImages(b, Headers(seqNo, plan.count), plan, plan.count), SEND_NS_OFFSET, LeBytes(sendNs, 8));
    forall i | 0 <= i < plan.count && Offset(plan, i) + HEADER_BYTES <= |r| ensures HasHeader(r, plan, seqNo, i) {
      HeaderStands(b, plan, seqNo, sendNs, i);
    }
    forall j | 0 <= j < |b| && IsPayload(plan, j) ensures r[j] == b[j] {
      PayloadKept(b, plan, seqNo, sendNs, j);
    }
  }

  lemma HeaderStands(b: seq<Byte>, plan: ChunkPlan, seqNo: U32, sendNs: U64, i: nat)
    requires Sliceable(plan, |b|) && (plan.count == 1 || plan.len >= MIN_FRAME_BYTES)
    requires i < plan.count && Offset(plan, i) + HEADER_BYTES <= |b|
    ensures HasHeader(Stamped(b, plan, seqNo, sendNs), plan, seqNo, i)
  {
    var images := Headers(seqNo, plan.count);
    var h := WithImages(b, images, plan, plan.count);
    ImageKept(b, images, plan, plan.count, i);
    HeaderAt(seqNo, plan.count, plan.count, i);
    if i > 0 {
      OffsetMonotone(plan, 1, i);
    }
    PutElsewhere(h, SEND_NS_OFFSET, LeBytes(sendNs, 8), Offset(plan, i), Offset(plan, i) + HEADER_BYTES);
  }

  lemma FirstChunkLong(plan: ChunkPlan, size: nat)
    requires Sliceable(plan, size) && (plan.count == 1 || plan.len >= MIN_FRAME_BYTES)
    ensures plan.len >= MIN_FRAME_BYTES && ChunkLen(plan, size, 0) >= MIN_FRAME_BYTES
  {
    OffsetInside(plan, size, 0);
  }

  lemma {:induction false} ImagesAgree(b: seq<Byte>, c: seq<Byte>, images: seq<seq<Byte>>,
                                       plan: ChunkPlan, n: nat, j: nat)
    requires Sliceable(plan, |b|) && n <= plan.count == |images| && |c| == |b| && j < |b|
    requires forall k :: 0 <= k < |images| ==> |images[k]| == HEADER_BYTES
    requires (forall i :: 0 <= i < n ==> !InHeader(plan, i, j)) ==> b[j] == c[j]
    ensures WithImages(b, images, plan, n)[j] == WithImages(c, images, plan, n)[j]
    decreases n
  {
    if n > 0 {
      PutAt(WithImages(b, images, plan, n - 1), Offset(plan, n - 1), images[n - 1], j);
      PutAt(WithImages(c, images, plan, n - 1), Offset(plan, n - 1), images[n - 1], j);
      if !InHeader(plan, n - 1, j) {
        ImagesAgree(b, c, images, plan, n - 1, j);
      }
    }
  }

  lemma SameByte(b: seq<Byte>, c: seq<Byte>, plan: ChunkPlan, seqNo: U32, sendNs: U64, j: nat)
    requires Sliceable(plan, |b|) && |c| == |b| && j < |b|
    requires IsPayload(plan, j) ==> b[j] == c[j]
    ensures Stamped(b, plan, seqNo, sendNs)[j] == Stamped(c, plan, seqNo, sendNs)[j]
  {
    var images := Headers(seqNo, plan.count);
    PutAt(WithImages(b, images, plan, plan.count), SEND_NS_OFFSET, LeBytes(sendNs, 8), j);
    PutAt(WithImages(c, images, plan, plan.count), SEND_NS_OFFSET, LeBytes(sendNs, 8), j);
    if !(SEND_NS_OFFSET <= j < MIN_FRAME_BYTES) {
      ImagesAgree(b, c, images, plan, plan.count, j);
    }
  }

  /** The block is shared by all frames: publishing a frame over the previous one leaves
      no byte of the previous frame's headers or stamp behind. */
  lemma NoResidue(b: seq<Byte>, plan: ChunkPlan, seqNo: U32, sendNs: U64, nextSeq: U32, nextNs: U64)
    requires Sliceable(plan, |b|)
    ensures Stamped(Stamped(b, plan, seqNo, sendNs), plan, nextSeq, nextNs) == Stamped(b, plan, nextSeq, nextNs)
  {
    var prev := Stamped(b, plan, seqNo, sendNs);
    forall j: nat | j < |b|
      ensures Stamped(prev, plan, nextSeq, nextNs)[j] == Stamped(b, plan, nextSeq, nextNs)[j]
    {
      if IsPayload(plan, j) {
        PayloadKept(b, plan, seqNo, sendNs, j);
      }
      SameByte(prev, b, plan, nextSeq, nextNs, j);
    }
  }

  // ------------------------------------------------------------------ slicing

  /** The bytes of chunk i, cut out of the block by the publish loop. */
  function Slice(b: seq<Byte>, plan: ChunkPlan, i: nat): (s: seq<Byte>)
    requires Covers(plan, |b|) && i < plan.count
    ensures |s| == ChunkLen(plan, |b|, i)
  {
    OffsetInside(plan, |b|, i);
    Sub(b, Offset(plan, i), ChunkLen(plan, |b|, i))
  }

  function Concat(parts: seq<seq<Byte>>): seq<Byte> {
    if parts == [] then [] else Concat(parts[..|parts| - 1]) + parts[|parts| - 1]
  }

  /** Where chunk n starts, or the end of the frame after the last chunk. */
  function Boundary(plan: ChunkPlan, size: nat, n: nat): (e: nat)
    requires Covers(plan, size) && n <= plan.count
    ensures e <= size
  {
    if n == plan.count then size else
    OffsetInside(plan, size, n);
    Offset(plan, n)
  }

  lemma BoundaryStep(plan: ChunkPlan, size: nat, n: nat)
    requires Covers(plan, size) && n < plan.count
    ensures Boundary(plan, size, n) == Offset(plan, n)
    ensures Boundary(plan, size, n + 1) == Offset(plan, n) + ChunkLen(plan, size, n)
  {
    OffsetInside(plan, size, n);
  }

  lemma SliceBetween(b: seq<Byte>, plan: ChunkPlan, n: nat)
    requires Covers(plan, |b|) && n < plan.count
    ensures Boundary(plan, |b|, n) <= Boundary(plan, |b|, n + 1)
    ensures Slice(b, plan, n) == b[Boundary(plan, |b|, n)..Boundary(plan, |b|, n + 1)]
  {
    BoundaryStep(plan, |b|, n);
  }

  lemma JoinAt(b: seq<Byte>, lo: nat, hi: nat)
    requires lo <= hi <= |b|
    ensures b[..lo] + b[lo..hi] == b[..hi]
  {
  }

  lemma {:induction false} ConcatPrefix(b: seq<Byte>, plan: ChunkPlan, parts: seq<seq<Byte>>)
    requires Covers(plan, |b|) && |parts| <= plan.count
    requires forall i :: 0 <= i < |parts| ==> parts[i] == Slice(b, plan, i)
    ensures Concat(parts) == b[..Boundary(plan, |b|, |parts|)]
    decreases |parts|
  {
    var n := |parts|;
    if n == 0 {
      assert Boundary(plan, |b|, n) == 0;
    } else {
      ConcatPrefix(b, plan, parts[..n - 1]);
      SliceBetween(b, plan, n - 1);
      JoinAt(b, Boundary(plan, |b|, n - 1), Boundary(plan, |b|, n));
    }
  }

  lemma LenPositive(plan: ChunkPlan, size: nat)
    requires Covers(plan, size)
    ensures plan.len >= 1
  {
  }

  /** The chunks partition the frame: none is empty, and joined in order they are the block. */
  lemma ChunksPartition(b: seq<Byte>, plan: ChunkPlan, parts: seq<seq<Byte>>)
    requires Covers(plan, |b|) && |parts| == plan.count
    requires forall i :: 0 <= i < |parts| ==> parts[i] == Slice(b, plan, i)
    ensures Concat(parts) == b
    ensures forall i :: 0 <= i < |parts| ==> |parts[i]| >= 1
  {
    ConcatPrefix(b, plan, parts);
    LenPositive(plan, |b|);
    forall i | 0 <= i < |parts| ensures |parts[i]| >= 1 {
      OffsetInside(plan, |b|, i);
    }
  }

  lemma ChunkHoldsHeader(plan: ChunkPlan, size: nat, i: nat)
    requires Sliceable(plan, size) && (plan.count == 1 || plan.len >= MIN_FRAME_BYTES) && i < plan.count
    requires i < plan.count - 1 || HeadersFit(plan, size)
    ensures ChunkLen(plan, size, i) >= HEADER_BYTES
  {
    FirstChunkLong(plan, size);
    OffsetInside(plan, size, i);
  }

  lemma SliceHead(r: seq<Byte>, plan: ChunkPlan, i: nat)
    requires Sliceable(plan, |r|) && (plan.count == 1 || plan.len >= MIN_FRAME_BYTES) && i < plan.count
    requires ChunkLen(plan, |r|, i) >= HEADER_BYTES
    ensures |Slice(r, plan, i)| >= HEADER_BYTES && Offset(plan, i) + HEADER_BYTES <= |r|
    ensures Slice(r, plan, i)[..HEADER_BYTES] == r[Offset(plan, i)..Offset(plan, i) + HEADER_BYTES]
    ensures i == 0 ==> |Slice(r, plan, i)| >= MIN_FRAME_BYTES
                       && Slice(r, plan, i)[SEND_NS_OFFSET..MIN_FRAME_BYTES] == r[SEND_NS_OFFSET..MIN_FRAME_BYTES]
  {
    FirstChunkLong(plan, |r|);
    OffsetInside(plan, |r|, i);
  }

  /** Every slice long enough for a header decodes to its own (seq, index, count); slice 0 also
      yields the stamp. */
  lemma SliceDecodes(b: seq<Byte>, plan: ChunkPlan, seqNo: U32, sendNs: U64, i: nat)
    requires Sliceable(plan, |b|) && (plan.count == 1 || plan.len >= MIN_FRAME_BYTES) && i < plan.count
    requires ChunkLen(plan, |b|, i) >= HEADER_BYTES
    ensures var s := Slice(Stamped(b, plan, seqNo, sendNs), plan, i);
            && |s| >= HEADER_BYTES
            && HeaderOf(s, 0) == WireHeader(seqNo, i, plan.count)
            && (i == 0 ==> StampIn(s, 0) == Some(sendNs))
  {
    var r := Stamped(b, plan, seqNo, sendNs);
    BlockLayout(b, plan, seqNo, sendNs);
    SliceHead(r, plan, i);
    HeaderRoundTrip(WireHeader(seqNo, i, plan.count), Slice(r, plan, i), 0);
    if i == 0 {
      Widths();
      ReadStored(Slice(r, plan, i), SEND_NS_OFFSET, sendNs, 8);
    }
  }

  /** Chunks that agree byte for byte, wherever they start, decode alike. */
  lemma DecodesAlike(a: seq<Byte>, i: nat, b: seq<Byte>, j: nat)
    requires |a| - i == |b| - j >= HEADER_BYTES
    requires forall k :: i <= k < |a| ==> a[k] == b[k - i + j]
    ensures HeaderOf(a, i) == HeaderOf(b, j) && StampIn(a, i) == StampIn(b, j)
  {
    ReadSame(a, i, b, j, 4);
    ReadSame(a, i + 4, b, j + 4, 2);
    ReadSame(a, i + 6, b, j + 6, 2);
    if |a| >= i + MIN_FRAME_BYTES {
      ReadSame(a, i + SEND_NS_OFFSET, b, j + SEND_NS_OFFSET, 8);
    }
  }

  // ------------------------------------------------------------------ tracker

  datatype CompletedFrame = CompletedFrame(seqNo: U32, sendNs: U64)

  datatype TrackerState = TrackerState(active: bool, seqNo: U32, next: U16, sendNs: U64)

  const IDLE_TRACKER := TrackerState(false, 0, 0, 0)

  predicate LongEnough(hole: nat, data: seq<Byte>) {
    |data| >= hole + HEADER_BYTES
  }

  /** The reaction to one parsed header; `stamp` is there when the chunk is long enough to hold one. */
  function HeaderStep(s: TrackerState, hdr: ChunkHeader, stamp: Option<U64>): (TrackerState, Option<CompletedFrame>) {
    if hdr.index == 0 && stamp.None? then (s.(active := false), None) else
    var t := if hdr.index == 0 then TrackerState(true, hdr.seqNo, 0, stamp.value) else s;
    if !t.active || hdr.seqNo != t.seqNo || hdr.index != t.next then (t.(active := false), None) else
    var u := t.(next := Wrap16(t.next + 1));
    if u.next < hdr.count then (u, None) else
    (u.(active := false), Some(CompletedFrame(u.seqNo, u.sendNs)))
  }

  function TrackerStep(hole: nat, s: TrackerState, data: seq<Byte>): (TrackerState, Option<CompletedFrame>) {
    if !LongEnough(hole, data) then (s, None) else
    HeaderStep(s, HeaderOf(data, hole), StampIn(data, hole))
  }

  /** Follows chunks in arrival order in constant space. */
  class FrameTracker {
    const hole: nat
    var active: bool
    var seqNo: U32
    var next: U16
    var sendNs: U64

    function State(): TrackerState
      reads this
    {
      TrackerState(active, seqNo, next, sendNs)
    }

    constructor (hole: nat)
      ensures this.hole == hole && State() == IDLE_TRACKER
    {
      this.hole := hole;
      active, seqNo, next, sendNs := false, 0, 0, 0;
    }

    method Ingest(data: seq<Byte>) returns (frame: Option<CompletedFrame>)
      modifies this
      ensures (State(), frame) == TrackerStep(hole, old(State()), data)
      ensures !LongEnough(hole, data) ==> State() == old(State()) && frame == None
      ensures frame.Some? ==> !active && frame.value == CompletedFrame(seqNo, sendNs)
    {
      if |data| < hole + HEADER_BYTES {
        return None;
      }
      var hdr := HeaderOf(data, hole);
      if hdr.index == 0 {
        if |data| < hole + MIN_FRAME_BYTES {
          active := false;
          return None;
        }
        active := true;
        seqNo := hdr.seqNo;
        next := 0;
        sendNs := StampIn(data, hole).value;
      }
      if !active || hdr.seqNo != seqNo || hdr.index != next {
        active := false;
        return None;
      }
      next := Wrap16(next + 1);
      if next < hdr.count {
        return None;
      }
      active := false;
      return Some(CompletedFrame(seqNo, sendNs));
    }
  }
}
