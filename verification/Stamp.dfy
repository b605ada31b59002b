/** The echo payload's stamp: send time, call number, fill (vsomeip/bench/bench_common.h). */
module Stamp {
  import opened Bytes

  const STAMP_BYTES := 12
  const SEQ_OFFSET := 8

  datatype Mark = Mark(sendNs: U64, seqNo: U32)

  function FillAt(i: nat, seqNo: U32): Byte {
    Wrap8(i * 131 + seqNo)
  }

  /** A buffer of this length after stamping; shorter ones are left alone. */
  function Marked(b: seq<Byte>, m: Mark): (r: seq<Byte>)
    ensures |r| == |b|
  {
    if |b| < STAMP_BYTES then b else
    LeBytes(m.sendNs, 8) + LeBytes(m.seqNo, 4) + FillFrom(|b| - STAMP_BYTES, m.seqNo)
  }

  function FillFrom(n: nat, seqNo: U32): (r: seq<Byte>)
    ensures |r| == n
  {
    seq<Byte>(n, k requires 0 <= k < n => FillAt(STAMP_BYTES + k, seqNo))
  }

  function ReadStamp(b: seq<Byte>): Option<Mark> {
    if |b| < STAMP_BYTES then None else Some(Mark(Load64(b, 0), Load32(b, SEQ_OFFSET)))
  }

  method StampPayload(data: array<Byte>, sendNs: U64, seqNo: U32)
    modifies data
    ensures data[..] == Marked(old(data[..]), Mark(sendNs, seqNo))
    ensures if data.Length < STAMP_BYTES then data[..] == old(data[..])
            else && data[0..8] == LeBytes(sendNs, 8) && data[8..12] == LeBytes(seqNo, 4)
                 && forall k :: 12 <= k < data.Length ==> data[k] == (k * 131 + seqNo) % 256
  {
    if data.Length < STAMP_BYTES {
      return;
    }
    CopyInto(data, 0, LeBytes(sendNs, 8));
    CopyInto(data, SEQ_OFFSET, LeBytes(seqNo, 4));
    ghost var front := data[..STAMP_BYTES];
    assert front == LeBytes(sendNs, 8) + LeBytes(seqNo, 4);
    for i := STAMP_BYTES to data.Length
      invariant data[..STAMP_BYTES] == front
      invariant forall k :: STAMP_BYTES <= k < i ==> data[k] == FillAt(k, seqNo)
    {
      data[i] := Wrap8(i * 131 + seqNo);
    }
    ghost var want := Marked(old(data[..]), Mark(sendNs, seqNo));
    forall k | 0 <= k < data.Length ensures data[k] == want[k] {
      if k < STAMP_BYTES {
        assert data[k] == front[k];
      }
    }
    assert data[0..8] == front[0..8] && data[8..12] == front[8..12];
    forall k | STAMP_BYTES <= k < data.Length ensures data[k] == (k * 131 + seqNo) % 256 {
      ByteSplit(k * 131 + seqNo);
    }
  }

  /** The echoed payload yields the stamped pair, for every buffer that can hold one and no other. */
  lemma StampReadsBack(b: seq<Byte>, m: Mark)
    ensures ReadStamp(Marked(b, m)) == if |b| < STAMP_BYTES then None else Some(m)
  {
    if |b| >= STAMP_BYTES {
      var r := Marked(b, m);
      Widths();
      assert r[0..0 + 8] == LeBytes(m.sendNs, 8);
      assert r[SEQ_OFFSET..SEQ_OFFSET + 4] == LeBytes(m.seqNo, 4);
      ReadStored(r, 0, m.sendNs, 8);
      ReadStored(r, SEQ_OFFSET, m.seqNo, 4);
    }
  }
}
