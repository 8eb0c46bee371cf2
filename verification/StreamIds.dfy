/** Stream IDs: order, generation, binary form. */
module StreamIds {
  import opened Basics
  import opened DataOrder

  const U64: nat := 0x1_0000_0000_0000_0000

  type Word = n: nat | n < 0x1_0000_0000_0000_0000

  datatype StreamId = Id(ms: Word, seqno: Word)

  const ZERO := Id(0, 0)

  /** Milliseconds first, then the sequence number. */
  function Compare(a: StreamId, b: StreamId): int
  {
    if a.ms > b.ms then 1
    else if a.ms < b.ms then -1
    else if a.seqno > b.seqno then 1
    else if a.seqno < b.seqno then -1
    else 0
  }

  predicate Lt(a: StreamId, b: StreamId)
  {
    Compare(a, b) < 0
  }

  predicate Le(a: StreamId, b: StreamId)
  {
    Compare(a, b) <= 0
  }

  // -------------------------------------------------------------- generation

  /** streamNextID: the clock if it moved on, the last ID plus one in sequence otherwise. */
  function NextId(last: StreamId, clock: Word): StreamId
  {
    if clock > last.ms then Id(clock, 0) else Id(last.ms, (last.seqno + 1) % U64)
  }

  /** Exactly when the clock has not passed the last ID and its sequence number is the largest one
      does the generated ID fail to be above it. */
  lemma NextIdAbove(last: StreamId, clock: Word)
    ensures Lt(last, NextId(last, clock)) <==> clock > last.ms || last.seqno < U64 - 1
  {
    if last.seqno < U64 - 1 {
      assert (last.seqno + 1) % U64 == last.seqno + 1;
    }
  }

  /** At the largest sequence number the next ID falls below the last one. */
  lemma NextIdWraps()
    ensures var last := Id(7, U64 - 1); NextId(last, 7) == Id(7, 0) && Lt(NextId(last, 7), last)
  {
  }

  datatype Request = Auto(clock: Word) | Given(id: StreamId)

  /** XADD: whether the request is accepted, and the last ID after it. */
  function XAdd(last: StreamId, r: Request): (bool, StreamId)
  {
    match r
    case Auto(clock) => (true, NextId(last, clock))
    case Given(id) => if Le(id, last) then (false, last) else (true, id)
  }

  /** The IDs accepted over a run of requests. */
  function Accepted(last: StreamId, rs: seq<Request>): seq<StreamId>
    decreases |rs|
  {
    if rs == [] then [] else
      var (ok, id) := XAdd(last, rs[0]);
      if ok then [id] + Accepted(id, rs[1..]) else Accepted(last, rs[1..])
  }

  /** No automatic request meets the largest sequence number with a clock that has not moved on. */
  predicate NoWrap(last: StreamId, rs: seq<Request>)
    decreases |rs|
  {
    rs == [] ||
    (var (ok, id) := XAdd(last, rs[0]);
     (rs[0].Auto? ==> rs[0].clock > last.ms || last.seqno < U64 - 1) && NoWrap(id, rs[1..]))
  }

  ghost predicate Increasing(s: seq<StreamId>)
  {
    forall i, j :: 0 <= i < j < |s| ==> Lt(s[i], s[j])
  }

  lemma PrependIncreases(x: StreamId, s: seq<StreamId>)
    requires Increasing(s) && s != [] && Lt(x, s[0])
    ensures Increasing([x] + s)
  {
    forall i, j | 0 <= i < j < |s| + 1
      ensures Lt(([x] + s)[i], ([x] + s)[j])
    {
      assert Le(s[0], s[j - 1]);
    }
  }

  /** Whatever the clock does, accepted IDs strictly increase from the last one on, exactly when no
      request wraps. */
  lemma {:induction false} AcceptedIncrease(last: StreamId, rs: seq<Request>)
    ensures Increasing([last] + Accepted(last, rs)) <==> NoWrap(last, rs)
    decreases |rs|
  {
    if rs != [] {
      var (ok, id) := XAdd(last, rs[0]);
      AcceptedIncrease(id, rs[1..]);
      if rs[0].Auto? {
        NextIdAbove(last, rs[0].clock);
      }
      if ok {
        var rest := [id] + Accepted(id, rs[1..]);
        IncreasingStep(last, rest);
      }
    }
  }

  lemma IncreasingStep(x: StreamId, s: seq<StreamId>)
    requires s != []
    ensures Increasing([x] + s) <==> Lt(x, s[0]) && Increasing(s)
  {
    if Increasing([x] + s) {
      assert ([x] + s)[0] == x && ([x] + s)[1] == s[0];
      forall i, j | 0 <= i < j < |s|
        ensures Lt(s[i], s[j])
      {
        assert ([x] + s)[i + 1] == s[i] && ([x] + s)[j + 1] == s[j];
      }
    } else if Lt(x, s[0]) && Increasing(s) {
      PrependIncreases(x, s);
    }
  }

  // ------------------------------------------------------------- binary form

  function BigEndian(n: nat, k: nat): (b: seq<Byte>)
    ensures |b| == k
  {
    if k == 0 then [] else BigEndian(n / 256, k - 1) + [n % 256]
  }

  function FromBigEndian(b: seq<Byte>): nat
  {
    if b == [] then 0 else 256 * FromBigEndian(b[..|b| - 1]) + b[|b| - 1] as nat
  }

  lemma {:induction false} BigEndianRoundTrip(n: nat, k: nat)
    requires n < Pow256(k)
    ensures FromBigEndian(BigEndian(n, k)) == n
  {
    if k > 0 {
      BigEndianRoundTrip(n / 256, k - 1);
      assert BigEndian(n, k)[..k - 1] == BigEndian(n / 256, k - 1);
    }
  }

  lemma WordRange(n: Word)
    ensures n < Pow256(8)
  {
    assert Pow256(4) == 0x1_0000_0000;
  }

  function Encode(id: StreamId): (b: seq<Byte>)
    ensures |b| == 16
  {
    BigEndian(id.ms, 8) + BigEndian(id.seqno, 8)
  }

  /** Strings shorter than 16 bytes leave the ID as it was. */
  function Decode(b: seq<Byte>, was: StreamId): StreamId
  {
    if |b| >= 16 then
      var ms, seqno := FromBigEndian(b[..8]), FromBigEndian(b[8..16]);
      BigEndianBound(b[..8]);
      BigEndianBound(b[8..16]);
      Id(ms, seqno)
    else was
  }

  lemma {:induction false} BigEndianBelow(b: seq<Byte>)
    ensures FromBigEndian(b) < Pow256(|b|)
  {
    if b != [] {
      BigEndianBelow(b[..|b| - 1]);
    }
  }

  lemma BigEndianBound(b: seq<Byte>)
    requires |b| == 8
    ensures FromBigEndian(b) < U64
  {
    BigEndianBelow(b);
    assert Pow256(4) == 0x1_0000_0000;
  }

  lemma EncodeRoundTrip(id: StreamId, was: StreamId)
    ensures Decode(Encode(id), was) == id
  {
    WordRange(id.ms);
    WordRange(id.seqno);
    BigEndianRoundTrip(id.ms, 8);
    BigEndianRoundTrip(id.seqno, 8);
    assert Encode(id)[..8] == BigEndian(id.ms, 8) && Encode(id)[8..16] == BigEndian(id.seqno, 8);
  }

  lemma {:induction false} MemCmpConcat(a: seq<Byte>, b: seq<Byte>, c: seq<Byte>, d: seq<Byte>)
    requires |a| == |b| && |c| == |d|
    ensures MemCmp(a + c, b + d) == if MemCmp(a, b) != 0 then MemCmp(a, b) else MemCmp(c, d)
  {
    if a == [] {
      assert a + c == c && b + d == d;
    } else {
      MemCmpConcat(a[1..], b[1..], c, d);
      assert (a + c)[1..] == a[1..] + c && (b + d)[1..] == b[1..] + d;
    }
  }

  lemma {:induction false} BigEndianOrder(n: nat, m: nat, k: nat)
    requires n < Pow256(k) && m < Pow256(k)
    ensures MemCmp(BigEndian(n, k), BigEndian(m, k)) == Sign(n, m)
  {
    if k > 0 {
      BigEndianOrder(n / 256, m / 256, k - 1);
      MemCmpConcat(BigEndian(n / 256, k - 1), BigEndian(m / 256, k - 1), [n % 256], [m % 256]);
    }
  }

  /** Encoded IDs compare as strings exactly as the IDs compare. */
  lemma EncodeOrder(a: StreamId, b: StreamId)
    ensures CompareStrings(Encode(a), Encode(b)) == Compare(a, b)
  {
    hide BigEndian, MemCmp;
    WordRange(a.ms);
    WordRange(b.ms);
    WordRange(a.seqno);
    WordRange(b.seqno);
    BigEndianOrder(a.ms, b.ms, 8);
    BigEndianOrder(a.seqno, b.seqno, 8);
    MemCmpConcat(BigEndian(a.ms, 8), BigEndian(b.ms, 8), BigEndian(a.seqno, 8), BigEndian(b.seqno, 8));
    assert Encode(a)[..16] == Encode(a) && Encode(b)[..16] == Encode(b);
  }
}
