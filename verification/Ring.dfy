/** Index arithmetic of the driver's single-producer/single-consumer byte rings:
    the bytes a ring holds as one sequence, and the largest contiguous chunk the
    writer may fill or the reader may drain in one copy. */
module Ring {
  const BUF_LEN: nat := 2048
  const CAPACITY: nat := BUF_LEN - 1

  type Byte = b: int | 0 <= b < 256

  /** How many bytes lie between the consumer's index and the producer's. */
  function Count(outIdx: nat, inIdx: nat): (c: nat)
    requires outIdx < BUF_LEN && inIdx < BUF_LEN
    ensures c <= CAPACITY
  {
    if outIdx <= inIdx then inIdx - outIdx else inIdx + BUF_LEN - outIdx
  }

  /** The ring's bytes, oldest first. */
  function Contents(buf: seq<Byte>, outIdx: nat, inIdx: nat): (s: seq<Byte>)
    requires |buf| == BUF_LEN && outIdx < BUF_LEN && inIdx < BUF_LEN
    ensures |s| == Count(outIdx, inIdx)
  {
    if outIdx <= inIdx then buf[outIdx..inIdx] else buf[outIdx..] + buf[..inIdx]
  }

  /** Cell i belongs to the stored bytes. */
  predicate Live(outIdx: nat, inIdx: nat, i: nat)
  {
    if outIdx <= inIdx then outIdx <= i < inIdx else outIdx <= i < BUF_LEN || i < inIdx
  }

  function Advance(i: nat, m: nat): nat { (i + m) % BUF_LEN }

  lemma Wrap(i: nat, m: nat)
    requires i < BUF_LEN && i + m <= BUF_LEN
    ensures Advance(i, m) == if i + m == BUF_LEN then 0 else i + m
  {
  }

  /** The chunk the write routine picks from a snapshot of the two indices. */
  function WriteChunk(inIdx: nat, outIdx: nat): int
  {
    if inIdx < outIdx then outIdx - 1 - inIdx
    else if outIdx > 0 then BUF_LEN - inIdx
    else BUF_LEN - 1 - inIdx
  }

  /** The chunk the read routine picks from a snapshot of the two indices. */
  function ReadChunk(inIdx: nat, outIdx: nat): int
  {
    if inIdx >= outIdx then inIdx - outIdx else BUF_LEN - outIdx
  }

  /** The two index comparisons the ISR makes are its fullness and emptiness tests. */
  lemma IndexTests(outIdx: nat, inIdx: nat)
    requires outIdx < BUF_LEN && inIdx < BUF_LEN
    ensures Advance(inIdx, 1) == outIdx <==> Count(outIdx, inIdx) == CAPACITY
    ensures inIdx == outIdx <==> Count(outIdx, inIdx) == 0
    ensures !Live(outIdx, inIdx, inIdx)
  {
  }

  lemma CountDiffers(oldOut: nat, newOut: nat, inIdx: nat)
    requires oldOut < BUF_LEN && newOut < BUF_LEN && inIdx < BUF_LEN
    ensures Count(oldOut, inIdx) == Count(newOut, inIdx) <==> oldOut == newOut
  {
  }

  /** The stored cells are exactly those Contents reads: a cell is live if it lies fewer cells
      past the consumer than the ring holds, and its byte stands at that distance. */
  lemma ContentsAt(buf: seq<Byte>, outIdx: nat, inIdx: nat, i: nat)
    requires |buf| == BUF_LEN && outIdx < BUF_LEN && inIdx < BUF_LEN && i < BUF_LEN
    ensures Live(outIdx, inIdx, i) <==> Count(outIdx, i) < Count(outIdx, inIdx)
    ensures Live(outIdx, inIdx, i) ==>
              Contents(buf, outIdx, inIdx)[Count(outIdx, i)] == buf[i]
    ensures outIdx <= i ==> Count(outIdx, i) == i - outIdx
  {
  }

  /** The writer's chunk lies in one piece in cells that hold nothing, is empty exactly
      when the ring is full, is as long as a single copy can be, and publishing any part
      of it makes the ring longer by just that much, so a full ring never looks empty. */
  lemma WriteChunkExact(inIdx: nat, outIdx: nat)
    requires inIdx < BUF_LEN && outIdx < BUF_LEN
    ensures var n := WriteChunk(inIdx, outIdx);
            && 0 <= n && inIdx + n <= BUF_LEN
            && (n == 0 <==> Count(outIdx, inIdx) == CAPACITY)
            && n <= CAPACITY - Count(outIdx, inIdx)
            && (inIdx + n == BUF_LEN || n == CAPACITY - Count(outIdx, inIdx))
            && (forall i :: inIdx <= i < inIdx + n ==> !Live(outIdx, inIdx, i))
            && (forall m :: 0 <= m <= n ==>
                  Count(outIdx, Advance(inIdx, m)) == Count(outIdx, inIdx) + m)
  {
    var n := WriteChunk(inIdx, outIdx);
    forall m | 0 <= m <= n
      ensures Count(outIdx, Advance(inIdx, m)) == Count(outIdx, inIdx) + m
    {
      Wrap(inIdx, m);
    }
  }

  /** The reader's chunk lies in one piece in stored cells, is empty exactly when the ring
      is empty, is as long as a single copy can be, and is the oldest part of the contents. */
  lemma ReadChunkExact(inIdx: nat, outIdx: nat)
    requires inIdx < BUF_LEN && outIdx < BUF_LEN
    ensures var n := ReadChunk(inIdx, outIdx);
            && 0 <= n && outIdx + n <= BUF_LEN
            && (n == 0 <==> Count(outIdx, inIdx) == 0)
            && n <= Count(outIdx, inIdx)
            && (outIdx + n == BUF_LEN || n == Count(outIdx, inIdx))
            && (forall i :: outIdx <= i < outIdx + n ==> Live(outIdx, inIdx, i))
            && (forall m :: 0 <= m <= n ==>
                  Count(Advance(outIdx, m), inIdx) == Count(outIdx, inIdx) - m)
  {
    var n := ReadChunk(inIdx, outIdx);
    forall m | 0 <= m <= n
      ensures Count(Advance(outIdx, m), inIdx) == Count(outIdx, inIdx) - m
    {
      Wrap(outIdx, m);
    }
  }

  /** Publishing m freshly copied bytes appends exactly those bytes. */
  lemma PublishAppends(buf: seq<Byte>, outIdx: nat, inIdx: nat, m: nat)
    requires |buf| == BUF_LEN && outIdx < BUF_LEN && inIdx < BUF_LEN
    requires inIdx + m <= BUF_LEN && m <= CAPACITY - Count(outIdx, inIdx)
    ensures Contents(buf, outIdx, Advance(inIdx, m)) == Contents(buf, outIdx, inIdx) + buf[inIdx..inIdx + m]
  {
    Wrap(inIdx, m);
  }

  /** Advancing the consumer by m removes exactly the m oldest bytes. */
  lemma ConsumeDrops(buf: seq<Byte>, outIdx: nat, inIdx: nat, m: nat)
    requires |buf| == BUF_LEN && outIdx < BUF_LEN && inIdx < BUF_LEN
    requires outIdx + m <= BUF_LEN && m <= Count(outIdx, inIdx)
    ensures Contents(buf, outIdx, inIdx)[..m] == buf[outIdx..outIdx + m]
    ensures Contents(buf, Advance(outIdx, m), inIdx) == Contents(buf, outIdx, inIdx)[m..]
  {
    Wrap(outIdx, m);
    if outIdx <= inIdx {
      assert buf[outIdx..inIdx] == buf[outIdx..outIdx + m] + buf[outIdx + m..inIdx];
    } else {
      assert buf[outIdx..] == buf[outIdx..outIdx + m] + buf[outIdx + m..];
    }
  }

  /** A write to a cell outside the stored bytes leaves the contents alone. */
  lemma DeadStore(buf: seq<Byte>, outIdx: nat, inIdx: nat, i: nat, b: Byte)
    requires |buf| == BUF_LEN && outIdx < BUF_LEN && inIdx < BUF_LEN && i < BUF_LEN
    requires !Live(outIdx, inIdx, i)
    ensures Contents(buf[i := b], outIdx, inIdx) == Contents(buf, outIdx, inIdx)
  {
  }

  /** A writer holding a stale consumer index stays safe: the consumer only moves forward,
      so a cell that was free under the old index is free under the new one. */
  lemma StaleSnapshotSafe(oldOut: nat, newOut: nat, inIdx: nat, i: nat)
    requires oldOut < BUF_LEN && newOut < BUF_LEN && inIdx < BUF_LEN && i < BUF_LEN
    requires Count(newOut, inIdx) <= Count(oldOut, inIdx)
    requires !Live(oldOut, inIdx, i)
    ensures !Live(newOut, inIdx, i)
  {
  }
}
