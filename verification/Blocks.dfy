/** Packets of the FEC layer: a four-byte header, then the bytes the erasure code covers,
    which are a two-byte little-endian data length, the data and zero padding. */
module Blocks {
  import opened GF256
  import opened LinearAlgebra
  import opened GaussJordan

  /** The largest number of covered bytes: packet lengths are 16 bits and count the header. */
  const MAX_BODY := 65531

  datatype FECBlock = FECBlock(seqNum: gf, block: gf, nBlocks: gf, nFecBlocks: gf, body: vec) {

    /** Long enough to hold a length field, short enough for a 16-bit packet length. */
    predicate WellFormed()
    {
      2 <= |body| <= MAX_BODY
    }

    function DataLength(): nat
      requires 2 <= |body|
    {
      LengthOf(body[0], body[1])
    }

    /** data_length() + 2 in 16 bits. */
    function BlockSize(): nat
      requires WellFormed()
    {
      (DataLength() + 2) % 65536
    }

    predicate IsData()
    {
      block < nBlocks
    }

    function PktLength(): nat
    {
      |body| + 4
    }

    /** The block holds all the data its length field announces. */
    predicate Complete()
      requires WellFormed()
    {
      2 + DataLength() <= |body|
    }

    function Data(): vec
      requires WellFormed() && Complete()
    {
      body[2..2 + DataLength()]
    }
  }

  function LengthOf(low: int, high: int): int
  {
    low + 256 * high
  }

  function LengthBytes(n: nat): (b: vec)
    requires n < 65536
    ensures |b| == 2 && LengthOf(b[0], b[1]) == n
  {
    [n % 256, n / 256]
  }

  /** The bytes of a data block of the given size: length, data, padding. */
  function Padded(payload: vec, size: nat): (body: vec)
    requires |payload| + 2 <= size <= MAX_BODY
    ensures |body| == size
  {
    LengthBytes(|payload|) + payload + Zeros(size - 2 - |payload|)
  }

  lemma PaddedBytes(payload: vec, size: nat)
    requires |payload| + 2 <= size <= MAX_BODY
    ensures LengthOf(Padded(payload, size)[0], Padded(payload, size)[1]) == |payload|
    ensures Padded(payload, size)[0] == |payload| % 256 && Padded(payload, size)[1] == |payload| / 256
    ensures Padded(payload, size)[2..2 + |payload|] == payload
  {
    var head, pad := LengthBytes(|payload|), Zeros(size - 2 - |payload|);
    assert Padded(payload, size) == head + (payload + pad);
    assert (head + (payload + pad))[2..] == payload + pad;
  }

  /** A block read back from padded bytes, or from any prefix that holds the payload, has the payload. */
  lemma PaddedData(b: FECBlock, payload: vec, size: nat, m: nat)
    requires |payload| + 2 <= size <= MAX_BODY && 2 <= m <= size
    requires b.body == Padded(payload, size)[..m]
    ensures b.WellFormed() && b.DataLength() == |payload| && b.BlockSize() == |payload| + 2
    ensures b.Complete() <==> |payload| + 2 <= m
    ensures b.Complete() ==> b.Data() == payload
  {
    hide Padded, LengthOf;
    PaddedBytes(payload, size);
    var body := Padded(payload, size);
    assert b.body[0] == body[0] && b.body[1] == body[1];
    if |payload| + 2 <= m {
      assert body[..m][2..2 + |payload|] == body[2..2 + |payload|];
    }
  }
}
