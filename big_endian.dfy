/** Network byte order: big-endian two's-complement integers read from a byte buffer at a cursor,
    the primitive under every fixed-width value of the PostgreSQL binary format. */
module BigEndian {
  import opened Wrappers

  type byte = b: int | 0 <= b < 256

  function Pow256(n: nat): (r: nat)
    ensures r >= 1
  {
    if n == 0 then 1 else 256 * Pow256(n - 1)
  }

  /** The unsigned value of `bs`, most significant byte first. */
  function Unsigned(bs: seq<byte>): nat
  {
    if |bs| == 0 then 0 else Unsigned(bs[..|bs| - 1]) * 256 + bs[|bs| - 1]
  }

  /** Two's-complement reinterpretation of an n-byte unsigned value. */
  function ToSigned(u: nat, n: nat): int
  {
    if n > 0 && 2 * u >= Pow256(n) then u - Pow256(n) else u
  }

  function Signed(bs: seq<byte>): int
  {
    ToSigned(Unsigned(bs), |bs|)
  }

  predicate InSignedRange(v: int, n: nat)
  {
    -(Pow256(n) as int) <= 2 * v < Pow256(n)
  }

  /** The n-byte big-endian encoding of u (the sender's side; used as the decoder's inverse). */
  function EncodeUnsigned(u: nat, n: nat): (bs: seq<byte>)
    ensures |bs| == n
  {
    if n == 0 then [] else EncodeUnsigned(u / 256, n - 1) + [u % 256]
  }

  /** Two's-complement encoding of a value representable in n bytes. */
  function EncodeSigned(v: int, n: nat): (bs: seq<byte>)
    requires InSignedRange(v, n)
    ensures |bs| == n
  {
    EncodeUnsigned(if v < 0 then v + Pow256(n) else v, n)
  }

  lemma {:induction false} UnsignedBound(bs: seq<byte>)
    ensures Unsigned(bs) < Pow256(|bs|)
  {
    if |bs| > 0 {
      UnsignedBound(bs[..|bs| - 1]);
    }
  }

  /** Every n-byte buffer decodes to a signed value representable in n bytes. */
  lemma SignedInRange(bs: seq<byte>)
    requires |bs| > 0
    ensures InSignedRange(Signed(bs), |bs|)
  {
    UnsignedBound(bs);
  }

  lemma {:induction false} UnsignedRoundTrip(u: nat, n: nat)
    requires u < Pow256(n)
    ensures Unsigned(EncodeUnsigned(u, n)) == u
  {
    if n > 0 {
      var bs := EncodeUnsigned(u, n);
      assert bs[..n - 1] == EncodeUnsigned(u / 256, n - 1);
      UnsignedRoundTrip(u / 256, n - 1);
    }
  }

  /** Decoding the big-endian two's-complement encoding of v gives v back. */
  lemma SignedRoundTrip(v: int, n: nat)
    requires n > 0 && InSignedRange(v, n)
    ensures Signed(EncodeSigned(v, n)) == v
  {
    UnsignedRoundTrip(if v < 0 then v + Pow256(n) else v, n);
  }

  /** Decoding is injective on buffers of equal width: encoding the decoded value restores the bytes. */
  lemma {:induction false} UnsignedEncodeDecode(bs: seq<byte>)
    ensures EncodeUnsigned(Unsigned(bs), |bs|) == bs
  {
    if |bs| > 0 {
      var n := |bs|;
      var init := bs[..n - 1];
      UnsignedEncodeDecode(init);
      assert (Unsigned(init) * 256 + bs[n - 1]) / 256 == Unsigned(init);
      assert (Unsigned(init) * 256 + bs[n - 1]) % 256 == bs[n - 1];
      assert bs == init + [bs[n - 1]];
    }
  }

  /** `ozo::read` of an n-byte integer at cursor `pos`: the value and the advanced cursor, or an
      end-of-stream failure when fewer than n bytes remain. */
  function ReadInt(buf: seq<byte>, pos: nat, n: nat): (r: Result<(int, nat), ()>)
    ensures r.Success? <==> pos + n <= |buf|
    ensures r.Success? ==> r.value.1 == pos + n && r.value.0 == Signed(buf[pos..pos + n])
  {
    if pos + n <= |buf| then Success((Signed(buf[pos..pos + n]), pos + n)) else Failure(())
  }

  function ReadUInt(buf: seq<byte>, pos: nat, n: nat): (r: Result<(nat, nat), ()>)
    ensures r.Success? <==> pos + n <= |buf|
    ensures r.Success? ==> r.value.1 == pos + n && r.value.0 == Unsigned(buf[pos..pos + n])
  {
    if pos + n <= |buf| then Success((Unsigned(buf[pos..pos + n]), pos + n)) else Failure(())
  }

  /** Reading any value of at least one byte from an empty stream fails. */
  lemma ReadEmptyFails(n: nat)
    requires n > 0
    ensures ReadInt([], 0, n).Failure?
  {
  }
}
