/**
 The header of a heap block as it lies in memory: two 32-bit addresses, low byte
 first, and a byte that says whether the block is free.
 */
module HeapHeader {
  import opened Bytes
  import opened AddressSpace

  const HEADER := 9

  datatype Header = Header(prev: nat, next: nat, isFree: bool)

  predicate Storable(h: Header) {
    h.prev < 0x1_0000_0000 && h.next < 0x1_0000_0000
  }

  function Word(n: nat): (b: seq<byte>)
    ensures |b| == 4
  {
    [n % 256, (n / 256) % 256, (n / 0x1_0000) % 256, (n / 0x100_0000) % 256]
  }

  function WordAt(b: seq<byte>): (n: nat)
    requires |b| == 4
    ensures n < 0x1_0000_0000
  {
    b[0] as int + 256 * (b[1] as int) + 0x1_0000 * (b[2] as int) + 0x100_0000 * (b[3] as int)
  }

  lemma WordRoundTrip(n: nat)
    requires n < 0x1_0000_0000
    ensures WordAt(Word(n)) == n
  {
    var q := n / 256;
    var r := q / 256;
    assert n / 0x1_0000 == r;
    assert n / 0x100_0000 == r / 256;
    assert n == 256 * q + n % 256;
    assert q == 256 * r + q % 256;
    assert r == 256 * (r / 256) + r % 256;
  }

  function Encode(h: Header): (b: seq<byte>)
    ensures |b| == HEADER
  {
    Word(h.prev) + Word(h.next) + [if h.isFree then 1 else 0]
  }

  function Decode(b: seq<byte>): Header
    requires |b| == HEADER
  {
    Header(WordAt(b[..4]), WordAt(b[4..8]), b[8] != 0)
  }

  /** A header that is written is read back: the address before, the address behind, and whether the block is free. */
  lemma HeaderRoundTrip(h: Header)
    requires Storable(h)
    ensures Decode(Encode(h)) == h
    ensures WordAt(Encode(h)[..4]) == h.prev && WordAt(Encode(h)[4..8]) == h.next && (Encode(h)[8] != 0 <==> h.isFree)
  {
    WordRoundTrip(h.prev);
    WordRoundTrip(h.next);
    assert Encode(h)[..4] == Word(h.prev);
    assert Encode(h)[4..8] == Word(h.next);
  }

  // ----- headers in an address space

  // Mentioned where the bytes of a header matter; elsewhere they stay folded.
  ghost predicate Inspect(x: int) {
    true
  }

  // Header h lies at a.
  ghost predicate HeaderIs(s: seq<byte>, a: nat, h: Header) {
    a + HEADER <= |s| && forall x {:trigger Inspect(x)} :: Inspect(x) ==> Decode(s[a..a + HEADER]) == h
  }

  // Header h was written at a.
  ghost predicate HeaderSet(s: seq<byte>, t: seq<byte>, a: nat, h: Header) {
    && Storable(h) && a + HEADER <= |s| == |t|
    && forall x {:trigger Inspect(x)} :: Inspect(x) ==> Spliced(s, t, a, Encode(h))
  }

  ghost predicate SameBytes(s: seq<byte>, t: seq<byte>, lo: nat, hi: nat) {
    hi <= |s| && hi <= |t| && forall k {:trigger t[k]} :: lo <= k < hi ==> t[k] == s[k]
  }

  lemma HeaderThere(s: seq<byte>, t: seq<byte>, a: nat, h: Header)
    requires HeaderSet(s, t, a, h)
    ensures HeaderIs(t, a, h)
  {
    assert Inspect(0);
    HeaderRoundTrip(h);
    SpliceInside(s, a, Encode(h));
  }

  lemma HeaderStays(s: seq<byte>, t: seq<byte>, a: nat, h: Header, b: nat, g: Header)
    requires HeaderSet(s, t, a, h) && HeaderIs(s, b, g)
    requires b + HEADER <= a || a + HEADER <= b
    ensures HeaderIs(t, b, g)
  {
    assert Inspect(0);
    SpliceOutside(s, a, Encode(h), b, b + HEADER);
  }

  lemma BytesStay(s: seq<byte>, t: seq<byte>, a: nat, h: Header, lo: nat, hi: nat)
    requires HeaderSet(s, t, a, h) && hi <= |s|
    requires hi <= a || a + HEADER <= lo
    ensures SameBytes(s, t, lo, hi)
  {
    assert Inspect(0);
  }
}
