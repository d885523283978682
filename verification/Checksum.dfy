/**
  The Internet checksum (net/net.c): one's-complement sums as in sections 1 and 2 of
  RFC 1071, with the IPv6 pseudo-header of section 8.1 of RFC 8200.
 */
module Checksum {
  import opened Numbers

  const ONES: nat := 0xffff
  const HALF: nat := 0x1_0000

  /** A big-endian 16-bit word. */
  function Pair(hi: Byte, lo: Byte): (r: nat)
    ensures r <= ONES
  {
    (hi as int) * 256 + lo
  }

  /** The mathematical sum of the big-endian 16-bit words, an odd last byte padded with zero. */
  function WordSum(d: seq<Byte>): nat {
    if |d| == 0 then 0
    else if |d| == 1 then Pair(d[0], 0)
    else Pair(d[0], d[1]) + WordSum(d[2..])
  }

  /** The one's-complement 16-bit representative of `n`: zero only for zero. */
  function Canonical(n: nat): (r: nat)
    ensures r <= ONES && (r == 0 <==> n == 0) && r % ONES == n % ONES
  {
    if n == 0 then 0 else (n - 1) % ONES + 1
  }

  /** The checksum of `d`. */
  function Of(d: seq<Byte>): (r: nat)
    ensures r <= ONES
  {
    ONES - Canonical(WordSum(d))
  }

  /** One end-around carry. */
  function Fold(sum: nat): nat {
    sum % HALF + sum / HALF
  }

  lemma FoldCanonical(sum: nat)
    ensures Canonical(Fold(sum)) == Canonical(sum)
    ensures sum >= HALF ==> Fold(sum) < sum
  {
    var hi, lo := sum / HALF, sum % HALF;
    assert sum == hi * ONES + Fold(sum);
    if Fold(sum) > 0 {
      CanonicalShift(Fold(sum), hi);
    }
  }

  lemma FoldSmall(sum: nat)
    requires sum < WORD
    ensures Fold(sum) == sum % HALF + sum / HALF <= 0x1_fffe
  {
  }

  lemma CanonicalShift(n: nat, k: nat)
    requires n > 0
    ensures Canonical(n + k * ONES) == Canonical(n)
  {
    assert (n - 1 + k * ONES) % ONES == (n - 1) % ONES;
  }

  /** Sums with the same representative keep it when the same amount is added. */
  lemma CanonicalAdd(a: nat, b: nat, x: nat)
    requires Canonical(a) == Canonical(b)
    ensures Canonical(a + x) == Canonical(b + x)
  {
    if a > 0 { ResidueAdd(a - 1, b - 1, x); }
  }

  lemma ResidueAdd(a: nat, b: nat, x: nat)
    requires a % ONES == b % ONES
    ensures (a + x) % ONES == (b + x) % ONES
  {
    var k := a / ONES - b / ONES;
    assert a + x == (b + x) + k * ONES;
  }

  /** `add_words`: partial folding in 32 bits; nothing overflows, nothing is lost modulo 65535. */
  method AddWords(sum: nat, p: seq<Byte>) returns (r: nat)
    requires sum <= 0xffff_0000
    ensures r <= sum + 0x2_fffe && r < WORD && Canonical(r) == Canonical(sum + WordSum(p))
  {
    hide Canonical;
    r := sum;
    var i := 0;
    assert p[0..] == p;
    while |p| - i > 1
      invariant 0 <= i <= |p| && (r <= 0x1_fffe || r == sum)
      invariant Canonical(r + WordSum(p[i..])) == Canonical(sum + WordSum(p))
    {
      ghost var rest := WordSum(p[i + 2..]);
      assert p[i..][2..] == p[i + 2..];
      r := r + Pair(p[i], p[i + 1]);
      if r > ONES {
        FoldCanonical(r);
        CanonicalAdd(Fold(r), r, rest);
        FoldSmall(r);
        r := r % HALF + r / HALF;
      }
      i := i + 2;
    }
    if |p| - i == 1 {
      assert p[i..] == [p[i]];
      r := r + Pair(p[i], 0);
    } else {
      assert p[i..] == [];
    }
  }

  /** `fold_checksum`. */
  method FoldChecksum(sum: nat) returns (c: nat)
    requires sum < WORD
    ensures c == ONES - Canonical(sum)
  {
    var s: nat := sum;
    while s / HALF != 0
      invariant Canonical(s) == Canonical(sum)
      decreases s
    {
      FoldCanonical(s);
      s := s % HALF + s / HALF;
    }
    c := ONES - s;
  }

  /** `net_checksum`. */
  method NetChecksum(d: seq<Byte>) returns (c: nat)
    ensures c == Of(d)
  {
    var sum := AddWords(0, d);
    c := FoldChecksum(sum);
  }

  // ---------------------------------------------------------------- concatenation

  /** An even prefix can be summed first. */
  lemma {:induction false} WordSumAppend(a: seq<Byte>, b: seq<Byte>)
    requires |a| % 2 == 0
    ensures WordSum(a + b) == WordSum(a) + WordSum(b)
  {
    if |a| == 0 {
      assert a + b == b;
    } else {
      WordSumAppend(a[2..], b);
      assert (a + b)[2..] == a[2..] + b;
    }
  }

  // ---------------------------------------------------------------- storing and verifying

  /** `d` with the 16-bit value `v` stored big-endian at offset `k`. */
  function Stored(d: seq<Byte>, k: nat, v: nat): seq<Byte>
    requires k + 2 <= |d| && v <= ONES
  {
    d[k := v / 256][k + 1 := v % 256]
  }

  lemma {:induction false} WordSumStored(d: seq<Byte>, k: nat, v: nat)
    requires k % 2 == 0 && k + 2 <= |d| && d[k] == 0 && d[k + 1] == 0 && v <= ONES
    ensures WordSum(Stored(d, k, v)) == WordSum(d) + v
  {
    var s := Stored(d, k, v);
    if k == 0 {
      assert s[2..] == d[2..];
    } else {
      WordSumStored(d[2..], k - 2, v);
      assert s[2..] == Stored(d[2..], k - 2, v);
    }
  }

  /** A packet verifies exactly when its words add up to a positive multiple of 65535. */
  lemma VerifiesIff(d: seq<Byte>)
    ensures Of(d) == 0 <==> WordSum(d) > 0 && WordSum(d) % ONES == 0
  {
    if WordSum(d) > 0 { TopResidue(WordSum(d) - 1); }
  }

  lemma TopResidue(m: nat)
    ensures m % ONES == ONES - 1 <==> (m + 1) % ONES == 0
  {
    var q, r := m / ONES, m % ONES;
    assert m + 1 == q * ONES + (r + 1);
  }

  /** Storing the checksum in its zeroed field makes the packet verify. */
  lemma StoredVerifies(d: seq<Byte>, k: nat)
    requires k % 2 == 0 && k + 2 <= |d| && d[k] == 0 && d[k + 1] == 0
    ensures Of(Stored(d, k, Of(d))) == 0
  {
    WordSumStored(d, k, Of(d));
    VerifiesIff(Stored(d, k, Of(d)));
    Complement(WordSum(d));
  }

  lemma Complement(n: nat)
    ensures (n + (ONES - Canonical(n))) % ONES == 0 && n + (ONES - Canonical(n)) > 0
  {
    var c := Canonical(n);
    if n > 0 {
      assert n - c == (n - 1) / ONES * ONES;
    }
  }

  /** A stored value verifies exactly when it has the checksum's residue and the words are not all zero. */
  lemma StoredVerifiesIff(d: seq<Byte>, k: nat, v: nat)
    requires k % 2 == 0 && k + 2 <= |d| && d[k] == 0 && d[k + 1] == 0 && v <= ONES
    ensures Of(Stored(d, k, v)) == 0 <==> v % ONES == Of(d) % ONES && WordSum(d) + v > 0
  {
    WordSumStored(d, k, v);
    VerifiesIff(Stored(d, k, v));
    var n := WordSum(d);
    Residues(n, Canonical(n), v);
  }

  lemma Residues(n: nat, c: nat, v: nat)
    requires n % ONES == c % ONES && c <= ONES && v <= ONES
    ensures (n + v) % ONES == 0 <==> v % ONES == (ONES - c) % ONES
  {
    assert (n + v) % ONES == (c + v) % ONES;
  }

  // ---------------------------------------------------------------- pseudo-header checksums

  const NEXT_TCP: nat := 6
  const NEXT_ICMPV6: nat := 58

  type Address = a: seq<Byte> | |a| == 16 witness seq(16, _ => 0)

  /** Upper-layer packet length, most significant byte first. */
  function LengthBytes(length: nat): seq<Byte> {
    [length / 0x100_0000 % 256, length / 0x1_0000 % 256, length / 0x100 % 256, length % 256]
  }

  function PseudoHeader(source: Address, destination: Address, length: nat, next: nat): (r: seq<Byte>)
    requires next < 256
    ensures |r| == 40
  {
    source + destination + LengthBytes(length) + [0, 0, 0, next]
  }

  /** Section 8.1 of RFC 8200: both addresses, the length with its high byte first, three zeros, the next header. */
  lemma PseudoHeaderIs(source: Address, destination: Address, length: nat, next: nat)
    requires next < 256 && length < WORD
    ensures var r := PseudoHeader(source, destination, length, next);
            && r[..16] == source && r[16..32] == destination
            && FourBytes(r[35], r[34], r[33], r[32]) == length
            && r[36] == r[37] == r[38] == 0 && r[39] == next
  {
    LengthIs(length);
  }

  lemma LengthIs(length: nat)
    requires length < WORD
    ensures var b := LengthBytes(length); FourBytes(b[3], b[2], b[1], b[0]) == length
    ensures var b := LengthBytes(length); Pair(b[0], b[1]) == length / 0x1_0000 && Pair(b[2], b[3]) == length % 0x1_0000
  {
    var x, y, z := length / 256, length / 256 / 256, length / 256 / 256 / 256;
    assert length / 0x1_0000 == y && length / 0x100_0000 == z;
  }

  /** What it adds to the sum. */
  lemma PseudoSum(source: Address, destination: Address, length: nat, next: nat)
    requires next < 256 && length < WORD
    ensures WordSum(PseudoHeader(source, destination, length, next)) ==
            WordSum(source) + WordSum(destination) + length / 0x1_0000 + length % 0x1_0000 + next
  {
    hide WordSum;
    var b, tail: seq<Byte> := LengthBytes(length), [0, 0, 0, next];
    assert PseudoHeader(source, destination, length, next) == source + (destination + (b + tail));
    WordSumAppend(source, destination + (b + tail));
    WordSumAppend(destination, b + tail);
    WordSumAppend(b, tail);
    LengthIs(length);
    TwoWords(b);
    TwoWords(tail);
  }

  lemma TwoWords(d: seq<Byte>)
    requires |d| == 4
    ensures WordSum(d) == Pair(d[0], d[1]) + Pair(d[2], d[3])
  {
    assert d[2..][2..] == [];
    assert WordSum(d[2..]) == Pair(d[2], d[3]);
  }

  /** The pseudo-header buffer, filled in place. */
  method FillPseudo(source: Address, destination: Address, length: nat, next: nat) returns (pseudo: array<Byte>)
    requires next < 256
    ensures fresh(pseudo) && pseudo[..] == PseudoHeader(source, destination, length, next)
  {
    pseudo := new Byte[40];
    for i := 0 to 16
      invariant pseudo[..i] == source[..i] && pseudo[16..16 + i] == destination[..i]
    {
      pseudo[i] := source[i];
      pseudo[16 + i] := destination[i];
    }
    assert pseudo[..16] == source && pseudo[16..32] == destination;
    var bytes := LengthBytes(length);
    pseudo[32], pseudo[33], pseudo[34], pseudo[35] := bytes[0], bytes[1], bytes[2], bytes[3];
    pseudo[36], pseudo[37], pseudo[38], pseudo[39] := 0, 0, 0, next;
    assert pseudo[..] == pseudo[..16] + pseudo[16..32] + pseudo[32..36] + pseudo[36..];
    assert pseudo[..16] == source && pseudo[16..32] == destination;
    assert pseudo[32..36] == bytes && pseudo[36..] == [0, 0, 0, next];
  }

  /** The common body of `net_tcp_checksum` and `net_icmpv6_checksum`. */
  method PseudoChecksum(source: Address, destination: Address, payload: seq<Byte>, next: nat) returns (c: nat)
    requires next < 256
    ensures c == Of(PseudoHeader(source, destination, |payload|, next) + payload)
  {
    hide PseudoHeader, WordSum;
    var pseudo := FillPseudo(source, destination, |payload|, next);
    ghost var header := PseudoHeader(source, destination, |payload|, next);
    var sum := AddWords(0, pseudo[..]);
    var total := AddWords(sum, payload);
    WordSumAppend(header, payload);
    CanonicalAdd(sum, WordSum(header), WordSum(payload));
    c := FoldChecksum(total);
  }

  /** `net_tcp_checksum`: over-long segments are refused with 0. */
  method TcpChecksum(source: Address, destination: Address, segment: seq<Byte>) returns (c: nat)
    ensures c == if |segment| > 0xffff then 0
                 else Of(PseudoHeader(source, destination, |segment|, NEXT_TCP) + segment)
  {
    if |segment| > 0xffff { return 0; }
    c := PseudoChecksum(source, destination, segment, NEXT_TCP);
  }

  /** `net_icmpv6_checksum`. */
  method Icmpv6Checksum(source: Address, destination: Address, payload: seq<Byte>) returns (c: nat)
    requires |payload| < WORD
    ensures c == Of(PseudoHeader(source, destination, |payload|, NEXT_ICMPV6) + payload)
  {
    c := PseudoChecksum(source, destination, payload, NEXT_ICMPV6);
  }

  /** A segment whose checksum field was zeroed, filled in and sent verifies at the receiver. */
  lemma SegmentVerifies(source: Address, destination: Address, segment: seq<Byte>, k: nat, next: nat)
    requires next < 256 && k % 2 == 0 && k + 2 <= |segment| && segment[k] == 0 && segment[k + 1] == 0
    ensures var header := PseudoHeader(source, destination, |segment|, next);
            Of(header + Stored(segment, k, Of(header + segment))) == 0
  {
    var header := PseudoHeader(source, destination, |segment|, next);
    var c := Of(header + segment);
    StoredVerifies(header + segment, 40 + k);
    assert Stored(header + segment, 40 + k, c) == header + Stored(segment, k, c);
  }
}
