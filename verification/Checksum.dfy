/** The Internet checksum (section 1 of RFC 1071) as net.c and tcp.c compute it. */
module Checksum {
  import opened Bytes

  /** Longest buffer whose sum of words stays within 32 bits. */
  const MAX_LENGTH := 0x2_0000

  /** The little-endian 16-bit words of s added up; an odd last byte counts as a word. */
  function WordSum(s: seq<byte>): (n: nat)
    ensures n <= 0xFFFF * ((|s| + 1) / 2)
    decreases |s|
  {
    if |s| == 0 then 0
    else if |s| % 2 == 1 then
      var b: int := s[|s| - 1];
      WordSum(s[..|s| - 1]) + b
    else
      var lo: int, hi: int := s[|s| - 2], s[|s| - 1];
      WordSum(s[..|s| - 2]) + lo + 0x100 * hi
  }

  /** Carries added back until the sum fits in 16 bits. */
  function Fold(n: nat): (r: nat)
    ensures r <= 0xFFFF
    decreases n
  {
    if n < 0x1_0000 then n else Fold(n % 0x1_0000 + n / 0x1_0000)
  }

  function Sum16(s: seq<byte>): u16 {
    0xFFFF - Fold(WordSum(s))
  }

  /** Folding is the remainder modulo 0xFFFF, with 0xFFFF for the non-zero multiples. */
  lemma {:induction false} FoldIs(n: nat)
    ensures Fold(n) == if n == 0 then 0 else (n - 1) % 0xFFFF + 1
  {
    if n >= 0x1_0000 {
      var m := n % 0x1_0000 + n / 0x1_0000;
      FoldIs(m);
      var k := n / 0x1_0000;
      assert n == m + 0xFFFF * k;
      Multiples(m - 1, k);
    }
  }

  lemma {:induction false} Multiples(a: nat, k: nat)
    ensures (a + 0xFFFF * k) % 0xFFFF == a % 0xFFFF
  {
    if k > 0 {
      Multiples(a, k - 1);
      assert a + 0xFFFF * k == (a + 0xFFFF * (k - 1)) + 0xFFFF;
    }
  }

  // ------------------------------------------------- sums of parts

  lemma Parity(a: nat, b: nat)
    requires a % 2 == 0
    ensures (a + b) % 2 == b % 2
  {
    var h := a / 2;
    assert a + b == 2 * (h + b / 2) + b % 2;
  }

  /** An odd last byte counts as a word of its own. */
  lemma {:induction false} LastByte(s: seq<byte>, b: byte)
    requires |s| % 2 == 0
    ensures var n: int := b; WordSum(s + [b]) == WordSum(s) + n
  {
    var u := s + [b];
    assert |u| % 2 == 1 && u[..|u| - 1] == s;
  }

  lemma {:induction false} LastWord(s: seq<byte>, lo: byte, hi: byte)
    requires |s| % 2 == 0
    ensures var l: int, h: int := lo, hi; WordSum(s + [lo, hi]) == WordSum(s) + l + 0x100 * h
  {
    var u := s + [lo, hi];
    assert |u| % 2 == 0 && u[..|u| - 2] == s;
  }

  lemma {:induction false} OneByteMore(s: seq<byte>, t: seq<byte>, b: byte)
    requires |s| % 2 == 0 && |t| % 2 == 0 && WordSum(s + t) == WordSum(s) + WordSum(t)
    ensures WordSum(s + (t + [b])) == WordSum(s) + WordSum(t + [b])
  {
    hide WordSum;
    Parity(|s|, |t|);
    assert s + (t + [b]) == (s + t) + [b];
    LastByte(s + t, b);
    LastByte(t, b);
  }

  lemma {:induction false} OneWordMore(s: seq<byte>, t: seq<byte>, lo: byte, hi: byte)
    requires |s| % 2 == 0 && |t| % 2 == 0 && WordSum(s + t) == WordSum(s) + WordSum(t)
    ensures WordSum(s + (t + [lo, hi])) == WordSum(s) + WordSum(t + [lo, hi])
  {
    hide WordSum;
    Parity(|s|, |t|);
    assert s + (t + [lo, hi]) == (s + t) + [lo, hi];
    LastWord(s + t, lo, hi);
    LastWord(t, lo, hi);
  }

  lemma NoBytes()
    ensures WordSum([]) == 0
  {}

  lemma {:induction false} SumOfParts(s: seq<byte>, t: seq<byte>)
    requires |s| % 2 == 0
    ensures WordSum(s + t) == WordSum(s) + WordSum(t)
    decreases |t|
  {
    hide WordSum;
    if |t| == 0 {
      NoBytes();
      assert t == [] && s + t == s;
    } else if |t| % 2 == 1 {
      var r := t[..|t| - 1];
      assert t == r + [t[|t| - 1]];
      SumOfParts(s, r);
      OneByteMore(s, r, t[|t| - 1]);
    } else {
      var r := t[..|t| - 2];
      assert t == r + [t[|t| - 2], t[|t| - 1]];
      SumOfParts(s, r);
      OneWordMore(s, r, t[|t| - 2], t[|t| - 1]);
    }
  }

  /** The buffer with the 16-bit field at o set to c. */
  function WithField(s: seq<byte>, o: nat, c: u16): (r: seq<byte>)
    requires o + 2 <= |s|
    ensures |r| == |s|
  {
    s[o := c % 0x100][o + 1 := c / 0x100]
  }

  function Field(s: seq<byte>, o: nat): u16
    requires o + 2 <= |s|
  {
    var lo: int, hi: int := s[o], s[o + 1];
    lo + 0x100 * hi
  }

  /** An aligned field adds its value to the sum. */
  lemma FieldAdds(s: seq<byte>, o: nat, c: u16)
    requires o % 2 == 0 && o + 2 <= |s|
    ensures WordSum(WithField(s, o, c)) == WordSum(WithField(s, o, 0)) + c
  {
    var a, z := WithField(s, o, c), WithField(s, o, 0);
    assert a == (s[..o] + [c % 0x100, c / 0x100]) + s[o + 2..];
    assert z == (s[..o] + [0, 0]) + s[o + 2..];
    SumOfParts(s[..o] + [c % 0x100, c / 0x100], s[o + 2..]);
    SumOfParts(s[..o] + [0, 0], s[o + 2..]);
    SumOfParts(s[..o], [c % 0x100, c / 0x100]);
    SumOfParts(s[..o], [0, 0]);
  }

  // ------------------------------------------------- checksums that check

  /** A checksum of 0 means that the words add up to a non-zero multiple of 0xFFFF. */
  lemma ZeroIff(s: seq<byte>)
    ensures Sum16(s) == 0 <==> WordSum(s) > 0 && WordSum(s) % 0xFFFF == 0
  {
    hide WordSum, Fold;
    var n := WordSum(s);
    FoldIs(n);
    if n > 0 {
      var q, r := (n - 1) / 0xFFFF, (n - 1) % 0xFFFF;
      assert n == r + 1 + 0xFFFF * q;
      Multiples(r + 1, q);
    }
  }

  /** When a further word completes a sum to a non-zero multiple of 0xFFFF. */
  lemma Completes(n: nat, c: u16)
    ensures n + c > 0 && (n + c) % 0xFFFF == 0 <==> c == 0xFFFF - Fold(n) || (c == 0xFFFF && Fold(n) == 0xFFFF)
  {
    FoldIs(n);
    if n > 0 {
      var q, r := (n - 1) / 0xFFFF, (n - 1) % 0xFFFF;
      assert n + c == (r + 1 + c) + 0xFFFF * q;
      Multiples(r + 1 + c, q);
    }
  }

  /** Storing the checksum of a buffer in its own zeroed field makes the checksum of the whole 0. */
  lemma StoredChecks(s: seq<byte>, o: nat)
    requires o % 2 == 0 && o + 2 <= |s|
    ensures Sum16(WithField(s, o, Sum16(WithField(s, o, 0)))) == 0
  {
    var c := Sum16(WithField(s, o, 0));
    FieldAdds(s, o, c);
    Completes(WordSum(WithField(s, o, 0)), c);
    ZeroIff(WithField(s, o, c));
  }

  lemma FieldBack(s: seq<byte>, o: nat)
    requires o + 2 <= |s|
    ensures WithField(s, o, Field(s, o)) == s
  {}

  /** Comparing the field with the checksum taken over a zeroed field is the same test as asking for a
      checksum of 0, but for the field 0xFFFF where 0 was due. */
  lemma FieldMatchesIff(s: seq<byte>, o: nat)
    requires o % 2 == 0 && o + 2 <= |s|
    ensures Field(s, o) == Sum16(WithField(s, o, 0)) <==>
      Sum16(s) == 0 && !(Field(s, o) == 0xFFFF && Sum16(WithField(s, o, 0)) == 0)
  {
    var c := Field(s, o);
    FieldBack(s, o);
    FieldAdds(s, o, c);
    Completes(WordSum(WithField(s, o, 0)), c);
    ZeroIff(s);
  }

  const ICMP_CHECKSUM := 2

  /** Such a message exists: an echo reply of 8 bytes with identifier 0xFFFF and sequence number 0. */
  lemma AllOnesRejected()
    ensures var s: seq<byte> := [0, 0, 0xFF, 0xFF, 0xFF, 0xFF, 0, 0];
      && Sum16(s) == 0 && Field(s, ICMP_CHECKSUM) == 0xFFFF
      && Sum16(WithField(s, ICMP_CHECKSUM, 0)) == 0
  {
    var s: seq<byte> := [0, 0, 0xFF, 0xFF, 0xFF, 0xFF, 0, 0];
    var z := WithField(s, ICMP_CHECKSUM, 0);
    assert z == [0, 0, 0, 0] + [0xFF, 0xFF, 0, 0];
    SumOfParts([0, 0, 0, 0], [0xFF, 0xFF, 0, 0]);
    FourBytes(0, 0, 0, 0);
    FourBytes(0xFF, 0xFF, 0, 0);
    hide WordSum;
    FieldBack(s, ICMP_CHECKSUM);
    FieldAdds(s, ICMP_CHECKSUM, 0xFFFF);
    ZeroIff(s);
    ZeroIff(z);
  }

  lemma FourBytes(a: byte, b: byte, c: byte, d: byte)
    ensures var p: int, q: int, r: int, s: int := a, b, c, d; WordSum([a, b, c, d]) == p + 0x100 * q + r + 0x100 * s
  {
    assert [] + [a, b] == [a, b] && [a, b] + [c, d] == [a, b, c, d];
    LastWord([], a, b);
    LastWord([a, b], c, d);
  }

  // ------------------------------------------------- the computations

  /** The loop that adds the carries back. */
  method FoldCarries(n: u32) returns (r: u16)
    ensures r == 0xFFFF - Fold(n)
  {
    var sum: u32 := n;
    while sum / 0x1_0000 != 0
      invariant Fold(sum) == Fold(n)
      decreases sum
    {
      sum := sum % 0x1_0000 + sum / 0x1_0000;
    }
    r := 0xFFFF - sum;
  }

  /** net_checksum. */
  method NetChecksum(data: seq<byte>) returns (r: u16)
    requires |data| <= MAX_LENGTH
    ensures r == Sum16(data)
  {
    hide WordSum;
    NoBytes();
    var sum: u32 := 0;
    var i := 0;
    assert data[..0] == [];
    while i < |data| / 2
      invariant 0 <= i <= |data| / 2 && sum == WordSum(data[..2 * i])
    {
      var lo: int, hi: int := data[2 * i], data[2 * i + 1];
      assert data[..2 * (i + 1)] == data[..2 * i] + [data[2 * i], data[2 * i + 1]];
      LastWord(data[..2 * i], data[2 * i], data[2 * i + 1]);
      sum := sum + (lo + 0x100 * hi);
      i := i + 1;
    }
    if |data| % 2 == 1 {
      var last: int := data[|data| - 1];
      assert data == data[..2 * i] + [data[|data| - 1]];
      LastByte(data[..2 * i], data[|data| - 1]);
      sum := sum + last;
    } else {
      assert data[..2 * i] == data;
    }
    r := FoldCarries(sum);
  }

  /** The pseudo-header of section 3.1 of RFC 9293: addresses as stored, protocol 6, and the
      length in network order. */
  function Pseudo(src: u32, dst: u32, length: u16): seq<byte> {
    [ByteOf(src, 0), ByteOf(src, 1), ByteOf(src, 2), ByteOf(src, 3),
     ByteOf(dst, 0), ByteOf(dst, 1), ByteOf(dst, 2), ByteOf(dst, 3),
     0, 6, length / 0x100, length % 0x100]
  }

  /** Adding the words of s to a running sum, as both loops of tcp_checksum do. */
  method AddWords(sum0: u32, s: seq<byte>) returns (sum: u32)
    requires sum0 + WordSum(s) < 0x1_0000_0000
    ensures sum == sum0 + WordSum(s)
  {
    hide WordSum;
    NoBytes();
    sum := sum0;
    var i := 0;
    assert s[..0] == [];
    while |s| - i > 1
      invariant 0 <= i <= |s| && i % 2 == 0 && sum == sum0 + WordSum(s[..i])
    {
      var lo: int, hi: int := s[i], s[i + 1];
      assert s[..i + 2] == s[..i] + [s[i], s[i + 1]];
      LastWord(s[..i], s[i], s[i + 1]);
      Prefix(s, i + 2);
      sum := sum + (lo + 0x100 * hi);
      i := i + 2;
    }
    if |s| - i == 1 {
      var last: int := s[i];
      assert s == s[..i] + [s[i]];
      LastByte(s[..i], s[i]);
      sum := sum + last;
    } else {
      assert s[..i] == s;
    }
  }

  lemma {:induction false} Prefix(s: seq<byte>, n: nat)
    requires n <= |s| && n % 2 == 0
    ensures WordSum(s[..n]) <= WordSum(s)
  {
    hide WordSum;
    SumOfParts(s[..n], s[n..]);
    assert s[..n] + s[n..] == s;
  }

  /** The bytes of an address as stored. */
  function Quad(x: u32): (s: seq<byte>)
    ensures |s| == 4
  {
    [ByteOf(x, 0), ByteOf(x, 1), ByteOf(x, 2), ByteOf(x, 3)]
  }

  /** The words of an address are its halves, whatever its byte order. */
  lemma AddressWords(x: u32)
    ensures WordSum(Quad(x)) == x % 0x1_0000 + x / 0x1_0000
  {
    FourBytes(ByteOf(x, 0), ByteOf(x, 1), ByteOf(x, 2), ByteOf(x, 3));
    TwoDigits(x % 0x1_0000);
    TwoDigits(x / 0x1_0000);
    ByteHalves(x);
    hide WordSum, ByteOf;
  }

  lemma TwoDigits(x: u16)
    ensures x % 0x100 + 0x100 * (x / 0x100) == x
  {}

  lemma ByteHalves(x: u32)
    ensures ByteOf(x, 0) == x % 0x1_0000 % 0x100 && ByteOf(x, 1) == x % 0x1_0000 / 0x100
    ensures ByteOf(x, 2) == x / 0x1_0000 % 0x100 && ByteOf(x, 3) == x / 0x1_0000 / 0x100
  {
    LowerHalf(x / 0x1_0000, x % 0x1_0000);
  }

  lemma LowerHalf(q: nat, r: u16)
    ensures (0x1_0000 * q + r) % 0x100 == r % 0x100 && (0x1_0000 * q + r) / 0x100 % 0x100 == r / 0x100
  {
    var lo: int, hi: int := r % 0x100, r / 0x100;
    var n := 0x1_0000 * q + r;
    assert n == 0x100 * (0x100 * q + hi) + lo;
    assert n / 0x100 == 0x100 * q + hi;
  }

  /** The sum of the pseudo-header: the four halves of the addresses, protocol 6 in the high byte of
      its word, and the length with its bytes exchanged. */
  lemma PseudoWords(src: u32, dst: u32, length: u16)
    ensures WordSum(Pseudo(src, dst, length)) ==
      src % 0x1_0000 + src / 0x1_0000 + dst % 0x1_0000 + dst / 0x1_0000
      + 0x600 + 0x100 * (length % 0x100) + length / 0x100
  {
    hide WordSum, Pseudo, Quad;
    AddressWords(src);
    AddressWords(dst);
    FourBytes(0, 6, length / 0x100, length % 0x100);
    PseudoParts(src, dst, length);
    SumOfParts(Quad(src), Quad(dst) + [0, 6, length / 0x100, length % 0x100]);
    SumOfParts(Quad(dst), [0, 6, length / 0x100, length % 0x100]);
  }

  lemma PseudoParts(src: u32, dst: u32, length: u16)
    ensures Pseudo(src, dst, length) == Quad(src) + (Quad(dst) + [0, 6, length / 0x100, length % 0x100])
  {
    hide ByteOf;
  }

  /** tcp_checksum: the checksum of the pseudo-header followed by the segment. */
  method TcpChecksum(src: u32, dst: u32, segment: seq<byte>) returns (r: u16)
    requires |segment| <= 0xFFFF
    ensures r == Sum16(Pseudo(src, dst, |segment|) + segment)
    ensures r == 0xFFFF - Fold(
      src % 0x1_0000 + src / 0x1_0000 + dst % 0x1_0000 + dst / 0x1_0000
      + 0x600 + 0x100 * (|segment| % 0x100) + |segment| / 0x100 + WordSum(segment))
  {
    var pseudo := Pseudo(src, dst, |segment|);
    PseudoWords(src, dst, |segment|);
    SumOfParts(pseudo, segment);
    hide WordSum, Fold, Pseudo;
    var sum := AddWords(0, pseudo);
    sum := AddWords(sum, segment);
    r := FoldCarries(sum);
  }

  /** check_icmp_checksum on a message of at least 8 bytes: the field is zeroed for the sum and put back. */
  method CheckIcmp(icmp: array<byte>) returns (ok: bool)
    requires 8 <= icmp.Length <= MAX_LENGTH
    modifies icmp
    ensures icmp[..] == old(icmp[..])
    ensures ok <==>
      && Sum16(icmp[..]) == 0
      && !(Field(icmp[..], ICMP_CHECKSUM) == 0xFFFF && Sum16(WithField(icmp[..], ICMP_CHECKSUM, 0)) == 0)
  {
    ghost var s := icmp[..];
    var lo, hi := icmp[ICMP_CHECKSUM], icmp[ICMP_CHECKSUM + 1];
    icmp[ICMP_CHECKSUM], icmp[ICMP_CHECKSUM + 1] := 0, 0;
    assert icmp[..] == WithField(s, ICMP_CHECKSUM, 0);
    var due := NetChecksum(icmp[..]);
    icmp[ICMP_CHECKSUM], icmp[ICMP_CHECKSUM + 1] := lo, hi;
    assert icmp[..] == s;
    FieldMatchesIff(s, ICMP_CHECKSUM);
    var low: int, high: int := lo, hi;
    ok := low + 0x100 * high == due;
  }
}
