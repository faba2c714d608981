/** The filter's hash generator: `CreateHashes(data, k)` turns a byte string
    into `k` C# `int` hashes by digesting `salt ++ data` for salt 0, 1, 2, ...
    (a byte that wraps after 255) and reading every digest as four big-endian
    32-bit words. The digest itself (MD5) is foreign code and is a parameter
    here: any function from bytes to 16 bytes. */
module Hashing {
  import opened CSharpInt

  type Byte = x: int | 0 <= x < 256

  /** A 16-byte digest, the output size of MD5. */
  type Digest = d: seq<Byte> | |d| == 16 witness [0, 0, 0, 0, 0, 0, 0, 0, 0, 0, 0, 0, 0, 0, 0, 0]

  type DigestFunction = seq<Byte> -> Digest

  /** `h << 8` on a C# `int`: the bits shifted past bit 31 are lost, and the
      low eight bits are zero, so a byte can be or-ed in without overflow. */
  function ShiftLeft8(h: Int32): (r: Int32)
    ensures r % 256 == 0 && r + 255 <= MaxInt32
    ensures r == Wrap(h * 256)
  {
    var u := (h % 0x100_0000) * 256;
    assert (h * 256 - u) % Modulus == 0 by {
      assert h * 256 - u == (h / 0x100_0000) * Modulus;
    }
    var r := if u <= MaxInt32 then u else u - Modulus;
    WrapUnique(h * 256, r);
    r
  }

  /** The integer whose base-256 digits, most significant first, are `bytes`. */
  function BigEndianValue(bytes: seq<Byte>): nat
  {
    if bytes == [] then 0 else 256 * BigEndianValue(bytes[..|bytes| - 1]) + bytes[|bytes| - 1]
  }

  /** The inner loop of CreateHashes: for each byte, `h <<= 8; h |= b & 0xFF`.
      The shift leaves the low eight bits zero, so or-ing in a byte adds it. */
  function PackBigEndian(bytes: seq<Byte>): Int32
  {
    if bytes == [] then 0 else ShiftLeft8(PackBigEndian(bytes[..|bytes| - 1])) + bytes[|bytes| - 1]
  }

  /** One packing step on the wrapped value is the wrapped value of one step. */
  lemma ShiftInByte(v: int, last: Byte)
    ensures ShiftLeft8(Wrap(v)) + last == Wrap(256 * v + last)
  {
    var w := Wrap(v);
    var q := (v - w) / Modulus;
    assert v - w == q * Modulus;
    var s := ShiftLeft8(w);
    var q' := (w * 256 - s) / Modulus;
    assert w * 256 - s == q' * Modulus;
    assert 256 * v + last - (s + last) == (256 * q + q') * Modulus;
    WrapUnique(256 * v + last, s + last);
  }

  /** Packing bytes with 32-bit shifts reads them as a big-endian number and
      keeps its low 32 bits, as a signed `int`. */
  lemma {:induction false} PackIsWrappedBigEndian(bytes: seq<Byte>)
    ensures PackBigEndian(bytes) == Wrap(BigEndianValue(bytes))
  {
    if bytes != [] {
      var init := bytes[..|bytes| - 1];
      PackIsWrappedBigEndian(init);
      ShiftInByte(BigEndianValue(init), bytes[|bytes| - 1]);
    }
  }

  /** Hash `4 * round + i` is word `i` of the digest of round `round`. */
  lemma HashInRound(digest: DigestFunction, data: seq<Byte>, round: nat, i: nat)
    requires i < 4
    ensures HashAt(digest, data, 4 * round + i)
            == PackBigEndian(digest([Salt(round)] + data)[4 * i .. 4 * i + 4])
  {
    assert (4 * round + i) / 4 == round;
    assert (4 * round + i) % 4 == i;
  }

  /** The salt byte of digest round `round`: a C# `byte` counter that wraps. */
  function Salt(round: nat): Byte
  {
    round % 256
  }

  /** Hash number `i` (from 0): word `i mod 4` of the digest of round `i div 4`. */
  function HashAt(digest: DigestFunction, data: seq<Byte>, i: nat): Int32
  {
    var d := digest([Salt(i / 4)] + data);
    var offset := 4 * (i % 4);
    PackBigEndian(d[offset .. offset + 4])
  }

  /** The first `count` hashes of `data`. */
  function Hashes(digest: DigestFunction, data: seq<Byte>, count: nat): (hs: seq<Int32>)
    ensures |hs| == count
  {
    seq(count, i requires 0 <= i < count => HashAt(digest, data, i))
  }

  /** Entry `i` is the signed big-endian reading of bytes `4*(i mod 4)` to
      `4*(i mod 4)+3` of the digest of `[(i div 4) mod 256] ++ data`. */
  lemma HashAtIsBigEndianWord(digest: DigestFunction, data: seq<Byte>, i: nat)
    ensures var d, o := digest([(i / 4) % 256] + data), 4 * (i % 4);
            HashAt(digest, data, i)
            == Wrap(d[o] as int * 0x100_0000 + d[o + 1] as int * 0x1_0000 + d[o + 2] as int * 0x100 + d[o + 3] as int)
  {
    var d, o := digest([(i / 4) % 256] + data), 4 * (i % 4);
    var w := d[o .. o + 4];
    PackIsWrappedBigEndian(w);
    BigEndianValueOfFour(w);
  }

  lemma BigEndianValueOfFour(w: seq<Byte>)
    requires |w| == 4
    ensures BigEndianValue(w) == w[0] as int * 0x100_0000 + w[1] as int * 0x1_0000 + w[2] as int * 0x100 + w[3] as int
  {
    var w1, w2, w3 := w[..1], w[..2], w[..3];
    assert w1[..0] == [] && w2[..1] == w1 && w3[..2] == w2 && w[..3] == w3;
    assert BigEndianValue(w1) == w[0];
    assert BigEndianValue(w2) == 256 * (w[0] as int) + w[1];
    assert BigEndianValue(w3) == 256 * (256 * (w[0] as int) + w[1]) + w[2];
  }

  lemma HashesExtend(digest: DigestFunction, data: seq<Byte>, n: nat)
    ensures Hashes(digest, data, n + 1) == Hashes(digest, data, n) + [HashAt(digest, data, n)]
  {
  }

  /** Asking for fewer hashes gives a prefix of asking for more. */
  lemma HashesPrefix(digest: DigestFunction, data: seq<Byte>, a: nat, b: nat)
    requires a <= b
    ensures Hashes(digest, data, a) == Hashes(digest, data, b)[..a]
  {
  }

  /** The salt is a byte, so after 256 rounds (1024 hashes) the digests, and
      the hashes, repeat. */
  lemma HashesRepeatEvery1024(digest: DigestFunction, data: seq<Byte>, i: nat)
    ensures HashAt(digest, data, i + 1024) == HashAt(digest, data, i)
  {
    assert (i + 1024) / 4 == i / 4 + 256;
    assert (i + 1024) % 4 == i % 4;
  }

  /** The innermost loop of CreateHashes: shift the four bytes of word `i`
      of a digest into an `int`, most significant first. */
  method ReadWord(d: Digest, i: nat) returns (h: Int32)
    requires i < 4
    ensures h == PackBigEndian(d[4 * i .. 4 * i + 4])
  {
    h := 0;
    var j := i * 4;
    while j < i * 4 + 4
      invariant i * 4 <= j <= i * 4 + 4
      invariant h == PackBigEndian(d[i * 4 .. j])
    {
      assert d[i * 4 .. j + 1][..j - i * 4] == d[i * 4 .. j];
      h := ShiftLeft8(h) + d[j];
      j := j + 1;
    }
  }

  /** The middle loop of CreateHashes: the words of the digest `d` of round
      `round` are stored from index `start`, which is `4 * round`, on, until the digest or the
      array is used up; `k` is the index after the last word stored. */
  method ReadRound(digest: DigestFunction, data: seq<Byte>, ghost round: nat, d: Digest,
                   out: array<Int32>, start: nat)
    returns (k: nat)
    requires d == digest([Salt(round)] + data)
    requires start == 4 * round < out.Length
    requires forall j :: 0 <= j < start ==> out[j] == HashAt(digest, data, j)
    modifies out
    ensures k == if 4 * round + 4 <= out.Length then 4 * round + 4 else out.Length
    ensures forall j :: 0 <= j < k ==> out[j] == HashAt(digest, data, j)
    ensures forall j :: k <= j < out.Length ==> out[j] == old(out[j])
  {
    k := start;
    var i := 0;
    while i < |d| / 4 && k < out.Length
      invariant 0 <= i <= 4
      invariant k == 4 * round + i <= out.Length
      invariant forall j :: 0 <= j < k ==> out[j] == HashAt(digest, data, j)
      invariant forall j :: k <= j < out.Length ==> out[j] == old(out[j])
    {
      var h := ReadWord(d, i);
      HashInRound(digest, data, round, i);
      out[k] := h;
      k := k + 1;
      i := i + 1;
    }
  }

  /** `CreateHashes(data, hashes)`: a salted digest per round, each digest cut
      into 4-byte big-endian words, until `hashes` words are produced. */
  method CreateHashes(digest: DigestFunction, data: seq<Byte>, hashes: NatInt32) returns (result: seq<Int32>)
    ensures result == Hashes(digest, data, hashes)
  {
    var out := new Int32[hashes];
    var k := 0;
    var salt: Byte := 0;
    ghost var round := 0;
    while k < hashes
      invariant k == 4 * round || k == hashes
      invariant k <= hashes && salt == Salt(round)
      invariant forall j :: 0 <= j < k ==> out[j] == HashAt(digest, data, j)
      decreases hashes - k
    {
      var d := digest([salt] + data);
      salt := (salt + 1) % 256;
      k := ReadRound(digest, data, round, d, out, k);
      round := round + 1;
    }
    result := out[..];
    assert result == Hashes(digest, data, hashes);
  }

  /** `CreateHash(data)` is the first entry of `CreateHashes(data, 1)`: the
      first big-endian word of the digest of `[0] ++ data`. */
  method CreateHash(digest: DigestFunction, data: seq<Byte>) returns (h: Int32)
    ensures var d := digest([0] + data);
            h == Wrap(d[0] as int * 0x100_0000 + d[1] as int * 0x1_0000 + d[2] as int * 0x100 + d[3] as int)
  {
    var hashes := CreateHashes(digest, data, 1);
    h := hashes[0];
    HashAtIsBigEndianWord(digest, data, 0);
  }

  /** `CreateHash(val, charset)`: text is hashed through its encoding, so
      hashing a string and hashing its encoded bytes agree. */
  method CreateHashOfText(digest: DigestFunction, encode: string -> seq<Byte>, val: string) returns (h: Int32)
    ensures var d := digest([0] + encode(val));
            h == Wrap(d[0] as int * 0x100_0000 + d[1] as int * 0x1_0000 + d[2] as int * 0x100 + d[3] as int)
  {
    h := CreateHash(digest, encode(val));
  }
}
