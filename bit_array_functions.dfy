/** Helpers over a C# `BitArray`, modelled as its sequence of bits: a content
    hash, a structural hash, and an equality test that compares the arrays
    32 bits at a time. Hash codes are built by the unchecked `int` fold
    `hash = 61 * hash + x` from the seed 7, which wraps around modulo 2^32. */
module BitArrayFunctions {
  import opened CSharpInt

  /** One unchecked step `hash = 61 * hash + x`. */
  function Mix(hash: Int32, x: Int32): Int32
  {
    Wrap(61 * hash + x)
  }

  /** The fold of `Mix` over `xs`, from `seed`. */
  function Combine(seed: Int32, xs: seq<Int32>): Int32
  {
    if xs == [] then seed else Mix(Combine(seed, xs[..|xs| - 1]), xs[|xs| - 1])
  }

  /** `(bool)b ? 1 : 0`. */
  function BitValue(b: bool): Int32 { if b then 1 else 0 }

  /** The values the content hash folds: one 0 or 1 per bit, in order. */
  function BitValues(bits: seq<bool>): (vs: seq<Int32>)
    ensures |vs| == |bits|
  {
    seq(|bits|, i requires 0 <= i < |bits| => BitValue(bits[i]))
  }

  /** One step of the fold. */
  lemma CombineStep(seed: Int32, xs: seq<Int32>, k: nat)
    requires k < |xs|
    ensures Combine(seed, xs[..k + 1]) == Mix(Combine(seed, xs[..k]), xs[k])
  {
    assert xs[..k + 1][..k] == xs[..k];
  }

  /** The hash `GetBitArrayHashCode` computes. */
  function ContentHash(bits: seq<bool>): Int32
  {
    Combine(7, BitValues(bits))
  }

  /** The hash `BitArrayHashCode` computes: IsSynchronized (false), Count,
      Length, IsReadOnly (false), then the content hash. A BitArray's length
      is an `int`, which bounds the sequence. */
  function StructuralHash(bits: seq<bool>): Int32
    requires |bits| <= MaxInt32
  {
    Combine(7, [0, |bits|, |bits|, 0, ContentHash(bits)])
  }

  /** `GetBitArrayHashCode(input)`: the fold over the bits in order. */
  method GetBitArrayHashCode(input: seq<bool>) returns (hash: Int32)
    ensures hash == ContentHash(input)
  {
    hash := 7;
    var i := 0;
    while i < |input|
      invariant 0 <= i <= |input|
      invariant hash == ContentHash(input[..i])
    {
      assert BitValues(input[..i + 1])[..i] == BitValues(input[..i]);
      hash := Mix(hash, BitValue(input[i]));
      i := i + 1;
    }
    assert input[..i] == input;
  }

  /** `BitArrayHashCode(input)`: structural fields first, content hash last. */
  method BitArrayHashCode(input: seq<bool>) returns (hash: Int32)
    requires |input| <= MaxInt32
    ensures hash == StructuralHash(input)
  {
    var content := GetBitArrayHashCode(input);
    hash := 7;
    hash := Mix(hash, 0);              // IsSynchronized
    hash := Mix(hash, |input|);        // Count
    hash := Mix(hash, |input|);        // Length
    hash := Mix(hash, 0);              // IsReadOnly
    hash := Mix(hash, content);
    CombineFive([0, |input|, |input|, 0, content]);
  }

  /** Bit-for-bit equality, the meaning of `BitArrayEquals`. */
  predicate BitsEqual(a: seq<bool>, b: seq<bool>)
  {
    |a| == |b| && forall i :: 0 <= i < |a| ==> a[i] == b[i]
  }

  lemma BitsEqualIsEquality(a: seq<bool>, b: seq<bool>)
    ensures BitsEqual(a, b) <==> a == b
  {
    if BitsEqual(a, b) {
      assert a == b;
    }
  }

  /** Arrays that compare equal have equal content and structural hashes. */
  lemma EqualArraysHashEqual(a: seq<bool>, b: seq<bool>)
    requires BitsEqual(a, b)
    ensures ContentHash(a) == ContentHash(b)
    ensures |a| <= MaxInt32 ==> StructuralHash(a) == StructuralHash(b)
  {
    BitsEqualIsEquality(a, b);
  }

  /** The fold over four values, step by step: the four fields `GetHashCode`
      combines. */
  lemma CombineFour(vs: seq<Int32>)
    requires |vs| == 4
    ensures Combine(7, vs) == Mix(Mix(Mix(Mix(7, vs[0]), vs[1]), vs[2]), vs[3])
  {
    assert vs[..0] == [];
    CombineStep(7, vs, 0);
    CombineStep(7, vs, 1);
    CombineStep(7, vs, 2);
    CombineStep(7, vs, 3);
    assert vs[..4] == vs;
  }

  /** The fold over five values, step by step. */
  lemma CombineFive(vs: seq<Int32>)
    requires |vs| == 5
    ensures Combine(7, vs) == Mix(Mix(Mix(Mix(Mix(7, vs[0]), vs[1]), vs[2]), vs[3]), vs[4])
  {
    CombineFour(vs[..4]);
    CombineStep(7, vs, 4);
    assert vs[..5] == vs;
  }

  /** The hash fixture's arrays of length 4: 1110 and 0110 hash differently. */
  lemma ContentHashFixture()
    ensures ContentHash([true, true, true, false]) == 97151650
    ensures ContentHash([false, true, true, false]) == 96924669
  {
    assert BitValues([true, true, true, false]) == [1, 1, 1, 0];
    assert BitValues([false, true, true, false]) == [0, 1, 1, 0];
    CombineFour([1, 1, 1, 0]);
    CombineFour([0, 1, 1, 0]);
  }

  /** An all-false array of length 5 hashes to 7 * 61^5 = 5912174107,
      wrapped past 2^32 to 1617206811, unlike 1110 above. */
  lemma ContentHashAllFalseFive()
    ensures ContentHash([false, false, false, false, false]) == 1617206811
  {
    var vs: seq<Int32> := [0, 0, 0, 0, 0];
    assert BitValues([false, false, false, false, false]) == vs;
    CombineFive(vs);
  }

  /** `Math.Ceiling(n / 32)`: the number of 32-bit words that hold `n` bits. */
  function WordCount(n: nat): (w: nat)
    ensures 32 * w >= n && 32 * w < n + 32
  {
    (n + 31) / 32
  }

  /** A run of at most 32 bits as the word `BitArray.CopyTo` stores: bit `j`
      of the run is bit `j` of the word, counting from the least significant.
      The value is the word's unsigned bit pattern; two `int` words are equal
      exactly when their patterns are. */
  function PackBits(s: seq<bool>): nat
  {
    if s == [] then 0 else BitValue(s[0]) + 2 * PackBits(s[1..])
  }

  /** Runs of the same length are packed to the same word only if they are equal. */
  lemma {:induction false} PackBitsInjective(s: seq<bool>, t: seq<bool>)
    requires |s| == |t| && PackBits(s) == PackBits(t)
    ensures s == t
  {
    if s != [] {
      var a, b := BitValue(s[0]), BitValue(t[0]);
      var restS, restT := PackBits(s[1..]), PackBits(t[1..]);
      assert a + 2 * restS == b + 2 * restT;
      assert a == b && restS == restT;
      PackBitsInjective(s[1..], t[1..]);
      assert s == [s[0]] + s[1..] && t == [t[0]] + t[1..];
    }
  }

  /** The end of word `w`: the last word is padded, not read past the array. */
  function WordEnd(n: nat, w: nat): (e: nat)
    requires w < WordCount(n)
    ensures 32 * w < e <= n && e <= 32 * w + 32
  {
    if 32 * w + 32 <= n then 32 * w + 32 else n
  }

  /** Word `w` of the `int[]` that `bits.CopyTo` fills. */
  function Word(bits: seq<bool>, w: nat): nat
    requires w < WordCount(|bits|)
  {
    PackBits(bits[32 * w .. WordEnd(|bits|, w)])
  }

  /** Arrays of one length whose words all agree have the same bits. */
  lemma WordsDetermineBits(a: seq<bool>, b: seq<bool>)
    requires |a| == |b|
    requires forall w :: 0 <= w < WordCount(|a|) ==> Word(a, w) == Word(b, w)
    ensures a == b
  {
    forall j | 0 <= j < |a|
      ensures a[j] == b[j]
    {
      var w := j / 32;
      var lo, hi := 32 * w, WordEnd(|a|, w);
      assert Word(a, w) == Word(b, w);
      PackBitsInjective(a[lo .. hi], b[lo .. hi]);
      assert a[j] == a[lo .. hi][j - lo];
    }
  }

  /** `BitArrayEquals(first, second)`: different lengths are unequal; otherwise
      both arrays are copied into `int` words and the words are compared until
      the first difference. */
  method BitArrayEquals(first: seq<bool>, second: seq<bool>) returns (equal: bool)
    ensures equal <==> BitsEqual(first, second)
  {
    if |first| != |second| {
      return false;
    }
    var n := WordCount(|first|);
    var firstInts := new nat[n](w requires 0 <= w < n => Word(first, w));
    var secondInts := new nat[n](w requires 0 <= w < n => Word(second, w));
    var areDifferent := false;
    var i := 0;
    while i < firstInts.Length && !areDifferent
      invariant 0 <= i <= n
      invariant forall w :: 0 <= w < n ==> firstInts[w] == Word(first, w) && secondInts[w] == Word(second, w)
      invariant !areDifferent <==> forall w :: 0 <= w < i ==> firstInts[w] == secondInts[w]
    {
      areDifferent := firstInts[i] != secondInts[i];
      i := i + 1;
    }
    equal := !areDifferent;
    BitsEqualIsEquality(first, second);
    if equal {
      WordsDetermineBits(first, second);
    }
  }
}
