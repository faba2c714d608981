/** The Bloom filter `BloomFilter<T>`: a bit vector of `Size` bits, `K` hash
    positions per element, and a running `Count` of additions. An element is
    added by setting the bit `Math.Abs(hash % Size)` for each of its `K`
    hashes, and reported present when all those bits are set. Elements reach
    the hash generator through their text as bytes (`ToString` and UTF-8),
    which is the parameter `toBytes`; the digest is the parameter `digest`. */
module Bloom {
  import opened CSharpInt
  import opened Hashing
  import opened BitArrayFunctions

  /** The exceptions the filter's operations can raise: DivideByZeroException
      from `hash % Size`, and ArgumentOutOfRangeException from `BitArray.Get`
      and `BitArray.Set` on an index outside the array. */
  datatype Error = DivideByZero | ArgumentOutOfRange

  datatype Result<T> = Ok(value: T) | Err(error: Error)

  /** The outcome of an operation that returns nothing when it succeeds. */
  datatype Outcome = Pass | Fail(error: Error)

  /** `Math.Abs(hash % size)` with C#'s truncating `%`: the absolute value of
      the hash reduced modulo the size, always a valid bit index. (Dafny's own
      `%` on a negative hash would give a different bit.) */
  function Index(hash: Int32, size: int): (i: nat)
    requires 0 < size <= MaxInt32
    ensures i == Abs(hash) % size
    ensures i < size
  {
    MathAbs(TruncRem(hash, size))
  }

  /** The bit index of every hash, in order. With no bits there is no index
      (the first `hash % 0` throws); the list is then empty. */
  function Indices(hashes: seq<Int32>, size: int): (ps: seq<nat>)
    requires 0 <= size <= MaxInt32
    ensures size > 0 ==> |ps| == |hashes|
    ensures InRange(ps, size)
  {
    if size == 0 then [] else seq(|hashes|, j requires 0 <= j < |hashes| => Index(hashes[j], size))
  }

  /** Every position is a valid index into `n` bits. */
  predicate InRange(ps: seq<nat>, n: nat)
  {
    forall j :: 0 <= j < |ps| ==> ps[j] < n
  }

  /** Every position is a valid index and its bit is set. */
  predicate AllSet(bits: seq<bool>, ps: seq<nat>)
  {
    forall j :: 0 <= j < |ps| ==> ps[j] < |bits| && bits[ps[j]]
  }

  /** The number of positions visited before the first one past `n` bits:
      where `BitArray.Set` would throw. */
  function FirstOutOfRange(ps: seq<nat>, n: nat): (f: nat)
    ensures f <= |ps|
    ensures InRange(ps[..f], n)
    ensures f < |ps| ==> ps[f] >= n
  {
    if ps == [] || ps[0] >= n then 0
    else
      var f := 1 + FirstOutOfRange(ps[1..], n);
      assert forall j :: 1 <= j < f ==> ps[..f][j] == ps[1..][..f - 1][j - 1];
      f
  }

  /** The first `i` positions are valid and the next one is not (or there is
      none): `i` is where the walk over `ps` stops. */
  lemma FirstOutOfRangeIs(ps: seq<nat>, n: nat, i: nat)
    requires i <= |ps| && InRange(ps[..i], n) && (i < |ps| ==> ps[i] >= n)
    ensures FirstOutOfRange(ps, n) == i
  {
    var f := FirstOutOfRange(ps, n);
    forall j | 0 <= j < i
      ensures ps[j] < n
    {
      assert ps[..i][j] == ps[j];
    }
    forall j | 0 <= j < f
      ensures ps[j] < n
    {
      assert ps[..f][j] == ps[j];
    }
  }

  /** `bits` with every position in `ps` set to true and nothing else changed. */
  function Inserted(bits: seq<bool>, ps: seq<nat>): (r: seq<bool>)
    ensures |r| == |bits|
  {
    seq(|bits|, j requires 0 <= j < |bits| => bits[j] || j in ps)
  }

  /** The bits after inserting each list of positions of `pss` in turn. */
  function InsertedEach(bits: seq<bool>, pss: seq<seq<nat>>): (r: seq<bool>)
    ensures |r| == |bits|
  {
    if pss == [] then bits else Inserted(InsertedEach(bits, pss[..|pss| - 1]), pss[|pss| - 1])
  }

  lemma InsertedEachSnoc(bits: seq<bool>, pss: seq<seq<nat>>, ps: seq<nat>)
    ensures InsertedEach(bits, pss + [ps]) == Inserted(InsertedEach(bits, pss), ps)
  {
    assert (pss + [ps])[..|pss|] == pss;
  }

  /** Every bit set in `earlier` is still set in `later`. */
  predicate Covers(later: seq<bool>, earlier: seq<bool>)
  {
    |later| == |earlier| && forall j :: 0 <= j < |earlier| && earlier[j] ==> later[j]
  }

  /** All bits false: a fresh or cleared filter. */
  function Cleared(n: nat): (bits: seq<bool>)
    ensures |bits| == n && forall j :: 0 <= j < n ==> !bits[j]
  {
    seq(n, j => false)
  }

  /** Inserting sets every valid position. */
  lemma InsertedSetsPositions(bits: seq<bool>, ps: seq<nat>)
    requires InRange(ps, |bits|)
    ensures AllSet(Inserted(bits, ps), ps)
  {
    var r := Inserted(bits, ps);
    forall j | 0 <= j < |ps|
      ensures r[ps[j]]
    {
      assert ps[j] in ps;
    }
  }

  /** Inserting changes only the inserted positions and clears no bit. */
  lemma InsertedChangesOnlyPositions(bits: seq<bool>, ps: seq<nat>)
    ensures Covers(Inserted(bits, ps), bits)
    ensures forall j :: 0 <= j < |bits| && j !in ps ==> Inserted(bits, ps)[j] == bits[j]
  {
  }

  /** Inserting one more valid position sets that one bit. */
  lemma InsertedSnoc(bits: seq<bool>, ps: seq<nat>, p: nat)
    requires p < |bits|
    ensures Inserted(bits, ps + [p]) == Inserted(bits, ps)[p := true]
  {
    assert forall j :: j in ps + [p] <==> j in ps || j == p;
  }

  /** Inserting no positions changes nothing. */
  lemma InsertedNothing(bits: seq<bool>)
    ensures Inserted(bits, []) == bits
  {
  }

  /** A sequence of insertions clears no bit. */
  lemma {:induction false} InsertedEachCovers(bits: seq<bool>, pss: seq<seq<nat>>)
    ensures Covers(InsertedEach(bits, pss), bits)
  {
    if pss != [] {
      var before := InsertedEach(bits, pss[..|pss| - 1]);
      InsertedEachCovers(bits, pss[..|pss| - 1]);
      InsertedChangesOnlyPositions(before, pss[|pss| - 1]);
    }
  }

  /** Inserting only a prefix of one more list of positions, as an addition
      that stops at an out-of-range position does, still clears no bit. */
  lemma InsertedPrefixCovers(bits: seq<bool>, pss: seq<seq<nat>>, ps: seq<nat>, stop: nat)
    requires stop <= |ps|
    ensures Covers(Inserted(InsertedEach(bits, pss), ps[..stop]), bits)
  {
    InsertedEachCovers(bits, pss);
    InsertedChangesOnlyPositions(InsertedEach(bits, pss), ps[..stop]);
  }

  /** Set bits stay set under later insertions, so positions found set stay set. */
  lemma AllSetPreserved(earlier: seq<bool>, later: seq<bool>, ps: seq<nat>)
    requires Covers(later, earlier) && AllSet(earlier, ps)
    ensures AllSet(later, ps)
  {
  }

  /** No false negatives: once an element's positions are inserted, they are
      all found set after any further insertions. */
  lemma NoFalseNegatives(bits: seq<bool>, ps: seq<nat>, later: seq<seq<nat>>)
    requires InRange(ps, |bits|)
    ensures AllSet(InsertedEach(Inserted(bits, ps), later), ps)
  {
    InsertedSetsPositions(bits, ps);
    InsertedEachCovers(Inserted(bits, ps), later);
  }

  /** After inserting each list of positions, every one of them is found set. */
  lemma {:induction false} InsertedEachSetsAll(bits: seq<bool>, pss: seq<seq<nat>>)
    requires forall i :: 0 <= i < |pss| ==> InRange(pss[i], |bits|)
    ensures forall i :: 0 <= i < |pss| ==> AllSet(InsertedEach(bits, pss), pss[i])
  {
    if pss != [] {
      var init, last := pss[..|pss| - 1], pss[|pss| - 1];
      var before := InsertedEach(bits, init);
      InsertedEachSetsAll(bits, init);
      InsertedChangesOnlyPositions(before, last);
      InsertedSetsPositions(before, last);
      forall i | 0 <= i < |pss|
        ensures AllSet(InsertedEach(bits, pss), pss[i])
      {
        if i < |init| {
          assert pss[i] == init[i];
          AllSetPreserved(before, InsertedEach(bits, pss), init[i]);
        }
      }
    }
  }

  /** A cleared filter finds no element that has at least one position. */
  lemma ClearedFindsNothing(n: nat, ps: seq<nat>)
    requires ps != []
    ensures !AllSet(Cleared(n), ps)
  {
    var bits := Cleared(n);
    assert ps[0] >= |bits| || !bits[ps[0]];
  }

  /** A `BloomFilter<T>`. `Size`, `K` and `ExpectedNumberOfElements` are fixed
      once constructed, and so is the `BitArray` object `BitSet`, whose bits the
      operations update in place; `Count` is incremented by every addition. */
  class BloomFilter<T> {
    const Size: NatInt32
    const ExpectedNumberOfElements: Int32
    const K: NatInt32
    var Count: Int32
    const BitSet: array<bool>
    /** The digest the hash generator uses (MD5 in the library). */
    const digest: DigestFunction
    /** An element's bytes: the UTF-8 encoding of its `ToString()`. */
    const toBytes: T -> seq<Byte>

    /** The bit array has `Size` bits, as every filter built with a size
        has; the constructor that takes caller-supplied bits does not check it. */
    predicate Valid()
    {
      BitSet.Length == Size
    }

    /** `hash % Size` can be computed: there is a bit, or there is no hash. */
    predicate Indexable()
    {
      Size > 0 || K == 0
    }

    /** `BloomFilter(c, n, k)` with its size `ceil(c * n)` already computed:
        all bits clear, no elements counted. */
    constructor (size: NatInt32, n: Int32, k: NatInt32, digest: DigestFunction, toBytes: T -> seq<Byte>)
      ensures Size == size && ExpectedNumberOfElements == n && K == k && Count == 0
      ensures this.digest == digest && this.toBytes == toBytes
      ensures fresh(BitSet) && Valid() && BitSet[..] == Cleared(size)
    {
      Size := size;
      ExpectedNumberOfElements := n;
      K := k;
      Count := 0;
      BitSet := new bool[size](j => false);
      this.digest := digest;
      this.toBytes := toBytes;
    }

    /** `BloomFilter(bitSetSize, n, actual, filterData)` with its size and `k`
        already computed: the filter takes the caller's bit array itself (not a
        copy) and the given count. */
    constructor WithBits(size: NatInt32, n: Int32, k: NatInt32, actual: Int32, filterData: array<bool>,
                         digest: DigestFunction, toBytes: T -> seq<Byte>)
      ensures Size == size && ExpectedNumberOfElements == n && K == k && Count == actual
      ensures this.digest == digest && this.toBytes == toBytes
      ensures BitSet == filterData
    {
      Size := size;
      ExpectedNumberOfElements := n;
      K := k;
      Count := actual;
      BitSet := filterData;
      this.digest := digest;
      this.toBytes := toBytes;
    }

    /** The bit positions `Add(bytes)` sets and `Contains(bytes)` tests, one
        per hash; none when there are no bits. */
    function Positions(bytes: seq<Byte>): (ps: seq<nat>)
      ensures Indexable() ==> |ps| == K
      ensures InRange(ps, Size)
    {
      Indices(Hashes(digest, bytes, K), Size)
    }

    /** The positions of each element of `c`, in order. */
    function PositionsOfEach(c: seq<T>): (pss: seq<seq<nat>>)
      ensures |pss| == |c|
      ensures forall i :: 0 <= i < |c| ==> pss[i] == Positions(toBytes(c[i]))
    {
      if c == [] then [] else PositionsOfEach(c[..|c| - 1]) + [Positions(toBytes(c[|c| - 1]))]
    }

    /** The loop of `Add(bytes)`: sets the bit of each hash in turn. The first
        `hash % Size` throws DivideByZero when there are no bits; a position
        past the end of `BitSet` throws ArgumentOutOfRange, with the earlier
        positions already set. */
    method SetHashBits(hashes: seq<Int32>) returns (outcome: Outcome)
      modifies BitSet
      ensures outcome == Fail(DivideByZero) <==> Size == 0 && hashes != []
      ensures outcome == Fail(DivideByZero) ==> BitSet[..] == old(BitSet[..])
      ensures outcome != Fail(DivideByZero) ==> (outcome == Pass <==> InRange(Indices(hashes, Size), BitSet.Length))
      ensures outcome == Pass ==> BitSet[..] == Inserted(old(BitSet[..]), Indices(hashes, Size))
      ensures outcome == Fail(ArgumentOutOfRange) ==>
                var ps := Indices(hashes, Size);
                var stop := FirstOutOfRange(ps, BitSet.Length);
                stop < |ps| && BitSet[..] == Inserted(old(BitSet[..]), ps[..stop])
    {
      ghost var ps := Indices(hashes, Size);
      ghost var n := BitSet.Length;
      var i := 0;
      while i < |hashes|
        invariant 0 <= i <= |hashes|
        invariant Size == 0 ==> i == 0
        invariant i <= |ps| && InRange(ps[..i], n)
        invariant BitSet[..] == Inserted(old(BitSet[..]), ps[..i])
      {
        if Size == 0 {
          InsertedNothing(old(BitSet[..]));
          return Fail(DivideByZero);
        }
        var index := Index(hashes[i], Size);
        assert ps[i] == index;
        if index >= BitSet.Length {
          FirstOutOfRangeIs(ps, n, i);
          assert !InRange(ps, n);
          return Fail(ArgumentOutOfRange);
        }
        assert ps[..i + 1] == ps[..i] + [index];
        InsertedSnoc(old(BitSet[..]), ps[..i], index);
        BitSet[index] := true;
        i := i + 1;
      }
      assert ps[..i] == ps;
      outcome := Pass;
    }

    /** `Add(bytes)`: sets the bit of each of the `K` hashes of the bytes, then
        counts the element; an exception leaves `Count` as it was. */
    method AddBytes(bytes: seq<Byte>) returns (outcome: Outcome)
      modifies this, BitSet
      ensures outcome == Fail(DivideByZero) <==> !Indexable()
      ensures outcome == Fail(DivideByZero) ==> BitSet[..] == old(BitSet[..])
      ensures Indexable() ==> (outcome == Pass <==> InRange(Positions(bytes), BitSet.Length))
      ensures outcome == Pass ==> BitSet[..] == Inserted(old(BitSet[..]), Positions(bytes))
      ensures outcome == Fail(ArgumentOutOfRange) ==>
                var ps := Positions(bytes);
                var stop := FirstOutOfRange(ps, BitSet.Length);
                stop < |ps| && BitSet[..] == Inserted(old(BitSet[..]), ps[..stop])
      ensures outcome == Pass ==> Count == Increment(old(Count))
      ensures outcome != Pass ==> Count == old(Count)
      ensures Valid() && Indexable() ==> outcome == Pass
    {
      var hashes := CreateHashes(digest, bytes, K);
      outcome := SetHashBits(hashes);
      if outcome == Pass {
        Count := Increment(Count);
      }
    }

    /** `Add(element)`: adds the element's bytes. */
    method Add(element: T) returns (outcome: Outcome)
      modifies this, BitSet
      ensures outcome == Fail(DivideByZero) <==> !Indexable()
      ensures outcome == Fail(DivideByZero) ==> BitSet[..] == old(BitSet[..])
      ensures Indexable() ==> (outcome == Pass <==> InRange(Positions(toBytes(element)), BitSet.Length))
      ensures outcome == Pass ==> BitSet[..] == Inserted(old(BitSet[..]), Positions(toBytes(element)))
      ensures outcome == Fail(ArgumentOutOfRange) ==>
                var ps := Positions(toBytes(element));
                var stop := FirstOutOfRange(ps, BitSet.Length);
                stop < |ps| && BitSet[..] == Inserted(old(BitSet[..]), ps[..stop])
      ensures outcome == Pass ==> Count == Increment(old(Count))
      ensures outcome != Pass ==> Count == old(Count)
      ensures Valid() && Indexable() ==> outcome == Pass
    {
      outcome := AddBytes(toBytes(element));
    }

    /** `AddAll(c)`: adds the elements in order; an exception stops it. */
    method AddAll(c: seq<T>) returns (outcome: Outcome)
      modifies this, BitSet
      ensures outcome == Fail(DivideByZero) <==> !Indexable() && c != []
      ensures !Indexable() ==> BitSet[..] == old(BitSet[..]) && Count == old(Count)
      ensures outcome == Pass ==>
                BitSet[..] == InsertedEach(old(BitSet[..]), PositionsOfEach(c))
                && Count == Increments(old(Count), |c|)
      ensures Covers(BitSet[..], old(BitSet[..]))
      ensures Valid() && Indexable() ==> outcome == Pass
    {
      ghost var bits0 := BitSet[..];
      var i := 0;
      while i < |c|
        invariant 0 <= i <= |c|
        invariant !Indexable() ==> i == 0
        invariant BitSet[..] == InsertedEach(bits0, PositionsOfEach(c[..i]))
        invariant Count == Increments(old(Count), i)
      {
        ghost var count := Count;
        ghost var ps := Positions(toBytes(c[i]));
        ghost var pss := PositionsOfEach(c[..i]);
        var o := Add(c[i]);
        if o.Fail? {
          if o.error == ArgumentOutOfRange {
            InsertedPrefixCovers(bits0, pss, ps, FirstOutOfRange(ps, BitSet.Length));
          } else {
            InsertedEachCovers(bits0, pss);
          }
          return o;
        }
        assert Increments(old(Count), i + 1) == Increment(count);
        assert c[..i + 1][..i] == c[..i];
        InsertedEachSnoc(bits0, pss, ps);
        i := i + 1;
      }
      assert c[..i] == c;
      InsertedEachCovers(bits0, PositionsOfEach(c));
      outcome := Pass;
    }

    /** `Contains(bytes)`: true when the bit of every hash is set, false at
        the first clear one. With no bits and some hashes it throws
        DivideByZero; a position past the end of `BitSet` throws. */
    method ContainsBytes(bytes: seq<Byte>) returns (r: Result<bool>)
      ensures r == Err(DivideByZero) <==> !Indexable()
      ensures r.Ok? ==> (r.value <==> AllSet(BitSet[..], Positions(bytes)))
      ensures Indexable() && InRange(Positions(bytes), BitSet.Length) ==> r.Ok?
      ensures Valid() && Indexable() ==> r == Ok(AllSet(BitSet[..], Positions(bytes)))
    {
      var hashes := CreateHashes(digest, bytes, K);
      ghost var ps := Indices(hashes, Size);
      var i := 0;
      while i < |hashes|
        invariant 0 <= i <= |hashes|
        invariant Size == 0 ==> i == 0
        invariant i <= |ps| && AllSet(BitSet[..], ps[..i])
      {
        if Size == 0 {
          return Err(DivideByZero);
        }
        var index := Index(hashes[i], Size);
        assert ps[i] == index;
        if index >= BitSet.Length {
          return Err(ArgumentOutOfRange);
        }
        if !BitSet[index] {
          return Ok(false);
        }
        assert ps[..i + 1] == ps[..i] + [index];
        i := i + 1;
      }
      assert ps[..i] == ps;
      r := Ok(true);
    }

    /** `Contains(element)`: tests the element's bytes. */
    method Contains(element: T) returns (r: Result<bool>)
      ensures r == Err(DivideByZero) <==> !Indexable()
      ensures r.Ok? ==> (r.value <==> AllSet(BitSet[..], Positions(toBytes(element))))
      ensures Indexable() && InRange(Positions(toBytes(element)), BitSet.Length) ==> r.Ok?
      ensures Valid() && Indexable() ==> r == Ok(AllSet(BitSet[..], Positions(toBytes(element))))
    {
      r := ContainsBytes(toBytes(element));
    }

    /** `ContainsAll(c)`: true when every element is contained, false at the
        first that is not; an exception stops it. */
    method ContainsAll(c: seq<T>) returns (r: Result<bool>)
      ensures r == Err(DivideByZero) <==> !Indexable() && c != []
      ensures r.Ok? ==> (r.value <==> forall i :: 0 <= i < |c| ==> AllSet(BitSet[..], Positions(toBytes(c[i]))))
      ensures Valid() && Indexable() ==> r.Ok?
    {
      var i := 0;
      while i < |c|
        invariant 0 <= i <= |c|
        invariant !Indexable() ==> i == 0
        invariant forall j :: 0 <= j < i ==> AllSet(BitSet[..], Positions(toBytes(c[j])))
      {
        var found := Contains(c[i]);
        if found.Err? {
          return found;
        }
        if !found.value {
          return Ok(false);
        }
        i := i + 1;
      }
      r := Ok(true);
    }

    /** `Clear()`: every bit false and the count back to zero. */
    method Clear()
      modifies this, BitSet
      ensures BitSet[..] == Cleared(BitSet.Length) && Count == 0
    {
      forall j | 0 <= j < BitSet.Length {
        BitSet[j] := false;
      }
      Count := 0;
    }

    /** `GetBit(bit)`: the bit, or ArgumentOutOfRange outside the array. */
    function GetBit(bit: Int32): (r: Result<bool>)
      reads BitSet
      ensures r.Ok? <==> 0 <= bit < BitSet.Length
      ensures r.Ok? ==> r.value == BitSet[bit]
      ensures r.Err? ==> r.error == ArgumentOutOfRange
    {
      if 0 <= bit < BitSet.Length then Ok(BitSet[bit]) else Err(ArgumentOutOfRange)
    }

    /** `SetBit(bit, value)`: writes one bit, or throws ArgumentOutOfRange outside
        the array and changes nothing. */
    method SetBit(bit: Int32, value: bool) returns (outcome: Outcome)
      modifies BitSet
      ensures outcome == Pass <==> 0 <= bit < BitSet.Length
      ensures outcome == Pass ==> BitSet[..] == old(BitSet[..])[bit := value]
      ensures outcome != Pass ==> outcome == Fail(ArgumentOutOfRange) && BitSet[..] == old(BitSet[..])
    {
      if 0 <= bit < BitSet.Length {
        BitSet[bit] := value;
        outcome := Pass;
      } else {
        outcome := Fail(ArgumentOutOfRange);
      }
    }

    /** `Equals(other)`: the same expected size, `K` and `Size`, and either the
        same bit array object or bit arrays that compare equal. `Count` takes
        no part. */
    function Equals(other: BloomFilter<T>): (r: bool)
      reads BitSet, other.BitSet
      ensures r <==> ExpectedNumberOfElements == other.ExpectedNumberOfElements && K == other.K
                     && Size == other.Size && BitSet[..] == other.BitSet[..]
    {
      BitsEqualIsEquality(BitSet[..], other.BitSet[..]);
      ExpectedNumberOfElements == other.ExpectedNumberOfElements && K == other.K && Size == other.Size
      && (BitSet == other.BitSet || BitsEqual(BitSet[..], other.BitSet[..]))
    }

    /** `GetHashCode()`: the seed-7, multiplier-61 fold of `Size`, the expected
        number of elements, `K` and the bit array's structural hash. A
        `BitArray` holds at most `int.MaxValue` bits. */
    function GetHashCode(): (hash: Int32)
      reads BitSet
      requires BitSet.Length <= MaxInt32
      ensures hash == Combine(7, [Size, ExpectedNumberOfElements, K, StructuralHash(BitSet[..])])
    {
      CombineFour([Size, ExpectedNumberOfElements, K, StructuralHash(BitSet[..])]);
      Mix(Mix(Mix(Mix(7, Size), ExpectedNumberOfElements), K), StructuralHash(BitSet[..]))
    }
  }

  /** `Equals` is reflexive, symmetric and transitive. */
  lemma EqualsIsEquivalence<T>(f: BloomFilter<T>, g: BloomFilter<T>, h: BloomFilter<T>)
    ensures f.Equals(f)
    ensures f.Equals(g) ==> g.Equals(f)
    ensures f.Equals(g) && g.Equals(h) ==> f.Equals(h)
  {
  }

  /** Filters that are `Equals` have the same `GetHashCode`. */
  lemma EqualFiltersHaveEqualHashCodes<T>(f: BloomFilter<T>, g: BloomFilter<T>)
    requires f.BitSet.Length <= MaxInt32 && f.Equals(g)
    ensures g.BitSet.Length <= MaxInt32 && f.GetHashCode() == g.GetHashCode()
  {
  }

  /** No false negatives on a filter: after `Add(x)`, `Contains(x)` is true,
      and stays true across any later `AddAll`. */
  method AddedElementIsFound<T>(f: BloomFilter<T>, x: T, later: seq<T>) returns (found: Result<bool>)
    requires f.Valid() && f.Indexable()
    modifies f, f.BitSet
    ensures found == Ok(true)
  {
    var ps := f.Positions(f.toBytes(x));
    var added := f.Add(x);
    InsertedSetsPositions(old(f.BitSet[..]), ps);
    ghost var afterAdd := f.BitSet[..];
    var addedLater := f.AddAll(later);
    AllSetPreserved(afterAdd, f.BitSet[..], ps);
    found := f.Contains(x);
  }

  /** After `AddAll(c)`, `ContainsAll(c)` is true. */
  method AddedCollectionIsFound<T>(f: BloomFilter<T>, c: seq<T>) returns (found: Result<bool>)
    requires f.Valid() && f.Indexable()
    modifies f, f.BitSet
    ensures found == Ok(true)
  {
    ghost var bits := f.BitSet[..];
    var added := f.AddAll(c);
    var pss := f.PositionsOfEach(c);
    InsertedEachSetsAll(bits, pss);
    found := f.ContainsAll(c);
  }

  /** Adding the elements of `c` to a filter with no elements counts `|c|`
      of them, duplicates included. */
  method AddAllCounts<T>(f: BloomFilter<T>, c: seq<T>)
    requires f.Valid() && f.Indexable() && f.Count == 0 && |c| <= MaxInt32
    modifies f, f.BitSet
    ensures f.Count == |c|
  {
    var added := f.AddAll(c);
    IncrementsAdd(0, |c|);
  }

  /** `SetBit(i, v)` then `GetBit(i)` gives `v`; every other bit reads as before. */
  method SetThenGet<T>(f: BloomFilter<T>, i: Int32, v: bool) returns (read: Result<bool>)
    requires 0 <= i < f.BitSet.Length
    modifies f.BitSet
    ensures read == Ok(v)
    ensures forall j: Int32 :: j != i ==> f.GetBit(j) == old(f.GetBit(j))
  {
    var written := f.SetBit(i, v);
    read := f.GetBit(i);
  }

  /** After `Clear()`, every bit reads false and no element with at least one
      position is found. */
  method ClearedFilterFindsNothing<T>(f: BloomFilter<T>, x: T) returns (found: Result<bool>)
    requires f.Valid() && f.Size > 0 && f.K > 0
    modifies f, f.BitSet
    ensures found == Ok(false) && f.Count == 0
    ensures forall j: Int32 :: 0 <= j < f.Size ==> f.GetBit(j) == Ok(false)
  {
    f.Clear();
    ClearedFindsNothing(f.BitSet.Length, f.Positions(f.toBytes(x)));
    found := f.Contains(x);
  }

  /** Two equal filters with their own bit arrays and the same hashing stay
      equal when the same elements are added to both. */
  method SameAdditionsKeepEquality<T>(f: BloomFilter<T>, g: BloomFilter<T>, c: seq<T>)
    requires f.Equals(g) && f.BitSet != g.BitSet
    requires f.digest == g.digest && f.toBytes == g.toBytes
    requires f.Valid() && f.Indexable()
    modifies f, f.BitSet, g, g.BitSet
    ensures f.Equals(g)
  {
    var addedToF := f.AddAll(c);
    var addedToG := g.AddAll(c);
    assert f.PositionsOfEach(c) == g.PositionsOfEach(c);
  }

  /** Clearing two filters of the same shape makes them equal, whatever was
      added before, so their hash codes agree too. */
  method ClearedFiltersAreEqual<T>(f: BloomFilter<T>, g: BloomFilter<T>)
    requires f.Size == g.Size && f.K == g.K && f.ExpectedNumberOfElements == g.ExpectedNumberOfElements
    requires f.Valid() && g.Valid() && f.BitSet != g.BitSet
    modifies f, f.BitSet, g, g.BitSet
    ensures f.Equals(g) && f.GetHashCode() == g.GetHashCode()
  {
    f.Clear();
    g.Clear();
  }
}
