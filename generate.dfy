// generate_random_array of Tread_pool.C: each raw value drawn from the
// random source is mapped into [MIN_VAL, MAX_VAL]. The random source itself
// is a parameter (a sequence of its non-negative results).

module RandomArray {

  /** Left end of the generated range. */
  const MIN_VAL: int := 10000
  /** Right end of the generated range. */
  const MAX_VAL: int := 100000

  /** MIN_VAL + rand_num % (MAX_VAL - MIN_VAL + 1). For rand_num >= 0 the
      remainder of C++ and of Dafny coincide. */
  function ValueFromRand(randNum: int): (v: int)
    requires randNum >= 0
    ensures MIN_VAL <= v <= MAX_VAL
    ensures (v - MIN_VAL) % (MAX_VAL - MIN_VAL + 1) == randNum % (MAX_VAL - MIN_VAL + 1)
  {
    MIN_VAL + randNum % (MAX_VAL - MIN_VAL + 1)
  }

  /** Every value of the range is produced by some raw value. */
  lemma EveryValueReachable(v: int)
    requires MIN_VAL <= v <= MAX_VAL
    ensures ValueFromRand(v - MIN_VAL) == v
  {
  }

  /** The fill loop: element i is the mapped i-th raw value. */
  method GenerateRandomArray(size: nat, rands: seq<int>) returns (arr: array<int>)
    requires |rands| == size
    requires forall i :: 0 <= i < size ==> rands[i] >= 0
    ensures fresh(arr) && arr.Length == size
    ensures forall i :: 0 <= i < size ==> arr[i] == ValueFromRand(rands[i])
    ensures forall i :: 0 <= i < size ==> MIN_VAL <= arr[i] <= MAX_VAL
  {
    arr := new int[size];
    var i := 0;
    while i < size
      invariant i <= size
      invariant forall j :: 0 <= j < i ==> arr[j] == ValueFromRand(rands[j])
    {
      arr[i] := ValueFromRand(rands[i]);
      i := i + 1;
    }
  }
}
