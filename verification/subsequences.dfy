/**
 * The recursive subsequence enumerator `getSubsequencesOfLength` of the
 * marker detector (dz5/main.cpp). It appends to an accumulator every
 * order-preserving subsequence of `vec` with `length` elements, exploring
 * "skip vec[idx]" before "take vec[idx]".
 *
 * Besides the enumerator itself the module gives an independent reference
 * description: the entries are exactly the selections `Pick(vec, m)` by the
 * inclusion masks `m` with `length` set bits, listed in increasing binary
 * order with index 0 as the most significant bit.
 */
module Enumeration {

  /** Binomial coefficient by Pascal's rule; zero for negative `k` and for `k > n`. */
  function Choose(n: nat, k: int): nat {
    if k < 0 then 0
    else if k == 0 then 1
    else if n == 0 then 0
    else Choose(n - 1, k - 1) + Choose(n - 1, k)
  }

  lemma {:induction false} ChooseAbove(n: nat, k: int)
    requires k > n
    ensures Choose(n, k) == 0
  {
    if n > 0 {
      ChooseAbove(n - 1, k - 1);
      ChooseAbove(n - 1, k);
    }
  }

  /**
   * One activation of `getSubsequencesOfLength(result, vec, length, idx, builder)`:
   * the accumulator `result` is passed in and the accumulator after the call is
   * returned. A full builder is emitted; an exhausted index emits nothing;
   * otherwise the skip branch runs first and the take branch continues from
   * the accumulator it left behind.
   */
  function Generate<T>(result: seq<seq<T>>, vec: seq<T>, length: int, idx: nat, builder: seq<T>)
    : seq<seq<T>>
    decreases |vec| - idx
  {
    if |builder| == length then result + [builder]
    else if idx >= |vec| then result
    else
      var skipped := Generate(result, vec, length, idx + 1, builder);
      Generate(skipped, vec, length, idx + 1, builder + [vec[idx]])
  }

  /**
   * An activation keeps the accumulator as a prefix, appends only entries
   * with `length` elements, and appends as many as there are ways to complete
   * the builder from the remaining elements.
   */
  lemma {:induction false} GenerateShape<T>(result: seq<seq<T>>, vec: seq<T>, length: int, idx: nat,
                                            builder: seq<T>)
    ensures var r := Generate(result, vec, length, idx, builder);
      && |result| <= |r| && r[..|result|] == result
      && (forall k :: |result| <= k < |r| ==> |r[k]| == length)
      && (idx <= |vec| && |builder| <= length ==>
            |r| == |result| + Choose(|vec| - idx, length - |builder|))
    decreases |vec| - idx
  {
    if |builder| != length && idx < |vec| {
      var skipped := Generate(result, vec, length, idx + 1, builder);
      GenerateShape(result, vec, length, idx + 1, builder);
      GenerateShape(skipped, vec, length, idx + 1, builder + [vec[idx]]);
      var r := Generate(skipped, vec, length, idx + 1, builder + [vec[idx]]);
      assert r[..|skipped|] == skipped;
      assert r[..|result|] == skipped[..|result|];
    }
  }

  /** The top-level call `getSubsequencesOfLength(out, vec, length)` on an empty `out`. */
  function Subsequences<T>(vec: seq<T>, length: int): (r: seq<seq<T>>)
    ensures length >= 0 ==> |r| == Choose(|vec|, length)
    ensures forall k :: 0 <= k < |r| ==> |r[k]| == length
    ensures length == 0 ==> r == [[]]
  {
    GenerateShape([], vec, length, 0, []);
    Generate([], vec, length, 0, [])
  }

  /** Asking for more elements than there are emits nothing. */
  lemma TooLongIsEmpty<T>(vec: seq<T>, length: int)
    requires length > |vec|
    ensures Subsequences(vec, length) == []
  {
    ChooseAbove(|vec|, length);
  }

  /** Whatever the accumulator held before the call is kept as a prefix; the call only appends. */
  lemma {:induction false} GenerateAppends<T>(result: seq<seq<T>>, vec: seq<T>, length: int, idx: nat,
                                              builder: seq<T>)
    ensures Generate(result, vec, length, idx, builder) == result + Generate([], vec, length, idx, builder)
    decreases |vec| - idx
  {
    if |builder| == length {
    } else if idx >= |vec| {
    } else {
      var taken := builder + [vec[idx]];
      var g0 := Generate([], vec, length, idx + 1, builder);
      var g1 := Generate([], vec, length, idx + 1, taken);
      calc {
        Generate(result, vec, length, idx, builder);
        Generate(Generate(result, vec, length, idx + 1, builder), vec, length, idx + 1, taken);
        { GenerateAppends(result, vec, length, idx + 1, builder); }
        Generate(result + g0, vec, length, idx + 1, taken);
        { GenerateAppends(result + g0, vec, length, idx + 1, taken); }
        (result + g0) + g1;
        result + (g0 + g1);
        { GenerateAppends(g0, vec, length, idx + 1, taken); }
        result + Generate(g0, vec, length, idx + 1, taken);
        result + Generate([], vec, length, idx, builder);
      }
    }
  }

  // ---------------------------------------------------------------------------
  // Reference description by inclusion masks
  // ---------------------------------------------------------------------------

  /** Every mask of `ms` with bit `b` put in front. */
  function Prepend(b: bool, ms: seq<seq<bool>>): seq<seq<bool>> {
    seq(|ms|, i requires 0 <= i < |ms| => [b] + ms[i])
  }

  function Pow2(n: nat): nat {
    if n == 0 then 1 else 2 * Pow2(n - 1)
  }

  /** All inclusion masks of length `n`, those with a clear first bit before those with it set. */
  function Masks(n: nat): (ms: seq<seq<bool>>)
    ensures |ms| == Pow2(n)
    ensures forall i :: 0 <= i < |ms| ==> |ms[i]| == n
  {
    if n == 0 then [[]] else Prepend(false, Masks(n - 1)) + Prepend(true, Masks(n - 1))
  }

  /** Number of set bits. */
  function Ones(m: seq<bool>): nat {
    if m == [] then 0 else (if m[0] then 1 else 0) + Ones(m[1..])
  }

  /** The elements of `v` whose mask bit is set, in order. */
  function Pick<T>(v: seq<T>, m: seq<bool>): (s: seq<T>)
    requires |m| == |v|
    ensures |s| == Ones(m)
  {
    if m == [] then [] else (if m[0] then [v[0]] else []) + Pick(v[1..], m[1..])
  }

  /** Whether `m` is a mask over `v` with exactly `k` set bits. */
  predicate Selects<T>(v: seq<T>, k: int, m: seq<bool>) {
    |m| == |v| && Ones(m) == k
  }

  /** `builder + Pick(v, m)` for every mask `m` of `ms` over `v` with exactly `k` set bits, in the order of `ms`. */
  function Chosen<T>(builder: seq<T>, v: seq<T>, k: int, ms: seq<seq<bool>>): seq<seq<T>> {
    if ms == [] then []
    else (if Selects(v, k, ms[0]) then [builder + Pick(v, ms[0])] else []) + Chosen(builder, v, k, ms[1..])
  }

  lemma {:induction false} ChosenConcat<T>(b: seq<T>, v: seq<T>, k: int, ms1: seq<seq<bool>>,
                                           ms2: seq<seq<bool>>)
    ensures Chosen(b, v, k, ms1 + ms2) == Chosen(b, v, k, ms1) + Chosen(b, v, k, ms2)
  {
    if ms1 == [] {
      assert ms1 + ms2 == ms2;
    } else {
      assert (ms1 + ms2)[1..] == ms1[1..] + ms2;
      ChosenConcat(b, v, k, ms1[1..], ms2);
    }
  }

  lemma {:induction false} ChosenSkip<T>(b: seq<T>, v: seq<T>, k: int, ms: seq<seq<bool>>)
    requires |v| > 0
    requires forall i :: 0 <= i < |ms| ==> |ms[i]| == |v| - 1
    ensures Chosen(b, v, k, Prepend(false, ms)) == Chosen(b, v[1..], k, ms)
  {
    if ms != [] {
      var p := Prepend(false, ms);
      assert p[1..] == Prepend(false, ms[1..]);
      assert p[0][1..] == ms[0];
      assert Ones(p[0]) == Ones(ms[0]);
      assert Pick(v, p[0]) == Pick(v[1..], ms[0]);
      ChosenSkip(b, v, k, ms[1..]);
    }
  }

  lemma {:induction false} ChosenTake<T>(b: seq<T>, v: seq<T>, k: int, ms: seq<seq<bool>>)
    requires |v| > 0
    requires forall i :: 0 <= i < |ms| ==> |ms[i]| == |v| - 1
    ensures Chosen(b, v, k, Prepend(true, ms)) == Chosen(b + [v[0]], v[1..], k - 1, ms)
  {
    if ms != [] {
      var p := Prepend(true, ms);
      assert p[1..] == Prepend(true, ms[1..]);
      assert p[0][1..] == ms[0];
      assert b + Pick(v, p[0]) == (b + [v[0]]) + Pick(v[1..], ms[0]);
      ChosenTake(b, v, k, ms[1..]);
    }
  }

  lemma {:induction false} ChosenNone<T>(b: seq<T>, v: seq<T>, k: int, ms: seq<seq<bool>>)
    requires forall i :: 0 <= i < |ms| ==> Ones(ms[i]) != k
    ensures Chosen(b, v, k, ms) == []
  {
    if ms != [] {
      ChosenNone(b, v, k, ms[1..]);
    }
  }

  /** The reference list splits on the first bit: masks skipping `v[0]`, then masks taking it. */
  lemma ChosenSplit<T>(b: seq<T>, v: seq<T>, k: int)
    requires |v| > 0
    ensures Chosen(b, v, k, Masks(|v|))
         == Chosen(b, v[1..], k, Masks(|v| - 1)) + Chosen(b + [v[0]], v[1..], k - 1, Masks(|v| - 1))
  {
    var m := Masks(|v| - 1);
    ChosenConcat(b, v, k, Prepend(false, m), Prepend(true, m));
    ChosenSkip(b, v, k, m);
    ChosenTake(b, v, k, m);
  }

  /** With nothing left to choose from, the only mask is empty; it selects nothing and has no set bits. */
  lemma ChosenEmptyMask<T>(b: seq<T>, v: seq<T>, k: int)
    requires |v| == 0
    ensures Chosen(b, v, k, Masks(|v|)) == if k == 0 then [b] else []
  {
    var e: seq<bool> := [];
    assert Masks(0) == [e];
    assert Ones(e) == 0 && Pick(v, e) == [] && b + [] == b;
    assert [e][1..] == [];
  }

  /** Exactly one mask, the all-clear one, selects nothing. */
  lemma {:induction false} ChosenZero<T>(b: seq<T>, v: seq<T>)
    ensures Chosen(b, v, 0, Masks(|v|)) == [b]
    decreases |v|
  {
    if |v| == 0 {
      ChosenEmptyMask(b, v, 0);
    } else {
      ChosenSplit(b, v, 0);
      ChosenZero(b, v[1..]);
      ChosenNone(b + [v[0]], v[1..], -1, Masks(|v| - 1));
    }
  }

  /**
   * The enumerator's output from any activation is the reference list: the
   * builder extended by each mask selection of the remaining elements that
   * completes it, masks taken in increasing binary order.
   */
  lemma GenerateByMasks<T>(vec: seq<T>, length: int, idx: nat, builder: seq<T>)
    requires idx <= |vec|
    ensures Generate([], vec, length, idx, builder)
         == Chosen(builder, vec[idx..], length - |builder|, Masks(|vec| - idx))
  {
    GenerateListed(vec, length, idx, builder);
  }

  /** The equation of `GenerateByMasks` for one activation. */
  ghost predicate ListedByMasks<T>(vec: seq<T>, length: int, idx: nat, builder: seq<T>) {
    && idx <= |vec|
    && Generate([], vec, length, idx, builder)
       == Chosen(builder, vec[idx..], length - |builder|, Masks(|vec| - idx))
  }

  lemma {:induction false} GenerateListed<T>(vec: seq<T>, length: int, idx: nat, builder: seq<T>)
    requires idx <= |vec|
    ensures ListedByMasks(vec, length, idx, builder)
    decreases |vec| - idx
  {
    if |builder| == length || idx == |vec| {
      GenerateByMasksBase(vec, length, idx, builder);
    } else {
      GenerateListed(vec, length, idx + 1, builder);
      GenerateListed(vec, length, idx + 1, builder + [vec[idx]]);
      GenerateByMasksStep(vec, length, idx, builder);
    }
  }

  /** The base cases of `GenerateByMasks`: a full builder, or no elements left. */
  lemma GenerateByMasksBase<T>(vec: seq<T>, length: int, idx: nat, builder: seq<T>)
    requires idx <= |vec|
    requires |builder| == length || idx == |vec|
    ensures ListedByMasks(vec, length, idx, builder)
  {
    if |builder| == length {
      ChosenZero(builder, vec[idx..]);
    } else {
      ChosenEmptyMask(builder, vec[idx..], length - |builder|);
    }
  }

  /** The inductive step of `GenerateByMasks`: the skip and take branches are the two halves of the mask list. */
  lemma GenerateByMasksStep<T>(vec: seq<T>, length: int, idx: nat, builder: seq<T>)
    requires |builder| != length && idx < |vec|
    requires ListedByMasks(vec, length, idx + 1, builder)
    requires ListedByMasks(vec, length, idx + 1, builder + [vec[idx]])
    ensures ListedByMasks(vec, length, idx, builder)
  {
    assert length - |builder + [vec[idx]]| == length - |builder| - 1;
    Split(vec, length, idx, builder);
    ChosenSplitAt(builder, vec, idx, length - |builder|);
  }

  /** `ChosenSplit` on the suffix of `vec` from `idx`. */
  lemma ChosenSplitAt<T>(b: seq<T>, vec: seq<T>, idx: nat, k: int)
    requires idx < |vec|
    ensures Chosen(b, vec[idx..], k, Masks(|vec| - idx))
         == Chosen(b, vec[idx + 1..], k, Masks(|vec| - (idx + 1)))
          + Chosen(b + [vec[idx]], vec[idx + 1..], k - 1, Masks(|vec| - (idx + 1)))
  {
    var v := vec[idx..];
    assert v[1..] == vec[idx + 1..] && v[0] == vec[idx] && |v| == |vec| - idx;
    ChosenSplit(b, v, k);
  }

  lemma SubsequencesByMasks<T>(vec: seq<T>, length: int)
    ensures Subsequences(vec, length) == Chosen([], vec, length, Masks(|vec|))
  {
    GenerateByMasks(vec, length, 0, []);
    assert vec[0..] == vec;
  }

  // ---------------------------------------------------------------------------
  // Consequences: which sequences are emitted, and in what order
  // ---------------------------------------------------------------------------

  lemma {:induction false} ChosenMembers<T>(b: seq<T>, v: seq<T>, k: int, ms: seq<seq<bool>>, e: seq<T>)
    ensures e in Chosen(b, v, k, ms) <==>
              exists i :: 0 <= i < |ms| && Selects(v, k, ms[i]) && e == b + Pick(v, ms[i])
  {
    if ms != [] {
      ChosenMembers(b, v, k, ms[1..], e);
      if e in Chosen(b, v, k, ms[1..]) {
        var i :| 0 <= i < |ms[1..]| && Selects(v, k, ms[1..][i]) && e == b + Pick(v, ms[1..][i]);
        assert ms[i + 1] == ms[1..][i];
      }
      forall i | 1 <= i < |ms| && Selects(v, k, ms[i]) && e == b + Pick(v, ms[i])
        ensures e in Chosen(b, v, k, ms[1..])
      {
        assert ms[1..][i - 1] == ms[i];
      }
    }
  }

  lemma PrependMember(b: bool, ms: seq<seq<bool>>, x: seq<bool>)
    requires x in ms
    ensures [b] + x in Prepend(b, ms)
  {
    var i :| 0 <= i < |ms| && ms[i] == x;
    assert Prepend(b, ms)[i] == [b] + x;
  }

  /** Every mask of length n occurs among `Masks(n)`. */
  lemma {:induction false} MaskListed(m: seq<bool>)
    ensures m in Masks(|m|)
  {
    if m != [] {
      var rest := Masks(|m| - 1);
      MaskListed(m[1..]);
      PrependMember(m[0], rest, m[1..]);
      assert m == [m[0]] + m[1..];
      assert Masks(|m|) == Prepend(false, rest) + Prepend(true, rest);
    }
  }

  /** Completeness: every selection by a mask with `length` set bits is emitted. */
  lemma MaskSelectionEmitted<T>(vec: seq<T>, length: int, m: seq<bool>)
    requires |m| == |vec| && Ones(m) == length
    ensures Pick(vec, m) in Subsequences(vec, length)
  {
    var ms := Masks(|vec|);
    SubsequencesByMasks(vec, length);
    ChosenMembers([], vec, length, ms, Pick(vec, m));
    MaskListed(m);
    var i :| 0 <= i < |ms| && ms[i] == m;
    assert Pick(vec, m) == [] + Pick(vec, ms[i]);
  }

  /** Soundness: every emitted entry is the selection by some mask with `length` set bits. */
  lemma EmittedIsMaskSelection<T>(vec: seq<T>, length: int, e: seq<T>) returns (m: seq<bool>)
    requires e in Subsequences(vec, length)
    ensures |m| == |vec| && Ones(m) == length && e == Pick(vec, m)
  {
    var ms := Masks(|vec|);
    SubsequencesByMasks(vec, length);
    ChosenMembers([], vec, length, ms, e);
    var i :| 0 <= i < |ms| && Selects(vec, length, ms[i]) && e == [] + Pick(vec, ms[i]);
    m := ms[i];
    assert [] + Pick(vec, m) == Pick(vec, m);
  }

  /**
   * `Subsequences(vec, length)` contains exactly the selections of `vec` by a
   * mask with `length` set bits: no more (soundness) and no fewer (completeness).
   */
  lemma SubsequencesAreMaskSelections<T>(vec: seq<T>, length: int, e: seq<T>)
    ensures e in Subsequences(vec, length) <==>
              exists m :: |m| == |vec| && Ones(m) == length && e == Pick(vec, m)
  {
    if e in Subsequences(vec, length) {
      var m := EmittedIsMaskSelection(vec, length, e);
    }
    forall m | |m| == |vec| && Ones(m) == length && e == Pick(vec, m)
      ensures e in Subsequences(vec, length)
    {
      MaskSelectionEmitted(vec, length, m);
    }
  }

  /** Indices of the set bits of `m`, in increasing order. */
  function Positions(m: seq<bool>): (ix: seq<int>)
    ensures |ix| == Ones(m)
  {
    if m == [] then []
    else
      var rest := Positions(m[1..]);
      (if m[0] then [0] else []) + seq(|rest|, i requires 0 <= i < |rest| => rest[i] + 1)
  }

  /** `e` consists of the elements of `vec` at the strictly increasing indices `ix`. */
  ghost predicate SelectsAt<T>(e: seq<T>, vec: seq<T>, ix: seq<int>) {
    && |ix| == |e|
    && (forall k :: 0 <= k < |ix| ==> 0 <= ix[k] < |vec| && e[k] == vec[ix[k]])
    && (forall k, l :: 0 <= k < l < |ix| ==> ix[k] < ix[l])
  }

  lemma ShiftedSelects<T>(v: seq<T>, tail: seq<T>, rest: seq<int>, shifted: seq<int>)
    requires |v| > 0
    requires SelectsAt(tail, v[1..], rest)
    requires |shifted| == |rest| && forall i :: 0 <= i < |rest| ==> shifted[i] == rest[i] + 1
    ensures SelectsAt(tail, v, shifted)
    ensures forall k :: 0 <= k < |shifted| ==> shifted[k] >= 1
  {
    forall k | 0 <= k < |shifted|
      ensures 0 <= shifted[k] < |v| && tail[k] == v[shifted[k]]
    {
      assert v[1..][rest[k]] == v[rest[k] + 1];
    }
  }

  lemma PrependSelects<T>(v: seq<T>, tail: seq<T>, shifted: seq<int>)
    requires |v| > 0
    requires SelectsAt(tail, v, shifted)
    requires forall k :: 0 <= k < |shifted| ==> shifted[k] >= 1
    ensures SelectsAt([v[0]] + tail, v, [0] + shifted)
  {
    var ix := [0] + shifted;
    var e := [v[0]] + tail;
    forall k | 0 <= k < |ix|
      ensures 0 <= ix[k] < |v| && e[k] == v[ix[k]]
    {
      if k > 0 {
        assert ix[k] == shifted[k - 1] && e[k] == tail[k - 1];
      }
    }
    forall k, l | 0 <= k < l < |ix|
      ensures ix[k] < ix[l]
    {
      if k > 0 {
        assert ix[k] == shifted[k - 1] && ix[l] == shifted[l - 1];
      }
    }
  }

  lemma {:induction false} PickAtPositions<T>(v: seq<T>, m: seq<bool>)
    requires |m| == |v|
    ensures SelectsAt(Pick(v, m), v, Positions(m))
  {
    if m != [] {
      PickAtPositions(v[1..], m[1..]);
      var rest := Positions(m[1..]);
      var tail := Pick(v[1..], m[1..]);
      var shifted := seq(|rest|, i requires 0 <= i < |rest| => rest[i] + 1);
      ShiftedSelects(v, tail, rest, shifted);
      if m[0] {
        assert Positions(m) == [0] + shifted;
        assert Pick(v, m) == [v[0]] + tail;
        PrependSelects(v, tail, shifted);
      } else {
        assert Positions(m) == shifted;
        assert Pick(v, m) == tail;
      }
    }
  }

  /**
   * Each emitted entry has exactly `length` elements, taken from `vec` at
   * strictly increasing indices `ix`.
   */
  lemma EntryIndices<T>(vec: seq<T>, length: int, e: seq<T>) returns (ix: seq<int>)
    requires e in Subsequences(vec, length)
    ensures |e| == length
    ensures SelectsAt(e, vec, ix)
  {
    SubsequencesAreMaskSelections(vec, length, e);
    var m :| |m| == |vec| && Ones(m) == length && e == Pick(vec, m);
    PickAtPositions(vec, m);
    ix := Positions(m);
  }

  /** Binary digits of `i`, most significant first, padded to `n` digits. */
  function Bits(i: nat, n: nat): (b: seq<bool>)
    requires i < Pow2(n)
    ensures |b| == n
  {
    if n == 0 then []
    else if i >= Pow2(n - 1) then [true] + Bits(i - Pow2(n - 1), n - 1)
    else [false] + Bits(i, n - 1)
  }

  /**
   * The i-th mask is i written in binary with index 0 as the most significant
   * bit: the reference list runs through the masks in increasing numeric order.
   */
  lemma {:induction false} MasksCountUp(n: nat, i: nat)
    requires i < Pow2(n)
    ensures Masks(n)[i] == Bits(i, n)
  {
    if n > 0 {
      var rest := Masks(n - 1);
      if i >= Pow2(n - 1) {
        MasksCountUp(n - 1, i - Pow2(n - 1));
        assert Masks(n)[i] == Prepend(true, rest)[i - Pow2(n - 1)];
      } else {
        MasksCountUp(n - 1, i);
        assert Masks(n)[i] == Prepend(false, rest)[i];
      }
    }
  }

  /**
   * Skip-before-take on five elements, four at a time: dropping the first,
   * then the second, third, fourth and fifth in turn, i.e. the masks 01111,
   * 10111, 11011, 11101, 11110.
   */
  lemma FiveChooseFour<T>(a: T, b: T, c: T, d: T, e: T)
    ensures Subsequences([a, b, c, d, e], 4) == [[b, c, d, e], [a, c, d, e], [a, b, d, e], [a, b, c, e], [a, b, c, d]]
  {
    var v := [a, b, c, d, e];
    Split(v, 4, 0, []);
    Forced(v, 4, 1, []);
    assert [] + v[1..] == [b, c, d, e];
    assert [] + [v[0]] == [a];
    FiveKeepFirst(a, b, c, d, e);
  }

  lemma FiveKeepFirst<T>(a: T, b: T, c: T, d: T, e: T)
    ensures Generate([], [a, b, c, d, e], 4, 1, [a]) == [[a, c, d, e], [a, b, d, e], [a, b, c, e], [a, b, c, d]]
  {
    var v := [a, b, c, d, e];
    Split(v, 4, 1, [a]);
    Forced(v, 4, 2, [a]);
    assert [a] + v[2..] == [a, c, d, e];
    assert [a] + [v[1]] == [a, b];
    FiveKeepFirstTwo(a, b, c, d, e);
  }

  lemma FiveKeepFirstTwo<T>(a: T, b: T, c: T, d: T, e: T)
    ensures Generate([], [a, b, c, d, e], 4, 2, [a, b]) == [[a, b, d, e], [a, b, c, e], [a, b, c, d]]
  {
    var v := [a, b, c, d, e];
    Split(v, 4, 2, [a, b]);
    Forced(v, 4, 3, [a, b]);
    assert [a, b] + v[3..] == [a, b, d, e];
    assert [a, b] + [v[2]] == [a, b, c];
    FiveKeepFirstThree(a, b, c, d, e);
  }

  lemma FiveKeepFirstThree<T>(a: T, b: T, c: T, d: T, e: T)
    ensures Generate([], [a, b, c, d, e], 4, 3, [a, b, c]) == [[a, b, c, e], [a, b, c, d]]
  {
    var v := [a, b, c, d, e];
    Split(v, 4, 3, [a, b, c]);
    Forced(v, 4, 4, [a, b, c]);
    assert [a, b, c] + v[4..] == [a, b, c, e];
    assert [a, b, c] + [v[3]] == [a, b, c, d];
    assert Generate([], v, 4, 4, [a, b, c, d]) == [[a, b, c, d]];
  }

  /**
   * When the elements left are exactly as many as the builder still needs,
   * the only entry emitted is the builder followed by all of them.
   */
  lemma {:induction false} Forced<T>(vec: seq<T>, length: int, idx: nat, builder: seq<T>)
    requires idx <= |vec| && |builder| + (|vec| - idx) == length
    ensures Generate([], vec, length, idx, builder) == [builder + vec[idx..]]
    decreases |vec| - idx
  {
    if idx < |vec| {
      Split(vec, length, idx, builder);
      Dead(vec, length, idx + 1, builder);
      Forced(vec, length, idx + 1, builder + [vec[idx]]);
      assert (builder + [vec[idx]]) + vec[idx + 1..] == builder + vec[idx..];
    } else {
      assert builder + vec[idx..] == builder;
    }
  }

  /** A branch that can no longer collect `length` elements emits nothing. */
  lemma Dead<T>(vec: seq<T>, length: int, idx: nat, builder: seq<T>)
    requires idx <= |vec| && |builder| + (|vec| - idx) < length
    ensures Generate([], vec, length, idx, builder) == []
  {
    GenerateShape([], vec, length, idx, builder);
    ChooseAbove(|vec| - idx, length - |builder|);
  }

  /** One step of the recursion, written with fresh accumulators: skip-branch output first. */
  lemma Split<T>(vec: seq<T>, length: int, idx: nat, builder: seq<T>)
    requires |builder| != length && idx < |vec|
    ensures Generate([], vec, length, idx, builder)
         == Generate([], vec, length, idx + 1, builder) + Generate([], vec, length, idx + 1, builder + [vec[idx]])
  {
    GenerateAppends(Generate([], vec, length, idx + 1, builder), vec, length, idx + 1, builder + [vec[idx]]);
  }
}
