/**
 The pair enumerator (src/SwappedArgChecker.cpp, `pairwise_combinations`): it steps a two-hot bit
 vector through `std::prev_permutation` and reads off the positions of the two set bits.
 */
module PairEnumeration {
  import opened Wrappers

  // ------------------------------------------------------------------------------------------
  // The lexicographic predecessor of a bit string
  // ------------------------------------------------------------------------------------------

  /** `*a < *b` on bits. */
  predicate BitLess(a: bool, b: bool) { !a && b }

  function Ones(s: seq<bool>): nat {
    if s == [] then 0 else (if s[0] then 1 else 0) + Ones(s[1..])
  }

  function Run(n: nat, b: bool): seq<bool> {
    seq(n, _ => b)
  }

  function Ascending(zeros: nat, ones: nat): seq<bool> {
    Run(zeros, false) + Run(ones, true)
  }

  function Descending(ones: nat, zeros: nat): seq<bool> {
    Run(ones, true) + Run(zeros, false)
  }

  ghost predicate LexLess(s: seq<bool>, t: seq<bool>)
    requires |s| == |t|
  {
    s != [] && (BitLess(s[0], t[0]) || (s[0] == t[0] && LexLess(s[1..], t[1..])))
  }

  lemma {:induction false} OnesBounded(s: seq<bool>)
    ensures Ones(s) <= |s|
  {
    if s != [] {
      OnesBounded(s[1..]);
    }
  }

  /** The next smaller arrangement of the same bits, if there is one. */
  ghost function Predecessor(s: seq<bool>): Option<seq<bool>> {
    if s == [] then None
    else
      OnesBounded(s[1..]);
      match Predecessor(s[1..])
      case Some(t) => Some([s[0]] + t)
      case None =>
        var ones := Ones(s[1..]);
        if s[0] && ones < |s| - 1 then Some([false] + Descending(ones + 1, |s| - 2 - ones)) else None
  }

  lemma {:induction false} OnesOfRun(n: nat, b: bool)
    ensures Ones(Run(n, b)) == if b then n else 0
  {
    if n > 0 {
      OnesOfRun(n - 1, b);
      assert Run(n, b)[1..] == Run(n - 1, b);
    }
  }

  lemma {:induction false} OnesOfConcat(s: seq<bool>, t: seq<bool>)
    ensures Ones(s + t) == Ones(s) + Ones(t)
  {
    if s == [] {
      assert s + t == t;
    } else {
      OnesOfConcat(s[1..], t);
      assert (s + t)[1..] == s[1..] + t;
    }
  }

  lemma OnesOfDescending(ones: nat, zeros: nat)
    ensures Ones(Descending(ones, zeros)) == ones == Ones(Ascending(zeros, ones))
  {
    OnesOfRun(ones, true);
    OnesOfRun(zeros, false);
    OnesOfConcat(Run(ones, true), Run(zeros, false));
    OnesOfConcat(Run(zeros, false), Run(ones, true));
  }

  /** The descending arrangement is the greatest one with its number of ones. */
  lemma {:induction false} DescendingIsGreatest(s: seq<bool>)
    ensures Ones(s) <= |s|
    ensures s == Descending(Ones(s), |s| - Ones(s)) || LexLess(s, Descending(Ones(s), |s| - Ones(s)))
  {
    OnesBounded(s);
    if s != [] {
      OnesBounded(s[1..]);
      DescendingIsGreatest(s[1..]);
      var d := Descending(Ones(s), |s| - Ones(s));
      assert s == [s[0]] + s[1..];
      if s[0] {
        assert d[0] && d[1..] == Descending(Ones(s[1..]), |s[1..]| - Ones(s[1..]));
        assert d == [d[0]] + d[1..];
      } else if Ones(s) == 0 {
        assert !d[0] && d[1..] == Descending(0, |s[1..]|);
        assert d == [d[0]] + d[1..];
      } else {
        assert d[0];
      }
    }
  }

  /** A predecessor has the same bits and is smaller. */
  lemma {:induction false} PredecessorIsBelow(s: seq<bool>)
    requires Predecessor(s).Some?
    ensures |Predecessor(s).value| == |s|
    ensures Ones(Predecessor(s).value) == Ones(s)
    ensures LexLess(Predecessor(s).value, s)
  {
    var t := Predecessor(s).value;
    if Predecessor(s[1..]).Some? {
      PredecessorIsBelow(s[1..]);
      assert t[1..] == Predecessor(s[1..]).value;
    } else {
      var ones := Ones(s[1..]);
      OnesOfDescending(ones + 1, |s| - 2 - ones);
      assert t[1..] == Descending(ones + 1, |s| - 2 - ones);
    }
  }

  /** Nothing with the same bits lies between a string and its predecessor, and a string without a
      predecessor is the least arrangement of its bits. */
  lemma {:induction false} PredecessorIsNext(s: seq<bool>, u: seq<bool>)
    requires |u| == |s| && Ones(u) == Ones(s) && LexLess(u, s)
    ensures Predecessor(s).Some? && |Predecessor(s).value| == |s|
    ensures u == Predecessor(s).value || LexLess(u, Predecessor(s).value)
  {
    assert u == [u[0]] + u[1..];
    if u[0] == s[0] {
      PredecessorIsNext(s[1..], u[1..]);
      var t := Predecessor(s).value;
      assert t[1..] == Predecessor(s[1..]).value;
    } else if Predecessor(s[1..]).Some? {
      PredecessorIsBelow(s[1..]);
    } else {
      DescendingIsGreatest(u[1..]);
      var t := Predecessor(s).value;
      assert t[1..] == Descending(Ones(u[1..]), |u[1..]| - Ones(u[1..]));
      assert t == [t[0]] + t[1..];
    }
  }

  // ------------------------------------------------------------------------------------------
  // std::prev_permutation
  // ------------------------------------------------------------------------------------------

  /** An ascending string is the last permutation. */
  lemma {:induction false} AscendingHasNoPredecessor(zeros: nat, ones: nat)
    ensures Predecessor(Ascending(zeros, ones)) == None
  {
    var s := Ascending(zeros, ones);
    OnesOfDescending(ones, zeros);
    if zeros > 0 {
      AscendingHasNoPredecessor(zeros - 1, ones);
      assert s[1..] == Ascending(zeros - 1, ones);
    } else if ones > 0 {
      AscendingHasNoPredecessor(0, ones - 1);
      assert s[1..] == Ascending(0, ones - 1);
      OnesOfDescending(ones - 1, 0);
    }
  }

  /** The predecessor in terms of the last descent `p`: what follows it is ascending. */
  lemma {:induction false} PredecessorAtPivot(s: seq<bool>, p: nat, zeros: nat, ones: nat)
    requires p < |s| && s[p] && zeros > 0
    requires s[p + 1..] == Ascending(zeros, ones)
    ensures Predecessor(s) == Some(s[..p] + [false] + Descending(ones + 1, zeros - 1))
  {
    if p == 0 {
      AscendingHasNoPredecessor(zeros, ones);
      OnesOfDescending(ones, zeros);
      assert s[1..] == Ascending(zeros, ones);
      assert s[..0] + [false] == [false];
    } else {
      var tail, d := s[1..], [false] + Descending(ones + 1, zeros - 1);
      assert tail[p..] == s[p + 1..];
      PredecessorAtPivot(tail, p - 1, zeros, ones);
      assert tail[..p - 1] + [false] + Descending(ones + 1, zeros - 1) == tail[..p - 1] + d;
      assert [s[0]] + (tail[..p - 1] + d) == s[..p] + [false] + Descending(ones + 1, zeros - 1);
    }
  }

  lemma EmptyIsOnlyArrangement()
    ensures Predecessor([]) == None && Ones([]) == 0 && Descending(0, 0) == []
  {
  }

  lemma BitIsOnlyArrangement(b: bool)
    ensures Predecessor([b]) == None && Ones([b]) == if b then 1 else 0
  {
  }

  lemma OneBitDescending()
    ensures Descending(1, 0) == [true] && Descending(0, 1) == [false]
  {
  }

  lemma ShortIsOnlyArrangement(s: seq<bool>)
    requires |s| <= 1
    ensures Predecessor(s) == None && Ones(s) <= |s| && s == Descending(Ones(s), |s| - Ones(s))
  {
    hide Predecessor, Ones, Descending;
    OneBitDescending();
    if s == [] {
      EmptyIsOnlyArrangement();
    } else {
      BitIsOnlyArrangement(s[0]);
      assert s == [s[0]];
    }
  }

  /** `std::reverse` of the range from `lo` to the end. */
  method ReverseFrom(a: array<bool>, lo: nat)
    requires lo <= a.Length
    modifies a
    ensures forall k :: 0 <= k < lo ==> a[k] == old(a[k])
    ensures forall k :: lo <= k < a.Length ==> a[k] == old(a[a.Length - 1 - (k - lo)])
  {
    var i, j := lo, a.Length;
    while i < j - 1
      invariant lo <= i <= j <= a.Length && i - lo == a.Length - j
      invariant forall k :: 0 <= k < lo || i <= k < j ==> a[k] == old(a[k])
      invariant forall k :: lo <= k < i || j <= k < a.Length ==> a[k] == old(a[a.Length - 1 - (k - lo)])
    {
      a[i], a[j - 1] := a[j - 1], a[i];
      i, j := i + 1, j - 1;
    }
  }

  lemma AscendingSuffix(s: seq<bool>, i: nat, ones: nat)
    requires i <= |s| && ones <= |s| - i
    requires forall k :: i <= k < |s| ==> (s[k] <==> |s| - ones <= k)
    ensures s[i..] == Ascending(|s| - i - ones, ones)
  {
  }

  lemma ReversedIsDescending(s: seq<bool>, i: nat, ones: nat)
    requires i <= |s| && ones <= |s| - i
    requires forall k :: i <= k < |s| ==> (s[k] <==> k < i + ones)
    ensures s[i..] == Descending(ones, |s| - i - ones)
  {
  }

  /** The start of the longest ascending suffix, which holds `ones` set bits. */
  method AscendingFrom(a: array<bool>) returns (i: nat, ghost ones: nat)
    requires a.Length > 0
    ensures i < a.Length && ones <= a.Length - i
    ensures a[..][i..] == Ascending(a.Length - i - ones, ones)
    ensures forall k :: i <= k < a.Length ==> (a[k] <==> a.Length - ones <= k)
    ensures i > 0 ==> BitLess(a[i], a[i - 1])
  {
    i := a.Length - 1;
    ones := if a[i] then 1 else 0;
    while i > 0 && !BitLess(a[i], a[i - 1])
      invariant i < a.Length && ones <= a.Length - i
      invariant forall k :: i <= k < a.Length ==> (a[k] <==> a.Length - ones <= k)
    {
      i := i - 1;
      ones := if a[i] then ones + 1 else ones;
    }
    AscendingSuffix(a[..], i, ones);
  }

  /** Exchanges the last descent with the last smaller element and reverses what follows. */
  method StepDown(a: array<bool>, i: nat, ghost ones: nat)
    requires 0 < i < a.Length && i + ones < a.Length
    requires a[i - 1] && forall k :: i <= k < a.Length ==> (a[k] <==> a.Length - ones <= k)
    modifies a
    ensures a[..] == old(a[..i - 1]) + [false] + Descending(ones + 1, a.Length - i - ones - 1)
  {
    ghost var s := a[..];
    var j := a.Length - 1;
    while !BitLess(a[j], a[i - 1])
      invariant i <= a.Length - ones - 1 <= j < a.Length
      decreases j
    {
      j := j - 1;
    }
    a[i - 1], a[j] := a[j], a[i - 1];
    ReverseFrom(a, i);
    ReversedIsDescending(a[..], i, ones + 1);
    hide Descending;
    assert a[..] == s[..i - 1] + [false] + a[..][i..];
  }

  /**
   `std::prev_permutation` on bits (section [alg.permutation.generators] of ISO/IEC 14882:2017):
   find the last descent, exchange it with the last smaller element, reverse what follows.
   */
  method PrevPermutation(a: array<bool>) returns (more: bool)
    modifies a
    ensures more <==> Predecessor(old(a[..])).Some?
    ensures more ==> a[..] == Predecessor(old(a[..])).value
    ensures !more ==> Ones(old(a[..])) <= a.Length
    ensures !more ==> a[..] == Descending(Ones(old(a[..])), a.Length - Ones(old(a[..])))
  {
    ghost var s := a[..];
    if a.Length <= 1 {
      ShortIsOnlyArrangement(s);
      return false;
    }
    hide Predecessor, Ones, Ascending, Descending;
    var i, ones := AscendingFrom(a);
    ghost var zeros := a.Length - i - ones;
    if i == 0 {
      assert s == s[0..];
      AscendingHasNoPredecessor(zeros, ones);
      OnesOfDescending(ones, zeros);
      ReverseFrom(a, 0);
      ReversedIsDescending(a[..], 0, ones);
      assert a[..] == a[..][0..];
      return false;
    }
    PredecessorAtPivot(s, i - 1, zeros, ones);
    StepDown(a, i, ones);
    return true;
  }

  // ------------------------------------------------------------------------------------------
  // Two-hot bit vectors
  // ------------------------------------------------------------------------------------------

  /** Bits `i` and `j` of `n` set (an index beyond the end sets nothing). */
  function TwoHot(n: nat, i: nat, j: nat): seq<bool> {
    seq(n, k => k == i || k == j)
  }

  lemma TwoHotOnes(n: nat, i: nat, j: nat)
    requires i < j < n
    ensures Ones(TwoHot(n, i, j)) == 2
  {
    var s := TwoHot(n, i, j);
    OnesOfRun(i, false);
    OnesOfRun(j - i - 1, false);
    OnesOfRun(n - j - 1, false);
    assert s == Run(i, false) + [true] + Run(j - i - 1, false) + [true] + Run(n - j - 1, false);
    OnesOfConcat(Run(i, false), [true]);
    OnesOfConcat(Run(i, false) + [true], Run(j - i - 1, false));
    OnesOfConcat(Run(i, false) + [true] + Run(j - i - 1, false), [true]);
    OnesOfConcat(Run(i, false) + [true] + Run(j - i - 1, false) + [true], Run(n - j - 1, false));
  }

  type Pair = (nat, nat)

  /** The pair after (i, j) in the double loop. */
  function Next(n: nat, i: nat, j: nat): Option<Pair> {
    if j + 1 < n then Some((i, j + 1))
    else if i + 2 < n then Some((i + 1, i + 2))
    else None
  }

  /** One step takes the pair to its lexicographic successor; after the last pair the vector is
      back in its initial state. */
  lemma TwoHotStep(n: nat, i: nat, j: nat)
    requires i < j < n
    ensures Ones(TwoHot(n, i, j)) == 2
    ensures Predecessor(TwoHot(n, i, j)) ==
            match Next(n, i, j) case Some(p) => Some(TwoHot(n, p.0, p.1)) case None => None
    ensures Descending(2, n - 2) == TwoHot(n, 0, 1)
  {
    var s := TwoHot(n, i, j);
    TwoHotOnes(n, i, j);
    if j + 1 < n {
      assert s[j + 1..] == Ascending(n - j - 1, 0);
      PredecessorAtPivot(s, j, n - j - 1, 0);
      assert s[..j] + [false] + Descending(1, n - j - 2) == TwoHot(n, i, j + 1);
    } else if i + 2 < n {
      assert s[i + 1..] == Ascending(n - i - 2, 1);
      PredecessorAtPivot(s, i, n - i - 2, 1);
      assert s[..i] + [false] + Descending(2, n - i - 3) == TwoHot(n, i + 1, i + 2);
    } else {
      assert s == Ascending(n - 2, 2);
      AscendingHasNoPredecessor(n - 2, 2);
    }
  }

  // ------------------------------------------------------------------------------------------
  // The double loop
  // ------------------------------------------------------------------------------------------

  /** What `for (; i < n; ++i, j = i + 1) for (; j < n; ++j) emit (i, j)` emits from (i, j) on. */
  function Loop(n: nat, i: nat, j: nat): seq<Pair>
    decreases n - i, n - j
  {
    if i >= n then []
    else if j >= n then Loop(n, i + 1, i + 2)
    else [(i, j)] + Loop(n, i, j + 1)
  }

  function AllPairs(n: nat): seq<Pair> {
    Loop(n, 0, 1)
  }

  ghost predicate PairLess(p: Pair, q: Pair) {
    p.0 < q.0 || (p.0 == q.0 && p.1 < q.1)
  }

  ghost predicate Increasing(ps: seq<Pair>) {
    forall a, b :: 0 <= a < b < |ps| ==> PairLess(ps[a], ps[b])
  }

  /** `p` is met by the loop from (i, j) on. */
  ghost predicate Ahead(n: nat, i: nat, j: nat, p: Pair) {
    p.0 < p.1 < n && (i < p.0 || (i == p.0 && j <= p.1))
  }

  lemma LoopHead(n: nat, i: nat, j: nat)
    requires i < n && j < n
    ensures Loop(n, i, j) == [(i, j)] + Loop(n, i, j + 1)
  {
  }

  lemma LoopTurns(n: nat, i: nat, j: nat)
    requires i < n <= j
    ensures Loop(n, i, j) == Loop(n, i + 1, i + 2)
  {
  }

  lemma LoopIsOver(n: nat, i: nat, j: nat)
    requires i + 1 >= n && j >= n
    ensures Loop(n, i, j) == []
  {
  }

  lemma LoopHeadMembers(n: nat, i: nat, j: nat, p: Pair)
    requires i < n && j < n
    ensures p in Loop(n, i, j) <==> p == (i, j) || p in Loop(n, i, j + 1)
  {
  }

  lemma {:induction false} LoopMembers(n: nat, i: nat, j: nat, p: Pair)
    requires i < j
    ensures p in Loop(n, i, j) <==> Ahead(n, i, j, p)
    decreases n - i, n - j
  {
    hide Loop;
    if i >= n {
      LoopIsOver(n, i, j);
    } else if j >= n {
      LoopMembers(n, i + 1, i + 2, p);
      LoopTurns(n, i, j);
    } else {
      LoopMembers(n, i, j + 1, p);
      LoopHeadMembers(n, i, j, p);
    }
  }

  lemma PrependKeepsIncreasing(p: Pair, rest: seq<Pair>)
    requires Increasing(rest) && forall k :: 0 <= k < |rest| ==> PairLess(p, rest[k])
    ensures Increasing([p] + rest)
  {
  }

  lemma LoopHeadIncreasing(n: nat, i: nat, j: nat)
    requires i < j < n && Increasing(Loop(n, i, j + 1))
    ensures Increasing(Loop(n, i, j))
  {
    hide Loop, Increasing;
    LoopHead(n, i, j);
    var rest := Loop(n, i, j + 1);
    forall k | 0 <= k < |rest|
      ensures PairLess((i, j), rest[k])
    {
      assert rest[k] in rest;
      LoopMembers(n, i, j + 1, rest[k]);
    }
    PrependKeepsIncreasing((i, j), rest);
  }

  lemma {:induction false} LoopIncreasing(n: nat, i: nat, j: nat)
    requires i < j
    ensures Increasing(Loop(n, i, j))
    decreases n - i, n - j
  {
    hide Loop;
    if i >= n {
      LoopIsOver(n, i, j);
    } else if j >= n {
      LoopIncreasing(n, i + 1, i + 2);
      LoopTurns(n, i, j);
    } else {
      LoopIncreasing(n, i, j + 1);
      LoopHeadIncreasing(n, i, j);
    }
  }

  lemma {:induction false} LoopCount(n: nat, i: nat, j: nat)
    requires i < j && i < n
    ensures 2 * |Loop(n, i, j)| == (if j < n then 2 * (n - j) else 0) + (n - i - 1) * (n - i - 2)
    decreases n - i, n - j
  {
    if j < n {
      LoopCount(n, i, j + 1);
    } else if i + 1 < n {
      LoopCount(n, i + 1, i + 2);
    }
  }

  /** The double loop yields exactly the pairs i < j < n, each once, in lexicographic order. */
  lemma AllPairsMeaning(n: nat)
    ensures forall p :: p in AllPairs(n) <==> p.0 < p.1 < n
    ensures Increasing(AllPairs(n))
    ensures 2 * |AllPairs(n)| == n * (n - 1)
  {
    forall p
      ensures p in AllPairs(n) <==> p.0 < p.1 < n
    {
      LoopMembers(n, 0, 1, p);
    }
    LoopIncreasing(n, 0, 1);
    if n > 0 {
      LoopCount(n, 0, 1);
    }
  }

  lemma LoopStep(n: nat, i: nat, j: nat)
    requires i < j < n
    ensures Loop(n, i, j) == [(i, j)] + Loop(n, i, j + 1)
    ensures Loop(n, i, j + 1) == match Next(n, i, j) case Some(p) => Loop(n, p.0, p.1) case None => []
  {
    hide Loop;
    LoopHead(n, i, j);
    if j + 1 == n {
      LoopTurns(n, i, n);
      if i + 2 >= n {
        LoopIsOver(n, i + 1, i + 2);
      }
    }
  }

  // ------------------------------------------------------------------------------------------
  // pairwise_combinations
  // ------------------------------------------------------------------------------------------

  /** `~0U`, a 32-bit pattern, marks an index that has not been found. */
  const NOT_FOUND: nat := 0xFFFF_FFFF

  /** The scan for the two set bits; `None` is a failed assertion. */
  method ScanBits(bitset: array<bool>, ghost i: nat, ghost j: nat) returns (pair: Option<Pair>)
    requires i < j && bitset[..] == TwoHot(bitset.Length, i, j)
    ensures pair == if j < bitset.Length && i != NOT_FOUND && j != NOT_FOUND then Some((i, j)) else None
  {
    var first, second := NOT_FOUND, NOT_FOUND;
    for idx := 0 to bitset.Length
      invariant i != NOT_FOUND ==> first == if i < idx then i else NOT_FOUND
      invariant i != NOT_FOUND ==> second == if j < idx then j else NOT_FOUND
      invariant i == NOT_FOUND ==> second == NOT_FOUND && (idx <= j ==> first == NOT_FOUND)
    {
      assert bitset[idx] == bitset[..][idx];
      if bitset[idx] {
        if first == NOT_FOUND {
          first := idx;
        } else {
          if second != NOT_FOUND {
            return None;
          }
          second := idx;
        }
      }
    }
    if first == NOT_FOUND || second == NOT_FOUND {
      return None;
    }
    return Some((first, second));
  }

  /** Where the loop stands: at the pair (i, j), with the pairs before it emitted. */
  ghost predicate Enumerating(n: nat, i: nat, j: nat, bits: seq<bool>, pairs: seq<Pair>) {
    i < j && bits == TwoHot(n, i, j)
    && (n < 2 ==> i == 0 && j == 1)
    && (n >= 2 ==> j < n && pairs + Loop(n, i, j) == AllPairs(n))
    && (n > NOT_FOUND ==> i == 0 && j <= NOT_FOUND)
  }

  lemma EnumeratingMeaning(n: nat, i: nat, j: nat, bits: seq<bool>, pairs: seq<Pair>)
    requires Enumerating(n, i, j, bits, pairs)
    ensures i < j && bits == TwoHot(n, i, j) && i != NOT_FOUND && (j < n || n < 2)
  {
  }

  /** Stepping the bits goes on to the next pair, or ends with all pairs emitted and the bits back in
      their initial state. */
  lemma EnumerationStep(n: nat, i: nat, j: nat, bits: seq<bool>, pairs: seq<Pair>)
    requires Enumerating(n, i, j, bits, pairs) && j < n && j != NOT_FOUND
    ensures Ones(bits) == 2 && Descending(2, n - 2) == TwoHot(n, 0, 1)
    ensures match Predecessor(bits)
            case Some(bits') =>
              var next := Next(n, i, j);
              next.Some? && Enumerating(n, next.value.0, next.value.1, bits', pairs + [(i, j)])
            case None =>
              Next(n, i, j).None? && n <= NOT_FOUND && pairs + [(i, j)] == AllPairs(n)
  {
    TwoHotStep(n, i, j);
    LoopStep(n, i, j);
    hide Loop, AllPairs, Descending, Ones, Predecessor, TwoHot;
    assert pairs + ([(i, j)] + Loop(n, i, j + 1)) == (pairs + [(i, j)]) + Loop(n, i, j + 1);
    assert (pairs + [(i, j)]) + [] == pairs + [(i, j)];
  }

  /**
   `pairwise_combinations`; `None` is a failed assertion. For every count the sentinel can tell
   apart from an index, the in-place loop refines the double loop.
   */
  method PairwiseCombinations(totalCount: nat) returns (ret: Option<seq<Pair>>)
    ensures ret.Some? <==> 2 <= totalCount <= 0xFFFF_FFFF
    ensures ret.Some? ==> ret.value == AllPairs(totalCount)
  {
    var n := totalCount;
    ret := None;
    var pairs: seq<Pair> := [];
    var bitset := new bool[n](k => k < 2);
    assert bitset[..] == TwoHot(n, 0, 1);
    assert Enumerating(n, 0, 1, bitset[..], pairs);
    ghost var i: nat, j: nat := 0, 1;
    hide AllPairs, Loop, Predecessor, Descending, Ones, Enumerating;
    while true
      invariant bitset.Length == n && Enumerating(n, i, j, bitset[..], pairs)
      decreases n - i, n - j
    {
      EnumeratingMeaning(n, i, j, bitset[..], pairs);
      var found := ScanBits(bitset, i, j);
      if found.None? {
        return;
      }
      EnumerationStep(n, i, j, bitset[..], pairs);
      pairs := pairs + [found.value];
      var more := PrevPermutation(bitset);
      if !more {
        // The bit vector is back in its initial state.
        assert bitset[..] == TwoHot(n, 0, 1);
        return Some(pairs);
      }
      ghost var next := Next(n, i, j).value;
      i, j := next.0, next.1;
    }
  }
}
