/**
 `std::set<std::string>` as the program sees it: a range of strings in strictly increasing order.
 The algorithms that walk such ranges (`std::set_difference`, `std::remove_copy`) are methods here;
 everything stated about them is in terms of the mathematical set `Elements`.
 */
module OrderedSets {

  /** `operator<` on strings: lexicographic by character. */
  predicate Less(a: string, b: string) {
    if b == "" then false
    else if a == "" then true
    else if a[0] != b[0] then a[0] < b[0]
    else Less(a[1..], b[1..])
  }

  lemma {:induction false} LessIrreflexive(a: string)
    ensures !Less(a, a)
  {
    if a != "" {
      LessIrreflexive(a[1..]);
    }
  }

  lemma {:induction false} LessTransitive(a: string, b: string, c: string)
    requires Less(a, b) && Less(b, c)
    ensures Less(a, c)
  {
    if a != "" && a[0] == b[0] && b[0] == c[0] {
      LessTransitive(a[1..], b[1..], c[1..]);
    }
  }

  /** Two strings that neither precede the other are equal: the order identifies what equality does. */
  lemma {:induction false} LessTotal(a: string, b: string)
    requires !Less(a, b) && !Less(b, a)
    ensures a == b
  {
    if a != "" && b != "" {
      LessTotal(a[1..], b[1..]);
      assert a == [a[0]] + a[1..] && b == [b[0]] + b[1..];
    }
  }

  predicate StrictlySorted(s: seq<string>) {
    forall i, j :: 0 <= i < j < |s| ==> Less(s[i], s[j])
  }

  type OrderedSet = s: seq<string> | StrictlySorted(s)

  function Elements(s: seq<string>): set<string> {
    set x | x in s
  }

  lemma ElementsOfConcat(s: seq<string>, t: seq<string>)
    ensures Elements(s + t) == Elements(s) + Elements(t)
  {
  }

  lemma ElementsOfSnoc(s: seq<string>, x: string)
    ensures Elements(s + [x]) == Elements(s) + {x}
  {
  }

  /** In a strictly sorted range every element occurs once. */
  lemma SortedIsDuplicateFree(s: OrderedSet, i: nat, j: nat)
    requires i < j < |s|
    ensures s[i] != s[j]
  {
    LessIrreflexive(s[i]);
  }

  lemma LastIsNew(s: OrderedSet)
    requires s != []
    ensures Elements(s[..|s| - 1]) == Elements(s) - {s[|s| - 1]}
  {
    var x := s[|s| - 1];
    forall i | 0 <= i < |s| - 1
      ensures s[i] != x
    {
      SortedIsDuplicateFree(s, i, |s| - 1);
    }
    assert s == s[..|s| - 1] + [x];
    ElementsOfConcat(s[..|s| - 1], [x]);
  }

  /** `std::set::size` is the cardinality of the set. */
  lemma {:induction false} SizeIsCardinality(s: OrderedSet)
    ensures |Elements(s)| == |s|
  {
    if s != [] {
      SizeIsCardinality(s[..|s| - 1]);
      LastIsNew(s);
      assert s[|s| - 1] in Elements(s);
    }
  }

  /**
   A strictly sorted range is determined by its elements, so comparing two ranges with `std::equal`
   decides equality of the sets.
   */
  lemma {:induction false} SortedIsUnique(a: OrderedSet, b: OrderedSet)
    requires Elements(a) == Elements(b)
    ensures a == b
  {
    SizeIsCardinality(a);
    SizeIsCardinality(b);
    if a != [] {
      var x, y := a[|a| - 1], b[|b| - 1];
      assert x == y by {
        assert x in Elements(b) && y in Elements(a);
        var i :| 0 <= i < |b| && b[i] == x;
        var j :| 0 <= j < |a| && a[j] == y;
        if i < |b| - 1 && j < |a| - 1 {
          LessTransitive(x, y, x);
          LessIrreflexive(x);
        }
      }
      var a', b' := a[..|a| - 1], b[..|b| - 1];
      LastIsNew(a);
      LastIsNew(b);
      SortedIsUnique(a', b');
      assert a == a' + [x] && b == b' + [y];
    }
  }

  lemma LessTotalAuto(a: string, b: string)
    ensures a == b || Less(a, b) || Less(b, a)
  {
  }

  lemma LessThanAll(s: OrderedSet, x: string)
    requires s != [] && Less(s[|s| - 1], x)
    ensures StrictlySorted(s + [x])
  {
    forall i | 0 <= i < |s|
      ensures Less(s[i], x)
    {
      if i < |s| - 1 {
        LessTransitive(s[i], s[|s| - 1], x);
      }
    }
  }

  lemma InsertStaysBelow(s: OrderedSet, x: string, r: OrderedSet)
    requires s != [] && Less(x, s[|s| - 1])
    requires Elements(r) == Elements(s[..|s| - 1]) + {x}
    ensures StrictlySorted(r + [s[|s| - 1]])
  {
    forall i | 0 <= i < |r|
      ensures Less(r[i], s[|s| - 1])
    {
      assert r[i] in Elements(r);
    }
  }

  /** `std::set::insert`. */
  function Insert(s: OrderedSet, x: string): (r: OrderedSet)
    ensures Elements(r) == Elements(s) + {x}
  {
    if s == [] then [x]
    else
      var last := s[|s| - 1];
      assert s == s[..|s| - 1] + [last];
      if last == x then s
      else if Less(last, x) then
        LessThanAll(s, x);
        s + [x]
      else
        LessTotalAuto(last, x);
        var r := Insert(s[..|s| - 1], x);
        InsertStaysBelow(s, x, r);
        ElementsOfConcat(r, [last]);
        ElementsOfConcat(s[..|s| - 1], [last]);
        r + [last]
  }

  /** Appending the next element of the first range keeps the output a sorted difference. */
  function Extend(a: OrderedSet, b: OrderedSet, i: nat, r: OrderedSet): (r': OrderedSet)
    requires i < |a| && a[i] !in b
    requires Elements(r) == Elements(a[..i]) - Elements(b)
    ensures Elements(r') == Elements(a[..i + 1]) - Elements(b)
  {
    assert a[..i + 1] == a[..i] + [a[i]];
    assert forall k :: 0 <= k < |r| ==> r[k] in Elements(r);
    ElementsOfConcat(a[..i], [a[i]]);
    ElementsOfConcat(r, [a[i]]);
    r + [a[i]]
  }

  lemma AbsentBetween(a: OrderedSet, b: OrderedSet, i: nat, j: nat)
    requires i < |a| && j < |b| && Less(a[i], b[j])
    requires forall k, l :: 0 <= k < j && i <= l < |a| ==> Less(b[k], a[l])
    ensures a[i] !in b
  {
    forall k | 0 <= k < |b|
      ensures b[k] != a[i]
    {
      LessIrreflexive(a[i]);
      if k < j {
        assert Less(b[k], a[i]);
      } else if j < k {
        LessTransitive(a[i], b[j], b[k]);
      }
    }
  }

  /**
   `std::set_difference` on two sorted ranges: a merge that keeps what only the first range has
   (section [set.difference] of ISO/IEC 14882:2017).
   */
  method SetDifference(a: OrderedSet, b: OrderedSet) returns (r: OrderedSet)
    ensures Elements(r) == Elements(a) - Elements(b)
  {
    r := [];
    var i, j := 0, 0;
    while i < |a| && j < |b|
      invariant 0 <= i <= |a| && 0 <= j <= |b|
      invariant Elements(r) == Elements(a[..i]) - Elements(b)
      invariant forall k, l :: 0 <= k < j && i <= l < |a| ==> Less(b[k], a[l])
      decreases |a| - i + |b| - j
    {
      if Less(a[i], b[j]) {
        AbsentBetween(a, b, i, j);
        r := Extend(a, b, i, r);
        i := i + 1;
      } else if Less(b[j], a[i]) {
        forall l | i <= l < |a|
          ensures Less(b[j], a[l])
        {
          if i < l {
            LessTransitive(b[j], a[i], a[l]);
          }
        }
        j := j + 1;
      } else {
        LessTotal(a[i], b[j]);
        assert a[..i + 1] == a[..i] + [a[i]];
        i := i + 1;
        j := j + 1;
      }
    }
    while i < |a|
      invariant 0 <= i <= |a|
      invariant i < |a| ==> j == |b|
      invariant Elements(r) == Elements(a[..i]) - Elements(b)
      invariant forall k, l :: 0 <= k < j <= |b| && i <= l < |a| ==> Less(b[k], a[l])
    {
      forall k | 0 <= k < |b|
        ensures b[k] != a[i]
      {
        assert Less(b[k], a[i]);
        LessIrreflexive(a[i]);
      }
      r := Extend(a, b, i, r);
      i := i + 1;
    }
    assert a[..|a|] == a;
  }

  /** `std::remove_copy` into a set: everything but `x`. */
  method RemoveCopy(a: OrderedSet, x: string) returns (r: OrderedSet)
    ensures Elements(r) == Elements(a) - {x}
  {
    r := [];
    for i := 0 to |a|
      invariant Elements(r) == Elements(a[..i]) - {x}
    {
      assert a[..i + 1] == a[..i] + [a[i]];
      if a[i] != x {
        assert a[i] !in [x];
        r := Extend(a, [x], i, r);
      }
    }
    assert a[..|a|] == a;
  }
}
