/** Set algebra over postings lists: `intersect`, `unite` and `exclude`
    of the query engine, linear merges over two id vectors. The functions
    describe what each merge computes on any input; the lemmas say what
    that means for the ascending, duplicate-free lists the index stores;
    the methods are the loops themselves. */
module SetAlgebra {
  import opened Sequences

  /** Strictly ascending, hence duplicate-free. */
  predicate Ascending(s: seq<nat>)
  {
    forall i, j :: 0 <= i < j < |s| ==> s[i] < s[j]
  }

  /** Every element is below n (a list of valid document ids when n is
      the number of documents). */
  predicate Below(s: seq<nat>, n: nat)
  {
    forall i :: 0 <= i < |s| ==> s[i] < n
  }

  /** The distinct ids of a list. */
  function Elements(s: seq<nat>): set<nat>
  {
    set x | x in s
  }

  /** An ascending list has no repeats: it holds as many distinct ids as
      it has elements. */
  lemma {:induction false} AscendingDistinct(s: seq<nat>)
    requires Ascending(s)
    ensures |Elements(s)| == |s|
  {
    if s != [] {
      var rest := s[1..];
      assert Ascending(rest);
      AscendingDistinct(rest);
      assert s[0] !in Elements(rest);
      assert Elements(s) == Elements(rest) + {s[0]};
    }
  }

  /** The merge of `intersect`: on equal heads keep one copy and advance
      both, otherwise drop the smaller head. */
  function Intersection(a: seq<nat>, b: seq<nat>): (r: seq<nat>)
    ensures forall x :: x in r ==> x in a && x in b
    ensures |r| <= |a| && |r| <= |b|
    decreases |a| + |b|
  {
    if a == [] || b == [] then []
    else if a[0] < b[0] then Intersection(a[1..], b)
    else if b[0] < a[0] then Intersection(a, b[1..])
    else [a[0]] + Intersection(a[1..], b[1..])
  }

  /** The merge of `unite`: emit the smaller head (one copy of equal
      heads), then whatever remains of either list. */
  function Union(a: seq<nat>, b: seq<nat>): (r: seq<nat>)
    ensures forall x :: x in r <==> x in a || x in b
    ensures |r| <= |a| + |b|
    decreases |a| + |b|
  {
    if a == [] then b
    else if b == [] then a
    else if a[0] < b[0] then [a[0]] + Union(a[1..], b)
    else if b[0] < a[0] then [b[0]] + Union(a, b[1..])
    else [a[0]] + Union(a[1..], b[1..])
  }

  /** The merge of `exclude`: keep a's heads smaller than b's head, drop
      equal heads of both, skip smaller heads of b, keep what is left of a. */
  function Difference(a: seq<nat>, b: seq<nat>): (r: seq<nat>)
    ensures forall x :: x in r ==> x in a
    ensures |r| <= |a|
    decreases |a| + |b|
  {
    if a == [] then []
    else if b == [] then a
    else if a[0] < b[0] then [a[0]] + Difference(a[1..], b)
    else if b[0] < a[0] then Difference(a, b[1..])
    else Difference(a[1..], b[1..])
  }

  lemma AscendingTail(a: seq<nat>)
    requires Ascending(a) && a != []
    ensures Ascending(a[1..]) && forall x :: x in a[1..] ==> a[0] < x
    ensures forall x :: x in a ==> a[0] <= x
  {
  }

  lemma AscendingCons(x: nat, t: seq<nat>)
    requires Ascending(t) && forall y :: y in t ==> x < y
    ensures Ascending([x] + t)
  {
    var s := [x] + t;
    forall i, j | 0 <= i < j < |s|
      ensures s[i] < s[j]
    {
      assert s[j] == t[j - 1] && t[j - 1] in t;
      if i > 0 {
        assert s[i] == t[i - 1];
      }
    }
  }

  /** Intersecting ascending lists gives the ascending list of the ids
      in both. */
  lemma {:induction false} IntersectionCorrect(a: seq<nat>, b: seq<nat>)
    requires Ascending(a) && Ascending(b)
    ensures Ascending(Intersection(a, b))
    ensures forall x :: x in Intersection(a, b) <==> x in a && x in b
    decreases |a| + |b|
  {
    if a != [] && b != [] {
      AscendingTail(a);
      AscendingTail(b);
      if a[0] < b[0] {
        IntersectionCorrect(a[1..], b);
      } else if b[0] < a[0] {
        IntersectionCorrect(a, b[1..]);
      } else {
        IntersectionCorrect(a[1..], b[1..]);
        AscendingCons(a[0], Intersection(a[1..], b[1..]));
      }
    }
  }

  /** Uniting ascending lists gives the ascending list of the ids in
      either. */
  lemma {:induction false} UnionAscending(a: seq<nat>, b: seq<nat>)
    requires Ascending(a) && Ascending(b)
    ensures Ascending(Union(a, b))
    decreases |a| + |b|
  {
    if a != [] && b != [] {
      AscendingTail(a);
      AscendingTail(b);
      if a[0] < b[0] {
        UnionAscending(a[1..], b);
        AscendingCons(a[0], Union(a[1..], b));
      } else if b[0] < a[0] {
        UnionAscending(a, b[1..]);
        AscendingCons(b[0], Union(a, b[1..]));
      } else {
        UnionAscending(a[1..], b[1..]);
        AscendingCons(a[0], Union(a[1..], b[1..]));
      }
    }
  }

  /** Excluding from ascending lists leaves, ascending, the ids of a
      that are not in b. */
  lemma {:induction false} DifferenceCorrect(a: seq<nat>, b: seq<nat>)
    requires Ascending(a) && Ascending(b)
    ensures Ascending(Difference(a, b))
    ensures forall x :: x in Difference(a, b) <==> x in a && x !in b
    decreases |a| + |b|
  {
    if a != [] && b != [] {
      AscendingTail(a);
      AscendingTail(b);
      if a[0] < b[0] {
        DifferenceCorrect(a[1..], b);
        AscendingCons(a[0], Difference(a[1..], b));
      } else if b[0] < a[0] {
        DifferenceCorrect(a, b[1..]);
      } else {
        DifferenceCorrect(a[1..], b[1..]);
      }
    }
  }

  /** `intersect(a, a) == a`, `unite(a, a) == a`, `exclude(a, a) == []`
      and `exclude(a, []) == a`, for every list. */
  lemma {:induction false} SelfMerges(a: seq<nat>)
    ensures Intersection(a, a) == a
    ensures Union(a, a) == a
    ensures Difference(a, a) == []
    ensures Difference(a, []) == a
  {
    if a != [] {
      SelfMerges(a[1..]);
    }
  }

  /** The merges never invent ids: bounds on the inputs carry over. */
  lemma MergesBelow(a: seq<nat>, b: seq<nat>, n: nat)
    requires Below(a, n) && Below(b, n)
    ensures Below(Intersection(a, b), n)
    ensures Below(Union(a, b), n)
    ensures Below(Difference(a, b), n)
  {
    var i, u, d := Intersection(a, b), Union(a, b), Difference(a, b);
    assert forall k :: 0 <= k < |i| ==> i[k] in a;
    assert forall k :: 0 <= k < |u| ==> u[k] in a || u[k] in b;
    assert forall k :: 0 <= k < |d| ==> d[k] in a;
  }

  /** The three merges keep lists ascending and below n. */
  lemma MergesShape(a: seq<nat>, b: seq<nat>, n: nat)
    requires Ascending(a) && Below(a, n) && Ascending(b) && Below(b, n)
    ensures Ascending(Intersection(a, b)) && Below(Intersection(a, b), n)
    ensures Ascending(Union(a, b)) && Below(Union(a, b), n)
    ensures Ascending(Difference(a, b)) && Below(Difference(a, b), n)
  {
    IntersectionCorrect(a, b);
    UnionAscending(a, b);
    DifferenceCorrect(a, b);
    MergesBelow(a, b, n);
  }

  /** An ascending list of ids below n has at most n of them, so a result
      never lists more documents than there are. */
  lemma {:induction false} AscendingBelowLength(s: seq<nat>, n: nat)
    requires Ascending(s) && Below(s, n)
    ensures |s| <= n
    decreases |s|
  {
    if s != [] {
      var last := s[|s| - 1];
      var init := s[..|s| - 1];
      assert Below(init, last) by {
        forall k | 0 <= k < |init|
          ensures init[k] < last
        {
          assert init[k] == s[k];
        }
      }
      AscendingBelowLength(init, last);
    }
  }

  /** `intersect`: the loop over two cursors. */
  method Intersect(a: seq<nat>, b: seq<nat>) returns (r: seq<nat>)
    ensures r == Intersection(a, b)
    ensures Ascending(a) && Ascending(b) ==>
              Ascending(r) && forall x :: x in r <==> x in a && x in b
  {
    r := [];
    var i, j := 0, 0;
    while i < |a| && j < |b|
      invariant 0 <= i <= |a| && 0 <= j <= |b|
      invariant r + Intersection(a[i..], b[j..]) == Intersection(a, b)
      decreases |a| - i + |b| - j
    {
      DropOne(a, i);
      DropOne(b, j);
      if a[i] < b[j] {
        i := i + 1;
      } else if b[j] < a[i] {
        j := j + 1;
      } else {
        r := r + [a[i]];
        i, j := i + 1, j + 1;
      }
    }
    assert Intersection(a[i..], b[j..]) == [];
    if Ascending(a) && Ascending(b) {
      IntersectionCorrect(a, b);
    }
  }

  /** One step of the `unite` merge at positions i and j. */
  lemma UnionFrom(a: seq<nat>, b: seq<nat>, i: nat, j: nat)
    requires i < |a| && j < |b|
    ensures Union(a[i..], b[j..]) ==
              if a[i] < b[j] then [a[i]] + Union(a[i + 1..], b[j..])
              else if b[j] < a[i] then [b[j]] + Union(a[i..], b[j + 1..])
              else [a[i]] + Union(a[i + 1..], b[j + 1..])
  {
    DropOne(a, i);
    DropOne(b, j);
  }

  /** One element more copied from the rest of a sequence. */
  lemma CopyOne(r: seq<nat>, s: seq<nat>, i: nat)
    requires i < |s|
    ensures r + s[i..] == (r + [s[i]]) + s[i + 1..]
  {
    DropOne(s, i);
    assert s[i..] == [s[i]] + s[i + 1..];
  }

  /** The loop that copies what is left of s once the other list is
      used up. */
  method AppendRest(r: seq<nat>, s: seq<nat>, i: nat) returns (out: seq<nat>)
    requires i <= |s|
    ensures out == r + s[i..]
  {
    out := r;
    var k := i;
    while k < |s|
      invariant i <= k <= |s|
      invariant out + s[k..] == r + s[i..]
    {
      CopyOne(out, s, k);
      out := out + [s[k]];
      k := k + 1;
    }
    assert s[k..] == [];
  }

  /** `unite`: the merge loop, then the two loops copying the rest. */
  method Unite(a: seq<nat>, b: seq<nat>) returns (r: seq<nat>)
    ensures r == Union(a, b)
    ensures Ascending(a) && Ascending(b) ==> Ascending(r)
  {
    r := [];
    var i, j := 0, 0;
    while i < |a| && j < |b|
      invariant 0 <= i <= |a| && 0 <= j <= |b|
      invariant r + Union(a[i..], b[j..]) == Union(a, b)
      decreases |a| - i + |b| - j
    {
      UnionFrom(a, b, i, j);
      if a[i] < b[j] {
        Assoc(r, [a[i]], Union(a[i + 1..], b[j..]));
        r := r + [a[i]];
        i := i + 1;
      } else if b[j] < a[i] {
        Assoc(r, [b[j]], Union(a[i..], b[j + 1..]));
        r := r + [b[j]];
        j := j + 1;
      } else {
        Assoc(r, [a[i]], Union(a[i + 1..], b[j + 1..]));
        r := r + [a[i]];
        i, j := i + 1, j + 1;
      }
    }
    UnionRest(a, b, i, j);
    Assoc(r, a[i..], b[j..]);
    r := AppendRest(r, a, i);
    r := AppendRest(r, b, j);
    if Ascending(a) && Ascending(b) {
      UnionAscending(a, b);
    }
  }

  /** Once one side is used up, the union is the rest of the other. */
  lemma UnionRest(a: seq<nat>, b: seq<nat>, i: nat, j: nat)
    requires i <= |a| && j <= |b| && (i == |a| || j == |b|)
    ensures Union(a[i..], b[j..]) == a[i..] + b[j..]
  {
    if i == |a| {
      assert a[i..] == [];
    } else {
      assert b[j..] == [];
    }
  }

  /** One step of the `exclude` merge at positions i and j. */
  lemma DifferenceFrom(a: seq<nat>, b: seq<nat>, i: nat, j: nat)
    requires i < |a| && j < |b|
    ensures Difference(a[i..], b[j..]) ==
              if a[i] < b[j] then [a[i]] + Difference(a[i + 1..], b[j..])
              else if b[j] < a[i] then Difference(a[i..], b[j + 1..])
              else Difference(a[i + 1..], b[j + 1..])
  {
    DropOne(a, i);
    DropOne(b, j);
  }

  /** `exclude`: the merge loop, then the loop copying the rest of a. */
  method Exclude(a: seq<nat>, b: seq<nat>) returns (r: seq<nat>)
    ensures r == Difference(a, b)
    ensures Ascending(a) && Ascending(b) ==>
              Ascending(r) && forall x :: x in r <==> x in a && x !in b
  {
    r := [];
    var i, j := 0, 0;
    while i < |a| && j < |b|
      invariant 0 <= i <= |a| && 0 <= j <= |b|
      invariant r + Difference(a[i..], b[j..]) == Difference(a, b)
      decreases |a| - i + |b| - j
    {
      DifferenceFrom(a, b, i, j);
      if a[i] < b[j] {
        Assoc(r, [a[i]], Difference(a[i + 1..], b[j..]));
        r := r + [a[i]];
        i := i + 1;
      } else if b[j] < a[i] {
        j := j + 1;
      } else {
        i, j := i + 1, j + 1;
      }
    }
    DifferenceRest(a, b, i, j);
    r := AppendRest(r, a, i);
    if Ascending(a) && Ascending(b) {
      DifferenceCorrect(a, b);
    }
  }

  /** Once a side is used up, the difference is the rest of a. */
  lemma DifferenceRest(a: seq<nat>, b: seq<nat>, i: nat, j: nat)
    requires i <= |a| && j <= |b| && (i == |a| || j == |b|)
    ensures Difference(a[i..], b[j..]) == a[i..]
  {
    if i == |a| {
      assert a[i..] == [];
    } else {
      assert b[j..] == [];
    }
  }
}
