/**
 * A `LinkedHashSet` as the sequence of its elements in insertion order:
 * adding an element already present leaves the order alone.
 */
module OrderedSet {

  /** `set.add(x)`. */
  function Insert<T(==)>(elems: seq<T>, x: T): seq<T> {
    if x in elems then elems else elems + [x]
  }

  /** `set.addAll(xs)`: each element of `xs` added in turn. */
  function AddAll<T(==)>(elems: seq<T>, xs: seq<T>): seq<T>
    decreases |xs|
  {
    if xs == [] then elems else Insert(AddAll(elems, xs[..|xs| - 1]), xs[|xs| - 1])
  }

  /** `new LinkedHashSet<>(xs)` read back in iteration order. */
  function Dedup<T(==)>(xs: seq<T>): seq<T> {
    AddAll([], xs)
  }

  predicate NoDuplicates<T(==)>(s: seq<T>) {
    forall i, j :: 0 <= i < j < |s| ==> s[i] != s[j]
  }

  /** Position of the first occurrence of `x`. */
  function IndexOf<T(==)>(s: seq<T>, x: T): (k: nat)
    requires x in s
    ensures k < |s| && s[k] == x && x !in s[..k]
  {
    if s[0] == x then 0 else 1 + IndexOf(s[1..], x)
  }

  /** Adding at most one more element. */
  lemma DedupSnoc<T>(xs: seq<T>, tail: seq<T>)
    requires |tail| <= 1
    ensures Dedup(xs + tail) == if tail == [] then Dedup(xs) else Insert(Dedup(xs), tail[0])
  {
    if tail == [] {
      assert xs + tail == xs;
    } else {
      assert (xs + tail)[..|xs|] == xs;
    }
  }

  /** Adding one list and then another is adding their concatenation. */
  lemma {:induction false} AddAllConcat<T>(elems: seq<T>, a: seq<T>, b: seq<T>)
    ensures AddAll(AddAll(elems, a), b) == AddAll(elems, a + b)
    decreases |b|
  {
    if b == [] {
      assert a + b == a;
    } else {
      var b' := b[..|b| - 1];
      assert (a + b)[..|a + b| - 1] == a + b';
      AddAllConcat(elems, a, b');
    }
  }

  /** The set holds exactly what it held before plus what was added. */
  lemma {:induction false} AddAllMembers<T>(elems: seq<T>, xs: seq<T>)
    ensures forall x :: x in AddAll(elems, xs) <==> x in elems || x in xs
    decreases |xs|
  {
    if xs != [] {
      var xs' := xs[..|xs| - 1];
      AddAllMembers(elems, xs');
      assert xs == xs' + [xs[|xs| - 1]];
    }
  }

  /** Adding never creates a second copy of an element. */
  lemma {:induction false} AddAllNoDuplicates<T>(elems: seq<T>, xs: seq<T>)
    requires NoDuplicates(elems)
    ensures NoDuplicates(AddAll(elems, xs))
    decreases |xs|
  {
    if xs != [] {
      AddAllNoDuplicates(elems, xs[..|xs| - 1]);
    }
  }

  lemma {:induction false} IndexOfAppend<T>(s: seq<T>, y: T, x: T)
    requires x in s
    ensures IndexOf(s + [y], x) == IndexOf(s, x)
  {
    if s[0] != x {
      assert (s + [y])[1..] == s[1..] + [y];
      IndexOfAppend(s[1..], y, x);
    }
  }

  /**
   * The order of a deduplicated list is the order of first occurrence in
   * the input, and it holds each element of the input exactly once.
   */
  lemma {:induction false} DedupFirstOccurrence<T>(xs: seq<T>)
    ensures NoDuplicates(Dedup(xs))
    ensures forall x :: x in Dedup(xs) <==> x in xs
    ensures forall i, j :: 0 <= i < j < |Dedup(xs)| ==>
              IndexOf(xs, Dedup(xs)[i]) < IndexOf(xs, Dedup(xs)[j])
    decreases |xs|
  {
    AddAllNoDuplicates([], xs);
    AddAllMembers([], xs);
    if xs != [] {
      var ys, y := xs[..|xs| - 1], xs[|xs| - 1];
      assert xs == ys + [y];
      DedupFirstOccurrence(ys);
      var d := Dedup(ys);
      forall e | e in ys
        ensures IndexOf(xs, e) == IndexOf(ys, e)
      {
        IndexOfAppend(ys, y, e);
      }
      if y !in d {
        assert IndexOf(xs, y) == |ys| by {
          assert y !in ys;
          assert xs[..|ys|] == ys;
        }
      }
    }
  }

  /** `r` is duplicate-free, holds the elements of `xs` and lists them in first-occurrence order. */
  ghost predicate FirstOccurrenceOrder<T>(xs: seq<T>, r: seq<T>) {
    && NoDuplicates(r)
    && (forall i :: 0 <= i < |r| ==> r[i] in xs)
    && (forall i :: 0 <= i < |xs| ==> xs[i] in r)
    && (forall i, j :: 0 <= i < j < |r| ==> IndexOf(xs, r[i]) < IndexOf(xs, r[j]))
  }

  lemma DedupIsFirstOccurrenceOrder<T>(xs: seq<T>)
    ensures FirstOccurrenceOrder(xs, Dedup(xs))
  {
    DedupFirstOccurrence(xs);
    var d := Dedup(xs);
    forall i | 0 <= i < |d|
      ensures d[i] in xs
    {
      assert d[i] in d;
      DedupMember(xs, d[i]);
    }
  }

  lemma DedupMember<T>(xs: seq<T>, x: T)
    ensures x in Dedup(xs) <==> x in xs
  {
    AddAllMembers([], xs);
  }

  /** Nothing is a member of the empty list. */
  lemma MembersOfEmpty<T>(r: seq<T>, xs: seq<T>)
    requires forall i :: 0 <= i < |r| ==> r[i] in xs
    ensures xs == [] ==> r == []
  {
    if r != [] {
      assert r[0] in xs;
    }
  }

  lemma IndexOfInit<T>(xs: seq<T>)
    requires xs != []
    ensures forall e :: e in xs[..|xs| - 1] ==> IndexOf(xs, e) == IndexOf(xs[..|xs| - 1], e)
  {
    var ys := xs[..|xs| - 1];
    assert xs == ys + [xs[|xs| - 1]];
    forall e | e in ys
      ensures IndexOf(xs, e) == IndexOf(ys, e)
    {
      IndexOfAppend(ys, xs[|xs| - 1], e);
    }
  }

  /** An element that first occurs at the very end comes last. */
  lemma LastNewElementComesLast<T>(xs: seq<T>, r: seq<T>)
    requires xs != [] && xs[|xs| - 1] !in xs[..|xs| - 1]
    requires FirstOccurrenceOrder(xs, r)
    ensures r != [] && r[|r| - 1] == xs[|xs| - 1]
    ensures FirstOccurrenceOrder(xs[..|xs| - 1], r[..|r| - 1])
  {
    var ys, r' := xs[..|xs| - 1], r[..|r| - 1];
    NewElementIsLast(xs, r);
    InitMembers(xs, r, ys, r');
    InitCovered(xs, r, ys, r');
    InitKeepsOrder(xs, r, ys, r');
    assert NoDuplicates(r') by {
      forall i, j | 0 <= i < j < |r'|
        ensures r'[i] != r'[j]
      {
        assert r'[i] == r[i] && r'[j] == r[j];
      }
    }
  }

  /** Dropping the last element of both keeps every other element inside the shorter input. */
  lemma InitMembers<T>(xs: seq<T>, r: seq<T>, ys: seq<T>, r': seq<T>)
    requires xs != [] && ys == xs[..|xs| - 1]
    requires r != [] && r' == r[..|r| - 1] && r[|r| - 1] == xs[|xs| - 1]
    requires NoDuplicates(r)
    requires forall i :: 0 <= i < |r| ==> r[i] in xs
    ensures forall i :: 0 <= i < |r'| ==> r'[i] in ys
  {
    forall i | 0 <= i < |r'|
      ensures r'[i] in ys
    {
      assert r[i] != r[|r| - 1];
      assert r[i] in xs;
      assert xs == ys + [xs[|xs| - 1]];
    }
  }

  /** Dropping the last element of both keeps every element of the shorter input listed. */
  lemma InitCovered<T>(xs: seq<T>, r: seq<T>, ys: seq<T>, r': seq<T>)
    requires xs != [] && ys == xs[..|xs| - 1] && xs[|xs| - 1] !in ys
    requires r != [] && r' == r[..|r| - 1] && r[|r| - 1] == xs[|xs| - 1]
    requires forall i :: 0 <= i < |xs| ==> xs[i] in r
    ensures forall i :: 0 <= i < |ys| ==> ys[i] in r'
  {
    forall i | 0 <= i < |ys|
      ensures ys[i] in r'
    {
      assert xs[i] in r && xs[i] == ys[i];
      var m :| 0 <= m < |r| && r[m] == xs[i];
      assert m != |r| - 1;
      assert r'[m] == ys[i];
    }
  }

  /** Dropping the last element of both keeps the order of the rest. */
  lemma InitKeepsOrder<T>(xs: seq<T>, r: seq<T>, ys: seq<T>, r': seq<T>)
    requires xs != [] && ys == xs[..|xs| - 1]
    requires r != [] && r' == r[..|r| - 1]
    requires forall i :: 0 <= i < |r| ==> r[i] in xs
    requires forall i :: 0 <= i < |r'| ==> r'[i] in ys
    requires forall i, j :: 0 <= i < j < |r| ==> IndexOf(xs, r[i]) < IndexOf(xs, r[j])
    ensures forall i, j :: 0 <= i < j < |r'| ==> IndexOf(ys, r'[i]) < IndexOf(ys, r'[j])
  {
    IndexOfInit(xs);
    forall i, j | 0 <= i < j < |r'|
      ensures IndexOf(ys, r'[i]) < IndexOf(ys, r'[j])
    {
      assert r'[i] == r[i] && r'[j] == r[j];
      assert r'[i] in ys && r'[j] in ys;
    }
  }

  /** The step of `LastNewElementComesLast` that places the new element. */
  lemma NewElementIsLast<T>(xs: seq<T>, r: seq<T>)
    requires xs != [] && xs[|xs| - 1] !in xs[..|xs| - 1]
    requires FirstOccurrenceOrder(xs, r)
    ensures r != [] && r[|r| - 1] == xs[|xs| - 1]
  {
    var ys, y := xs[..|xs| - 1], xs[|xs| - 1];
    assert xs[|xs| - 1] in r;
    var k :| 0 <= k < |r| && r[k] == y;
    assert IndexOf(xs, y) == |ys| by {
      assert xs[..|ys|] == ys;
    }
    // the element after y, if there were one, would occur in ys, before y:
    // naming r[k + 1] when it exists instantiates the ordering quantifier of
    // FirstOccurrenceOrder at k, k + 1, and that instance contradicts
    // IndexOf(xs, y) == |ys|; when k is the last index the term is r[k]
    IndexOfInit(xs);
    ghost var after := r[if k + 1 < |r| then k + 1 else k];
    assert k == |r| - 1;
  }

  /** With a repeated last element, the same list orders the shorter input. */
  lemma RepeatedElementAddsNothing<T>(xs: seq<T>, r: seq<T>)
    requires xs != [] && xs[|xs| - 1] in xs[..|xs| - 1]
    requires FirstOccurrenceOrder(xs, r)
    ensures FirstOccurrenceOrder(xs[..|xs| - 1], r)
  {
    var ys := xs[..|xs| - 1];
    IndexOfInit(xs);
    assert xs == ys + [xs[|xs| - 1]];
    assert forall x :: x in xs <==> x in ys;
  }

  /**
   * Only one list is duplicate-free, holds the elements of `xs` and lists
   * them in first-occurrence order: those three properties define `Dedup`.
   */
  lemma {:induction false} DedupUnique<T>(xs: seq<T>, r: seq<T>)
    requires FirstOccurrenceOrder(xs, r)
    ensures r == Dedup(xs)
    decreases |xs|
  {
    if xs == [] {
      MembersOfEmpty(r, xs);
    } else {
      var ys, y := xs[..|xs| - 1], xs[|xs| - 1];
      assert xs == ys + [y];
      DedupSnoc(ys, [y]);
      DedupMember(ys, y);
      if y in ys {
        RepeatedElementAddsNothing(xs, r);
        DedupUnique(ys, r);
      } else {
        LastNewElementComesLast(xs, r);
        DedupUnique(ys, r[..|r| - 1]);
        assert r == r[..|r| - 1] + [y];
      }
    }
  }
}
