/**
 Order-preserving de-duplication of a sequence, keeping the first occurrence
 of every element, as the scraper's `if x not in acc: acc.append(x)` loop does.
 */
module Seqs {

  predicate NoDup<T(==)>(s: seq<T>) {
    forall i, j :: 0 <= i < j < |s| ==> s[i] != s[j]
  }

  /** Index of the first occurrence of `x` in `s`. */
  function FirstIndex<T(==)>(s: seq<T>, x: T): (r: nat)
    requires x in s
    ensures r < |s| && s[r] == x
    ensures forall j :: 0 <= j < r ==> s[j] != x
  {
    if s[0] == x then 0 else 1 + FirstIndex(s[1..], x)
  }

  /** The distinct elements of `s` in the order they first appear. */
  function Dedup<T(==)>(s: seq<T>): seq<T>
    decreases |s|
  {
    if |s| == 0 then []
    else
      var d := Dedup(s[..|s| - 1]);
      if s[|s| - 1] in d then d else d + [s[|s| - 1]]
  }

  /** Appending one element to the input appends it to the de-duplicated
      sequence exactly when it is new. */
  lemma DedupSnoc<T>(s: seq<T>, x: T)
    ensures Dedup(s + [x]) == if x in Dedup(s) then Dedup(s) else Dedup(s) + [x]
  {
    assert (s + [x])[..|s|] == s;
  }

  /** `Dedup` keeps every element of `s` and nothing else. */
  lemma {:induction false} DedupMembers<T>(s: seq<T>)
    ensures forall x :: x in Dedup(s) <==> x in s
    decreases |s|
  {
    if |s| > 0 {
      var p := s[..|s| - 1];
      var y := s[|s| - 1];
      assert s == p + [y];
      DedupMembers(p);
      DedupSnoc(p, y);
    }
  }

  /** `Dedup` holds no element twice. */
  lemma {:induction false} DedupNoDup<T>(s: seq<T>)
    ensures NoDup(Dedup(s))
    decreases |s|
  {
    if |s| > 0 {
      var p := s[..|s| - 1];
      var y := s[|s| - 1];
      assert s == p + [y];
      DedupNoDup(p);
      DedupSnoc(p, y);
    }
  }

  /** The first occurrence of an element already in `p` does not move when
      `p` grows at the back. */
  lemma FirstIndexSnoc<T>(p: seq<T>, y: T, x: T)
    requires x in p
    ensures FirstIndex(p + [y], x) == FirstIndex(p, x)
  {
    var k := FirstIndex(p, x);
    assert (p + [y])[k] == x;
    assert forall j :: 0 <= j < k ==> (p + [y])[j] == p[j];
  }

  /** `Dedup` lists the elements in the order of their first occurrence. */
  lemma {:induction false} DedupOrder<T>(s: seq<T>)
    ensures forall k :: 0 <= k < |Dedup(s)| ==> Dedup(s)[k] in s
    ensures forall i, j :: 0 <= i < j < |Dedup(s)| ==>
              FirstIndex(s, Dedup(s)[i]) < FirstIndex(s, Dedup(s)[j])
    decreases |s|
  {
    if |s| > 0 {
      var p := s[..|s| - 1];
      var y := s[|s| - 1];
      assert s == p + [y];
      DedupOrder(p);
      DedupMembers(p);
      DedupMembers(s);
      DedupSnoc(p, y);
      var d := Dedup(p);
      var e := Dedup(s);
      assert e == d || (e == d + [y] && y !in p);
      forall i, j | 0 <= i < j < |e|
        ensures FirstIndex(s, e[i]) < FirstIndex(s, e[j])
      {
        assert e[i] == d[i] && e[i] in p;
        FirstIndexSnoc(p, y, e[i]);
        if j < |d| {
          assert e[j] == d[j] && e[j] in p;
          FirstIndexSnoc(p, y, e[j]);
        } else {
          assert e[j] == y;
          assert FirstIndex(s, y) == |p|;
        }
      }
    }
  }

  /** A prefix of a sequence without duplicates has none either. */
  lemma PrefixNoDup<T>(s: seq<T>, n: nat)
    requires n <= |s| && NoDup(s)
    ensures NoDup(s[..n])
  {
  }
}
