/** Sequence surgery shared by the table, the history and the JSON maps. */
module Seqs {

  /** JavaScript's `a.splice(i, 0, x)`: inserts `x` before position `i`; a
      position past the end appends. */
  function InsertAt<T>(s: seq<T>, i: nat, x: T): (r: seq<T>)
    ensures |r| == |s| + 1
    ensures i <= |s| ==> r[i] == x && r[..i] == s[..i] && r[i + 1..] == s[i..]
    ensures i > |s| ==> r == s + [x]
  {
    if i <= |s| then s[..i] + [x] + s[i..] else s + [x]
  }

  /** JavaScript's `a.splice(i, 1)`: removes the element at `i`; a position
      past the end removes nothing. */
  function RemoveAt<T>(s: seq<T>, i: nat): (r: seq<T>)
    ensures i < |s| ==> |r| == |s| - 1 && r[..i] == s[..i] && r[i..] == s[i + 1..]
    ensures i >= |s| ==> r == s
  {
    if i < |s| then s[..i] + s[i + 1..] else s
  }

  lemma RemoveInserted<T>(s: seq<T>, i: nat, x: T)
    requires i <= |s|
    ensures RemoveAt(InsertAt(s, i, x), i) == s
  {
    assert InsertAt(s, i, x)[..i] + InsertAt(s, i, x)[i + 1..] == s[..i] + s[i..];
  }

  lemma ReinsertRemoved<T>(s: seq<T>, i: nat)
    requires i < |s|
    ensures InsertAt(RemoveAt(s, i), i, s[i]) == s
  {
    assert s[..i] + [s[i]] + s[i + 1..] == s;
  }

  /** No element occurs twice. */
  predicate NoDup<T(==)>(s: seq<T>)
  {
    forall i, j :: 0 <= i < j < |s| ==> s[i] != s[j]
  }

  /** The position of the first occurrence of `x` in `s`. */
  function FirstIndex<T(==)>(s: seq<T>, x: T): (r: nat)
    requires x in s
    ensures r < |s| && s[r] == x && x !in s[..r]
  {
    if s[0] == x then 0 else 1 + FirstIndex(s[1..], x)
  }

  lemma FirstIndexIsUnique<T>(s: seq<T>, x: T, p: nat)
    requires p < |s| && s[p] == x && x !in s[..p]
    ensures FirstIndex(s, x) == p
  {
  }

  /** The distinct elements of `s`, in the order in which each is first seen:
      the loop that pushes a key onto an accumulator unless the accumulator
      already contains it. */
  function FirstSeen<T(==)>(s: seq<T>): (r: seq<T>)
    ensures NoDup(r)
    ensures forall i :: 0 <= i < |r| ==> r[i] in s
    ensures forall i :: 0 <= i < |s| ==> s[i] in r
    ensures |r| <= |s|
    decreases |s|
  {
    if |s| == 0 then []
    else
      var acc := FirstSeen(s[..|s| - 1]);
      var last := s[|s| - 1];
      assert s == s[..|s| - 1] + [last];
      if last in acc then acc else acc + [last]
  }

  /** One more element: the first-seen list grows by it exactly when it is
      new. */
  lemma FirstSeenSnoc<T>(s: seq<T>, x: T)
    ensures FirstSeen(s + [x]) == if x in FirstSeen(s) then FirstSeen(s) else FirstSeen(s) + [x]
  {
    assert (s + [x])[..|s|] == s;
  }

  /** The first-seen list holds exactly the elements of the sequence. */
  lemma FirstSeenMembers<T>(s: seq<T>)
    ensures forall x :: x in s <==> x in FirstSeen(s)
  {
    forall x | x in s
      ensures x in FirstSeen(s)
    {
      var i :| 0 <= i < |s| && s[i] == x;
    }
  }

  /** The first-seen list is ordered by first occurrence. */
  lemma {:induction false} FirstSeenOrder<T>(s: seq<T>)
    ensures forall i, j :: 0 <= i < j < |FirstSeen(s)| ==>
              FirstIndex(s, FirstSeen(s)[i]) < FirstIndex(s, FirstSeen(s)[j])
    decreases |s|
  {
    if |s| > 0 {
      var init := s[..|s| - 1];
      var last := s[|s| - 1];
      assert s == init + [last];
      FirstSeenOrder(init);
      var r0 := FirstSeen(init);
      var r := FirstSeen(s);
      assert r == if last in r0 then r0 else r0 + [last] by {
        FirstSeenSnoc(init, last);
      }
      forall i, j | 0 <= i < j < |r|
        ensures FirstIndex(s, r[i]) < FirstIndex(s, r[j])
      {
        assert r[i] == r0[i] && r0[i] in init;
        FirstIndexOfPrefix(init, last, r[i]);
        if j < |r0| {
          assert r[j] == r0[j] && r0[j] in init;
          FirstIndexOfPrefix(init, last, r[j]);
        } else {
          assert r[j] == last && last !in init;
          FirstIndexOfPrefix(init, last, last);
        }
      }
    }
  }

  /** Appending an element moves no first occurrence; a new element is
      first seen at the end. */
  lemma FirstIndexOfPrefix<T>(init: seq<T>, last: T, x: T)
    requires x in init || x == last
    ensures x in init ==> FirstIndex(init + [last], x) == FirstIndex(init, x)
    ensures x !in init ==> FirstIndex(init + [last], x) == |init|
  {
    var s := init + [last];
    assert s[..|init|] == init;
    if x in init {
      var p := FirstIndex(init, x);
      assert s[..p] == init[..p];
      FirstIndexIsUnique(s, x, p);
    } else {
      FirstIndexIsUnique(s, x, |init|);
    }
  }

  /** A sequence without duplicates is its own first-seen list. */
  lemma {:induction false} FirstSeenOfDistinct<T>(s: seq<T>)
    requires NoDup(s)
    ensures FirstSeen(s) == s
    decreases |s|
  {
    if |s| > 0 {
      var init := s[..|s| - 1];
      FirstSeenOfDistinct(init);
      assert s[|s| - 1] !in init;
      assert init + [s[|s| - 1]] == s;
    }
  }

  /** Appending elements that were all seen already changes nothing. */
  lemma {:induction false} FirstSeenAbsorbs<T>(s: seq<T>, t: seq<T>)
    requires forall x :: x in t ==> x in s
    ensures FirstSeen(s + t) == FirstSeen(s)
    decreases |t|
  {
    if |t| > 0 {
      var init := t[..|t| - 1];
      assert (s + t)[..|s + t| - 1] == s + init;
      FirstSeenAbsorbs(s, init);
      var last := t[|t| - 1];
      assert (s + t)[|s + t| - 1] == last;
      assert last in t;
      assert last in s;
      var i :| 0 <= i < |s| && s[i] == last;
      assert (s + init)[i] == last;
      assert last in FirstSeen(s + init);
      var u := s + t;
      assert u[..|u| - 1] == s + init;
      assert FirstSeen(u) == FirstSeen(u[..|u| - 1]);
    } else {
      assert s + t == s;
    }
  }
}
