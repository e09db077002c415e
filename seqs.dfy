/** Sequence helpers: positional insertion and removal, and distinctness. */
module Seqs {

  /** `l` with `x` placed at index `i`. */
  function InsertAt(l: seq<int>, i: nat, x: int): (r: seq<int>)
    requires i <= |l|
    ensures |r| == |l| + 1 && r[i] == x
    ensures forall j :: 0 <= j < i ==> r[j] == l[j]
    ensures forall j :: i < j < |r| ==> r[j] == l[j - 1]
  {
    seq(|l| + 1, j requires 0 <= j <= |l| => if j < i then l[j] else if j == i then x else l[j - 1])
  }

  /** `l` without its element at index `i`. */
  function RemoveAt(l: seq<int>, i: nat): (r: seq<int>)
    requires i < |l|
    ensures |r| == |l| - 1
    ensures forall j :: 0 <= j < i ==> r[j] == l[j]
    ensures forall j :: i <= j < |r| ==> r[j] == l[j + 1]
  {
    seq(|l| - 1, j requires 0 <= j < |l| - 1 => if j < i then l[j] else l[j + 1])
  }

  /** No element occurs twice. */
  ghost predicate Distinct(l: seq<int>) {
    forall i, j {:trigger Apart(l, i, j)} :: 0 <= i < j < |l| ==> Apart(l, i, j)
  }

  /** Positions `i` and `j` of `l` hold different entries. */
  ghost predicate Apart(l: seq<int>, i: int, j: int) {
    0 <= i < |l| && 0 <= j < |l| && l[i] != l[j]
  }

  /** Position of `x` in `l`. */
  ghost function Pos(l: seq<int>, x: int): (i: nat)
    requires x in l
    ensures i < |l| && l[i] == x
  {
    var i :| 0 <= i < |l| && l[i] == x; i
  }

  /** In a distinct sequence two positions hold the same entry only if they are equal. */
  lemma DistinctAt(l: seq<int>, i: int, j: int)
    requires Distinct(l) && 0 <= i < |l| && 0 <= j < |l|
    ensures l[i] == l[j] <==> i == j
  {
    if i < j {
      assert Apart(l, i, j);
    } else if j < i {
      assert Apart(l, j, i);
    }
  }

  /** In a list without repeats, no other position holds the entry at `j`. */
  lemma DistinctOthers(l: seq<int>, j: int)
    requires Distinct(l) && 0 <= j < |l|
    ensures forall i :: 0 <= i < |l| && i != j ==> l[i] != l[j]
  {
    forall i | 0 <= i < |l| && i != j ensures l[i] != l[j] {
      DistinctAt(l, i, j);
    }
  }

  /** Inserting an element not yet present keeps the sequence distinct. */
  lemma InsertKeepsDistinct(l: seq<int>, i: nat, p: int)
    requires Distinct(l) && i <= |l| && p !in l
    ensures Distinct(InsertAt(l, i, p))
  {
    var l' := InsertAt(l, i, p);
    forall j, k | 0 <= j < k < |l'| ensures l'[j] != l'[k] {
      if j < i && k > i { DistinctAt(l, j, k - 1); }
      else if j < i && k < i { DistinctAt(l, j, k); }
      else if j > i { DistinctAt(l, j - 1, k - 1); }
    }
  }

  /** Removing an entry keeps the list distinct. */
  lemma RemoveKeepsDistinct(l: seq<int>, i: nat)
    requires Distinct(l) && i < |l|
    ensures Distinct(RemoveAt(l, i))
  {
    var l' := RemoveAt(l, i);
    forall j, k | 0 <= j < k < |l'| ensures l'[j] != l'[k] {
      if j < i && k >= i { DistinctAt(l, j, k + 1); }
      else if j < i && k < i { DistinctAt(l, j, k); }
      else if j >= i { DistinctAt(l, j + 1, k + 1); }
    }
  }

  /** Every entry of `l` is still listed after an insertion. */
  lemma InsertKeepsEntries(l: seq<int>, i: nat, p: int)
    requires i <= |l|
    ensures forall k :: 0 <= k < |l| ==> l[k] in InsertAt(l, i, p)
  {
    var l' := InsertAt(l, i, p);
    forall k | 0 <= k < |l| ensures l[k] in l' {
      assert l'[if k < i then k else k + 1] == l[k];
    }
  }

  /** Every entry of `l` but the removed one is still listed after a removal. */
  lemma RemoveKeepsEntries(l: seq<int>, i: nat)
    requires i < |l|
    ensures forall k :: 0 <= k < |l| && k != i ==> l[k] in RemoveAt(l, i)
  {
    var l' := RemoveAt(l, i);
    forall k | 0 <= k < |l| && k != i ensures l[k] in l' {
      assert l'[if k < i then k else k - 1] == l[k];
    }
  }

  /** In a distinct sequence a removal takes out exactly the removed entry. */
  lemma RemoveDropsEntry(l: seq<int>, i: nat)
    requires Distinct(l) && i < |l|
    ensures forall x :: x in RemoveAt(l, i) <==> x in l && x != l[i]
  {
    RemoveKeepsEntries(l, i);
    DistinctOthers(l, i);
    var l' := RemoveAt(l, i);
    forall x | x in l' ensures x in l && x != l[i] {
      var j :| 0 <= j < |l'| && l'[j] == x;
      assert x == l[if j < i then j else j + 1];
    }
  }

  /** Index of the first occurrence of `n` in `order`, or -1 when there is none: the linear search of `std::find`. */
  function IndexIn(order: seq<int>, n: int): (k: int)
    ensures -1 <= k < |order|
    ensures k == -1 <==> n !in order
    ensures 0 <= k ==> order[k] == n && forall j :: 0 <= j < k ==> order[j] != n
  {
    if |order| == 0 then -1
    else if order[0] == n then 0
    else
      var k := IndexIn(order[1..], n);
      if k < 0 then -1 else k + 1
  }

  /** Appending an element not yet present keeps the sequence distinct. */
  lemma AppendKeepsDistinct(l: seq<int>, p: int)
    requires Distinct(l) && p !in l
    ensures Distinct(l + [p])
  {
    InsertKeepsDistinct(l, |l|, p);
    assert InsertAt(l, |l|, p) == l + [p];
  }

  /** An insertion is the prefix, the new element and the suffix. */
  lemma InsertAtSplit(l: seq<int>, i: nat, x: int)
    requires i <= |l|
    ensures InsertAt(l, i, x) == l[..i] + [x] + l[i..]
  {
  }

  /** Cutting `l[i..j]` out and then the next `k - j` entries cuts `l[i..k]` out. */
  lemma JoinCut(l: seq<int>, i: nat, j: nat, k: nat)
    requires i <= j <= k <= |l|
    ensures (l[..i] + l[j..])[..i] + (l[..i] + l[j..])[i + (k - j)..] == l[..i] + l[k..]
  {
    var c := l[..i] + l[j..];
    assert c[..i] == l[..i];
    assert c[i + (k - j)..] == l[k..];
  }

  /** Cutting `l[j..k]` out and then `l[i..j]`, just in front of it, cuts `l[i..k]` out. */
  lemma CutBefore(l: seq<int>, i: nat, j: nat, k: nat)
    requires i <= j <= k <= |l|
    ensures (l[..j] + l[k..])[..i] + (l[..j] + l[k..])[j..] == l[..i] + l[k..]
  {
    var c := l[..j] + l[k..];
    assert c[..i] == l[..i];
    assert c[j..] == l[k..];
  }

  /** Removing the entry just after a cut extends the cut by one. */
  lemma RemoveAfterCut(l: seq<int>, i: nat, j: nat)
    requires i <= j < |l|
    ensures RemoveAt(l[..i] + l[j..], i) == l[..i] + l[j + 1..]
  {
  }


  /** `l` with every occurrence of `x` taken out; the other entries keep their order. */
  ghost function Without(l: seq<int>, x: int): seq<int>
  {
    if |l| == 0 then [] else (if l[0] == x then [] else [l[0]]) + Without(l[1..], x)
  }

  /** Taking out an entry that is absent changes nothing. */
  lemma {:induction false} WithoutAbsent(l: seq<int>, x: int)
    requires x !in l
    ensures Without(l, x) == l
    decreases |l|
  {
    if |l| > 0 {
      WithoutAbsent(l[1..], x);
    }
  }

  /** Taking `x` out of `a + [x] + b`, where `a` and `b` lack it, leaves `a + b`. */
  lemma {:induction false} WithoutSplit(a: seq<int>, x: int, b: seq<int>)
    requires x !in a && x !in b
    ensures Without(a + [x] + b, x) == a + b
    decreases |a|
  {
    var l := a + [x] + b;
    if |a| == 0 {
      assert l[0] == x && l[1..] == b;
      WithoutAbsent(b, x);
    } else {
      assert l[0] == a[0] && l[1..] == a[1..] + [x] + b;
      WithoutSplit(a[1..], x, b);
      assert [a[0]] + (a[1..] + b) == a + b;
    }
  }

  /** In a distinct sequence the entry at `i` occurs neither before nor after `i`. */
  lemma DistinctSplit(l: seq<int>, i: nat)
    requires Distinct(l) && i < |l|
    ensures l[i] !in l[..i] && l[i] !in l[i + 1..]
  {
    var x, a, b := l[i], l[..i], l[i + 1..];
    forall j | 0 <= j < |a| ensures a[j] != x { DistinctAt(l, j, i); }
    forall j | 0 <= j < |b| ensures b[j] != x { DistinctAt(l, i + 1 + j, i); }
  }

  /** In a distinct sequence, taking out the entry at `i` is removing position `i`. */
  lemma WithoutRemoveAt(l: seq<int>, i: nat)
    requires Distinct(l) && i < |l|
    ensures Without(l, l[i]) == RemoveAt(l, i)
  {
    var x, a, b := l[i], l[..i], l[i + 1..];
    DistinctSplit(l, i);
    assert l == a + [x] + b;
    WithoutSplit(a, x, b);
    assert RemoveAt(l, i) == a + b;
  }

  /** Taking out an entry just inserted, absent before, gives the sequence back. */
  lemma WithoutInsertAt(l: seq<int>, i: nat, x: int)
    requires x !in l && i <= |l|
    ensures Without(InsertAt(l, i, x), x) == l
  {
    InsertAtSplit(l, i, x);
    WithoutSplit(l[..i], x, l[i..]);
    assert l[..i] + l[i..] == l;
  }
}
