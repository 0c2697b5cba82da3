/** Column-by-column interleaving of blocks of different lengths, and its inverse. */
module Interleaving {

  /** The entries at index `i`, for the blocks long enough to have one, in block order. */
  function Column<T>(bs: seq<seq<T>>, i: nat): seq<T> {
    if bs == [] then []
    else
      var b := bs[|bs| - 1];
      Column(bs[..|bs| - 1], i) + (if i < |b| then [b[i]] else [])
  }

  /** Columns 0 .. n-1, one after the other. */
  function Columns<T>(bs: seq<seq<T>>, n: nat): seq<T> {
    if n == 0 then [] else Columns(bs, n - 1) + Column(bs, n - 1)
  }

  function MaxLength<T>(bs: seq<seq<T>>): (m: nat)
    ensures forall r :: 0 <= r < |bs| ==> |bs[r]| <= m
  {
    if bs == [] then 0
    else
      var m := MaxLength(bs[..|bs| - 1]);
      if m < |bs[|bs| - 1]| then |bs[|bs| - 1]| else m
  }

  function Interleaved<T>(bs: seq<seq<T>>): seq<T> {
    Columns(bs, MaxLength(bs))
  }

  function Flatten<T>(bs: seq<seq<T>>): seq<T> {
    if bs == [] then [] else Flatten(bs[..|bs| - 1]) + bs[|bs| - 1]
  }

  function Lengths<T>(bs: seq<seq<T>>): (ls: seq<nat>)
    ensures |ls| == |bs|
  {
    seq(|bs|, r requires 0 <= r < |bs| => |bs[r]|)
  }

  // ----- the interleaved stream is a permutation of the blocks -----

  /** Every block cut to its first `n` entries. */
  function Cut<T>(bs: seq<seq<T>>, n: nat): (cs: seq<seq<T>>)
    ensures |cs| == |bs|
  {
    seq(|bs|, r requires 0 <= r < |bs| => if n < |bs[r]| then bs[r][..n] else bs[r])
  }

  lemma CutBlock<T>(b: seq<T>, n: nat)
    ensures (if n + 1 < |b| then b[..n + 1] else b) == (if n < |b| then b[..n] else b) + (if n < |b| then [b[n]] else [])
  {
  }

  lemma FlattenLast<T>(bs: seq<seq<T>>)
    requires bs != []
    ensures Flatten(bs) == Flatten(bs[..|bs| - 1]) + bs[|bs| - 1]
  {
  }

  lemma CutFront<T>(bs: seq<seq<T>>, n: nat)
    requires bs != []
    ensures Cut(bs, n)[..|bs| - 1] == Cut(bs[..|bs| - 1], n)
  {
  }

  lemma {:induction false} CutOneMore<T>(bs: seq<seq<T>>, n: nat)
    ensures multiset(Flatten(Cut(bs, n + 1))) == multiset(Flatten(Cut(bs, n))) + multiset(Column(bs, n))
  {
    if bs != [] {
      var front, b := bs[..|bs| - 1], bs[|bs| - 1];
      var c1, c0 := Cut(bs, n + 1)[|front|], Cut(bs, n)[|front|];
      var t := if n < |b| then [b[n]] else [];
      CutBlock(b, n);
      assert c1 == c0 + t;
      assert Column(bs, n) == Column(front, n) + t;
      hide Flatten, Cut, Column;
      CutFront(bs, n);
      CutFront(bs, n + 1);
      FlattenLast(Cut(bs, n + 1));
      FlattenLast(Cut(bs, n));
      CutOneMore(front, n);
    }
  }

  lemma {:induction false} ColumnsAreCut<T>(bs: seq<seq<T>>, n: nat)
    ensures multiset(Columns(bs, n)) == multiset(Flatten(Cut(bs, n)))
  {
    hide Column, Flatten, Cut;
    if n == 0 {
      CutToNothing(bs);
    } else {
      var m := n - 1;
      ColumnsAreCut(bs, m);
      CutOneMore(bs, m);
      assert Columns(bs, n) == Columns(bs, m) + Column(bs, m);
    }
  }

  lemma {:induction false} CutToNothing<T>(bs: seq<seq<T>>)
    ensures Flatten(Cut(bs, 0)) == []
  {
    if bs != [] {
      CutToNothing(bs[..|bs| - 1]);
      assert Cut(bs, 0)[..|bs| - 1] == Cut(bs[..|bs| - 1], 0);
    }
  }

  lemma InterleavedIsPermutation<T>(bs: seq<seq<T>>)
    ensures multiset(Interleaved(bs)) == multiset(Flatten(bs))
    ensures |Interleaved(bs)| == |Flatten(bs)|
  {
    ColumnsAreCut(bs, MaxLength(bs));
    assert Cut(bs, MaxLength(bs)) == bs;
    assert |multiset(Interleaved(bs))| == |Interleaved(bs)|;
    assert |multiset(Flatten(bs))| == |Flatten(bs)|;
  }

  // ----- the inverse -----

  /** How many of the blocks have an entry at index `i`. */
  function Count(ls: seq<nat>, i: nat): nat {
    if ls == [] then 0 else Count(ls[..|ls| - 1], i) + (if i < ls[|ls| - 1] then 1 else 0)
  }

  /** The length of columns 0 .. n-1. */
  function CountBelow(ls: seq<nat>, n: nat): nat {
    if n == 0 then 0 else CountBelow(ls, n - 1) + Count(ls, n - 1)
  }

  /** Where entry `i` of block `r` goes. */
  function Position(ls: seq<nat>, r: nat, i: nat): nat
    requires r < |ls|
  {
    CountBelow(ls, i) + Count(ls[..r], i)
  }

  /** Reads the blocks back out of the stream. */
  function Deinterleaved<T>(s: seq<T>, ls: seq<nat>): (bs: seq<seq<T>>)
    requires forall r, i {:trigger Position(ls, r, i)} :: 0 <= r < |ls| && 0 <= i < ls[r] ==> Position(ls, r, i) < |s|
  {
    seq(|ls|, r requires 0 <= r < |ls| =>
      seq(ls[r], i requires 0 <= i < ls[r] => s[Position(ls, r, i)]))
  }

  lemma {:induction false} ColumnLength<T>(bs: seq<seq<T>>, i: nat)
    ensures |Column(bs, i)| == Count(Lengths(bs), i)
  {
    if bs != [] {
      ColumnLength(bs[..|bs| - 1], i);
      assert Lengths(bs)[..|bs| - 1] == Lengths(bs[..|bs| - 1]);
    }
  }

  lemma {:induction false} ColumnsLength<T>(bs: seq<seq<T>>, n: nat)
    ensures |Columns(bs, n)| == CountBelow(Lengths(bs), n)
  {
    hide Column, Count, Lengths;
    if n > 0 {
      ColumnsLength(bs, n - 1);
      ColumnLength(bs, n - 1);
    }
  }

  lemma {:induction false} ColumnAt<T>(bs: seq<seq<T>>, r: nat, i: nat)
    requires r < |bs| && i < |bs[r]|
    ensures Count(Lengths(bs)[..r], i) < |Column(bs, i)|
    ensures Column(bs, i)[Count(Lengths(bs)[..r], i)] == bs[r][i]
  {
    var n := |bs| - 1;
    assert Lengths(bs)[..n] == Lengths(bs[..n]);
    if r == n {
      ColumnLength(bs[..n], i);
    } else {
      ColumnAt(bs[..n], r, i);
      assert Lengths(bs)[..r] == Lengths(bs[..n])[..r];
    }
  }

  lemma {:induction false} ColumnsAt<T>(bs: seq<seq<T>>, n: nat, r: nat, i: nat)
    requires r < |bs| && i < |bs[r]| && i < n
    ensures Position(Lengths(bs), r, i) < |Columns(bs, n)|
    ensures Columns(bs, n)[Position(Lengths(bs), r, i)] == bs[r][i]
  {
    hide Column, Count, Lengths;
    if i == n - 1 {
      ColumnsLength(bs, i);
      ColumnAt(bs, r, i);
    } else {
      ColumnsAt(bs, n - 1, r, i);
    }
  }

  /** De-interleaving by the block lengths gives back every block. */
  lemma DeinterleavedInterleaved<T>(bs: seq<seq<T>>)
    ensures forall r, i {:trigger Position(Lengths(bs), r, i)} ::
      0 <= r < |bs| && 0 <= i < |bs[r]| ==> Position(Lengths(bs), r, i) < |Interleaved(bs)|
    ensures Deinterleaved(Interleaved(bs), Lengths(bs)) == bs
  {
    forall r, i | 0 <= r < |bs| && 0 <= i < |bs[r]|
      ensures Position(Lengths(bs), r, i) < |Interleaved(bs)|
      ensures Interleaved(bs)[Position(Lengths(bs), r, i)] == bs[r][i]
    {
      ColumnsAt(bs, MaxLength(bs), r, i);
    }
    hide Interleaved, Position;
    var s, ls := Interleaved(bs), Lengths(bs);
    forall r | 0 <= r < |bs| ensures Deinterleaved(s, ls)[r] == bs[r] {
      assert forall i :: 0 <= i < |bs[r]| ==> Deinterleaved(s, ls)[r][i] == s[Position(ls, r, i)];
    }
  }

  // ----- the order of the stream -----

  lemma {:induction false} CountPrefix(ls: seq<nat>, r: nat, i: nat)
    requires r <= |ls|
    ensures Count(ls[..r], i) <= Count(ls, i)
    ensures r < |ls| && i < ls[r] ==> Count(ls[..r], i) < Count(ls, i)
  {
    if r < |ls| {
      var n := |ls| - 1;
      CountPrefix(ls[..n], r, i);
      assert ls[..n][..r] == ls[..r];
    } else {
      assert ls[..r] == ls;
    }
  }

  lemma {:induction false} CountBelowMonotone(ls: seq<nat>, m: nat, n: nat)
    requires m <= n
    ensures CountBelow(ls, m) <= CountBelow(ls, n)
  {
    if m < n { CountBelowMonotone(ls, m, n - 1); }
  }

  /** Of two entries, the one with the smaller index comes first, whatever their blocks; among entries
      with one index the earlier block comes first. */
  lemma EntryBefore(ls: seq<nat>, r: nat, i: nat, r': nat, i': nat)
    requires r < |ls| && i < ls[r] && r' < |ls| && i' < ls[r']
    requires i < i' || (i == i' && r < r')
    ensures Position(ls, r, i) < Position(ls, r', i')
  {
    if i < i' {
      CountPrefix(ls, r, i);
      CountBelowMonotone(ls, i + 1, i');
    } else {
      CountPrefix(ls[..r'], r, i);
      assert ls[..r'][..r] == ls[..r];
    }
  }

  /** The stream is in order of index, then of block. */
  lemma PositionOrder(ls: seq<nat>, r: nat, i: nat, r': nat, i': nat)
    requires r < |ls| && i < ls[r] && r' < |ls| && i' < ls[r']
    ensures Position(ls, r, i) < Position(ls, r', i') <==> i < i' || (i == i' && r < r')
  {
    hide Position;
    if i < i' || (i == i' && r < r') {
      EntryBefore(ls, r, i, r', i');
    } else if i' < i || r' < r {
      EntryBefore(ls, r', i', r, i);
    }
  }
}
