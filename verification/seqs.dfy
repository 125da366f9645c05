/**
 * Sequence helpers shared by the writers: concatenating a sequence of
 * sequences (a run of appended strings, or a run of batches), and the
 * arithmetic that ties a run of equally sized partitions to division.
 */
module Seqs {

  /** Concatenation of `xss` in order; on strings, the text of appending each one. */
  function Flatten<T>(xss: seq<seq<T>>): seq<T>
  {
    if xss == [] then [] else Flatten(xss[..|xss| - 1]) + xss[|xss| - 1]
  }

  lemma AppendAssoc<T>(a: seq<T>, b: seq<T>, c: seq<T>)
    ensures (a + b) + c == a + (b + c)
  {
  }

  lemma FlattenSnoc<T>(xss: seq<seq<T>>, ys: seq<T>)
    ensures Flatten(xss + [ys]) == Flatten(xss) + ys
  {
    assert (xss + [ys])[..|xss|] == xss;
  }

  /** Flattening distributes over splitting the parts at `i`. */
  lemma {:induction false} FlattenSplit<T>(xss: seq<seq<T>>, i: nat)
    requires i <= |xss|
    ensures Flatten(xss) == Flatten(xss[..i]) + Flatten(xss[i..])
    decreases |xss|
  {
    if i == |xss| {
      assert xss[..i] == xss && xss[i..] == [];
    } else {
      var n := |xss| - 1;
      var init, last := xss[..n], xss[n];
      var front, back := init[..i], init[i..];
      assert Flatten(init) == Flatten(front) + Flatten(back) by {
        FlattenSplit(init, i);
      }
      assert front == xss[..i];
      assert Flatten(xss[i..]) == Flatten(back) + last by {
        assert xss[i..] == back + [last];
        FlattenSnoc(back, last);
      }
      assert Flatten(xss) == Flatten(init) + last;
      AppendAssoc(Flatten(front), Flatten(back), last);
    }
  }

  lemma FlattenSingle<T>(ys: seq<T>)
    ensures Flatten([ys]) == ys
  {
    FlattenSnoc([], ys);
  }

  /** When the first `n` parts have size `c`, part `k < n` sits at `[k*c, (k+1)*c)` of the flattening, whatever follows. */
  lemma FlattenPart<T>(xss: seq<seq<T>>, c: nat, n: nat, k: nat, tail: seq<T>)
    requires n <= |xss| && k < n
    requires forall j :: 0 <= j < n ==> |xss[j]| == c
    ensures (k + 1) * c <= |Flatten(xss) + tail|
    ensures (Flatten(xss) + tail)[k * c .. (k + 1) * c] == xss[k]
  {
    var before, part, after := xss[..k], xss[k], xss[k + 1..];
    var a, r := Flatten(before), Flatten(after) + tail;
    assert |a| == k * c by {
      assert forall j :: 0 <= j < |before| ==> |before[j]| == c;
      FlattenLength(before, c);
    }
    assert Flatten(xss) + tail == a + (part + r) by {
      FlattenSplit(xss, k);
      assert xss[k..] == [part] + after;
      FlattenCons(part, after);
      AppendAssoc(part, Flatten(after), tail);
      AppendAssoc(a, part + Flatten(after), tail);
    }
    MulSucc(k, c);
    SliceMiddle(a, part, r);
  }

  /** The slice covering the middle part of a concatenation is that part. */
  lemma SliceMiddle<T>(a: seq<T>, b: seq<T>, r: seq<T>)
    ensures (a + (b + r))[|a| .. |a| + |b|] == b
  {
  }

  /** Flattening a part followed by more parts. */
  lemma FlattenCons<T>(ys: seq<T>, xss: seq<seq<T>>)
    ensures Flatten([ys] + xss) == ys + Flatten(xss)
  {
    FlattenSplit([ys] + xss, 1);
    assert ([ys] + xss)[..1] == [ys] && ([ys] + xss)[1..] == xss;
    FlattenSingle(ys);
  }

  lemma {:induction false} FlattenLength<T>(xss: seq<seq<T>>, c: nat)
    requires forall j :: 0 <= j < |xss| ==> |xss[j]| == c
    ensures |Flatten(xss)| == |xss| * c
  {
    if xss != [] {
      var n := |xss| - 1;
      FlattenLength(xss[..n], c);
      MulSucc(n, c);
    }
  }

  lemma MulSucc(k: nat, c: nat)
    ensures (k + 1) * c == k * c + c
  {
  }

  /** Division and remainder are determined by any decomposition `n == q*c + r` with `r < c`. */
  lemma DivModOf(n: nat, q: nat, r: nat, c: nat)
    requires 0 <= r < c
    requires n == q * c + r
    ensures n / c == q && n % c == r
  {
    var q' := n / c;
    if q' > q { MulMonotone(q + 1, q', c); }
    if q' < q { MulMonotone(q' + 1, q, c); }
  }

  lemma MulMonotone(a: nat, b: nat, c: nat)
    requires a <= b
    ensures a * c <= b * c
  {
  }
}
