/**
 * `compress(walk)`: removes the cycles of a walk by starting at its first
 * element and repeatedly jumping to the position just after the last
 * occurrence of the current element.
 */
module WalkCompression {
  import opened GraphSpec

  /** The position of the last occurrence of `v` in `s`. */
  function LastIndex<V(==, !new)>(s: seq<V>, v: V): (r: nat)
    requires v in s
    ensures r < |s| && s[r] == v
    ensures forall j :: r < j < |s| ==> s[j] != v
  {
    if s[|s| - 1] == v then |s| - 1 else LastIndex(s[..|s| - 1], v)
  }

  /** The elements kept when the jumping starts at position `i`. */
  function CompressFrom<V(==, !new)>(walk: seq<V>, i: nat): seq<V>
    requires i <= |walk|
    decreases |walk| - i
  {
    if i == |walk| then [] else [walk[i]] + CompressFrom(walk, LastIndex(walk, walk[i]) + 1)
  }

  /** The value `compress(walk)` returns. */
  function Compressed<V(==, !new)>(walk: seq<V>): seq<V> {
    CompressFrom(walk, 0)
  }

  /** `a` is `b` with some elements dropped: `idx` lists, in increasing order, the positions kept. */
  ghost predicate SubsequenceAt<V(!new)>(a: seq<V>, b: seq<V>, idx: seq<nat>) {
    && |idx| == |a|
    && (forall k :: 0 <= k < |idx| ==> idx[k] < |b| && a[k] == b[idx[k]])
    && (forall k, l :: 0 <= k < l < |idx| ==> idx[k] < idx[l])
  }

  ghost predicate IsSubsequence<V(!new)>(a: seq<V>, b: seq<V>) {
    exists idx :: SubsequenceAt(a, b, idx)
  }

  /** The first pass of `compress`: maps every element of the walk to the position of its last occurrence. */
  method LastPositions<V(==, !new)>(walk: seq<V>) returns (lasttime: map<V, nat>)
    ensures lasttime.Keys == set v | v in walk
    ensures forall v :: v in lasttime ==> lasttime[v] == LastIndex(walk, v)
  {
    lasttime := map[];
    for i := 0 to |walk|
      invariant forall v :: v in lasttime <==> v in walk[..i]
      invariant forall v :: v in lasttime ==> lasttime[v] < i && walk[lasttime[v]] == v
      invariant forall v, j :: v in lasttime && lasttime[v] < j < i ==> walk[j] != v
    {
      lasttime := lasttime[walk[i] := i];
    }
    assert walk[..|walk|] == walk;
    forall v | v in lasttime ensures lasttime[v] == LastIndex(walk, v) {
      LastIndexUnique(walk, v, lasttime[v]);
    }
  }

  /**
   * The second pass of `compress`: from the front, keep the current
   * element and jump to one past its last occurrence.
   */
  method JumpPast<V(==, !new)>(walk: seq<V>, lasttime: map<V, nat>) returns (rv: seq<V>)
    requires forall v :: v in walk ==> v in lasttime && lasttime[v] == LastIndex(walk, v)
    ensures rv == Compressed(walk)
  {
    rv := [];
    var i := 0;
    while i < |walk|
      invariant i <= |walk|
      invariant rv + CompressFrom(walk, i) == Compressed(walk)
      decreases |walk| - i
    {
      rv := rv + [walk[i]];
      i := lasttime[walk[i]] + 1;
    }
  }

  /**
   * `compress(walk)`: the first pass records each element's last position,
   * the second follows those positions from the front.
   */
  method Compress<V(==, !new)>(walk: seq<V>) returns (rv: seq<V>)
    ensures rv == Compressed(walk)
    ensures walk != [] ==> rv != [] && rv[0] == walk[0] && rv[|rv| - 1] == walk[|walk| - 1]
    ensures NoRepeats(rv)
    ensures IsSubsequence(rv, walk)
  {
    var lasttime := LastPositions(walk);
    rv := JumpPast(walk, lasttime);
    CompressedProperties(walk);
  }

  /** A position holding `v` with no `v` after it is the last index of `v`. */
  lemma LastIndexUnique<V(!new)>(s: seq<V>, v: V, r: nat)
    requires r < |s| && s[r] == v && forall j :: r < j < |s| ==> s[j] != v
    ensures LastIndex(s, v) == r
  {
  }

  /** The kept elements sit at increasing positions from `i` on, the first one at `i`. */
  lemma {:induction false} CompressFromPositions<V(!new)>(walk: seq<V>, i: nat) returns (idx: seq<nat>)
    requires i <= |walk|
    ensures SubsequenceAt(CompressFrom(walk, i), walk, idx)
    ensures forall k :: 0 <= k < |idx| ==> i <= idx[k]
    ensures i < |walk| ==> idx[0] == i
    decreases |walk| - i
  {
    if i == |walk| {
      idx := [];
    } else {
      var j := LastIndex(walk, walk[i]) + 1;
      var rest := CompressFromPositions(walk, j);
      assert CompressFrom(walk, i) == [walk[i]] + CompressFrom(walk, j);
      idx := ConsPosition(CompressFrom(walk, j), walk, rest, i, j);
    }
  }

  /** Keeping position `i` in front of positions that all come after it keeps a subsequence. */
  lemma ConsPosition<V(!new)>(a: seq<V>, b: seq<V>, idx: seq<nat>, i: nat, j: nat) returns (idx': seq<nat>)
    requires SubsequenceAt(a, b, idx) && i < j && i < |b|
    requires forall k :: 0 <= k < |idx| ==> j <= idx[k]
    ensures idx' == [i] + idx
    ensures SubsequenceAt([b[i]] + a, b, idx')
    ensures forall k :: 0 <= k < |idx'| ==> i <= idx'[k]
  {
    idx' := [i] + idx;
    forall k, l | 0 <= k < l < |idx'| ensures idx'[k] < idx'[l] {
      if k > 0 {
        assert idx'[k] == idx[k - 1] && idx'[l] == idx[l - 1];
      } else {
        assert idx'[l] == idx[l - 1];
      }
    }
  }

  /** The kept elements never repeat. */
  lemma {:induction false} CompressFromNoRepeats<V(!new)>(walk: seq<V>, i: nat)
    requires i <= |walk|
    ensures NoRepeats(CompressFrom(walk, i))
    decreases |walk| - i
  {
    if i < |walk| {
      var j := LastIndex(walk, walk[i]) + 1;
      CompressFromNoRepeats(walk, j);
      var rest := CompressFrom(walk, j);
      var idx := CompressFromPositions(walk, j);
      forall k | 0 <= k < |rest| ensures rest[k] != walk[i] {
        assert rest[k] == walk[idx[k]] && j <= idx[k];
      }
    }
  }

  /** Starting inside the walk, the kept elements end with the walk's last element. */
  lemma {:induction false} CompressFromEnds<V(!new)>(walk: seq<V>, i: nat)
    requires i < |walk|
    ensures CompressFrom(walk, i) != []
    ensures CompressFrom(walk, i)[0] == walk[i]
    ensures CompressFrom(walk, i)[|CompressFrom(walk, i)| - 1] == walk[|walk| - 1]
    decreases |walk| - i
  {
    var j := LastIndex(walk, walk[i]) + 1;
    assert CompressFrom(walk, i) == [walk[i]] + CompressFrom(walk, j);
    if j < |walk| {
      CompressFromEnds(walk, j);
    } else {
      assert walk[i] == walk[|walk| - 1];
    }
  }

  /** `compress` keeps the first and last element, never repeats one and only drops elements. */
  lemma CompressedProperties<V(!new)>(walk: seq<V>)
    ensures walk != [] ==> Compressed(walk) != [] && Compressed(walk)[0] == walk[0]
    ensures walk != [] ==> Compressed(walk)[|Compressed(walk)| - 1] == walk[|walk| - 1]
    ensures NoRepeats(Compressed(walk))
    ensures IsSubsequence(Compressed(walk), walk)
  {
    if walk != [] {
      CompressFromEnds(walk, 0);
    }
    CompressFromNoRepeats(walk, 0);
    var idx := CompressFromPositions(walk, 0);
  }

  /** A walk without repeated elements is returned unchanged. */
  lemma {:induction false} CompressFromWithoutRepeats<V(!new)>(walk: seq<V>, i: nat)
    requires i <= |walk| && NoRepeats(walk)
    ensures CompressFrom(walk, i) == walk[i..]
    decreases |walk| - i
  {
    if i < |walk| {
      LastIndexUnique(walk, walk[i], i);
      CompressFromWithoutRepeats(walk, i + 1);
    }
  }

  lemma CompressedWithoutRepeats<V(!new)>(walk: seq<V>)
    requires NoRepeats(walk)
    ensures Compressed(walk) == walk
  {
    CompressFromWithoutRepeats(walk, 0);
  }

  /**
   * Each pair of consecutive kept elements is a pair of consecutive
   * elements of the walk, so compressing a path of a graph gives a path of
   * the same graph.
   */
  lemma {:induction false} CompressFromKeepsWalk<V(!new)>(to: map<V, set<V>>, walk: seq<V>, i: nat)
    requires i <= |walk| && IsWalk(to, walk)
    ensures IsWalk(to, CompressFrom(walk, i))
    decreases |walk| - i
  {
    if i < |walk| {
      var j := LastIndex(walk, walk[i]) + 1;
      CompressFromKeepsWalk(to, walk, j);
      assert CompressFrom(walk, i) == [walk[i]] + CompressFrom(walk, j);
      if j < |walk| {
        CompressFromEnds(walk, j);
        assert HasEdge(to, walk[j - 1], walk[j]);
      }
      ConsWalk(to, walk[i], CompressFrom(walk, j));
    }
  }

  lemma CompressedKeepsPath<V(!new)>(to: map<V, set<V>>, walk: seq<V>, s: V, d: V)
    requires IsPathFromTo(to, walk, s, d)
    ensures IsPathFromTo(to, Compressed(walk), s, d)
  {
    CompressFromKeepsWalk(to, walk, 0);
    CompressedProperties(walk);
  }
}
