/**
 * What `assign_dependencies` computes, on plain values: node `i` depends on
 * the names in `deps[i]`, and each such name sends `i` to the reverse-edge
 * list of the first node carrying that name.
 */
module ReverseEdges {
  import opened Wrappers
  import opened Records
  import Seqs

  /** `nodes.find { |d| d.name == n }`, on the node names: the first position holding `n`. */
  function FindNamed(names: seq<Name>, n: Name): (r: Option<nat>)
    ensures r.None? <==> n !in names
    ensures r.Some? ==> r.value < |names| && names[r.value] == n && n !in names[..r.value]
  {
    if n in names then Some(Seqs.FirstIndex(names, n)) else None
  }

  /** `c` copies of `i`. */
  function Repeat(i: nat, c: nat): (r: seq<nat>)
    ensures |r| == c
    ensures forall m :: 0 <= m < |r| ==> r[m] == i
  {
    seq(c, _ => i)
  }

  /** How many of the names in `ds` resolve to node `k`. */
  function Hits(names: seq<Name>, ds: seq<Name>, k: nat): nat {
    if ds == [] then 0
    else Hits(names, ds[..|ds| - 1], k) + (if FindNamed(names, ds[|ds| - 1]) == Some(k) then 1 else 0)
  }

  /** The nodes appended to node `k`'s reverse-edge list once every node's dependencies are processed, in order. */
  function Incoming(names: seq<Name>, deps: seq<seq<Name>>, k: nat): seq<nat> {
    if deps == [] then []
    else Incoming(names, deps[..|deps| - 1], k) + Repeat(|deps| - 1, Hits(names, deps[|deps| - 1], k))
  }

  /** The nodes appended to node `k` after the nodes before `i` and the first `j` dependencies of node `i`. */
  function Added(names: seq<Name>, deps: seq<seq<Name>>, i: nat, j: nat, k: nat): seq<nat>
    requires i < |deps| && j <= |deps[i]|
  {
    Incoming(names, deps[..i], k) + Repeat(i, Hits(names, deps[i][..j], k))
  }

  /** Every name of `ds` belongs to some node. */
  predicate AllIn(ds: seq<Name>, names: seq<Name>) {
    forall n :: n in ds ==> n in names
  }

  /** Every dependency name belongs to some node. */
  predicate AllFound(names: seq<Name>, deps: seq<seq<Name>>) {
    forall i :: 0 <= i < |deps| ==> AllIn(deps[i], names)
  }

  /** `deps[i][j]` is the first dependency, in processing order, that names no node. */
  predicate IsFirstMissing(names: seq<Name>, deps: seq<seq<Name>>, i: nat, j: nat) {
    && i < |deps| && j < |deps[i]| && deps[i][j] !in names
    && AllFound(names, deps[..i])
    && AllIn(deps[i][..j], names)
  }

  /** The message `assign_dependencies` raises for a dangling dependency name. */
  function MissingMessage(n: Name): string {
    "Could not find node with name '" + NameText(n) + "' in dag!"
  }

  /** When some dependency is dangling, there is a first one. */
  lemma {:induction false} FirstMissingExists(names: seq<Name>, deps: seq<seq<Name>>)
    requires !AllFound(names, deps)
    ensures exists i: nat, j: nat :: IsFirstMissing(names, deps, i, j)
    decreases |deps|
  {
    var front := deps[..|deps| - 1];
    var last := deps[|deps| - 1];
    if AllFound(names, front) {
      assert !AllIn(last, names) by {
        var i :| 0 <= i < |deps| && !AllIn(deps[i], names);
        assert i == |deps| - 1;
      }
      var j := FirstDangling(names, last);
      assert deps[..|deps| - 1] == front;
      assert IsFirstMissing(names, deps, |deps| - 1, j) by {
        assert forall n :: n in last[..j] ==> exists m :: 0 <= m < j && last[m] == n;
      }
    } else {
      FirstMissingExists(names, front);
      var i: nat, j: nat :| IsFirstMissing(names, front, i, j);
      assert deps[..i] == front[..i];
      assert IsFirstMissing(names, deps, i, j);
    }
  }

  /** The first name of `ds` that belongs to no node. */
  function FirstDangling(names: seq<Name>, ds: seq<Name>): (j: nat)
    requires !AllIn(ds, names)
    ensures j < |ds| && ds[j] !in names
    ensures forall m :: 0 <= m < j ==> ds[m] in names
  {
    if ds[0] !in names then 0
    else
      assert !AllIn(ds[1..], names) by {
        var n :| n in ds && n !in names;
        assert n in ds[1..];
      }
      1 + FirstDangling(names, ds[1..])
  }

  /** Node `k` hears from a list of names exactly when one of them resolves to `k`. */
  lemma {:induction false} HitsPositive(names: seq<Name>, ds: seq<Name>, k: nat)
    ensures Hits(names, ds, k) > 0 <==> exists j :: 0 <= j < |ds| && FindNamed(names, ds[j]) == Some(k)
    decreases |ds|
  {
    if ds != [] {
      var front := ds[..|ds| - 1];
      HitsPositive(names, front, k);
      assert forall j :: 0 <= j < |front| ==> front[j] == ds[j];
    }
  }

  /**
   * Reverse edges mirror forward edges, with multiplicity: node `i` occurs in
   * node `k`'s list as many times as `i`'s dependency names resolve to `k`.
   */
  lemma {:induction false} IncomingCounts(names: seq<Name>, deps: seq<seq<Name>>, k: nat, i: nat)
    ensures multiset(Incoming(names, deps, k))[i] == if i < |deps| then Hits(names, deps[i], k) else 0
    decreases |deps|
  {
    if deps != [] {
      var n := |deps| - 1;
      var front := deps[..n];
      IncomingCounts(names, front, k, i);
      var rep := Repeat(n, Hits(names, deps[n], k));
      var repCount: multiset<nat> := multiset(rep);
      assert repCount[i] == if i == n then |rep| else 0 by {
        if i == n {
          assert rep == seq(|rep|, _ => n);
          RepeatMultiset(n, |rep|);
        } else {
          assert i !in rep;
        }
      }
      if i < n {
        assert front[i] == deps[i];
      }
    }
  }

  lemma {:induction false} RepeatMultiset(i: nat, c: nat)
    ensures multiset(Repeat(i, c))[i] == c
    decreases c
  {
    if c > 0 {
      RepeatMultiset(i, c - 1);
      assert Repeat(i, c) == Repeat(i, c - 1) + [i];
    }
  }

  /**
   * The mirror property: node `i` is on node `k`'s reverse-edge list exactly
   * when one of `i`'s dependency names first resolves to `k`.
   */
  lemma IncomingMirrors(names: seq<Name>, deps: seq<seq<Name>>, k: nat, i: nat)
    ensures i in Incoming(names, deps, k) <==>
              i < |deps| && exists j :: 0 <= j < |deps[i]| && FindNamed(names, deps[i][j]) == Some(k)
  {
    IncomingCounts(names, deps, k, i);
    if i < |deps| {
      HitsPositive(names, deps[i], k);
    }
  }

  /** Reverse-edge lists are in node order. */
  lemma {:induction false} IncomingInNodeOrder(names: seq<Name>, deps: seq<seq<Name>>, k: nat)
    ensures forall a, b :: 0 <= a < b < |Incoming(names, deps, k)| ==>
              Incoming(names, deps, k)[a] <= Incoming(names, deps, k)[b]
    ensures forall a :: 0 <= a < |Incoming(names, deps, k)| ==> Incoming(names, deps, k)[a] < |deps|
    decreases |deps|
  {
    if deps != [] {
      var n := |deps| - 1;
      IncomingInNodeOrder(names, deps[..n], k);
      var front := Incoming(names, deps[..n], k);
      var rep := Repeat(n, Hits(names, deps[n], k));
      assert Incoming(names, deps, k) == front + rep;
      assert forall a :: 0 <= a < |front| ==> front[a] < n;
    }
  }

  /** Before node `i`'s first dependency, every node has heard from the nodes before `i`. */
  lemma AddedStart(names: seq<Name>, deps: seq<seq<Name>>, i: nat)
    requires i < |deps|
    ensures forall k: nat :: Added(names, deps, i, 0, k) == Incoming(names, deps[..i], k)
  {
    assert deps[i][..0] == [];
  }

  /** Processing dependency `j` of node `i` appends `i` to the node it names, and to no other. */
  lemma AddedStep(names: seq<Name>, deps: seq<seq<Name>>, i: nat, j: nat)
    requires i < |deps| && j < |deps[i]|
    ensures forall k: nat :: Added(names, deps, i, j + 1, k) ==
              Added(names, deps, i, j, k) + (if FindNamed(names, deps[i][j]) == Some(k) then [i] else [])
  {
    assert deps[i][..j + 1][..j] == deps[i][..j];
    forall k: nat
      ensures Added(names, deps, i, j + 1, k) ==
                Added(names, deps, i, j, k) + (if FindNamed(names, deps[i][j]) == Some(k) then [i] else [])
    {
      var c := Hits(names, deps[i][..j], k);
      assert Repeat(i, c + 1) == Repeat(i, c) + [i];
    }
  }

  /** After node `i`'s last dependency, every node has heard from every node up to `i`. */
  lemma AddedComplete(names: seq<Name>, deps: seq<seq<Name>>, i: nat)
    requires i < |deps|
    ensures forall k: nat :: Added(names, deps, i, |deps[i]|, k) == Incoming(names, deps[..i + 1], k)
  {
    assert deps[..i + 1][..i] == deps[..i];
    assert deps[i][..|deps[i]|] == deps[i];
  }

  lemma AllInStep(ds: seq<Name>, j: nat, names: seq<Name>)
    requires j < |ds| && AllIn(ds[..j], names) && ds[j] in names
    ensures AllIn(ds[..j + 1], names)
  {
    assert ds[..j + 1] == ds[..j] + [ds[j]];
  }

  lemma AllFoundStep(deps: seq<seq<Name>>, i: nat, names: seq<Name>)
    requires i < |deps| && AllFound(names, deps[..i]) && AllIn(deps[i][..|deps[i]|], names)
    ensures AllFound(names, deps[..i + 1])
  {
    assert deps[i][..|deps[i]|] == deps[i];
    assert deps[..i + 1] == deps[..i] + [deps[i]];
  }
}
