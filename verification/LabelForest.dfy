/** Union-find over component labels: parent pointers never point upwards (src/detection/post_process_utils.cpp, find_root). */
module LabelForest {

  ghost predicate Descending(parent: seq<nat>) {
    forall l :: 0 <= l < |parent| ==> parent[l] <= l
  }

  ghost function Root(parent: seq<nat>, l: nat): (r: nat)
    requires Descending(parent) && l < |parent|
    ensures r <= l && r < |parent| && parent[r] == r
  {
    if parent[l] == l then l else Root(parent, parent[l])
  }

  /** Pointing a label at its grandparent moves no root. */
  lemma {:induction false} HalvingKeepsRoots(parent: seq<nat>, l: nat, k: nat)
    requires Descending(parent) && l < |parent| && k < |parent|
    ensures Descending(parent[l := parent[parent[l]]])
    ensures Root(parent[l := parent[parent[l]]], k) == Root(parent, k)
  {
    var halved := parent[l := parent[parent[l]]];
    if halved[k] != k {
      HalvingKeepsRoots(parent, l, halved[k]);
    }
  }

  /** Hanging root `hi` under the smaller root `lo` merges exactly their two trees. */
  lemma {:induction false} LinkingMergesTrees(parent: seq<nat>, lo: nat, hi: nat, k: nat)
    requires Descending(parent) && lo < hi < |parent| && parent[lo] == lo && parent[hi] == hi && k < |parent|
    ensures Descending(parent[hi := lo])
    ensures Root(parent[hi := lo], k) == if Root(parent, k) == hi then lo else Root(parent, k)
  {
    var linked := parent[hi := lo];
    assert linked[lo] == lo;
    if k == hi {
      assert Root(linked, hi) == Root(linked, lo) == lo;
    } else if parent[k] != k {
      LinkingMergesTrees(parent, lo, hi, parent[k]);
    }
  }

  /** A fresh label is its own root and changes no other. */
  lemma {:induction false} FreshLabelKeepsRoots(parent: seq<nat>, k: nat)
    requires Descending(parent) && k < |parent|
    ensures Descending(parent + [|parent|]) && Root(parent + [|parent|], k) == Root(parent, k)
  {
    if parent[k] != k {
      FreshLabelKeepsRoots(parent, parent[k]);
    }
  }

  class Forest {
    var parent: seq<nat>

    constructor ()
      ensures parent == []
    {
      parent := [];
    }

    /** Walks to the root and halves the path behind it; the roots of all labels stay as they are. */
    method FindRoot(start: nat) returns (root: nat)
      requires Descending(parent) && start < |parent|
      modifies this
      ensures Descending(parent) && |parent| == |old(parent)| && root == Root(parent, start) == Root(old(parent), start)
      ensures forall k :: 0 <= k < |parent| ==> Root(parent, k) == Root(old(parent), k)
    {
      var current: nat := start;
      while parent[current] != current
        invariant Descending(parent) && |parent| == |old(parent)| && current < |parent|
        invariant Root(parent, current) == Root(old(parent), start)
        invariant forall k :: 0 <= k < |parent| ==> Root(parent, k) == Root(old(parent), k)
        decreases current
      {
        forall k | 0 <= k < |parent|
          ensures Descending(parent[current := parent[parent[current]]])
          ensures Root(parent[current := parent[parent[current]]], k) == Root(parent, k)
        {
          HalvingKeepsRoots(parent, current, k);
        }
        parent := parent[current := parent[parent[current]]];
        current := parent[current];
      }
      root := current;
    }

    method AddLabel() returns (added: nat)
      requires Descending(parent)
      modifies this
      ensures parent == old(parent) + [added] && added == |old(parent)| && Descending(parent)
      ensures Root(parent, added) == added
      ensures forall k :: 0 <= k < |old(parent)| ==> Root(parent, k) == Root(old(parent), k)
    {
      added := |parent|;
      parent := parent + [added];
      forall k | 0 <= k < |old(parent)|
        ensures Root(parent, k) == Root(old(parent), k)
      {
        FreshLabelKeepsRoots(old(parent), k);
      }
    }

    /** Joins the trees of two roots under the smaller of them. */
    method Link(a: nat, b: nat) returns (low: nat)
      requires Descending(parent) && a < |parent| && b < |parent| && parent[a] == a && parent[b] == b
      modifies this
      ensures Descending(parent) && |parent| == |old(parent)|
      ensures low == if a < b then a else b
      ensures forall k :: 0 <= k < |parent| ==>
                Root(parent, k) == if Root(old(parent), k) == a || Root(old(parent), k) == b then low else Root(old(parent), k)
    {
      low := if a < b then a else b;
      if a != b {
        var high := if a < b then b else a;
        forall k | 0 <= k < |parent|
          ensures Descending(parent[high := low])
          ensures Root(parent[high := low], k) == if Root(parent, k) == high then low else Root(parent, k)
        {
          LinkingMergesTrees(parent, low, high, k);
        }
        parent := parent[high := low];
      }
    }

    /** Finds the roots of two labels and joins their trees if they differ. */
    method Join(a: nat, b: nat) returns (low: nat)
      requires Descending(parent) && a < |parent| && b < |parent|
      modifies this
      ensures Descending(parent) && |parent| == |old(parent)| && low < |parent| && Root(parent, low) == low
      ensures var ra, rb := Root(old(parent), a), Root(old(parent), b); low == if ra < rb then ra else rb
      ensures forall k :: 0 <= k < |parent| ==>
                Root(parent, k) == if Root(old(parent), k) == Root(old(parent), a) || Root(old(parent), k) == Root(old(parent), b) then low
                                   else Root(old(parent), k)
    {
      var rootA := FindRoot(a);
      var rootB := FindRoot(b);
      assert parent[Root(parent, a)] == Root(parent, a);
      low := Link(rootA, rootB);
      assert Root(parent, rootA) == low;
    }
  }
}
