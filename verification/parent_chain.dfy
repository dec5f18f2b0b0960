/**
  AFSIsChildOfParent: walks the ParentFcb chain of a cache node looking for a
  given directory node. Nodes are arena indices; the parent map holds the
  ParentFcb pointer of every node that has one (a missing key is NULL).
  The walk terminates because parent chains are acyclic, which the model
  states with a rank that strictly decreases from a node to its parent.
*/
module ParentChain {
  import opened Types

  /** Every parent link goes to a node of strictly smaller rank. */
  ghost predicate Ranked(parent: map<FcbId, FcbId>, rank: map<FcbId, nat>) {
    forall n :: n in parent ==> n in rank && parent[n] in rank && rank[parent[n]] < rank[n]
  }

  /** d is a strict ancestor of n: the parent of n, or a strict ancestor of that parent. */
  ghost function IsStrictAncestor(parent: map<FcbId, FcbId>, rank: map<FcbId, nat>, d: FcbId, n: FcbId): bool
    requires Ranked(parent, rank)
    decreases if n in rank then rank[n] else 0
  {
    n in parent && (parent[n] == d || IsStrictAncestor(parent, rank, d, parent[n]))
  }

  /** AFSIsChildOfParent(Dcb, Fcb): the cursor starts at Fcb and climbs until its parent is Dcb or it runs out. */
  method IsChildOfParent(parent: map<FcbId, FcbId>, ghost rank: map<FcbId, nat>, dcb: FcbId, fcb: FcbId)
    returns (isChild: bool)
    requires Ranked(parent, rank)
    ensures isChild <==> IsStrictAncestor(parent, rank, dcb, fcb)
  {
    isChild := false;
    var current: Option<FcbId> := Some(fcb);
    while current.Some?
      invariant current.Some? ==> !isChild
      invariant current.Some? ==>
        (IsStrictAncestor(parent, rank, dcb, fcb) <==> IsStrictAncestor(parent, rank, dcb, current.value))
      invariant current.None? ==> (isChild <==> IsStrictAncestor(parent, rank, dcb, fcb))
      decreases if current.None? then 0 else if current.value in rank then rank[current.value] + 1 else 1
    {
      var c := current.value;
      if c in parent && parent[c] == dcb {
        isChild := true;
        break;
      }
      current := if c in parent then Some(parent[c]) else None;
    }
  }

  /** An ancestor sits strictly lower in the rank than its descendant. */
  lemma {:induction false} AncestorRankLower(parent: map<FcbId, FcbId>, rank: map<FcbId, nat>, d: FcbId, n: FcbId)
    requires Ranked(parent, rank)
    requires IsStrictAncestor(parent, rank, d, n)
    ensures n in rank && d in rank && rank[d] < rank[n]
    decreases rank[n]
  {
    if parent[n] != d {
      AncestorRankLower(parent, rank, d, parent[n]);
    }
  }

  /** On an acyclic chain no node is its own child: AFSIsChildOfParent(X, X) is FALSE. */
  lemma NotOwnAncestor(parent: map<FcbId, FcbId>, rank: map<FcbId, nat>, x: FcbId)
    requires Ranked(parent, rank)
    ensures !IsStrictAncestor(parent, rank, x, x)
  {
    if IsStrictAncestor(parent, rank, x, x) {
      AncestorRankLower(parent, rank, x, x);
    }
  }

  /** The ancestor relation is transitive. */
  lemma {:induction false} AncestorTransitive(parent: map<FcbId, FcbId>, rank: map<FcbId, nat>, a: FcbId, b: FcbId, c: FcbId)
    requires Ranked(parent, rank)
    requires IsStrictAncestor(parent, rank, a, b)
    requires IsStrictAncestor(parent, rank, b, c)
    ensures IsStrictAncestor(parent, rank, a, c)
    decreases rank[c]
  {
    if parent[c] != b {
      AncestorTransitive(parent, rank, a, b, parent[c]);
    }
  }
}
