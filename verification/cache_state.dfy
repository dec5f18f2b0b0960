/**
  The parts of the redirector's name cache that AFSInvalidateCache touches,
  as values, and AFSInvalidateCache itself as a function of them. The
  Redirector class of NameCache keeps the same parts in fields and its
  methods are proved to leave them as these functions say; the properties
  of invalidation are stated here, once, as lemmas about the functions.

  A Cache holds what invalidation changes; a Layout holds what it only
  reads (the nodes' fixed fields, ParentFcb, the flat Fcb lists and the
  volume tree).
*/
module CacheState {
  import opened Types
  import opened DirEntries
  import FileIndex
  import ParentChain

  /** Header.NodeTypeCode: AFS_DIRECTORY_FCB, AFS_FILE_FCB, or any other kind of node. */
  datatype NodeType = DirectoryFcb | FileFcb | OtherFcb

  /** AFS_FCB_INVALID, AFS_FCB_INSERTED_ID_TREE, AFS_FCB_DIRECTORY_ENUMERATED. */
  datatype FcbFlag = Invalid | InsertedIdTree | DirectoryEnumerated

  /**
    A key of the volume tree or of a FileID tree: the ULONGLONG index
    AFSCreateHighIndex or AFSCreateLowIndex makes of a FileId, as a number.
  */
  newtype TreeKey = x: int | 0 <= x < 0x1_0000_0000_0000_0000

  function KeyOf(index: bv64): TreeKey {
    index as int as TreeKey
  }

  /** The parts of an Fcb that invalidation reads but never changes. */
  datatype FcbNode = FcbNode(
    nodeType: NodeType,
    root: FcbId,        // RootFcb: the volume root whose FileID tree and Fcb list hold this node
    dirEntry: DirId,    // DirEntry
    treeKey: TreeKey)      // TreeEntry.HashIndex: the node's key in its root's FileID tree

  /** The fields of an Fcb that invalidation sets and clears. */
  datatype FcbState = FcbState(
    flags: set<FcbFlag>,
    extentsRequestStatus: NtStatus,     // NPFcb->Specific.File.ExtentsRequestStatus
    extentsRequestComplete: bool)       // whether the ExtentsRequestComplete event is signalled

  const InitialFcbState := FcbState({}, StatusSuccess, false)

  /** A directory node's list of entries (DirectoryNodeListHead onwards) and its two name trees. */
  datatype DirNodes = DirNodes(list: seq<DirId>, caseSensitive: set<DirId>, caseInsensitive: set<DirId>)

  const NoDirNodes := DirNodes([], {}, {})

  /** A call into code outside the model, with the arguments that matter. */
  datatype Call =
    | RemoveAFSRoot
    | BuildTargetDirectory(fcb: FcbId)
    | InitRootFcb(entry: DirId)
    | FlushExtents(fcb: FcbId, requestStatus: NtStatus)        // with the node's ExtentsRequestStatus at the call
    | TearDownFcbExtents(fcb: FcbId, requestStatus: NtStatus)

  /** A flush or teardown issued while the node's extent requests stood cancelled. */
  predicate IsCancelledExtentsCall(c: Call) {
    (c.FlushExtents? || c.TearDownFcbExtents?) && c.requestStatus == StatusCancelled
  }

  /** AFS_INVALIDATE_DELETED or any other reason. */
  datatype Reason = Deleted | OtherReason

  /** AFSInvalidateCacheCB. */
  datatype InvalidateRequest = InvalidateRequest(fileId: FileId, wholeVolume: bool, reason: Reason)

  /** What AFSBuildTargetDirectory returns and the TargetFcb it leaves behind. */
  datatype BuildOutcome = BuildOutcome(status: NtStatus, target: Option<FcbId>)

  /** How an operation ends: it returns a status, or it dereferences NULL and the machine stops. */
  datatype Outcome = Returned(status: NtStatus) | BugCheck

  /** s without any occurrence of x. */
  function Without(s: seq<DirId>, x: DirId): (r: seq<DirId>)
    ensures forall y :: y in r <==> y in s && y != x
    ensures x in s ==> |r| < |s|
    ensures |r| <= |s|
  {
    if s == [] then []
    else if s[0] == x then Without(s[1..], x)
    else [s[0]] + Without(s[1..], x)
  }

  /** AFSRemoveDirNodeFromParent and AFSDeleteDirEntry as far as the directory is concerned. */
  function RemovedFrom(n: DirNodes, e: DirId): (r: DirNodes)
    ensures forall y :: y in r.list <==> y in n.list && y != e
    ensures e !in r.caseSensitive && e !in r.caseInsensitive
    ensures r.caseSensitive <= n.caseSensitive && r.caseInsensitive <= n.caseInsensitive
  {
    DirNodes(Without(n.list, e), n.caseSensitive - {e}, n.caseInsensitive - {e})
  }

  /** An entry whose node the purge loop has released: unbound and marked AFS_DIR_RELEASE_DIRECTORY_NODE. */
  function Unbound(e: DirEntry): (r: DirEntry)
    ensures r.fcb.None? && ReleaseDirectoryNode in r.flags && e.flags <= r.flags
    ensures r.info == e.info && r.fileName == e.fileName
  {
    e.(fcb := None, flags := e.flags + {ReleaseDirectoryNode})
  }

  function StateOf(m: map<FcbId, FcbState>, f: FcbId): FcbState {
    if f in m then m[f] else InitialFcbState
  }

  function DirOf(m: map<FcbId, DirNodes>, d: FcbId): DirNodes {
    if d in m then m[d] else NoDirNodes
  }

  function TreeOf(m: map<FcbId, map<TreeKey, FcbId>>, r: FcbId): map<TreeKey, FcbId> {
    if r in m then m[r] else map[]
  }

  function RefsOf(m: map<FcbId, int>, f: FcbId): int {
    if f in m then m[f] else 0
  }

  function ListOf(m: map<FcbId, seq<FcbId>>, r: FcbId): seq<FcbId> {
    if r in m then m[r] else []
  }

  /** What invalidation changes. */
  datatype Cache = Cache(
    entries: map<DirId, DirEntry>,
    dirs: map<FcbId, DirNodes>,                   // Specific.Directory of directory nodes
    state: map<FcbId, FcbState>,
    fileIdTree: map<FcbId, map<TreeKey, FcbId>>,     // per volume root: low index -> node
    openRefs: map<FcbId, int>,                    // OpenReferenceCount
    targetFcb: map<FcbId, FcbId>,                 // SymbolicLink/MountPoint.TargetFcb, where not NULL
    log: seq<Call>)
  {
    function State(f: FcbId): FcbState { StateOf(state, f) }
    function Flags(f: FcbId): set<FcbFlag> { State(f).flags }
    function Dir(d: FcbId): DirNodes { DirOf(dirs, d) }
    function List(d: FcbId): seq<DirId> { Dir(d).list }
    function IdTree(r: FcbId): map<TreeKey, FcbId> { TreeOf(fileIdTree, r) }
    function Refs(f: FcbId): int { RefsOf(openRefs, f) }

    /**
      Node f has left the cache: INVALID set, INSERTED_ID_TREE clear, its key
      gone from its root's FileID tree. In a cache whose trees hold each node
      under its own key, this leaves f in no tree (InvalidatedInNoTree).
    */
    predicate Invalidated(nodes: map<FcbId, FcbNode>, f: FcbId) {
      f in nodes && Invalid in Flags(f) && InsertedIdTree !in Flags(f) &&
      nodes[f].treeKey !in IdTree(nodes[f].root)
    }

    /** A file node's extent requests stand cancelled and their waiters have been woken. */
    predicate Cancelled(nodes: map<FcbId, FcbNode>, f: FcbId) {
      f in nodes &&
      (nodes[f].nodeType == FileFcb ==> State(f).extentsRequestStatus == StatusCancelled && State(f).extentsRequestComplete)
    }
  }

  /** What invalidation only reads. */
  datatype Layout = Layout(
    nodes: map<FcbId, FcbNode>,
    parent: map<FcbId, FcbId>,                    // ParentFcb, where not NULL
    fcbList: map<FcbId, seq<FcbId>>,              // per volume root: FcbListHead .. in fLink order
    volumeTree: map<TreeKey, FcbId>)                 // high index -> volume root

  /** Entry and node point at each other, and every node has its entry. */
  ghost predicate Linked(c: Cache, nodes: map<FcbId, FcbNode>) {
    (forall e {:trigger c.entries[e]} :: e in c.entries && c.entries[e].fcb.Some? ==>
       c.entries[e].fcb.value in nodes && nodes[c.entries[e].fcb.value].dirEntry == e) &&
    (forall f {:trigger nodes[f]} :: f in nodes ==> nodes[f].dirEntry in c.entries)
  }

  /** Every directory list holds entries of the arena. */
  ghost predicate ListsClosed(c: Cache) {
    forall d, e :: d in c.dirs && e in c.dirs[d].list ==> e in c.entries
  }

  /**
    Every tree, list and target pointer leads to a node of the arena, and a
    FileID tree holds each node under its own TreeEntry key, in the tree of
    its own volume root.
  */
  ghost predicate PointersClosed(c: Cache, lay: Layout) {
    (forall r, k :: r in c.fileIdTree && k in c.fileIdTree[r] ==>
       c.fileIdTree[r][k] in lay.nodes &&
       lay.nodes[c.fileIdTree[r][k]].root == r && lay.nodes[c.fileIdTree[r][k]].treeKey == k) &&
    (forall k :: k in lay.volumeTree ==> lay.volumeTree[k] in lay.nodes) &&
    (forall f :: f in c.targetFcb ==> c.targetFcb[f] in lay.nodes) &&
    (forall r, f :: r in lay.fcbList && f in lay.fcbList[r] ==> f in lay.nodes)
  }

  /**
    The shape of the cache the code relies on: parent chains end, entries
    and nodes point at each other, and every list, tree and pointer leads
    into the arenas.
  */
  ghost predicate WellFormed(c: Cache, lay: Layout, rank: map<FcbId, nat>) {
    ParentChain.Ranked(lay.parent, rank) && Linked(c, lay.nodes) && ListsClosed(c) && PointersClosed(c, lay)
  }

  /** Every call appended to the log after the first n is a flush or teardown of cancelled extents. */
  predicate OnlyCancelledCallsAfter(log: seq<Call>, old_log: seq<Call>) {
    |old_log| <= |log| && log[..|old_log|] == old_log &&
    forall i :: |old_log| <= i < |log| ==> IsCancelledExtentsCall(log[i])
  }

  // ---------------------------------------------------------------------------
  // The steps of AFSInvalidateCache
  // ---------------------------------------------------------------------------

  /** ExtentsRequestStatus := STATUS_CANCELLED and ExtentsRequestComplete signalled, on node f. */
  function WithExtentsCancelled(c: Cache, f: FcbId): (r: Cache)
    ensures r.State(f).extentsRequestStatus == StatusCancelled && r.State(f).extentsRequestComplete
    ensures r.Flags(f) == c.Flags(f)
    ensures forall g :: g != f ==> r.State(g) == c.State(g)
    ensures r == c.(state := r.state)
  {
    c.(state := c.state[f := c.State(f).(extentsRequestStatus := StatusCancelled, extentsRequestComplete := true)])
  }

  /** A file node's extents cancelled, then AFSFlushExtents and AFSTearDownFcbExtents called on it. */
  function WithExtentsFlushed(c: Cache, f: FcbId): (r: Cache)
    ensures r.State(f).extentsRequestStatus == StatusCancelled && r.State(f).extentsRequestComplete
    ensures forall g :: g != f ==> r.State(g) == c.State(g)
    ensures r.Flags(f) == c.Flags(f)
    ensures r.log == c.log + [FlushExtents(f, StatusCancelled), TearDownFcbExtents(f, StatusCancelled)]
    ensures r == c.(state := r.state, log := r.log)
  {
    var c1 := WithExtentsCancelled(c, f);
    var status := c1.State(f).extentsRequestStatus;
    c1.(log := c1.log + [FlushExtents(f, status), TearDownFcbExtents(f, status)])
  }

  /** Node f set INVALID, removed from its root's FileID tree and INSERTED_ID_TREE cleared. */
  function WithNodeInvalidated(c: Cache, nodes: map<FcbId, FcbNode>, f: FcbId): (r: Cache)
    requires f in nodes
    ensures r.Invalidated(nodes, f)
    ensures r.Flags(f) == c.Flags(f) + {Invalid} - {InsertedIdTree}
    ensures r.State(f).extentsRequestStatus == c.State(f).extentsRequestStatus
    ensures r.State(f).extentsRequestComplete == c.State(f).extentsRequestComplete
    ensures forall g :: g != f ==> r.State(g) == c.State(g)
    ensures r.IdTree(nodes[f].root) == c.IdTree(nodes[f].root) - {nodes[f].treeKey}
    ensures forall x :: x != nodes[f].root ==> r.IdTree(x) == c.IdTree(x)
    ensures r == c.(state := r.state, fileIdTree := r.fileIdTree)
  {
    var s := c.State(f);
    var c1 := c.(state := c.state[f := s.(flags := s.flags + {Invalid})]);
    var root := nodes[f].root;
    var c2 := c1.(fileIdTree := c1.fileIdTree[root := c1.IdTree(root) - {nodes[f].treeKey}]);
    var s2 := c2.State(f);
    c2.(state := c2.state[f := s2.(flags := s2.flags - {InsertedIdTree})])
  }

  /** The cache after the flat-list scan has dealt with a descendant g: a file's extents cancelled, then g invalidated. */
  function WithDescendantInvalidated(c: Cache, nodes: map<FcbId, FcbNode>, g: FcbId): (r: Cache)
    requires g in nodes
    ensures r.Invalidated(nodes, g) && r.Cancelled(nodes, g)
    ensures forall h :: h != g ==> r.State(h) == c.State(h)
    ensures r == c.(state := r.state, fileIdTree := r.fileIdTree)
  {
    WithNodeInvalidated(if nodes[g].nodeType == FileFcb then WithExtentsCancelled(c, g) else c, nodes, g)
  }

  /**
    The purge loop's work on a node f bound to an entry of the directory: a
    file's extents are cancelled, flushed and torn down, the node's entry is
    unbound and marked AFS_DIR_RELEASE_DIRECTORY_NODE, and the node is
    invalidated.
  */
  function WithNodeReleased(c: Cache, nodes: map<FcbId, FcbNode>, f: FcbId): (r: Cache)
    requires f in nodes
    ensures r.Invalidated(nodes, f) && r.Cancelled(nodes, f)
    ensures forall g :: g != f ==> r.State(g) == c.State(g)
    ensures forall x :: r.IdTree(x) == if x == nodes[f].root then c.IdTree(x) - {nodes[f].treeKey} else c.IdTree(x)
    ensures r.entries.Keys == c.entries.Keys
    ensures forall y :: y in c.entries && y != nodes[f].dirEntry ==> r.entries[y] == c.entries[y]
    ensures nodes[f].dirEntry in c.entries ==> r.entries[nodes[f].dirEntry] == Unbound(c.entries[nodes[f].dirEntry])
    ensures OnlyCancelledCallsAfter(r.log, c.log)
    ensures r == c.(entries := r.entries, state := r.state, fileIdTree := r.fileIdTree, log := r.log)
  {
    var c1 := if nodes[f].nodeType == FileFcb then WithExtentsFlushed(c, f) else c;
    var x := nodes[f].dirEntry;
    var c2 := if x in c1.entries then c1.(entries := c1.entries[x := Unbound(c1.entries[x])]) else c1;
    WithNodeInvalidated(c2, nodes, f)
  }

  /** The node bound to entry e, if e is in the arena and bound to a node of the arena. */
  function BoundNode(c: Cache, nodes: map<FcbId, FcbNode>, e: DirId): (b: Option<FcbId>)
    ensures b.Some? ==> b.value in nodes
  {
    if e in c.entries && c.entries[e].fcb.Some? && c.entries[e].fcb.value in nodes then c.entries[e].fcb else None
  }

  /**
    One turn of the purge loop on entry e of directory d: the node bound to
    e, if any, is released, and either way e leaves the directory.
  */
  function WithChildPurged(c: Cache, nodes: map<FcbId, FcbNode>, d: FcbId, e: DirId): (r: Cache)
    ensures r.List(d) == Without(c.List(d), e)
    ensures forall x :: x != d ==> r.Dir(x) == c.Dir(x)
    ensures r.entries.Keys == c.entries.Keys
    ensures r.openRefs == c.openRefs && r.targetFcb == c.targetFcb
  {
    var bound := BoundNode(c, nodes, e);
    var c1 := if bound.Some? then WithNodeReleased(c, nodes, bound.value) else c;
    c1.(dirs := c1.dirs[d := RemovedFrom(c1.Dir(d), e)])
  }

  /** The purge loop: entries are taken off the head of d's list until it is empty. */
  function WithListPurged(c: Cache, nodes: map<FcbId, FcbNode>, d: FcbId): (r: Cache)
    ensures r.List(d) == []
    ensures forall x :: x != d ==> r.Dir(x) == c.Dir(x)
    ensures r.entries.Keys == c.entries.Keys
    ensures r.openRefs == c.openRefs && r.targetFcb == c.targetFcb
    decreases |c.List(d)|
  {
    if c.List(d) == [] then c
    else WithListPurged(WithChildPurged(c, nodes, d, c.List(d)[0]), nodes, d)
  }

  /**
    The directory half of AFSInvalidateCache on a deleted directory d: the
    purge loop, then both tree heads and the list head cleared and
    AFS_FCB_DIRECTORY_ENUMERATED cleared.
  */
  function WithDirectoryPurged(c: Cache, nodes: map<FcbId, FcbNode>, d: FcbId): (r: Cache)
    ensures r.Dir(d) == NoDirNodes && DirectoryEnumerated !in r.Flags(d)
    ensures forall x :: x != d ==> r.Dir(x) == c.Dir(x)
    ensures r.entries.Keys == c.entries.Keys
    ensures r.openRefs == c.openRefs && r.targetFcb == c.targetFcb
  {
    var p := WithListPurged(c, nodes, d);
    var s := p.State(d);
    p.(dirs := p.dirs[d := NoDirNodes], state := p.state[d := s.(flags := s.flags - {DirectoryEnumerated})])
  }

  /**
    The scan of the volume root's flat Fcb list l: every node of which t is
    a strict ancestor (AFSIsChildOfParent) has a file's extents cancelled and
    is invalidated.
  */
  ghost function WithDescendantsInvalidated(c: Cache, nodes: map<FcbId, FcbNode>, parent: map<FcbId, FcbId>,
                                            rank: map<FcbId, nat>, t: FcbId, l: seq<FcbId>): (r: Cache)
    requires ParentChain.Ranked(parent, rank)
    ensures r.entries == c.entries && r.dirs == c.dirs && r.log == c.log
    ensures r.openRefs == c.openRefs && r.targetFcb == c.targetFcb
    decreases |l|
  {
    if l == [] then c
    else
      var g := l[0];
      var c1 := if g in nodes && ParentChain.IsStrictAncestor(parent, rank, t, g) then WithDescendantInvalidated(c, nodes, g) else c;
      WithDescendantsInvalidated(c1, nodes, parent, rank, t, l[1..])
  }

  // ---------------------------------------------------------------------------
  // What the purge loop does
  // ---------------------------------------------------------------------------

  /** Node g is bound to entry x, and x is g's entry. */
  predicate BoundTo(c: Cache, nodes: map<FcbId, FcbNode>, g: FcbId, x: DirId) {
    g in nodes && nodes[g].dirEntry == x && x in c.entries && c.entries[x].fcb == Some(g)
  }

  /** Appending cancelled-extents calls twice is appending them once. */
  lemma CancelledCallsCompose(a: seq<Call>, b: seq<Call>, c: seq<Call>)
    requires OnlyCancelledCallsAfter(b, a) && OnlyCancelledCallsAfter(c, b)
    ensures OnlyCancelledCallsAfter(c, a)
  {
    assert c[..|a|] == c[..|b|][..|a|];
  }

  /** A turn of the purge loop undoes no invalidation and no cancellation. */
  lemma ChildPurgedKeeps(c: Cache, nodes: map<FcbId, FcbNode>, d: FcbId, e: DirId, g: FcbId)
    ensures c.Invalidated(nodes, g) ==> WithChildPurged(c, nodes, d, e).Invalidated(nodes, g)
    ensures c.Cancelled(nodes, g) ==> WithChildPurged(c, nodes, d, e).Cancelled(nodes, g)
  {
  }

  /** A turn of the purge loop keeps entries and nodes pointing at each other and lists inside the arena. */
  lemma ChildPurgedKeepsLinked(c: Cache, nodes: map<FcbId, FcbNode>, d: FcbId, e: DirId)
    requires Linked(c, nodes) && ListsClosed(c)
    ensures Linked(WithChildPurged(c, nodes, d, e), nodes) && ListsClosed(WithChildPurged(c, nodes, d, e))
  {
    var r := WithChildPurged(c, nodes, d, e);
    forall y, x | y in r.dirs && x in r.dirs[y].list
      ensures x in r.entries
    {
      assert r.Dir(y) == r.dirs[y];
      if y != d {
        assert c.Dir(y) == r.Dir(y);
      }
    }
  }

  /** Invalidation and cancellation survive the rest of the purge loop. */
  lemma {:induction false} ListPurgeKeeps(c: Cache, nodes: map<FcbId, FcbNode>, d: FcbId, g: FcbId)
    ensures c.Invalidated(nodes, g) ==> WithListPurged(c, nodes, d).Invalidated(nodes, g)
    ensures c.Cancelled(nodes, g) ==> WithListPurged(c, nodes, d).Cancelled(nodes, g)
    decreases |c.List(d)|
  {
    if c.List(d) != [] {
      var e := c.List(d)[0];
      ChildPurgedKeeps(c, nodes, d, e, g);
      ListPurgeKeeps(WithChildPurged(c, nodes, d, e), nodes, d, g);
    }
  }

  /**
    Every node bound to an entry of the directory's list ends invalidated,
    out of its root's FileID tree, and with its extent requests cancelled if
    it is a file.
  */
  lemma {:induction false} ListPurgeReleasesChildren(c: Cache, nodes: map<FcbId, FcbNode>, d: FcbId, g: FcbId)
    requires Linked(c, nodes) && ListsClosed(c)
    requires g in nodes && nodes[g].dirEntry in c.List(d) && BoundTo(c, nodes, g, nodes[g].dirEntry)
    ensures WithListPurged(c, nodes, d).Invalidated(nodes, g) && WithListPurged(c, nodes, d).Cancelled(nodes, g)
    decreases |c.List(d)|
  {
    var e := c.List(d)[0];
    var c1 := WithChildPurged(c, nodes, d, e);
    ChildPurgedKeepsLinked(c, nodes, d, e);
    if e == nodes[g].dirEntry {
      assert BoundNode(c, nodes, e) == Some(g);
      ListPurgeKeeps(c1, nodes, d, g);
    } else {
      var b := BoundNode(c, nodes, e);
      assert b.Some? ==> nodes[b.value].dirEntry == e;
      assert c1.entries[nodes[g].dirEntry] == c.entries[nodes[g].dirEntry];
      ListPurgeReleasesChildren(c1, nodes, d, g);
    }
  }

  /** Every call the purge loop makes is a flush or teardown of extents whose requests stand cancelled. */
  lemma {:induction false} ListPurgeLogsCancelledCalls(c: Cache, nodes: map<FcbId, FcbNode>, d: FcbId)
    ensures OnlyCancelledCallsAfter(WithListPurged(c, nodes, d).log, c.log)
    decreases |c.List(d)|
  {
    if c.List(d) != [] {
      var c1 := WithChildPurged(c, nodes, d, c.List(d)[0]);
      assert OnlyCancelledCallsAfter(c1.log, c.log);
      ListPurgeLogsCancelledCalls(c1, nodes, d);
      CancelledCallsCompose(c.log, c1.log, WithListPurged(c1, nodes, d).log);
    }
  }

  /** A node not bound to an entry of the list keeps its flags and extent state through the purge loop. */
  lemma {:induction false} ListPurgeLeavesOthers(c: Cache, nodes: map<FcbId, FcbNode>, d: FcbId, g: FcbId)
    requires Linked(c, nodes) && ListsClosed(c)
    requires forall x :: x in c.List(d) ==> !BoundTo(c, nodes, g, x)
    ensures WithListPurged(c, nodes, d).State(g) == c.State(g)
    decreases |c.List(d)|
  {
    if c.List(d) != [] {
      var e := c.List(d)[0];
      var c1 := WithChildPurged(c, nodes, d, e);
      ChildPurgedKeepsLinked(c, nodes, d, e);
      ChildPurgedLeavesOther(c, nodes, d, e, g);
      forall x | x in c1.List(d)
        ensures !BoundTo(c1, nodes, g, x)
      {
        assert !BoundTo(c, nodes, g, x);
        ChildPurgedBindsNothing(c, nodes, d, e, g, x);
      }
      ListPurgeLeavesOthers(c1, nodes, d, g);
    }
  }

  /** A turn of the purge loop on an entry g is not bound to leaves g's state alone. */
  lemma ChildPurgedLeavesOther(c: Cache, nodes: map<FcbId, FcbNode>, d: FcbId, e: DirId, g: FcbId)
    requires Linked(c, nodes)
    requires !BoundTo(c, nodes, g, e)
    ensures WithChildPurged(c, nodes, d, e).State(g) == c.State(g)
  {
    assert BoundNode(c, nodes, e) != Some(g);
  }

  /** A turn of the purge loop binds no entry to a node it was not bound to. */
  lemma ChildPurgedBindsNothing(c: Cache, nodes: map<FcbId, FcbNode>, d: FcbId, e: DirId, g: FcbId, x: DirId)
    requires !BoundTo(c, nodes, g, x)
    ensures !BoundTo(WithChildPurged(c, nodes, d, e), nodes, g, x)
  {
  }

  /** Every FileID tree of a is part of the same tree of b: invalidation only ever removes keys. */
  ghost predicate TreesWithin(a: Cache, b: Cache) {
    forall x, k :: k in a.IdTree(x) ==> k in b.IdTree(x) && a.IdTree(x)[k] == b.IdTree(x)[k]
  }

  /** Every entry of b is in a with at least the flags it had in a. */
  ghost predicate FlagsKept(b: Cache, a: Cache) {
    b.entries.Keys <= a.entries.Keys &&
    forall y :: y in b.entries ==> b.entries[y].flags <= a.entries[y].flags && a.entries[y].info == b.entries[y].info
  }

  /** The purge loop keeps entries and nodes pointing at each other and lists inside the arena. */
  lemma {:induction false} ListPurgeKeepsLinked(c: Cache, nodes: map<FcbId, FcbNode>, d: FcbId)
    requires Linked(c, nodes) && ListsClosed(c)
    ensures Linked(WithListPurged(c, nodes, d), nodes) && ListsClosed(WithListPurged(c, nodes, d))
    decreases |c.List(d)|
  {
    if c.List(d) != [] {
      var e := c.List(d)[0];
      ChildPurgedKeepsLinked(c, nodes, d, e);
      ListPurgeKeepsLinked(WithChildPurged(c, nodes, d, e), nodes, d);
    }
  }

  lemma FlagsKeptTransitive(a: Cache, b: Cache, c: Cache)
    requires FlagsKept(a, b) && FlagsKept(b, c)
    ensures FlagsKept(a, c)
  {
  }

  lemma TreesWithinTransitive(a: Cache, b: Cache, c: Cache)
    requires TreesWithin(a, b) && TreesWithin(b, c)
    ensures TreesWithin(a, c)
  {
  }

  /** A turn of the purge loop only adds flags to entries and only removes keys from trees. */
  lemma ChildPurgedOnlyShrinks(c: Cache, nodes: map<FcbId, FcbNode>, d: FcbId, e: DirId)
    ensures FlagsKept(c, WithChildPurged(c, nodes, d, e)) && TreesWithin(WithChildPurged(c, nodes, d, e), c)
  {
    var bound := BoundNode(c, nodes, e);
    var c1 := if bound.Some? then WithNodeReleased(c, nodes, bound.value) else c;
    var r := WithChildPurged(c, nodes, d, e);
    assert r == c1.(dirs := r.dirs);
    forall x, k | k in r.IdTree(x)
      ensures k in c.IdTree(x) && r.IdTree(x)[k] == c.IdTree(x)[k]
    {
      assert r.IdTree(x) == c1.IdTree(x);
      if bound.Some? {
        var f := bound.value;
        assert c1.IdTree(x) == if x == nodes[f].root then c.IdTree(x) - {nodes[f].treeKey} else c.IdTree(x);
      }
    }
  }

  /** The purge loop only adds flags to entries, never changes what they record, and only removes keys from trees. */
  lemma {:induction false} ListPurgeOnlyShrinks(c: Cache, nodes: map<FcbId, FcbNode>, d: FcbId)
    ensures FlagsKept(c, WithListPurged(c, nodes, d)) && TreesWithin(WithListPurged(c, nodes, d), c)
    decreases |c.List(d)|
  {
    if c.List(d) != [] {
      var e := c.List(d)[0];
      var c1 := WithChildPurged(c, nodes, d, e);
      ChildPurgedOnlyShrinks(c, nodes, d, e);
      ListPurgeOnlyShrinks(c1, nodes, d);
      FlagsKeptTransitive(c, c1, WithListPurged(c1, nodes, d));
      TreesWithinTransitive(WithListPurged(c1, nodes, d), c1, c);
    }
  }

  // ---------------------------------------------------------------------------
  // What the scan of the flat Fcb list does
  // ---------------------------------------------------------------------------

  /** Invalidation and cancellation survive the rest of the scan. */
  lemma {:induction false} DescendantsKeep(c: Cache, nodes: map<FcbId, FcbNode>, parent: map<FcbId, FcbId>,
                                           rank: map<FcbId, nat>, t: FcbId, l: seq<FcbId>, g: FcbId)
    requires ParentChain.Ranked(parent, rank)
    ensures c.Invalidated(nodes, g) ==> WithDescendantsInvalidated(c, nodes, parent, rank, t, l).Invalidated(nodes, g)
    ensures c.Cancelled(nodes, g) ==> WithDescendantsInvalidated(c, nodes, parent, rank, t, l).Cancelled(nodes, g)
    decreases |l|
  {
    if l != [] {
      var h := l[0];
      var c1 := if h in nodes && ParentChain.IsStrictAncestor(parent, rank, t, h) then WithDescendantInvalidated(c, nodes, h) else c;
      DescendantsKeep(c1, nodes, parent, rank, t, l[1..], g);
    }
  }

  /** Every node of the list of which t is a strict ancestor ends invalidated, and cancelled if it is a file. */
  lemma {:induction false} DescendantsInvalidated(c: Cache, nodes: map<FcbId, FcbNode>, parent: map<FcbId, FcbId>,
                                                  rank: map<FcbId, nat>, t: FcbId, l: seq<FcbId>, g: FcbId)
    requires ParentChain.Ranked(parent, rank)
    requires g in l && g in nodes && ParentChain.IsStrictAncestor(parent, rank, t, g)
    ensures WithDescendantsInvalidated(c, nodes, parent, rank, t, l).Invalidated(nodes, g)
    ensures WithDescendantsInvalidated(c, nodes, parent, rank, t, l).Cancelled(nodes, g)
    decreases |l|
  {
    var h := l[0];
    var c1 := if h in nodes && ParentChain.IsStrictAncestor(parent, rank, t, h) then WithDescendantInvalidated(c, nodes, h) else c;
    if h == g {
      DescendantsKeep(c1, nodes, parent, rank, t, l[1..], g);
    } else {
      DescendantsInvalidated(c1, nodes, parent, rank, t, l[1..], g);
    }
  }

  /** A node that is not a descendant of t on the list keeps its flags and extent state. */
  lemma {:induction false} DescendantsLeaveOthers(c: Cache, nodes: map<FcbId, FcbNode>, parent: map<FcbId, FcbId>,
                                                  rank: map<FcbId, nat>, t: FcbId, l: seq<FcbId>, g: FcbId)
    requires ParentChain.Ranked(parent, rank)
    requires g !in l || !ParentChain.IsStrictAncestor(parent, rank, t, g)
    ensures WithDescendantsInvalidated(c, nodes, parent, rank, t, l).State(g) == c.State(g)
    decreases |l|
  {
    if l != [] {
      var h := l[0];
      var c1 := if h in nodes && ParentChain.IsStrictAncestor(parent, rank, t, h) then WithDescendantInvalidated(c, nodes, h) else c;
      assert c1.State(g) == c.State(g);
      DescendantsLeaveOthers(c1, nodes, parent, rank, t, l[1..], g);
    }
  }

  /** The scan removes keys from FileID trees and adds none. */
  lemma {:induction false} DescendantsShrinkTrees(c: Cache, nodes: map<FcbId, FcbNode>, parent: map<FcbId, FcbId>,
                                                  rank: map<FcbId, nat>, t: FcbId, l: seq<FcbId>)
    requires ParentChain.Ranked(parent, rank)
    ensures TreesWithin(WithDescendantsInvalidated(c, nodes, parent, rank, t, l), c)
    decreases |l|
  {
    if l != [] {
      var h := l[0];
      var c1 := if h in nodes && ParentChain.IsStrictAncestor(parent, rank, t, h) then WithDescendantInvalidated(c, nodes, h) else c;
      assert TreesWithin(c1, c);
      DescendantsShrinkTrees(c1, nodes, parent, rank, t, l[1..]);
      TreesWithinTransitive(WithDescendantsInvalidated(c1, nodes, parent, rank, t, l[1..]), c1, c);
    }
  }

  // ---------------------------------------------------------------------------
  // AFSInvalidateCache
  // ---------------------------------------------------------------------------

  /** One more open reference on f. */
  function Referenced(c: Cache, f: FcbId): (r: Cache)
    ensures r.Refs(f) == c.Refs(f) + 1 && forall g :: g != f ==> r.Refs(g) == c.Refs(g)
    ensures r == c.(openRefs := r.openRefs)
  {
    c.(openRefs := c.openRefs[f := c.Refs(f) + 1])
  }

  /** One open reference fewer on f. */
  function Dereferenced(c: Cache, f: FcbId): (r: Cache)
    ensures r.Refs(f) == c.Refs(f) - 1 && forall g :: g != f ==> r.Refs(g) == c.Refs(g)
    ensures r == c.(openRefs := r.openRefs)
  {
    c.(openRefs := c.openRefs[f := c.Refs(f) - 1])
  }

  /**
    The end of the DELETED case for node t: unless its entry already carries
    AFS_DIR_RELEASE_DIRECTORY_NODE, the entry leaves its parent's list and
    name trees and gains that flag. A node with no parent makes the source
    dereference NULL, which is None here.
  */
  function WithDetached(c: Cache, lay: Layout, t: FcbId): (r: Option<Cache>)
    requires t in lay.nodes && lay.nodes[t].dirEntry in c.entries
    ensures r.None? <==> ReleaseDirectoryNode !in c.entries[lay.nodes[t].dirEntry].flags && t !in lay.parent
    ensures r.Some? ==> r.value.entries.Keys == c.entries.Keys &&
                        ReleaseDirectoryNode in r.value.entries[lay.nodes[t].dirEntry].flags
    ensures r.Some? && ReleaseDirectoryNode !in c.entries[lay.nodes[t].dirEntry].flags ==>
              lay.nodes[t].dirEntry !in r.value.List(lay.parent[t]) &&
              forall y :: y != lay.parent[t] ==> r.value.Dir(y) == c.Dir(y)
    ensures r.Some? && ReleaseDirectoryNode in c.entries[lay.nodes[t].dirEntry].flags ==> r.value == c
    ensures r.Some? ==> forall y :: y in c.entries ==> c.entries[y].flags <= r.value.entries[y].flags
    ensures r.Some? ==> r.value == c.(dirs := r.value.dirs, entries := r.value.entries)
  {
    var x := lay.nodes[t].dirEntry;
    if ReleaseDirectoryNode in c.entries[x].flags then Some(c)
    else if t !in lay.parent then None
    else
      var p := lay.parent[t];
      Some(c.(dirs := c.dirs[p := RemovedFrom(c.Dir(p), x)],
              entries := c.entries[x := c.entries[x].(flags := c.entries[x].flags + {ReleaseDirectoryNode})]))
  }

  /**
    The part of the DELETED case on node t that depends on the type recorded
    in its entry: a directory is purged and its descendants invalidated, a
    file's extents are cancelled and flushed, anything else is left alone.
  */
  ghost function WithTypeInvalidated(c: Cache, lay: Layout, rank: map<FcbId, nat>, t: FcbId): (r: Cache)
    requires ParentChain.Ranked(lay.parent, rank)
    requires t in lay.nodes && lay.nodes[t].dirEntry in c.entries
    ensures r.openRefs == c.openRefs && r.targetFcb == c.targetFcb
    ensures r.entries.Keys == c.entries.Keys
  {
    var fileType := c.entries[lay.nodes[t].dirEntry].info.fileType;
    if fileType == FileTypeDirectory then
      WithDescendantsInvalidated(WithDirectoryPurged(c, lay.nodes, t), lay.nodes, lay.parent, rank, t,
                                 ListOf(lay.fcbList, lay.nodes[t].root))
    else if fileType == FileTypeFile then WithExtentsFlushed(c, t)
    else c
  }

  /** The DELETED case of AFSInvalidateCache on node t; None is a NULL dereference. */
  ghost function WithDeletedInvalidated(c: Cache, lay: Layout, rank: map<FcbId, nat>, t: FcbId): (r: Option<Cache>)
    requires ParentChain.Ranked(lay.parent, rank)
    requires t in lay.nodes && lay.nodes[t].dirEntry in c.entries
    ensures r.Some? ==> r.value.openRefs == c.openRefs && r.value.targetFcb == c.targetFcb
    ensures r.Some? ==> r.value.entries.Keys == c.entries.Keys
  {
    WithDetached(WithTypeInvalidated(c, lay, rank, t), lay, t)
  }

  /**
    The node found for a FileId whose high and low indices are high and
    low: the volume root by high in the volume tree, then the node by low in
    that root's FileID tree.
  */
  function Locate(c: Cache, lay: Layout, high: TreeKey, low: TreeKey): (n: Option<FcbId>)
    requires PointersClosed(c, lay)
    ensures n.Some? <==> high in lay.volumeTree && low in c.IdTree(lay.volumeTree[high])
    ensures n.Some? ==> n.value in lay.nodes && n.value == c.IdTree(lay.volumeTree[high])[low]
    ensures n.Some? ==> lay.nodes[n.value].root == lay.volumeTree[high] && lay.nodes[n.value].treeKey == low
  {
    if high !in lay.volumeTree then None
    else
      var tree := c.IdTree(lay.volumeTree[high]);
      if low !in tree then None
      else
        assert lay.volumeTree[high] in c.fileIdTree && low in c.fileIdTree[lay.volumeTree[high]];
        Some(tree[low])
  }

  /** Where AFSInvalidateCache goes on after the located node, the status it will return, and the cache by then. */
  datatype Redirection = Redirection(status: NtStatus, target: Option<FcbId>, cache: Cache)

  /** The located node is a symbolic link with no TargetFcb and AFSBuildTargetDirectory fails. */
  predicate BuildFails(c: Cache, lay: Layout, n: FcbId, build: BuildOutcome)
    requires n in lay.nodes && lay.nodes[n].dirEntry in c.entries
  {
    c.entries[lay.nodes[n].dirEntry].info.fileType == FileTypeSymLink && n !in c.targetFcb && !NtSuccess(build.status)
  }

  /**
    The node invalidation works on instead of the located node n: a
    symbolic link's TargetFcb, built by AFSBuildTargetDirectory when missing;
    a mount point's TargetFcb, looked up in the volume tree by the high index
    of its target identifier when missing and stored (NULL included); n
    itself for any other type.
  */
  function Redirect(c: Cache, lay: Layout, n: FcbId, build: BuildOutcome): (r: Redirection)
    requires PointersClosed(c, lay)
    requires n in lay.nodes && lay.nodes[n].dirEntry in c.entries
    requires build.target.Some? ==> build.target.value in lay.nodes
    requires !BuildFails(c, lay, n, build)
    ensures r.target.Some? ==> r.target.value in lay.nodes
    ensures NtSuccess(r.status)
    ensures r.cache.entries == c.entries && r.cache.openRefs == c.openRefs
    ensures r.cache.dirs == c.dirs && r.cache.state == c.state && r.cache.fileIdTree == c.fileIdTree
    ensures n in c.targetFcb ==> r.cache.targetFcb == c.targetFcb
    ensures OnlyCancelledCallsAfter(r.cache.log, c.log) || r.cache.log == c.log + [BuildTargetDirectory(n)]
    ensures PointersClosed(r.cache, lay)
  {
    var info := c.entries[lay.nodes[n].dirEntry].info;
    if info.fileType == FileTypeSymLink then
      if n in c.targetFcb then Redirection(StatusSuccess, Some(c.targetFcb[n]), c)
      else
        var c1 := c.(log := c.log + [BuildTargetDirectory(n)]);
        var c2 := if build.target.Some? then c1.(targetFcb := c1.targetFcb[n := build.target.value]) else c1;
        Redirection(build.status, build.target, c2)
    else if info.fileType == FileTypeMountPoint then
      if n in c.targetFcb then Redirection(StatusSuccess, Some(c.targetFcb[n]), c)
      else
        var high := KeyOf(FileIndex.HighIndex(info.targetFileId));
        if high in lay.volumeTree then
          Redirection(StatusSuccess, Some(lay.volumeTree[high]), c.(targetFcb := c.targetFcb[n := lay.volumeTree[high]]))
        else Redirection(StatusSuccess, None, c)
    else Redirection(StatusSuccess, Some(n), c)
  }

  /** The located node n referenced once more and its entry marked AFS_DIR_ENTRY_NOT_EVALUATED. */
  function Marked(c: Cache, nodes: map<FcbId, FcbNode>, n: FcbId): (r: Cache)
    requires n in nodes && nodes[n].dirEntry in c.entries
    ensures r.Refs(n) == c.Refs(n) + 1 && forall g :: g != n ==> r.Refs(g) == c.Refs(g)
    ensures r.entries.Keys == c.entries.Keys
    ensures NotEvaluated in r.entries[nodes[n].dirEntry].flags
    ensures forall y :: y in c.entries ==>
              r.entries[y] == c.entries[y].(flags := r.entries[y].flags) && c.entries[y].flags <= r.entries[y].flags
    ensures r == c.(openRefs := r.openRefs, entries := r.entries)
  {
    var x := nodes[n].dirEntry;
    Referenced(c, n).(entries := c.entries[x := c.entries[x].(flags := c.entries[x].flags + {NotEvaluated})])
  }

  /**
    AFSInvalidateCache on the cache c with layout lay. build is what
    AFSBuildTargetDirectory returns and leaves behind, should it be called.
    The result is how the routine ends and the cache it leaves; on BugCheck
    the cache is the one at the faulting dereference.
  */
  ghost function AfterInvalidation(c: Cache, lay: Layout, rank: map<FcbId, nat>, req: InvalidateRequest,
                                   build: BuildOutcome): (r: (Outcome, Cache))
    requires WellFormed(c, lay, rank)
    requires build.target.Some? ==> build.target.value in lay.nodes
    ensures req.wholeVolume ==> r == (Returned(StatusSuccess), c.(log := c.log + [RemoveAFSRoot]))
    ensures !req.wholeVolume && Locate(c, lay, KeyOf(FileIndex.HighIndex(req.fileId)), KeyOf(FileIndex.LowIndex(req.fileId))).None? ==> r == (Returned(StatusUnsuccessful), c)
    ensures r.0.BugCheck? ==> req.reason == Deleted
    ensures r.0.Returned? ==> r.1.entries.Keys == c.entries.Keys
  {
    if req.wholeVolume then (Returned(StatusSuccess), c.(log := c.log + [RemoveAFSRoot]))
    else
      var located := Locate(c, lay, KeyOf(FileIndex.HighIndex(req.fileId)), KeyOf(FileIndex.LowIndex(req.fileId)));
      if located.None? then (Returned(StatusUnsuccessful), c)
      else AfterLocated(c, lay, rank, req.reason, located.value, build)
  }

  /**
    AFSInvalidateCache once the node n has been found in its volume's
    FileID tree: n is referenced and marked NOT_EVALUATED, a symbolic link
    or mount point is followed to its target, and with DELETED the target
    is invalidated and detached; finally the reference is given back, on
    the target.
  */
  ghost function AfterLocated(c: Cache, lay: Layout, rank: map<FcbId, nat>, reason: Reason, n: FcbId,
                              build: BuildOutcome): (r: (Outcome, Cache))
    requires WellFormed(c, lay, rank) && n in lay.nodes
    requires build.target.Some? ==> build.target.value in lay.nodes
    ensures r.0.BugCheck? ==> reason == Deleted
    ensures r.0.Returned? ==> r.1.entries.Keys == c.entries.Keys
  {
    var c1 := Marked(c, lay.nodes, n);
    if BuildFails(c1, lay, n, build) then
      (Returned(build.status), Dereferenced(c1.(log := c1.log + [BuildTargetDirectory(n)]), n))
    else
      Finished(Redirect(c1, lay, n, build), lay, rank, reason)
  }

  /**
    The rest of AFSInvalidateCache once the target rd.target is known: with
    DELETED, a missing target or a missing parent faults, otherwise the
    target is invalidated and detached; the reference is given back on the
    target.
  */
  ghost function Finished(rd: Redirection, lay: Layout, rank: map<FcbId, nat>, reason: Reason): (r: (Outcome, Cache))
    requires ParentChain.Ranked(lay.parent, rank)
    requires rd.target.Some? ==> rd.target.value in lay.nodes && lay.nodes[rd.target.value].dirEntry in rd.cache.entries
    ensures r.0.BugCheck? ==> reason == Deleted
    ensures r.0.Returned? ==> r.1.entries.Keys == rd.cache.entries.Keys
  {
    if reason == Deleted then
      if rd.target.None? then (BugCheck, rd.cache)
      else
        var done := WithDeletedInvalidated(rd.cache, lay, rank, rd.target.value);
        if done.None? then (BugCheck, rd.cache)
        else (Returned(rd.status), Dereferenced(done.value, rd.target.value))
    else (Returned(rd.status), if rd.target.Some? then Dereferenced(rd.cache, rd.target.value) else rd.cache)
  }

  // ---------------------------------------------------------------------------
  // What the DELETED case does
  // ---------------------------------------------------------------------------

  /** Trees that only lost keys, and unchanged targets, still lead into the arena. */
  lemma TreesWithinKeepsPointers(a: Cache, b: Cache, lay: Layout)
    requires PointersClosed(b, lay) && TreesWithin(a, b) && a.targetFcb == b.targetFcb
    ensures PointersClosed(a, lay)
  {
    forall x, k | x in a.fileIdTree && k in a.fileIdTree[x]
      ensures a.fileIdTree[x][k] in lay.nodes
      ensures lay.nodes[a.fileIdTree[x][k]].root == x && lay.nodes[a.fileIdTree[x][k]].treeKey == k
    {
      assert k in a.IdTree(x);
      assert x in b.fileIdTree;
    }
  }

  /**
    In a cache whose FileID trees hold each node under its own key, an
    invalidated node is in no FileID tree: removing its key removed the node.
  */
  lemma InvalidatedInNoTree(c: Cache, lay: Layout, f: FcbId)
    requires PointersClosed(c, lay) && c.Invalidated(lay.nodes, f)
    ensures forall x, k :: k in c.IdTree(x) ==> c.IdTree(x)[k] != f
  {
    forall x, k | k in c.IdTree(x)
      ensures c.IdTree(x)[k] != f
    {
      assert x in c.fileIdTree && k in c.fileIdTree[x];
    }
  }

  /** No other node of f's volume carries f's FileID-tree key (distinct FileIds have distinct low indices). */
  ghost predicate KeyOwnedBy(nodes: map<FcbId, FcbNode>, f: FcbId)
    requires f in nodes
  {
    forall g :: g in nodes && g != f && nodes[g].root == nodes[f].root ==> nodes[g].treeKey != nodes[f].treeKey
  }

  /**
    Taking f out of its root's FileID tree by its key drops f's own mapping
    and no other node's, and leaves f in no tree.
  */
  lemma NodeInvalidatedDropsOnlyIt(c: Cache, lay: Layout, f: FcbId)
    requires PointersClosed(c, lay) && f in lay.nodes && KeyOwnedBy(lay.nodes, f)
    ensures var r := WithNodeInvalidated(c, lay.nodes, f);
            forall x, k :: k in c.IdTree(x) && c.IdTree(x)[k] != f ==>
              k in r.IdTree(x) && r.IdTree(x)[k] == c.IdTree(x)[k]
    ensures var r := WithNodeInvalidated(c, lay.nodes, f);
            forall x, k :: k in r.IdTree(x) ==> r.IdTree(x)[k] != f
  {
    var r := WithNodeInvalidated(c, lay.nodes, f);
    forall x, k | k in c.IdTree(x) && c.IdTree(x)[k] != f
      ensures k in r.IdTree(x) && r.IdTree(x)[k] == c.IdTree(x)[k]
    {
      assert x in c.fileIdTree && k in c.fileIdTree[x];
    }
    assert TreesWithin(r, c);
    TreesWithinKeepsPointers(r, c, lay);
    InvalidatedInNoTree(r, lay, f);
  }

  /** The directory case is the purge, then the scan of the root's Fcb list. */
  lemma DirectoryCaseUnfolds(c: Cache, lay: Layout, rank: map<FcbId, nat>, t: FcbId)
    requires ParentChain.Ranked(lay.parent, rank)
    requires t in lay.nodes && lay.nodes[t].dirEntry in c.entries
    requires c.entries[lay.nodes[t].dirEntry].info.fileType == FileTypeDirectory
    ensures var q := WithDescendantsInvalidated(WithDirectoryPurged(c, lay.nodes, t), lay.nodes, lay.parent, rank, t,
                                                ListOf(lay.fcbList, lay.nodes[t].root));
            lay.nodes[t].dirEntry in q.entries && WithDeletedInvalidated(c, lay, rank, t) == WithDetached(q, lay, t)
  {
  }

  /**
    A deleted directory ends with an empty list, both name trees empty and
    AFS_FCB_DIRECTORY_ENUMERATED clear, whatever the scan of the Fcb list
    and the detaching from its parent do afterwards.
  */
  lemma DeletedDirectoryEmptied(c: Cache, lay: Layout, rank: map<FcbId, nat>, t: FcbId)
    requires ParentChain.Ranked(lay.parent, rank)
    requires t in lay.nodes && lay.nodes[t].dirEntry in c.entries
    requires c.entries[lay.nodes[t].dirEntry].info.fileType == FileTypeDirectory
    requires WithDeletedInvalidated(c, lay, rank, t).Some?
    ensures WithDeletedInvalidated(c, lay, rank, t).value.Dir(t) == NoDirNodes
    ensures DirectoryEnumerated !in WithDeletedInvalidated(c, lay, rank, t).value.Flags(t)
  {
    var p := WithDirectoryPurged(c, lay.nodes, t);
    var l := ListOf(lay.fcbList, lay.nodes[t].root);
    var q := WithDescendantsInvalidated(p, lay.nodes, lay.parent, rank, t, l);
    DirectoryCaseUnfolds(c, lay, rank, t);
    ParentChain.NotOwnAncestor(lay.parent, rank, t);
    DescendantsLeaveOthers(p, lay.nodes, lay.parent, rank, t, l, t);
    assert q.State(t) == p.State(t);
  }

  /**
    Every node bound to an entry of a deleted directory ends invalidated,
    and cancelled if it is a file.
  */
  lemma DeletedDirectoryInvalidatesChildren(c: Cache, lay: Layout, rank: map<FcbId, nat>, t: FcbId, g: FcbId)
    requires WellFormed(c, lay, rank)
    requires t in lay.nodes && lay.nodes[t].dirEntry in c.entries
    requires c.entries[lay.nodes[t].dirEntry].info.fileType == FileTypeDirectory
    requires g in lay.nodes && lay.nodes[g].dirEntry in c.List(t) && BoundTo(c, lay.nodes, g, lay.nodes[g].dirEntry)
    requires WithDeletedInvalidated(c, lay, rank, t).Some?
    ensures WithDeletedInvalidated(c, lay, rank, t).value.Invalidated(lay.nodes, g)
    ensures WithDeletedInvalidated(c, lay, rank, t).value.Cancelled(lay.nodes, g)
  {
    var p := WithDirectoryPurged(c, lay.nodes, t);
    var l := ListOf(lay.fcbList, lay.nodes[t].root);
    DirectoryCaseUnfolds(c, lay, rank, t);
    ListPurgeReleasesChildren(c, lay.nodes, t, g);
    DirectoryPurgedKeeps(c, lay.nodes, t, g);
    DescendantsKeep(p, lay.nodes, lay.parent, rank, t, l, g);
  }

  /**
    Every node on the volume root's Fcb list of which the deleted directory
    is a strict ancestor ends invalidated, and cancelled if it is a file.
  */
  lemma DeletedDirectoryInvalidatesDescendants(c: Cache, lay: Layout, rank: map<FcbId, nat>, t: FcbId, g: FcbId)
    requires ParentChain.Ranked(lay.parent, rank)
    requires t in lay.nodes && lay.nodes[t].dirEntry in c.entries
    requires c.entries[lay.nodes[t].dirEntry].info.fileType == FileTypeDirectory
    requires g in ListOf(lay.fcbList, lay.nodes[t].root) && g in lay.nodes && ParentChain.IsStrictAncestor(lay.parent, rank, t, g)
    requires WithDeletedInvalidated(c, lay, rank, t).Some?
    ensures WithDeletedInvalidated(c, lay, rank, t).value.Invalidated(lay.nodes, g)
    ensures WithDeletedInvalidated(c, lay, rank, t).value.Cancelled(lay.nodes, g)
  {
    var p := WithDirectoryPurged(c, lay.nodes, t);
    DirectoryCaseUnfolds(c, lay, rank, t);
    DescendantsInvalidated(p, lay.nodes, lay.parent, rank, t, ListOf(lay.fcbList, lay.nodes[t].root), g);
  }

  /** A deleted file has its extent requests cancelled before it is flushed and torn down. */
  lemma DeletedFileCancelledThenFlushed(c: Cache, lay: Layout, rank: map<FcbId, nat>, t: FcbId)
    requires ParentChain.Ranked(lay.parent, rank)
    requires t in lay.nodes && lay.nodes[t].dirEntry in c.entries
    requires c.entries[lay.nodes[t].dirEntry].info.fileType == FileTypeFile
    requires WithDeletedInvalidated(c, lay, rank, t).Some?
    ensures var r := WithDeletedInvalidated(c, lay, rank, t).value;
            r.State(t).extentsRequestStatus == StatusCancelled && r.State(t).extentsRequestComplete &&
            r.log == c.log + [FlushExtents(t, StatusCancelled), TearDownFcbExtents(t, StatusCancelled)]
  {
    assert WithDeletedInvalidated(c, lay, rank, t) == WithDetached(WithExtentsFlushed(c, t), lay, t);
  }

  /** The only calls the DELETED case makes are flushes and teardowns of cancelled extents. */
  lemma DeletedCallsCancelled(c: Cache, lay: Layout, rank: map<FcbId, nat>, t: FcbId)
    requires ParentChain.Ranked(lay.parent, rank)
    requires t in lay.nodes && lay.nodes[t].dirEntry in c.entries
    requires WithDeletedInvalidated(c, lay, rank, t).Some?
    ensures OnlyCancelledCallsAfter(WithDeletedInvalidated(c, lay, rank, t).value.log, c.log)
  {
    var fileType := c.entries[lay.nodes[t].dirEntry].info.fileType;
    if fileType == FileTypeDirectory {
      DirectoryCaseUnfolds(c, lay, rank, t);
      ListPurgeLogsCancelledCalls(c, lay.nodes, t);
    } else if fileType == FileTypeFile {
      DeletedFileCancelledThenFlushed(c, lay, rank, t);
      var r := WithDeletedInvalidated(c, lay, rank, t).value;
      assert r.log[..|c.log|] == c.log;
    } else {
      assert c.log[..|c.log|] == c.log;
    }
  }

  /** Clearing the directory's list and trees and its ENUMERATED flag keeps invalidation and cancellation. */
  lemma DirectoryPurgedKeeps(c: Cache, nodes: map<FcbId, FcbNode>, d: FcbId, g: FcbId)
    ensures WithListPurged(c, nodes, d).Invalidated(nodes, g) ==> WithDirectoryPurged(c, nodes, d).Invalidated(nodes, g)
    ensures WithListPurged(c, nodes, d).Cancelled(nodes, g) ==> WithDirectoryPurged(c, nodes, d).Cancelled(nodes, g)
  {
  }

  /** The purge of a directory keeps the cache well formed and only adds flags to entries. */
  lemma DirectoryPurgedKeepsWellFormed(c: Cache, lay: Layout, rank: map<FcbId, nat>, t: FcbId)
    requires WellFormed(c, lay, rank)
    ensures WellFormed(WithDirectoryPurged(c, lay.nodes, t), lay, rank) && FlagsKept(c, WithDirectoryPurged(c, lay.nodes, t))
  {
    var p := WithDirectoryPurged(c, lay.nodes, t);
    ListPurgeKeepsLinked(c, lay.nodes, t);
    ListPurgeOnlyShrinks(c, lay.nodes, t);
    assert TreesWithin(p, c);
    TreesWithinKeepsPointers(p, c, lay);
    assert ListsClosed(p);
  }

  /** The scan of the Fcb list keeps the cache well formed and leaves the entries alone. */
  lemma DescendantsKeepWellFormed(c: Cache, lay: Layout, rank: map<FcbId, nat>, t: FcbId, l: seq<FcbId>)
    requires WellFormed(c, lay, rank)
    ensures WellFormed(WithDescendantsInvalidated(c, lay.nodes, lay.parent, rank, t, l), lay, rank)
    ensures FlagsKept(c, WithDescendantsInvalidated(c, lay.nodes, lay.parent, rank, t, l))
  {
    DescendantsShrinkTrees(c, lay.nodes, lay.parent, rank, t, l);
    TreesWithinKeepsPointers(WithDescendantsInvalidated(c, lay.nodes, lay.parent, rank, t, l), c, lay);
  }

  /** The purge and the scan of a deleted directory keep the cache well formed and only add flags to entries. */
  lemma DirectoryCaseKeepsWellFormed(c: Cache, lay: Layout, rank: map<FcbId, nat>, t: FcbId)
    requires WellFormed(c, lay, rank) && t in lay.nodes
    ensures var q := WithDescendantsInvalidated(WithDirectoryPurged(c, lay.nodes, t), lay.nodes, lay.parent, rank, t,
                                                ListOf(lay.fcbList, lay.nodes[t].root));
            WellFormed(q, lay, rank) && FlagsKept(c, q)
  {
    var p := WithDirectoryPurged(c, lay.nodes, t);
    var l := ListOf(lay.fcbList, lay.nodes[t].root);
    DirectoryPurgedKeepsWellFormed(c, lay, rank, t);
    DescendantsKeepWellFormed(p, lay, rank, t, l);
    FlagsKeptTransitive(c, p, WithDescendantsInvalidated(p, lay.nodes, lay.parent, rank, t, l));
  }

  /** Detaching the entry from the parent keeps the cache well formed and only adds a flag. */
  lemma DetachKeepsWellFormed(c: Cache, lay: Layout, rank: map<FcbId, nat>, t: FcbId)
    requires WellFormed(c, lay, rank)
    requires t in lay.nodes
    requires WithDetached(c, lay, t).Some?
    ensures WellFormed(WithDetached(c, lay, t).value, lay, rank) && FlagsKept(c, WithDetached(c, lay, t).value)
  {
    var r := WithDetached(c, lay, t).value;
    forall y, x | y in r.dirs && x in r.dirs[y].list
      ensures x in r.entries
    {
      assert r.Dir(y) == r.dirs[y];
      assert x in c.Dir(y).list;
    }
    TreesWithinKeepsPointers(r, c, lay);
  }

  /**
    The DELETED case keeps the cache well formed and only adds flags to
    entries; when it ends, the node's entry carries
    AFS_DIR_RELEASE_DIRECTORY_NODE, so a second pass would not detach it
    again.
  */
  lemma DeletedKeepsWellFormed(c: Cache, lay: Layout, rank: map<FcbId, nat>, t: FcbId)
    requires WellFormed(c, lay, rank)
    requires t in lay.nodes
    requires WithDeletedInvalidated(c, lay, rank, t).Some?
    ensures WellFormed(WithDeletedInvalidated(c, lay, rank, t).value, lay, rank)
    ensures FlagsKept(c, WithDeletedInvalidated(c, lay, rank, t).value)
    ensures ReleaseDirectoryNode in WithDeletedInvalidated(c, lay, rank, t).value.entries[lay.nodes[t].dirEntry].flags
  {
    var fileType := c.entries[lay.nodes[t].dirEntry].info.fileType;
    var c1 := WithTypeInvalidated(c, lay, rank, t);
    if fileType == FileTypeDirectory {
      DirectoryCaseKeepsWellFormed(c, lay, rank, t);
    } else {
      assert TreesWithin(c1, c);
      TreesWithinKeepsPointers(c1, c, lay);
    }
    DetachKeepsWellFormed(c1, lay, rank, t);
    FlagsKeptTransitive(c, c1, WithDetached(c1, lay, t).value);
  }

  /** Once the DELETED case has run, the node's entry is detached: running it again leaves the parent alone. */
  lemma DetachOnce(c: Cache, lay: Layout, t: FcbId)
    requires t in lay.nodes && lay.nodes[t].dirEntry in c.entries
    requires WithDetached(c, lay, t).Some?
    ensures lay.nodes[t].dirEntry in WithDetached(c, lay, t).value.entries
    ensures WithDetached(WithDetached(c, lay, t).value, lay, t) == WithDetached(c, lay, t)
  {
  }

  // ---------------------------------------------------------------------------
  // What AFSInvalidateCache does, whole
  // ---------------------------------------------------------------------------

  /** Marking the located node keeps the cache well formed. */
  lemma MarkedKeepsWellFormed(c: Cache, lay: Layout, rank: map<FcbId, nat>, n: FcbId)
    requires WellFormed(c, lay, rank) && n in lay.nodes
    ensures WellFormed(Marked(c, lay.nodes, n), lay, rank) && FlagsKept(c, Marked(c, lay.nodes, n))
  {
    var r := Marked(c, lay.nodes, n);
    forall e | e in r.entries && r.entries[e].fcb.Some?
      ensures r.entries[e].fcb.value in lay.nodes && lay.nodes[r.entries[e].fcb.value].dirEntry == e
    {
      assert r.entries[e].fcb == c.entries[e].fcb;
    }
  }

  /** Well-formedness reads only the entries, the lists, the trees and the target pointers. */
  lemma ShapeKept(a: Cache, b: Cache, lay: Layout, rank: map<FcbId, nat>)
    requires WellFormed(a, lay, rank)
    requires b.entries == a.entries && b.dirs == a.dirs && b.fileIdTree == a.fileIdTree && b.targetFcb == a.targetFcb
    ensures WellFormed(b, lay, rank)
  {
  }

  /** The redirection keeps the cache well formed. */
  lemma RedirectKeepsWellFormed(c: Cache, lay: Layout, rank: map<FcbId, nat>, n: FcbId, build: BuildOutcome)
    requires WellFormed(c, lay, rank)
    requires n in lay.nodes
    requires build.target.Some? ==> build.target.value in lay.nodes
    requires !BuildFails(c, lay, n, build)
    ensures WellFormed(Redirect(c, lay, n, build).cache, lay, rank)
  {
    var rd := Redirect(c, lay, n, build);
    assert Linked(rd.cache, lay.nodes) && ListsClosed(rd.cache);
  }

  /** What follows the redirection keeps the cache well formed. */
  lemma FinishedKeepsWellFormed(rd: Redirection, lay: Layout, rank: map<FcbId, nat>, reason: Reason)
    requires WellFormed(rd.cache, lay, rank)
    requires rd.target.Some? ==> rd.target.value in lay.nodes
    ensures WellFormed(Finished(rd, lay, rank, reason).1, lay, rank)
  {
    var r := Finished(rd, lay, rank, reason).1;
    if reason == Deleted && rd.target.Some? && WithDeletedInvalidated(rd.cache, lay, rank, rd.target.value).Some? {
      var done := WithDeletedInvalidated(rd.cache, lay, rank, rd.target.value).value;
      DeletedKeepsWellFormed(rd.cache, lay, rank, rd.target.value);
      ShapeKept(done, r, lay, rank);
    } else {
      ShapeKept(rd.cache, r, lay, rank);
    }
  }

  /** What follows the redirection only adds entry flags, unless it faults. */
  lemma FinishedKeepsFlags(rd: Redirection, lay: Layout, rank: map<FcbId, nat>, reason: Reason)
    requires WellFormed(rd.cache, lay, rank)
    requires rd.target.Some? ==> rd.target.value in lay.nodes
    ensures FlagsKept(rd.cache, Finished(rd, lay, rank, reason).1)
  {
    var r := Finished(rd, lay, rank, reason).1;
    if reason == Deleted && rd.target.Some? && WithDeletedInvalidated(rd.cache, lay, rank, rd.target.value).Some? {
      var done := WithDeletedInvalidated(rd.cache, lay, rank, rd.target.value).value;
      DeletedKeepsWellFormed(rd.cache, lay, rank, rd.target.value);
      assert r.entries == done.entries;
    } else {
      assert r.entries == rd.cache.entries;
    }
  }

  /** What follows the redirection only calls out to flush and tear down cancelled extents. */
  lemma FinishedCalls(rd: Redirection, lay: Layout, rank: map<FcbId, nat>, reason: Reason)
    requires ParentChain.Ranked(lay.parent, rank)
    requires rd.target.Some? ==> rd.target.value in lay.nodes && lay.nodes[rd.target.value].dirEntry in rd.cache.entries
    ensures OnlyCancelledCallsAfter(Finished(rd, lay, rank, reason).1.log, rd.cache.log)
  {
    if reason == Deleted && rd.target.Some? && WithDeletedInvalidated(rd.cache, lay, rank, rd.target.value).Some? {
      DeletedCallsCancelled(rd.cache, lay, rank, rd.target.value);
    } else {
      assert Finished(rd, lay, rank, reason).1.log == rd.cache.log;
    }
  }

  /** When the call returns, exactly one reference is given back, on the target. */
  lemma FinishedRefs(rd: Redirection, lay: Layout, rank: map<FcbId, nat>, reason: Reason, g: FcbId)
    requires ParentChain.Ranked(lay.parent, rank)
    requires rd.target.Some? ==> rd.target.value in lay.nodes && lay.nodes[rd.target.value].dirEntry in rd.cache.entries
    requires Finished(rd, lay, rank, reason).0.Returned?
    ensures Finished(rd, lay, rank, reason).1.Refs(g) == rd.cache.Refs(g) - (if rd.target == Some(g) then 1 else 0)
  {
    if reason == Deleted {
      var done := WithDeletedInvalidated(rd.cache, lay, rank, rd.target.value).value;
      assert done.openRefs == rd.cache.openRefs;
    }
  }

  /** Any reason but DELETED returns and leaves entries, lists, trees and extent state alone. */
  lemma FinishedOtherReason(rd: Redirection, lay: Layout, rank: map<FcbId, nat>)
    requires ParentChain.Ranked(lay.parent, rank)
    requires rd.target.Some? ==> rd.target.value in lay.nodes && lay.nodes[rd.target.value].dirEntry in rd.cache.entries
    ensures var r := Finished(rd, lay, rank, OtherReason);
            r.0 == Returned(rd.status) && r.1.entries == rd.cache.entries && r.1.dirs == rd.cache.dirs &&
            r.1.state == rd.cache.state && r.1.fileIdTree == rd.cache.fileIdTree
  {
  }

  /**
    The located path in two halves: a failed build returns at once; any
    other node goes on, well formed, to its target with Finished.
  */
  lemma LocatedUnfolds(c: Cache, lay: Layout, rank: map<FcbId, nat>, reason: Reason, n: FcbId, build: BuildOutcome)
    requires WellFormed(c, lay, rank) && n in lay.nodes
    requires build.target.Some? ==> build.target.value in lay.nodes
    ensures lay.nodes[n].dirEntry in c.entries
    ensures PointersClosed(Marked(c, lay.nodes, n), lay) && ParentChain.Ranked(lay.parent, rank)
    ensures var c1 := Marked(c, lay.nodes, n);
            BuildFails(c1, lay, n, build) ==>
              AfterLocated(c, lay, rank, reason, n, build) ==
                (Returned(build.status), Dereferenced(c1.(log := c1.log + [BuildTargetDirectory(n)]), n))
    ensures var c1 := Marked(c, lay.nodes, n);
            !BuildFails(c1, lay, n, build) ==>
              var rd := Redirect(c1, lay, n, build);
              (rd.target.Some? ==> lay.nodes[rd.target.value].dirEntry in rd.cache.entries) &&
              AfterLocated(c, lay, rank, reason, n, build) == Finished(rd, lay, rank, reason)
  {
    var c1 := Marked(c, lay.nodes, n);
    MarkedKeepsWellFormed(c, lay, rank, n);
    if !BuildFails(c1, lay, n, build) {
      RedirectKeepsWellFormed(c1, lay, rank, n, build);
    }
  }

  /** The located path keeps the cache well formed, whether it returns or faults. */
  lemma LocatedKeepsWellFormed(c: Cache, lay: Layout, rank: map<FcbId, nat>, reason: Reason, n: FcbId,
                               build: BuildOutcome)
    requires WellFormed(c, lay, rank) && n in lay.nodes
    requires build.target.Some? ==> build.target.value in lay.nodes
    ensures WellFormed(AfterLocated(c, lay, rank, reason, n, build).1, lay, rank)
  {
    var c1 := Marked(c, lay.nodes, n);
    MarkedKeepsWellFormed(c, lay, rank, n);
    if BuildFails(c1, lay, n, build) {
      ShapeKept(c1, AfterLocated(c, lay, rank, reason, n, build).1, lay, rank);
    } else {
      RedirectKeepsWellFormed(c1, lay, rank, n, build);
      FinishedKeepsWellFormed(Redirect(c1, lay, n, build), lay, rank, reason);
    }
  }

  /** AFSInvalidateCache leaves a well-formed cache well formed. */
  lemma InvalidationKeepsWellFormed(c: Cache, lay: Layout, rank: map<FcbId, nat>, req: InvalidateRequest,
                                    build: BuildOutcome)
    requires WellFormed(c, lay, rank)
    requires build.target.Some? ==> build.target.value in lay.nodes
    ensures WellFormed(AfterInvalidation(c, lay, rank, req, build).1, lay, rank)
  {
    if !req.wholeVolume {
      var located := Locate(c, lay, KeyOf(FileIndex.HighIndex(req.fileId)), KeyOf(FileIndex.LowIndex(req.fileId)));
      if located.Some? {
        LocatedKeepsWellFormed(c, lay, rank, req.reason, located.value, build);
      }
    }
  }

  /** A located node that is neither a symbolic link nor a mount point is its own target, with nothing built. */
  lemma PlainLocated(c: Cache, lay: Layout, rank: map<FcbId, nat>, reason: Reason, n: FcbId, build: BuildOutcome)
    requires WellFormed(c, lay, rank) && n in lay.nodes
    requires build.target.Some? ==> build.target.value in lay.nodes
    requires c.entries[lay.nodes[n].dirEntry].info.fileType !in {FileTypeSymLink, FileTypeMountPoint}
    ensures lay.nodes[n].dirEntry in Marked(c, lay.nodes, n).entries
    ensures AfterLocated(c, lay, rank, reason, n, build) ==
              Finished(Redirection(StatusSuccess, Some(n), Marked(c, lay.nodes, n)), lay, rank, reason)
  {
    var c1 := Marked(c, lay.nodes, n);
    assert c1.entries[lay.nodes[n].dirEntry].info == c.entries[lay.nodes[n].dirEntry].info;
    assert Redirect(c1, lay, n, build) == Redirection(StatusSuccess, Some(n), c1);
  }

  /** A located symbolic link or mount point whose TargetFcb is set goes straight to that target. */
  lemma LinkLocated(c: Cache, lay: Layout, rank: map<FcbId, nat>, reason: Reason, n: FcbId, build: BuildOutcome)
    requires WellFormed(c, lay, rank) && n in lay.nodes
    requires build.target.Some? ==> build.target.value in lay.nodes
    requires c.entries[lay.nodes[n].dirEntry].info.fileType in {FileTypeSymLink, FileTypeMountPoint}
    requires n in c.targetFcb
    ensures c.targetFcb[n] in lay.nodes && lay.nodes[c.targetFcb[n]].dirEntry in Marked(c, lay.nodes, n).entries
    ensures AfterLocated(c, lay, rank, reason, n, build) ==
              Finished(Redirection(StatusSuccess, Some(c.targetFcb[n]), Marked(c, lay.nodes, n)), lay, rank, reason)
  {
    var c1 := Marked(c, lay.nodes, n);
    assert c1.entries[lay.nodes[n].dirEntry].info == c.entries[lay.nodes[n].dirEntry].info;
    assert Redirect(c1, lay, n, build) == Redirection(StatusSuccess, Some(c.targetFcb[n]), c1);
  }

  /** Unless the call faults, the located node's entry ends marked NOT_EVALUATED. */
  lemma InvalidationMarksNotEvaluated(c: Cache, lay: Layout, rank: map<FcbId, nat>, reason: Reason, n: FcbId,
                                      build: BuildOutcome)
    requires WellFormed(c, lay, rank) && n in lay.nodes
    requires build.target.Some? ==> build.target.value in lay.nodes
    ensures lay.nodes[n].dirEntry in AfterLocated(c, lay, rank, reason, n, build).1.entries
    ensures NotEvaluated in AfterLocated(c, lay, rank, reason, n, build).1.entries[lay.nodes[n].dirEntry].flags
  {
    var c1 := Marked(c, lay.nodes, n);
    MarkedKeepsWellFormed(c, lay, rank, n);
    if !BuildFails(c1, lay, n, build) {
      RedirectKeepsWellFormed(c1, lay, rank, n, build);
      FinishedKeepsFlags(Redirect(c1, lay, n, build), lay, rank, reason);
    }
  }

  /** Any reason but DELETED never faults and changes no list, tree, extent state or set of entries. */
  lemma OtherReasonLeavesStructure(c: Cache, lay: Layout, rank: map<FcbId, nat>, n: FcbId, build: BuildOutcome)
    requires WellFormed(c, lay, rank) && n in lay.nodes
    requires build.target.Some? ==> build.target.value in lay.nodes
    ensures var r := AfterLocated(c, lay, rank, OtherReason, n, build);
            r.0.Returned? && r.1.dirs == c.dirs && r.1.state == c.state && r.1.fileIdTree == c.fileIdTree &&
            r.1.entries.Keys == c.entries.Keys
  {
    var c1 := Marked(c, lay.nodes, n);
    MarkedKeepsWellFormed(c, lay, rank, n);
    if !BuildFails(c1, lay, n, build) {
      RedirectKeepsWellFormed(c1, lay, rank, n, build);
      FinishedOtherReason(Redirect(c1, lay, n, build), lay, rank);
    }
  }

  /**
    For a located node that is neither a symbolic link nor a mount point,
    the reference taken at the start is the one given back: every open
    reference count ends as it began.
  */
  lemma PlainNodeRefsBalanced(c: Cache, lay: Layout, rank: map<FcbId, nat>, reason: Reason, n: FcbId,
                              build: BuildOutcome, g: FcbId)
    requires WellFormed(c, lay, rank) && n in lay.nodes
    requires build.target.Some? ==> build.target.value in lay.nodes
    requires c.entries[lay.nodes[n].dirEntry].info.fileType !in {FileTypeSymLink, FileTypeMountPoint}
    requires AfterLocated(c, lay, rank, reason, n, build).0.Returned?
    ensures AfterLocated(c, lay, rank, reason, n, build).1.Refs(g) == c.Refs(g)
  {
    PlainLocated(c, lay, rank, reason, n, build);
    FinishedRefs(Redirection(StatusSuccess, Some(n), Marked(c, lay.nodes, n)), lay, rank, reason, g);
  }

  /**
    For a symbolic link or mount point whose TargetFcb t is already set,
    the reference is taken on the located node and given back on t: the
    link's count ends one higher and the target's one lower.
  */
  lemma LinkReferenceMovesToTarget(c: Cache, lay: Layout, rank: map<FcbId, nat>, reason: Reason, n: FcbId,
                                   build: BuildOutcome)
    requires WellFormed(c, lay, rank) && n in lay.nodes
    requires build.target.Some? ==> build.target.value in lay.nodes
    requires c.entries[lay.nodes[n].dirEntry].info.fileType in {FileTypeSymLink, FileTypeMountPoint}
    requires n in c.targetFcb && c.targetFcb[n] != n
    requires AfterLocated(c, lay, rank, reason, n, build).0.Returned?
    ensures AfterLocated(c, lay, rank, reason, n, build).1.Refs(n) == c.Refs(n) + 1
    ensures AfterLocated(c, lay, rank, reason, n, build).1.Refs(c.targetFcb[n]) == c.Refs(c.targetFcb[n]) - 1
  {
    LinkLocated(c, lay, rank, reason, n, build);
    var rd := Redirection(StatusSuccess, Some(c.targetFcb[n]), Marked(c, lay.nodes, n));
    FinishedRefs(rd, lay, rank, reason, n);
    FinishedRefs(rd, lay, rank, reason, c.targetFcb[n]);
  }

  /** A mount point with no TargetFcb whose target volume is not in the volume tree faults when DELETED. */
  lemma UnresolvedMountPointFaults(c: Cache, lay: Layout, rank: map<FcbId, nat>, n: FcbId, build: BuildOutcome)
    requires WellFormed(c, lay, rank) && n in lay.nodes
    requires build.target.Some? ==> build.target.value in lay.nodes
    requires c.entries[lay.nodes[n].dirEntry].info.fileType == FileTypeMountPoint && n !in c.targetFcb
    requires KeyOf(FileIndex.HighIndex(c.entries[lay.nodes[n].dirEntry].info.targetFileId)) !in lay.volumeTree
    ensures AfterLocated(c, lay, rank, Deleted, n, build).0 == BugCheck
  {
    var c1 := Marked(c, lay.nodes, n);
    assert c1.entries[lay.nodes[n].dirEntry].info == c.entries[lay.nodes[n].dirEntry].info;
  }

  /**
    A located directory reported DELETED ends with its lists emptied, its
    entry marked for release and every node below it in its volume's Fcb
    list invalidated with its extent requests cancelled.
  */
  lemma DeletedDirectoryLocated(c: Cache, lay: Layout, rank: map<FcbId, nat>, n: FcbId, build: BuildOutcome, g: FcbId)
    requires WellFormed(c, lay, rank) && n in lay.nodes
    requires build.target.Some? ==> build.target.value in lay.nodes
    requires c.entries[lay.nodes[n].dirEntry].info.fileType == FileTypeDirectory
    requires AfterLocated(c, lay, rank, Deleted, n, build).0.Returned?
    requires g in ListOf(lay.fcbList, lay.nodes[n].root) && g in lay.nodes && ParentChain.IsStrictAncestor(lay.parent, rank, n, g)
    ensures var r := AfterLocated(c, lay, rank, Deleted, n, build).1;
            r.Dir(n) == NoDirNodes && DirectoryEnumerated !in r.Flags(n) &&
            r.Invalidated(lay.nodes, g) && r.Cancelled(lay.nodes, g)
  {
    PlainLocated(c, lay, rank, Deleted, n, build);
    var c1 := Marked(c, lay.nodes, n);
    assert c1.entries[lay.nodes[n].dirEntry].info.fileType == FileTypeDirectory;
    DeletedDirectoryEmptied(c1, lay, rank, n);
    DeletedDirectoryInvalidatesDescendants(c1, lay, rank, n, g);
  }

  /**
    The only calls the located path makes: AFSBuildTargetDirectory for the
    located node, once and first, and otherwise flushes and teardowns of
    extents whose requests stand cancelled.
  */
  lemma LocatedCalls(c: Cache, lay: Layout, rank: map<FcbId, nat>, reason: Reason, n: FcbId, build: BuildOutcome)
    requires WellFormed(c, lay, rank) && n in lay.nodes
    requires build.target.Some? ==> build.target.value in lay.nodes
    ensures var r := AfterLocated(c, lay, rank, reason, n, build).1;
            OnlyCancelledCallsAfter(r.log, c.log) || OnlyCancelledCallsAfter(r.log, c.log + [BuildTargetDirectory(n)])
  {
    var c1 := Marked(c, lay.nodes, n);
    if BuildFails(c1, lay, n, build) {
      assert AfterLocated(c, lay, rank, reason, n, build).1.log == c.log + [BuildTargetDirectory(n)];
    } else {
      RedirectedCalls(c, lay, rank, reason, n, build);
    }
  }

  /** LocatedCalls once the target is known. */
  lemma RedirectedCalls(c: Cache, lay: Layout, rank: map<FcbId, nat>, reason: Reason, n: FcbId, build: BuildOutcome)
    requires WellFormed(c, lay, rank) && n in lay.nodes
    requires build.target.Some? ==> build.target.value in lay.nodes
    requires !BuildFails(Marked(c, lay.nodes, n), lay, n, build)
    ensures var r := AfterLocated(c, lay, rank, reason, n, build).1;
            OnlyCancelledCallsAfter(r.log, c.log) || OnlyCancelledCallsAfter(r.log, c.log + [BuildTargetDirectory(n)])
  {
    var c1 := Marked(c, lay.nodes, n);
    MarkedKeepsWellFormed(c, lay, rank, n);
    RedirectKeepsWellFormed(c1, lay, rank, n, build);
    var rd := Redirect(c1, lay, n, build);
    var r := Finished(rd, lay, rank, reason).1;
    FinishedCalls(rd, lay, rank, reason);
    if OnlyCancelledCallsAfter(rd.cache.log, c.log) {
      CancelledCallsCompose(c.log, rd.cache.log, r.log);
    } else {
      assert rd.cache.log == c.log + [BuildTargetDirectory(n)];
    }
  }
}
