/**
 * View-dependent streaming: the component's per-frame traversal of the patch
 * DAG (UUnrealNexusComponent) and the scene proxy's candidate list and GPU
 * cache (FUnrealNexusProxy).  The screen-space error of a node under the
 * current camera is a parameter, viewError; the static error a node record
 * stores is its `error` field read as a real.
 */
module Streaming {
  import opened Wire
  import opened Records

  /** ENodeStatus. */
  datatype NodeStatus = Dropped | Pending | Loaded

  /** FTraversalElement: a node id (TheNode is that node's record) and the error computed for it. */
  datatype TraversalElement = TraversalElement(id: nat, calculatedError: real)

  /** FTraversalData: the heap, the blocked, selected and visited sets, and the per-node errors of the pass. */
  datatype TraversalData = TraversalData(
    queue: seq<TraversalElement>,
    blocked: set<nat>,
    selected: set<nat>,
    visited: set<nat>,
    instanceErrors: seq<real>)

  /** FCandidateNode: a node the traversal wants loaded, with the error it had when requested. */
  datatype CandidateNode = CandidateNode(id: nat, firstNodeError: real)

  /** The editable defaults of the component. */
  const DefaultMaxBlockedNodes: int := 30
  const DefaultDrawBudget: int := 1024 * 1024 * 1024
  const DefaultTargetError: real := 2.0
  /** The proxy's default MaxPending. */
  const DefaultMaxPending: int := 5

  /** FMath::Max and FMath::Min on errors. */
  function Max(a: real, b: real): (r: real)
    ensures r >= a && r >= b && (r == a || r == b)
  {
    if a >= b then a else b
  }

  function Min(a: real, b: real): (r: real)
    ensures r <= a && r <= b && (r == a || r == b)
  {
    if a <= b then a else b
  }

  /** The static error stored in a node record, the key of the traversal heap. */
  function StaticError(n: Node): real
  {
    FloatValue(n.error)
  }

  /**
   * GetNodeSize: the next node's begin offset minus this one's, as a uint64.
   * beginOffset is the library's Node::getBeginOffset.
   */
  function NodeSizeOf(nodes: seq<Node>, beginOffset: Node -> nat, n: nat): (size: U64)
    requires n + 1 < |nodes|
    ensures beginOffset(nodes[n]) <= beginOffset(nodes[n + 1]) < beginOffset(nodes[n]) + 0x1_0000_0000_0000_0000 ==>
      beginOffset(nodes[n]) + size == beginOffset(nodes[n + 1])
  {
    UnsignedSub(beginOffset(nodes[n + 1]), beginOffset(nodes[n]), 0x1_0000_0000_0000_0000)
  }

  /** The total size of a set of loaded nodes. */
  ghost function SizeSum(nodes: seq<Node>, beginOffset: Node -> nat, ids: set<nat>): int
    requires forall k :: k in ids ==> k + 1 < |nodes|
  {
    if ids == {} then 0
    else
      var k :| k in ids;
      NodeSizeOf(nodes, beginOffset, k) + SizeSum(nodes, beginOffset, ids - {k})
  }

  /** Whatever element the sum picks first, taking any one element out removes exactly its size. */
  lemma {:induction false} SizeSumRemove(nodes: seq<Node>, beginOffset: Node -> nat, ids: set<nat>, k: nat)
    requires forall j :: j in ids ==> j + 1 < |nodes|
    requires k in ids
    ensures SizeSum(nodes, beginOffset, ids) == NodeSizeOf(nodes, beginOffset, k) + SizeSum(nodes, beginOffset, ids - {k})
    decreases |ids|
  {
    var j :| j in ids && SizeSum(nodes, beginOffset, ids) ==
      NodeSizeOf(nodes, beginOffset, j) + SizeSum(nodes, beginOffset, ids - {j});
    if j != k {
      SizeSumRemove(nodes, beginOffset, ids - {j}, k);
      SizeSumRemove(nodes, beginOffset, ids - {k}, j);
      assert ids - {j} - {k} == ids - {k} - {j};
    }
  }

  /** The ids of the patches before index k. */
  ghost function ChildIds(patches: seq<Patch>, k: nat): set<nat>
    requires k <= |patches|
  {
    set i | 0 <= i < k :: patches[i].node as nat
  }

  /** One more patch scanned adds its node. */
  lemma ChildIdsSnoc(patches: seq<Patch>, k: nat)
    requires k < |patches|
    ensures ChildIds(patches, k + 1) == ChildIds(patches, k) + {patches[k].node as nat}
  {
  }

  /** Where AddNodeChildren stops: the first patch pointing at the sink, or the end. */
  function SinkCut(patches: seq<Patch>, sink: nat, from: nat): (c: nat)
    requires from <= |patches|
    ensures from <= c <= |patches|
    ensures forall i :: from <= i < c ==> patches[i].node != sink
    ensures c < |patches| ==> patches[c].node == sink
    decreases |patches| - from
  {
    if from == |patches| || patches[from].node == sink then from else SinkCut(patches, sink, from + 1)
  }

  /** The ids of a run of traversal elements. */
  ghost function Ids(q: seq<TraversalElement>): set<nat>
  {
    set x | x in q :: x.id
  }

  /** No two elements of the queue name the same node. */
  ghost predicate DistinctIds(q: seq<TraversalElement>)
  {
    forall a, b :: 0 <= a < b < |q| ==> q[a].id != q[b].id
  }

  /** Node ids not yet visited: what bounds the traversal. */
  ghost function Unvisited(n: nat, visited: set<nat>): set<nat>
  {
    set i | 0 <= i < n && i !in visited
  }

  /**
   * HeapPop with FNodeComparator: take out an element whose node has the
   * largest static error.  Ties are broken by queue position here; the
   * engine's heap may break them otherwise.
   */
  method PopMax(q: seq<TraversalElement>, nodes: seq<Node>) returns (e: TraversalElement, rest: seq<TraversalElement>, at: nat)
    requires |q| > 0 && forall x :: x in q ==> x.id < |nodes|
    ensures at < |q| && e == q[at] && rest == q[..at] + q[at + 1..]
    ensures forall x :: x in q ==> StaticError(nodes[x.id]) <= StaticError(nodes[e.id])
  {
    at := 0;
    var i := 1;
    while i < |q|
      invariant 1 <= i <= |q| && at < i
      invariant forall k :: 0 <= k < i ==> StaticError(nodes[q[k].id]) <= StaticError(nodes[q[at].id])
    {
      if StaticError(nodes[q[i].id]) > StaticError(nodes[q[at].id]) {
        at := i;
      }
      i := i + 1;
    }
    e := q[at];
    rest := q[..at] + q[at + 1..];
  }

  /** Taking one element out of a queue with distinct ids leaves the others, still distinct. */
  lemma PopKeepsDistinct(q: seq<TraversalElement>, at: nat)
    requires at < |q| && DistinctIds(q)
    ensures DistinctIds(q[..at] + q[at + 1..])
    ensures Ids(q[..at] + q[at + 1..]) == Ids(q) - {q[at].id}
  {
    var rest := q[..at] + q[at + 1..];
    forall a, b | 0 <= a < b < |rest|
      ensures rest[a].id != rest[b].id
    {
      var a' := if a < at then a else a + 1;
      var b' := if b < at then b else b + 1;
      assert rest[a] == q[a'] && rest[b] == q[b'];
    }
    PopIdsBelow(q, at);
    PopIdsAbove(q, at);
  }

  /** Every id left after the pop was in q and is not the popped one. */
  lemma PopIdsBelow(q: seq<TraversalElement>, at: nat)
    requires at < |q| && DistinctIds(q)
    ensures Ids(q[..at] + q[at + 1..]) <= Ids(q) - {q[at].id}
  {
    var rest := q[..at] + q[at + 1..];
    forall x | x in rest
      ensures x in q && x.id != q[at].id
    {
      var k :| 0 <= k < |rest| && rest[k] == x;
      if k < at {
        assert x == q[k];
      } else {
        assert x == q[k + 1];
      }
    }
  }

  /** Every id of q but the popped one is still there after the pop. */
  lemma PopIdsAbove(q: seq<TraversalElement>, at: nat)
    requires at < |q|
    ensures Ids(q) - {q[at].id} <= Ids(q[..at] + q[at + 1..])
  {
    var rest := q[..at] + q[at + 1..];
    forall x | x in q && x.id != q[at].id
      ensures x in rest
    {
      var k :| 0 <= k < |q| && q[k] == x;
      if k < at {
        assert rest[k] == x;
      } else {
        assert rest[k - 1] == x;
      }
    }
  }

  /** A node counts as loaded when its status entry says Loaded. */
  predicate LoadedIn(statuses: map<nat, NodeStatus>, id: nat)
  {
    id in statuses && statuses[id] == Loaded
  }

  /**
   * r is td after AddNodeToTraversal pushed each id of added once, in some
   * order; blocked is not constrained.
   */
  ghost predicate Pushed(td: TraversalData, r: TraversalData, added: set<nat>, viewError: nat -> real)
  {
    added !! td.visited && r.visited == td.visited + added && r.selected == td.selected &&
    |r.instanceErrors| == |td.instanceErrors| &&
    PushedQueue(td.queue, r.queue, added, viewError) &&
    (forall k :: 0 <= k < |td.instanceErrors| ==>
      r.instanceErrors[k] == if k in added then viewError(k) else td.instanceErrors[k])
  }

  /** q is prefix followed by one element per id of added, each id once, each with its error. */
  ghost predicate PushedQueue(prefix: seq<TraversalElement>, q: seq<TraversalElement>, added: set<nat>,
                              viewError: nat -> real)
  {
    |q| >= |prefix| && q[..|prefix|] == prefix &&
    DistinctIds(q[|prefix|..]) && Ids(q[|prefix|..]) == added &&
    (forall x :: x in q[|prefix|..] ==> x == TraversalElement(x.id, viewError(x.id)))
  }

  /** Appending an element with a new id keeps PushedQueue. */
  lemma PushedQueueStep(prefix: seq<TraversalElement>, q: seq<TraversalElement>, added: set<nat>,
                        viewError: nat -> real, c: nat)
    requires PushedQueue(prefix, q, added, viewError) && c !in added
    ensures PushedQueue(prefix, q + [TraversalElement(c, viewError(c))], added + {c}, viewError)
  {
    var x := TraversalElement(c, viewError(c));
    var tail := q[|prefix|..];
    AppendFresh(tail, x);
    assert (q + [x])[|prefix|..] == tail + [x];
    assert (q + [x])[..|prefix|] == prefix;
  }

  /** The stored errors after pushing added: each pushed id raised to its error, the rest kept. */
  ghost predicate Raised(before: seq<real>, after: seq<real>, added: set<nat>, viewError: nat -> real)
  {
    |after| == |before| &&
    forall k :: 0 <= k < |before| ==> after[k] == if k in added then Max(viewError(k), before[k]) else before[k]
  }

  /** Appending an element with a new id keeps the ids distinct and adds that id. */
  lemma AppendFresh(q: seq<TraversalElement>, x: TraversalElement)
    requires DistinctIds(q) && x.id !in Ids(q)
    ensures DistinctIds(q + [x]) && Ids(q + [x]) == Ids(q) + {x.id}
  {
    forall a, b | 0 <= a < b < |q| + 1
      ensures (q + [x])[a].id != (q + [x])[b].id
    {
      if b == |q| {
        assert q[a].id in Ids(q);
      }
    }
  }

  /** One more push keeps Pushed. */
  lemma PushedStep(td: TraversalData, r: TraversalData, added: set<nat>, viewError: nat -> real, c: nat)
    requires Pushed(td, r, added, viewError) && c !in r.visited && c < |r.instanceErrors|
    ensures Pushed(td, r.(visited := r.visited + {c}, instanceErrors := r.instanceErrors[c := viewError(c)],
                          queue := r.queue + [TraversalElement(c, viewError(c))]), added + {c}, viewError)
  {
    PushedQueueStep(td.queue, r.queue, added, viewError, c);
  }

  /** One more push keeps Raised. */
  lemma RaisedStep(before: seq<real>, after: seq<real>, added: set<nat>, viewError: nat -> real, c: nat)
    requires Raised(before, after, added, viewError) && c !in added && c < |after|
    ensures Raised(before, after[c := Max(viewError(c), after[c])], added + {c}, viewError)
  {
  }

  /** Pushed says nothing about the blocked set. */
  lemma PushedBlocked(td: TraversalData, r: TraversalData, added: set<nat>, viewError: nat -> real, blocked: set<nat>)
    requires Pushed(td, r, added, viewError)
    ensures Pushed(td, r.(blocked := blocked), added, viewError)
  {
  }

  /** Nothing pushed yet. */
  lemma PushedNone(td: TraversalData, viewError: nat -> real)
    requires forall x :: x in td.queue ==> x == TraversalElement(x.id, viewError(x.id))
    ensures Pushed(td, td, {}, viewError)
  {
    assert td.queue[|td.queue|..] == [];
    assert PushedQueue(td.queue, td.queue, {}, viewError);
  }

  /** The queue-side facts between two pops: popped holds the ids taken off the heap so far. */
  ghost predicate QueueInvariant(td: TraversalData, popped: set<nat>, viewError: nat -> real, n: nat, roots: nat)
  {
    |td.instanceErrors| == n &&
    (forall v :: v in td.visited ==> v < n) &&
    (forall i :: 0 <= i < roots ==> i in td.visited) &&
    (forall k :: 0 <= k < n ==> td.instanceErrors[k] == if k in td.visited then viewError(k) else 0.0) &&
    (forall x :: x in td.queue ==> x.id in td.visited && x.id !in popped && x == TraversalElement(x.id, viewError(x.id))) &&
    DistinctIds(td.queue) && popped <= td.visited && td.selected <= popped
  }

  /** The stored errors between two pops: raised to the node's error once visited, 0 before. */
  ghost predicate ErrorsInvariant(visited: set<nat>, errors: seq<real>, viewError: nat -> real, n: nat)
  {
    |errors| == n &&
    forall k :: 0 <= k < n ==> errors[k] == if k in visited then Max(viewError(k), 0.0) else 0.0
  }

  /** The candidates a pass appends: popped, unloaded, with their error, each id once. */
  ghost predicate CandidatesInvariant(cands: seq<CandidateNode>, before: seq<CandidateNode>, popped: set<nat>,
                                      statuses: map<nat, NodeStatus>, viewError: nat -> real)
  {
    |cands| >= |before| && cands[..|before|] == before &&
    (forall k :: |before| <= k < |cands| ==>
      cands[k].id in popped && !LoadedIn(statuses, cands[k].id) && cands[k].firstNodeError == viewError(cands[k].id)) &&
    (forall a, b :: |before| <= a < b < |cands| ==> cands[a].id != cands[b].id)
  }

  /** After the pop and the pushes, every queued element is visited, not popped, and carries its error. */
  lemma QueueMembersAfterVisit(td: TraversalData, popped: set<nat>, viewError: nat -> real, n: nat, roots: nat,
                               at: nat, mid: TraversalData, r: TraversalData, added: set<nat>)
    requires QueueInvariant(td, popped, viewError, n, roots) && at < |td.queue|
    requires mid.queue == td.queue[..at] + td.queue[at + 1..] && mid.visited == td.visited
    requires Pushed(mid, r, added, viewError)
    ensures forall x :: x in r.queue ==>
      x.id in r.visited && x.id !in popped + {td.queue[at].id} && x == TraversalElement(x.id, viewError(x.id))
  {
    var id := td.queue[at].id;
    PopKeepsDistinct(td.queue, at);
    var tail := r.queue[|mid.queue|..];
    assert r.queue == mid.queue + tail;
    forall x | x in r.queue
      ensures x.id in r.visited && x.id !in popped + {id} && x == TraversalElement(x.id, viewError(x.id))
    {
      if x in mid.queue {
        assert x.id in Ids(mid.queue);
      } else {
        assert x in tail && x.id in Ids(tail);
      }
    }
  }

  /** After the pop and the pushes, the queue still names each node once. */
  lemma QueueDistinctAfterVisit(td: TraversalData, at: nat, mid: TraversalData, r: TraversalData,
                                added: set<nat>, viewError: nat -> real)
    requires DistinctIds(td.queue) && at < |td.queue| && Ids(td.queue) <= td.visited
    requires mid.queue == td.queue[..at] + td.queue[at + 1..] && mid.visited == td.visited
    requires Pushed(mid, r, added, viewError)
    ensures DistinctIds(r.queue)
  {
    PopKeepsDistinct(td.queue, at);
    var tail := r.queue[|mid.queue|..];
    assert r.queue == mid.queue + tail;
    forall a, b | 0 <= a < b < |r.queue|
      ensures r.queue[a].id != r.queue[b].id
    {
      if b >= |mid.queue| && a < |mid.queue| {
        assert r.queue[a].id in Ids(mid.queue);
        assert r.queue[b] == tail[b - |mid.queue|];
        assert r.queue[b].id in Ids(tail);
      } else if a >= |mid.queue| {
        assert r.queue[a] == tail[a - |mid.queue|] && r.queue[b] == tail[b - |mid.queue|];
      }
    }
  }

  /** A round either visits a new node or shortens the queue. */
  lemma MeasureAfterVisit(td: TraversalData, at: nat, mid: TraversalData, r: TraversalData,
                          added: set<nat>, viewError: nat -> real, n: nat)
    requires at < |td.queue| && mid.queue == td.queue[..at] + td.queue[at + 1..] && mid.visited == td.visited
    requires Pushed(mid, r, added, viewError) && forall v :: v in added ==> v < n
    ensures Unvisited(n, r.visited) < Unvisited(n, td.visited) || (r.visited == td.visited && |r.queue| < |td.queue|)
  {
    var tail := r.queue[|mid.queue|..];
    if added == {} {
      assert |tail| == 0 || tail[0].id in Ids(tail);
    } else {
      var v :| v in added;
      assert v in Unvisited(n, td.visited) && v !in Unvisited(n, r.visited);
    }
  }

  /** Popping the element at `at`, then pushing added, keeps the queue facts. */
  lemma QueueAfterVisit(td: TraversalData, popped: set<nat>, viewError: nat -> real, n: nat, roots: nat,
                        at: nat, mid: TraversalData, r: TraversalData, added: set<nat>)
    requires QueueInvariant(td, popped, viewError, n, roots) && at < |td.queue|
    requires mid.queue == td.queue[..at] + td.queue[at + 1..] && mid.visited == td.visited
    requires mid.instanceErrors == td.instanceErrors && mid.selected <= td.selected + {td.queue[at].id}
    requires Pushed(mid, r, added, viewError) && forall v :: v in added ==> v < n
    ensures QueueInvariant(r, popped + {td.queue[at].id}, viewError, n, roots)
  {
    QueueMembersAfterVisit(td, popped, viewError, n, roots, at, mid, r, added);
    assert Ids(td.queue) <= td.visited;
    QueueDistinctAfterVisit(td, at, mid, r, added, viewError);
  }

  /** Appending a popped, unloaded node keeps the candidate facts. */
  lemma CandidatesAfterAdd(cands: seq<CandidateNode>, before: seq<CandidateNode>, popped: set<nat>,
                           statuses: map<nat, NodeStatus>, viewError: nat -> real, id: nat)
    requires CandidatesInvariant(cands, before, popped, statuses, viewError)
    requires id !in popped && !LoadedIn(statuses, id)
    ensures CandidatesInvariant(cands + [CandidateNode(id, viewError(id))], before, popped + {id}, statuses, viewError)
  {
    var c' := cands + [CandidateNode(id, viewError(id))];
    assert c'[..|before|] == cands[..|before|];
    forall a, b | |before| <= a < b < |c'|
      ensures c'[a].id != c'[b].id
    {
      assert c'[a] == cands[a];
      if b < |cands| {
        assert c'[b] == cands[b];
      }
    }
  }

  /** Popping more nodes keeps the candidate facts. */
  lemma CandidatesAfterPop(cands: seq<CandidateNode>, before: seq<CandidateNode>, popped: set<nat>,
                           statuses: map<nat, NodeStatus>, viewError: nat -> real, id: nat)
    requires CandidatesInvariant(cands, before, popped, statuses, viewError)
    ensures CandidatesInvariant(cands, before, popped + {id}, statuses, viewError)
  {
  }

  /** Pushing ids never visited before raises their stored errors from 0. */
  lemma ErrorsAfterVisit(visited: set<nat>, errors: seq<real>, after: seq<real>, added: set<nat>,
                         viewError: nat -> real, n: nat)
    requires ErrorsInvariant(visited, errors, viewError, n) && added !! visited
    requires Raised(errors, after, added, viewError)
    ensures ErrorsInvariant(visited + added, after, viewError, n)
  {
  }

  /** The ids of two runs together are the ids of each. */
  lemma IdsConcat(a: seq<TraversalElement>, b: seq<TraversalElement>)
    ensures Ids(a + b) == Ids(a) + Ids(b)
  {
    forall x | x in a + b
      ensures x in a || x in b
    {
    }
    forall x | x in a || x in b
      ensures x in a + b
    {
      if x in a {
        var k :| 0 <= k < |a| && a[k] == x;
        assert (a + b)[k] == x;
      } else {
        var k :| 0 <= k < |b| && b[k] == x;
        assert (a + b)[|a| + k] == x;
      }
    }
  }

  /** After the pop and the pushes, the queue names the old ids but the popped one, and the pushed ones. */
  lemma QueueIdsAfterVisit(td: TraversalData, at: nat, mid: TraversalData, r: TraversalData,
                           added: set<nat>, viewError: nat -> real)
    requires DistinctIds(td.queue) && at < |td.queue|
    requires mid.queue == td.queue[..at] + td.queue[at + 1..]
    requires Pushed(mid, r, added, viewError)
    ensures Ids(r.queue) == (Ids(td.queue) - {td.queue[at].id}) + added
  {
    PopKeepsDistinct(td.queue, at);
    var tail := r.queue[|mid.queue|..];
    assert r.queue == mid.queue + tail;
    IdsConcat(mid.queue, tail);
  }

  /** The ids of the candidates a pass appended after the list before. */
  ghost function NewIds(cands: seq<CandidateNode>, before: seq<CandidateNode>): set<nat>
  {
    set k | |before| <= k < |cands| :: cands[k].id
  }

  /** Appending a candidate adds its id to the new ids. */
  lemma NewIdsAppend(cands: seq<CandidateNode>, before: seq<CandidateNode>, c: CandidateNode)
    requires |cands| >= |before|
    ensures NewIds(cands + [c], before) == NewIds(cands, before) + {c.id}
  {
    var c' := cands + [c];
    assert c'[|cands|] == c;
    forall k | |before| <= k < |cands|
      ensures c'[k] == cands[k]
    {
    }
  }

  /** A pop that blocks its node adds one to the blocked pops; one that selects it adds none. */
  lemma BlockedCountStep(popped: set<nat>, selected: set<nat>, id: nat, isBlocked: bool)
    requires selected <= popped && id !in popped
    ensures |(popped + {id}) - (if isBlocked then selected else selected + {id})| ==
      |popped - selected| + (if isBlocked then 1 else 0)
  {
    if isBlocked {
      assert (popped + {id}) - selected == (popped - selected) + {id};
    } else {
      assert (popped + {id}) - (selected + {id}) == popped - selected;
    }
  }

  // ---------------------------------------------------------------------
  // The component.

  class NexusComponent {
    /** The asset's node records and each node's patches (NexusLoadedAsset->Nodes). */
    const nodes: seq<Node>
    const nodePatches: seq<seq<Patch>>
    const rootsCount: nat
    const beginOffset: Node -> nat
    const maxBlockedNodes: int
    const drawBudget: int
    const targetError: real
    const maxError: real
    /** Never raised anywhere: it stays 0. */
    var currentDrawBudget: int
    var currentError: real
    var currentlyBlockedNodes: int
    var calculatedErrors: seq<real>
    var nodeStatuses: map<nat, NodeStatus>
    var currentCacheSize: int
    var proxy: NexusProxy?

    /** The component with its memory allocated (AllocateMemory): one zero error per node, no status. */
    constructor (nodes: seq<Node>, nodePatches: seq<seq<Patch>>, rootsCount: nat, beginOffset: Node -> nat,
                 maxBlockedNodes: int, drawBudget: int, targetError: real, maxError: real)
      ensures this.nodes == nodes && this.nodePatches == nodePatches && this.rootsCount == rootsCount
      ensures this.beginOffset == beginOffset && this.maxBlockedNodes == maxBlockedNodes
      ensures this.drawBudget == drawBudget && this.targetError == targetError && this.maxError == maxError
      ensures currentDrawBudget == 0 && currentError == 0.0 && currentlyBlockedNodes == 0
      ensures calculatedErrors == seq(|nodes|, _ => 0.0) && nodeStatuses == map[]
      ensures currentCacheSize == 0 && proxy == null
    {
      this.nodes := nodes;
      this.nodePatches := nodePatches;
      this.rootsCount := rootsCount;
      this.beginOffset := beginOffset;
      this.maxBlockedNodes := maxBlockedNodes;
      this.drawBudget := drawBudget;
      this.targetError := targetError;
      this.maxError := maxError;
      currentDrawBudget := 0;
      currentError := 0.0;
      currentlyBlockedNodes := 0;
      calculatedErrors := seq(|nodes|, _ => 0.0);
      nodeStatuses := map[];
      currentCacheSize := 0;
      proxy := null;
    }

    /** The node table as the traversal needs it: the sink exists, and every patch names a node. */
    ghost predicate Shaped()
      reads this
    {
      |nodes| >= 1 && |nodePatches| == |nodes| && rootsCount <= |nodes| &&
      |calculatedErrors| == |nodes| &&
      forall j, i :: 0 <= j < |nodePatches| && 0 <= i < |nodePatches[j]| ==> nodePatches[j][i].node < |nodes|
    }

    predicate IsNodeLoaded(id: nat)
      reads this`nodeStatuses
    {
      LoadedIn(nodeStatuses, id)
    }

    /** SetNodeStatus: Dropped removes the entry, any other status is stored. */
    method SetNodeStatus(id: nat, status: NodeStatus)
      modifies this`nodeStatuses
      ensures status == Dropped ==> nodeStatuses == old(nodeStatuses) - {id}
      ensures status != Dropped ==> nodeStatuses == old(nodeStatuses)[id := status]
      ensures forall n :: IsNodeLoaded(n) <==> if n == id then status == Loaded else old(IsNodeLoaded(n))
    {
      if status == Dropped {
        nodeStatuses := nodeStatuses - {id};
      } else {
        nodeStatuses := nodeStatuses[id := status];
      }
    }

    /** ClearErrors: every stored error back to 0, the length kept. */
    method ClearErrors()
      modifies this`calculatedErrors
      ensures calculatedErrors == seq(|old(calculatedErrors)|, _ => 0.0)
    {
      var i := 0;
      while i < |calculatedErrors|
        invariant i <= |calculatedErrors| == |old(calculatedErrors)|
        invariant forall k :: 0 <= k < i ==> calculatedErrors[k] == 0.0
      {
        calculatedErrors := calculatedErrors[i := 0.0];
        i := i + 1;
      }
    }

    /** GetNodeSize. */
    function GetNodeSize(n: nat): (size: U64)
      requires n + 1 < |nodes|
      ensures size == NodeSizeOf(nodes, beginOffset, n)
    {
      NodeSizeOf(nodes, beginOffset, n)
    }

    /** UnloadNode: the node's status entry goes (the asset's own unload is not part of this model). */
    method UnloadNode(id: nat)
      modifies this`nodeStatuses
      ensures nodeStatuses == old(nodeStatuses) - {id} && !IsNodeLoaded(id)
    {
      SetNodeStatus(id, Dropped);
    }

    /** CanNodeBeExpanded: a node can be refined when its error is above the target, the budget holds and it is loaded. */
    predicate CanNodeBeExpanded(id: nat, nodeError: real)
      reads this`currentDrawBudget, this`nodeStatuses
    {
      nodeError > targetError && currentDrawBudget <= drawBudget && IsNodeLoaded(id)
    }

    /**
     * AddNodeToTraversal: mark the node visited, record its error for the
     * pass, raise its stored error to it, and push it on the heap.
     */
    method AddNodeToTraversal(td: TraversalData, id: nat, viewError: nat -> real) returns (r: TraversalData)
      requires id < |td.instanceErrors| && id < |calculatedErrors|
      modifies this`calculatedErrors
      ensures r == td.(visited := td.visited + {id},
                       instanceErrors := td.instanceErrors[id := viewError(id)],
                       queue := td.queue + [TraversalElement(id, viewError(id))])
      ensures calculatedErrors == old(calculatedErrors)[id := Max(viewError(id), old(calculatedErrors)[id])]
    {
      r := td.(visited := td.visited + {id});
      var nodeError := viewError(id);
      r := r.(instanceErrors := r.instanceErrors[id := nodeError]);
      calculatedErrors := calculatedErrors[id := Max(nodeError, calculatedErrors[id])];
      r := r.(queue := r.queue + [TraversalElement(id, nodeError)]);
    }

    /**
     * AddNodeChildren: scan the node's patches in order and stop at the first
     * one pointing at the sink.  Each child scanned is blocked when the
     * parent is, and pushed when not yet visited.
     */
    method AddNodeChildren(e: TraversalElement, td: TraversalData, markBlocked: bool, viewError: nat -> real)
      returns (r: TraversalData)
      requires Shaped() && e.id < |nodes| && |td.instanceErrors| == |nodes|
      requires forall x :: x in td.queue ==> x == TraversalElement(x.id, viewError(x.id))
      modifies this`calculatedErrors
      ensures var children := ChildIds(nodePatches[e.id], SinkCut(nodePatches[e.id], |nodes| - 1, 0));
        Pushed(td, r, children - td.visited, viewError) &&
        Raised(old(calculatedErrors), calculatedErrors, children - td.visited, viewError) &&
        r.blocked == td.blocked + (if markBlocked then children else {}) &&
        forall v :: v in children ==> v < |nodes|
    {
      var patches := nodePatches[e.id];
      var sink := |nodes| - 1;
      ghost var c := SinkCut(patches, sink, 0);
      r := td;
      PushedNone(td, viewError);
      ghost var added: set<nat> := {};
      ghost var seen: set<nat> := {};
      var k := 0;
      while k < |patches|
        invariant k <= c && |calculatedErrors| == |nodes|
        invariant seen == ChildIds(patches, k) && added == seen - td.visited
        invariant Pushed(td, r, added, viewError)
        invariant Raised(old(calculatedErrors), calculatedErrors, added, viewError)
        invariant r.blocked == td.blocked + (if markBlocked then seen else {})
      {
        var child: nat := patches[k].node;
        if child == sink {
          assert k == c;
          return;
        }
        ChildIdsSnoc(patches, k);
        seen := seen + {child};
        if markBlocked {
          PushedBlocked(td, r, added, viewError, r.blocked + {child});
          r := r.(blocked := r.blocked + {child});
        }
        if child !in r.visited {
          PushedStep(td, r, added, viewError, child);
          RaisedStep(old(calculatedErrors), calculatedErrors, added, viewError, child);
          r := AddNodeToTraversal(r, child, viewError);
          added := added + {child};
        }
        k := k + 1;
      }
      assert k == c;
    }

    /**
     * UpdateRemainingErrors: every node the proxy has loaded whose error for
     * the pass is still 0 gets its current error, and its stored error is
     * raised to it.
     */
    method UpdateRemainingErrors(instanceErrors: seq<real>, viewError: nat -> real) returns (r: seq<real>)
      requires proxy != null && |instanceErrors| == |nodes| && |calculatedErrors| == |nodes|
      requires forall k :: k in proxy.loadedMeshData ==> k < |nodes|
      modifies this`calculatedErrors
      ensures |r| == |nodes| && |calculatedErrors| == |nodes|
      ensures forall k :: 0 <= k < |nodes| ==>
        var raise := k in proxy.loadedMeshData && instanceErrors[k] == 0.0;
        r[k] == (if raise then viewError(k) else instanceErrors[k]) &&
        calculatedErrors[k] == (if raise then Max(old(calculatedErrors)[k], viewError(k)) else old(calculatedErrors)[k])
    {
      var loadedNodes := proxy.GetLoadedNodes();
      r := instanceErrors;
      for i := 0 to |loadedNodes|
        invariant |r| == |nodes| && |calculatedErrors| == |nodes|
        invariant forall k :: 0 <= k < |nodes| ==>
          var raise := k in loadedNodes[..i] && instanceErrors[k] == 0.0;
          r[k] == (if raise then viewError(k) else instanceErrors[k]) &&
          calculatedErrors[k] == (if raise then Max(old(calculatedErrors)[k], viewError(k)) else old(calculatedErrors)[k])
      {
        var id := loadedNodes[i];
        assert id in proxy.loadedMeshData;
        assert id !in loadedNodes[..i];
        assert loadedNodes[..i + 1] == loadedNodes[..i] + [id];
        var nodeError := viewError(id);
        if r[id] == 0.0 {
          r := r[id := nodeError];
          calculatedErrors := calculatedErrors[id := Max(calculatedErrors[id], nodeError)];
        }
      }
    }

    /** The children AddNodeChildren scans for a node: those of its patches before the first one at the sink. */
    ghost function ChildrenOf(id: nat): set<nat>
    {
      if id < |nodePatches| && |nodes| >= 1
      then ChildIds(nodePatches[id], SinkCut(nodePatches[id], |nodes| - 1, 0))
      else {}
    }

    /**
     * What a pass has done with the nodes it popped: every visited node is
     * popped or still queued, a popped node's children are visited, and
     * blocked with it when it was not selected; blockedCount counts the
     * popped nodes that were not selected.
     */
    ghost predicate Traced(td: TraversalData, popped: set<nat>, blockedCount: int)
    {
      (forall v :: v in td.visited ==> v in popped || v in Ids(td.queue)) &&
      (forall p :: p in popped ==> ChildrenOf(p) <= td.visited) &&
      (forall p :: p in popped && p !in td.selected ==> ChildrenOf(p) <= td.blocked) &&
      blockedCount == |popped - td.selected|
    }

    /** One round of the loop keeps Traced, with the popped node added. */
    lemma TracedStep(td: TraversalData, popped: set<nat>, count: int, r: TraversalData, id: nat, isBlocked: bool)
      requires Traced(td, popped, count) && td.selected <= popped && id !in popped
      requires r.visited == td.visited + ChildrenOf(id)
      requires Ids(r.queue) == (Ids(td.queue) - {id}) + (ChildrenOf(id) - td.visited)
      requires r.selected == (if isBlocked then td.selected else td.selected + {id})
      requires r.blocked == td.blocked + (if isBlocked then ChildrenOf(id) else {})
      ensures Traced(r, popped + {id}, count + (if isBlocked then 1 else 0))
    {
      BlockedCountStep(popped, td.selected, id, isBlocked);
      forall v | v in r.visited
        ensures v in popped + {id} || v in Ids(r.queue)
      {
        if v !in td.visited {
          assert v in ChildrenOf(id) - td.visited;
        }
      }
      forall p | p in popped + {id} && p !in r.selected
        ensures ChildrenOf(p) <= r.blocked
      {
        if p == id {
          assert isBlocked;
        } else {
          assert p in popped && p !in td.selected;
        }
      }
    }

    /** What holds between two pops of DoTraversal; oldCandidates is the proxy's list before the pass. */
    ghost predicate PassInvariant(td: TraversalData, popped: set<nat>, viewError: nat -> real,
                                  oldCandidates: seq<CandidateNode>)
      reads this, proxy
    {
      Shaped() && proxy != null &&
      QueueInvariant(td, popped, viewError, |nodes|, rootsCount) &&
      ErrorsInvariant(td.visited, calculatedErrors, viewError, |nodes|) &&
      CandidatesInvariant(proxy.candidates, oldCandidates, popped, nodeStatuses, viewError) &&
      (forall s :: s in td.selected ==>
        IsNodeLoaded(s) && viewError(s) > targetError && currentDrawBudget <= drawBudget) &&
      currentlyBlockedNodes >= 0
    }

    /**
     * The first half of a round of DoTraversal's loop: pop the node with the
     * largest static error, make it a candidate when it is not loaded, and
     * block or select it.  counted is 1 when a candidate was added.
     */
    method PopAndMark(td: TraversalData, ghost popped: set<nat>, viewError: nat -> real,
                      ghost oldCandidates: seq<CandidateNode>)
      returns (e: TraversalElement, at: nat, mid: TraversalData, isBlocked: bool, counted: int)
      requires PassInvariant(td, popped, viewError, oldCandidates) && |td.queue| > 0
      modifies this`currentlyBlockedNodes, proxy`candidates
      ensures at < |td.queue| && e == td.queue[at] && e.id < |nodes|
      ensures mid == td.(queue := td.queue[..at] + td.queue[at + 1..], selected := mid.selected)
      ensures forall x :: x in td.queue ==> StaticError(nodes[x.id]) <= StaticError(nodes[e.id])
      ensures isBlocked == (e.id in td.blocked || !CanNodeBeExpanded(e.id, viewError(e.id)))
      ensures mid.selected == if isBlocked then td.selected else td.selected + {e.id}
      ensures currentlyBlockedNodes == old(currentlyBlockedNodes) + (if isBlocked then 1 else 0)
      ensures var requested := !IsNodeLoaded(e.id) && old(currentlyBlockedNodes) < maxBlockedNodes;
        proxy.candidates == old(proxy.candidates) + (if requested then [CandidateNode(e.id, viewError(e.id))] else []) &&
        counted == if requested then 1 else 0
      ensures CandidatesInvariant(proxy.candidates, oldCandidates, popped + {e.id}, nodeStatuses, viewError)
      ensures forall s :: s in mid.selected ==>
        IsNodeLoaded(s) && viewError(s) > targetError && currentDrawBudget <= drawBudget
      ensures currentlyBlockedNodes >= 0
    {
      var rest;
      e, rest, at := PopMax(td.queue, nodes);
      mid := td.(queue := rest);
      var nodeError := e.calculatedError;
      assert nodeError == viewError(e.id);
      counted := 0;
      if !IsNodeLoaded(e.id) && currentlyBlockedNodes < maxBlockedNodes {
        CandidatesAfterAdd(proxy.candidates, oldCandidates, popped, nodeStatuses, viewError, e.id);
        proxy.AddCandidate(e.id, nodeError);
        counted := 1;
      } else {
        CandidatesAfterPop(proxy.candidates, oldCandidates, popped, nodeStatuses, viewError, e.id);
      }
      isBlocked := e.id in mid.blocked || !CanNodeBeExpanded(e.id, nodeError);
      if isBlocked {
        currentlyBlockedNodes := currentlyBlockedNodes + 1;
      } else {
        mid := mid.(selected := mid.selected + {e.id});
      }
    }

    /**
     * One round of DoTraversal's loop: PopAndMark, then push the popped
     * node's children (blocked with it when it is blocked).
     */
    method VisitNext(td: TraversalData, ghost popped: set<nat>, viewError: nat -> real,
                     ghost oldCandidates: seq<CandidateNode>)
      returns (r: TraversalData, counted: int, id: nat, isBlocked: bool)
      requires PassInvariant(td, popped, viewError, oldCandidates) && |td.queue| > 0
      modifies this`calculatedErrors, this`currentlyBlockedNodes, proxy`candidates
      ensures id in Ids(td.queue) && id < |nodes|
      ensures forall x :: x in td.queue ==> StaticError(nodes[x.id]) <= StaticError(nodes[id])
      ensures isBlocked == (id in td.blocked || !CanNodeBeExpanded(id, viewError(id)))
      ensures r.selected == if isBlocked then td.selected else td.selected + {id}
      ensures currentlyBlockedNodes == old(currentlyBlockedNodes) + (if isBlocked then 1 else 0)
      ensures var requested := !IsNodeLoaded(id) && old(currentlyBlockedNodes) < maxBlockedNodes;
        proxy.candidates == old(proxy.candidates) + (if requested then [CandidateNode(id, viewError(id))] else []) &&
        counted == if requested then 1 else 0
      ensures r.visited == td.visited + ChildrenOf(id)
      ensures Ids(r.queue) == (Ids(td.queue) - {id}) + (ChildrenOf(id) - td.visited)
      ensures r.blocked == td.blocked + (if isBlocked then ChildrenOf(id) else {})
      ensures QueueInvariant(r, popped + {id}, viewError, |nodes|, rootsCount)
      ensures ErrorsInvariant(r.visited, calculatedErrors, viewError, |nodes|)
      ensures CandidatesInvariant(proxy.candidates, oldCandidates, popped + {id}, nodeStatuses, viewError)
      ensures forall s :: s in r.selected ==>
        IsNodeLoaded(s) && viewError(s) > targetError && currentDrawBudget <= drawBudget
      ensures currentlyBlockedNodes >= 0
      ensures Unvisited(|nodes|, r.visited) < Unvisited(|nodes|, td.visited) ||
        (r.visited == td.visited && |r.queue| < |td.queue|)
    {
      var e, at, mid;
      e, at, mid, isBlocked, counted := PopAndMark(td, popped, viewError, oldCandidates);
      id := e.id;
      assert id in Ids(td.queue) by {
        assert td.queue[at] in td.queue;
      }
      ghost var errors := calculatedErrors;
      r := AddNodeChildren(e, mid, isBlocked, viewError);
      ghost var children := ChildIds(nodePatches[e.id], SinkCut(nodePatches[e.id], |nodes| - 1, 0));
      assert children == ChildrenOf(id);
      QueueIdsAfterVisit(td, at, mid, r, children - mid.visited, viewError);
      QueueAfterVisit(td, popped, viewError, |nodes|, rootsCount, at, mid, r, children - mid.visited);
      MeasureAfterVisit(td, at, mid, r, children - mid.visited, viewError, |nodes|);
      ErrorsAfterVisit(td.visited, errors, calculatedErrors, children - mid.visited, viewError, |nodes|);
    }

    /** What holds between two pops of DoTraversal, with what the pass did with the popped nodes. */
    ghost predicate RoundInvariant(td: TraversalData, popped: set<nat>, viewError: nat -> real,
                                   oldCandidates: seq<CandidateNode>)
      reads this, proxy
    {
      PassInvariant(td, popped, viewError, oldCandidates) &&
      Traced(td, popped, currentlyBlockedNodes) &&
      (forall p :: p in popped && !LoadedIn(nodeStatuses, p) ==> p in NewIds(proxy.candidates, oldCandidates)) &&
      (forall p :: (p in popped && p !in td.blocked && viewError(p) > targetError && currentDrawBudget <= drawBudget &&
                    LoadedIn(nodeStatuses, p)) ==> p in td.selected)
    }

    /**
     * One round of DoTraversal's loop, entered while fewer than
     * MaxBlockedNodes pops were blocked: the popped node, when not loaded,
     * is always requested.
     */
    method Round(td: TraversalData, ghost popped: set<nat>, viewError: nat -> real,
                 ghost oldCandidates: seq<CandidateNode>) returns (r: TraversalData, id: nat)
      requires RoundInvariant(td, popped, viewError, oldCandidates)
      requires |td.queue| > 0 && currentlyBlockedNodes < maxBlockedNodes
      modifies this`calculatedErrors, this`currentlyBlockedNodes, proxy`candidates
      ensures RoundInvariant(r, popped + {id}, viewError, oldCandidates)
      ensures Unvisited(|nodes|, r.visited) < Unvisited(|nodes|, td.visited) ||
        (r.visited == td.visited && |r.queue| < |td.queue|)
    {
      ghost var count0, cands0 := currentlyBlockedNodes, proxy.candidates;
      var counted, isBlocked;
      r, counted, id, isBlocked := VisitNext(td, popped, viewError, oldCandidates);
      assert unchanged(this`nodeStatuses, this`currentDrawBudget);
      RoundClose(td, popped, r, id, isBlocked, count0, cands0, viewError, oldCandidates);
    }

    /** The invariant of DoTraversal's loop, re-established from what VisitNext promises about one pop. */
    lemma RoundClose(td: TraversalData, popped: set<nat>, r: TraversalData, id: nat, isBlocked: bool,
                     count0: int, cands0: seq<CandidateNode>, viewError: nat -> real, oldCandidates: seq<CandidateNode>)
      requires |nodes| >= 1 && |nodePatches| == |nodes| && rootsCount <= |nodes| && proxy != null
      requires forall j, i :: 0 <= j < |nodePatches| && 0 <= i < |nodePatches[j]| ==> nodePatches[j][i].node < |nodes|
      requires QueueInvariant(td, popped, viewError, |nodes|, rootsCount) && Traced(td, popped, count0)
      requires forall p :: p in popped && !LoadedIn(nodeStatuses, p) ==> p in NewIds(cands0, oldCandidates)
      requires forall p :: (p in popped && p !in td.blocked && viewError(p) > targetError && currentDrawBudget <= drawBudget &&
                            LoadedIn(nodeStatuses, p)) ==> p in td.selected
      requires count0 < maxBlockedNodes && count0 >= 0 && |cands0| >= |oldCandidates|
      requires id in Ids(td.queue)
      requires isBlocked == (id in td.blocked || !CanNodeBeExpanded(id, viewError(id)))
      requires r.selected == if isBlocked then td.selected else td.selected + {id}
      requires currentlyBlockedNodes == count0 + (if isBlocked then 1 else 0)
      requires proxy.candidates == cands0 + (if !IsNodeLoaded(id) then [CandidateNode(id, viewError(id))] else [])
      requires r.visited == td.visited + ChildrenOf(id)
      requires Ids(r.queue) == (Ids(td.queue) - {id}) + (ChildrenOf(id) - td.visited)
      requires r.blocked == td.blocked + (if isBlocked then ChildrenOf(id) else {})
      requires QueueInvariant(r, popped + {id}, viewError, |nodes|, rootsCount)
      requires ErrorsInvariant(r.visited, calculatedErrors, viewError, |nodes|)
      requires CandidatesInvariant(proxy.candidates, oldCandidates, popped + {id}, nodeStatuses, viewError)
      requires forall s :: s in r.selected ==>
        IsNodeLoaded(s) && viewError(s) > targetError && currentDrawBudget <= drawBudget
      ensures RoundInvariant(r, popped + {id}, viewError, oldCandidates)
    {
      assert id !in popped by {
        var x :| x in td.queue && x.id == id;
      }
      TracedStep(td, popped, count0, r, id, isBlocked);
      if !IsNodeLoaded(id) {
        NewIdsAppend(cands0, oldCandidates, CandidateNode(id, viewError(id)));
      } else {
        assert proxy.candidates == cands0 + [] == cands0;
      }
      assert NewIds(cands0, oldCandidates) <= NewIds(proxy.candidates, oldCandidates);
      ExpandedStep(td, popped, r, id, isBlocked, viewError);
    }

    /** A popped node that was neither blocked nor refused by CanNodeBeExpanded stays selected. */
    lemma ExpandedStep(td: TraversalData, popped: set<nat>, r: TraversalData, id: nat, isBlocked: bool,
                       viewError: nat -> real)
      requires forall p :: (p in popped && p !in td.blocked && viewError(p) > targetError && currentDrawBudget <= drawBudget &&
                            LoadedIn(nodeStatuses, p)) ==> p in td.selected
      requires isBlocked == (id in td.blocked || !CanNodeBeExpanded(id, viewError(id)))
      requires r.selected == (if isBlocked then td.selected else td.selected + {id})
      requires r.blocked == td.blocked + (if isBlocked then ChildrenOf(id) else {})
      ensures forall p :: (p in popped + {id} && p !in r.blocked && viewError(p) > targetError &&
                           currentDrawBudget <= drawBudget && LoadedIn(nodeStatuses, p)) ==> p in r.selected
    {
    }

    /** DoTraversal's loop: pop until the heap is empty or MaxBlockedNodes pops were blocked. */
    method RunPass(td0: TraversalData, viewError: nat -> real) returns (td: TraversalData, ghost popped: set<nat>)
      requires proxy != null && RoundInvariant(td0, {}, viewError, proxy.candidates)
      modifies this`calculatedErrors, this`currentlyBlockedNodes, proxy`candidates
      ensures RoundInvariant(td, popped, viewError, old(proxy.candidates))
      ensures |td.queue| == 0 || currentlyBlockedNodes >= maxBlockedNodes
    {
      td, popped := td0, {};
      ghost var oldCandidates := proxy.candidates;
      while |td.queue| > 0 && currentlyBlockedNodes < maxBlockedNodes
        invariant RoundInvariant(td, popped, viewError, oldCandidates)
        decreases Unvisited(|nodes|, td.visited), |td.queue|
      {
        var id;
        td, id := Round(td, popped, viewError, oldCandidates);
        popped := popped + {id};
      }
    }

    /** The start of DoTraversal: the stored errors cleared, the roots pushed, nothing blocked. */
    method PushRoots(viewError: nat -> real) returns (td: TraversalData)
      requires Shaped() && proxy != null
      modifies this`calculatedErrors, this`currentlyBlockedNodes
      ensures RoundInvariant(td, {}, viewError, proxy.candidates)
      ensures forall j: nat :: j in td.visited <==> j < rootsCount
    {
      td := TraversalData([], {}, {}, {}, seq(|nodes|, _ => 0.0));
      ClearErrors();
      for i := 0 to rootsCount
        invariant |calculatedErrors| == |nodes| && |td.instanceErrors| == |nodes|
        invariant forall j: nat :: j in td.visited <==> j < i
        invariant td.blocked == {} && td.selected == {}
        invariant |td.queue| == i && forall j :: 0 <= j < i ==> td.queue[j] == TraversalElement(j, viewError(j))
        invariant forall k :: 0 <= k < |nodes| ==>
          td.instanceErrors[k] == (if k < i then viewError(k) else 0.0) &&
          calculatedErrors[k] == (if k < i then Max(viewError(k), 0.0) else 0.0)
      {
        td := AddNodeToTraversal(td, i, viewError);
      }
      currentlyBlockedNodes := 0;
      assert Traced(td, {}, currentlyBlockedNodes) by {
        forall v | v in td.visited
          ensures v in Ids(td.queue)
        {
          assert td.queue[v] in td.queue;
        }
      }
      assert QueueInvariant(td, {}, viewError, |nodes|, rootsCount);
      assert ErrorsInvariant(td.visited, calculatedErrors, viewError, |nodes|);
      assert CandidatesInvariant(proxy.candidates, proxy.candidates, {}, nodeStatuses, viewError);
    }

    /**
     * DoTraversal: clear the stored errors, push the roots, then pop nodes by
     * static error until the heap is empty or MaxBlockedNodes pops were
     * blocked.  A popped node that is not loaded becomes a candidate; it is
     * selected when it is not blocked and can be expanded, and its children
     * are pushed (and blocked with it).  Last, the loaded nodes the pass did
     * not reach get their errors.
     */
    method DoTraversal(viewError: nat -> real) returns (td: TraversalData, ghost popped: set<nat>)
      requires Shaped() && proxy != null
      requires forall k :: k in proxy.loadedMeshData ==> k < |nodes|
      modifies this`calculatedErrors, this`currentlyBlockedNodes, proxy`candidates
      ensures |calculatedErrors| == |nodes| && |td.instanceErrors| == |nodes|
      ensures |td.queue| == 0 || currentlyBlockedNodes >= maxBlockedNodes
      ensures forall i :: 0 <= i < rootsCount ==> i in td.visited
      ensures forall v :: v in td.visited ==> v < |nodes|
      ensures td.selected <= td.visited
      ensures forall s :: s in td.selected ==>
        IsNodeLoaded(s) && viewError(s) > targetError && currentDrawBudget <= drawBudget
      ensures |proxy.candidates| >= |old(proxy.candidates)| &&
        proxy.candidates[..|old(proxy.candidates)|] == old(proxy.candidates)
      ensures forall k :: |old(proxy.candidates)| <= k < |proxy.candidates| ==>
        var c := proxy.candidates[k];
        c.id in popped && !IsNodeLoaded(c.id) && c.firstNodeError == viewError(c.id)
      ensures forall p :: p in popped && !IsNodeLoaded(p) ==> p in NewIds(proxy.candidates, old(proxy.candidates))
      ensures td.selected <= popped <= td.visited
      ensures forall v :: v in td.visited ==> v in popped || v in Ids(td.queue)
      ensures forall p :: p in popped ==> ChildrenOf(p) <= td.visited
      ensures forall p :: p in popped && p !in td.selected ==> ChildrenOf(p) <= td.blocked
      ensures forall p :: p in popped && p !in td.blocked && CanNodeBeExpanded(p, viewError(p)) ==> p in td.selected
      ensures currentlyBlockedNodes == |popped - td.selected|
      ensures forall a, b :: |old(proxy.candidates)| <= a < b < |proxy.candidates| ==>
        proxy.candidates[a].id != proxy.candidates[b].id
      ensures forall k :: 0 <= k < |nodes| ==>
        var reached := k in td.visited || k in proxy.loadedMeshData;
        td.instanceErrors[k] == (if reached then viewError(k) else 0.0) &&
        calculatedErrors[k] == (if reached then Max(viewError(k), 0.0) else 0.0)
    {
      td := PushRoots(viewError);
      assert unchanged(proxy`candidates);
      var currentProxyError := currentError;
      td, popped := RunPass(td, viewError);
      label pass:
      var instanceErrors := UpdateRemainingErrors(td.instanceErrors, viewError);
      assert unchanged@pass(this`nodeStatuses, this`currentDrawBudget, this`currentlyBlockedNodes, proxy`candidates);
      td := td.(instanceErrors := instanceErrors);
    }
  }

  /** The list with the first candidate for id taken out, the others in order. */
  function RemoveFirst(cands: seq<CandidateNode>, id: nat): (r: seq<CandidateNode>)
    ensures multiset(r) <= multiset(cands)
  {
    if cands == [] then []
    else
      assert cands == [cands[0]] + cands[1..];
      if cands[0].id == id then cands[1..]
      else [cands[0]] + RemoveFirst(cands[1..], id)
  }

  /** With no candidate for id, RemoveFirst changes nothing. */
  lemma {:induction false} RemoveFirstAbsent(cands: seq<CandidateNode>, id: nat)
    requires forall c :: c in cands ==> c.id != id
    ensures RemoveFirst(cands, id) == cands
  {
    if cands != [] {
      assert forall c :: c in cands[1..] ==> c in cands;
      RemoveFirstAbsent(cands[1..], id);
      assert cands == [cands[0]] + cands[1..];
    }
  }

  /** RemoveFirst takes out exactly the element at the first index naming id. */
  lemma {:induction false} RemoveFirstAt(cands: seq<CandidateNode>, id: nat, i: nat)
    requires i < |cands| && cands[i].id == id && forall k :: 0 <= k < i ==> cands[k].id != id
    ensures RemoveFirst(cands, id) == cands[..i] + cands[i + 1..]
  {
    if i > 0 {
      RemoveFirstAt(cands[1..], id, i - 1);
      assert cands[1..][..i - 1] == cands[1..i];
      assert cands[1..][i..] == cands[i + 1..];
      assert cands[..i] == [cands[0]] + cands[1..i];
    }
  }

  /** Taking out a set and then one more key is taking out both. */
  lemma MapMinusStep<K, V>(m: map<K, V>, s: set<K>, x: K)
    ensures (m - s) - {x} == m - (s + {x})
  {
  }

  /** DrawBudget cast to uint64. */
  function Budget64(budget: int): (r: nat)
    requires -0x8000_0000 <= budget < 0x8000_0000
    ensures budget >= 0 ==> r == budget
    ensures budget < 0 ==> r >= 0x8000_0000_0000_0000
  {
    if budget >= 0 then budget else budget + 0x1_0000_0000_0000_0000
  }

  /**
   * The loop of FindBestNode as written: a candidate that is not loaded
   * replaces the running best when there is none yet or when the
   * candidate's requested error exceeds the running best node's STATIC
   * error.
   */
  function BestAsWritten(cands: seq<CandidateNode>, statuses: map<nat, NodeStatus>, nodes: seq<Node>,
                         best: Option<CandidateNode>): (r: Option<CandidateNode>)
    requires forall c :: c in cands ==> c.id < |nodes|
    requires best.Some? ==> best.value.id < |nodes|
    ensures r.None? <==> best.None? && forall c :: c in cands ==> LoadedIn(statuses, c.id)
    ensures r.Some? ==> r == best || (r.value in cands && !LoadedIn(statuses, r.value.id))
    decreases |cands|
  {
    if cands == [] then best
    else
      var c := cands[0];
      var next :=
        if !LoadedIn(statuses, c.id) && (best.None? || c.firstNodeError > StaticError(nodes[best.value.id]))
        then Some(c) else best;
      assert forall x :: x in cands[1..] ==> x in cands;
      BestAsWritten(cands[1..], statuses, nodes, next)
  }

  /** A node record whose static error field is zero. */
  function ZeroErrorNode(): (n: Node)
    ensures StaticError(n) == 0.0
  {
    var zero := F32(0);
    Node(0, 0, 0, zero, [], Sphere(zero, zero, zero, zero), zero, 0)
  }

  /**
   * As written, FindBestNode can return a candidate whose error is not the
   * largest: with two unloaded candidates, node 0 requested at error 10 and
   * node 1 at error 5, both with static error 0, node 1 wins because 5 > 0.
   */
  lemma BestAsWrittenMissesLargestError()
    ensures BestAsWritten([CandidateNode(0, 10.0), CandidateNode(1, 5.0)], map[],
                          [ZeroErrorNode(), ZeroErrorNode()], None) == Some(CandidateNode(1, 5.0))
  {
    var nodes := [ZeroErrorNode(), ZeroErrorNode()];
    var cands := [CandidateNode(0, 10.0), CandidateNode(1, 5.0)];
    assert cands[1..] == [CandidateNode(1, 5.0)];
    assert cands[1..][1..] == [];
    assert StaticError(nodes[0]) == 0.0;
  }

  class NexusProxy {
    const component: NexusComponent
    const maxPending: int
    /** CandidateNodes. */
    var candidates: seq<CandidateNode>
    /** LoadedMeshData: the nodes on the GPU, with their triangle counts. */
    var loadedMeshData: map<nat, nat>
    var pendingCount: int
    /** The selected set of the last traversal (LastTraversalData.SelectedNodes). */
    var lastSelected: set<nat>

    constructor (component: NexusComponent, maxPending: int)
      ensures this.component == component && this.maxPending == maxPending
      ensures candidates == [] && loadedMeshData == map[] && pendingCount == 0 && lastSelected == {}
    {
      this.component := component;
      this.maxPending := maxPending;
      candidates := [];
      loadedMeshData := map[];
      pendingCount := 0;
      lastSelected := {};
    }

    /** The cache size the component keeps is the total size of the nodes on the GPU. */
    ghost predicate CacheValid()
      reads this, component
    {
      (forall k :: k in loadedMeshData ==> k + 1 < |component.nodes|) &&
      component.currentCacheSize == SizeSum(component.nodes, component.beginOffset, loadedMeshData.Keys)
    }

    /** GetLoadedNodes: the keys of LoadedMeshData, each once, in some order. */
    method GetLoadedNodes() returns (ids: seq<nat>)
      ensures forall a, b :: 0 <= a < b < |ids| ==> ids[a] != ids[b]
      ensures forall k :: k in ids <==> k in loadedMeshData
    {
      ids := [];
      var rest := loadedMeshData.Keys;
      while rest != {}
        invariant rest !! (set k | k in ids) && rest + (set k | k in ids) == loadedMeshData.Keys
        invariant forall a, b :: 0 <= a < b < |ids| ==> ids[a] != ids[b]
        decreases |rest|
      {
        var k :| k in rest;
        ids := ids + [k];
        rest := rest - {k};
      }
    }

    /** AddCandidate: one entry appended. */
    method AddCandidate(id: nat, firstNodeError: real)
      modifies this`candidates
      ensures candidates == old(candidates) + [CandidateNode(id, firstNodeError)]
    {
      candidates := candidates + [CandidateNode(id, firstNodeError)];
    }

    /** RemoveCandidateWithId: the first candidate for the id goes, if any. */
    method RemoveCandidateWithId(id: nat)
      modifies this`candidates
      ensures candidates == RemoveFirst(old(candidates), id)
    {
      var nodeIndex := -1;
      var i := 0;
      while i < |candidates|
        invariant 0 <= i <= |candidates| && nodeIndex == -1
        invariant forall k :: 0 <= k < i ==> candidates[k].id != id
      {
        if candidates[i].id == id {
          nodeIndex := i;
          break;
        }
        i := i + 1;
      }
      if nodeIndex != -1 {
        RemoveFirstAt(candidates, id, nodeIndex);
        candidates := candidates[..nodeIndex] + candidates[nodeIndex + 1..];
      } else {
        RemoveFirstAbsent(candidates, id);
      }
    }

    /**
     * FindBestNode, with the comparison made against the running best
     * candidate's requested error: a candidate that is not loaded and whose
     * requested error is the largest among those, the first such in the list.
     */
    method FindBestNode() returns (best: Option<CandidateNode>)
      ensures best.None? <==> forall c :: c in candidates ==> component.IsNodeLoaded(c.id)
      ensures best.Some? ==> best.value in candidates && !component.IsNodeLoaded(best.value.id)
      ensures best.Some? ==> forall c :: c in candidates && !component.IsNodeLoaded(c.id) ==>
        c.firstNodeError <= best.value.firstNodeError
    {
      best := None;
      for i := 0 to |candidates|
        invariant best.None? <==> forall k :: 0 <= k < i ==> component.IsNodeLoaded(candidates[k].id)
        invariant best.Some? ==> best.value in candidates[..i] && !component.IsNodeLoaded(best.value.id)
        invariant best.Some? ==> forall k :: 0 <= k < i && !component.IsNodeLoaded(candidates[k].id) ==>
          candidates[k].firstNodeError <= best.value.firstNodeError
      {
        var c := candidates[i];
        if !component.IsNodeLoaded(c.id) && (best.None? || c.firstNodeError > best.value.firstNodeError) {
          best := Some(c);
        }
      }
    }

    /** FindBestNode as the source writes it; see BestAsWritten. */
    method FindBestNodeAsWritten() returns (best: Option<CandidateNode>)
      requires forall c :: c in candidates ==> c.id < |component.nodes|
      ensures best == BestAsWritten(candidates, component.nodeStatuses, component.nodes, None)
      ensures best.None? <==> forall c :: c in candidates ==> component.IsNodeLoaded(c.id)
    {
      best := None;
      for i := 0 to |candidates|
        invariant best.Some? ==> best.value.id < |component.nodes|
        invariant BestAsWritten(candidates[i..], component.nodeStatuses, component.nodes, best) ==
          BestAsWritten(candidates, component.nodeStatuses, component.nodes, None)
      {
        var c := candidates[i];
        assert candidates[i..][1..] == candidates[i + 1..];
        if !component.IsNodeLoaded(c.id) && (best.None? || c.firstNodeError > StaticError(component.nodes[best.value.id])) {
          best := Some(c);
        }
      }
    }

    /**
     * LoadGPUData: a node not yet on the GPU adds its size to the cache and
     * its triangle count to LoadedMeshData; PendingCount goes up and back
     * down inside the same render command.
     */
    method LoadGPUData(n: nat)
      requires CacheValid() && n + 1 < |component.nodes|
      modifies this`loadedMeshData, this`pendingCount, component`currentCacheSize
      ensures CacheValid() && pendingCount == old(pendingCount)
      ensures n in old(loadedMeshData) ==>
        loadedMeshData == old(loadedMeshData) && component.currentCacheSize == old(component.currentCacheSize)
      ensures n !in old(loadedMeshData) ==>
        loadedMeshData == old(loadedMeshData)[n := component.nodes[n].nface] &&
        component.currentCacheSize == old(component.currentCacheSize) + component.GetNodeSize(n)
    {
      if n in loadedMeshData {
        return;
      }
      component.currentCacheSize := component.currentCacheSize + component.GetNodeSize(n);
      pendingCount := pendingCount + 1;
      loadedMeshData := loadedMeshData[n := component.nodes[n].nface];
      pendingCount := pendingCount - 1;
      SizeSumRemove(component.nodes, component.beginOffset, loadedMeshData.Keys, n);
      assert loadedMeshData.Keys - {n} == old(loadedMeshData).Keys;
    }

    /**
     * DropGPUData: a node on the GPU gives its size back, leaves the last
     * selection and leaves LoadedMeshData.
     */
    method DropGPUData(n: nat)
      requires CacheValid()
      modifies this`loadedMeshData, this`lastSelected, component`currentCacheSize
      ensures CacheValid()
      ensures n !in old(loadedMeshData) ==>
        loadedMeshData == old(loadedMeshData) && lastSelected == old(lastSelected) &&
        component.currentCacheSize == old(component.currentCacheSize)
      ensures n in old(loadedMeshData) ==>
        loadedMeshData == old(loadedMeshData) - {n} && lastSelected == old(lastSelected) - {n} &&
        component.currentCacheSize == old(component.currentCacheSize) - component.GetNodeSize(n)
    {
      if n !in loadedMeshData {
        return;
      }
      SizeSumRemove(component.nodes, component.beginOffset, loadedMeshData.Keys, n);
      component.currentCacheSize := component.currentCacheSize - component.GetNodeSize(n);
      lastSelected := lastSelected - {n};
      loadedMeshData := loadedMeshData - {n};
      assert loadedMeshData.Keys == old(loadedMeshData).Keys - {n};
    }

    /** UnloadNode: the component drops the node's status, then the GPU data goes. */
    method UnloadNode(n: nat)
      requires CacheValid()
      modifies this`loadedMeshData, this`lastSelected, component`currentCacheSize, component`nodeStatuses
      ensures CacheValid() && component.nodeStatuses == old(component.nodeStatuses) - {n}
      ensures n in old(loadedMeshData) ==>
        loadedMeshData == old(loadedMeshData) - {n} && lastSelected == old(lastSelected) - {n} &&
        component.currentCacheSize == old(component.currentCacheSize) - component.GetNodeSize(n)
      ensures n !in old(loadedMeshData) ==>
        loadedMeshData == old(loadedMeshData) && lastSelected == old(lastSelected) &&
        component.currentCacheSize == old(component.currentCacheSize)
    {
      component.UnloadNode(n);
      DropGPUData(n);
    }

    /** The loaded node with the smallest stored error, the first such in GetLoadedNodes' order. */
    method WorstLoaded() returns (worst: Option<nat>)
      requires forall k :: k in loadedMeshData ==> k < |component.calculatedErrors|
      ensures worst.None? <==> loadedMeshData == map[]
      ensures worst.Some? ==> worst.value in loadedMeshData
      ensures worst.Some? ==>
        forall k :: k in loadedMeshData ==> component.calculatedErrors[worst.value] <= component.calculatedErrors[k]
    {
      var ids := GetLoadedNodes();
      assert forall k :: 0 <= k < |ids| ==> ids[k] in loadedMeshData;
      worst := None;
      for i := 0 to |ids|
        invariant worst.None? <==> i == 0
        invariant worst.Some? ==> worst.value in loadedMeshData
        invariant worst.Some? ==>
          forall k :: 0 <= k < i ==> component.calculatedErrors[worst.value] <= component.calculatedErrors[ids[k]]
      {
        var id := ids[i];
        if worst.None? || component.calculatedErrors[id] < component.calculatedErrors[worst.value] {
          worst := Some(id);
        }
      }
      if ids == [] {
        assert forall k :: k !in loadedMeshData;
      }
    }

    /**
     * What FreeCache keeps while it evicts: the nodes in evicted left the
     * GPU, their statuses and the last selection (m0, s0 and l0 are those at
     * the start), each had an error under threshold and no larger than any
     * node still loaded.
     */
    ghost predicate EvictionState(errors: seq<real>, threshold: real, evicted: set<nat>,
                                  m0: map<nat, nat>, s0: map<nat, NodeStatus>, l0: set<nat>)
      reads this, component
    {
      CacheValid() && evicted <= m0.Keys &&
      loadedMeshData == m0 - evicted && component.nodeStatuses == s0 - evicted && lastSelected == l0 - evicted &&
      (forall k :: k in loadedMeshData ==> k < |errors|) &&
      forall e :: e in evicted ==>
        e < |errors| && errors[e] < threshold && forall k :: k in loadedMeshData ==> errors[e] <= errors[k]
    }

    /**
     * FreeCache only evicts while the cache is over the draw budget: with
     * the cache at c0 on entry, nothing is evicted unless c0 was over it,
     * the cache never grows, and the last node evicted was unloaded while
     * the cache, its size included, was over the budget.
     */
    ghost predicate OverBudgetOnly(evicted: set<nat>, c0: int)
      reads component
    {
      -0x8000_0000 <= component.drawBudget < 0x8000_0000 &&
      (c0 <= Budget64(component.drawBudget) ==> evicted == {}) &&
      component.currentCacheSize <= c0 &&
      (evicted != {} ==>
        exists w :: (w in evicted && w + 1 < |component.nodes| &&
                     component.currentCacheSize + component.GetNodeSize(w) > Budget64(component.drawBudget)))
    }

    /** Unload a node FreeCache chose: its error is under threshold and the smallest of the loaded. */
    method Evict(w: nat, errors: seq<real>, threshold: real, ghost evicted: set<nat>,
                 ghost m0: map<nat, nat>, ghost s0: map<nat, NodeStatus>, ghost l0: set<nat>, ghost c0: int)
      requires EvictionState(errors, threshold, evicted, m0, s0, l0)
      requires OverBudgetOnly(evicted, c0) && component.currentCacheSize > Budget64(component.drawBudget)
      requires w in loadedMeshData && errors[w] < threshold
      requires forall k :: k in loadedMeshData ==> errors[w] <= errors[k]
      modifies this`loadedMeshData, this`lastSelected, component`currentCacheSize, component`nodeStatuses
      ensures EvictionState(errors, threshold, evicted + {w}, m0, s0, l0)
      ensures loadedMeshData.Keys == old(loadedMeshData).Keys - {w}
      ensures w + 1 < |component.nodes| &&
        component.currentCacheSize == old(component.currentCacheSize) - component.GetNodeSize(w)
      ensures OverBudgetOnly(evicted + {w}, c0)
    {
      UnloadNode(w);
      MapMinusStep(m0, evicted, w);
      MapMinusStep(s0, evicted, w);
    }

    /**
     * FreeCache: while the cache is over the draw budget, evict the loaded
     * node with the smallest stored error, unless there is none or its error
     * is at least 0.9 times the best candidate's.  evicted names the nodes
     * it unloaded.
     */
    method FreeCache(bestId: nat) returns (ghost evicted: set<nat>)
      requires CacheValid() && bestId < |component.calculatedErrors|
      requires forall k :: k in loadedMeshData ==> k < |component.calculatedErrors|
      requires -0x8000_0000 <= component.drawBudget < 0x8000_0000
      modifies this`loadedMeshData, this`lastSelected, component`currentCacheSize, component`nodeStatuses
      ensures EvictionState(component.calculatedErrors, component.calculatedErrors[bestId] * 0.9, evicted,
                            old(loadedMeshData), old(component.nodeStatuses), old(lastSelected))
      ensures component.currentCacheSize <= Budget64(component.drawBudget) ||
        forall k :: k in loadedMeshData ==> component.calculatedErrors[k] >= component.calculatedErrors[bestId] * 0.9
      ensures OverBudgetOnly(evicted, old(component.currentCacheSize))
    {
      evicted := EvictBelow(component.calculatedErrors, component.calculatedErrors[bestId] * 0.9);
    }

    /** The eviction loop of FreeCache, with the stored errors and the 0.9 threshold fixed. */
    method EvictBelow(errors: seq<real>, threshold: real) returns (ghost evicted: set<nat>)
      requires CacheValid() && errors == component.calculatedErrors
      requires forall k :: k in loadedMeshData ==> k < |errors|
      requires -0x8000_0000 <= component.drawBudget < 0x8000_0000
      modifies this`loadedMeshData, this`lastSelected, component`currentCacheSize, component`nodeStatuses
      ensures EvictionState(errors, threshold, evicted,
                            old(loadedMeshData), old(component.nodeStatuses), old(lastSelected))
      ensures component.currentCacheSize <= Budget64(component.drawBudget) ||
        forall k :: k in loadedMeshData ==> errors[k] >= threshold
      ensures OverBudgetOnly(evicted, old(component.currentCacheSize))
    {
      evicted := {};
      assert old(loadedMeshData) - {} == old(loadedMeshData) && old(component.nodeStatuses) - {} == old(component.nodeStatuses);
      while component.currentCacheSize > Budget64(component.drawBudget)
        invariant EvictionState(errors, threshold, evicted,
                                old(loadedMeshData), old(component.nodeStatuses), old(lastSelected))
        invariant OverBudgetOnly(evicted, old(component.currentCacheSize))
        decreases |loadedMeshData.Keys|
      {
        var stop;
        stop, evicted := EvictWorst(errors, threshold, evicted,
                                    old(loadedMeshData), old(component.nodeStatuses), old(lastSelected),
                                    old(component.currentCacheSize));
        if stop {
          return;
        }
      }
    }

    /**
     * One round of FreeCache's loop: find the loaded node with the smallest
     * stored error; stop when there is none or it is not under threshold,
     * otherwise evict it.
     */
    method EvictWorst(errors: seq<real>, threshold: real, ghost evicted: set<nat>, ghost m0: map<nat, nat>,
                      ghost s0: map<nat, NodeStatus>, ghost l0: set<nat>, ghost c0: int)
      returns (stop: bool, ghost evicted': set<nat>)
      requires EvictionState(errors, threshold, evicted, m0, s0, l0) && errors == component.calculatedErrors
      requires OverBudgetOnly(evicted, c0) && component.currentCacheSize > Budget64(component.drawBudget)
      modifies this`loadedMeshData, this`lastSelected, component`currentCacheSize, component`nodeStatuses
      ensures EvictionState(errors, threshold, evicted', m0, s0, l0) && OverBudgetOnly(evicted', c0)
      ensures stop ==> evicted' == evicted && forall k :: k in loadedMeshData ==> errors[k] >= threshold
      ensures !stop ==> |loadedMeshData.Keys| < |old(loadedMeshData).Keys|
    {
      var worst := WorstLoaded();
      if worst.None? || errors[worst.value] >= threshold {
        return true, evicted;
      }
      Evict(worst.value, errors, threshold, evicted, m0, s0, l0, c0);
      return false, evicted + {worst.value};
    }

    /**
     * BeginFrame without the frame-rate adaptation: the candidate list is
     * emptied and the current error clamped to [TargetError, MaxError].
     */
    method BeginFrame()
      modifies this`candidates, component`currentError
      ensures candidates == []
      ensures component.currentError ==
        Max(component.targetError, Min(component.maxError, old(component.currentError)))
      ensures component.currentError >= component.targetError
      ensures component.targetError <= component.maxError ==> component.currentError <= component.maxError
    {
      candidates := [];
      component.currentError := Max(component.targetError, Min(component.maxError, component.currentError));
    }

    /**
     * The finished-jobs loop of Update: each node the loader finished is
     * marked Loaded and put on the GPU, in order.
     */
    method DrainFinished(finished: seq<nat>)
      requires CacheValid() && forall j :: j in finished ==> j + 1 < |component.nodes|
      modifies this`loadedMeshData, this`pendingCount, component`currentCacheSize, component`nodeStatuses
      ensures CacheValid() && pendingCount == old(pendingCount)
      ensures forall j :: j in finished ==> component.IsNodeLoaded(j) && j in loadedMeshData
      ensures forall n :: n !in finished ==> component.IsNodeLoaded(n) == old(component.IsNodeLoaded(n))
      ensures forall n :: n !in finished && n in old(component.nodeStatuses) ==>
        n in component.nodeStatuses && component.nodeStatuses[n] == old(component.nodeStatuses)[n]
      ensures old(loadedMeshData).Keys <= loadedMeshData.Keys
      ensures forall n :: n in loadedMeshData && n !in finished ==> n in old(loadedMeshData)
    {
      for i := 0 to |finished|
        invariant CacheValid() && pendingCount == old(pendingCount)
        invariant forall j :: j in finished[..i] ==> component.IsNodeLoaded(j) && j in loadedMeshData
        invariant forall n :: n !in finished[..i] ==> component.IsNodeLoaded(n) == old(component.IsNodeLoaded(n))
        invariant forall n :: n !in finished[..i] && n in old(component.nodeStatuses) ==>
          n in component.nodeStatuses && component.nodeStatuses[n] == old(component.nodeStatuses)[n]
        invariant old(loadedMeshData).Keys <= loadedMeshData.Keys
        invariant forall n :: n in loadedMeshData && n !in finished[..i] ==> n in old(loadedMeshData)
      {
        var done := finished[i];
        assert done in finished && finished[..i + 1] == finished[..i] + [done];
        component.SetNodeStatus(done, Loaded);
        LoadGPUData(done);
      }
      assert finished[..|finished|] == finished;
    }

    /**
     * The request half of Update: pick the best candidate, free cache room
     * for it, take it off the list and mark it Pending.
     */
    method RequestBest() returns (requested: Option<CandidateNode>, ghost evicted: set<nat>)
      requires CacheValid() && |component.calculatedErrors| == |component.nodes|
      requires forall c :: c in candidates ==> c.id < |component.nodes|
      requires forall k :: k in loadedMeshData ==> k < |component.nodes|
      requires -0x8000_0000 <= component.drawBudget < 0x8000_0000
      modifies this`lastSelected, this`candidates, this`loadedMeshData, component`currentCacheSize, component`nodeStatuses
      ensures CacheValid() && lastSelected <= old(lastSelected)
      ensures requested.None? <==> forall c :: c in old(candidates) ==> old(component.IsNodeLoaded(c.id))
      ensures requested.None? ==>
        lastSelected == old(lastSelected) && candidates == old(candidates) && loadedMeshData == old(loadedMeshData) &&
        component.nodeStatuses == old(component.nodeStatuses)
      ensures requested.Some? ==>
        var best := requested.value;
        best in old(candidates) && !old(component.IsNodeLoaded(best.id)) &&
        (forall c :: c in old(candidates) && !old(component.IsNodeLoaded(c.id)) ==> c.firstNodeError <= best.firstNodeError) &&
        candidates == RemoveFirst(old(candidates), best.id) &&
        best.id in component.nodeStatuses && component.nodeStatuses[best.id] == Pending
      ensures requested.None? ==> evicted == {}
      ensures requested.Some? ==>
        var best, errors := requested.value, component.calculatedErrors;
        evicted <= old(loadedMeshData).Keys &&
        loadedMeshData == old(loadedMeshData) - evicted && lastSelected == old(lastSelected) - evicted &&
        component.nodeStatuses == (old(component.nodeStatuses) - evicted)[best.id := Pending] &&
        (forall e :: e in evicted ==>
          errors[e] < errors[best.id] * 0.9 && forall k :: k in loadedMeshData ==> errors[e] <= errors[k]) &&
        OverBudgetOnly(evicted, old(component.currentCacheSize)) &&
        (component.currentCacheSize <= Budget64(component.drawBudget) ||
         forall k :: k in loadedMeshData ==> errors[k] >= errors[best.id] * 0.9)
    {
      evicted := {};
      requested := FindBestNode();
      if requested.None? {
        return;
      }
      var bestId := requested.value.id;
      evicted := FreeCache(bestId);
      RemoveCandidateWithId(bestId);
      component.SetNodeStatus(bestId, Pending);
    }

    /**
     * Update: keep the last selection; unless PendingCount has reached
     * MaxPending, request the best candidate (RequestBest) and, when there
     * was one, drain the finished jobs.  The asynchronous load itself is the
     * caller's: finished lists the nodes the loader completed.
     */
    method Update(selected: set<nat>, finished: seq<nat>) returns (requested: Option<CandidateNode>, ghost evicted: set<nat>)
      requires CacheValid() && |component.calculatedErrors| == |component.nodes|
      requires forall c :: c in candidates ==> c.id < |component.nodes|
      requires forall k :: k in loadedMeshData ==> k < |component.nodes|
      requires forall j :: j in finished ==> j + 1 < |component.nodes|
      requires -0x8000_0000 <= component.drawBudget < 0x8000_0000
      modifies this`lastSelected, this`candidates, this`loadedMeshData, this`pendingCount
      modifies component`currentCacheSize, component`nodeStatuses
      ensures CacheValid() && pendingCount == old(pendingCount) && lastSelected <= selected
      ensures old(pendingCount) >= maxPending ==> requested.None?
      ensures requested.None? ==>
        lastSelected == selected && candidates == old(candidates) && loadedMeshData == old(loadedMeshData) &&
        component.nodeStatuses == old(component.nodeStatuses)
      ensures old(pendingCount) < maxPending && (exists c :: c in old(candidates) && !old(component.IsNodeLoaded(c.id))) ==>
        requested.Some?
      ensures requested.Some? ==>
        var best := requested.value;
        best in old(candidates) && !old(component.IsNodeLoaded(best.id)) &&
        (forall c :: c in old(candidates) && !old(component.IsNodeLoaded(c.id)) ==> c.firstNodeError <= best.firstNodeError) &&
        candidates == RemoveFirst(old(candidates), best.id) &&
        (best.id !in finished ==> best.id in component.nodeStatuses && component.nodeStatuses[best.id] == Pending) &&
        forall j :: j in finished ==> component.IsNodeLoaded(j) && j in loadedMeshData
      ensures requested.None? ==> evicted == {}
      ensures requested.Some? ==>
        var best, errors := requested.value, component.calculatedErrors;
        evicted <= old(loadedMeshData).Keys && lastSelected == selected - evicted &&
        (old(component.currentCacheSize) <= Budget64(component.drawBudget) ==> evicted == {}) &&
        forall e :: e in evicted ==>
          errors[e] < errors[best.id] * 0.9 &&
          (e !in finished ==> e !in loadedMeshData && !component.IsNodeLoaded(e))
    {
      lastSelected := selected;
      evicted := {};
      if pendingCount >= maxPending {
        return None, {};
      }
      requested, evicted := RequestBest();
      if requested.None? {
        return;
      }
      DrainFinished(finished);
    }
  }
}
