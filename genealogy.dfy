/**
 * The genealogy resolver of the knowledge API: for a target record it returns the
 * ancestor chain (oldest first), the target, and every descendant in breadth-first
 * order, over one snapshot of all records (src/app/api/knowledge/genealogy/route.ts).
 */
module Genealogy {
  import opened KnowledgeTypes

  /** `allKnowledge.find(k => k.id === id)`: the first record carrying `id`. */
  function Find(all: seq<Knowledge>, id: string): (r: Option<Knowledge>)
    ensures r.None? <==> forall k :: k in all ==> k.id != id
    ensures r.Some? ==> r.value in all && r.value.id == id
  {
    if all == [] then None
    else if all[0].id == id then Some(all[0])
    else Find(all[1..], id)
  }

  /** `Find` returns the first record that carries the id. */
  lemma {:induction false} FindIsFirst(all: seq<Knowledge>, id: string, i: nat)
    requires i < |all| && all[i].id == id
    requires forall j :: 0 <= j < i ==> all[j].id != id
    ensures Find(all, id) == Some(all[i])
  {
    if i > 0 {
      FindIsFirst(all[1..], id, i - 1);
    }
  }

  /** `allKnowledge.filter(k => k.parentId === id)`: the direct children of `id`, in snapshot order. */
  function ChildrenOf(all: seq<Knowledge>, id: string): (r: seq<Knowledge>)
    ensures forall k :: k in r <==> k in all && k.parentId == Some(id)
  {
    if all == [] then []
    else (if all[0].parentId == Some(id) then [all[0]] else []) + ChildrenOf(all[1..], id)
  }

  // ---------------------------------------------------------------------------
  // Ancestor walk
  // ---------------------------------------------------------------------------

  /**
   * The walk that starts at the parent link `cur` stops within `n` lookups: at a
   * null or empty link, or at a link that names no record. The walk has no visited
   * set, so on a parent cycle it never stops and no `n` satisfies this.
   */
  predicate EndsWithin(all: seq<Knowledge>, cur: Option<string>, n: nat)
    decreases n
  {
    !Truthy(cur) || Find(all, cur.value).None? ||
    (n > 0 && EndsWithin(all, Find(all, cur.value).value.parentId, n - 1))
  }

  /** The records the walk from `cur` visits, each prepended: the oldest comes first. */
  function Ancestors(all: seq<Knowledge>, cur: Option<string>, n: nat): seq<Knowledge>
    requires EndsWithin(all, cur, n)
    decreases n
  {
    if !Truthy(cur) || Find(all, cur.value).None? then []
    else
      var parent := Find(all, cur.value).value;
      Ancestors(all, parent.parentId, n - 1) + [parent]
  }

  /** Each record's id is the next record's parent link. */
  predicate IsChain(s: seq<Knowledge>) {
    forall i :: 0 < i < |s| ==> s[i].parentId == Some(s[i - 1].id)
  }

  /** A walk that stops within `n` lookups stops within any larger bound. */
  lemma {:induction false} EndsWithinMono(all: seq<Knowledge>, cur: Option<string>, n: nat, m: nat)
    requires EndsWithin(all, cur, n) && n <= m
    ensures EndsWithin(all, cur, m)
    decreases n
  {
    if Truthy(cur) && Find(all, cur.value).Some? {
      EndsWithinMono(all, Find(all, cur.value).value.parentId, n - 1, m - 1);
    }
  }

  /** The ancestor list does not depend on the bound used to show that the walk stops. */
  lemma {:induction false} AncestorsFuel(all: seq<Knowledge>, cur: Option<string>, n: nat, m: nat)
    requires EndsWithin(all, cur, n) && EndsWithin(all, cur, m)
    ensures Ancestors(all, cur, n) == Ancestors(all, cur, m)
    decreases n
  {
    if Truthy(cur) && Find(all, cur.value).Some? {
      AncestorsFuel(all, Find(all, cur.value).value.parentId, n - 1, m - 1);
    }
  }

  /**
   * What the walk returns: records of the snapshot, each the first record with its
   * id, forming a parent chain whose newest member is the record `cur` names, and
   * whose oldest member's own link is null, empty or dangling.
   */
  lemma {:induction false} AncestorsChain(all: seq<Knowledge>, cur: Option<string>, n: nat)
    requires EndsWithin(all, cur, n)
    ensures var a := Ancestors(all, cur, n);
      && (forall i :: 0 <= i < |a| ==> a[i] in all && Find(all, a[i].id) == Some(a[i]))
      && IsChain(a)
      && (a == [] <==> !Truthy(cur) || Find(all, cur.value).None?)
      && (a != [] ==> cur == Some(a[|a| - 1].id))
      && (a != [] ==> !Truthy(a[0].parentId) || Find(all, a[0].parentId.value).None?)
    decreases n
  {
    if Truthy(cur) && Find(all, cur.value).Some? {
      var parent := Find(all, cur.value).value;
      AncestorsChain(all, parent.parentId, n - 1);
      var rest := Ancestors(all, parent.parentId, n - 1);
      var a := Ancestors(all, cur, n);
      assert a == rest + [parent];
      assert forall i :: 0 <= i < |rest| ==> a[i] == rest[i];
    }
  }

  /**
   * Every ancestor's own walk yields exactly the ancestors older than it: the list
   * is a sequence of nested walks.
   */
  lemma {:induction false} AncestorsPrefix(all: seq<Knowledge>, cur: Option<string>, n: nat, i: nat)
    requires EndsWithin(all, cur, n)
    requires i < |Ancestors(all, cur, n)|
    ensures EndsWithin(all, Ancestors(all, cur, n)[i].parentId, n)
    ensures Ancestors(all, cur, n)[..i] == Ancestors(all, Ancestors(all, cur, n)[i].parentId, n)
    decreases n
  {
    var a := Ancestors(all, cur, n);
    assert Truthy(cur) && Find(all, cur.value).Some?;
    var parent := Find(all, cur.value).value;
    var rest := Ancestors(all, parent.parentId, n - 1);
    assert a == rest + [parent];
    if i == |rest| {
      assert a[i] == parent && a[..i] == rest;
      EndsWithinMono(all, parent.parentId, n - 1, n);
      AncestorsFuel(all, parent.parentId, n - 1, n);
    } else {
      assert a[i] == rest[i] && a[..i] == rest[..i];
      AncestorsPrefix(all, parent.parentId, n - 1, i);
      EndsWithinMono(all, rest[i].parentId, n - 1, n);
      AncestorsFuel(all, rest[i].parentId, n - 1, n);
    }
  }

  /** The walk never meets the same record twice. */
  lemma AncestorsDistinct(all: seq<Knowledge>, cur: Option<string>, n: nat)
    requires EndsWithin(all, cur, n)
    ensures var a := Ancestors(all, cur, n);
      forall i, j :: 0 <= i < j < |a| ==> a[i] != a[j]
  {
    var a := Ancestors(all, cur, n);
    forall i, j | 0 <= i < j < |a| ensures a[i] != a[j] {
      AncestorsPrefix(all, cur, n, i);
      AncestorsPrefix(all, cur, n, j);
      assert |a[..i]| == i && |a[..j]| == j;
    }
  }

  /** When the walk starts at the target's own link, the target is not among its ancestors. */
  lemma TargetNotAncestor(all: seq<Knowledge>, t: Knowledge, n: nat)
    requires Find(all, t.id) == Some(t)
    requires EndsWithin(all, t.parentId, n)
    ensures t !in Ancestors(all, t.parentId, n)
  {
    var a := Ancestors(all, t.parentId, n);
    forall i | 0 <= i < |a| ensures a[i] != t {
      AncestorsPrefix(all, t.parentId, n, i);
      assert |a[..i]| == i;
    }
  }

  /** The `while (currentId)` loop: look up each parent and prepend it, stopping at a dangling link. */
  method WalkAncestors(all: seq<Knowledge>, start: Option<string>, ghost n: nat) returns (ancestors: seq<Knowledge>)
    requires EndsWithin(all, start, n)
    ensures ancestors == Ancestors(all, start, n)
  {
    ancestors := [];
    var currentId := start;
    ghost var m := n;
    while Truthy(currentId)
      invariant EndsWithin(all, currentId, m)
      invariant Ancestors(all, start, n) == Ancestors(all, currentId, m) + ancestors
      decreases m
    {
      var parent := Find(all, currentId.value);
      if parent.Some? {
        ancestors := [parent.value] + ancestors;
        currentId := parent.value.parentId;
        m := m - 1;
      } else {
        break;
      }
    }
  }

  // ---------------------------------------------------------------------------
  // Descendant search
  // ---------------------------------------------------------------------------

  /** `v` is the target id or the id of a descendant already appended. */
  predicate Listed(id: string, desc: seq<Knowledge>, v: string) {
    v == id || exists j :: 0 <= j < |desc| && desc[j].id == v
  }

  /** Every record whose parent link names a listed id is itself listed. */
  predicate ChildClosed(all: seq<Knowledge>, id: string, desc: seq<Knowledge>) {
    forall k :: k in all && k.parentId.Some? && Listed(id, desc, k.parentId.value) ==> Listed(id, desc, k.id)
  }

  /** Each descendant hangs below the target or below a descendant listed before it. */
  predicate ParentsEarlier(id: string, desc: seq<Knowledge>) {
    forall j :: 0 <= j < |desc| ==>
      desc[j].parentId == Some(id) || exists i :: 0 <= i < j && desc[j].parentId == Some(desc[i].id)
  }

  /** `k` hangs below `id`: a chain of at most `n + 1` child links of the snapshot leads from `id` down to `k`. */
  ghost predicate DescendsWithin(all: seq<Knowledge>, k: Knowledge, id: string, n: nat)
    decreases n
  {
    k.parentId == Some(id) ||
    (n > 0 && exists p :: p in all && k.parentId == Some(p.id) && DescendsWithin(all, p, id, n - 1))
  }

  /** A list closed under child links holds every descendant of the target. */
  lemma {:induction false} ClosedHoldsDescendants(all: seq<Knowledge>, id: string, desc: seq<Knowledge>, k: Knowledge, n: nat)
    requires ChildClosed(all, id, desc)
    requires k in all && DescendsWithin(all, k, id, n)
    ensures Listed(id, desc, k.id)
    decreases n
  {
    if k.parentId != Some(id) {
      var p :| p in all && k.parentId == Some(p.id) && DescendsWithin(all, p, id, n - 1);
      ClosedHoldsDescendants(all, id, desc, p, n - 1);
    }
  }

  /** What the descendant search promises about the list it appends after the target. */
  predicate IsDescendantList(all: seq<Knowledge>, id: string, desc: seq<Knowledge>) {
    && (forall j :: 0 <= j < |desc| ==> desc[j] in all && desc[j].id != id)
    && UniqueIds(desc)
    && ParentsEarlier(id, desc)
    && ChildClosed(all, id, desc)
  }

  /** What the search keeps between steps: the appended list so far and the visited set that mirrors it. */
  ghost predicate SearchState(all: seq<Knowledge>, id: string, desc: seq<Knowledge>, visited: set<string>) {
    && (forall j :: 0 <= j < |desc| ==> desc[j] in all && desc[j].id != id)
    && UniqueIds(desc)
    && ParentsEarlier(id, desc)
    && (forall v :: v in visited <==> Listed(id, desc, v))
  }

  /** The ids of the snapshot and the target id: everything the search can ever mark visited. */
  function Universe(all: seq<Knowledge>, id: string): set<string> {
    (set k | k in all :: k.id) + {id}
  }

  lemma ListedAppend(id: string, desc: seq<Knowledge>, child: Knowledge, v: string)
    ensures Listed(id, desc + [child], v) <==> Listed(id, desc, v) || v == child.id
  {
    var desc' := desc + [child];
    if Listed(id, desc', v) && v != id && v != child.id {
      var j :| 0 <= j < |desc'| && desc'[j].id == v;
      assert desc[j] == desc'[j];
    }
    if Listed(id, desc, v) && v != id {
      var j :| 0 <= j < |desc| && desc[j].id == v;
      assert desc'[j] == desc[j];
    }
    if v == child.id {
      assert desc'[|desc|] == child;
    }
  }

  /** Marking and appending an unvisited child of a visited id keeps the search state. */
  lemma VisitChild(all: seq<Knowledge>, id: string, desc: seq<Knowledge>, visited: set<string>, currentId: string, child: Knowledge)
    requires SearchState(all, id, desc, visited)
    requires currentId in visited && child in all && child.parentId == Some(currentId)
    requires child.id !in visited
    ensures SearchState(all, id, desc + [child], visited + {child.id})
  {
    var desc' := desc + [child];
    assert id in visited by {
      assert Listed(id, desc, id);
    }
    forall x | 0 <= x < |desc| ensures desc[x].id in visited {
      assert Listed(id, desc, desc[x].id);
    }
    AppendKeepsIds(desc, child, visited);
    AppendKeepsParentsEarlier(id, desc, child, currentId);
    forall v ensures v in visited + {child.id} <==> Listed(id, desc', v) {
      ListedAppend(id, desc, child, v);
    }
  }

  /** Appending a record whose id is not yet seen keeps the ids distinct. */
  lemma AppendKeepsIds(desc: seq<Knowledge>, child: Knowledge, seen: set<string>)
    requires UniqueIds(desc)
    requires forall x :: 0 <= x < |desc| ==> desc[x].id in seen
    requires child.id !in seen
    ensures UniqueIds(desc + [child])
  {
    var d := desc + [child];
    assert forall x :: 0 <= x < |desc| ==> d[x] == desc[x];
  }

  /** Appending a child of the target or of a listed descendant keeps parents before children. */
  lemma AppendKeepsParentsEarlier(id: string, desc: seq<Knowledge>, child: Knowledge, currentId: string)
    requires ParentsEarlier(id, desc)
    requires child.parentId == Some(currentId) && Listed(id, desc, currentId)
    ensures ParentsEarlier(id, desc + [child])
  {
    var d := desc + [child];
    assert forall x :: 0 <= x < |desc| ==> d[x] == desc[x];
    if currentId != id {
      var i :| 0 <= i < |desc| && desc[i].id == currentId;
      assert d[|desc|].parentId == Some(d[i].id);
    }
  }

  /** Ids already seen stay seen as the visited set grows. */
  lemma SeenGrows(children: seq<Knowledge>, c: nat, before: set<string>, after: set<string>)
    requires c < |children| && before <= after && children[c].id in after
    requires forall x :: 0 <= x < c ==> children[x].id in before
    ensures forall x :: 0 <= x < c + 1 ==> children[x].id in after
  {
  }

  /**
   * The `for (const child of children)` loop of one breadth-first step: every
   * unvisited child of `currentId` is marked visited, appended and enqueued.
   */
  method EnqueueChildren(all: seq<Knowledge>, id: string, desc: seq<Knowledge>, queue: seq<string>, visited: set<string>,
                         currentId: string)
    returns (desc': seq<Knowledge>, queue': seq<string>, visited': set<string>)
    requires SearchState(all, id, desc, visited)
    requires currentId in visited && visited <= Universe(all, id)
    ensures SearchState(all, id, desc', visited')
    ensures visited <= visited' <= Universe(all, id)
    ensures |queue'| - |queue| == |visited'| - |visited|
    ensures forall q :: q in queue' ==> q in queue || q in visited' - visited
    ensures forall q :: q in queue ==> q in queue'
    ensures forall v :: v in visited' - visited ==> v in queue'
    ensures forall k :: k in all && k.parentId == Some(currentId) ==> k.id in visited'
  {
    desc', queue', visited' := desc, queue, visited;
    var children := ChildrenOf(all, currentId);
    for c := 0 to |children|
      invariant SearchState(all, id, desc', visited')
      invariant visited <= visited' <= Universe(all, id)
      invariant |queue'| - |queue| == |visited'| - |visited|
      invariant forall q :: q in queue' ==> q in queue || q in visited' - visited
      invariant forall q :: q in queue ==> q in queue'
      invariant forall v :: v in visited' - visited ==> v in queue'
      invariant forall x :: 0 <= x < c ==> children[x].id in visited'
    {
      var child := children[c];
      ghost var before := visited';
      if child.id !in visited' {
        VisitChild(all, id, desc', visited', currentId, child);
        visited' := visited' + {child.id};
        desc' := desc' + [child];
        queue' := queue' + [child.id];
      }
      SeenGrows(children, c, before, visited');
    }
  }

  /**
   * The breadth-first search: a queue seeded with the target id and a visited set;
   * each dequeued id's unvisited children are marked, appended and enqueued.
   */
  method CollectDescendants(all: seq<Knowledge>, id: string) returns (desc: seq<Knowledge>)
    ensures IsDescendantList(all, id, desc)
  {
    desc := [];
    var queue := [id];
    var visited := {id};
    ghost var processed: set<string> := {};
    while |queue| > 0
      invariant SearchState(all, id, desc, visited)
      invariant visited <= Universe(all, id)
      invariant forall q :: q in queue ==> q in visited
      invariant forall v :: v in visited ==> v in processed || v in queue
      invariant forall v :: v in processed ==> forall k :: k in all && k.parentId == Some(v) ==> k.id in visited
      decreases Universe(all, id) - visited, |queue|
    {
      var currentId := queue[0];
      queue := queue[1..];
      processed := processed + {currentId};
      ghost var visited0 := visited;
      desc, queue, visited := EnqueueChildren(all, id, desc, queue, visited, currentId);
      if visited != visited0 {
        assert Universe(all, id) - visited < Universe(all, id) - visited0;
      }
    }
    forall k | k in all && k.parentId.Some? && Listed(id, desc, k.parentId.value)
      ensures Listed(id, desc, k.id)
    {
      assert k.parentId.value in processed;
    }
  }

  // ---------------------------------------------------------------------------
  // The request handler
  // ---------------------------------------------------------------------------

  /**
   * `searchParams.get("direction") || "both"`: never empty; a non-empty parameter is
   * taken as given, and a missing or empty one means "both".
   */
  function EffectiveDirection(direction: Option<string>): (d: string)
    ensures d != ""
    ensures Truthy(direction) ==> d == direction.value
    ensures !Truthy(direction) ==> d == "both"
  {
    if Truthy(direction) then direction.value else "both"
  }

  predicate WantsAncestors(direction: string) {
    direction == "ancestors" || direction == "both"
  }

  predicate WantsDescendants(direction: string) {
    direction == "descendants" || direction == "both"
  }

  /** The largest `generation` of a non-empty list (`Math.max(...)`). */
  function MaxGeneration(ks: seq<Knowledge>): (m: int)
    requires ks != []
    ensures exists i :: 0 <= i < |ks| && ks[i].generation == m
    ensures forall i :: 0 <= i < |ks| ==> ks[i].generation <= m
  {
    if |ks| == 1 then ks[0].generation
    else
      var rest := MaxGeneration(ks[1..]);
      assert forall i :: 1 <= i < |ks| ==> ks[i] == ks[1..][i - 1];
      if ks[0].generation > rest then ks[0].generation else rest
  }

  datatype Response =
    | MissingId                        // status 400: no `id` parameter
    | NoTarget                         // `{ genealogy: [], target: null }`
    | Lineage(target: Knowledge, genealogy: seq<Knowledge>, totalGenerations: int)

  /** The walk from the target's own link stops, whenever the direction asks for it. */
  predicate AncestorWalkStops(all: seq<Knowledge>, id: Option<string>, direction: Option<string>, fuel: nat) {
    Truthy(id) && Find(all, id.value).Some? && WantsAncestors(EffectiveDirection(direction)) ==>
      EndsWithin(all, Find(all, id.value).value.parentId, fuel)
  }

  /** What the handler returns for a record it found, over the ancestors `anc` it walked. */
  ghost predicate IsLineage(all: seq<Knowledge>, t: Knowledge, direction: string, anc: seq<Knowledge>, g: seq<Knowledge>) {
    && |anc| < |g| && g[..|anc|] == anc && g[|anc|] == t
    && (forall i :: 0 <= i < |g| && i != |anc| ==> g[i] != t)
    && (!WantsAncestors(direction) ==> anc == [])
    && (WantsDescendants(direction) ==> IsDescendantList(all, t.id, g[|anc| + 1..]))
    && (WantsDescendants(direction) ==>
         forall k, n :: k in all && DescendsWithin(all, k, t.id, n) ==> Listed(t.id, g[|anc| + 1..], k.id))
    && (!WantsDescendants(direction) ==> g == anc + [t])
  }

  /** Ancestors without the target, the target, then a descendant list make a lineage. */
  lemma LineageOf(all: seq<Knowledge>, t: Knowledge, direction: string, anc: seq<Knowledge>, desc: seq<Knowledge>)
    requires t !in anc
    requires !WantsAncestors(direction) ==> anc == []
    requires WantsDescendants(direction) ==> IsDescendantList(all, t.id, desc)
    requires !WantsDescendants(direction) ==> desc == []
    ensures IsLineage(all, t, direction, anc, anc + [t] + desc)
  {
    var g := anc + [t] + desc;
    assert g[|anc| + 1..] == desc;
    assert g[..|anc|] == anc;
    if WantsDescendants(direction) {
      forall k, n | k in all && DescendsWithin(all, k, t.id, n)
        ensures Listed(t.id, desc, k.id)
      {
        ClosedHoldsDescendants(all, t.id, desc, k, n);
      }
    }
    forall i | 0 <= i < |g| && i != |anc| ensures g[i] != t {
      if i > |anc| {
        assert g[i] == desc[i - |anc| - 1];
      } else {
        assert g[i] == anc[i];
      }
    }
  }

  /**
   * `GET /api/knowledge/genealogy?id=…&direction=…` over a snapshot `all`. `fuel`
   * bounds the ancestor walk, which only stops on acyclic parent chains.
   */
  method Get(all: seq<Knowledge>, id: Option<string>, direction: Option<string>, ghost fuel: nat) returns (r: Response)
    requires AncestorWalkStops(all, id, direction, fuel)
    ensures r.MissingId? <==> !Truthy(id)
    ensures r.NoTarget? <==> Truthy(id) && Find(all, id.value).None?
    ensures r.Lineage? ==> Truthy(id) && Find(all, id.value) == Some(r.target)
    ensures r.Lineage? ==> var d := EffectiveDirection(direction);
      && IsLineage(all, r.target, d, if WantsAncestors(d) then Ancestors(all, r.target.parentId, fuel) else [], r.genealogy)
      && r.totalGenerations == MaxGeneration(r.genealogy) + 1
  {
    if !Truthy(id) {
      return MissingId;
    }
    var target := Find(all, id.value);
    if target.None? {
      return NoTarget;
    }
    var t := target.value;
    var d := EffectiveDirection(direction);
    var anc: seq<Knowledge> := [];
    if WantsAncestors(d) {
      anc := WalkAncestors(all, t.parentId, fuel);
      TargetNotAncestor(all, t, fuel);
    }
    var genealogy := anc + [t];
    var desc: seq<Knowledge> := [];
    if WantsDescendants(d) {
      desc := CollectDescendants(all, id.value);
      genealogy := genealogy + desc;
    }
    LineageOf(all, t, d, anc, desc);
    r := Lineage(t, genealogy, MaxGeneration(genealogy) + 1);
  }
}
