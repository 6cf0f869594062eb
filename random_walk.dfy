/**
 * The random-walk kernel: a table of graph nodes, each with an id, a list of
 * outgoing edges and a 32-bit visit counter.  Each sample walks a fixed
 * number of steps from a start node, picking edge `rng % degree` and
 * advancing the shared LCG once per step, and bumps the counter of every node
 * it visits.  The result is the histogram of (count, id) pairs sorted in
 * descending order.
 */
module RandomWalk {
  import opened Rng
  import opened Results

  /** One node of the graph (`dd_node_t`). */
  datatype Node = Node(id: u32, edges: seq<u32>, count: u32)

  /** The persisted input: the seed of the sample generator, the sample count, the walk length and the graph. */
  datatype RandomWalkInput = RandomWalkInput(
    seed: u32,
    numSamples: u32,
    lengthWalks: u32,
    nodes: seq<Node>)

  /** A histogram entry: (visit count, node id). */
  type Entry = (u32, u32)

  // ---------------------------------------------------------------------------
  // Walks

  /** The node a walk moves to from `current` when the generator holds `rng`: one of its edges. */
  function NextNode(g: seq<Node>, rng: u32, current: nat): (next: u32)
    requires current < |g| && |g[current].edges| > 0
    ensures next in g[current].edges
  {
    g[current].edges[rng % |g[current].edges|]
  }

  /**
   * A walk of `length` steps from `current` never reads outside the node table
   * and never takes a remainder by an empty edge list.  The node reached after
   * the last step is never read, so it need not exist.
   */
  predicate WalkDefined(g: seq<Node>, rng: u32, current: nat, length: nat)
    decreases length
  {
    length == 0
    || (current < |g| && |g[current].edges| > 0
        && WalkDefined(g, Lcg(rng), NextNode(g, rng, current), length - 1))
  }

  /** The nodes a walk visits, in order: one per step, every one inside the table. */
  function Visits(g: seq<Node>, rng: u32, current: nat, length: nat): (p: seq<nat>)
    requires WalkDefined(g, rng, current, length)
    ensures |p| == length
    ensures forall k :: 0 <= k < |p| ==> p[k] < |g|
    decreases length
  {
    if length == 0 then []
    else [current] + Visits(g, Lcg(rng), NextNode(g, rng, current), length - 1)
  }

  /**
   * The generator advances exactly once per step: a walk starts at `current`,
   * and its step `k` leaves visit `k` along edge `LcgPow(rng, k) % degree`.
   */
  lemma {:induction false} VisitsDraw(g: seq<Node>, rng: u32, current: nat, length: nat, k: nat)
    requires WalkDefined(g, rng, current, length) && k + 1 < length
    ensures Visits(g, rng, current, length)[0] == current
    ensures |g[Visits(g, rng, current, length)[k]].edges| > 0
    ensures Visits(g, rng, current, length)[k + 1]
            == NextNode(g, LcgPow(rng, k), Visits(g, rng, current, length)[k])
    decreases k
  {
    var next := NextNode(g, rng, current);
    var rest := Visits(g, Lcg(rng), next, length - 1);
    assert Visits(g, rng, current, length) == [current] + rest;
    if k > 0 {
      VisitsDraw(g, Lcg(rng), next, length - 1, k - 1);
      LcgPowAdd(rng, 1, k - 1);
      assert LcgPow(rng, 1) == Lcg(rng);
    } else {
      assert rest == [next] + Visits(g, Lcg(Lcg(rng)), NextNode(g, Lcg(rng), next), length - 2);
    }
  }

  /** Two node tables with the same edge lists, the only part of a node a walk looks at. */
  predicate SameEdges(g: seq<Node>, h: seq<Node>)
  {
    |g| == |h| && forall j :: 0 <= j < |g| ==> g[j].edges == h[j].edges
  }

  /** A walk depends on the edge lists alone, not on the ids or the counters. */
  lemma {:induction false} VisitsSameEdges(g: seq<Node>, h: seq<Node>, rng: u32, current: nat, length: nat)
    requires SameEdges(g, h) && WalkDefined(g, rng, current, length)
    ensures WalkDefined(h, rng, current, length)
    ensures Visits(h, rng, current, length) == Visits(g, rng, current, length)
    decreases length
  {
    if length > 0 {
      VisitsSameEdges(g, h, Lcg(rng), NextNode(g, rng, current), length - 1);
    }
  }

  /** The `count++` of node `c`, wrapping at 2^32; walks never visit a node outside the table. */
  function Bump(g: seq<Node>, c: nat): (r: seq<Node>)
    ensures |r| == |g|
  {
    if c < |g| then g[c := g[c].(count := (g[c].count + 1) % Modulus)] else g
  }

  /** The node table after the visits in `path`: one counter increment per visit, in order. */
  function Tally(g: seq<Node>, path: seq<nat>): (r: seq<Node>)
    ensures |r| == |g|
    decreases |path|
  {
    if path == [] then g else Bump(Tally(g, path[..|path| - 1]), path[|path| - 1])
  }

  /** One more visit is one more increment. */
  lemma TallySnoc(g: seq<Node>, p: seq<nat>, c: nat)
    ensures Tally(g, p + [c]) == Bump(Tally(g, p), c)
  {
    assert (p + [c])[..|p|] == p;
  }

  /**
   * Each counter ends up raised by the number of visits to its node, modulo
   * 2^32, and the ids and edge lists stay as they were.
   */
  lemma {:induction false} TallyCount(g: seq<Node>, path: seq<nat>, j: nat)
    requires j < |g|
    ensures Tally(g, path)[j] == g[j].(count := (g[j].count + multiset(path)[j]) % Modulus)
    decreases |path|
  {
    if path == [] {
      assert g[j].count % Modulus == g[j].count;
    } else {
      var p: seq<nat>, c: nat := path[..|path| - 1], path[|path| - 1];
      assert path == p + [c];
      TallyCount(g, p, j);
      assert Tally(g, path) == Bump(Tally(g, p), c);
      var a, m := g[j].count, multiset(p)[j];
      if c == j {
        assert multiset(path)[j] == m + 1;
        ModAddLeft(1, a + m);
      } else {
        assert multiset(path)[j] == m;
      }
    }
  }

  /** Counting only changes counters: ids and edge lists stay as they were. */
  lemma TallyKeepsGraph(g: seq<Node>, path: seq<nat>)
    ensures SameEdges(g, Tally(g, path))
    ensures forall j :: 0 <= j < |g| ==> Tally(g, path)[j].id == g[j].id
  {
    forall j: nat | j < |g|
      ensures Tally(g, path)[j].edges == g[j].edges && Tally(g, path)[j].id == g[j].id
    {
      TallyCount(g, path, j);
    }
  }

  /** Counting the visits of `p` and then those of `q` is counting the visits of `p + q`. */
  lemma {:induction false} TallyTwice(g: seq<Node>, p: seq<nat>, q: seq<nat>)
    ensures Tally(Tally(g, p), q) == Tally(g, p + q)
    decreases |q|
  {
    if q != [] {
      var q', c := q[..|q| - 1], q[|q| - 1];
      assert q == q' + [c] && p + q == (p + q') + [c];
      TallyTwice(g, p, q');
      TallySnoc(Tally(g, p), q', c);
      TallySnoc(g, p + q', c);
    } else {
      assert p + q == p;
    }
  }

  /** The sum of the counters of all nodes, as an unbounded integer. */
  function TotalCount(g: seq<Node>): (s: nat)
  {
    if g == [] then 0 else TotalCount(g[..|g| - 1]) + g[|g| - 1].count
  }

  /** One more visit to node `c`, when its counter does not wrap, adds one to the total. */
  lemma {:induction false} TotalCountBump(g: seq<Node>, c: nat)
    requires c < |g| && g[c].count + 1 < Modulus
    ensures TotalCount(Bump(g, c)) == TotalCount(g) + 1
  {
    var h := Bump(g, c);
    var k := |g| - 1;
    assert h == g[c := g[c].(count := g[c].count + 1)];
    if c < k {
      assert h[..k] == Bump(g[..k], c);
      TotalCountBump(g[..k], c);
    } else {
      assert h[..k] == g[..k];
    }
  }

  /**
   * When no counter wraps around, counting the visits of a path raises the
   * total of all counters by exactly the length of the path.
   */
  lemma {:induction false} TallyTotal(g: seq<Node>, path: seq<nat>)
    requires forall k :: 0 <= k < |path| ==> path[k] < |g|
    requires NoWrap(g, path)
    ensures TotalCount(Tally(g, path)) == TotalCount(g) + |path|
    decreases |path|
  {
    if path != [] {
      var p: seq<nat>, c: nat := path[..|path| - 1], path[|path| - 1];
      assert path == p + [c];
      assert forall k :: 0 <= k < |p| ==> p[k] == path[k];
      NoWrapPrefix(g, p, c);
      TallyTotal(g, p);
      TallySnocTotal(g, p, c);
    }
  }

  /** One more visit that does not wrap the counter adds one to the total. */
  lemma TallySnocTotal(g: seq<Node>, p: seq<nat>, c: nat)
    requires c < |g| && Tally(g, p)[c].count + 1 < Modulus
    ensures TotalCount(Tally(g, p + [c])) == TotalCount(Tally(g, p)) + 1
  {
    TallySnoc(g, p, c);
    TotalCountBump(Tally(g, p), c);
  }

  /** No node is visited so often that its counter wraps around. */
  predicate NoWrap(g: seq<Node>, path: seq<nat>)
  {
    forall j :: 0 <= j < |g| ==> g[j].count + multiset(path)[j] < Modulus
  }

  /** Without wrap-around on a path, there is none on its prefix, and the last visit does not wrap either. */
  lemma NoWrapPrefix(g: seq<Node>, p: seq<nat>, c: nat)
    requires c < |g| && NoWrap(g, p + [c])
    ensures NoWrap(g, p)
    ensures Tally(g, p)[c].count + 1 < Modulus
  {
    forall j: nat | j < |g|
      ensures g[j].count + multiset(p)[j] < Modulus
    {
      assert multiset(p)[j] <= multiset(p + [c])[j];
    }
    assert multiset(p + [c])[c] == multiset(p)[c] + 1;
    TallyCount(g, p, c);
  }

  /**
   * `random_walk`: starting at `start` with generator state `seed`, take
   * `length` steps, each bumping the counter of the current node, then moving
   * along edge `rng % degree` and advancing the generator once.
   */
  method Walk(nodes: array<Node>, seed: u32, start: nat, length: nat)
    requires WalkDefined(nodes[..], seed, start, length)
    modifies nodes
    ensures nodes[..] == Tally(old(nodes[..]), Visits(old(nodes[..]), seed, start, length))
  {
    ghost var g := nodes[..];
    ghost var visited: seq<nat> := [];
    var rng: u32 := seed;
    var current: nat := start;
    var i := 0;
    while i < length
      invariant 0 <= i <= length
      invariant WalkDefined(g, rng, current, length - i)
      invariant Visits(g, seed, start, length) == visited + Visits(g, rng, current, length - i)
      invariant nodes[..] == Tally(g, visited)
    {
      var c := current;
      ghost var next := NextNode(g, rng, c);
      VisitsStep(g, Visits(g, seed, start, length), visited, rng, c, length - i);
      CountVisit(g, visited, c);
      ghost var before := nodes[..];
      nodes[c] := nodes[c].(count := (nodes[c].count + 1) % Modulus);
      assert nodes[..] == before[c := before[c].(count := (before[c].count + 1) % Modulus)];
      var edgeIndex := rng % |nodes[c].edges|;
      rng := Lcg(rng);
      visited := visited + [c];
      current := nodes[c].edges[edgeIndex];
      assert current == next;
      i := i + 1;
    }
    assert visited + Visits(g, rng, current, 0) == visited;
  }

  /** One loop step of `Walk`: the current node is the next visit of the walk. */
  lemma VisitsStep(g: seq<Node>, whole: seq<nat>, visited: seq<nat>, rng: u32, c: nat, left: nat)
    requires left > 0 && WalkDefined(g, rng, c, left) && whole == visited + Visits(g, rng, c, left)
    ensures c < |g| && |g[c].edges| > 0
    ensures WalkDefined(g, Lcg(rng), NextNode(g, rng, c), left - 1)
    ensures whole == (visited + [c]) + Visits(g, Lcg(rng), NextNode(g, rng, c), left - 1)
  {
    var rest := Visits(g, Lcg(rng), NextNode(g, rng, c), left - 1);
    assert Visits(g, rng, c, left) == [c] + rest;
    assert visited + ([c] + rest) == (visited + [c]) + rest;
  }

  /** One loop step of `Walk`: bumping the current node's counter counts one more visit. */
  lemma CountVisit(g: seq<Node>, visited: seq<nat>, c: nat)
    requires c < |g|
    ensures Tally(g, visited)[c].edges == g[c].edges
    ensures Tally(g, visited + [c])
            == Tally(g, visited)[c := Tally(g, visited)[c].(count := (Tally(g, visited)[c].count + 1) % Modulus)]
  {
    TallyCount(g, visited, c);
    TallySnoc(g, visited, c);
  }

  // ---------------------------------------------------------------------------
  // Input validation

  /** Why a persisted input is rejected. */
  datatype Corruption = IdsCorrupt | EdgesCorrupt

  /** Every edge of node `i` leads to a node of the table. */
  predicate EdgesInRange(g: seq<Node>, i: nat)
    requires i < |g|
  {
    forall j :: 0 <= j < |g[i].edges| ==> g[i].edges[j] < |g|
  }

  /** Node `i` carries its own index as id and has only edges into the table. */
  predicate NodeValid(g: seq<Node>, i: nat)
    requires i < |g|
  {
    g[i].id == i && EdgesInRange(g, i)
  }

  /** The graph the validator accepts. */
  predicate ValidGraph(g: seq<Node>)
  {
    forall i :: 0 <= i < |g| ==> NodeValid(g, i)
  }

  /** The complaint about node `i`: the id is checked before the edges. */
  function NodeComplaint(g: seq<Node>, i: nat): Outcome<Corruption>
    requires i < |g|
  {
    if g[i].id != i then Fail(IdsCorrupt) else if !EdgesInRange(g, i) then Fail(EdgesCorrupt) else Pass
  }

  /**
   * The checks after reading a `RandomWalkInput`: accept exactly the valid
   * graphs; otherwise report the complaint about the first invalid node.
   */
  method Validate(nodes: seq<Node>) returns (r: Outcome<Corruption>)
    ensures r == Pass <==> ValidGraph(nodes)
    ensures r != Pass ==> exists i :: 0 <= i < |nodes| && (forall k :: 0 <= k < i ==> NodeValid(nodes, k))
                                       && NodeComplaint(nodes, i) == r
  {
    var i := 0;
    while i < |nodes|
      invariant 0 <= i <= |nodes|
      invariant forall k :: 0 <= k < i ==> NodeValid(nodes, k)
    {
      if nodes[i].id != i {
        assert !NodeValid(nodes, i) && NodeComplaint(nodes, i) == Fail(IdsCorrupt);
        return Fail(IdsCorrupt);
      }
      var j := 0;
      while j < |nodes[i].edges|
        invariant 0 <= j <= |nodes[i].edges|
        invariant forall e :: 0 <= e < j ==> nodes[i].edges[e] < |nodes|
      {
        if nodes[i].edges[j] >= |nodes| {
          assert !NodeValid(nodes, i) && NodeComplaint(nodes, i) == Fail(EdgesCorrupt);
          return Fail(EdgesCorrupt);
        }
        j := j + 1;
      }
      i := i + 1;
    }
    return Pass;
  }

  /**
   * On a validated graph whose nodes all have an edge, every walk from a node
   * of the table is defined: the current node always stays inside the table.
   */
  lemma {:induction false} ValidWalkDefined(g: seq<Node>, rng: u32, current: nat, length: nat)
    requires ValidGraph(g) && (forall j :: 0 <= j < |g| ==> |g[j].edges| > 0) && current < |g|
    ensures WalkDefined(g, rng, current, length)
    decreases length
  {
    if length > 0 {
      var next := NextNode(g, rng, current);
      assert NodeValid(g, current);
      assert next < |g|;
      ValidWalkDefined(g, Lcg(rng), next, length - 1);
    }
  }

  /**
   * Every node a walk reaches before its last step has an edge.  A node that
   * lies outside the table ends the check, since the validator rules that out.
   */
  predicate EdgesAlong(g: seq<Node>, rng: u32, current: nat, length: nat)
    decreases length
  {
    length == 0
    || current >= |g|
    || (|g[current].edges| > 0 && EdgesAlong(g, Lcg(rng), NextNode(g, rng, current), length - 1))
  }

  /**
   * On a validated graph a walk is defined exactly when every node it reaches
   * has an edge: edge-less nodes the walk never reaches do not matter, and the
   * edges themselves always stay inside the table.
   */
  lemma {:induction false} ValidWalkStaysInside(g: seq<Node>, rng: u32, current: nat, length: nat)
    requires ValidGraph(g) && current < |g|
    ensures WalkDefined(g, rng, current, length) <==> EdgesAlong(g, rng, current, length)
    decreases length
  {
    if length > 0 && |g[current].edges| > 0 {
      assert NodeValid(g, current);
      ValidWalkStaysInside(g, Lcg(rng), NextNode(g, rng, current), length - 1);
    }
  }

  // ---------------------------------------------------------------------------
  // The histogram

  /** `(count_i, i)` for every node i, in node order. */
  function Histogram(g: seq<Node>): (h: seq<Entry>)
    requires |g| <= Modulus
    ensures |h| == |g|
  {
    seq(|g|, i requires 0 <= i < |g| => (g[i].count, i as u32))
  }

  /** The node table with every counter reset to 0. */
  function ResetCounts(g: seq<Node>): (r: seq<Node>)
    ensures |r| == |g|
  {
    seq(|g|, i requires 0 <= i < |g| => g[i].(count := 0))
  }

  /** Lexicographic `<=` on pairs, as `std::pair` compares them. */
  predicate LexLeq(p: Entry, q: Entry)
  {
    p.0 < q.0 || (p.0 == q.0 && p.1 <= q.1)
  }

  /** Non-increasing in lexicographic order: the order `std::sort` over reverse iterators leaves. */
  predicate SortedDescending(s: seq<Entry>)
  {
    forall i, j :: 0 <= i < j < |s| ==> LexLeq(s[j], s[i])
  }

  /** Copy the counters into a fresh histogram, resetting them in the node table. */
  method BuildHistogram(nodes: array<Node>) returns (h: array<Entry>)
    requires nodes.Length <= Modulus
    modifies nodes
    ensures fresh(h)
    ensures h[..] == Histogram(old(nodes[..]))
    ensures nodes[..] == ResetCounts(old(nodes[..]))
  {
    ghost var g := nodes[..];
    h := new Entry[nodes.Length];
    var i := 0;
    while i < nodes.Length
      invariant 0 <= i <= nodes.Length
      invariant forall k :: 0 <= k < i ==> h[k] == Histogram(g)[k] && nodes[k] == ResetCounts(g)[k]
      invariant forall k :: i <= k < nodes.Length ==> nodes[k] == g[k]
    {
      h[i] := (nodes[i].count, i as u32);
      nodes[i] := nodes[i].(count := 0);
      i := i + 1;
    }
  }

  /** Sort in place into non-increasing lexicographic order (insertion sort). */
  method SortDescending(a: array<Entry>)
    modifies a
    ensures SortedDescending(a[..])
    ensures multiset(a[..]) == multiset(old(a[..]))
  {
    var i := 0;
    while i < a.Length
      invariant 0 <= i <= a.Length
      invariant SortedDescending(a[..i])
      invariant multiset(a[..]) == multiset(old(a[..]))
    {
      Insert(a, i);
      i := i + 1;
    }
    assert a[..a.Length] == a[..];
  }

  /** Move `a[i]` left past every entry below it, extending the sorted prefix by one. */
  method Insert(a: array<Entry>, i: nat)
    requires i < a.Length && SortedDescending(a[..i])
    modifies a
    ensures SortedDescending(a[..i + 1])
    ensures multiset(a[..]) == multiset(old(a[..]))
    ensures a[i + 1..] == old(a[i + 1..])
  {
    var j := i;
    InsertStart(a[..], i);
    while j > 0 && !LexLeq(a[j], a[j - 1])
      invariant 0 <= j <= i
      invariant multiset(a[..]) == multiset(old(a[..]))
      invariant a[i + 1..] == old(a[i + 1..])
      invariant Inserting(a[..], i, j)
    {
      ghost var s := a[..];
      a[j - 1], a[j] := a[j], a[j - 1];
      assert a[..] == Swap(s, j);
      InsertStep(s, i, j);
      j := j - 1;
    }
    InsertDone(a[..], i, j);
  }

  /**
   * Halfway through inserting the entry now at `j`: the first `i + 1` entries
   * are sorted apart from position `j`, and nothing to the right of it is above it.
   */
  predicate Inserting(s: seq<Entry>, i: nat, j: nat)
    requires j <= i < |s|
  {
    (forall p, q :: 0 <= p < q <= i && p != j && q != j ==> LexLeq(s[q], s[p]))
    && (forall q :: j < q <= i ==> LexLeq(s[q], s[j]))
  }

  /** `s` with the entries at `j - 1` and `j` exchanged. */
  function Swap(s: seq<Entry>, j: nat): (r: seq<Entry>)
    requires 0 < j < |s|
    ensures multiset(r) == multiset(s)
  {
    s[j - 1 := s[j]][j := s[j - 1]]
  }

  lemma InsertStart(s: seq<Entry>, i: nat)
    requires i < |s| && SortedDescending(s[..i])
    ensures Inserting(s, i, i)
  {
    forall p, q | 0 <= p < q <= i && p != i && q != i
      ensures LexLeq(s[q], s[p])
    {
      assert s[..i][p] == s[p] && s[..i][q] == s[q];
    }
  }

  lemma InsertStep(s: seq<Entry>, i: nat, j: nat)
    requires 0 < j <= i < |s| && Inserting(s, i, j) && !LexLeq(s[j], s[j - 1])
    ensures Inserting(Swap(s, j), i, j - 1)
  {
  }

  lemma InsertDone(s: seq<Entry>, i: nat, j: nat)
    requires j <= i < |s| && Inserting(s, i, j) && (j == 0 || LexLeq(s[j], s[j - 1]))
    ensures SortedDescending(s[..i + 1])
  {
  }

  /** Every sample's walk is defined, so the node table is empty only when there are no samples. */
  predicate SamplesDefined(g: seq<Node>, samples: seq<(u32, u32)>, length: nat)
  {
    forall k :: 0 <= k < |samples| ==> SampleDefined(g, samples[k], length)
  }

  /** The walk of one sample, from node `startDraw % |g|`, is defined. */
  predicate SampleDefined(g: seq<Node>, sample: (u32, u32), length: nat)
  {
    |g| > 0 && WalkDefined(g, sample.0, sample.1 % |g|, length)
  }

  /** The visits of the first `n` samples, one walk after the other; sample k starts at node `startDraw % |g|`. */
  function AllVisits(g: seq<Node>, samples: seq<(u32, u32)>, n: nat, length: nat): (p: seq<nat>)
    requires n <= |samples| && SamplesDefined(g, samples, length)
  {
    if n == 0 then []
    else AllVisits(g, samples, n - 1, length) + Visits(g, samples[n - 1].0, samples[n - 1].1 % |g|, length)
  }

  /** The samples together make `n * length` visits, all inside the node table. */
  lemma {:induction false} AllVisitsShape(g: seq<Node>, samples: seq<(u32, u32)>, n: nat, length: nat)
    requires n <= |samples| && SamplesDefined(g, samples, length)
    ensures |AllVisits(g, samples, n, length)| == n * length
    ensures forall k :: 0 <= k < |AllVisits(g, samples, n, length)| ==> AllVisits(g, samples, n, length)[k] < |g|
  {
    if n > 0 {
      AllVisitsShape(g, samples, n - 1, length);
      assert (n - 1) * length + length == n * length;
    }
  }

  /**
   * When no counter wraps around, the sampling loop raises the total of all
   * counters by exactly the number of samples times the walk length.
   */
  lemma SamplesTotal(g: seq<Node>, samples: seq<(u32, u32)>, length: nat)
    requires SamplesDefined(g, samples, length) && NoWrap(g, AllVisits(g, samples, |samples|, length))
    ensures TotalCount(Tally(g, AllVisits(g, samples, |samples|, length))) == TotalCount(g) + |samples| * length
  {
    AllVisitsShape(g, samples, |samples|, length);
    TallyTotal(g, AllVisits(g, samples, |samples|, length));
  }

  /**
   * `ReferenceExecute`: walk every sample on a copy of the node table, then
   * turn the counters into a histogram sorted in descending order.  Sample k
   * is the pair of generator outputs (walk seed, start draw) of the sample
   * generator.
   */
  method ReferenceExecute(input: RandomWalkInput, samples: seq<(u32, u32)>) returns (histogram: seq<Entry>)
    requires |samples| == input.numSamples && |input.nodes| <= Modulus
    requires SamplesDefined(input.nodes, samples, input.lengthWalks)
    ensures SortedDescending(histogram)
    ensures multiset(histogram)
            == multiset(Histogram(Tally(input.nodes, AllVisits(input.nodes, samples, |samples|, input.lengthWalks))))
  {
    var nodes := new Node[|input.nodes|](i requires 0 <= i < |input.nodes| => input.nodes[i]);
    assert nodes[..] == input.nodes;
    WalkAll(nodes, samples, input.lengthWalks);
    var h := BuildHistogram(nodes);
    SortDescending(h);
    histogram := h[..];
  }

  /** The sampling loop of `ReferenceExecute`: walk every sample in turn on the same node table. */
  method WalkAll(nodes: array<Node>, samples: seq<(u32, u32)>, length: nat)
    requires SamplesDefined(nodes[..], samples, length)
    modifies nodes
    ensures nodes[..] == Tally(old(nodes[..]), AllVisits(old(nodes[..]), samples, |samples|, length))
  {
    ghost var g := nodes[..];
    var i := 0;
    while i < |samples|
      invariant 0 <= i <= |samples|
      invariant nodes[..] == Tally(g, AllVisits(g, samples, i, length))
    {
      WalkSample(nodes, g, samples, i, length);
      i := i + 1;
    }
  }

  /** One sample of `ReferenceExecute`: the walk of sample `i` adds its visits to the counters. */
  method WalkSample(nodes: array<Node>, ghost g: seq<Node>, samples: seq<(u32, u32)>, i: nat, length: nat)
    requires i < |samples| && SamplesDefined(g, samples, length)
    requires nodes[..] == Tally(g, AllVisits(g, samples, i, length))
    modifies nodes
    ensures nodes[..] == Tally(g, AllVisits(g, samples, i + 1, length))
  {
    ghost var done := AllVisits(g, samples, i, length);
    var seed := samples[i].0;
    var start := samples[i].1 % nodes.Length;
    TallyKeepsGraph(g, done);
    VisitsSameEdges(g, nodes[..], seed, start, length);
    Walk(nodes, seed, start, length);
    TallyTwice(g, done, Visits(g, seed, start, length));
  }

  /**
   * Two histograms sorted in descending order with the same entries are
   * equal: the result does not depend on which sorting algorithm produced it.
   */
  lemma {:induction false} SortedUnique(s: seq<Entry>, t: seq<Entry>)
    requires SortedDescending(s) && SortedDescending(t) && multiset(s) == multiset(t)
    ensures s == t
    decreases |s|
  {
    assert |s| == |multiset(s)| == |multiset(t)| == |t|;
    if s != [] {
      SortedHeadIsGreatest(s, t[0]);
      SortedHeadIsGreatest(t, s[0]);
      assert s[0] == t[0];
      SortedTail(s);
      SortedTail(t);
      SortedUnique(s[1..], t[1..]);
      assert s == [s[0]] + s[1..];
    }
  }

  /** Dropping the first entry keeps a histogram sorted and removes that entry from its multiset. */
  lemma SortedTail(s: seq<Entry>)
    requires SortedDescending(s) && s != []
    ensures SortedDescending(s[1..])
    ensures multiset(s[1..]) == multiset(s) - multiset{s[0]}
  {
    assert s == [s[0]] + s[1..];
  }

  /** The first entry of a sorted histogram is at or above every entry in it. */
  lemma SortedHeadIsGreatest(s: seq<Entry>, x: Entry)
    requires SortedDescending(s) && x in multiset(s)
    ensures LexLeq(x, s[0])
  {
    var k :| 0 <= k < |s| && s[k] == x;
  }

  /**
   * The histogram comparison of `RandomWalkOutput::Equals`: same length, same
   * entries in the same order, which is equality of histograms.
   */
  predicate Equals(a: seq<Entry>, b: seq<Entry>): (eq: bool)
    ensures eq <==> a == b
  {
    |a| == |b| && forall i :: 0 <= i < |a| ==> a[i] == b[i]
  }
}
