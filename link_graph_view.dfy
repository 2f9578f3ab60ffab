/** What the graph panel derives from the notes and the link graph before it lays anything
    out: the notes left by the title filter, the nodes with their degrees and the edges in
    the chosen direction, and the set of ids related to the active note. */
module LinkGraphView {

  import opened Notes
  import opened JsString
  import opened JsCollections
  import Linking

  // ---------------------------------------------------------------------------------------
  // The title filter.

  /** Whether a note's title contains the filter text, ignoring case. The filter is
      lower-cased but, unlike the search, not trimmed. */
  function TitleMatches(q: string): Note -> bool {
    (n: Note) => Includes(Lower(n.title), q)
  }

  /** The notes the panel shows: all of them for a blank filter, otherwise those whose title
      contains the lower-cased filter. */
  function FilteredNotes(notes: seq<Note>, filter: string): seq<Note> {
    if Blank(filter) then notes else Filter(notes, TitleMatches(Lower(filter)))
  }

  /** A blank filter shows every note; any other keeps, in order and as often as they occur,
      exactly the notes whose lower-cased title contains the lower-cased filter. */
  lemma {:induction false} FilteredNotesSpec(notes: seq<Note>, filter: string)
    ensures Blank(filter) ==> FilteredNotes(notes, filter) == notes
    ensures IsSubsequence(FilteredNotes(notes, filter), notes)
    ensures !Blank(filter) ==>
      forall n :: Count(FilteredNotes(notes, filter), n) ==
        if Includes(Lower(n.title), Lower(filter)) then Count(notes, n) else 0
  {
    if Blank(filter) {
      SubsequenceOfSelf(notes);
    } else {
      FilterKeeps(notes, TitleMatches(Lower(filter)));
    }
  }

  /** The filter ignores the case of its text. */
  lemma {:induction false} FilterCaseInsensitive(notes: seq<Note>, filter: string)
    ensures FilteredNotes(notes, Lower(filter)) == FilteredNotes(notes, filter)
  {
    LowerKeepsShape(filter);
    LowerIdempotent(filter);
  }

  // ---------------------------------------------------------------------------------------
  // Nodes and edges.

  datatype Direction = Out | In

  /** One drawn edge: `Out` edges run from a shown note to a note it mentions, `In` edges
      from a note that mentions a shown note to that note. */
  datatype Edge = Edge(from: string, to: string, dir: Direction)

  /** A drawn node without its layout coordinates. */
  datatype GraphNode = GraphNode(id: string, title: string, degree: nat)

  /** The label of a node: its title, or "Untitled" for an empty one. */
  function NodeTitle(title: string): (r: string)
    ensures r != []
    ensures title != [] ==> r == title
    ensures title == [] ==> r == "Untitled"
  {
    if title == [] then "Untitled" else title
  }

  /** `new Map(base.map(n => [n.id, n]))`, with each node named by its position: a later
      note with the same id replaces the earlier one. */
  function NodeMap(ns: seq<Note>): map<string, nat> {
    if ns == [] then map[] else NodeMap(ns[..|ns| - 1])[ns[|ns| - 1].id := |ns| - 1]
  }

  /** The map holds exactly the ids of the shown notes, each at the position of the last note
      with that id. */
  lemma NodeMapSpec(ns: seq<Note>)
    ensures forall k :: k in NodeMap(ns) <==> exists i :: 0 <= i < |ns| && ns[i].id == k
    ensures forall k :: k in NodeMap(ns) ==> NodeMap(ns)[k] < |ns| && ns[NodeMap(ns)[k]].id == k
    ensures forall k, j :: k in NodeMap(ns) && NodeMap(ns)[k] < j < |ns| ==> ns[j].id != k
  {
    NodeMapKeys(ns);
    NodeMapLast(ns);
  }

  lemma {:induction false} NodeMapKeys(ns: seq<Note>)
    ensures forall k :: k in NodeMap(ns) <==> exists i :: 0 <= i < |ns| && ns[i].id == k
  {
    if ns != [] {
      var init := ns[..|ns| - 1];
      NodeMapKeys(init);
      forall k ensures k in NodeMap(ns) <==> exists i :: 0 <= i < |ns| && ns[i].id == k {
        if exists i :: 0 <= i < |ns| && ns[i].id == k {
          var i :| 0 <= i < |ns| && ns[i].id == k;
          if i < |init| {
            assert init[i] == ns[i];
          }
        }
        if exists i :: 0 <= i < |init| && init[i].id == k {
          var i :| 0 <= i < |init| && init[i].id == k;
          assert ns[i] == init[i];
        }
      }
    }
  }

  lemma {:induction false} NodeMapLast(ns: seq<Note>)
    ensures forall k :: k in NodeMap(ns) ==> NodeMap(ns)[k] < |ns| && ns[NodeMap(ns)[k]].id == k
    ensures forall k, j :: k in NodeMap(ns) && NodeMap(ns)[k] < j < |ns| ==> ns[j].id != k
  {
    if ns != [] {
      var init := ns[..|ns| - 1];
      NodeMapLast(init);
      forall k | k in NodeMap(ns) && k != ns[|ns| - 1].id
        ensures NodeMap(ns)[k] < |ns| && ns[NodeMap(ns)[k]].id == k
      {
        assert ns[NodeMap(init)[k]] == init[NodeMap(init)[k]];
      }
      forall k, j | k in NodeMap(ns) && NodeMap(ns)[k] < j < |ns| ensures ns[j].id != k {
        if j < |init| {
          assert ns[j] == init[j];
        }
      }
    }
  }

  /** The edge a mention of `t` by `from` draws when `t` is shown. */
  function OutEdge(from: string, shown: map<string, nat>): string -> Option<Edge> {
    (t: string) => if t in shown then Some(Edge(from, t, Out)) else None
  }

  /** The edge a backlink from `b` to `to` draws when `b` is shown. */
  function InEdge(to: string, shown: map<string, nat>): string -> Option<Edge> {
    (b: string) => if b in shown then Some(Edge(b, to, In)) else None
  }

  /** The edges one shown note contributes; a note without an entry contributes none. */
  function NoteEdges(graph: map<string, Linking.Entry>, dir: Direction, shown: map<string, nat>): Note -> seq<Edge> {
    (n: Note) =>
      if n.id !in graph then []
      else if dir == Out then FilterMap(graph[n.id].mentions, OutEdge(n.id, shown))
      else FilterMap(graph[n.id].backlinks, InEdge(n.id, shown))
  }

  /** All edges, note by note in the order of the shown notes. */
  function Edges(ns: seq<Note>, graph: map<string, Linking.Entry>, dir: Direction): seq<Edge> {
    FlatMap(ns, NoteEdges(graph, dir, NodeMap(ns)))
  }

  /** The number of edge ends that fall on the node at position `j`. */
  function Hits(links: seq<Edge>, j: nat, shown: map<string, nat>): nat {
    if links == [] then 0
    else
      var l := links[|links| - 1];
      Hits(links[..|links| - 1], j, shown) +
        (if l.from in shown && shown[l.from] == j then 1 else 0) +
        (if l.to in shown && shown[l.to] == j then 1 else 0)
  }

  /** The number of edge ends that are `id`: the degree a node with that id is given. */
  function Degree(links: seq<Edge>, id: string): nat {
    if links == [] then 0
    else
      var l := links[|links| - 1];
      Degree(links[..|links| - 1], id) + (if l.from == id then 1 else 0) + (if l.to == id then 1 else 0)
  }

  function Sum(xs: seq<nat>): nat {
    if xs == [] then 0 else Sum(xs[..|xs| - 1]) + xs[|xs| - 1]
  }

  /** One more at one position adds one to the total. */
  lemma {:induction false} SumBump(xs: seq<nat>, p: nat, ys: seq<nat>)
    requires p < |xs| && ys == xs[p := xs[p] + 1]
    ensures Sum(ys) == Sum(xs) + 1
  {
    if p < |xs| - 1 {
      SumBump(xs[..|xs| - 1], p, ys[..|ys| - 1]);
    } else {
      assert ys[..|ys| - 1] == xs[..|xs| - 1];
    }
  }

  /** Which edges are drawn: in the `Out` direction, an edge from each shown note with an
      entry to each shown note it mentions; in the `In` direction, an edge from each shown
      note among the backlinks of a shown note with an entry to that note. */
  lemma {:induction false} EdgesSpec(ns: seq<Note>, graph: map<string, Linking.Entry>, dir: Direction, e: Edge)
    ensures e in Edges(ns, graph, dir) <==>
      e.dir == dir && e.from in NodeMap(ns) && e.to in NodeMap(ns) &&
      (if dir == Out then e.from in graph && e.to in graph[e.from].mentions
       else e.to in graph && e.from in graph[e.to].backlinks)
  {
    var shown := NodeMap(ns);
    var f := NoteEdges(graph, dir, shown);
    NodeMapSpec(ns);
    FlatMapSpec(ns, f);
    if e in Edges(ns, graph, dir) {
      var i :| 0 <= i < |ns| && e in f(ns[i]);
      var n := ns[i];
      assert n.id in shown;
      if dir == Out {
        FilterMapSpec(graph[n.id].mentions, OutEdge(n.id, shown));
      } else {
        FilterMapSpec(graph[n.id].backlinks, InEdge(n.id, shown));
      }
    }
    if e.dir == dir && e.from in shown && e.to in shown {
      if dir == Out && e.from in graph && e.to in graph[e.from].mentions {
        var i := shown[e.from];
        var ms := graph[e.from].mentions;
        var k :| 0 <= k < |ms| && ms[k] == e.to;
        FilterMapSpec(ms, OutEdge(e.from, shown));
        assert OutEdge(e.from, shown)(ms[k]) == Some(e);
        assert e in f(ns[i]);
      }
      if dir == In && e.to in graph && e.from in graph[e.to].backlinks {
        var i := shown[e.to];
        var bs := graph[e.to].backlinks;
        var k :| 0 <= k < |bs| && bs[k] == e.from;
        FilterMapSpec(bs, InEdge(e.to, shown));
        assert InEdge(e.to, shown)(bs[k]) == Some(e);
        assert e in f(ns[i]);
      }
    }
  }

  /** Both ends of every drawn edge are shown nodes, at positions inside the node list. */
  lemma EdgesShown(ns: seq<Note>, graph: map<string, Linking.Entry>, dir: Direction)
    ensures forall e :: e in Edges(ns, graph, dir) ==>
      e.from in NodeMap(ns) && e.to in NodeMap(ns) &&
      NodeMap(ns)[e.from] < |ns| && NodeMap(ns)[e.to] < |ns|
  {
    NodeMapSpec(ns);
    forall e | e in Edges(ns, graph, dir)
      ensures e.from in NodeMap(ns) && e.to in NodeMap(ns)
    {
      EdgesSpec(ns, graph, dir, e);
    }
  }

  /** The ends counted at a position are those of the id that owns it: the node that stands
      for its id gets that id's degree, a node shadowed by a later one with the same id gets
      nothing. */
  lemma {:induction false} HitsDegree(links: seq<Edge>, ns: seq<Note>, j: nat)
    requires j < |ns|
    ensures ns[j].id in NodeMap(ns)
    ensures NodeMap(ns)[ns[j].id] == j ==> Hits(links, j, NodeMap(ns)) == Degree(links, ns[j].id)
    ensures NodeMap(ns)[ns[j].id] != j ==> Hits(links, j, NodeMap(ns)) == 0
  {
    NodeMapSpec(ns);
    assert ns[j].id in NodeMap(ns);
    if links != [] {
      HitsDegree(links[..|links| - 1], ns, j);
    }
  }

  /** The node list and edge list the panel draws (the memo at lines 231-247, without the
      layout). */
  method BuildView(ns: seq<Note>, graph: map<string, Linking.Entry>, dir: Direction)
    returns (nodes: seq<GraphNode>, links: seq<Edge>)
    ensures links == Edges(ns, graph, dir)
    ensures |nodes| == |ns|
    ensures forall i :: 0 <= i < |ns| ==>
      nodes[i].id == ns[i].id && nodes[i].title == NodeTitle(ns[i].title) &&
      nodes[i].degree == Hits(links, i, NodeMap(ns))
    ensures Sum(seq(|nodes|, i requires 0 <= i < |nodes| => nodes[i].degree)) == 2 * |links|
  {
    var shown: map<string, nat> := map[];
    for i := 0 to |ns|
      invariant shown == NodeMap(ns[..i])
    {
      assert ns[..i + 1][..i] == ns[..i];
      shown := shown[ns[i].id := i];
    }
    assert ns[..|ns|] == ns;
    links := CollectEdges(ns, graph, dir, shown);
    EdgesShown(ns, graph, dir);
    var degrees := CountDegrees(|ns|, shown, links);
    nodes := seq(|ns|, i requires 0 <= i < |ns| => GraphNode(ns[i].id, NodeTitle(ns[i].title), degrees[i]));
    assert seq(|nodes|, i requires 0 <= i < |nodes| => nodes[i].degree) == degrees;
  }

  /** `rawLinks.forEach(l => { baseMap.get(l.from).degree++; baseMap.get(l.to).degree++; })`
      over `n` nodes whose degrees start at zero, kept in an array indexed by position. Every
      edge end names a node, so no lookup fails; each edge adds two to the total. */
  method CountDegrees(n: nat, shown: map<string, nat>, links: seq<Edge>) returns (degrees: seq<nat>)
    requires EndsShown(links, n, shown)
    ensures |degrees| == n
    ensures forall j :: 0 <= j < n ==> degrees[j] == Hits(links, j, shown)
    ensures Sum(degrees) == 2 * |links|
  {
    degrees := TallyEnds(n, shown, links);
    TallyHits(links, n, shown);
    TallySum(links, n, shown);
  }

  /** The loop itself: the degrees start at zero in an array, and each edge bumps the
      entries of both of its ends. */
  method TallyEnds(n: nat, shown: map<string, nat>, links: seq<Edge>) returns (degrees: seq<nat>)
    requires EndsShown(links, n, shown)
    ensures degrees == Tally(links, n, shown)
  {
    var degree := new nat[n](i => 0);
    assert degree[..] == Tally([], n, shown);
    for k := 0 to |links|
      invariant degree[..] == Tally(links[..k], n, shown)
    {
      TallyStep(links, k, n, shown);
      BumpEnds(degree, shown[links[k].from], shown[links[k].to]);
    }
    assert links[..|links|] == links;
    degrees := degree[..];
  }

  /** One pass of the loop: `degree++` at the node of each end of the edge. */
  method BumpEnds(degree: array<nat>, pf: nat, pt: nat)
    requires pf < degree.Length && pt < degree.Length
    modifies degree
    ensures var d1 := old(degree[..])[pf := old(degree[pf]) + 1];
      degree[..] == d1[pt := d1[pt] + 1]
  {
    degree[pf] := degree[pf] + 1;
    degree[pt] := degree[pt] + 1;
  }

  /** Counting the edge at `k` after those before it bumps both of its ends. */
  lemma TallyStep(links: seq<Edge>, k: nat, n: nat, shown: map<string, nat>)
    requires k < |links| && EndsShown(links, n, shown)
    ensures links[k].from in shown && links[k].to in shown
    ensures var pf, pt := shown[links[k].from], shown[links[k].to];
      var d0 := Tally(links[..k], n, shown);
      var d1 := d0[pf := d0[pf] + 1];
      pf < n && pt < n && Tally(links[..k + 1], n, shown) == d1[pt := d1[pt] + 1]
  {
    var done := links[..k + 1];
    assert done[..k] == links[..k] && done[k] == links[k];
    EndsShownPrefix(links, k + 1, n, shown);
    TallyLast(done, n, shown);
  }

  /** The degrees after the edges `ls` were counted on `n` nodes starting from zero. */
  function Tally(ls: seq<Edge>, n: nat, shown: map<string, nat>): (r: seq<nat>)
    ensures |r| == n
  {
    if ls == [] then seq(n, i => 0)
    else
      var l := ls[|ls| - 1];
      Bump(Bump(Tally(ls[..|ls| - 1], n, shown), shown, l.from), shown, l.to)
  }

  /** One `degree++` on the node that `id` names, if it names one. */
  function Bump(ds: seq<nat>, shown: map<string, nat>, id: string): (r: seq<nat>)
    ensures |r| == |ds|
  {
    if id in shown && shown[id] < |ds| then ds[shown[id] := ds[shown[id]] + 1] else ds
  }

  /** Both ends of every edge name one of the `n` nodes. */
  predicate EndsShown(ls: seq<Edge>, n: nat, shown: map<string, nat>) {
    forall k :: 0 <= k < |ls| ==>
      ls[k].from in shown && ls[k].to in shown && shown[ls[k].from] < n && shown[ls[k].to] < n
  }

  lemma EndsShownPrefix(ls: seq<Edge>, k: nat, n: nat, shown: map<string, nat>)
    requires k <= |ls| && EndsShown(ls, n, shown)
    ensures EndsShown(ls[..k], n, shown)
  {
    forall j | 0 <= j < k ensures ls[..k][j] == ls[j] {
    }
  }

  lemma EndsShownInit(ls: seq<Edge>, n: nat, shown: map<string, nat>)
    requires ls != [] && EndsShown(ls, n, shown)
    ensures EndsShown(ls[..|ls| - 1], n, shown)
  {
    forall k | 0 <= k < |ls| - 1 ensures ls[..|ls| - 1][k] == ls[k] {
    }
  }

  /** Counting one more edge bumps the counts at both of its ends. */
  lemma TallyLast(ls: seq<Edge>, n: nat, shown: map<string, nat>)
    requires ls != [] && EndsShown(ls, n, shown)
    ensures var l := ls[|ls| - 1];
      var d0 := Tally(ls[..|ls| - 1], n, shown);
      var d1 := d0[shown[l.from] := d0[shown[l.from]] + 1];
      Tally(ls, n, shown) == d1[shown[l.to] := d1[shown[l.to]] + 1]
  {
    var l := ls[|ls| - 1];
    assert l.from in shown && l.to in shown && shown[l.from] < n && shown[l.to] < n;
  }

  /** When every edge end names one of the `n` nodes, the count at each position is the
      number of edge ends there. */
  lemma {:induction false} TallyHits(ls: seq<Edge>, n: nat, shown: map<string, nat>)
    requires EndsShown(ls, n, shown)
    ensures forall j :: 0 <= j < n ==> Tally(ls, n, shown)[j] == Hits(ls, j, shown)
  {
    if ls != [] {
      var init := ls[..|ls| - 1];
      var l := ls[|ls| - 1];
      EndsShownInit(ls, n, shown);
      TallyHits(init, n, shown);
      var pf, pt := shown[l.from], shown[l.to];
      var d0 := Tally(init, n, shown);
      var d1 := d0[pf := d0[pf] + 1];
      var d2 := d1[pt := d1[pt] + 1];
      TallyLast(ls, n, shown);
      forall j | 0 <= j < n ensures d2[j] == Hits(ls, j, shown) {
        assert Hits(ls, j, shown) == Hits(init, j, shown) +
          (if pf == j then 1 else 0) + (if pt == j then 1 else 0);
      }
    }
  }

  /** Each edge adds two to the total of the counts. */
  lemma {:induction false} TallySum(ls: seq<Edge>, n: nat, shown: map<string, nat>)
    requires EndsShown(ls, n, shown)
    ensures Sum(Tally(ls, n, shown)) == 2 * |ls|
  {
    if ls == [] {
      SumZero(n);
    } else {
      var init := ls[..|ls| - 1];
      var l := ls[|ls| - 1];
      EndsShownInit(ls, n, shown);
      TallySum(init, n, shown);
      var pf, pt := shown[l.from], shown[l.to];
      var d0 := Tally(init, n, shown);
      var d1 := d0[pf := d0[pf] + 1];
      TallyLast(ls, n, shown);
      SumBump(d0, pf, d1);
      SumBump(d1, pt, Tally(ls, n, shown));
    }
  }

  lemma {:induction false} SumZero(n: nat)
    ensures Sum(seq(n, i => 0)) == 0
  {
    if n > 0 {
      assert seq(n, i => 0)[..n - 1] == seq(n - 1, i => 0);
      SumZero(n - 1);
    }
  }

  /** The `forEach` over the shown notes that pushes their edges. */
  method CollectEdges(ns: seq<Note>, graph: map<string, Linking.Entry>, dir: Direction, shown: map<string, nat>)
    returns (links: seq<Edge>)
    requires shown == NodeMap(ns)
    ensures links == Edges(ns, graph, dir)
  {
    var f := NoteEdges(graph, dir, shown);
    links := [];
    for i := 0 to |ns|
      invariant links == FlatMap(ns[..i], f)
    {
      assert ns[..i + 1] == ns[..i] + [ns[i]];
      FlatMapSnoc(ns[..i], ns[i], f);
      var n := ns[i];
      if n.id in graph {
        var g := graph[n.id];
        var more := PushEdges(n.id, if dir == Out then g.mentions else g.backlinks, dir, shown);
        links := links + more;
      }
    }
    assert ns[..|ns|] == ns;
  }

  /** The `forEach` over one entry's mentions or backlinks that pushes an edge for each one
      that is shown. */
  method PushEdges(id: string, others: seq<string>, dir: Direction, shown: map<string, nat>)
    returns (more: seq<Edge>)
    ensures more == FilterMap(others, if dir == Out then OutEdge(id, shown) else InEdge(id, shown))
  {
    var f := if dir == Out then OutEdge(id, shown) else InEdge(id, shown);
    more := [];
    for k := 0 to |others|
      invariant more == FilterMap(others[..k], f)
    {
      assert others[..k + 1] == others[..k] + [others[k]];
      FilterMapSnoc(others[..k], others[k], f);
      var t := others[k];
      if t in shown {
        more := more + [if dir == Out then Edge(id, t, Out) else Edge(t, id, In)];
      }
    }
    assert others[..|others|] == others;
  }

  // ---------------------------------------------------------------------------------------
  // The related set of the active note.

  /** The ids the panel highlights: none when focusing is off or no note is active (an
      absent id is `""`), otherwise the active id, then its mentions, then its backlinks,
      each once, in the order a `Set` keeps them. */
  function Related(focusActive: bool, activeNoteId: string, graph: map<string, Linking.Entry>): Option<seq<string>> {
    if !focusActive || activeNoteId == [] then None
    else if activeNoteId in graph then
      Some(Dedup([activeNoteId] + graph[activeNoteId].mentions + graph[activeNoteId].backlinks))
    else Some([activeNoteId])
  }

  /** The related set: present exactly when focusing is on and a note is active; it starts
      with the active id, holds each id once, and holds exactly the active id and the ids
      among its mentions and backlinks. */
  lemma RelatedSpec(focusActive: bool, activeNoteId: string, graph: map<string, Linking.Entry>)
    ensures Related(focusActive, activeNoteId, graph).Some? <==> focusActive && activeNoteId != []
    ensures Related(focusActive, activeNoteId, graph).Some? ==>
      var r := Related(focusActive, activeNoteId, graph).value;
      r != [] && r[0] == activeNoteId && Distinct(r) &&
      forall x :: x in r <==>
        x == activeNoteId ||
        (activeNoteId in graph &&
         (x in graph[activeNoteId].mentions || x in graph[activeNoteId].backlinks))
  {
    if focusActive && activeNoteId != [] && activeNoteId in graph {
      var g := graph[activeNoteId];
      var xs := [activeNoteId] + g.mentions + g.backlinks;
      DedupSpec(xs);
      DedupHead(xs);
    }
  }

  /** The first element added to a `Set` is listed first. */
  lemma {:induction false} DedupHead<T>(xs: seq<T>)
    requires xs != []
    ensures Dedup(xs) != [] && Dedup(xs)[0] == xs[0]
  {
    if |xs| > 1 {
      var init := xs[..|xs| - 1];
      DedupHead(init);
      assert init[0] == xs[0];
      DedupSnoc(init, xs[|xs| - 1]);
    } else {
      assert xs == [] + [xs[0]];
      DedupSnoc([], xs[0]);
    }
  }

  /** `activeSet`: the id, then each mention and each backlink is added to a `Set`. */
  method ActiveSet(focusActive: bool, activeNoteId: string, graph: map<string, Linking.Entry>)
    returns (r: Option<seq<string>>)
    ensures r == Related(focusActive, activeNoteId, graph)
  {
    if !focusActive || activeNoteId == [] {
      return None;
    }
    var related := [activeNoteId];
    assert related == Dedup([activeNoteId]) by {
      DedupSnoc([], activeNoteId);
    }
    if activeNoteId in graph {
      var g := graph[activeNoteId];
      related := AddAll(related, [activeNoteId], g.mentions);
      related := AddAll(related, [activeNoteId] + g.mentions, g.backlinks);
    }
    return Some(related);
  }

  /** Adding each of `xs` to a `Set` that holds `before`. */
  method AddAll(members: seq<string>, ghost before: seq<string>, xs: seq<string>) returns (r: seq<string>)
    requires members == Dedup(before)
    ensures r == Dedup(before + xs)
  {
    r := members;
    assert before + xs[..0] == before;
    for k := 0 to |xs|
      invariant r == Dedup(before + xs[..k])
    {
      assert before + xs[..k + 1] == (before + xs[..k]) + [xs[k]];
      DedupSnoc(before + xs[..k], xs[k]);
      if xs[k] !in r {
        r := r + [xs[k]];
      }
    }
    assert xs[..|xs|] == xs;
  }

  // ---------------------------------------------------------------------------------------
  // The view over the graph that `buildLinkGraph` built.

  /** Over the link graph of the notes, both directions draw the same pairs: a shown note
      `a` mentions a shown note `b` exactly when `a` is among the backlinks of `b`. */
  lemma DirectionsAgree(notes: seq<Note>, ns: seq<Note>, from: string, to: string)
    ensures var graph := Linking.LinkGraph(notes).entries;
      Edge(from, to, Out) in Edges(ns, graph, Out) <==> Edge(from, to, In) in Edges(ns, graph, In)
  {
    var graph := Linking.LinkGraph(notes).entries;
    EdgesSpec(ns, graph, Out, Edge(from, to, Out));
    EdgesSpec(ns, graph, In, Edge(from, to, In));
    if from in graph && to in graph[from].mentions {
      Linking.LinkGraphMentionsAreNodes(notes, from, to);
    }
    if to in graph {
      Linking.LinkGraphBacklinks(notes, to, from);
    }
  }

  /** Over the link graph of the notes, the related set of an active note holds, besides
      the note, exactly the notes it mentions and the notes that mention it. */
  lemma RelatedOfLinkGraph(notes: seq<Note>, activeNoteId: string, x: string)
    requires activeNoteId != []
    ensures var graph := Linking.LinkGraph(notes).entries;
      var r := Related(true, activeNoteId, graph).value;
      x in r <==>
        x == activeNoteId ||
        (activeNoteId in graph &&
         (x in graph[activeNoteId].mentions || (x in graph && activeNoteId in graph[x].mentions)))
  {
    var graph := Linking.LinkGraph(notes).entries;
    RelatedSpec(true, activeNoteId, graph);
    if activeNoteId in graph {
      Linking.LinkGraphBacklinks(notes, activeNoteId, x);
    }
  }
}
