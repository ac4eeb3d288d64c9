/** The byte trie that finds the longest configured needle at an offset in one walk. */
module NeedleTrie {
  import opened Bytes
  import opened SecretPolicy

  const MASKED_PREFIX_LENGTH := 4

  datatype NeedleRef = NeedleRef(secret: nat, kind: Kind)

  datatype MaskedPrefix = MaskedPrefix(prefix: bytes, secret: nat)

  // --- what a trie built from a list of needles answers ---

  /** The needles equal to path, in insertion order. */
  function RefsAt(needles: seq<Needle>, path: bytes): seq<NeedleRef> {
    if needles == [] then []
    else
      var last := needles[|needles| - 1];
      RefsAt(needles[..|needles| - 1], path) + if last.text == path then [NeedleRef(last.secret, last.kind)] else []
  }

  /** The secrets whose masked prefix is path, in insertion order. */
  function MasksAt(masks: seq<MaskedPrefix>, path: bytes): seq<nat> {
    if masks == [] then []
    else
      var last := masks[|masks| - 1];
      MasksAt(masks[..|masks| - 1], path) + if last.prefix == path then [last.secret] else []
  }

  /** The secret of the first acceptable ref. */
  function FirstAccepted(refs: seq<NeedleRef>, select: Selection): Option<nat> {
    if refs == [] then None
    else if Accepts(select, refs[0].secret, refs[0].kind) then Some(refs[0].secret)
    else FirstAccepted(refs[1..], select)
  }

  datatype Found = Found(length: nat, secret: nat)

  /** The longest acceptable needle among the prefixes of data of length at most n. */
  function LongestUpTo(needles: seq<Needle>, select: Selection, data: bytes, n: nat): (f: Found)
    requires n <= |data|
    ensures f.length <= n
  {
    if n == 0 then Found(0, 0)
    else
      var hit := FirstAccepted(RefsAt(needles, data[..n]), select);
      if hit.Some? then Found(n, hit.value) else LongestUpTo(needles, select, data, n - 1)
  }

  function MaskedCandidates(masks: seq<MaskedPrefix>, data: bytes): seq<nat> {
    if |data| < MASKED_PREFIX_LENGTH then [] else MasksAt(masks, data[..MASKED_PREFIX_LENGTH])
  }

  // --- facts about those answers ---

  lemma {:induction false} RefsAtAbsent(needles: seq<Needle>, path: bytes)
    requires forall n :: n in needles ==> n.text != path
    ensures RefsAt(needles, path) == []
  {
    if needles != [] {
      RefsAtAbsent(needles[..|needles| - 1], path);
    }
  }

  lemma RefsAdded(needles: seq<Needle>, n: Needle)
    ensures forall path :: RefsAt(needles + [n], path) ==
                           RefsAt(needles, path) + (if n.text == path then [NeedleRef(n.secret, n.kind)] else [])
  {
    assert (needles + [n])[..|needles|] == needles;
  }

  lemma MasksAdded(masks: seq<MaskedPrefix>, m: MaskedPrefix)
    ensures forall path :: MasksAt(masks + [m], path) ==
              MasksAt(masks, path) + (if m.prefix == path then [m.secret] else [])
  {
    assert (masks + [m])[..|masks|] == masks;
  }

  lemma {:induction false} MasksAtAbsent(masks: seq<MaskedPrefix>, path: bytes)
    requires forall m :: m in masks ==> m.prefix != path
    ensures MasksAt(masks, path) == []
  {
    if masks != [] {
      MasksAtAbsent(masks[..|masks| - 1], path);
    }
  }

  lemma {:induction false} LongestStops(needles: seq<Needle>, select: Selection, data: bytes, from: nat, to: nat)
    requires from <= to <= |data|
    requires forall k :: from < k <= to ==> RefsAt(needles, data[..k]) == []
    ensures LongestUpTo(needles, select, data, to) == LongestUpTo(needles, select, data, from)
  {
    if from < to {
      LongestStops(needles, select, data, from, to - 1);
      assert RefsAt(needles, data[..to]) == [];
    }
  }

  // --- the mutable tree ---

  datatype TrieEdge = TrieEdge(symbol: byte, next: TrieNode)

  /** The node the first edge with this symbol leads to. */
  function EdgeTo(edges: seq<TrieEdge>, symbol: byte): TrieNode? {
    if edges == [] then null
    else if edges[0].symbol == symbol then edges[0].next
    else EdgeTo(edges[1..], symbol)
  }

  class TrieNode {
    const depth: nat
    var edges: seq<TrieEdge>
    var refs: seq<NeedleRef>
    var masked: seq<nat>
    /** The byte string that leads here from the root table. */
    ghost const path: bytes

    constructor (ghost path: bytes, depth: nat)
      ensures this.path == path && this.depth == depth
      ensures edges == [] && refs == [] && masked == []
    {
      this.path, this.depth := path, depth;
      edges, refs, masked := [], [], [];
    }

    /**
     * This node is the one at its path and as deep as that is long; its edges
     * lead to the nodes one symbol further; it lists exactly the needles and
     * masked prefixes that end here, in insertion order.
     */
    ghost predicate Holds(nodes: map<bytes, TrieNode>, needles: seq<Needle>, masks: seq<MaskedPrefix>)
      reads this
    {
      && path in nodes && nodes[path] == this
      && depth == |path|
      && EdgesLead(edges, path, nodes)
      && refs == RefsAt(needles, path)
      && masked == MasksAt(masks, path)
    }

    /** The secret of the first ref the selection accepts. */
    method FirstRef(select: Selection) returns (hit: Option<nat>)
      ensures hit == FirstAccepted(refs, select)
    {
      for i := 0 to |refs|
        invariant FirstAccepted(refs, select) == FirstAccepted(refs[i..], select)
      {
        if Accepts(select, refs[i].secret, refs[i].kind) {
          return Some(refs[i].secret);
        }
      }
      return None;
    }

    /** The node the edge with this symbol leads to. */
    method Child(symbol: byte) returns (next: TrieNode?)
      ensures next == EdgeTo(edges, symbol)
    {
      for i := 0 to |edges|
        invariant EdgeTo(edges, symbol) == EdgeTo(edges[i..], symbol)
      {
        if edges[i].symbol == symbol {
          return edges[i].next;
        }
      }
      return null;
    }
  }

  // --- the shape of the tree, as a map from paths to nodes ---

  /** Siblings have distinct symbols. */
  ghost predicate DistinctSymbols(edges: seq<TrieEdge>) {
    forall i, j :: 0 <= i < j < |edges| ==> edges[i].symbol != edges[j].symbol
  }

  /** The edges of the node at path lead exactly to the nodes one symbol further. */
  ghost predicate EdgesLead(edges: seq<TrieEdge>, path: bytes, nodes: map<bytes, TrieNode>) {
    && DistinctSymbols(edges)
    && forall b: byte :: EdgeTo(edges, b) == if path + [b] in nodes then nodes[path + [b]] else null
  }

  /** No path is empty, and each is one symbol longer than another or of length one. */
  ghost predicate Closed(nodes: map<bytes, TrieNode>) {
    && [] !in nodes
    && forall p :: p in nodes && |p| > 1 ==> p[..|p| - 1] in nodes
  }

  /** The root table holds the nodes of depth one. */
  ghost predicate Rooted(root: seq<TrieNode?>, nodes: map<bytes, TrieNode>) {
    && |root| == 256
    && forall b: byte :: root[b as int] == if [b] in nodes then nodes[[b]] else null
  }

  /** Every needle and every masked prefix has its node. */
  ghost predicate Indexed(nodes: map<bytes, TrieNode>, needles: seq<Needle>, masks: seq<MaskedPrefix>) {
    && (forall n :: n in needles && n.text != [] ==> n.text in nodes)
    && (forall m :: m in masks ==> |m.prefix| == MASKED_PREFIX_LENGTH && m.prefix in nodes)
  }

  /** Some needle or masked prefix starts with path. */
  ghost predicate Spelled(path: bytes, needles: seq<Needle>, masks: seq<MaskedPrefix>) {
    (exists n :: n in needles && path <= n.text) || (exists m :: m in masks && path <= m.prefix)
  }

  ghost predicate AllSpelled(paths: set<bytes>, needles: seq<Needle>, masks: seq<MaskedPrefix>) {
    forall p :: p in paths ==> Spelled(p, needles, masks)
  }

  /** The first n prefixes of s that are not empty. */
  ghost function Prefixes(s: bytes, n: nat): set<bytes>
    requires n <= |s|
  {
    set k | 1 <= k <= n :: s[..k]
  }

  lemma PrefixesGrow(s: bytes, n: nat)
    requires n < |s|
    ensures Prefixes(s, n + 1) == Prefixes(s, n) + {s[..n + 1]}
  {
    assert forall p :: p in Prefixes(s, n) ==> p in Prefixes(s, n + 1);
  }

  lemma NeedleSpells(paths: set<bytes>, needles: seq<Needle>, masks: seq<MaskedPrefix>, n: Needle)
    ensures AllSpelled(paths, needles, masks) ==> AllSpelled(paths + Prefixes(n.text, |n.text|), needles + [n], masks)
  {
    if AllSpelled(paths, needles, masks) {
      assert n in needles + [n] && forall x :: x in needles ==> x in needles + [n];
      forall p | p in paths ensures Spelled(p, needles + [n], masks) {
        assert Spelled(p, needles, masks);
      }
    }
  }

  lemma MaskSpells(paths: set<bytes>, needles: seq<Needle>, masks: seq<MaskedPrefix>, m: MaskedPrefix)
    ensures AllSpelled(paths, needles, masks) ==>
              AllSpelled(paths + Prefixes(m.prefix, |m.prefix|), needles, masks + [m])
  {
    if AllSpelled(paths, needles, masks) {
      assert m in masks + [m] && forall x :: x in masks ==> x in masks + [m];
      forall p | p in paths ensures Spelled(p, needles, masks + [m]) {
        assert Spelled(p, needles, masks);
      }
    }
  }

  lemma NoPrefixes(s: bytes)
    ensures Prefixes(s, 0) == {}
  {
  }

  ghost predicate Extends(before: map<bytes, TrieNode>, after: map<bytes, TrieNode>) {
    forall p :: p in before ==> p in after && after[p] == before[p]
  }

  lemma {:induction false} EdgeToAppended(edges: seq<TrieEdge>, e: TrieEdge, symbol: byte)
    ensures EdgeTo(edges + [e], symbol) ==
      if EdgeTo(edges, symbol) == null && e.symbol == symbol then e.next else EdgeTo(edges, symbol)
  {
    if edges != [] {
      EdgeToAppended(edges[1..], e, symbol);
      assert (edges + [e])[1..] == edges[1..] + [e];
    }
  }

  lemma {:induction false} NoEdge(edges: seq<TrieEdge>, symbol: byte)
    requires EdgeTo(edges, symbol) == null
    ensures forall e :: e in edges ==> e.symbol != symbol
  {
    if edges != [] {
      NoEdge(edges[1..], symbol);
    }
  }

  lemma ExtendedPath(path: bytes, symbol: byte, other: bytes, b: byte)
    ensures path + [symbol] == other + [b] <==> path == other && symbol == b
  {
    if path + [symbol] == other + [b] {
      assert (path + [symbol])[..|path|] == path && (other + [b])[..|other|] == other;
      assert (path + [symbol])[|path|] == symbol && (other + [b])[|other|] == b;
    }
  }

  lemma EdgeAdded(edges: seq<TrieEdge>, path: bytes, nodes: map<bytes, TrieNode>, symbol: byte, next: TrieNode)
    requires EdgesLead(edges, path, nodes) && path + [symbol] !in nodes
    ensures EdgesLead(edges + [TrieEdge(symbol, next)], path, nodes[path + [symbol] := next])
  {
    NoEdge(edges, symbol);
    var grown, longer := edges + [TrieEdge(symbol, next)], nodes[path + [symbol] := next];
    forall b: byte ensures EdgeTo(grown, b) == if path + [b] in longer then longer[path + [b]] else null {
      EdgeToAppended(edges, TrieEdge(symbol, next), b);
      ExtendedPath(path, symbol, path, b);
    }
  }

  /** A new leaf concerns the edges of its parent only. */
  lemma EdgesElsewhere(nodes: map<bytes, TrieNode>, path: bytes, symbol: byte, next: TrieNode)
    ensures forall edges, other :: EdgesLead(edges, other, nodes) && other != path ==>
              EdgesLead(edges, other, nodes[path + [symbol] := next])
  {
    forall edges, other | EdgesLead(edges, other, nodes) && other != path
      ensures EdgesLead(edges, other, nodes[path + [symbol] := next])
    {
      forall b: byte ensures other + [b] != path + [symbol] {
        ExtendedPath(path, symbol, other, b);
      }
    }
  }

  lemma EdgesOfLeaf(nodes: map<bytes, TrieNode>, leaf: bytes, next: TrieNode)
    requires Closed(nodes) && leaf !in nodes && leaf != []
    ensures EdgesLead([], leaf, nodes[leaf := next])
  {
    forall b: byte ensures leaf + [b] !in nodes[leaf := next] {
      assert (leaf + [b])[..|leaf + [b]| - 1] == leaf;
    }
  }

  /** Adding a node below another one. */
  lemma Grown(nodes: map<bytes, TrieNode>, root: seq<TrieNode?>, needles: seq<Needle>, masks: seq<MaskedPrefix>,
              path: bytes, symbol: byte, next: TrieNode)
    requires Closed(nodes) && Rooted(root, nodes) && Indexed(nodes, needles, masks) && path in nodes
             && path + [symbol] !in nodes
    ensures var after := nodes[path + [symbol] := next];
            && Closed(after) && Rooted(root, after) && Indexed(after, needles, masks) && Extends(nodes, after)
            && EdgesLead([], path + [symbol], after)
    ensures RefsAt(needles, path + [symbol]) == [] && MasksAt(masks, path + [symbol]) == []
  {
    var leaf := path + [symbol];
    assert leaf[..|leaf| - 1] == path && |leaf| > 1;
    forall b: byte ensures [b] != leaf {
      assert |[b]| != |leaf|;
    }
    EdgesOfLeaf(nodes, leaf, next);
    RefsAtAbsent(needles, leaf);
    MasksAtAbsent(masks, leaf);
  }

  /** Adding a node to the root table. */
  lemma Planted(nodes: map<bytes, TrieNode>, root: seq<TrieNode?>, needles: seq<Needle>, masks: seq<MaskedPrefix>,
                symbol: byte, next: TrieNode)
    requires Closed(nodes) && Rooted(root, nodes) && Indexed(nodes, needles, masks) && [symbol] !in nodes
    ensures var after := nodes[[symbol] := next];
            && Closed(after) && Rooted(root[symbol as int := next], after) && Indexed(after, needles, masks)
               && Extends(nodes, after)
            && EdgesLead([], [symbol], after)
            && [] !in nodes
            && (forall edges, other :: EdgesLead(edges, other, nodes) && other != [] ==> EdgesLead(edges, other, after))
    ensures RefsAt(needles, [symbol]) == [] && MasksAt(masks, [symbol]) == []
  {
    EdgesOfLeaf(nodes, [symbol], next);
    EdgesElsewhere(nodes, [], symbol, next);
    assert [] + [symbol] == [symbol];
    RefsAtAbsent(needles, [symbol]);
    MasksAtAbsent(masks, [symbol]);
  }

  class Trie {
    const root: array<TrieNode?>
    /** The nodes by the byte string that leads to them. */
    ghost var nodes: map<bytes, TrieNode>
    ghost var repr: set<TrieNode>
    /** The needles and masked prefixes added so far. */
    ghost var needles: seq<Needle>
    ghost var masks: seq<MaskedPrefix>

    /** The node graph is a tree that lists every needle and every masked prefix at its own path. */
    ghost predicate Valid()
      reads this, root, repr
    {
      && Closed(nodes) && Rooted(root[..], nodes) && Indexed(nodes, needles, masks)
      && (forall p :: p in nodes ==> nodes[p] in repr && nodes[p].path == p)
      && (forall n :: n in repr ==> n.Holds(nodes, needles, masks))
    }

    /** No node is there in vain. */
    ghost predicate Lean()
      reads this
    {
      AllSpelled(nodes.Keys, needles, masks)
    }

    constructor ()
      ensures Valid() && Lean() && needles == [] && masks == [] && nodes == map[]
      ensures fresh(root) && repr == {}
    {
      root := new TrieNode?[256](_ => null);
      nodes, repr, needles, masks := map[], {}, [], [];
    }

    lemma RootAt(symbol: byte)
      requires Rooted(root[..], nodes)
      ensures root.Length == 256
      ensures root[symbol as int] == if [symbol] in nodes then nodes[[symbol]] else null
    {
      assert root[..][symbol as int] == root[symbol as int];
    }

    lemma ChildAt(node: TrieNode, symbol: byte)
      requires EdgesLead(node.edges, node.path, nodes)
      ensures EdgeTo(node.edges, symbol) == if node.path + [symbol] in nodes then nodes[node.path + [symbol]] else null
    {
    }

    /** Hangs a new leaf under a node. */
    method Grow(node: TrieNode, symbol: byte) returns (next: TrieNode)
      requires Valid() && node in repr && node.path + [symbol] !in nodes
      modifies this`nodes, this`repr, node`edges
      ensures Valid() && fresh(next) && repr == old(repr) + {next}
      ensures next.path == node.path + [symbol] && Extends(old(nodes), nodes)
      ensures nodes.Keys == old(nodes).Keys + {node.path + [symbol]}
    {
      hide Closed, Rooted, Indexed, EdgesLead, Extends, RefsAt, MasksAt;
      ghost var path, leaf := node.path, node.path + [symbol];
      next := new TrieNode(leaf, node.depth + 1);
      Grown(nodes, root[..], needles, masks, path, symbol, next);
      EdgesElsewhere(nodes, path, symbol, next);
      EdgeAdded(node.edges, path, nodes, symbol, next);
      node.edges := node.edges + [TrieEdge(symbol, next)];
      nodes, repr := nodes[leaf := next], repr + {next};
    }

    /** Puts a new node of depth one into the root table. */
    method Plant(symbol: byte) returns (node: TrieNode)
      requires Valid() && [symbol] !in nodes
      modifies this`nodes, this`repr, root
      ensures Valid() && fresh(node) && repr == old(repr) + {node}
      ensures node.path == [symbol] && Extends(old(nodes), nodes) && nodes.Keys == old(nodes).Keys + {[symbol]}
    {
      hide Closed, Rooted, Indexed, EdgesLead, Extends, RefsAt, MasksAt;
      node := new TrieNode([symbol], 1);
      RootAt(symbol);
      Planted(nodes, root[..], needles, masks, symbol, node);
      ghost var table := root[..];
      root[symbol as int] := node;
      assert root[..] == table[symbol as int := node];
      nodes, repr := nodes[[symbol] := node], repr + {node};
      forall n | n in repr ensures n.Holds(nodes, needles, masks) {
        assert n != node ==> old(n.Holds(nodes, needles, masks));
      }
    }

    lemma NotEmptyPaths()
      requires Closed(nodes)
      ensures [] !in nodes
    {
    }

    /** The node of depth one for a symbol, created if missing. */
    method First(symbol: byte) returns (node: TrieNode)
      requires Valid()
      modifies this`nodes, this`repr, root
      ensures Valid() && fresh(repr - old(repr)) && old(repr) <= repr
      ensures node in repr && node.path == [symbol] && Extends(old(nodes), nodes)
      ensures nodes.Keys == old(nodes).Keys + {[symbol]}
    {
      hide Closed, Rooted, Indexed, EdgesLead;
      RootAt(symbol);
      if root[symbol as int] == null {
        node := Plant(symbol);
      } else {
        node := root[symbol as int];
      }
    }

    /** The node one symbol below another one, created if missing. */
    method Next(node: TrieNode, symbol: byte) returns (next: TrieNode)
      requires Valid() && node in repr
      modifies this`nodes, this`repr, node`edges
      ensures Valid() && fresh(repr - old(repr)) && old(repr) <= repr
      ensures next in repr && next.path == node.path + [symbol] && Extends(old(nodes), nodes)
      ensures nodes.Keys == old(nodes).Keys + {node.path + [symbol]}
    {
      hide Closed, Rooted, Indexed, EdgesLead;
      ChildAt(node, symbol);
      var child := node.Child(symbol);
      if child == null {
        next := Grow(node, symbol);
      } else {
        next := child;
      }
    }

    /** The node at the end of needle, created with its missing ancestors if necessary. */
    method WalkTo(needle: bytes) returns (node: TrieNode)
      requires Valid() && needle != []
      modifies this`nodes, this`repr, root, repr
      ensures Valid() && fresh(repr - old(repr)) && old(repr) <= repr
      ensures node in repr && node.path == needle && Extends(old(nodes), nodes)
      ensures nodes.Keys == old(nodes).Keys + Prefixes(needle, |needle|)
    {
      hide Valid, Prefixes;
      node := First(needle[0]);
      TakeOne(needle, 0);
      NoPrefixes(needle);
      PrefixesGrow(needle, 0);
      var i := 1;
      while i < |needle|
        invariant 1 <= i <= |needle|
        invariant Valid() && fresh(repr - old(repr)) && old(repr) <= repr
        invariant node in repr && node.path == needle[..i] && Extends(old(nodes), nodes)
        invariant nodes.Keys == old(nodes).Keys + Prefixes(needle, i)
      {
        TakeOne(needle, i);
        PrefixesGrow(needle, i);
        node := Next(node, needle[i]);
        i := i + 1;
      }
      TakeAll(needle);
    }

    /** Records a needle of a secret; an empty one is ignored. */
    method Add(needle: bytes, secret: nat, kind: Kind)
      requires Valid()
      modifies this, root, repr
      ensures Valid() && fresh(repr - old(repr))
      ensures needles == old(needles) + [Needle(needle, secret, kind)] && masks == old(masks)
      ensures old(Lean()) ==> Lean()
    {
      hide Closed, Rooted, Indexed, EdgesLead, RefsAt, MasksAt, AllSpelled, Prefixes, Extends;
      ghost var n := Needle(needle, secret, kind);
      RefsAdded(needles, n);
      NotEmptyPaths();
      NoPrefixes(needle);
      assert nodes.Keys + {} == nodes.Keys;
      if needle != [] {
        var node := WalkTo(needle);
        NotEmptyPaths();
        node.refs := node.refs + [NeedleRef(secret, kind)];
      }
      IndexedNeedle(n);
      NeedleSpells(old(nodes).Keys, needles, masks, n);
      needles := needles + [n];
    }

    /** The nodes are exactly the beginnings of needles and masked prefixes. */
    lemma NodesAreBeginnings(path: bytes)
      requires Valid() && Lean()
      ensures path in nodes <==> path != [] && Spelled(path, needles, masks)
    {
      hide Rooted, EdgesLead, Spelled;
      NotEmptyPaths();
      if path != [] && Spelled(path, needles, masks) {
        var text := SpelledBy(path);
        if path !in nodes {
          NothingBelow(text, |path|, |text|);
          TakeAll(text);
        }
      }
    }

    lemma SpelledBy(path: bytes) returns (text: bytes)
      requires Indexed(nodes, needles, masks) && path != [] && Spelled(path, needles, masks)
      ensures text in nodes && |path| <= |text| && text[..|path|] == path
    {
      if n :| n in needles && path <= n.text {
        return n.text;
      }
      var m :| m in masks && path <= m.prefix;
      return m.prefix;
    }

    lemma IndexedNeedle(n: Needle)
      requires Indexed(nodes, needles, masks) && (n.text == [] || n.text in nodes)
      ensures Indexed(nodes, needles + [n], masks)
    {
    }

    lemma IndexedMask(m: MaskedPrefix)
      requires Indexed(nodes, needles, masks) && m.prefix in nodes && |m.prefix| == MASKED_PREFIX_LENGTH
      ensures Indexed(nodes, needles, masks + [m])
    {
    }

    /** Records a secret whose masked rendering starts with prefix; candidates stay in order. */
    method AddMaskedPrefix(prefix: bytes, secret: nat)
      requires Valid() && |prefix| == MASKED_PREFIX_LENGTH
      modifies this, root, repr
      ensures Valid() && fresh(repr - old(repr))
      ensures masks == old(masks) + [MaskedPrefix(prefix, secret)] && needles == old(needles)
      ensures old(Lean()) ==> Lean()
    {
      hide Closed, Rooted, Indexed, EdgesLead, RefsAt, MasksAt, AllSpelled, Prefixes, Extends;
      ghost var m := MaskedPrefix(prefix, secret);
      MasksAdded(masks, m);
      MaskSpells(nodes.Keys, needles, masks, m);
      var node := WalkTo(prefix);
      node.masked := node.masked + [secret];
      IndexedMask(m);
      masks := masks + [m];
    }

    /** No needle and no masked prefix starts with a path that has no node. */
    lemma {:induction false} NothingBelow(data: bytes, i: nat, k: nat)
      requires Closed(nodes) && 0 < i <= k <= |data| && data[..i] !in nodes
      ensures data[..k] !in nodes
    {
      if i < k {
        NothingBelow(data, i, k - 1);
        assert |data[..k]| == k && data[..k][..k - 1] == data[..k - 1];
      }
    }

    /** So the walk misses nothing by stopping there. */
    lemma WalkEnds(select: Selection, data: bytes, i: nat)
      requires Closed(nodes) && Indexed(nodes, needles, masks) && i <= |data|
      requires i == |data| || data[..i + 1] !in nodes
      ensures LongestUpTo(needles, select, data, |data|) == LongestUpTo(needles, select, data, i)
      ensures i < MASKED_PREFIX_LENGTH ==> MaskedCandidates(masks, data) == []
    {
      forall k | i < k <= |data|
        ensures RefsAt(needles, data[..k]) == [] && MasksAt(masks, data[..k]) == []
      {
        NothingBelow(data, i + 1, k);
        RefsAtAbsent(needles, data[..k]);
        MasksAtAbsent(masks, data[..k]);
      }
      LongestStops(needles, select, data, i, |data|);
    }

    /** Masked candidates sit only at the depth of a masked prefix. */
    lemma MaskedDepth(path: bytes)
      requires Indexed(nodes, needles, masks)
      ensures MasksAt(masks, path) != [] ==> |path| == MASKED_PREFIX_LENGTH
    {
      if |path| != MASKED_PREFIX_LENGTH {
        MasksAtAbsent(masks, path);
      }
    }

    /**
     * The longest acceptable needle data starts with, by its length and secret,
     * and the candidates for a masked rendering passed on the way.
     */
    method Longest(data: bytes, select: Selection) returns (length: nat, secret: nat, masked: seq<nat>)
      requires Valid() && data != []
      ensures Found(length, secret) == LongestUpTo(needles, select, data, |data|)
      ensures masked == MaskedCandidates(masks, data)
    {
      hide Closed, Rooted, Indexed, EdgesLead, RefsAt, MasksAt;
      length, secret, masked := 0, 0, [];
      TakeOne(data, 0);
      RootAt(data[0]);
      if root[data[0] as int] == null {
        WalkEnds(select, data, 0);
        return;
      }
      var node := root[data[0] as int];
      var i := 1;
      while true
        invariant 1 <= i <= |data| && node in repr && node.path == data[..i]
        invariant Found(length, secret) == LongestUpTo(needles, select, data, i - 1)
        invariant masked == if i <= MASKED_PREFIX_LENGTH then [] else MaskedCandidates(masks, data)
        decreases |data| - i
      {
        MaskedDepth(data[..i]);
        if |node.masked| > 0 {
          masked := node.masked;
        }
        var hit := node.FirstRef(select);
        if hit.Some? {
          length, secret := node.depth, hit.value;
        }
        if i == |data| {
          WalkEnds(select, data, i);
          return;
        }
        TakeOne(data, i);
        ChildAt(node, data[i]);
        var next := node.Child(data[i]);
        if next == null {
          WalkEnds(select, data, i);
          return;
        }
        node := next;
        i := i + 1;
      }
    }
  }
}
