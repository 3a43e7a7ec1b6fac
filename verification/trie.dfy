/**
 * A character trie. Every TrieNode holds one character and a lazily
 * created map from the next character to the child node; the TrieCache
 * holds the map of first characters. Words are not terminated, so the
 * trie records which character sequences have been inserted as prefixes.
 *
 * Strings are sequences of characters; a Java null string or null node is
 * `None`, and the children map left null until the first child is added
 * is `children == None`.
 */
module Trie {
  import opened Wrappers

  class TrieNode {
    const character: char
    var children: Option<map<char, TrieNode>>

    /** The private constructor and TrieNode.create(char): a childless node. */
    constructor (c: char)
      ensures character == c && children == None
    {
      character := c;
      children := None;
    }

    /** getCharacter: the character the node holds. */
    function GetCharacter(): (r: char)
      ensures r == character
    {
      character
    }

    /** getChildNodes: a snapshot of the children, empty (never null) before the first child. */
    function GetChildNodes(): (r: map<char, TrieNode>)
      reads this
      ensures children.None? ==> r == map[]
      ensures children.Some? ==> r == children.value
    {
      if children.None? then map[] else children.value
    }

    /** getChildNode: the child under `c`, null when there is no map yet or no such key. */
    function GetChildNode(c: char): (r: Option<TrieNode>)
      reads this
      ensures r.Some? <==> children.Some? && c in children.value
      ensures r.Some? ==> r.value == children.value[c]
    {
      if children.None? then None
      else if c in children.value then Some(children.value[c])
      else None
    }

    /**
     * addChildNode: create the children map if needed, then store a fresh
     * childless node under `c`, replacing any earlier child for `c`.
     */
    method AddChildNode(c: char) returns (node: TrieNode)
      modifies this
      ensures fresh(node) && node.character == c && node.children == None
      ensures children == Some(old(GetChildNodes())[c := node])
    {
      if children.None? {
        children := Some(map[]);
      }
      node := new TrieNode(c);
      children := Some(children.value[c := node]);
    }

    /**
     * parseSuffix: the longest run of nodes below this one whose keys spell
     * a prefix of the suffix; null for a null suffix.
     */
    method ParseSuffix(suffix: Option<string>) returns (r: Option<seq<TrieNode>>)
      ensures r.None? <==> suffix.None?
      ensures r.Some? ==> IsPath(this, suffix.value, r.value) && Maximal(this, suffix.value, r.value)
      decreases if suffix.Some? then |suffix.value| else 0
    {
      if suffix.None? {
        return None;
      }
      var s := suffix.value;
      var nodes: seq<TrieNode> := [];
      if |s| > 0 {
        var child := GetChildNode(s[0]);
        if child.Some? {
          nodes := [child.value];
          if |s| > 1 {
            var rest := child.value.ParseSuffix(Some(s[1..]));
            PathPrepend(this, child.value, s, rest.value);
            nodes := nodes + rest.value;
          }
        }
      }
      return Some(nodes);
    }

    /**
     * TrieNode.create(String): one node per character, each the only child
     * of the one before it; an empty list for "" and null for null.
     */
    static method CreateChain(suffix: Option<string>) returns (r: Option<seq<TrieNode>>)
      ensures r.None? <==> suffix.None?
      ensures r.Some? ==> |r.value| == |suffix.value|
      ensures r.Some? ==> forall k :: 0 <= k < |r.value| ==> fresh(r.value[k]) && r.value[k].character == suffix.value[k]
      ensures r.Some? ==> forall k :: 0 <= k < |r.value| - 1 ==>
        r.value[k].children == Some(map[suffix.value[k + 1] := r.value[k + 1]])
      ensures r.Some? && |r.value| > 0 ==> r.value[|r.value| - 1].children == None
      ensures r.Some? ==> forall j, k :: 0 <= j < k < |r.value| ==> r.value[j] != r.value[k]
    {
      if suffix.None? {
        return None;
      }
      var s := suffix.value;
      var nodes: seq<TrieNode> := [];
      if |s| > 0 {
        var node := new TrieNode(s[0]);
        nodes := [node];
        for index := 1 to |s|
          invariant |nodes| == index && node == nodes[index - 1] && node.children == None
          invariant forall k :: 0 <= k < index ==> fresh(nodes[k]) && nodes[k].character == s[k]
          invariant forall j, k :: 0 <= j < k < index ==> nodes[j] != nodes[k]
          invariant forall k :: 0 <= k < index - 1 ==> nodes[k].children == Some(map[s[k + 1] := nodes[k + 1]])
        {
          node := node.AddChildNode(s[index]);
          nodes := nodes + [node];
        }
      }
      return Some(nodes);
    }
  }

  /** The node a path step starts from: the start node, then each node of the path in turn. */
  function Prev(start: TrieNode, p: seq<TrieNode>, k: nat): TrieNode
    requires k <= |p|
  {
    if k == 0 then start else p[k - 1]
  }

  /** `p` is a walk down from `start` whose child keys spell a prefix of `s`. */
  ghost predicate IsPath(start: TrieNode, s: string, p: seq<TrieNode>)
    reads start, p
  {
    |p| <= |s| &&
    forall k | 0 <= k < |p| :: Prev(start, p, k).GetChildNode(s[k]) == Some(p[k])
  }

  /** The walk cannot be extended: it covers all of `s`, or its last node has no child for the next character. */
  ghost predicate Maximal(start: TrieNode, s: string, p: seq<TrieNode>)
    requires |p| <= |s|
    reads start, p
  {
    |p| == |s| || Prev(start, p, |p|).GetChildNode(s[|p|]).None?
  }

  /** A walk from `child` along s[1..] extends to a walk from its parent along s. */
  lemma PathPrepend(parent: TrieNode, child: TrieNode, s: string, rest: seq<TrieNode>)
    requires |s| > 0 && parent.GetChildNode(s[0]) == Some(child)
    requires IsPath(child, s[1..], rest) && Maximal(child, s[1..], rest)
    ensures IsPath(parent, s, [child] + rest) && Maximal(parent, s, [child] + rest)
  {
    var p := [child] + rest;
    forall k | 0 <= k < |p|
      ensures Prev(parent, p, k).GetChildNode(s[k]) == Some(p[k])
    {
      if k > 0 {
        assert Prev(parent, p, k) == Prev(child, rest, k - 1);
        assert s[k] == s[1..][k - 1];
      }
    }
    assert Prev(parent, p, |p|) == Prev(child, rest, |rest|);
  }

  /** Child maps only gain entries: every key of `before` maps to the same node in `after`. */
  predicate Grows(before: Option<map<char, TrieNode>>, after: Option<map<char, TrieNode>>) {
    before.Some? ==> after.Some? && forall c | c in before.value :: c in after.value && after.value[c] == before.value[c]
  }

  /** The nodes of `repr` have their children inside `repr`, each stored under its own character. */
  ghost predicate Closed(repr: set<TrieNode>)
    reads repr
  {
    forall n | n in repr :: n.children.Some? ==>
      forall c | c in n.children.value :: n.children.value[c] in repr && n.children.value[c].character == c
  }

  /** Walks stay inside a closed set of nodes, and node k of a walk holds s[k]. */
  lemma {:induction false} PathSpells(start: TrieNode, s: string, p: seq<TrieNode>, repr: set<TrieNode>)
    requires start in repr && Closed(repr) && IsPath(start, s, p)
    ensures forall k :: 0 <= k < |p| ==> p[k] in repr && p[k].character == s[k]
  {
    if |p| > 0 {
      var n := |p| - 1;
      assert IsPath(start, s, p[..n]) by {
        forall k | 0 <= k < n
          ensures Prev(start, p[..n], k).GetChildNode(s[k]) == Some(p[..n][k])
        {
          assert Prev(start, p[..n], k) == Prev(start, p, k);
        }
      }
      PathSpells(start, s, p[..n], repr);
      assert forall k :: 0 <= k < n ==> p[k] == p[..n][k];
      assert Prev(start, p, n) in repr;
      assert Prev(start, p, n).GetChildNode(s[n]) == Some(p[n]);
    }
  }

  /** Walks are determined by the keys: two walks along the same string agree on their common length. */
  lemma {:induction false} PathUnique(start: TrieNode, s: string, p: seq<TrieNode>, q: seq<TrieNode>)
    requires IsPath(start, s, p) && IsPath(start, s, q) && |p| <= |q|
    ensures p == q[..|p|]
  {
    if |p| > 0 {
      var n := |p| - 1;
      assert IsPath(start, s, p[..n]) by {
        forall k | 0 <= k < n
          ensures Prev(start, p[..n], k).GetChildNode(s[k]) == Some(p[..n][k])
        {
          assert Prev(start, p[..n], k) == Prev(start, p, k);
        }
      }
      PathUnique(start, s, p[..n], q);
      assert Prev(start, p, n) == Prev(start, q, n);
      assert p == p[..n] + [p[n]];
    }
  }

  /** The longest walk from `start` along `s` inside a closed set of nodes. */
  ghost function Walk(start: TrieNode, s: string, repr: set<TrieNode>): (p: seq<TrieNode>)
    requires start in repr && Closed(repr)
    reads repr
    ensures |p| <= |s|
    decreases |s|
  {
    if |s| == 0 then []
    else
      match start.GetChildNode(s[0])
      case None => []
      case Some(child) => [child] + Walk(child, s[1..], repr)
  }

  /** Walk is the maximal walk, and it covers all of `s` exactly when some walk does. */
  lemma {:induction false} WalkIsMaximal(start: TrieNode, s: string, repr: set<TrieNode>)
    requires start in repr && Closed(repr)
    ensures IsPath(start, s, Walk(start, s, repr)) && Maximal(start, s, Walk(start, s, repr))
    decreases |s|
  {
    if |s| > 0 && start.GetChildNode(s[0]).Some? {
      var child := start.GetChildNode(s[0]).value;
      WalkIsMaximal(child, s[1..], repr);
      PathPrepend(start, child, s, Walk(child, s[1..], repr));
    }
  }

  /** Any walk covering all of `s` is the maximal one. */
  lemma FullPathIsWalk(start: TrieNode, s: string, q: seq<TrieNode>, repr: set<TrieNode>)
    requires start in repr && Closed(repr) && IsPath(start, s, q) && |q| == |s|
    ensures Walk(start, s, repr) == q
  {
    var p := Walk(start, s, repr);
    WalkIsMaximal(start, s, repr);
    PathUnique(start, s, p, q);
  }

  /**
   * Giving the last node of a path a fresh child for the next character
   * extends the path by that child: the earlier steps keep their children.
   */
  twostate lemma AppendExtendsPath(new start: TrieNode, new s: string, path: seq<TrieNode>, new last: TrieNode, new child: TrieNode, new kids: map<char, TrieNode>)
    requires old(allocated(start)) && |path| < |s| && old(IsPath(start, s, path)) && last == Prev(start, path, |path|)
    requires old(last.GetChildNodes()) == kids && s[|path|] !in kids && last.children == Some(kids[s[|path|] := child])
    requires forall n: TrieNode | old(allocated(n)) && n != last :: n.children == old(n.children)
    ensures IsPath(start, s, path + [child])
  {
    var p := path + [child];
    forall k | 0 <= k < |p|
      ensures Prev(start, p, k).GetChildNode(s[k]) == Some(p[k])
    {
      if k < |path| {
        var m := Prev(start, path, k);
        assert Prev(start, p, k) == m && p[k] == path[k];
        assert old(m.GetChildNode(s[k])) == Some(path[k]);
        if m == last {
          assert s[k] in kids && kids[s[k]] == path[k];
        }
      } else {
        assert Prev(start, p, k) == last && p[k] == child;
      }
    }
  }

  /**
   * Giving one node of a closed set a fresh, childless child keeps the set,
   * with the child added, closed, and every node keeps the children it had.
   */
  twostate lemma AppendKeepsClosed(repr: set<TrieNode>, new last: TrieNode, new child: TrieNode, new kids: map<char, TrieNode>)
    requires old(Closed(repr)) && last in repr && old(last.GetChildNodes()) == kids && child.character !in kids
    requires last.children == Some(kids[child.character := child]) && child.children == None
    requires forall n | n in repr && n != last :: n.children == old(n.children)
    ensures Closed(repr + {child})
    ensures forall n | n in repr :: Grows(old(n.children), n.children)
  {
    forall n | n in repr + {child} && n.children.Some?
      ensures forall d | d in n.children.value :: n.children.value[d] in repr + {child} && n.children.value[d].character == d
    {
      if n == last {
        assert n.children.value == kids[child.character := child];
      } else {
        assert n in repr && n.children == old(n.children);
      }
    }
  }

  /** `chain` is a fresh-built chain spelling `w`: each node holds the next as its only child. */
  ghost predicate Chain(chain: seq<TrieNode>, w: string)
    reads chain
  {
    |chain| == |w| > 0 &&
    (forall k | 0 <= k < |chain| :: chain[k].character == w[k]) &&
    (forall k | 0 <= k < |chain| - 1 :: chain[k].children == Some(map[w[k + 1] := chain[k + 1]])) &&
    chain[|chain| - 1].children == None
  }

  /** The chain grown past the first `from` nodes of a full path, named by slices. */
  lemma ChainOfTail(path: seq<TrieNode>, from: nat, s: string)
    requires from < |path| == |s| && Chain(Tail(path, from), s[from..|s|])
    ensures Chain(path[from..], s[from..])
  {
    assert Tail(path, from) == path[from..] && s[from..|s|] == s[from..];
  }

  /** A chain spelling the rest of w[1..] past k spells the rest of w past k + 1. */
  lemma ChainOfSuffix(chain: seq<TrieNode>, w: string, k: nat)
    requires k < |w| - 1 && Chain(chain, w[1..][k..])
    ensures Chain(chain, w[k + 1..])
  {
    assert w[1..][k..] == w[k + 1..];
  }

  /** Adding a chain to a closed set keeps it closed. */
  lemma ChainKeepsClosed(repr: set<TrieNode>, chain: seq<TrieNode>, w: string)
    requires Closed(repr) && Chain(chain, w)
    ensures Closed(repr + set n | n in chain)
  {
    var all := repr + set n | n in chain;
    forall n | n in all && n.children.Some?
      ensures forall c | c in n.children.value :: n.children.value[c] in all && n.children.value[c].character == c
    {
      if n !in repr {
        var k :| 0 <= k < |chain| && chain[k] == n;
        assert k < |chain| - 1;
        assert n.children.value == map[w[k + 1] := chain[k + 1]];
      }
    }
  }

  /** A chain is a path from its first node along the rest of the word. */
  lemma ChainIsPath(chain: seq<TrieNode>, w: string)
    requires Chain(chain, w)
    ensures IsPath(chain[0], w[1..], chain[1..])
  {
    forall k | 0 <= k < |chain[1..]|
      ensures Prev(chain[0], chain[1..], k).GetChildNode(w[1..][k]) == Some(chain[1..][k])
    {
      assert Prev(chain[0], chain[1..], k) == chain[k];
    }
  }

  /** Each root entry is a node of the closed set `repr`, stored under its own character. */
  ghost predicate RootsValid(root: map<char, TrieNode>, repr: set<TrieNode>)
    reads repr
  {
    (forall c | c in root :: root[c] in repr && root[c].character == c) && Closed(repr)
  }

  /** `w` is spelled from `root`: the walk along w[1..] from the node for w[0] goes all the way. */
  ghost predicate StoredIn(root: map<char, TrieNode>, repr: set<TrieNode>, w: string)
    reads repr
  {
    RootsValid(root, repr) && |w| > 0 && w[0] in root && |Walk(root[w[0]], w[1..], repr)| == |w| - 1
  }

  /** Attaching a chain of new nodes under a new first character stores the word and adds |w| nodes. */
  lemma AttachStores(root: map<char, TrieNode>, repr: set<TrieNode>, chain: seq<TrieNode>, w: string)
    requires RootsValid(root, repr) && Chain(chain, w) && w[0] !in root
    requires forall k | 0 <= k < |chain| :: chain[k] !in repr
    requires forall j, k :: 0 <= j < k < |chain| ==> chain[j] != chain[k]
    ensures StoredIn(root[w[0] := chain[0]], repr + Nodes(chain), w)
    ensures |(repr + Nodes(chain)) - repr| == |w|
    ensures Walk(chain[0], w[1..], repr + Nodes(chain)) == chain[1..]
  {
    var added := set n | n in chain;
    NodesAreElements(chain);
    ChainKeepsClosed(repr, chain, w);
    DistinctCount(chain);
    assert (repr + added) - repr == added;
    ChainIsPath(chain, w);
    FullPathIsWalk(chain[0], w[1..], chain[1..], repr + added);
  }

  /** A maximal walk is the reference walk: parseSuffix finds exactly the walk Walk describes. */
  lemma MaximalPathIsWalk(start: TrieNode, s: string, p: seq<TrieNode>, repr: set<TrieNode>)
    requires start in repr && Closed(repr) && |p| <= |s| && IsPath(start, s, p) && Maximal(start, s, p)
    ensures p == Walk(start, s, repr)
  {
    var q := Walk(start, s, repr);
    WalkIsMaximal(start, s, repr);
    if |q| < |p| {
      PathUnique(start, s, q, p);
      assert false;
    }
    PathUnique(start, s, p, q);
    if |p| < |q| {
      assert false;
    }
  }

  /** The nodes a sequence of nodes passes through. */
  ghost function Nodes(p: seq<TrieNode>): set<TrieNode>
  {
    if |p| == 0 then {} else Nodes(p[..|p| - 1]) + {p[|p| - 1]}
  }

  /** The nodes a walk gained past its first `from` positions. */
  function Tail(p: seq<TrieNode>, from: nat): seq<TrieNode>
  {
    if from <= |p| then p[from..] else []
  }

  /** No node occurs twice in `p`. */
  ghost predicate Distinct(p: seq<TrieNode>) {
    |p| == 0 || (Distinct(p[..|p| - 1]) && p[|p| - 1] !in Nodes(p[..|p| - 1]))
  }

  /** `grown` is `base` plus the nodes of `t`, each new and none repeated. */
  ghost predicate Grown(base: set<TrieNode>, grown: set<TrieNode>, t: seq<TrieNode>) {
    grown == base + Nodes(t) && Distinct(t) && Nodes(t) !! base
  }

  /** Appending a node from outside a grown set extends the tail by that node. */
  lemma GrownStep(base: set<TrieNode>, grown: set<TrieNode>, path: seq<TrieNode>, from: nat, child: TrieNode)
    requires from <= |path| && Grown(base, grown, Tail(path, from)) && child !in grown
    ensures Grown(base, grown + {child}, Tail(path + [child], from))
  {
    var t := (path + [child])[from..];
    assert t[..|t| - 1] == path[from..];
  }

  /** A grown set gains exactly as many nodes as its tail is long. */
  lemma {:induction false} GrownCount(base: set<TrieNode>, grown: set<TrieNode>, t: seq<TrieNode>)
    requires Grown(base, grown, t)
    ensures grown - base == Nodes(t) && |grown - base| == |t|
  {
    assert grown - base == Nodes(t);
    DistinctNodes(t);
  }

  lemma {:induction false} DistinctNodes(t: seq<TrieNode>)
    requires Distinct(t)
    ensures |Nodes(t)| == |t|
  {
    if |t| > 0 {
      DistinctNodes(t[..|t| - 1]);
    }
  }

  /** The children of a node as a map, empty when it has none yet. */
  function ChildMap(children: Option<map<char, TrieNode>>): map<char, TrieNode>
  {
    if children.Some? then children.value else map[]
  }

  /** Growing is transitive. */
  lemma GrowsTrans(a: Option<map<char, TrieNode>>, b: Option<map<char, TrieNode>>, c: Option<map<char, TrieNode>>)
    requires Grows(a, b) && (b == c || Grows(b, c))
    ensures Grows(a, c)
  {
  }

  /** Appending a node to a path keeps its first `from` nodes. */
  lemma AppendKeepsPrefix(path: seq<TrieNode>, from: nat, child: TrieNode)
    requires from <= |path|
    ensures (path + [child])[..from] == path[..from]
  {
  }

  /** Nodes that kept their children, and one node that only gained some, all grew. */
  twostate lemma FrameGrows(new repr: set<TrieNode>, new end: TrieNode)
    requires old(allocated(end)) && forall n | n in repr :: old(allocated(n))
    requires forall n | n in repr && n != end :: n.children == old(n.children)
    requires Grows(old(end.children), end.children)
    ensures forall n | n in repr :: Grows(old(n.children), n.children)
  {
  }

  /** Every node of a sequence is among its nodes. */
  lemma {:induction false} InNodes(p: seq<TrieNode>, k: nat)
    requires k < |p|
    ensures p[k] in Nodes(p)
  {
    if k < |p| - 1 {
      InNodes(p[..|p| - 1], k);
    }
  }

  /** Nodes is the set of elements of the sequence. */
  lemma {:induction false} NodesAreElements(p: seq<TrieNode>)
    ensures Nodes(p) == set n | n in p
  {
    if |p| > 0 {
      NodesAreElements(p[..|p| - 1]);
      assert p == p[..|p| - 1] + [p[|p| - 1]];
    }
  }

  /** Every node among the nodes of a sequence occurs in it. */
  lemma {:induction false} NodesOccur(p: seq<TrieNode>)
    ensures forall n | n in Nodes(p) :: n in p
  {
    if |p| > 0 {
      NodesOccur(p[..|p| - 1]);
    }
  }

  /** In a sequence without repeats the last node occurs nowhere earlier. */
  lemma DistinctLast(t: seq<TrieNode>)
    requires Distinct(t) && |t| > 0
    ensures forall k | 0 <= k < |t| - 1 :: t[k] != t[|t| - 1]
  {
    forall k | 0 <= k < |t| - 1
      ensures t[k] != t[|t| - 1]
    {
      InNodes(t[..|t| - 1], k);
    }
  }

  /** One step of growing a branch from `end`: the first step gives `end` its new entry, later ones leave it alone. */
  twostate lemma EndStep(new start: TrieNode, new s: string, path: seq<TrieNode>, new from: nat,
                         new end: TrieNode, new endKids: map<char, TrieNode>, new last: TrieNode, new child: TrieNode)
    requires old(allocated(end)) && from <= |path| < |s| && last == Prev(start, path, |path|)
    requires |path| == from ==> last == end && old(end.GetChildNodes()) == endKids
    requires |path| > from ==> end != last && old(end.children) == Some(endKids[s[from] := path[from]])
    requires end != last ==> end.children == old(end.children)
    requires last.children == Some(old(last.GetChildNodes())[s[|path|] := child])
    ensures end.children == Some(endKids[s[from] := (path + [child])[from]])
  {
  }

  /** One step of growing a branch: the chain below `end` gains `child` at its foot. */
  twostate lemma ChainStep(new start: TrieNode, new s: string, path: seq<TrieNode>, new from: nat,
                           new last: TrieNode, new child: TrieNode)
    requires old(allocated(last)) && from <= |path| < |s| && last == Prev(start, path, |path|) && Distinct(Tail(path, from))
    requires |path| > from ==> old(Chain(Tail(path, from), s[from..|path|]))
    requires forall n: TrieNode | old(allocated(n)) && n != last :: n.children == old(n.children)
    requires last.children == Some(old(last.GetChildNodes())[s[|path|] := child])
    requires child.character == s[|path|] && child.children == None
    ensures Chain(Tail(path + [child], from), s[from..|path + [child]|])
  {
    var tail, w := path[from..], s[from..|path| + 1];
    TailStep(path, from, s, child);
    if |tail| > 0 {
      ChainGrows(tail, w, child);
    }
  }

  /** The tail and the word it spells, one step on. */
  lemma TailStep(path: seq<TrieNode>, from: nat, s: string, child: TrieNode)
    requires from <= |path| < |s|
    ensures Tail(path, from) == path[from..] && Tail(path + [child], from) == path[from..] + [child]
    ensures |s[from..|path| + 1]| == |path| - from + 1 && s[from..|path| + 1][|path| - from] == s[|path|]
    ensures from < |path| ==> s[from..|path| + 1][..|path| - from] == s[from..|path|] && path[from..][|path| - from - 1] == path[|path| - 1]
  {
    assert (path + [child])[from..] == path[from..] + [child];
  }

  /** A chain whose last node gained exactly one child, the rest unchanged, is a chain one longer. */
  twostate lemma ChainGrows(t: seq<TrieNode>, new w: string, new child: TrieNode)
    requires |w| == |t| + 1 && old(Chain(t, w[..|t|])) && Distinct(t)
    requires forall n: TrieNode | old(allocated(n)) && n != t[|t| - 1] :: n.children == old(n.children)
    requires t[|t| - 1].children == Some(map[w[|t|] := child])
    requires child.character == w[|t|] && child.children == None
    ensures Chain(t + [child], w)
  {
    DistinctLast(t);
  }

  class TrieCache {
    var root: map<char, TrieNode>
    /** Every node reachable from the root map. */
    ghost var Repr: set<TrieNode>

    ghost predicate Valid()
      reads this, Repr
    {
      RootsValid(root, Repr)
    }

    /** `w` is spelled by the walk from the root map: the walk along w[1..] from the node for w[0] goes all the way. */
    ghost predicate Stored(w: string)
      reads this, Repr
    {
      StoredIn(root, Repr, w)
    }

    /** The nodes below the root entry for w[0] that already spell a prefix of w[1..]. */
    ghost function Matched(w: string): seq<TrieNode>
      requires Valid() && |w| > 0 && w[0] in root
      reads this, Repr
    {
      Walk(root[w[0]], w[1..], Repr)
    }

    /** The node where the existing branch for w stops matching. */
    ghost function BranchEnd(w: string): TrieNode
      requires Valid() && |w| > 0 && w[0] in root
      reads this, Repr
    {
      Prev(root[w[0]], Matched(w), |Matched(w)|)
    }

    /** A chain hung under the root entry for w[0] is that entry followed by the walk along w[1..]. */
    lemma MatchedIsChain(w: string, chain: seq<TrieNode>)
      requires Valid() && |w| > 0 && w[0] in root && |chain| == |w| && root[w[0]] == chain[0]
      requires Walk(chain[0], w[1..], Repr) == chain[1..]
      ensures [root[w[0]]] + Matched(w) == chain
    {
    }

    /** TrieCache.create: an empty root map. */
    constructor ()
      ensures root == map[] && Repr == {} && Valid()
    {
      root := map[];
      Repr := {};
    }

    /**
     * insertWord: nothing for null or "". Otherwise, when the first
     * character is new, a fresh chain for the whole word is attached to the
     * root; when it is known, the existing branch is followed as far as it
     * matches (parseSuffix) and a chain of fresh nodes is grown from where
     * the match ends.
     */
    method InsertWord(word: Option<string>)
      requires Valid()
      modifies this, Repr
      ensures Valid()
      ensures old(Repr) <= Repr && fresh(Repr - old(Repr))
      ensures word.None? || word == Some("") ==> root == old(root) && Repr == old(Repr) && unchanged(Repr)
      ensures word.Some? && |word.value| > 0 ==> Stored(word.value)
      ensures forall c | c in old(root) :: c in root && root[c] == old(root)[c]
      ensures word.Some? && |word.value| > 0 ==> root.Keys == old(root).Keys + {word.value[0]}
      ensures forall n | n in old(Repr) :: Grows(old(n.children), n.children)
      ensures word.Some? && |word.value| > 0 && word.value[0] !in old(root) ==>
        fresh(root[word.value[0]]) && |Repr - old(Repr)| == |word.value| && unchanged(old(Repr))
      ensures word.Some? && |word.value| > 0 && word.value[0] !in old(root) ==>
        var chain := [root[word.value[0]]] + Matched(word.value);
        Chain(chain, word.value) && Repr == old(Repr) + Nodes(chain)
      ensures word.Some? && |word.value| > 0 && word.value[0] in old(root) ==>
        var before, after := old(Matched(word.value)), Matched(word.value);
        after[..|before|] == before && Repr == old(Repr) + Nodes(after[|before|..]) &&
        |Repr - old(Repr)| == |word.value| - 1 - |before|
      ensures word.Some? && |word.value| > 0 && word.value[0] in old(root) ==>
        forall n | n in old(Repr) && n != old(BranchEnd(word.value)) :: n.children == old(n.children)
      ensures word.Some? && |word.value| > 0 && word.value[0] in old(root) ==>
        var before, after := old(Matched(word.value)), Matched(word.value);
        |before| < |word.value| - 1 ==>
          old(BranchEnd(word.value)).children ==
            Some(old(BranchEnd(word.value).GetChildNodes())[word.value[|before| + 1] := after[|before|]]) &&
          Chain(after[|before|..], word.value[|before| + 1..])
      ensures word.Some? && old(Stored(word.value)) ==> root == old(root) && Repr == old(Repr) && unchanged(Repr)
    {
      if word.None? || |word.value| == 0 {
        return;
      }
      var w := word.value;
      if w[0] !in root {
        ghost var chain := AttachChain(w);
        MatchedIsChain(w, chain);
      } else {
        ghost var matched, path := ExtendBranch(w);
      }
    }

    /** The first character is new to the root: attach a fresh chain spelling the whole word. */
    method AttachChain(w: string) returns (ghost chain: seq<TrieNode>)
      requires Valid() && |w| > 0 && w[0] !in root
      modifies this
      ensures Valid() && Stored(w)
      ensures old(Repr) <= Repr && fresh(Repr - old(Repr)) && |Repr - old(Repr)| == |w|
      ensures fresh(root[w[0]]) && root == old(root)[w[0] := root[w[0]]]
      ensures Chain(chain, w) && root[w[0]] == chain[0] && Repr == old(Repr) + Nodes(chain)
      ensures Walk(chain[0], w[1..], Repr) == chain[1..]
    {
      var nodes := TrieNode.CreateChain(Some(w));
      var attached := nodes.value;
      HangChain(attached, w);
      NodesOccur(attached);
      chain := attached;
    }

    /** Hang a chain of nodes from outside the trie under the new root entry w[0]. */
    method HangChain(attached: seq<TrieNode>, w: string)
      requires Valid() && |w| > 0 && w[0] !in root && Chain(attached, w)
      requires forall k | 0 <= k < |attached| :: attached[k] !in Repr
      requires forall j, k :: 0 <= j < k < |attached| ==> attached[j] != attached[k]
      modifies this
      ensures Valid() && root == old(root)[w[0] := attached[0]] && Repr == old(Repr) + Nodes(attached)
      ensures Chain(attached, w)
      ensures |Repr - old(Repr)| == |w| && attached[0] in Repr && Walk(attached[0], w[1..], Repr) == attached[1..]
    {
      AttachStores(root, Repr, attached, w);
      root := root[w[0] := attached[0]];
      Repr := Repr + Nodes(attached);
    }

    /**
     * The first character is known: keep its root entry, follow the branch
     * as far as it matches, then grow fresh nodes from the last match.
     */
    method ExtendBranch(w: string) returns (ghost matched: seq<TrieNode>, ghost path: seq<TrieNode>)
      requires Valid() && |w| > 0 && w[0] in root
      modifies this, Repr
      ensures Valid() && Stored(w) && root == old(root)
      ensures matched == old(Matched(w)) && path == Matched(w) && path[..|matched|] == matched
      ensures Repr == old(Repr) + Nodes(path[|matched|..])
      ensures fresh(Repr - old(Repr)) && |Repr - old(Repr)| == |w| - 1 - |matched|
      ensures forall n | n in old(Repr) && n != old(BranchEnd(w)) :: n.children == old(n.children)
      ensures forall n | n in old(Repr) :: Grows(old(n.children), n.children)
      ensures old(Stored(w)) ==> Repr == old(Repr) && unchanged(Repr)
      ensures |matched| < |w| - 1 ==>
        old(BranchEnd(w)).children == Some(old(BranchEnd(w).GetChildNodes())[w[|matched| + 1] := path[|matched|]])
      ensures |matched| < |w| - 1 ==> Chain(path[|matched|..], w[|matched| + 1..])
    {
      var node, parsed := MatchBranch(w);
      assert unchanged(Repr);
      assert old(Stored(w)) ==> |parsed| == |w| - 1;
      matched := parsed;
      path := GrowBranch(node, w[1..], parsed);
      FullPathIsWalk(node, w[1..], path, Repr);
      assert Matched(w) == path;
      if |parsed| < |w| - 1 {
        ChainOfSuffix(path[|parsed|..], w, |parsed|);
      }
    }

    /**
     * The matching half of insertWord's second branch: re-put the root entry
     * for w[0], then follow the branch below it as far as it spells w[1..].
     */
    method MatchBranch(w: string) returns (node: TrieNode, parsed: seq<TrieNode>)
      requires Valid() && |w| > 0 && w[0] in root
      modifies this
      ensures Valid() && root == old(root) && Repr == old(Repr) && node == root[w[0]]
      ensures parsed == Matched(w) && parsed == old(Matched(w))
      ensures |parsed| <= |w| - 1 && IsPath(node, w[1..], parsed) && Maximal(node, w[1..], parsed)
      ensures forall k | 0 <= k < |parsed| :: parsed[k] in Repr
    {
      node := root[w[0]];
      root := root[w[0] := node];
      assert root == old(root);
      parsed := [];
      if |w| > 1 {
        var rest := node.ParseSuffix(Some(w[1..]));
        parsed := rest.value;
      }
      assert IsPath(node, w[1..], parsed) && Maximal(node, w[1..], parsed);
      PathSpells(node, w[1..], parsed, Repr);
      MaximalPathIsWalk(node, w[1..], parsed, Repr);
    }

    /**
     * The growing loop of insertWord: from the last node of a maximal walk
     * along `s`, add one fresh child per remaining character.
     */
    method GrowBranch(node: TrieNode, s: string, parsed: seq<TrieNode>) returns (ghost path: seq<TrieNode>)
      requires Valid() && node in Repr && forall k | 0 <= k < |parsed| :: parsed[k] in Repr
      requires |parsed| <= |s| && IsPath(node, s, parsed) && Maximal(node, s, parsed)
      modifies this, Repr
      ensures Valid() && root == old(root) && |path| == |s| && IsPath(node, s, path)
      ensures path[..|parsed|] == parsed
      ensures Repr == old(Repr) + Nodes(path[|parsed|..])
      ensures fresh(Repr - old(Repr)) && |Repr - old(Repr)| == |s| - |parsed|
      ensures forall n | n in old(Repr) && n != Prev(node, parsed, |parsed|) :: n.children == old(n.children)
      ensures forall n | n in old(Repr) :: Grows(old(n.children), n.children)
      ensures |parsed| == |s| ==> Repr == old(Repr) && unchanged(Repr)
      ensures |parsed| < |s| ==>
        var end := Prev(node, parsed, |parsed|);
        end.children == Some(old(end.GetChildNodes())[s[|parsed|] := path[|parsed|]])
      ensures |parsed| < |s| ==> Chain(path[|parsed|..], s[|parsed|..])
    {
      var end := Prev(node, parsed, |parsed|);
      ghost var kids := map n | n in Repr :: n.children;
      path := GrowLoop(node, s, parsed, end, kids);
      GrownCount(old(Repr), Repr, Tail(path, |parsed|));
      assert forall n | n in old(Repr) :: kids[n] == old(n.children);
      FrameGrows(old(Repr), end);
      if |parsed| < |s| {
        ChainOfTail(path, |parsed|, s);
      }
    }

    /** The loop itself, with the account it keeps of what it has added and what it left unchanged. */
    method GrowLoop(node: TrieNode, s: string, parsed: seq<TrieNode>, end: TrieNode,
                    ghost kids: map<TrieNode, Option<map<char, TrieNode>>>)
      returns (ghost path: seq<TrieNode>)
      requires Valid() && node in Repr && forall k | 0 <= k < |parsed| :: parsed[k] in Repr
      requires |parsed| <= |s| && IsPath(node, s, parsed) && Maximal(node, s, parsed)
      requires end == Prev(node, parsed, |parsed|) && forall n | n in Repr :: n in kids && kids[n] == n.children
      modifies this, Repr
      ensures Valid() && root == old(root) && |path| == |s| && IsPath(node, s, path) && path[..|parsed|] == parsed
      ensures fresh(Repr - old(Repr)) && Grown(old(Repr), Repr, Tail(path, |parsed|))
      ensures forall n | n in old(Repr) && n != end :: n.children == kids[n]
      ensures Grows(kids[end], end.children)
      ensures |parsed| == |s| ==> Repr == old(Repr) && unchanged(Repr)
      ensures |parsed| < |s| ==>
        end.children == Some(ChildMap(kids[end])[s[|parsed|] := path[|parsed|]]) &&
        Chain(Tail(path, |parsed|), s[|parsed|..|s|])
    {
      var lastNode := end;
      assert end in old(Repr) && kids[end] == old(end.children);
      path := parsed;
      for index := |parsed| to |s|
        invariant |path| == index && lastNode == Prev(node, path, |path|)
        invariant IsPath(node, s, path) && path[..|parsed|] == parsed
        invariant index < |s| ==> lastNode.GetChildNode(s[index]).None?
        invariant root == old(root) && Valid() && lastNode in Repr && fresh(Repr - old(Repr))
        invariant Grown(old(Repr), Repr, Tail(path, |parsed|))
        invariant lastNode == end || lastNode !in old(Repr)
        invariant forall n | n in old(Repr) && n != end :: n.children == kids[n]
        invariant Grows(kids[end], end.children)
        invariant index == |parsed| ==> Repr == old(Repr) && unchanged(Repr) && lastNode == end
        invariant index > |parsed| ==>
          end.children == Some(ChildMap(kids[end])[s[|parsed|] := path[|parsed|]]) &&
          Chain(Tail(path, |parsed|), s[|parsed|..|path|])
      {
        lastNode, path := GrowStep(node, s, parsed, path, old(Repr), end, kids, lastNode, s[index]);
      }
    }

    /**
     * The body of the growing loop: one appended child, with the account
     * of what the loop has added so far and of what it left unchanged.
     */
    method GrowStep(ghost start: TrieNode, ghost s: string, ghost parsed: seq<TrieNode>, ghost path: seq<TrieNode>,
                       ghost base: set<TrieNode>, ghost end: TrieNode, ghost kids: map<TrieNode, Option<map<char, TrieNode>>>,
                       lastNode: TrieNode, c: char)
      returns (child: TrieNode, ghost grown: seq<TrieNode>)
      requires Valid() && start in Repr && lastNode in Repr
      requires |parsed| <= |path| < |s| && IsPath(start, s, path) && lastNode == Prev(start, path, |path|)
      requires c == s[|path|] && lastNode.GetChildNode(c).None?
      requires Grown(base, Repr, Tail(path, |parsed|)) && (lastNode == end || lastNode !in base)
      requires end in kids && forall n | n in base && n != end :: n in kids && n.children == kids[n]
      requires Grows(kids[end], end.children) && end in base
      requires |path| == |parsed| ==> lastNode == end && end.children == kids[end]
      requires |path| > |parsed| ==>
        end.children == Some(ChildMap(kids[end])[s[|parsed|] := path[|parsed|]]) &&
        Chain(Tail(path, |parsed|), s[|parsed|..|path|])
      modifies this, lastNode
      ensures Valid() && root == old(root) && Repr == old(Repr) + {child}
      ensures fresh(child) && child.children == None
      ensures grown == path + [child] && grown[..|parsed|] == path[..|parsed|] && child == Prev(start, grown, |grown|)
      ensures IsPath(start, s, grown)
      ensures Grown(base, Repr, Tail(grown, |parsed|))
      ensures forall n | n in base && n != end :: n.children == kids[n]
      ensures Grows(kids[end], end.children)
      ensures end.children == Some(ChildMap(kids[end])[s[|parsed|] := grown[|parsed|]])
      ensures Chain(Tail(grown, |parsed|), s[|parsed|..|grown|])
    {
      ghost var endKids := end.children;
      child, grown := AppendChild(start, s, path, |parsed|, end, ChildMap(kids[end]), lastNode, c);
      GrownStep(base, old(Repr), path, |parsed|, child);
      GrowsTrans(kids[end], endKids, end.children);
      AppendKeepsPrefix(path, |parsed|, child);
    }

    /**
     * One step of the growing loop: the last node of a walk that cannot be
     * extended gets a fresh child for the next character.
     */
    method AppendChild(ghost start: TrieNode, ghost s: string, ghost path: seq<TrieNode>, ghost from: nat,
                          ghost end: TrieNode, ghost endKids: map<char, TrieNode>, lastNode: TrieNode, c: char)
      returns (child: TrieNode, ghost grown: seq<TrieNode>)
      requires Valid() && start in Repr && lastNode in Repr && lastNode.GetChildNode(c).None?
      requires from <= |path| < |s| && IsPath(start, s, path) && lastNode == Prev(start, path, |path|) && c == s[|path|]
      requires Distinct(Tail(path, from))
      requires |path| == from ==> lastNode == end && end.GetChildNodes() == endKids
      requires |path| > from ==>
        end != lastNode && end.children == Some(endKids[s[from] := path[from]]) &&
        Chain(Tail(path, from), s[from..|path|])
      modifies this, lastNode
      ensures Valid() && root == old(root) && Repr == old(Repr) + {child}
      ensures fresh(child) && child.children == None && grown == path + [child]
      ensures IsPath(start, s, grown)
      ensures forall n | n in old(Repr) :: Grows(old(n.children), n.children)
      ensures end.children == Some(endKids[s[from] := grown[from]])
      ensures Chain(Tail(grown, from), s[from..|grown|])
    {
      ghost var kids := lastNode.GetChildNodes();
      child := AddLeaf(lastNode, c);
      AppendExtendsPath(start, s, path, lastNode, child, kids);
      EndStep(start, s, path, from, end, endKids, lastNode, child);
      ChainStep(start, s, path, from, lastNode, child);
      grown := path + [child];
    }

    /** addChildNode on a node of the trie: the trie stays closed and gains the fresh child. */
    method AddLeaf(lastNode: TrieNode, c: char) returns (child: TrieNode)
      requires Valid() && lastNode in Repr && lastNode.GetChildNode(c).None?
      modifies this, lastNode
      ensures Valid() && root == old(root) && Repr == old(Repr) + {child}
      ensures fresh(child) && child.character == c && child.children == None
      ensures lastNode.children == Some(old(lastNode.GetChildNodes())[c := child])
      ensures forall n | n in old(Repr) :: Grows(old(n.children), n.children)
    {
      ghost var kids := lastNode.GetChildNodes();
      child := lastNode.AddChildNode(c);
      AppendKeepsClosed(Repr, lastNode, child, kids);
      Repr := Repr + {child};
    }

    /** removeWord: not implemented; the trie is left as it is. */
    method RemoveWord(word: Option<string>)
      ensures root == old(root) && Repr == old(Repr)
    {
    }

    /** parseWord: not implemented; always null. */
    function ParseWord(word: Option<string>): (r: Option<seq<TrieNode>>)
      ensures r == None
    {
      None
    }
  }

  /** A sequence of pairwise distinct nodes holds as many nodes as it has positions. */
  lemma {:induction false} DistinctCount(s: seq<TrieNode>)
    requires forall j, k :: 0 <= j < k < |s| ==> s[j] != s[k]
    ensures |set n | n in s| == |s|
  {
    if |s| > 0 {
      var t := s[..|s| - 1];
      DistinctCount(t);
      assert (set n | n in s) == (set n | n in t) + {s[|s| - 1]};
    }
  }
}
