/**
 * The Huffman tree: `HuffNode`, whose `value` is a symbol at a leaf and
 * `None` at an internal node, the root-to-leaf paths the code table is made
 * of, and the forest of nodes that the min-heap holds while the tree is built.
 */
module HuffTree {
  import opened Wrappers
  import opened Collections
  import opened Frequency
  import opened Bits

  /** A `HuffNode`: a leaf holds a symbol, an internal node holds `None` and two children. */
  datatype Node =
    | Leaf(symbol: char, freq: nat)
    | Internal(freq: nat, left: Node, right: Node)

  /** `HuffNode.__lt__`: nodes are ordered by frequency alone. */
  predicate Less(a: Node, b: Node) {
    a.freq < b.freq
  }

  /** Every internal node's frequency is the sum of its children's, as the tree build makes it. */
  predicate WellFormed(t: Node) {
    match t
    case Leaf(_, _) => true
    case Internal(f, l, r) => f == l.freq + r.freq && WellFormed(l) && WellFormed(r)
  }

  /** The (symbol, frequency) pairs of the leaves, left to right. */
  function Leaves(t: Node): seq<(char, nat)> {
    match t
    case Leaf(c, f) => [(c, f)]
    case Internal(_, l, r) => Leaves(l) + Leaves(r)
  }

  /** The symbols of the leaves, left to right. */
  function Symbols(t: Node): seq<char> {
    Firsts(Leaves(t))
  }

  function SumSeconds(ps: seq<(char, nat)>): nat {
    if ps == [] then 0 else ps[0].1 + SumSeconds(ps[1..])
  }

  lemma {:induction false} SumSecondsAppend(a: seq<(char, nat)>, b: seq<(char, nat)>)
    ensures SumSeconds(a + b) == SumSeconds(a) + SumSeconds(b)
  {
    if a == [] {
      assert a + b == b;
    } else {
      assert (a + b)[1..] == a[1..] + b;
      SumSecondsAppend(a[1..], b);
    }
  }

  /** In a well-formed tree the frequency of the root is the sum of the leaf frequencies. */
  lemma {:induction false} FreqIsLeafSum(t: Node)
    requires WellFormed(t)
    ensures t.freq == SumSeconds(Leaves(t))
  {
    match t
    case Leaf(_, _) =>
    case Internal(_, l, r) =>
      FreqIsLeafSum(l);
      FreqIsLeafSum(r);
      SumSecondsAppend(Leaves(l), Leaves(r));
  }

  /** Follow `bits` from `t`: '0' goes to the left child, '1' to the right one. */
  function Walk(t: Node, bits: string): Option<Node>
    decreases |bits|
  {
    if bits == [] then Some(t)
    else
      match t
      case Leaf(_, _) => None
      case Internal(_, l, r) =>
        if bits[0] == '0' then Walk(l, bits[1..])
        else if bits[0] == '1' then Walk(r, bits[1..])
        else None
  }

  /** The symbol of the leaf that `bits` leads to from `t`, if it leads to one. */
  function LeafAt(t: Node, bits: string): Option<char> {
    match Walk(t, bits)
    case Some(Leaf(c, _)) => Some(c)
    case _ => None
  }

  /** Only a string of binary digits can be walked. */
  lemma {:induction false} WalkBits(t: Node, bits: string)
    requires Walk(t, bits).Some?
    ensures IsBits(bits)
    decreases |bits|
  {
    if bits != [] {
      match t
      case Leaf(_, _) =>
      case Internal(_, l, r) =>
        WalkBits(if bits[0] == '0' then l else r, bits[1..]);
        assert bits == [bits[0]] + bits[1..];
    }
  }

  /** Walking `x + y` is walking `x` and then `y` from where `x` ended. */
  lemma {:induction false} WalkAppend(t: Node, x: string, y: string)
    ensures Walk(t, x + y) == if Walk(t, x).Some? then Walk(Walk(t, x).value, y) else None
    decreases |x|
  {
    if x == [] {
      assert x + y == y;
    } else {
      assert (x + y)[0] == x[0] && (x + y)[1..] == x[1..] + y;
      match t
      case Leaf(_, _) =>
      case Internal(_, l, r) =>
        if x[0] == '0' {
          WalkAppend(l, x[1..], y);
        } else if x[0] == '1' {
          WalkAppend(r, x[1..], y);
        }
    }
  }

  /**
   * The (symbol, code) pairs that `__buildCodesHelper(t, bits)` registers, in the order
   * it registers them: depth first, left before right, each leaf with `bits` followed by
   * its path ('0' for left, '1' for right).
   */
  function CodeEntries(t: Node, bits: string): seq<(char, string)> {
    match t
    case Leaf(c, _) => [(c, bits)]
    case Internal(_, l, r) => CodeEntries(l, bits + "0") + CodeEntries(r, bits + "1")
  }

  /** `self.__codes` after the traversal from the root, starting from an empty dictionary. */
  function CodeTable(t: Node): map<char, string> {
    Assign(map[], CodeEntries(t, ""))
  }

  /** `self.__reverseCodes` after the traversal from the root, starting from an empty dictionary. */
  function ReverseTable(t: Node): map<string, char> {
    Assign(map[], Swapped(CodeEntries(t, "")))
  }

  /** Every registered code is `bits` followed by a path from `t` to the leaf of its symbol. */
  lemma {:induction false} EntriesWalk(t: Node, bits: string)
    ensures forall i :: 0 <= i < |CodeEntries(t, bits)| ==>
      var e := CodeEntries(t, bits)[i];
      bits <= e.1 && LeafAt(t, e.1[|bits|..]) == Some(e.0)
  {
    match t
    case Leaf(c, _) =>
    case Internal(_, l, r) =>
      var el: seq<(char, string)> := CodeEntries(l, bits + "0");
      var er: seq<(char, string)> := CodeEntries(r, bits + "1");
      var es: seq<(char, string)> := el + er;
      EntriesWalk(l, bits + "0");
      EntriesWalk(r, bits + "1");
      forall i: nat | i < |es|
        ensures bits <= es[i].1 && LeafAt(t, es[i].1[|bits|..]) == Some(es[i].0)
      {
        var d: string := if i < |el| then "0" else "1";
        var e: (char, string) := es[i];
        var sub: Node := if i < |el| then l else r;
        assert e == if i < |el| then el[i] else er[i - |el|];
        assert bits + d <= e.1 && LeafAt(sub, e.1[|bits| + 1..]) == Some(e.0);
        var w: string := e.1[|bits|..];
        assert w[0] == d[0] && w[1..] == e.1[|bits| + 1..];
        assert Walk(t, w) == Walk(sub, w[1..]);
      }
  }

  /** Every path from `t` to a leaf is registered, after `bits`, with that leaf's symbol. */
  lemma {:induction false} EntriesComplete(t: Node, bits: string, w: string)
    requires LeafAt(t, w).Some?
    ensures (LeafAt(t, w).value, bits + w) in CodeEntries(t, bits)
    decreases |w|
  {
    match t
    case Leaf(c, _) =>
      assert w == [];
      assert bits + w == bits;
    case Internal(_, l, r) =>
      assert w != [];
      var sub, d := if w[0] == '0' then l else r, if w[0] == '0' then "0" else "1";
      assert Walk(t, w) == Walk(sub, w[1..]);
      EntriesComplete(sub, bits + d, w[1..]);
      assert bits + d + w[1..] == bits + w;
  }

  /** The registered symbols are the leaf symbols, in the same order. */
  lemma {:induction false} EntriesSymbols(t: Node, bits: string)
    ensures Firsts(CodeEntries(t, bits)) == Symbols(t)
  {
    match t
    case Leaf(_, _) =>
    case Internal(_, l, r) =>
      EntriesSymbols(l, bits + "0");
      EntriesSymbols(r, bits + "1");
      FirstsAppend(CodeEntries(l, bits + "0"), CodeEntries(r, bits + "1"));
      FirstsAppend(Leaves(l), Leaves(r));
  }

  /** A leaf reached by a walk carries one of the leaf symbols. */
  lemma {:induction false} LeafAtIsSymbol(t: Node, w: string)
    requires LeafAt(t, w).Some?
    ensures LeafAt(t, w).value in Symbols(t)
  {
    EntriesComplete(t, "", w);
    EntriesSymbols(t, "");
    var i :| 0 <= i < |CodeEntries(t, "")| && CodeEntries(t, "")[i] == (LeafAt(t, w).value, "" + w);
    assert Firsts(CodeEntries(t, ""))[i] == LeafAt(t, w).value;
  }

  /** With distinct leaf symbols, at most one path leads to the leaf of a given symbol. */
  lemma {:induction false} UniquePath(t: Node, p: string, q: string)
    requires NoDup(Symbols(t))
    requires LeafAt(t, p).Some? && LeafAt(t, p) == LeafAt(t, q)
    ensures p == q
    decreases |p|
  {
    match t
    case Leaf(_, _) =>
    case Internal(_, l, r) =>
      assert Symbols(t) == Symbols(l) + Symbols(r);
      var sp := if p[0] == '0' then l else r;
      var sq := if q[0] == '0' then l else r;
      assert Walk(t, p) == Walk(sp, p[1..]) && Walk(t, q) == Walk(sq, q[1..]);
      LeafAtIsSymbol(sp, p[1..]);
      LeafAtIsSymbol(sq, q[1..]);
      if p[0] != q[0] {
        SidesDisjoint(t);
        assert false;
      } else {
        assert NoDup(Symbols(sp)) by {
          forall a, b | 0 <= a < |Symbols(sp)| && 0 <= b < |Symbols(sp)| && a != b
            ensures Symbols(sp)[a] != Symbols(sp)[b]
          {
            var off := if sp == l then 0 else |Symbols(l)|;
            assert Symbols(t)[off + a] == Symbols(sp)[a] && Symbols(t)[off + b] == Symbols(sp)[b];
          }
        }
        UniquePath(sp, p[1..], q[1..]);
        assert p == [p[0]] + p[1..] && q == [q[0]] + q[1..];
      }
  }

  /** With distinct leaf symbols, no symbol occurs on both sides of an internal node. */
  lemma SidesDisjoint(t: Node)
    requires NoDup(Symbols(t)) && t.Internal?
    ensures forall c :: c in Symbols(t.left) ==> c !in Symbols(t.right)
  {
    var sl, sr := Symbols(t.left), Symbols(t.right);
    assert Symbols(t) == sl + sr;
    forall i, j | 0 <= i < |sl| && 0 <= j < |sr| ensures sl[i] != sr[j] {
      assert Symbols(t)[i] == sl[i] && Symbols(t)[|sl| + j] == sr[j];
    }
  }

  /** With distinct leaf symbols, each symbol is registered with one code only and each code with one symbol only. */
  lemma EntriesFunctional(t: Node, bits: string)
    requires NoDup(Symbols(t))
    ensures Functional(CodeEntries(t, bits))
    ensures Functional(Swapped(CodeEntries(t, bits)))
  {
    var es := CodeEntries(t, bits);
    EntriesSymbols(t, bits);
    EntriesWalk(t, bits);
    forall i, j | 0 <= i < |es| && 0 <= j < |es| && es[i].0 == es[j].0 ensures es[i].1 == es[j].1 {
      assert Firsts(es)[i] == es[i].0 && Firsts(es)[j] == es[j].0;
    }
    forall i, j | 0 <= i < |es| && 0 <= j < |es| && Swapped(es)[i].0 == Swapped(es)[j].0
      ensures Swapped(es)[i].1 == Swapped(es)[j].1
    {
      assert Swapped(es)[i] == (es[i].1, es[i].0) && Swapped(es)[j] == (es[j].1, es[j].0);
    }
  }

  /** The code table has one entry per leaf symbol, and each code is the path to that symbol's leaf. */
  lemma CodeTablePaths(t: Node)
    requires NoDup(Symbols(t))
    ensures forall c :: c in CodeTable(t) <==> c in Symbols(t)
    ensures forall c :: c in CodeTable(t) ==> LeafAt(t, CodeTable(t)[c]) == Some(c)
  {
    var es := CodeEntries(t, "");
    AssignKeys(map[], es);
    EntriesSymbols(t, "");
    EntriesFunctional(t, "");
    EntriesWalk(t, "");
    forall c | c in CodeTable(t) ensures LeafAt(t, CodeTable(t)[c]) == Some(c) {
      var i :| 0 <= i < |es| && Firsts(es)[i] == c;
      AssignValue(map[], es, i);
      assert es[i].1[0..] == es[i].1;
    }
  }

  /** The reverse table holds exactly the root-to-leaf paths, each mapped to the symbol of its leaf. */
  lemma ReverseTablePaths(t: Node)
    requires NoDup(Symbols(t))
    ensures forall p :: p in ReverseTable(t) <==> LeafAt(t, p).Some?
    ensures forall p :: p in ReverseTable(t) ==> ReverseTable(t)[p] == LeafAt(t, p).value
  {
    var es := CodeEntries(t, "");
    var rs := Swapped(es);
    AssignKeys(map[], rs);
    EntriesFunctional(t, "");
    EntriesWalk(t, "");
    forall p | p in ReverseTable(t) ensures LeafAt(t, p).Some? && ReverseTable(t)[p] == LeafAt(t, p).value {
      var i :| 0 <= i < |rs| && Firsts(rs)[i] == p;
      AssignValue(map[], rs, i);
      assert rs[i] == (es[i].1, es[i].0);
      assert es[i].1[0..] == es[i].1;
    }
    forall p | LeafAt(t, p).Some? ensures p in ReverseTable(t) {
      EntriesComplete(t, "", p);
      assert "" + p == p;
      var i :| 0 <= i < |es| && es[i] == (LeafAt(t, p).value, p);
      assert Firsts(rs)[i] == p;
    }
  }

  /** The two tables are mutual inverses. */
  lemma TablesInverse(t: Node)
    requires NoDup(Symbols(t))
    ensures forall c :: c in CodeTable(t) ==> CodeTable(t)[c] in ReverseTable(t) && ReverseTable(t)[CodeTable(t)[c]] == c
    ensures forall p :: p in ReverseTable(t) ==> ReverseTable(t)[p] in CodeTable(t) && CodeTable(t)[ReverseTable(t)[p]] == p
  {
    CodeTablePaths(t);
    ReverseTablePaths(t);
    forall p | p in ReverseTable(t)
      ensures ReverseTable(t)[p] in CodeTable(t) && CodeTable(t)[ReverseTable(t)[p]] == p
    {
      LeafAtIsSymbol(t, p);
      UniquePath(t, p, CodeTable(t)[ReverseTable(t)[p]]);
    }
  }

  /** No code of the reverse table is a proper prefix of another. */
  lemma ReverseTablePrefixFree(t: Node)
    requires NoDup(Symbols(t))
    ensures forall p, q :: p in ReverseTable(t) && q in ReverseTable(t) ==> !(p < q)
  {
    ReverseTablePaths(t);
    forall p, q | p in ReverseTable(t) && q in ReverseTable(t) ensures !(p < q) {
      if p < q {
        assert q == p + q[|p|..];
        WalkAppend(t, p, q[|p|..]);
      }
    }
  }

  /** Below an internal root every code is non-empty. */
  lemma InternalRootCodesNonEmpty(t: Node)
    requires NoDup(Symbols(t)) && t.Internal?
    ensures "" !in ReverseTable(t)
    ensures forall c :: c in CodeTable(t) ==> CodeTable(t)[c] != ""
  {
    ReverseTablePaths(t);
    CodeTablePaths(t);
  }

  /** A lone leaf as root is given the empty code. */
  lemma LoneLeafCode(t: Node)
    requires t.Leaf?
    ensures CodeTable(t) == map[t.symbol := ""]
    ensures ReverseTable(t) == map["" := t.symbol]
  {
    var es := CodeEntries(t, "");
    assert es == [(t.symbol, "")];
    assert Assign(map[], es) == Assign(map[t.symbol := ""], es[1..]);
    assert Swapped(es) == [("", t.symbol)];
    assert Assign(map[], Swapped(es)) == Assign(map["" := t.symbol], Swapped(es)[1..]);
  }

  // The forest held by the heap while the tree is built.

  /** The sum of the frequencies of the nodes in `h`. */
  function SumFreq(h: seq<Node>): nat {
    if h == [] then 0 else h[0].freq + SumFreq(h[1..])
  }

  /** The leaves of all the trees in `h`, tree by tree. */
  function ForestLeaves(h: seq<Node>): seq<(char, nat)> {
    if h == [] then [] else Leaves(h[0]) + ForestLeaves(h[1..])
  }

  predicate AllWellFormed(h: seq<Node>) {
    forall i :: 0 <= i < |h| ==> WellFormed(h[i])
  }

  lemma {:induction false} ForestAppend(a: seq<Node>, b: seq<Node>)
    ensures SumFreq(a + b) == SumFreq(a) + SumFreq(b)
    ensures ForestLeaves(a + b) == ForestLeaves(a) + ForestLeaves(b)
  {
    if a == [] {
      assert a + b == b;
    } else {
      assert (a + b)[0] == a[0] && (a + b)[1..] == a[1..] + b;
      ForestAppend(a[1..], b);
    }
  }

  /** The heap without its node at `i`: what `heappop` leaves when it returns that node. */
  function Remove(h: seq<Node>, i: nat): (r: seq<Node>)
    requires i < |h|
    ensures |r| == |h| - 1
    ensures forall k :: 0 <= k < |r| ==> r[k] == if k < i then h[k] else h[k + 1]
  {
    h[..i] + h[i + 1..]
  }

  /** The node `__buildTree` makes from the two nodes it popped, first one on the left. */
  function Merge(a: Node, b: Node): Node {
    Internal(a.freq + b.freq, a, b)
  }

  /** Taking the node at `i` out of the forest takes away its frequency and its leaves. */
  lemma ForestRemove(h: seq<Node>, i: nat)
    requires i < |h|
    ensures SumFreq(h) == SumFreq(Remove(h, i)) + h[i].freq
    ensures multiset(ForestLeaves(h)) == multiset(ForestLeaves(Remove(h, i))) + multiset(Leaves(h[i]))
  {
    ForestSplit(h, i);
    RemoveLeaves(ForestLeaves(h[..i]), Leaves(h[i]), ForestLeaves(h[i + 1..]));
  }

  /** The forest around its node at `i`, as sums and as lists of leaves. */
  lemma ForestSplit(h: seq<Node>, i: nat)
    requires i < |h|
    ensures SumFreq(h) == SumFreq(Remove(h, i)) + h[i].freq
    ensures ForestLeaves(h) == ForestLeaves(h[..i]) + Leaves(h[i]) + ForestLeaves(h[i + 1..])
    ensures ForestLeaves(Remove(h, i)) == ForestLeaves(h[..i]) + ForestLeaves(h[i + 1..])
  {
    SplitAt(h, i);
    var a, c := h[..i], h[i + 1..];
    ForestPush(a, h[i]);
    ForestAppend(a + [h[i]], c);
    ForestAppend(a, c);
  }

  lemma SplitAt<T>(h: seq<T>, i: nat)
    requires i < |h|
    ensures h == h[..i] + [h[i]] + h[i + 1..]
  {
  }

  lemma RemoveLeaves(a: seq<(char, nat)>, b: seq<(char, nat)>, c: seq<(char, nat)>)
    ensures multiset(a + b + c) == multiset(a + c) + multiset(b)
  {
  }

  /** Taking a node out of a forest of well-formed trees leaves a forest of well-formed trees. */
  lemma RemoveWellFormed(h: seq<Node>, i: nat)
    requires i < |h| && AllWellFormed(h)
    ensures AllWellFormed(Remove(h, i))
  {
  }

  /** Adding a node to the forest adds its frequency and its leaves. */
  lemma ForestPush(h: seq<Node>, n: Node)
    ensures SumFreq(h + [n]) == SumFreq(h) + n.freq
    ensures ForestLeaves(h + [n]) == ForestLeaves(h) + Leaves(n)
  {
    ForestAppend(h, [n]);
    assert ForestLeaves([n]) == Leaves(n);
  }

  /** Pushing the merge of two nodes adds both nodes' frequencies and leaves to the forest. */
  lemma MergeStep(h: seq<Node>, n1: Node, n2: Node)
    ensures SumFreq(h + [Merge(n1, n2)]) == SumFreq(h) + n1.freq + n2.freq
    ensures multiset(ForestLeaves(h + [Merge(n1, n2)])) == multiset(ForestLeaves(h)) + (multiset(Leaves(n1)) + multiset(Leaves(n2)))
  {
    var n := Merge(n1, n2);
    ForestPush(h, n);
    assert Leaves(n) == Leaves(n1) + Leaves(n2);
  }

  /** Popping two nodes from `h0` (leaving `h1`, then `h2`) and pushing their merge keeps the total frequency and the leaves of `h0`. */
  lemma MergeConserves(h0: seq<Node>, h1: seq<Node>, h2: seq<Node>, n1: Node, n2: Node)
    requires SumFreq(h0) == SumFreq(h1) + n1.freq && SumFreq(h1) == SumFreq(h2) + n2.freq
    requires multiset(ForestLeaves(h0)) == multiset(ForestLeaves(h1)) + multiset(Leaves(n1))
    requires multiset(ForestLeaves(h1)) == multiset(ForestLeaves(h2)) + multiset(Leaves(n2))
    ensures SumFreq(h2 + [Merge(n1, n2)]) == SumFreq(h0)
    ensures multiset(ForestLeaves(h2 + [Merge(n1, n2)])) == multiset(ForestLeaves(h0))
  {
    MergeStep(h2, n1, n2);
    MultisetSteps(multiset(ForestLeaves(h0)), multiset(ForestLeaves(h1)), multiset(ForestLeaves(h2)), multiset(Leaves(n1)), multiset(Leaves(n2)));
  }

  /** Two removals followed by adding back what they took leave a multiset as it was. */
  lemma MultisetSteps<T>(a0: multiset<T>, a1: multiset<T>, a2: multiset<T>, l1: multiset<T>, l2: multiset<T>)
    requires a0 == a1 + l1 && a1 == a2 + l2
    ensures a0 == a2 + (l1 + l2)
  {
  }

  /** No node of `h` is `Less` than the one at `j`: a node `heappop` may return. */
  predicate IsMinAt(h: seq<Node>, j: nat)
    requires j < |h|
  {
    forall k :: 0 <= k < |h| ==> !Less(h[k], h[j])
  }

  /** A non-empty heap has a minimal node, so `heappop` is defined. */
  lemma {:induction false} MinimumExists(h: seq<Node>)
    requires h != []
    ensures exists j :: 0 <= j < |h| && IsMinAt(h, j)
  {
    if |h| == 1 {
      assert IsMinAt(h, 0);
    } else {
      var t := h[1..];
      MinimumExists(t);
      var j :| 0 <= j < |t| && IsMinAt(t, j);
      var m := if Less(t[j], h[0]) then j + 1 else 0;
      forall k | 0 <= k < |h| ensures !Less(h[k], h[m]) {
        if k > 0 {
          assert h[k] == t[k - 1];
        }
      }
      assert IsMinAt(h, m);
    }
  }

  /**
   * `h2` is `h` after one round of `__buildTree`: pop a least node (at `i`), pop a least
   * node of what is left (at `j`), and push their merge.
   */
  predicate MergeAt(h: seq<Node>, i: nat, j: nat, h2: seq<Node>) {
    && i < |h| && IsMinAt(h, i)
    && j < |Remove(h, i)| && IsMinAt(Remove(h, i), j)
    && h2 == Remove(Remove(h, i), j) + [Merge(h[i], Remove(h, i)[j])]
  }

  /** `heaps` are the successive heaps of a run of rounds of `__buildTree`, and `picks` the indices each round pops. */
  predicate GreedyRun(heaps: seq<seq<Node>>, picks: seq<(nat, nat)>) {
    && |heaps| == |picks| + 1
    && forall k :: 0 <= k < |picks| ==> MergeAt(heaps[k], picks[k].0, picks[k].1, heaps[k + 1])
  }

  /** A run extended by one more round is a run. */
  lemma GreedyRunSnoc(heaps: seq<seq<Node>>, picks: seq<(nat, nat)>, i: nat, j: nat, h: seq<Node>)
    requires GreedyRun(heaps, picks) && MergeAt(heaps[|heaps| - 1], i, j, h)
    ensures GreedyRun(heaps + [h], picks + [(i, j)])
  {
    var hs, ps := heaps + [h], picks + [(i, j)];
    forall k | 0 <= k < |ps| ensures MergeAt(hs[k], ps[k].0, ps[k].1, hs[k + 1]) {
      if k < |picks| {
        assert hs[k] == heaps[k] && hs[k + 1] == heaps[k + 1] && ps[k] == picks[k];
      } else {
        assert hs[k] == heaps[|heaps| - 1] && hs[k + 1] == h && ps[k] == (i, j);
      }
    }
  }

  /**
   * The greedy choice: the two nodes a round merges have the least frequency sum of
   * any two nodes of the heap.
   */
  lemma MergeAtCheapest(h: seq<Node>, i: nat, j: nat, h2: seq<Node>, a: nat, b: nat)
    requires MergeAt(h, i, j, h2)
    requires a < |h| && b < |h| && a != b
    ensures h[i].freq + Remove(h, i)[j].freq <= h[a].freq + h[b].freq
  {
    var rest := Remove(h, i);
    var c, d := if a != i then a else b, if a != i then b else a;
    assert c != i;
    var c' := if c < i then c else c - 1;
    assert rest[c'] == h[c];
    assert !Less(rest[c'], rest[j]);
    assert !Less(h[d], h[i]);
  }

  /** One leaf per key of `order`, with its frequency: the nodes `__buildHeap` pushes. */
  function LeafNodes(order: seq<char>, freq: map<char, nat>): seq<Node>
    requires forall i :: 0 <= i < |order| ==> order[i] in freq
  {
    seq(|order|, i requires 0 <= i < |order| => Leaf(order[i], freq[order[i]]))
  }

  /** Each key of `order` with its frequency. */
  function LeafPairs(order: seq<char>, freq: map<char, nat>): seq<(char, nat)>
    requires forall i :: 0 <= i < |order| ==> order[i] in freq
  {
    seq(|order|, i requires 0 <= i < |order| => (order[i], freq[order[i]]))
  }

  /** The leaves of those nodes are the keys of `order` with their frequencies, and their frequencies sum as the keys' do. */
  lemma {:induction false} LeafNodesForest(order: seq<char>, freq: map<char, nat>)
    requires forall i :: 0 <= i < |order| ==> order[i] in freq
    ensures AllWellFormed(LeafNodes(order, freq))
    ensures SumFreq(LeafNodes(order, freq)) == SumOver(order, freq)
    ensures ForestLeaves(LeafNodes(order, freq)) == LeafPairs(order, freq)
  {
    if order != [] {
      LeafNodesForest(order[1..], freq);
      assert LeafNodes(order, freq)[1..] == LeafNodes(order[1..], freq);
    }
  }
}
