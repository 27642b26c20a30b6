/**
 * `HuffmanCoding`: compression fills the min-heap from the frequency
 * dictionary, merges its two smallest nodes until one root is left, walks the
 * tree to fill the two code dictionaries, and encodes, pads and packs the text;
 * decompression unpacks the bytes, removes the padding, reads the codebook and
 * decodes. File and console input and output are not modelled: the text, the
 * bytes and the codebook text are parameters and results.
 */
module Huffman {
  import opened Wrappers
  import opened Collections
  import opened Bits
  import opened Frequency
  import opened HuffTree
  import opened BitStream
  import opened Decoding
  import opened Codebook

  /** `t` is a code tree for `text`: well formed, one leaf per distinct character with its count, and `len(text)` at the root. */
  ghost predicate CodeTreeOf(t: Node, text: string) {
    && WellFormed(t)
    && t.freq == |text|
    && NoDup(Symbols(t))
    && (forall c :: c in Symbols(t) <==> c in text)
    && (forall i :: 0 <= i < |Leaves(t)| ==> Leaves(t)[i].1 == multiset(text)[Leaves(t)[i].0])
  }

  /** How a tree was built: the key order of the frequency dictionary, the successive heaps, and the indices each round popped. */
  datatype Build = Build(symbols: seq<char>, heaps: seq<seq<Node>>, picks: seq<(nat, nat)>)

  /**
   * `t` is what `__buildHeap` and `__buildTree` make from `text`: the leaves of the
   * frequency dictionary in the order `b.symbols`, merged greedily round by round
   * until `t` alone is left.
   */
  ghost predicate GreedyBuild(t: Node, text: string, b: Build) {
    && Enumerates(b.symbols, FrequencyDict(text).Keys)
    && GreedyRun(b.heaps, b.picks)
    && (forall i :: 0 <= i < |b.symbols| ==> b.symbols[i] in FrequencyDict(text))
    && b.heaps[0] == LeafNodes(b.symbols, FrequencyDict(text))
    && b.heaps[|b.heaps| - 1] == [t]
  }

  /** The forward table of a root, or the empty dictionary when there is no root. */
  function CodesOf(root: Option<Node>): map<char, string> {
    if root.Some? then CodeTable(root.value) else map[]
  }

  /** The reverse table of a root, or the empty dictionary when there is no root. */
  function ReverseCodesOf(root: Option<Node>): map<string, char> {
    if root.Some? then ReverseTable(root.value) else map[]
  }

  /** A text each of whose characters the codebook line format carries unchanged: no comma and no line break. */
  predicate PlainText(text: string) {
    forall i :: 0 <= i < |text| ==> PlainSymbol(text[i])
  }

  /** The text that decompression produces from a payload and a codebook text, or `None` when a step raises. */
  function DecompressResult(payload: seq<Byte>, codebook: string): Option<string> {
    UnpackShape(payload);
    var actual := RemovePadding(Unpack(payload));
    var table := ParseCodebook(codebook);
    if actual.None? || table.None? then None else Some(Decode(actual.value, table.value))
  }

  /** A text has no distinct characters exactly when it is empty. */
  lemma NoSymbolsIffEmpty(text: string, symbols: seq<char>)
    requires Enumerates(symbols, FrequencyDict(text).Keys)
    ensures symbols == [] <==> text == []
  {
    if text != [] {
      assert text[0] in FrequencyDict(text);
      assert text[0] in symbols;
    }
    if symbols != [] {
      assert symbols[0] in symbols;
      assert symbols[0] in FrequencyDict(text);
    }
  }

  /** The leaf pairs `__buildHeap` makes are the characters of `text` with their counts. */
  lemma LeafPairsOfText(text: string, symbols: seq<char>)
    requires Enumerates(symbols, FrequencyDict(text).Keys)
    ensures forall x: (char, nat) :: x in LeafPairs(symbols, FrequencyDict(text)) <==> x.0 in text && x.1 == multiset(text)[x.0]
  {
    var fd := FrequencyDict(text);
    var ps := LeafPairs(symbols, fd);
    forall x | x in ps ensures x.0 in text && x.1 == multiset(text)[x.0] {
      var k :| 0 <= k < |ps| && ps[k] == x;
      assert symbols[k] in symbols;
    }
    forall x: (char, nat) | x.0 in text && x.1 == multiset(text)[x.0] ensures x in ps {
      assert x.0 in fd;
      var k :| 0 <= k < |symbols| && symbols[k] == x.0;
      assert ps[k] == x;
    }
  }

  /** Leaves that rearrange those pairs carry each character of `text` once, with its count. */
  lemma LeavesOfText(ls: seq<(char, nat)>, text: string, symbols: seq<char>)
    requires Enumerates(symbols, FrequencyDict(text).Keys)
    requires multiset(ls) == multiset(LeafPairs(symbols, FrequencyDict(text)))
    ensures NoDup(Firsts(ls))
    ensures forall c :: c in Firsts(ls) <==> c in text
    ensures forall i :: 0 <= i < |ls| ==> ls[i].1 == multiset(text)[ls[i].0]
  {
    var ps := LeafPairs(symbols, FrequencyDict(text));
    assert Firsts(ps) == symbols;
    FirstsNoDupPermutation(ls, ps);
    LeafPairsOfText(text, symbols);
    forall i | 0 <= i < |ls| ensures ls[i].0 in text && ls[i].1 == multiset(text)[ls[i].0] {
      assert ls[i] in multiset(ps);
    }
    forall c | c in Firsts(ls) ensures c in text {
      var i :| 0 <= i < |ls| && Firsts(ls)[i] == c;
      assert ls[i].0 in text;
    }
    forall c | c in text ensures c in Firsts(ls) {
      var x := (c, multiset(text)[c]);
      assert x in multiset(ls);
      var i :| 0 <= i < |ls| && ls[i] == x;
      assert Firsts(ls)[i] == c;
    }
  }

  /**
   * A single tree that holds the frequencies and the leaves of the leaf nodes
   * `__buildHeap` makes from the frequency dictionary is a code tree for `text`.
   */
  lemma CompressedTree(text: string, symbols: seq<char>, built: seq<Node>)
    requires Enumerates(symbols, FrequencyDict(text).Keys)
    requires |built| == 1 && AllWellFormed(built)
    requires SumFreq(built) == SumOver(symbols, FrequencyDict(text))
    requires multiset(ForestLeaves(built)) == multiset(LeafPairs(symbols, FrequencyDict(text)))
    ensures CodeTreeOf(built[0], text)
  {
    var r := built[0];
    FrequencySum(text, symbols);
    assert built[1..] == [];
    assert SumFreq(built) == r.freq;
    assert ForestLeaves(built) == Leaves(r) + [];
    LeavesOfText(Leaves(r), text, symbols);
  }

  /**
   * What a new instance holds after `__buildHeap`, `__buildTree` and `__buildCodes`:
   * no root for the empty text, and otherwise a code tree for `text`.
   */
  lemma BuiltTree(text: string, symbols: seq<char>, built: seq<Node>, root: Option<Node>)
    requires Enumerates(symbols, FrequencyDict(text).Keys)
    requires AllWellFormed(built) && |built| == if LeafNodes(symbols, FrequencyDict(text)) == [] then 0 else 1
    requires SumFreq(built) == SumFreq(LeafNodes(symbols, FrequencyDict(text)))
    requires multiset(ForestLeaves(built)) == multiset(ForestLeaves(LeafNodes(symbols, FrequencyDict(text))))
    requires root.None? <==> built == []
    requires root.Some? ==> exists i :: 0 <= i < |built| && built[i] == root.value
    ensures root.None? <==> text == []
    ensures root.Some? ==> CodeTreeOf(root.value, text) && Encodable(CodeTable(root.value), text)
  {
    NoSymbolsIffEmpty(text, symbols);
    if root.Some? {
      LeafNodesForest(symbols, FrequencyDict(text));
      assert built == [root.value];
      CompressedTree(text, symbols, built);
      CompressedCodes(text, root.value);
    }
  }

  /**
   * The codes written from the text's tree cover the text whatever the dictionary held
   * before, since `__buildCodesHelper` only adds and overwrites entries.
   */
  lemma AssignedCodesCover(m: map<char, string>, t: Node, text: string)
    requires CodeTreeOf(t, text)
    ensures Encodable(Assign(m, CodeEntries(t, "")), text)
  {
    CompressedCodes(text, t);
    AssignKeys(map[], CodeEntries(t, ""));
    AssignKeys(m, CodeEntries(t, ""));
    forall i | 0 <= i < |text| ensures text[i] in Assign(m, CodeEntries(t, "")) {
      assert text[i] in CodeTable(t);
    }
  }

  /** The code table of a code tree for `text` covers `text`. */
  lemma CompressedCodes(text: string, t: Node)
    requires CodeTreeOf(t, text)
    ensures Encodable(CodeTable(t), text)
  {
    CodeTablePaths(t);
    forall i | 0 <= i < |text| ensures text[i] in CodeTable(t) {
      assert text[i] in text;
    }
  }

  /** Every code of a tree is a bit string, so it contains none of the codebook's separators. */
  lemma CodesAreBits(t: Node)
    requires NoDup(Symbols(t))
    ensures forall c :: c in CodeTable(t) ==> IsBits(CodeTable(t)[c])
    ensures forall p :: p in ReverseTable(t) ==> IsBits(p) && PlainCode(p)
  {
    CodeTablePaths(t);
    ReverseTablePaths(t);
    forall c | c in CodeTable(t) ensures IsBits(CodeTable(t)[c]) {
      WalkBits(t, CodeTable(t)[c]);
    }
    forall p | p in ReverseTable(t) ensures IsBits(p) && PlainCode(p) {
      WalkBits(t, p);
      forall i | 0 <= i < |p| ensures p[i] != ',' && p[i] != '\n' && p[i] != '\r' && p[i] != '"' {
      }
    }
  }

  /** The reverse table of a code tree for a plain text survives the codebook file. */
  lemma CodebookOfTree(t: Node, text: string, order: seq<string>)
    requires CodeTreeOf(t, text) && PlainText(text)
    requires Enumerates(order, ReverseTable(t).Keys)
    ensures ParseCodebook(CodebookText(order, ReverseTable(t))) == Some(Lift(ReverseTable(t)))
  {
    CodesAreBits(t);
    ReverseTablePaths(t);
    forall p | p in ReverseTable(t) ensures PlainSymbol(ReverseTable(t)[p]) {
      LeafAtIsSymbol(t, p);
      var c := ReverseTable(t)[p];
      var i :| 0 <= i < |text| && text[i] == c;
    }
    CodebookRoundTrip(order, ReverseTable(t));
  }

  /** Decompressing the packed, padded form of a bit string decodes that bit string with the table the codebook holds. */
  lemma DecompressPacked(e: string, codebook: string, table: map<string, string>)
    requires IsBits(e) && ParseCodebook(codebook) == Some(table)
    ensures IsBits(Pad(e)) && DecompressResult(Pack(Pad(e)), codebook) == Some(Decode(e, table))
  {
    PadShape(e);
    UnpackPack(Pad(e));
    PadRoundTrip(e);
  }

  /** The reverse table of a tree with an internal root, as the codebook holds it, decodes the tree's encoding. */
  lemma DecodeTreeEncoding(t: Node, text: string)
    requires CodeTreeOf(t, text) && t.Internal?
    ensures Encodable(CodeTable(t), text)
    ensures Decode(Encode(CodeTable(t), text), Lift(ReverseTable(t))) == text
  {
    var codes, table := CodeTable(t), Lift(ReverseTable(t));
    CompressedCodes(text, t);
    TablesInverse(t);
    ReverseTablePrefixFree(t);
    InternalRootCodesNonEmpty(t);
    assert PrefixFree(table);
    DecodeEncode(codes, table, text, "");
    assert Encode(codes, text) + "" == Encode(codes, text);
  }

  /**
   * Compression followed by decompression gives the text back when its tree has an
   * internal root, that is when the text has at least two distinct characters.
   */
  lemma RoundTrip(t: Node, text: string, order: seq<string>)
    requires CodeTreeOf(t, text) && t.Internal? && PlainText(text)
    requires Enumerates(order, ReverseTable(t).Keys)
    ensures Encodable(CodeTable(t), text) && IsBits(Pad(Encode(CodeTable(t), text)))
    ensures DecompressResult(Pack(Pad(Encode(CodeTable(t), text))), CodebookText(order, ReverseTable(t))) == Some(text)
  {
    CompressedCodes(text, t);
    CodesAreBits(t);
    EncodeIsBits(CodeTable(t), text);
    CodebookOfTree(t, text, order);
    DecodeTreeEncoding(t, text);
    DecompressPacked(Encode(CodeTable(t), text), CodebookText(order, ReverseTable(t)), Lift(ReverseTable(t)));
  }

  /** Encoding with codes that are all empty gives the empty bit string. */
  lemma {:induction false} EncodeEmptyCodes(codes: map<char, string>, text: string)
    requires Encodable(codes, text)
    requires forall c :: c in codes ==> codes[c] == ""
    ensures Encode(codes, text) == ""
  {
    if text != [] {
      EncodeEmptyCodes(codes, text[1..]);
    }
  }

  /**
   * A text with a single distinct character gets a lone leaf whose code is empty,
   * so compression followed by decompression gives the empty text.
   */
  lemma LoneSymbol(t: Node, text: string, order: seq<string>)
    requires CodeTreeOf(t, text) && t.Leaf? && PlainText(text)
    requires Enumerates(order, ReverseTable(t).Keys)
    ensures Encodable(CodeTable(t), text) && Encode(CodeTable(t), text) == ""
    ensures IsBits(Pad(""))
    ensures DecompressResult(Pack(Pad("")), CodebookText(order, ReverseTable(t))) == Some("")
  {
    LoneLeafCode(t);
    CompressedCodes(text, t);
    EncodeEmptyCodes(CodeTable(t), text);
    CodebookOfTree(t, text, order);
    DecompressPacked("", CodebookText(order, ReverseTable(t)), Lift(ReverseTable(t)));
  }

  /** Every tree has a leaf. */
  lemma {:induction false} LeavesNonEmpty(t: Node)
    ensures |Leaves(t)| >= 1
  {
    match t
    case Leaf(_, _) =>
    case Internal(_, l, r) =>
      LeavesNonEmpty(l);
  }

  /** A code tree of a text has an internal root exactly when the text has two distinct characters. */
  lemma DistinctIffInternal(t: Node, text: string)
    requires CodeTreeOf(t, text)
    ensures t.Internal? <==> exists i, j :: 0 <= i < |text| && 0 <= j < |text| && text[i] != text[j]
  {
    var syms := Symbols(t);
    if t.Internal? {
      LeavesNonEmpty(t.left);
      LeavesNonEmpty(t.right);
      assert |syms| >= 2;
      assert syms[0] != syms[1];
      assert syms[0] in syms && syms[1] in syms;
      var i :| 0 <= i < |text| && text[i] == syms[0];
      var j :| 0 <= j < |text| && text[j] == syms[1];
      assert text[i] != text[j];
    } else {
      assert syms == [t.symbol];
      forall i, j | 0 <= i < |text| && 0 <= j < |text| ensures text[i] == text[j] {
        assert text[i] in text && text[j] in text;
      }
    }
  }

  class HuffmanCoding {
    var heap: seq<Node>
    var codes: map<char, string>
    var reverseCodes: map<string, char>

    /** The heap holds only nodes built the way the tree build builds them, and every code is a bit string. */
    ghost predicate Valid()
      reads this
    {
      && AllWellFormed(heap)
      && (forall c :: c in codes ==> IsBits(codes[c]))
      && (forall p :: p in reverseCodes ==> IsBits(p))
    }

    constructor ()
      ensures Valid() && heap == [] && codes == map[] && reverseCodes == map[]
    {
      heap := [];
      codes := map[];
      reverseCodes := map[];
    }

    /** `heapq.heappush`: the heap gains `n`. */
    method HeapPush(n: Node)
      requires Valid() && WellFormed(n)
      modifies this
      ensures Valid() && heap == old(heap) + [n]
      ensures codes == old(codes) && reverseCodes == old(reverseCodes)
    {
      heap := heap + [n];
    }

    /**
     * `heapq.heappop`: some node of least frequency leaves the heap. Which one, among
     * nodes of equal frequency, depends on the heap's internal order and is left open.
     */
    method HeapPop() returns (n: Node, ghost i: nat)
      requires Valid() && heap != []
      modifies this
      ensures Valid()
      ensures i < |old(heap)| && n == old(heap)[i] && heap == Remove(old(heap), i)
      ensures IsMinAt(old(heap), i)
      ensures WellFormed(n)
      ensures SumFreq(old(heap)) == SumFreq(heap) + n.freq
      ensures multiset(ForestLeaves(old(heap))) == multiset(ForestLeaves(heap)) + multiset(Leaves(n))
      ensures codes == old(codes) && reverseCodes == old(reverseCodes)
    {
      MinimumExists(heap);
      var j :| 0 <= j < |heap| && IsMinAt(heap, j);
      n, i := heap[j], j;
      ForestRemove(heap, j);
      RemoveWellFormed(heap, j);
      heap := Remove(heap, j);
    }

    /** `__buildHeap`: a leaf for each key of the frequency dictionary, in its iteration order, joins the heap. */
    method BuildHeap(freqDict: map<char, nat>) returns (ghost order: seq<char>)
      requires Valid()
      modifies this
      ensures Valid()
      ensures Enumerates(order, freqDict.Keys)
      ensures heap == old(heap) + LeafNodes(order, freqDict)
      ensures codes == old(codes) && reverseCodes == old(reverseCodes)
    {
      var remaining := freqDict.Keys;
      order := [];
      while remaining != {}
        invariant Valid()
        invariant NoDup(order)
        invariant remaining <= freqDict.Keys
        invariant forall k :: k in order ==> k in freqDict && k !in remaining
        invariant forall k :: k in freqDict ==> k in order || k in remaining
        invariant heap == old(heap) + LeafNodes(order, freqDict)
        invariant codes == old(codes) && reverseCodes == old(reverseCodes)
        decreases remaining
      {
        var symbol :| symbol in remaining;
        var newNode := Leaf(symbol, freqDict[symbol]);
        HeapPush(newNode);
        assert LeafNodes(order + [symbol], freqDict) == LeafNodes(order, freqDict) + [newNode];
        order := order + [symbol];
        remaining := remaining - {symbol};
      }
    }

    /**
     * `__buildTree`: while more than one node is left, pop the two smallest and push their
     * merge. The heaps it passes through form a greedy run; a non-empty heap ends with a
     * single node; frequencies and leaves are conserved.
     */
    method BuildTree() returns (ghost heaps: seq<seq<Node>>, ghost picks: seq<(nat, nat)>)
      requires Valid()
      modifies this
      ensures Valid()
      ensures GreedyRun(heaps, picks) && heaps[0] == old(heap) && heaps[|heaps| - 1] == heap
      ensures |heap| == if old(heap) == [] then 0 else 1
      ensures SumFreq(heap) == old(SumFreq(heap))
      ensures multiset(ForestLeaves(heap)) == old(multiset(ForestLeaves(heap)))
      ensures codes == old(codes) && reverseCodes == old(reverseCodes)
    {
      heaps, picks := [heap], [];
      while |heap| > 1
        invariant Valid()
        invariant GreedyRun(heaps, picks) && heaps[0] == old(heap) && heaps[|heaps| - 1] == heap
        invariant old(heap) == [] <==> heap == []
        invariant SumFreq(heap) == old(SumFreq(heap))
        invariant multiset(ForestLeaves(heap)) == old(multiset(ForestLeaves(heap)))
        invariant codes == old(codes) && reverseCodes == old(reverseCodes)
        decreases |heap|
      {
        ghost var i, j := MergeSmallest();
        GreedyRunSnoc(heaps, picks, i, j, heap);
        heaps, picks := heaps + [heap], picks + [(i, j)];
      }
    }

    /**
     * One round of the loop of `__buildTree`: pop a node of least frequency (at `i`), pop a
     * node of least frequency of what is left (at `j`), and push their merge.
     */
    method MergeSmallest() returns (ghost i: nat, ghost j: nat)
      requires Valid() && |heap| > 1
      modifies this
      ensures Valid() && MergeAt(old(heap), i, j, heap)
      ensures |heap| == old(|heap|) - 1
      ensures SumFreq(heap) == old(SumFreq(heap))
      ensures multiset(ForestLeaves(heap)) == old(multiset(ForestLeaves(heap)))
      ensures codes == old(codes) && reverseCodes == old(reverseCodes)
    {
      ghost var h0 := heap;
      var node1, node2;
      node1, i := HeapPop();
      ghost var h1 := heap;
      node2, j := HeapPop();
      var newNode := Merge(node1, node2);
      MergeConserves(h0, h1, heap, node1, node2);
      HeapPush(newNode);
    }

    /**
     * `__buildCodesHelper(root, currBits)`: depth first, left before right, record each
     * leaf's symbol with `currBits` and its path in both dictionaries.
     */
    method BuildCodesHelper(root: Node, currBits: string)
      requires Valid() && IsBits(currBits)
      modifies this
      ensures Valid()
      ensures codes == Assign(old(codes), CodeEntries(root, currBits))
      ensures reverseCodes == Assign(old(reverseCodes), Swapped(CodeEntries(root, currBits)))
      ensures heap == old(heap)
      decreases root
    {
      match root
      case Leaf(value, _) =>
        codes := codes[value := currBits];
        reverseCodes := reverseCodes[currBits := value];
        assert CodeEntries(root, currBits) == [(value, currBits)];
        assert Swapped(CodeEntries(root, currBits)) == [(currBits, value)];
      case Internal(_, left, right) =>
        assert IsBits(currBits + "0") && IsBits(currBits + "1");
        BuildCodesHelper(left, currBits + "0");
        BuildCodesHelper(right, currBits + "1");
        var el, er := CodeEntries(left, currBits + "0"), CodeEntries(right, currBits + "1");
        AssignAppend(old(codes), el, er);
        assert Swapped(el + er) == Swapped(el) + Swapped(er);
        AssignAppend(old(reverseCodes), Swapped(el), Swapped(er));
    }

    /** `__buildCodes`: pop the root, if there is one, and fill the dictionaries from it. */
    method BuildCodes() returns (ghost root: Option<Node>)
      requires Valid()
      modifies this
      ensures Valid()
      ensures root.None? <==> old(heap) == []
      ensures root.None? ==> heap == old(heap) && codes == old(codes) && reverseCodes == old(reverseCodes)
      ensures root.Some? ==> exists i :: 0 <= i < |old(heap)| && old(heap)[i] == root.value && IsMinAt(old(heap), i) && heap == Remove(old(heap), i)
      ensures root.Some? ==> codes == Assign(old(codes), CodeEntries(root.value, ""))
      ensures root.Some? ==> reverseCodes == Assign(old(reverseCodes), Swapped(CodeEntries(root.value, "")))
    {
      if heap != [] {
        var r, i := HeapPop();
        BuildCodesHelper(r, "");
        root := Some(r);
      } else {
        root := None;
      }
    }

    /** `__getEncodedText`: the codes of the characters of `text` in order; `None` where a character has no code (a `KeyError`). */
    method GetEncodedText(text: string) returns (encoded: Option<string>)
      requires Valid()
      ensures encoded.Some? ==> IsBits(encoded.value)
      ensures Encodable(codes, text) ==> encoded == Some(Encode(codes, text))
      ensures !Encodable(codes, text) ==> encoded == None
    {
      var s := "";
      var i := 0;
      while i < |text|
        invariant 0 <= i <= |text|
        invariant Encodable(codes, text[..i]) && s == Encode(codes, text[..i])
      {
        if text[i] !in codes {
          return None;
        }
        assert text[..i + 1] == text[..i] + [text[i]];
        EncodeAppend(codes, text[..i], [text[i]]);
        assert Encode(codes, [text[i]]) == codes[text[i]];
        s := s + codes[text[i]];
        i := i + 1;
      }
      assert text[..i] == text;
      EncodeIsBits(codes, text);
      return Some(s);
    }

    /** `__getPaddedEncodedText`: append the padding zeros, then put the eight-bit padding amount in front. */
    static method GetPaddedEncodedText(encodedText: string) returns (padded: string)
      ensures padded == Pad(encodedText)
    {
      var paddedAmount := 8 - |encodedText| % 8;
      var text := encodedText;
      var i := 0;
      while i < paddedAmount
        invariant 0 <= i <= paddedAmount
        invariant text == encodedText + Zeros(i)
      {
        ZerosSnoc(i);
        text := text + "0";
        i := i + 1;
      }
      var paddedInfo := Format08b(paddedAmount);
      PadFromParts(encodedText, paddedInfo, text);
      padded := paddedInfo + text;
    }

    /** `__getBytesArray`: `int(chunk, 2)` for each chunk of eight characters, in order. */
    static method GetBytesArray(paddedEncodedText: string) returns (bytes: seq<Byte>)
      requires IsBits(paddedEncodedText)
      ensures bytes == Pack(paddedEncodedText)
    {
      var s := paddedEncodedText;
      bytes := [];
      var i := 0;
      while i < |s|
        invariant i <= |s| ==> bytes + Pack(s[i..]) == Pack(s)
        invariant i > |s| ==> bytes == Pack(s)
        decreases |s| - i
      {
        var end := if i + 8 <= |s| then i + 8 else |s|;
        var chunk := s[i..end];
        PackStep(s, i, end, bytes);
        var byte := BitsValue(chunk) as Byte;
        bytes := bytes + [byte];
        i := i + 8;
      }
    }

    /** The loop of `decompress` that turns the bytes read into a bit string: `bin(b)[2:].rjust(8, '0')` per byte. */
    static method UnpackBits(bytes: seq<Byte>) returns (bitString: string)
      ensures bitString == Unpack(bytes)
    {
      bitString := "";
      var i := 0;
      while i < |bytes|
        invariant 0 <= i <= |bytes|
        invariant bitString == Unpack(bytes[..i])
      {
        var bits := RJust(PyBin(bytes[i]), 8, '0');
        assert bytes[..i + 1] == bytes[..i] + [bytes[i]];
        UnpackAppend(bytes[..i], [bytes[i]]);
        bitString := bitString + bits;
        i := i + 1;
      }
      assert bytes[..i] == bytes;
    }

    /** `__decodeText`: grow the candidate bit by bit and emit the symbol of each candidate that is a key. */
    static method DecodeText(text: string, reversedCodes: map<string, string>) returns (decodedText: string)
      ensures decodedText == Decode(text, reversedCodes)
    {
      decodedText := "";
      var currentBits := "";
      var i := 0;
      while i < |text|
        invariant 0 <= i <= |text|
        invariant decodedText + DecodeFrom(currentBits, text[i..], reversedCodes) == Decode(text, reversedCodes)
      {
        assert text[i..][0] == text[i] && text[i..][1..] == text[i + 1..];
        currentBits := currentBits + [text[i]];
        if currentBits in reversedCodes {
          decodedText := decodedText + reversedCodes[currentBits];
          currentBits := "";
        }
        i := i + 1;
      }
    }

    /** The codebook loop of `compress`: one line `code, symbol` per key of the reverse table, in its iteration order. */
    static method WriteCodebook(table: map<string, char>) returns (content: string, ghost order: seq<string>)
      ensures Enumerates(order, table.Keys)
      ensures content == CodebookText(order, table)
    {
      var remaining := table.Keys;
      content := "";
      order := [];
      while remaining != {}
        invariant NoDup(order)
        invariant remaining <= table.Keys
        invariant forall k :: k in order ==> k in table && k !in remaining
        invariant forall k :: k in table ==> k in order || k in remaining
        invariant content == CodebookText(order, table)
        decreases remaining
      {
        var key :| key in remaining;
        CodebookTextSnoc(order, key, table);
        content := content + CodebookLine(key, table[key]);
        order := order + [key];
        remaining := remaining - {key};
      }
    }

    /**
     * The first steps of `compress`: count the characters, fill the heap, build the tree
     * and fill the code dictionaries from its root, which empties the heap.
     */
    method BuildCodeTables(text: string) returns (ghost root: Option<Node>, ghost build: Build)
      requires Valid()
      modifies this
      ensures Valid() && heap == []
      ensures old(heap) == [] ==>
        && (root.None? <==> text == [])
        && (root.Some? ==> CodeTreeOf(root.value, text) && GreedyBuild(root.value, text, build))
        && codes == (if root.Some? then Assign(old(codes), CodeEntries(root.value, "")) else old(codes))
        && reverseCodes == (if root.Some? then Assign(old(reverseCodes), Swapped(CodeEntries(root.value, ""))) else old(reverseCodes))
        && Encodable(codes, text)
      ensures old(heap) == [] && old(codes) == map[] && old(reverseCodes) == map[] ==>
        codes == CodesOf(root) && reverseCodes == ReverseCodesOf(root)
    {
      ghost var heap0, codes0 := heap, codes;
      var freqDict := FrequencyDict(text);
      ghost var symbols := BuildHeap(freqDict);
      ghost var leaves := LeafNodes(symbols, freqDict);
      assert heap == heap0 + leaves;
      ghost var heaps, picks := BuildTree();
      ghost var built := heap;
      root := BuildCodes();
      build := Build(symbols, heaps, picks);
      if heap0 == [] {
        assert heap0 + leaves == leaves;
        BuiltTree(text, symbols, built, root);
        if root.Some? {
          assert built == [root.value];
          AssignedCodesCover(codes0, root.value, text);
        }
      }
    }

    /**
     * `compress` without the file handling: the payload bytes and the codebook text for
     * `text` (already stripped of trailing whitespace), or `None` where a character has no
     * code and `__getEncodedText` raises before anything is written. On a new instance the
     * root is the greedily built code tree of `text`, and the results are its encoding and codebook.
     */
    method Compress(text: string) returns (result: Option<(seq<Byte>, string)>, ghost root: Option<Node>, ghost build: Build, ghost order: seq<string>)
      requires Valid()
      modifies this
      ensures Valid() && heap == []
      ensures old(heap) == [] ==>
        && (root.None? <==> text == [])
        && (root.Some? ==> CodeTreeOf(root.value, text) && GreedyBuild(root.value, text, build))
        && codes == (if root.Some? then Assign(old(codes), CodeEntries(root.value, "")) else old(codes))
        && reverseCodes == (if root.Some? then Assign(old(reverseCodes), Swapped(CodeEntries(root.value, ""))) else old(reverseCodes))
        && Encodable(codes, text)
      ensures old(heap) == [] && old(codes) == map[] && old(reverseCodes) == map[] ==>
        codes == CodesOf(root) && reverseCodes == ReverseCodesOf(root)
      ensures result.Some? <==> Encodable(codes, text)
      ensures result.Some? ==> IsBits(Pad(Encode(codes, text))) && result.value.0 == Pack(Pad(Encode(codes, text)))
      ensures result.Some? ==> Enumerates(order, reverseCodes.Keys) && result.value.1 == CodebookText(order, reverseCodes)
    {
      root, build := BuildCodeTables(text);
      var encoded := GetEncodedText(text);
      if encoded.None? {
        order := [];
        result := None;
        return;
      }
      var padded := GetPaddedEncodedText(encoded.value);
      PadShape(encoded.value);
      var payload := GetBytesArray(padded);
      var codebook;
      codebook, order := WriteCodebook(reverseCodes);
      result := Some((payload, codebook));
    }

    /** `decompress` without the file handling: unpack, remove the padding, read the codebook and decode. */
    static method Decompress(payload: seq<Byte>, codebook: string) returns (text: Option<string>)
      ensures text == DecompressResult(payload, codebook)
      ensures text.None? <==> payload == [] || ParseCodebook(codebook).None?
    {
      var bitString := UnpackBits(payload);
      UnpackShape(payload);
      var actualText := RemovePadding(bitString);
      var reversedCodes := ParseCodebook(codebook);
      if actualText.None? || reversedCodes.None? {
        return None;
      }
      var decompressedText := DecodeText(actualText.value, reversedCodes.value);
      return Some(decompressedText);
    }
  }

  /**
   * The program's use of the class: a new instance compresses `text`, and the payload and
   * codebook it writes are decompressed. A text with two distinct characters comes back;
   * a text with fewer comes back empty, because its lone code is the empty string.
   */
  method CompressThenDecompress(text: string) returns (result: Option<string>)
    requires PlainText(text)
    ensures (exists i, j :: 0 <= i < |text| && 0 <= j < |text| && text[i] != text[j]) ==> result == Some(text)
    ensures (forall i, j :: 0 <= i < |text| && 0 <= j < |text| ==> text[i] == text[j]) ==> result == Some("")
  {
    var h := new HuffmanCoding();
    var compressed, root, build, order := h.Compress(text);
    var payload, codebook := compressed.value.0, compressed.value.1;
    result := HuffmanCoding.Decompress(payload, codebook);
    if root.None? {
      CodebookRoundTrip(order, map[]);
      assert Lift(map[]) == map[];
      DecompressPacked("", codebook, map[]);
    } else {
      DistinctIffInternal(root.value, text);
      if root.value.Internal? {
        RoundTrip(root.value, text, order);
      } else {
        LoneSymbol(root.value, text, order);
      }
    }
  }
}
