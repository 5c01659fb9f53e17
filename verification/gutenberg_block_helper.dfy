/**
 * The Gutenberg block codec: parsed blocks are placed into the translation
 * XML as `gutenbergBlock` / `contentChunk` / `blockAttribute` nodes
 * (`processString`, `placeBlock`), and translated nodes are rendered back
 * into block comment markup (`processTranslation`,
 * `renderTranslatedBlockNode`, `renderGutenbergBlock`).
 */
module GutenbergBlockHelper {
  import opened Wrappers
  import opened OrderedMap
  import opened PhpString
  import opened PhpValue
  import opened PathFlattener

  /** One entry of a parsed block's `innerContent`: a string, or the `null` placeholder of an inner block. */
  datatype Content = Text(s: string) | Slot

  /** A block as `gutenberg_parse_blocks` returns it. */
  datatype Block = Block(name: Option<string>, attrs: seq<Pair<Tree>>, innerBlocks: seq<Block>, innerContent: seq<Content>)

  /** A child node of the translation XML. */
  datatype WireNode =
    | BlockNode(blockName: string, originalAttributes: string, children: seq<WireNode>)
    | ChunkNode(hash: string, text: string)
    | AttributeNode(name: string, hash: string, value: string)
    | OtherNode(nodeName: string)

  /** The translated string node a filter handler receives: its CDATA text and its child nodes. */
  datatype StringNode = StringNode(cdata: string, children: seq<WireNode>)

  /** The helper's collaborators: the parent class's hooks, the packers, `md5`, `json_encode` and the block parser. */
  datatype Hooks = Hooks(
    mask: (string, seq<Pair<string>>) -> seq<Pair<string>>,
    unmask: (string, seq<Pair<string>>) -> seq<Pair<string>>,
    preSend: seq<Pair<string>> -> seq<Pair<string>>,
    postReceive: seq<Pair<string>> -> seq<Pair<string>>,
    md5: string -> string,
    pack: seq<Pair<Tree>> -> string,
    unpack: string -> Tree,
    jsonEncode: seq<Pair<Tree>> -> string,
    parseBlocks: string -> seq<Block>)

  /** Why rendering or placing fails (a PHP `TypeError` in the source). */
  datatype GutenbergError = MissingInnerBlock | AttributesNotArray | UndefinedAttr

  const BlockOpen: string := "<!-- wp:"

  // ----- placing blocks -----

  /** Number of inner-block placeholders. */
  function CountSlots(cs: seq<Content>): nat {
    if cs == [] then 0 else CountSlots(cs[..|cs| - 1]) + (if cs[|cs| - 1].Slot? then 1 else 0)
  }

  lemma {:induction false} CountSlotsPrefix(cs: seq<Content>, j: nat)
    requires j <= |cs|
    ensures CountSlots(cs[..j]) <= CountSlots(cs)
    decreases |cs|
  {
    if j < |cs| {
      assert cs[..|cs| - 1][..j] == cs[..j];
      CountSlotsPrefix(cs[..|cs| - 1], j);
    } else {
      assert cs[..j] == cs;
    }
  }

  lemma CountSlotsStep(cs: seq<Content>, j: nat)
    requires j < |cs|
    ensures CountSlots(cs[..j + 1]) == CountSlots(cs[..j]) + (if cs[j].Slot? then 1 else 0)
  {
    assert cs[..j + 1][..j] == cs[..j];
  }

  /**
   * Every placeholder has its inner block, at every depth of the placed
   * blocks (the parser's output always has). Inner blocks past the last
   * placeholder are never placed, so nothing is asked of them.
   */
  predicate WellFormedBlock(b: Block)
    decreases b
  {
    CountSlots(b.innerContent) <= |b.innerBlocks| &&
    forall i :: 0 <= i < CountSlots(b.innerContent) ==> WellFormedBlock(b.innerBlocks[i])
  }

  /**
   * `processAttributes`: the flat attributes of a named block with
   * attributes, masked, pre-send filtered and unmasked; otherwise none.
   * The result of `postReceiveFiltering` is not used by the source.
   */
  function ProcessAttributes(name: Option<string>, flat: seq<Pair<string>>, h: Hooks): (r: seq<Pair<string>>)
    ensures name.None? || flat == [] ==> r == []
    ensures name.Some? && flat != [] ==> r == h.unmask(name.value, h.preSend(h.mask(name.value, flat)))
  {
    if name.Some? && |flat| > 0 then h.unmask(name.value, h.preSend(h.mask(name.value, flat))) else []
  }

  /** One `blockAttribute` node per attribute, in order. */
  function AttributeNodes(attrs: seq<Pair<string>>, h: Hooks): (ns: seq<WireNode>)
    ensures |ns| == |attrs|
    ensures forall i :: 0 <= i < |attrs| ==> ns[i] == AttributeNode(attrs[i].key, h.md5(attrs[i].val), attrs[i].val)
  {
    seq(|attrs|, i requires 0 <= i < |attrs| => AttributeNode(attrs[i].key, h.md5(attrs[i].val), attrs[i].val))
  }

  /**
   * `placeBlock($block)`: a `gutenbergBlock` node holding the block name
   * and packed attributes, one child per `innerContent` entry, then one
   * `blockAttribute` child per processed attribute.
   */
  function PlaceBlock(b: Block, h: Hooks): (n: WireNode)
    requires WellFormedBlock(b)
    ensures n.BlockNode? && n.blockName == b.name.GetOr("") && n.originalAttributes == h.pack(b.attrs)
    ensures |n.children| == |b.innerContent| + |AttributeNodes(ProcessAttributes(b.name, Flatten(b.attrs, ""), h), h)|
    ensures n.children[..|b.innerContent|] == PlaceContent(b, 0, h)
    ensures n.children[|b.innerContent|..] == AttributeNodes(ProcessAttributes(b.name, Flatten(b.attrs, ""), h), h)
    decreases b, |b.innerContent| + 1
  {
    var content := PlaceContent(b, 0, h);
    var children := content + AttributeNodes(ProcessAttributes(b.name, Flatten(b.attrs, ""), h), h);
    assert children[..|b.innerContent|] == content;
    BlockNode(b.name.GetOr(""), h.pack(b.attrs), children)
  }

  /**
   * The `foreach ($block['innerContent'] as $chunk)` loop from entry `i`:
   * a string becomes a `contentChunk` node with its hash; a placeholder
   * becomes the placed inner block the running index points to.
   */
  function PlaceContent(b: Block, i: nat, h: Hooks): (ns: seq<WireNode>)
    requires WellFormedBlock(b) && i <= |b.innerContent|
    ensures |ns| == |b.innerContent| - i
    ensures forall k :: 0 <= k < |ns| ==> ns[k] == PlacePart(b, i + k, h)
    decreases b, |b.innerContent| - i
  {
    if i == |b.innerContent| then []
    else
      var rest := PlaceContent(b, i + 1, h);
      var ns := [PlacePart(b, i, h)] + rest;
      forall k | 1 <= k < |ns| ensures ns[k] == PlacePart(b, i + k, h) {
        assert ns[k] == rest[k - 1];
      }
      ns
  }

  /** The node for `innerContent` entry `i`. */
  function PlacePart(b: Block, i: nat, h: Hooks): (n: WireNode)
    requires WellFormedBlock(b) && i < |b.innerContent|
    ensures b.innerContent[i].Text? ==> n == ChunkNode(h.md5(b.innerContent[i].s), b.innerContent[i].s)
    ensures b.innerContent[i].Slot? ==>
      CountSlots(b.innerContent[..i]) < CountSlots(b.innerContent) <= |b.innerBlocks| &&
      n == PlaceBlock(b.innerBlocks[CountSlots(b.innerContent[..i])], h)
    decreases b, 0
  {
    if b.innerContent[i].Text? then ChunkNode(h.md5(b.innerContent[i].s), b.innerContent[i].s)
    else
      CountSlotsStep(b.innerContent, i);
      CountSlotsPrefix(b.innerContent, i + 1);
      PlaceBlock(b.innerBlocks[CountSlots(b.innerContent[..i])], h)
  }

  /** `hasBlocks($string)`. */
  predicate HasBlocks(s: string) {
    Contains(s, BlockOpen)
  }

  /** Every parsed block placed, in order. */
  function PlaceBlocks(blocks: seq<Block>, h: Hooks): (ns: seq<WireNode>)
    requires forall i :: 0 <= i < |blocks| ==> WellFormedBlock(blocks[i])
    ensures |ns| == |blocks|
    ensures forall i :: 0 <= i < |blocks| ==> ns[i] == PlaceBlock(blocks[i], h)
  {
    seq(|blocks|, i requires 0 <= i < |blocks| => PlaceBlock(blocks[i], h))
  }

  /**
   * `processString`: a string without block markup is left alone;
   * otherwise every parsed block is placed as a new child and the text is
   * emptied. A parsed placeholder without its inner block makes
   * `placeBlock` fail.
   */
  function ProcessString(node: StringNode, h: Hooks): (r: Result<StringNode, GutenbergError>)
    ensures !HasBlocks(node.cdata) ==> r == Success(node)
    ensures HasBlocks(node.cdata) && r.Success? ==>
      r.value.cdata == "" &&
      |r.value.children| == |node.children| + |h.parseBlocks(node.cdata)| &&
      r.value.children[..|node.children|] == node.children
    ensures HasBlocks(node.cdata) && r.Success? ==>
      forall i :: 0 <= i < |h.parseBlocks(node.cdata)| ==>
        WellFormedBlock(h.parseBlocks(node.cdata)[i]) &&
        r.value.children[|node.children| + i] == PlaceBlock(h.parseBlocks(node.cdata)[i], h)
    ensures HasBlocks(node.cdata) ==>
      (r.Success? <==> forall i :: 0 <= i < |h.parseBlocks(node.cdata)| ==> WellFormedBlock(h.parseBlocks(node.cdata)[i]))
  {
    if !HasBlocks(node.cdata) then Success(node)
    else
      var blocks := h.parseBlocks(node.cdata);
      if forall i :: 0 <= i < |blocks| ==> WellFormedBlock(blocks[i]) then
        var placed := PlaceBlocks(blocks, h);
        assert (node.children + placed)[..|node.children|] == node.children;
        Success(StringNode("", node.children + placed))
      else Failure(MissingInnerBlock)
  }

  // ----- rendering translated blocks -----

  /** `renderGutenbergBlock`'s attribute segment: a space and the JSON, or nothing. */
  function AttrsSegment(attrs: seq<Pair<Tree>>, h: Hooks): string {
    if |attrs| > 0 then " " + h.jsonEncode(attrs) else ""
  }

  /** `renderGutenbergBlock($name, $attrs, $chunks)`: a paired block comment around the chunks, or a self-closing one. */
  function RenderGutenbergBlock(name: string, attrs: seq<Pair<Tree>>, chunks: seq<string>, h: Hooks): (r: string)
    ensures IsPrefix(BlockOpen + name + AttrsSegment(attrs, h), r)
    ensures var n := |BlockOpen + name + AttrsSegment(attrs, h)|; var close := "<!-- /wp:" + name + " -->";
      |chunks| > 0 ==>
        |r| == n + 4 + |Concat(chunks)| + |close| && r[n..n + 4] == " -->" &&
        r[n + 4..|r| - |close|] == Concat(chunks) && IsSuffix(close, r)
    ensures |chunks| == 0 ==> |r| == |BlockOpen + name + AttrsSegment(attrs, h)| + 5 && IsSuffix(" /-->", r)
  {
    var head := BlockOpen + name + AttrsSegment(attrs, h);
    var r := if |chunks| > 0 then head + " -->" + Concat(chunks) + "<!-- /wp:" + name + " -->" else head + " /-->";
    assert r[..|head|] == head;
    r
  }

  predicate IsSuffix(suffix: string, s: string) {
    |suffix| <= |s| && s[|s| - |suffix|..] == suffix
  }

  /** A rendered block is self-closing exactly when it has no chunks. */
  lemma SelfClosingIffNoChunks(name: string, attrs: seq<Pair<Tree>>, chunks: seq<string>, h: Hooks)
    ensures IsSuffix(" /-->", RenderGutenbergBlock(name, attrs, chunks, h)) <==> |chunks| == 0
  {
    var r := RenderGutenbergBlock(name, attrs, chunks, h);
    if |chunks| > 0 {
      assert r[|r| - 4] == ' ';
    }
  }

  /** The chunks and attributes `sortChildNodesContent` collects. */
  datatype Sorted = Sorted(chunks: seq<string>, attrs: seq<Pair<string>>)

  /**
   * `sortChildNodesContent` from child `i`: a nested block contributes its
   * rendering and a chunk its text, in document order; an attribute node
   * is assigned by name (a later duplicate wins); other nodes are skipped.
   */
  function SortFrom(n: WireNode, i: nat, acc: Sorted, h: Hooks): (r: Result<Sorted, GutenbergError>)
    requires n.BlockNode? && i <= |n.children|
    decreases n, |n.children| - i
  {
    if i == |n.children| then Success(acc)
    else match n.children[i]
      case BlockNode(_, _, _) =>
        var s :- RenderNode(n.children[i], h);
        SortFrom(n, i + 1, Sorted(acc.chunks + [s], acc.attrs), h)
      case ChunkNode(_, text) => SortFrom(n, i + 1, Sorted(acc.chunks + [text], acc.attrs), h)
      case AttributeNode(name, _, value) => SortFrom(n, i + 1, Sorted(acc.chunks, Assign(acc.attrs, name, value)), h)
      case OtherNode(_) => SortFrom(n, i + 1, acc, h)
  }

  /** What child `c` adds to the collected chunks: a nested block its rendering, a chunk its text, anything else nothing. */
  function ChunkOf(c: WireNode, h: Hooks): seq<string> {
    match c
    case BlockNode(_, _, _) => [RenderedOrEmpty(c, h)]
    case ChunkNode(_, text) => [text]
    case _ => []
  }

  /** Reference: the chunks of the children, in document order. */
  function ChunksOf(children: seq<WireNode>, h: Hooks): seq<string>
    decreases |children|
  {
    if children == [] then [] else ChunkOf(children[0], h) + ChunksOf(children[1..], h)
  }

  /** The `(name, value)` pair an attribute child contributes. */
  function AttributeOf(c: WireNode): seq<Pair<string>> {
    if c.AttributeNode? then [Pair(c.name, c.value)] else []
  }

  /** Reference: the `(name, value)` pair of every attribute child, in document order. */
  function AttributePairs(children: seq<WireNode>): seq<Pair<string>>
    decreases |children|
  {
    if children == [] then [] else AttributeOf(children[0]) + AttributePairs(children[1..])
  }

  /** Reference: what sorting the children collects, with the attributes assigned by name in document order. */
  function SortedOf(children: seq<WireNode>, h: Hooks): Sorted {
    Sorted(ChunksOf(children, h), AssignAll([], AttributePairs(children)))
  }

  /** Child `c` collected onto `acc`. */
  function Collect(acc: Sorted, c: WireNode, h: Hooks): Sorted {
    Sorted(acc.chunks + ChunkOf(c, h), AssignAll(acc.attrs, AttributeOf(c)))
  }

  /** One step of the sort loop: a failing nested block ends it, any other child is collected. */
  lemma SortStep(n: WireNode, i: nat, acc: Sorted, h: Hooks)
    requires n.BlockNode? && i < |n.children|
    ensures n.children[i].BlockNode? && RenderNode(n.children[i], h).Failure? ==> SortFrom(n, i, acc, h).Failure?
    ensures !(n.children[i].BlockNode? && RenderNode(n.children[i], h).Failure?) ==>
      SortFrom(n, i, acc, h) == SortFrom(n, i + 1, Collect(acc, n.children[i], h), h)
  {
    var c := n.children[i];
    if c.AttributeNode? {
      assert [Pair(c.name, c.value)][1..] == [];
      assert AssignAll(acc.attrs, AttributeOf(c)) == Assign(acc.attrs, c.name, c.value);
      assert acc.chunks + [] == acc.chunks;
    } else if !c.BlockNode? || RenderNode(c, h).Success? {
      assert AssignAll(acc.attrs, []) == acc.attrs;
      assert c.OtherNode? ==> acc.chunks + [] == acc.chunks;
    }
  }

  /**
   * The sort loop from child `i` on succeeds iff every nested block from
   * there renders, and then appends the reference chunks and assigns the
   * reference attribute pairs.
   */
  lemma {:induction false} SortFromCollects(n: WireNode, i: nat, acc: Sorted, h: Hooks)
    requires n.BlockNode? && i <= |n.children|
    ensures SortFrom(n, i, acc, h).Success? <==> AllBlocksRender(n.children[i..], h)
    ensures SortFrom(n, i, acc, h).Success? ==>
      SortFrom(n, i, acc, h).value == Sorted(acc.chunks + ChunksOf(n.children[i..], h), AssignAll(acc.attrs, AttributePairs(n.children[i..])))
    decreases |n.children| - i
  {
    var cs := n.children[i..];
    if i == |n.children| {
      assert cs == [];
      assert acc.chunks + [] == acc.chunks;
    } else {
      var c := n.children[i];
      var rest := n.children[i + 1..];
      assert cs[0] == c && cs[1..] == rest;
      AllBlocksRenderCons(cs, h);
      SortStep(n, i, acc, h);
      if !(c.BlockNode? && RenderNode(c, h).Failure?) {
        var acc' := Collect(acc, c, h);
        SortFromCollects(n, i + 1, acc', h);
        CollectCons(acc, cs, h);
      }
    }
  }

  /** Collecting the first child, then the reference over the rest, is the reference over all of them. */
  lemma CollectCons(acc: Sorted, cs: seq<WireNode>, h: Hooks)
    requires |cs| > 0
    ensures Sorted(Collect(acc, cs[0], h).chunks + ChunksOf(cs[1..], h), AssignAll(Collect(acc, cs[0], h).attrs, AttributePairs(cs[1..])))
      == Sorted(acc.chunks + ChunksOf(cs, h), AssignAll(acc.attrs, AttributePairs(cs)))
  {
    assert acc.chunks + ChunkOf(cs[0], h) + ChunksOf(cs[1..], h) == acc.chunks + ChunksOf(cs, h);
    AssignAllAfterOne(acc.attrs, AttributeOf(cs[0]), AttributePairs(cs[1..]));
  }

  /** Assigning at most one pair, then the rest, assigns them all. */
  lemma AssignAllAfterOne<V>(m: seq<Pair<V>>, a: seq<Pair<V>>, b: seq<Pair<V>>)
    requires |a| <= 1
    ensures AssignAll(AssignAll(m, a), b) == AssignAll(m, a + b)
  {
    if a == [] {
      assert a + b == b;
    } else {
      assert (a + b)[0] == a[0] && (a + b)[1..] == b && a[1..] == [];
    }
  }

  /**
   * `processTranslationAttributes` with `$attr` initialised to `[]`: for
   * non-empty original attributes, their flattening, overlaid by the
   * post-received ones and then by the translated ones, structurized;
   * otherwise none. `count(null)` is 0; any other non-array original makes
   * `flatternArray` fail.
   */
  function TranslationAttributes(name: string, original: Tree, translated: seq<Pair<string>>, h: Hooks): (r: Result<seq<Pair<Tree>>, GutenbergError>)
    ensures original == Leaf(Null) || original == Map([]) ==> r == Success([])
    ensures original.Leaf? && original.v != Null ==> r == Failure(AttributesNotArray)
    ensures original.Map? ==> r.Success?
  {
    match original
    case Leaf(Null) => Success([])
    case Leaf(_) => Failure(AttributesNotArray)
    case Map(es) =>
      if |es| == 0 then Success([])
      else Success(Structurize(Lift(MergedAttributes(name, es, translated, h))))
  }

  /** `$attr`: the flat attributes masked, post-receive filtered and unmasked; none when there are none. */
  function ReceivedAttributes(name: string, flat: seq<Pair<string>>, h: Hooks): seq<Pair<string>> {
    if |flat| > 0 then h.unmask(name, h.postReceive(h.mask(name, flat))) else []
  }

  /** `$filteredAttributes`: `array_merge` of the flat originals, `$attr` and the translated attributes. */
  function MergedAttributes(name: string, es: seq<Pair<Tree>>, translated: seq<Pair<string>>, h: Hooks): seq<Pair<string>> {
    var flat := Flatten(es, "");
    AssignAll(AssignAll(flat, ReceivedAttributes(name, flat, h)), translated)
  }

  /**
   * The translated attributes replace the originals: in the merged block
   * attributes, the value at a flat key's path is its last translated
   * value, else its last post-received value, else its original value,
   * provided no other merged key's path leads through or extends it.
   */
  lemma {:induction false} TranslatedValuesWin(name: string, es: seq<Pair<Tree>>, translated: seq<Pair<string>>, h: Hooks, k: string)
    requires es != []
    requires HasKey(translated, k) || HasKey(ReceivedAttributes(name, Flatten(es, ""), h), k) || HasKey(Flatten(es, ""), k)
    requires PathApart(MergedAttributes(name, es, translated, h), k)
    ensures TranslationAttributes(name, Map(es), translated, h).Success?
    ensures ValueAt(TranslationAttributes(name, Map(es), translated, h).value, Explode(k, Divider)) ==
      Some(Leaf(Str(
        if HasKey(translated, k) then LastValue(translated, k)
        else if HasKey(ReceivedAttributes(name, Flatten(es, ""), h), k) then LastValue(ReceivedAttributes(name, Flatten(es, ""), h), k)
        else Get(Flatten(es, ""), k))))
  {
    var flat := Flatten(es, "");
    var received := ReceivedAttributes(name, flat, h);
    var m := MergedAttributes(name, es, translated, h);
    AssignAllLookup(flat, received, k);
    AssignAllLookup(AssignAll(flat, received), translated, k);
    AssignAllKeys(flat, received);
    AssignAllKeys(AssignAll(flat, received), translated);
    var v := Lookup(m, k).value;
    StructurizeLookup(m, k, v);
  }

  /**
   * `processTranslationAttributes` as written: when the original attributes
   * are non-empty but flatten to nothing, `$attr` is never assigned and the
   * merge fails.
   */
  function TranslationAttributesAsWritten(name: string, original: Tree, translated: seq<Pair<string>>, h: Hooks): (r: Result<seq<Pair<Tree>>, GutenbergError>)
    ensures FlattensToNothing(original) ==> r == Failure(UndefinedAttr)
    ensures !FlattensToNothing(original) ==> r == TranslationAttributes(name, original, translated, h)
  {
    if FlattensToNothing(original) then Failure(UndefinedAttr)
    else TranslationAttributes(name, original, translated, h)
  }

  /** A non-empty array whose flattening is empty, such as `{"style": []}`. */
  predicate FlattensToNothing(t: Tree) {
    t.Map? && |t.entries| > 0 && Flatten(t.entries, "") == []
  }

  /**
   * `renderTranslatedBlockNode($node)`: a node without a block name renders
   * as its chunks alone; a named one as a block comment with the merged
   * attributes.
   */
  function RenderNode(n: WireNode, h: Hooks): (r: Result<string, GutenbergError>)
    requires n.BlockNode?
    decreases n, |n.children| + 1
  {
    var sorted :- SortFrom(n, 0, Sorted([], []), h);
    if n.blockName == "" then Success(Concat(sorted.chunks))
    else
      var attrs :- TranslationAttributes(n.blockName, h.unpack(n.originalAttributes), sorted.attrs, h);
      Success(RenderGutenbergBlock(n.blockName, attrs, sorted.chunks, h))
  }

  /**
   * A block node renders iff its nested blocks render and, for a named
   * one, its attributes merge. An unnamed node renders as its reference
   * chunks joined; a named one as a block comment around them, with the
   * original attributes merged with the collected translated ones.
   */
  lemma RenderNodeOf(n: WireNode, h: Hooks)
    requires n.BlockNode?
    ensures n.blockName == "" ==> (RenderNode(n, h).Success? <==> AllBlocksRender(n.children, h))
    ensures n.blockName == "" && RenderNode(n, h).Success? ==> RenderNode(n, h).value == Concat(SortedOf(n.children, h).chunks)
    ensures n.blockName != "" ==>
      (RenderNode(n, h).Success? <==>
        AllBlocksRender(n.children, h) &&
        TranslationAttributes(n.blockName, h.unpack(n.originalAttributes), SortedOf(n.children, h).attrs, h).Success?)
    ensures n.blockName != "" && RenderNode(n, h).Success? ==>
      RenderNode(n, h).value == RenderGutenbergBlock(n.blockName,
        TranslationAttributes(n.blockName, h.unpack(n.originalAttributes), SortedOf(n.children, h).attrs, h).value,
        SortedOf(n.children, h).chunks, h)
  {
    SortFromCollects(n, 0, Sorted([], []), h);
    assert n.children[0..] == n.children;
    assert [] + ChunksOf(n.children, h) == ChunksOf(n.children, h);
  }

  /** What child `c` adds to the translated text: a block node its rendering, any other node nothing. */
  function RenderedOrEmpty(c: WireNode, h: Hooks): string {
    if c.BlockNode? && RenderNode(c, h).Success? then RenderNode(c, h).value else ""
  }

  /** Reference: every child's contribution, position by position. */
  function RenderEach(children: seq<WireNode>, h: Hooks): (r: seq<string>)
    ensures |r| == |children|
  {
    seq(|children|, i requires 0 <= i < |children| => RenderedOrEmpty(children[i], h))
  }

  /** Every `gutenbergBlock` child renders without error. */
  predicate AllBlocksRender(children: seq<WireNode>, h: Hooks) {
    forall i :: 0 <= i < |children| && children[i].BlockNode? ==> RenderNode(children[i], h).Success?
  }

  /**
   * The `gutenbergBlock` children, rendered and concatenated in order; the
   * first child that fails to render ends the loop with its error.
   */
  function RenderChildren(children: seq<WireNode>, h: Hooks): (r: Result<string, GutenbergError>)
    ensures r.Success? <==> AllBlocksRender(children, h)
    ensures r.Success? ==> r.value == Concat(RenderEach(children, h))
    ensures (forall i :: 0 <= i < |children| ==> !children[i].BlockNode?) ==> r == Success("")
    decreases |children|
  {
    if children == [] then Success("")
    else
      RenderEachCons(children, h);
      if children[0].BlockNode? then
        var s :- RenderNode(children[0], h);
        var rest :- RenderChildren(children[1..], h);
        Success(s + rest)
      else RenderChildren(children[1..], h)
  }

  /** The reference contributions and the render condition of a non-empty child list, head first. */
  lemma RenderEachCons(children: seq<WireNode>, h: Hooks)
    requires children != []
    ensures Concat(RenderEach(children, h)) == RenderedOrEmpty(children[0], h) + Concat(RenderEach(children[1..], h))
    ensures AllBlocksRender(children, h) <==>
      (children[0].BlockNode? ==> RenderNode(children[0], h).Success?) && AllBlocksRender(children[1..], h)
  {
    RenderEachTail(children, h);
    AllBlocksRenderCons(children, h);
  }

  lemma RenderEachTail(children: seq<WireNode>, h: Hooks)
    requires children != []
    ensures Concat(RenderEach(children, h)) == RenderedOrEmpty(children[0], h) + Concat(RenderEach(children[1..], h))
  {
    var all := RenderEach(children, h);
    var tail := RenderEach(children[1..], h);
    assert forall i :: 0 <= i < |tail| ==> all[1..][i] == tail[i];
    assert all[1..] == tail;
  }

  lemma AllBlocksRenderCons(children: seq<WireNode>, h: Hooks)
    requires children != []
    ensures AllBlocksRender(children, h) <==>
      (children[0].BlockNode? ==> RenderNode(children[0], h).Success?) && AllBlocksRender(children[1..], h)
  {
    assert forall i :: 1 <= i < |children| ==> children[i] == children[1..][i - 1];
  }

  /**
   * The children that are not `gutenbergBlock` nodes: every occurrence of
   * such a child is kept, in order, and no block node is.
   */
  function NonBlockChildren(children: seq<WireNode>): (r: seq<WireNode>)
    ensures forall c :: c in r <==> c in children && !c.BlockNode?
    ensures IsSubseq(r, children)
    ensures forall c :: multiset(r)[c] == if c.BlockNode? then 0 else multiset(children)[c]
    decreases |children|
  {
    if children == [] then []
    else
      var rest := NonBlockChildren(children[1..]);
      assert children == [children[0]] + children[1..];
      if children[0].BlockNode? then
        SubseqDropHead(rest, children);
        rest
      else
        assert ([children[0]] + rest)[1..] == rest;
        [children[0]] + rest
  }

  /** A subsequence of the tail is a subsequence of the whole. */
  lemma SubseqDropHead<T>(a: seq<T>, b: seq<T>)
    requires b != [] && IsSubseq(a, b[1..])
    ensures IsSubseq(a, b)
  {
  }

  /**
   * `processTranslation`: only when the text is empty are the
   * `gutenbergBlock` children rendered into it (and removed); otherwise
   * the node is left as it is.
   */
  function ProcessTranslation(node: StringNode, h: Hooks): (r: Result<StringNode, GutenbergError>)
    ensures node.cdata != "" ==> r == Success(node)
    ensures node.cdata == "" ==> (r.Success? <==> AllBlocksRender(node.children, h))
    ensures node.cdata == "" && r.Success? ==>
      r.value.cdata == Concat(RenderEach(node.children, h)) &&
      r.value.children == NonBlockChildren(node.children)
    ensures node.cdata == "" && r.Success? ==> forall c :: c in r.value.children ==> !c.BlockNode?
  {
    if node.cdata != "" then Success(node)
    else
      var s :- RenderChildren(node.children, h);
      Success(StringNode(s, NonBlockChildren(node.children)))
  }

  // ----- the child loops as PHP 7 runs them -----

  /**
   * `sortChildNodesContent` as PHP 7 runs it. The `foreach` over the live
   * `childNodes` list steps to the `next` sibling of the child it has just
   * removed, and `removeChild` has cleared that link, so the loop ends
   * after the first child.
   */
  function SortFirstChild(n: WireNode, h: Hooks): (r: Result<Sorted, GutenbergError>)
    requires n.BlockNode?
    ensures r.Success? ==> |r.value.chunks| + |r.value.attrs| <= 1
    ensures n.children == [] ==> r == Success(Sorted([], []))
    decreases n, 0
  {
    if n.children == [] then Success(Sorted([], []))
    else match n.children[0]
      case BlockNode(_, _, _) =>
        var s :- RenderNodeAsWritten(n.children[0], h);
        Success(Sorted([s], []))
      case ChunkNode(_, text) => Success(Sorted([text], []))
      case AttributeNode(name, _, value) => Success(Sorted([], [Pair(name, value)]))
      case OtherNode(_) => Success(Sorted([], []))
  }

  /** `renderTranslatedBlockNode` as written under PHP 7: the first child only, and the unguarded attribute merge. */
  function RenderNodeAsWritten(n: WireNode, h: Hooks): (r: Result<string, GutenbergError>)
    requires n.BlockNode?
    ensures n.blockName == "" && n.children == [] ==> r == Success("")
    ensures n.blockName == "" && n.children != [] && n.children[0].ChunkNode? ==> r == Success(n.children[0].text)
    ensures n.blockName == "" && n.children != [] && (n.children[0].AttributeNode? || n.children[0].OtherNode?) ==> r == Success("")
    decreases n, 1
  {
    ConcatOne(if n.children != [] && n.children[0].ChunkNode? then n.children[0].text else "");
    var sorted :- SortFirstChild(n, h);
    if n.blockName == "" then Success(Concat(sorted.chunks))
    else
      var attrs :- TranslationAttributesAsWritten(n.blockName, h.unpack(n.originalAttributes), sorted.attrs, h);
      Success(RenderGutenbergBlock(n.blockName, attrs, sorted.chunks, h))
  }

  lemma ConcatOne(x: string)
    ensures Concat([x]) == x
  {
    assert [x][1..] == [];
  }

  /** A block node with its children cut down to the first one. */
  function FirstChildOnly(n: WireNode): (t: WireNode)
    requires n.BlockNode?
    ensures t.BlockNode? && t.blockName == n.blockName && t.originalAttributes == n.originalAttributes
    ensures t.children == if n.children == [] then [] else [n.children[0]]
  {
    BlockNode(n.blockName, n.originalAttributes, if n.children == [] then [] else [n.children[0]])
  }

  /**
   * PHP 7's rendering of a node is the corrected rendering of its first
   * child alone: when that child is not a block, exactly the corrected
   * rendering of the node cut down to it (unless the unguarded attribute
   * merge fails); when it is a block, its own PHP 7 rendering is the only
   * chunk.
   */
  lemma AsWrittenRendersFirstChild(n: WireNode, h: Hooks)
    requires n.BlockNode?
    ensures n.children == [] || !n.children[0].BlockNode? ==>
      RenderNodeAsWritten(n, h) ==
        if n.blockName != "" && FlattensToNothing(h.unpack(n.originalAttributes)) then Failure(UndefinedAttr)
        else RenderNode(FirstChildOnly(n), h)
    ensures n.children != [] && n.children[0].BlockNode? && RenderNodeAsWritten(n.children[0], h).Failure? ==>
      RenderNodeAsWritten(n, h) == RenderNodeAsWritten(n.children[0], h)
    ensures n.children != [] && n.children[0].BlockNode? && n.blockName == "" ==>
      RenderNodeAsWritten(n, h) == RenderNodeAsWritten(n.children[0], h)
    ensures n.children != [] && n.children[0].BlockNode? && n.blockName != "" && RenderNodeAsWritten(n, h).Success? ==>
      RenderNodeAsWritten(n, h).value == RenderGutenbergBlock(n.blockName,
        TranslationAttributes(n.blockName, h.unpack(n.originalAttributes), [], h).value,
        [RenderNodeAsWritten(n.children[0], h).value], h)
  {
    var t := FirstChildOnly(n);
    if n.children != [] {
      var c := n.children[0];
      ConcatOne(RenderedOrEmpty(c, h));
      if !c.BlockNode? {
        SortStep(t, 0, Sorted([], []), h);
        assert [] + ChunkOf(c, h) == ChunkOf(c, h);
        assert AssignAll([], AttributeOf(c)) == AttributeOf(c) by {
          if c.AttributeNode? {
            assert [Pair(c.name, c.value)][1..] == [];
          }
        }
        assert SortFrom(t, 0, Sorted([], []), h) == Success(Sorted(ChunkOf(c, h), AttributeOf(c)));
        if c.ChunkNode? {
          ConcatOne(c.text);
        }
      } else {
        if RenderNodeAsWritten(c, h).Success? {
          ConcatOne(RenderNodeAsWritten(c, h).value);
        }
      }
    }
  }

  /** The position of the first `gutenbergBlock` child, if any. */
  function FirstBlock(children: seq<WireNode>): (r: Option<nat>)
    ensures r.None? <==> forall i :: 0 <= i < |children| ==> !children[i].BlockNode?
    ensures r.Some? ==> r.value < |children| && children[r.value].BlockNode?
    ensures r.Some? ==> forall i :: 0 <= i < r.value ==> !children[i].BlockNode?
    decreases |children|
  {
    if children == [] then None
    else if children[0].BlockNode? then Some(0)
    else
      var r := FirstBlock(children[1..]);
      assert forall i :: 1 <= i < |children| ==> children[i] == children[1..][i - 1];
      if r.Some? then Some(r.value + 1) else None
  }

  /**
   * `processTranslation` as PHP 7 runs it: children that are not blocks
   * are stepped over, but removing the first `gutenbergBlock` child ends
   * the `foreach`, so only that block is rendered and removed.
   */
  function ProcessTranslationAsWritten(node: StringNode, h: Hooks): (r: Result<StringNode, GutenbergError>)
    ensures node.cdata != "" ==> r == Success(node)
    ensures node.cdata == "" && r.Success? ==> |node.children| <= |r.value.children| + 1
    ensures node.cdata == "" && r.Success? ==> IsSubseq(r.value.children, node.children)
  {
    if node.cdata != "" then Success(node)
    else match FirstBlock(node.children)
      case None =>
        SubseqRefl(node.children);
        Success(node)
      case Some(j) =>
        var s :- RenderNodeAsWritten(node.children[j], h);
        SubseqSkipOne(node.children, j);
        Success(StringNode(s, node.children[..j] + node.children[j + 1..]))
  }

  /** Leaving out one element gives a subsequence. */
  lemma {:induction false} SubseqSkipOne<T>(xs: seq<T>, j: nat)
    requires j < |xs|
    ensures IsSubseq(xs[..j] + xs[j + 1..], xs)
    decreases j
  {
    if j == 0 {
      assert xs[..0] + xs[1..] == xs[1..];
      SubseqRefl(xs[1..]);
    } else {
      SubseqSkipOne(xs[1..], j - 1);
      assert (xs[..j] + xs[j + 1..])[0] == xs[0];
      assert (xs[..j] + xs[j + 1..])[1..] == xs[1..][..j - 1] + xs[1..][j..];
    }
  }

  /** A block of two chunks: PHP 7's loop keeps only the first, the intended loop both. */
  lemma SecondChunkDropped(h: Hooks)
    ensures RenderNodeAsWritten(BlockNode("", "", [ChunkNode("", "a"), ChunkNode("", "b")]), h) == Success("a")
    ensures RenderNode(BlockNode("", "", [ChunkNode("", "a"), ChunkNode("", "b")]), h) == Success("ab")
  {
    var n := BlockNode("", "", [ChunkNode("", "a"), ChunkNode("", "b")]);
    assert [] + ["a"] == ["a"] && ["a"] + ["b"] == ["a", "b"];
    assert SortFrom(n, 2, Sorted(["a", "b"], []), h) == Success(Sorted(["a", "b"], []));
    assert SortFrom(n, 1, Sorted(["a"], []), h) == Success(Sorted(["a", "b"], []));
    assert SortFrom(n, 0, Sorted([], []), h) == Success(Sorted(["a", "b"], []));
    ConcatTwo("a", "b");
    assert "a" + "b" == "ab";
    assert RenderNode(n, h) == Success(Concat(["a", "b"]));
    assert SortFirstChild(n, h) == Success(Sorted(["a"], []));
  }

  lemma ConcatTwo(x: string, y: string)
    ensures Concat([x]) == x && Concat([y]) == y && Concat([x, y]) == x + y
  {
    assert [x][1..] == [] && [y][1..] == [] && [x, y][1..] == [y];
  }

  /** Two blocks: PHP 7's loop renders only the first and leaves the second as a child. */
  lemma SecondBlockNotRendered(h: Hooks)
    ensures ProcessTranslationAsWritten(StringNode("", [BlockNode("", "", [ChunkNode("", "a")]), BlockNode("", "", [ChunkNode("", "b")])]), h)
         == Success(StringNode("a", [BlockNode("", "", [ChunkNode("", "b")])]))
    ensures ProcessTranslation(StringNode("", [BlockNode("", "", [ChunkNode("", "a")]), BlockNode("", "", [ChunkNode("", "b")])]), h)
         == Success(StringNode("ab", []))
  {
    var a := BlockNode("", "", [ChunkNode("", "a")]);
    var b := BlockNode("", "", [ChunkNode("", "b")]);
    assert [] + ["a"] == ["a"] && [] + ["b"] == ["b"];
    assert SortFrom(a, 1, Sorted(["a"], []), h) == Success(Sorted(["a"], []));
    assert SortFrom(a, 0, Sorted([], []), h) == Success(Sorted(["a"], []));
    assert SortFrom(b, 1, Sorted(["b"], []), h) == Success(Sorted(["b"], []));
    assert SortFrom(b, 0, Sorted([], []), h) == Success(Sorted(["b"], []));
    assert SortFirstChild(a, h) == Success(Sorted(["a"], []));
    ConcatTwo("a", "b");
    assert RenderNode(a, h) == Success("a");
    assert RenderNode(b, h) == Success("b");
    assert [a, b][1..] == [b];
    assert RenderChildren([b], h) == Success("b");
    assert "a" + "b" == "ab";
    assert RenderChildren([a, b], h) == Success("a" + "b");
    assert [a, b][..0] + [a, b][1..] == [b];
    assert NonBlockChildren([a, b]) == [];
  }

  // ----- the round trip through the translation XML -----

  /**
   * Reference rendering of a parsed block: an unnamed block is its content;
   * a named one is block comment markup around its content with its
   * attributes' leaves cast to strings. Inner blocks go where their
   * placeholders are.
   */
  function Serialize(b: Block, h: Hooks): string
    requires WellFormedBlock(b)
    decreases b, |b.innerContent| + 1
  {
    var content := SerializeContent(b, 0, h);
    if b.name.GetOr("") == "" then Concat(content) else RenderGutenbergBlock(b.name.value, Stringify(b.attrs), content, h)
  }

  function SerializeContent(b: Block, i: nat, h: Hooks): (r: seq<string>)
    requires WellFormedBlock(b) && i <= |b.innerContent|
    ensures |r| == |b.innerContent| - i
    decreases b, |b.innerContent| - i
  {
    if i == |b.innerContent| then []
    else
      var part := SerializePart(b, i, h);
      [part] + SerializeContent(b, i + 1, h)
  }

  /** The reference rendering of `innerContent` entry `i`. */
  function SerializePart(b: Block, i: nat, h: Hooks): string
    requires WellFormedBlock(b) && i < |b.innerContent|
    decreases b, 0
  {
    if b.innerContent[i].Text? then b.innerContent[i].s
    else
      CountSlotsStep(b.innerContent, i);
      CountSlotsPrefix(b.innerContent, i + 1);
      Serialize(b.innerBlocks[CountSlots(b.innerContent[..i])], h)
  }

  /** The attributes of every placed block, at every depth, are arrays the codec round-trips. */
  predicate AttributesWellFormed(b: Block)
    decreases b
  {
    WellFormed(b.attrs) &&
    forall i :: 0 <= i < CountSlots(b.innerContent) && i < |b.innerBlocks| ==> AttributesWellFormed(b.innerBlocks[i])
  }

  /**
   * Hooks that leave block attributes alone: unpacking what was packed
   * gives the array back, and the masked, filtered and unmasked attributes
   * are among the flat ones in both directions.
   */
  ghost predicate NeutralHooks(h: Hooks) {
    (forall a :: h.unpack(h.pack(a)) == Map(a)) &&
    (forall name, flat, p :: p in h.unmask(name, h.preSend(h.mask(name, flat))) ==> p in flat) &&
    (forall name, flat, p :: p in h.unmask(name, h.postReceive(h.mask(name, flat))) ==> p in flat)
  }

  /** The attribute nodes of a non-empty list: the head's node, then the tail's nodes. */
  lemma AttributeNodesCons(attrs: seq<Pair<string>>, h: Hooks)
    requires attrs != []
    ensures AttributeNodes(attrs, h)[0] == AttributeNode(attrs[0].key, h.md5(attrs[0].val), attrs[0].val)
    ensures AttributeNodes(attrs, h)[1..] == AttributeNodes(attrs[1..], h)
  {
  }

  /** The children from `i` on, past a first attribute node. */
  lemma ChildrenAfterAttribute(n: WireNode, i: nat, attrs: seq<Pair<string>>, h: Hooks)
    requires n.BlockNode? && i <= |n.children| && attrs != []
    requires n.children[i..] == AttributeNodes(attrs, h)
    ensures i < |n.children| && n.children[i] == AttributeNode(attrs[0].key, h.md5(attrs[0].val), attrs[0].val)
    ensures n.children[i + 1..] == AttributeNodes(attrs[1..], h)
  {
    AttributeNodesCons(attrs, h);
    assert n.children[i..][0] == n.children[i];
    assert n.children[i..][1..] == n.children[i + 1..];
  }

  /** An attribute node is assigned into the collected attributes by name. */
  lemma SortAttributeNode(n: WireNode, i: nat, acc: Sorted, name: string, hash: string, value: string, h: Hooks)
    requires n.BlockNode? && i < |n.children| && n.children[i] == AttributeNode(name, hash, value)
    ensures SortFrom(n, i, acc, h) == SortFrom(n, i + 1, Sorted(acc.chunks, Assign(acc.attrs, name, value)), h)
  {
  }

  /**
   * Attribute children from child `i` to the end are assigned by name in
   * order, so a later duplicate name wins.
   */
  lemma {:induction false} SortAttributes(n: WireNode, i: nat, attrs: seq<Pair<string>>, acc: Sorted, h: Hooks)
    requires n.BlockNode? && i <= |n.children|
    requires n.children[i..] == AttributeNodes(attrs, h)
    ensures SortFrom(n, i, acc, h) == Success(Sorted(acc.chunks, AssignAll(acc.attrs, attrs)))
    decreases |attrs|
  {
    if attrs != [] {
      ChildrenAfterAttribute(n, i, attrs, h);
      SortAttributeNode(n, i, acc, attrs[0].key, h.md5(attrs[0].val), attrs[0].val, h);
      SortAttributes(n, i + 1, attrs[1..], Sorted(acc.chunks, Assign(acc.attrs, attrs[0].key, attrs[0].val)), h);
    } else {
      assert |n.children| == i;
    }
  }

  /** Sorting the placed content children from `i` on yields the reference content of the block. */
  lemma {:induction false} SortContent(b: Block, i: nat, acc: Sorted, h: Hooks)
    requires WellFormedBlock(b) && AttributesWellFormed(b) && NeutralHooks(h) && i <= |b.innerContent|
    ensures SortFrom(PlaceBlock(b, h), i, acc, h) ==
      SortFrom(PlaceBlock(b, h), |b.innerContent|, Sorted(acc.chunks + SerializeContent(b, i, h), acc.attrs), h)
    decreases b, |b.innerContent| - i
  {
    var n := PlaceBlock(b, h);
    if i == |b.innerContent| {
      assert acc.chunks + SerializeContent(b, i, h) == acc.chunks;
    } else {
      var part := SerializePart(b, i, h);
      SortPart(b, i, acc, h);
      SortContent(b, i + 1, Sorted(acc.chunks + [part], acc.attrs), h);
      assert acc.chunks + [part] + SerializeContent(b, i + 1, h) == acc.chunks + SerializeContent(b, i, h);
    }
  }

  /** The child placed for `innerContent` entry `i` is collected as that entry's reference rendering. */
  lemma {:induction false} SortPart(b: Block, i: nat, acc: Sorted, h: Hooks)
    requires WellFormedBlock(b) && AttributesWellFormed(b) && NeutralHooks(h) && i < |b.innerContent|
    ensures SortFrom(PlaceBlock(b, h), i, acc, h) ==
      SortFrom(PlaceBlock(b, h), i + 1, Sorted(acc.chunks + [SerializePart(b, i, h)], acc.attrs), h)
    decreases b, |b.innerContent| - i, 0
  {
    var n := PlaceBlock(b, h);
    assert n.children[i] == PlacePart(b, i, h) by {
      assert n.children[..|b.innerContent|][i] == PlaceContent(b, 0, h)[i];
    }
    if b.innerContent[i].Slot? {
      CountSlotsStep(b.innerContent, i);
      CountSlotsPrefix(b.innerContent, i + 1);
      var inner := b.innerBlocks[CountSlots(b.innerContent[..i])];
      RenderOfPlace(inner, h);
    }
  }

  /** The attributes a placed block carries in its `blockAttribute` children are among its flat attributes. */
  lemma {:induction false} SentAttributes(b: Block, h: Hooks)
    requires NeutralHooks(h)
    ensures forall p :: p in AssignAll([], ProcessAttributes(b.name, Flatten(b.attrs, ""), h)) ==> p in Flatten(b.attrs, "")
  {
    var sent := ProcessAttributes(b.name, Flatten(b.attrs, ""), h);
    AssignAllPairs([], sent);
  }

  /** With neutral hooks the merged attributes of a well-formed array are its own leaves, cast to strings. */
  lemma {:induction false} TranslationAttributesNeutral(name: string, attrs: seq<Pair<Tree>>, translated: seq<Pair<string>>, h: Hooks)
    requires WellFormed(attrs) && NeutralHooks(h)
    requires forall p :: p in translated ==> p in Flatten(attrs, "")
    ensures TranslationAttributes(name, Map(attrs), translated, h) == Success(Stringify(attrs))
  {
    if attrs != [] {
      var flat := Flatten(attrs, "");
      FlattenIsPreOrder(attrs, "");
      FlatNonEmpty(attrs, "");
      var attr := h.unmask(name, h.postReceive(h.mask(name, flat)));
      AssignAllOfSubmap(flat, attr);
      AssignAllOfSubmap(flat, translated);
      RoundTrip(attrs);
    }
  }

  /**
   * Placing a parsed block into the translation XML and rendering the
   * untranslated node back gives the block's markup, for blocks whose
   * attributes round-trip and hooks that leave attributes alone.
   */
  lemma {:induction false} RenderOfPlace(b: Block, h: Hooks)
    requires WellFormedBlock(b) && AttributesWellFormed(b) && NeutralHooks(h)
    ensures RenderNode(PlaceBlock(b, h), h) == Success(Serialize(b, h))
    decreases b, |b.innerContent| + 1
  {
    var n := PlaceBlock(b, h);
    var sent := ProcessAttributes(b.name, Flatten(b.attrs, ""), h);
    var content := SerializeContent(b, 0, h);
    SortContent(b, 0, Sorted([], []), h);
    assert [] + content == content;
    SortAttributes(n, |b.innerContent|, sent, Sorted(content, []), h);
    var translated := AssignAll([], sent);
    assert SortFrom(n, 0, Sorted([], []), h) == Success(Sorted(content, translated));
    if b.name.GetOr("") != "" {
      SentAttributes(b, h);
      TranslationAttributesNeutral(b.name.value, b.attrs, translated, h);
    }
  }

  /** Reference rendering of a sequence of blocks. */
  function SerializeBlocks(blocks: seq<Block>, h: Hooks): (r: seq<string>)
    requires forall i :: 0 <= i < |blocks| ==> WellFormedBlock(blocks[i])
    ensures |r| == |blocks|
  {
    seq(|blocks|, i requires 0 <= i < |blocks| => Serialize(blocks[i], h))
  }

  /** Every block is well formed and its attributes flatten and structurize back. */
  predicate Renderable(blocks: seq<Block>) {
    forall i :: 0 <= i < |blocks| ==> WellFormedBlock(blocks[i]) && AttributesWellFormed(blocks[i])
  }

  lemma {:induction false} RenderPlacedBlocks(blocks: seq<Block>, h: Hooks)
    requires Renderable(blocks)
    requires NeutralHooks(h)
    ensures RenderChildren(PlaceBlocks(blocks, h), h) == Success(Concat(SerializeBlocks(blocks, h)))
    decreases |blocks|
  {
    if blocks != [] {
      BlocksCons(blocks, h);
      RenderPlacedBlocks(blocks[1..], h);
      RenderOfPlace(blocks[0], h);
      RenderChildrenCons(PlaceBlocks(blocks, h), h);
    }
  }

  /** Placing and serializing a non-empty sequence of blocks, head first. */
  lemma BlocksCons(blocks: seq<Block>, h: Hooks)
    requires blocks != [] && Renderable(blocks)
    ensures WellFormedBlock(blocks[0]) && AttributesWellFormed(blocks[0]) && Renderable(blocks[1..])
    ensures PlaceBlocks(blocks, h)[0] == PlaceBlock(blocks[0], h)
    ensures PlaceBlocks(blocks, h)[1..] == PlaceBlocks(blocks[1..], h)
    ensures Concat(SerializeBlocks(blocks, h)) == Serialize(blocks[0], h) + Concat(SerializeBlocks(blocks[1..], h))
  {
    var ss := SerializeBlocks(blocks, h);
    assert ss[1..] == SerializeBlocks(blocks[1..], h);
  }

  /** A rendered block node followed by rendered siblings. */
  lemma RenderChildrenCons(children: seq<WireNode>, h: Hooks)
    requires children != [] && children[0].BlockNode?
    ensures RenderNode(children[0], h).Success? && RenderChildren(children[1..], h).Success? ==>
      RenderChildren(children, h) == Success(RenderNode(children[0], h).value + RenderChildren(children[1..], h).value)
  {
  }

  /** Children that are not blocks render to nothing in front of the others. */
  lemma {:induction false} RenderSkipsOthers(xs: seq<WireNode>, ys: seq<WireNode>, h: Hooks)
    requires forall i :: 0 <= i < |xs| ==> !xs[i].BlockNode?
    ensures RenderChildren(xs + ys, h) == RenderChildren(ys, h)
    decreases |xs|
  {
    if xs != [] {
      assert (xs + ys)[1..] == xs[1..] + ys;
      RenderSkipsOthers(xs[1..], ys, h);
    } else {
      assert xs + ys == ys;
    }
  }

  /** Removing the block children of other children followed by blocks leaves the others. */
  lemma {:induction false} NonBlockOfOthers(xs: seq<WireNode>, ys: seq<WireNode>)
    requires forall i :: 0 <= i < |xs| ==> !xs[i].BlockNode?
    requires forall i :: 0 <= i < |ys| ==> ys[i].BlockNode?
    ensures NonBlockChildren(xs + ys) == xs
    decreases |xs| + |ys|
  {
    if xs != [] {
      assert (xs + ys)[1..] == xs[1..] + ys;
      NonBlockOfOthers(xs[1..], ys);
    } else if ys != [] {
      assert (xs + ys)[1..] == [] + ys[1..];
      NonBlockOfOthers([], ys[1..]);
    }
  }

  /**
   * A string with block markup, placed by `processString` and rendered back
   * untranslated by `processTranslation`, becomes the reference rendering of
   * its parsed blocks, and the string node keeps its other children.
   */
  lemma {:induction false} TranslationOfPlacedString(node: StringNode, h: Hooks)
    requires HasBlocks(node.cdata) && NeutralHooks(h)
    requires forall i :: 0 <= i < |node.children| ==> !node.children[i].BlockNode?
    requires Renderable(h.parseBlocks(node.cdata))
    ensures ProcessString(node, h).Success?
    ensures ProcessTranslation(ProcessString(node, h).value, h) ==
      Success(StringNode(Concat(SerializeBlocks(h.parseBlocks(node.cdata), h)), node.children))
  {
    var blocks := h.parseBlocks(node.cdata);
    var placed := PlaceBlocks(blocks, h);
    assert ProcessString(node, h) == Success(StringNode("", node.children + placed));
    RenderSkipsOthers(node.children, placed, h);
    RenderPlacedBlocks(blocks, h);
    NonBlockOfOthers(node.children, placed);
  }

  /**
   * A block whose only attribute is an empty array: its attributes are
   * non-empty but flatten to nothing, so the source merges an unassigned
   * `$attr` and fails, while the corrected merge renders no attributes.
   */
  lemma EmptyNestedAttributeFails(name: string, h: Hooks)
    ensures TranslationAttributesAsWritten(name, Map([Pair("style", Map([]))]), [], h) == Failure(UndefinedAttr)
    ensures TranslationAttributes(name, Map([Pair("style", Map([]))]), [], h) == Success([])
  {
    var attrs := [Pair("style", Map([]))];
    assert FlattenFrom([], [], "style") == [];
    assert AssignAll([], FlattenFrom([], [], "style")) == [];
    assert attrs[1..] == [];
    assert Flatten(attrs, "") == [];
  }
}
