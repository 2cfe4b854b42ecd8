/** The HTML-tree half of packages/medmd/src/index.js: the helpers `text`,
    `one`, `unknown`, `all` and `wrap` that the Markdown-to-HTML compiler
    uses to visit children, and the `transformHAST` step that turns Medium's
    title and subtitle classes back into `h1` and `h2` headings. */
module Hast {
  import opened Base

  /** A Markdown-tree node as the visitor sees it: its `type` (the empty
      string when it has none), its `value` when it has that property, the
      keys of its `data` object, and its children when it has them. */
  datatype UNode = UNode(kind: string, value: Option<string>, data: set<string>, kids: UKids)
  datatype UKids = NoKids | Kids(nodes: seq<UNode>)

  /** An HTML-tree node. `className` is None when the element has no
      `properties` or no `className` among them. */
  datatype HNode =
    | HText(value: string)
    | HElement(tagName: string, className: Option<seq<string>>, children: seq<HNode>)
    | HRoot(children: seq<HNode>)

  /** What a handler gives back: nothing (a falsy value), one node, or an
      array of nodes. */
  datatype Handled = Nothing | Single(node: HNode) | Many(nodes: seq<HNode>)

  /** The handlers by node type. A handler is an oracle here: what it builds
      is the business of the HTML-tree library. */
  type Handlers = map<string, UNode -> Handled>

  const NotANode: string := "Expected node, got `[object Object]`"

  /** `text(node)`: the node is rendered as a text node when its `data` sets
      none of `hName`, `hProperties`, `hChildren` and it has a `value`. */
  predicate RendersAsText(n: UNode): (r: bool)
    ensures r ==> n.value.Some?
    ensures r <==> n.value.Some? && n.data * {"hName", "hProperties", "hChildren"} == {}
  {
    var hast := {"hName", "hProperties", "hChildren"};
    assert n.data * hast == {} <==> "hName" !in n.data && "hProperties" !in n.data && "hChildren" !in n.data by {
      assert "hName" in hast && "hProperties" in hast && "hChildren" in hast;
      if "hName" !in n.data && "hProperties" !in n.data && "hChildren" !in n.data {
        assert forall x :: x in n.data * hast ==> x in n.data && (x == "hName" || x == "hProperties" || x == "hChildren");
        assert n.data * hast == {};
      } else {
        assert "hName" in n.data * hast || "hProperties" in n.data * hast || "hChildren" in n.data * hast;
      }
    }
    "hName" !in n.data && "hProperties" !in n.data && "hChildren" !in n.data && n.value.Some?
  }

  function ChildrenOf(n: UNode): seq<UNode>
  {
    if n.kids.Kids? then n.kids.nodes else []
  }

  /** `one(h, node)`: a node without a type is an error; a type with a
      handler goes to it; every other node goes to `unknown`. */
  function One(h: Handlers, n: UNode): (r: Result<Handled>)
    ensures r.Err? ==> r == Err(NotANode)
    decreases n, 1
  {
    if n.kind == "" then Err(NotANode)
    else if n.kind in h then Ok(h[n.kind](n))
    else Unknown(h, n)
  }

  /** `unknown(h, node)`: a text node carrying the value, or a `div` holding
      the visited children. */
  function Unknown(h: Handlers, n: UNode): (r: Result<Handled>)
    ensures r.Err? ==> r == Err(NotANode)
    ensures r.Ok? ==> r.value.Single?
    ensures RendersAsText(n) ==> r == Ok(Single(HText(n.value.value)))
    ensures !RendersAsText(n) && r.Ok? ==>
      r.value.node.HElement? && r.value.node.tagName == "div" && r.value.node.className.None?
    ensures !RendersAsText(n) ==>
      (r.Ok? <==> (if n.kids.Kids? then AllOf(h, n.kids.nodes) else Ok([])).Ok?)
    ensures !RendersAsText(n) && r.Ok? ==>
      r.value.node.children == (if n.kids.Kids? then AllOf(h, n.kids.nodes) else Ok([])).value
    decreases n, 0
  {
    if RendersAsText(n) then Ok(Single(HText(n.value.value)))
    else
      match (if n.kids.Kids? then AllOf(h, n.kids.nodes) else Ok([]))
      case Err(e) => Err(e)
      case Ok(vs) => Ok(Single(HElement("div", None, vs)))
  }

  /** The white space `\s` of a JavaScript regular expression. */
  predicate IsJsSpace(c: char)
  {
    c == ' ' || c == '\t' || c == '\n' || c == '\U{B}' || c == '\U{C}' || c == '\r'
    || c == '\U{A0}' || c == '\U{1680}' || ('\U{2000}' <= c <= '\U{200A}')
    || c == '\U{2028}' || c == '\U{2029}' || c == '\U{202F}' || c == '\U{205F}'
    || c == '\U{3000}' || c == '\U{FEFF}'
  }

  /** `trim.left`: the text without its leading white space. */
  function TrimLeft(s: string): string
  {
    if |s| > 0 && IsJsSpace(s[0]) then TrimLeft(s[1..]) else s
  }

  /** After a `break`, the result's own value, or else the value of its
      first child, loses its leading white space. An array result has
      neither and is kept. */
  function AfterBreak(r: Handled): Handled
  {
    match r
    case Single(HText(v)) => Single(HText(TrimLeft(v)))
    case Single(n) =>
      if |n.children| > 0 && n.children[0].HText? && n.children[0].value != ""
      then Single(n.(children := n.children[0 := HText(TrimLeft(n.children[0].value))]))
      else r
    case _ => r
  }

  /** `values.concat(result)` for a truthy result. */
  function Values(r: Handled): seq<HNode>
  {
    match r
    case Nothing => []
    case Single(n) => [n]
    case Many(ns) => ns
  }

  predicate FollowsBreak(nodes: seq<UNode>, i: int)
    requires 0 <= i < |nodes|
  {
    i > 0 && nodes[i - 1].kind == "break"
  }

  /** What the `i`-th child contributes once visited. */
  function Visit(h: Handlers, nodes: seq<UNode>, i: nat): (r: Result<seq<HNode>>)
    requires i < |nodes|
    ensures r.Err? ==> r == Err(NotANode)
    decreases nodes, 1, i
  {
    match One(h, nodes[i])
    case Err(e) => Err(e)
    case Ok(res) => Ok(Values(if FollowsBreak(nodes, i) then AfterBreak(res) else res))
  }

  /** `all(h, parent)` on the children `nodes[..k]`: the visits concatenated
      in order; the first failing child's error ends the visit. */
  function AllUpTo(h: Handlers, nodes: seq<UNode>, k: nat): (r: Result<seq<HNode>>)
    requires k <= |nodes|
    ensures r.Err? ==> r == Err(NotANode)
    decreases nodes, 2, k
  {
    if k == 0 then Ok([])
    else
      match AllUpTo(h, nodes, k - 1)
      case Err(e) => Err(e)
      case Ok(vs) =>
        match Visit(h, nodes, k - 1)
        case Err(e) => Err(e)
        case Ok(v) => Ok(vs + v)
  }

  function AllOf(h: Handlers, nodes: seq<UNode>): (r: Result<seq<HNode>>)
    ensures r.Err? ==> r == Err(NotANode)
    decreases nodes, 3
  {
    AllUpTo(h, nodes, |nodes|)
  }

  /** `all(h, parent)`: the loop over the parent's children. */
  method All(h: Handlers, parent: UNode) returns (r: Result<seq<HNode>>)
    ensures r == AllOf(h, ChildrenOf(parent))
  {
    var nodes := ChildrenOf(parent);
    var length := |nodes|;
    var values: seq<HNode> := [];
    var index := 0;
    while index < length
      invariant 0 <= index <= length
      invariant AllUpTo(h, nodes, index) == Ok(values)
    {
      var result := One(h, nodes[index]);
      if result.Err? {
        ErrorPersists(h, nodes, index + 1, length);
        return Err(result.error);
      }
      var res := result.value;
      if index > 0 && nodes[index - 1].kind == "break" {
        res := AfterBreak(res);
      }
      values := values + Values(res);
      index := index + 1;
    }
    return Ok(values);
  }

  const Newline: HNode := HText("\n")

  /** The entries of `nodes` with a newline text between each two. */
  function Interleave(nodes: seq<HNode>): (r: seq<HNode>)
    decreases |nodes|
  {
    if |nodes| == 0 then []
    else if |nodes| == 1 then nodes
    else Interleave(nodes[..|nodes| - 1]) + [Newline, nodes[|nodes| - 1]]
  }

  /** What `wrap(nodes, loose)` builds. */
  function Wrapped(nodes: seq<HNode>, loose: bool): seq<HNode>
  {
    (if loose then [Newline] else []) + Interleave(nodes) + (if loose && |nodes| != 0 then [Newline] else [])
  }

  /** `wrap(nodes, loose)`: the loop that pushes entries and separators. */
  method Wrap(nodes: seq<HNode>, loose: bool) returns (result: seq<HNode>)
    ensures result == Wrapped(nodes, loose)
  {
    result := [];
    if loose {
      result := result + [Newline];
    }
    var index := 0;
    var length := |nodes|;
    while index < length
      invariant 0 <= index <= length
      invariant result == (if loose then [Newline] else []) + Interleave(nodes[..index])
    {
      assert nodes[..index + 1][..index] == nodes[..index];
      if index > 0 {
        result := result + [Newline];
      }
      result := result + [nodes[index]];
      index := index + 1;
    }
    assert nodes[..length] == nodes;
    if loose && |nodes| != 0 {
      result := result + [Newline];
    }
  }

  // ---------------------------------------------------------------------
  // transformHAST
  // ---------------------------------------------------------------------

  const TitleClass: string := "graf--title"
  const SubtitleClass: string := "graf--subtitle"

  /** One child of the body: a subtitle becomes `h2`, else a title becomes
      `h1`; a node without a class list is kept. */
  function Retag(c: HNode): HNode
  {
    if !c.HElement? || c.className.None? then c
    else
      var c1 := if TitleClass in c.className.value then c.(tagName := "h1") else c;
      if SubtitleClass in c.className.value then c1.(tagName := "h2") else c1
  }

  /** The children of the body element: `tree.children[0].children[1].children`. */
  function BodyChildren(tree: HNode): Option<seq<HNode>>
  {
    if tree.HText? || |tree.children| == 0 then None
    else
      var html := tree.children[0];
      if html.HText? || |html.children| < 2 then None
      else
        var body := html.children[1];
        if body.HText? then None else Some(body.children)
  }

  /** The tree with the body's children replaced. */
  function WithBodyChildren(tree: HNode, cs: seq<HNode>): HNode
    requires BodyChildren(tree).Some?
  {
    var html := tree.children[0];
    var body := html.children[1];
    tree.(children := tree.children[0 := html.(children := html.children[1 := body.(children := cs)])])
  }

  function RetagAll(cs: seq<HNode>): seq<HNode>
  {
    seq(|cs|, i requires 0 <= i < |cs| => Retag(cs[i]))
  }

  /** `transformHAST`: a tree without a body where the source looks for it
      makes the source throw a TypeError. */
  function TransformHastSpec(tree: HNode): Result<HNode>
  {
    match BodyChildren(tree)
    case None => Err("TypeError")
    case Some(cs) => Ok(WithBodyChildren(tree, RetagAll(cs)))
  }

  /** The loop of `transformHAST`, overwriting `tagName` child by child. */
  method RetagChildren(children: array<HNode>)
    modifies children
    ensures children[..] == RetagAll(old(children[..]))
  {
    for k := 0 to children.Length
      invariant forall i :: 0 <= i < k ==> children[i] == Retag(old(children[i]))
      invariant forall i :: k <= i < children.Length ==> children[i] == old(children[i])
    {
      var c := children[k];
      if !c.HElement? || c.className.None? {
        continue;
      }
      if TitleClass in c.className.value {
        c := c.(tagName := "h1");
      }
      if SubtitleClass in c.className.value {
        c := c.(tagName := "h2");
      }
      children[k] := c;
    }
  }

  method TransformHast(tree: HNode) returns (r: Result<HNode>)
    ensures r == TransformHastSpec(tree)
  {
    var found := BodyChildren(tree);
    if found.None? {
      return Err("TypeError");
    }
    var children := new HNode[|found.value|](i requires 0 <= i < |found.value| => found.value[i]);
    assert children[..] == found.value;
    RetagChildren(children);
    r := Ok(WithBodyChildren(tree, children[..]));
  }

  // ---------------------------------------------------------------------
  // Properties.
  // ---------------------------------------------------------------------

  /** A node without a type is refused, whatever handlers there are; a typed
      node is never refused on its own account. */
  lemma OneRefusesUntyped(h: Handlers, n: UNode)
    ensures n.kind == "" ==> One(h, n) == Err(NotANode)
    ensures n.kind != "" && n.kind in h ==> One(h, n) == Ok(h[n.kind](n))
    ensures n.kind != "" && n.kind !in h ==> One(h, n) == Unknown(h, n)
    ensures n.kind != "" && n.kind !in h && RendersAsText(n) ==> One(h, n) == Ok(Single(HText(n.value.value)))
  {
  }

  /** A node that does not render as text becomes a `div` holding exactly
      the visited children, and fails exactly when visiting them fails. */
  lemma UnknownDiv(h: Handlers, n: UNode)
    requires !RendersAsText(n)
    ensures Unknown(h, n).Ok? <==> AllOf(h, ChildrenOf(n)).Ok?
    ensures Unknown(h, n).Ok? ==>
      Unknown(h, n) == Ok(Single(HElement("div", None, AllOf(h, ChildrenOf(n)).value)))
  {
  }

  /** Once a child fails, the visit keeps that child's error. */
  lemma {:induction false} ErrorPersists(h: Handlers, nodes: seq<UNode>, k: nat, m: nat)
    requires k <= m <= |nodes|
    requires AllUpTo(h, nodes, k).Err?
    ensures AllUpTo(h, nodes, m) == AllUpTo(h, nodes, k)
    decreases m - k
  {
    if k < m {
      ErrorPersists(h, nodes, k + 1, m);
    }
  }

  /** A visit fails exactly when some child fails, and then with the error
      of the first child that fails. */
  lemma {:induction false} AllFailsAtFirst(h: Handlers, nodes: seq<UNode>, k: nat)
    requires k <= |nodes|
    ensures AllUpTo(h, nodes, k).Err? <==> exists i :: 0 <= i < k && One(h, nodes[i]).Err?
    ensures AllUpTo(h, nodes, k).Err? ==>
      exists i :: 0 <= i < k && One(h, nodes[i]).Err? && AllUpTo(h, nodes, k).error == One(h, nodes[i]).error
        && forall j :: 0 <= j < i ==> One(h, nodes[j]).Ok?
  {
    if k > 0 {
      AllFailsAtFirst(h, nodes, k - 1);
      if AllUpTo(h, nodes, k - 1).Ok? && One(h, nodes[k - 1]).Err? {
        assert Visit(h, nodes, k - 1).Err?;
        assert AllUpTo(h, nodes, k).error == One(h, nodes[k - 1]).error;
      }
    }
  }

  /** Without `break` children, a visit is the concatenation of what each
      child's handler gives, in order. */
  lemma {:induction false} AllWithoutBreaks(h: Handlers, nodes: seq<UNode>, k: nat, parts: seq<Handled>)
    requires k <= |nodes| && |parts| == k
    requires forall i :: 0 <= i < k ==> nodes[i].kind != "break" && One(h, nodes[i]) == Ok(parts[i])
    ensures AllUpTo(h, nodes, k) == Ok(Flat(parts))
  {
    if k > 0 {
      AllWithoutBreaks(h, nodes, k - 1, parts[..k - 1]);
      assert parts[..k - 1] + [parts[k - 1]] == parts;
      FlatSnoc(parts[..k - 1], parts[k - 1]);
      assert !FollowsBreak(nodes, k - 1);
      assert Visit(h, nodes, k - 1) == Ok(Values(parts[k - 1]));
    }
  }

  function Flat(parts: seq<Handled>): seq<HNode>
    decreases |parts|
  {
    if parts == [] then [] else Flat(parts[..|parts| - 1]) + Values(parts[|parts| - 1])
  }

  lemma FlatSnoc(parts: seq<Handled>, p: Handled)
    ensures Flat(parts + [p]) == Flat(parts) + Values(p)
  {
    assert (parts + [p])[..|parts|] == parts;
  }

  /** Leaves whose type has no handler are visited as text nodes. */
  lemma TextLeaves(h: Handlers, nodes: seq<UNode>)
    requires forall i :: 0 <= i < |nodes| ==>
      nodes[i].kind != "" && nodes[i].kind != "break" && nodes[i].kind !in h && RendersAsText(nodes[i])
    ensures AllOf(h, nodes) == Ok(seq(|nodes|, i requires 0 <= i < |nodes| => HText(ValueOf(nodes[i]))))
  {
    var parts := seq(|nodes|, i requires 0 <= i < |nodes| => Single(HText(ValueOf(nodes[i]))));
    forall i | 0 <= i < |nodes|
      ensures One(h, nodes[i]) == Ok(parts[i])
    {
    }
    AllWithoutBreaks(h, nodes, |nodes|, parts);
    FlatSingles(parts);
    assert seq(|parts|, i requires 0 <= i < |parts| => parts[i].node)
      == seq(|nodes|, i requires 0 <= i < |nodes| => HText(ValueOf(nodes[i])));
  }

  function ValueOf(n: UNode): string
  {
    if n.value.Some? then n.value.value else ""
  }

  lemma {:induction false} FlatSingles(parts: seq<Handled>)
    requires forall i :: 0 <= i < |parts| ==> parts[i].Single?
    ensures Flat(parts) == seq(|parts|, i requires 0 <= i < |parts| => parts[i].node)
    decreases |parts|
  {
    if parts != [] {
      FlatSingles(parts[..|parts| - 1]);
    }
  }

  /** `trim.left` removes exactly the leading white space. */
  lemma {:induction false} TrimLeftDropsSpace(s: string)
    ensures |TrimLeft(s)| <= |s| && TrimLeft(s) == s[|s| - |TrimLeft(s)|..]
    ensures forall i :: 0 <= i < |s| - |TrimLeft(s)| ==> IsJsSpace(s[i])
    ensures TrimLeft(s) == [] || !IsJsSpace(TrimLeft(s)[0])
    decreases |s|
  {
    if |s| > 0 && IsJsSpace(s[0]) {
      TrimLeftDropsSpace(s[1..]);
      assert s[1..][|s| - 1 - |TrimLeft(s)|..] == s[|s| - |TrimLeft(s)|..];
    }
  }

  /** Trimming twice is trimming once. */
  lemma TrimLeftIdempotent(s: string)
    ensures TrimLeft(TrimLeft(s)) == TrimLeft(s)
  {
    TrimLeftDropsSpace(s);
  }

  /** The text after a `break` loses its leading white space: "a  \nb" split
      by a break keeps "b". */
  lemma TextAfterBreak(h: Handlers, br: UNode, t: UNode)
    requires br.kind == "break" && "break" in h
    requires t.kind != "" && t.kind !in h && RendersAsText(t)
    ensures var r := AllOf(h, [br, t]);
      r.Ok? && r.value == Values(h["break"](br)) + [HText(TrimLeft(t.value.value))]
  {
    var nodes := [br, t];
    assert One(h, br) == Ok(h["break"](br));
    assert Visit(h, nodes, 0) == Ok(Values(h["break"](br)));
    assert AllUpTo(h, nodes, 0) == Ok([]);
    assert [] + Values(h["break"](br)) == Values(h["break"](br));
    assert AllUpTo(h, nodes, 1) == Ok(Values(h["break"](br)));
    assert One(h, t) == Ok(Single(HText(t.value.value)));
    assert FollowsBreak(nodes, 1);
    assert Visit(h, nodes, 1) == Ok([HText(TrimLeft(t.value.value))]);
  }

  lemma {:induction false} InterleaveLength(nodes: seq<HNode>)
    ensures |Interleave(nodes)| == (if |nodes| == 0 then 0 else 2 * |nodes| - 1)
    decreases |nodes|
  {
    if |nodes| > 1 {
      InterleaveLength(nodes[..|nodes| - 1]);
    }
  }

  lemma {:induction false} InterleaveEntry(nodes: seq<HNode>, k: nat)
    requires k < |nodes|
    ensures 2 * k < |Interleave(nodes)| && Interleave(nodes)[2 * k] == nodes[k]
    decreases |nodes|
  {
    InterleaveLength(nodes);
    if |nodes| > 1 {
      var p := nodes[..|nodes| - 1];
      InterleaveLength(p);
      if k < |p| {
        InterleaveEntry(p, k);
      }
    }
  }

  lemma {:induction false} InterleaveSeparator(nodes: seq<HNode>, k: nat)
    requires k + 1 < |nodes|
    ensures 2 * k + 1 < |Interleave(nodes)| && Interleave(nodes)[2 * k + 1] == Newline
    decreases |nodes|
  {
    InterleaveLength(nodes);
    var p := nodes[..|nodes| - 1];
    InterleaveLength(p);
    if k + 1 < |p| {
      InterleaveSeparator(p, k);
    }
  }

  /** `wrap` puts the `k`-th entry at position `2k` (one further when
      loose) and a newline between each two entries. */
  lemma InterleavePositions(nodes: seq<HNode>)
    ensures |Interleave(nodes)| == (if |nodes| == 0 then 0 else 2 * |nodes| - 1)
    ensures forall k :: 0 <= k < |nodes| ==> Interleave(nodes)[2 * k] == nodes[k]
    ensures forall k :: 0 <= k < |nodes| - 1 ==> Interleave(nodes)[2 * k + 1] == Newline
  {
    InterleaveLength(nodes);
    forall k | 0 <= k < |nodes|
      ensures Interleave(nodes)[2 * k] == nodes[k]
    {
      InterleaveEntry(nodes, k);
    }
    forall k | 0 <= k < |nodes| - 1
      ensures Interleave(nodes)[2 * k + 1] == Newline
    {
      InterleaveSeparator(nodes, k);
    }
  }

  /** Taking back every other entry of `wrap`'s result recovers the nodes. */
  lemma Unwrap(nodes: seq<HNode>, loose: bool)
    ensures var w := Wrapped(nodes, loose);
      var off := if loose then 1 else 0;
      |w| == (if |nodes| == 0 then off else 2 * |nodes| - 1 + 2 * off)
      && seq(|nodes|, k requires 0 <= k < |nodes| => w[2 * k + off]) == nodes
      && (loose ==> w[0] == Newline && w[|w| - 1] == Newline)
  {
    InterleavePositions(nodes);
  }

  /** Each body child after `transformHAST`: `h2` for a subtitle, else `h1`
      for a title, otherwise the tag it had; nothing but the tag changes. */
  lemma RetagRule(c: HNode)
    ensures c.HElement? && c.className.Some? && SubtitleClass in c.className.value ==> Retag(c) == c.(tagName := "h2")
    ensures c.HElement? && c.className.Some? && TitleClass in c.className.value && SubtitleClass !in c.className.value
      ==> Retag(c) == c.(tagName := "h1")
    ensures !c.HElement? || c.className.None? || (TitleClass !in c.className.value && SubtitleClass !in c.className.value)
      ==> Retag(c) == c
    ensures Retag(c).HElement? <==> c.HElement?
    ensures c.HElement? ==> Retag(c).className == c.className && Retag(c).children == c.children
  {
  }

  /** Running `transformHAST` again changes nothing. */
  lemma TransformHastIdempotent(tree: HNode)
    requires TransformHastSpec(tree).Ok?
    ensures TransformHastSpec(TransformHastSpec(tree).value) == TransformHastSpec(tree)
  {
    var cs := BodyChildren(tree).value;
    var t1 := WithBodyChildren(tree, RetagAll(cs));
    assert BodyChildren(t1) == Some(RetagAll(cs));
    forall i | 0 <= i < |cs|
      ensures Retag(Retag(cs[i])) == Retag(cs[i])
    {
      RetagRule(cs[i]);
    }
    assert RetagAll(RetagAll(cs)) == RetagAll(cs);
    var html := t1.children[0];
    var body := html.children[1];
    assert body.(children := RetagAll(cs)) == body;
    assert html.(children := html.children[1 := body]) == html;
    assert t1.(children := t1.children[0 := html]) == t1;
  }

  /** The source throws exactly when the tree has no body at
      `children[0].children[1]`; otherwise only the body's children change. */
  lemma TransformHastShape(tree: HNode)
    ensures TransformHastSpec(tree).Err? <==> BodyChildren(tree).None?
    ensures TransformHastSpec(tree).Ok? ==>
      BodyChildren(TransformHastSpec(tree).value) == Some(RetagAll(BodyChildren(tree).value))
      && |TransformHastSpec(tree).value.children| == |tree.children|
      && TransformHastSpec(tree).value.children[1..] == tree.children[1..]
    ensures TransformHastSpec(tree).Ok? ==>
      var r, html, body := TransformHastSpec(tree).value, tree.children[0], tree.children[0].children[1];
      r == tree.(children := r.children)
      && r.children[0] == html.(children := r.children[0].children)
      && |r.children[0].children| == |html.children|
      && r.children[0].children[0] == html.children[0]
      && r.children[0].children[2..] == html.children[2..]
      && r.children[0].children[1] == body.(children := RetagAll(body.children))
  {
  }

  /** The test "should transform h3 and h4 at head to # and ##": the title
      and subtitle are retagged and the other headings are not. */
  lemma MediumHeadings(t: seq<HNode>, s: seq<HNode>, h: seq<HNode>, sh: seq<HNode>, p: seq<HNode>)
    ensures var body := [
        HElement("h3", Some(["graf", "graf--h3", "graf--leading", "graf--title", "is-selected"]), t),
        HElement("h4", Some(["graf", "graf--h4", "graf-after--h3", "graf--subtitle"]), s),
        HElement("h3", Some(["graf", "graf--h3", "graf-after--h4"]), h),
        HElement("h4", Some(["graf", "graf--h4", "graf-after--h3"]), sh),
        HElement("p", Some(["graf", "graf--p", "graf-after--h4", "graf--trailing"]), p)];
      var r := RetagAll(body);
      |r| == 5 && r[0].tagName == "h1" && r[1].tagName == "h2" && r[2].tagName == "h3"
      && r[3].tagName == "h4" && r[4].tagName == "p"
  {
    var t3: seq<string> := ["graf", "graf--h3", "graf--leading", "graf--title", "is-selected"];
    assert t3[3] == TitleClass;
    var t4: seq<string> := ["graf", "graf--h4", "graf-after--h3", "graf--subtitle"];
    assert t4[3] == SubtitleClass;
  }
}
