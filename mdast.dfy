/** The Markdown-tree rewrite `transformMDAST` of packages/medmd/src/index.js,
    run between parsing Markdown and producing Medium's HTML. Nodes are
    values; `children` that the source may find null are a `Children` value.
    Image sizes come from an oracle that stands for the download or file read
    and the `image-size` library. */
module Mdast {
  import opened Base

  datatype Dims = Dims(width: int, height: int)

  /** Where an image's size is read from: an `http(s)://` URL is fetched,
      anything else is a path resolved against the directory of the first
      file in the document's history, when there is one. */
  datatype Source = Remote(url: string) | Local(historyHead: Option<string>, path: string)

  datatype Node =
    | Blockquote(children: seq<Node>)
    | Paragraph(children: seq<Node>)
    | Image(url: string, alt: Option<string>, title: Option<string>, size: Option<Dims>)
    | Text(value: string)
    | Heading(depth: int, kids: Children)
    | Figure(className: Option<string>, children: seq<Node>)
    | Figcaption(children: seq<Node>)
    /** Every other node type (`list`, `code`, `emphasis`, `break`, ...).
        Its `kind` is never one of the types above, which have their own
        constructors; `IsOtherKind` says so where it matters. */
    | Other(kind: string, kids: Children)

  datatype Children = Absent | Present(nodes: seq<Node>)

  /** The node types `Other` stands for: those without a constructor of
      their own. */
  predicate IsOtherKind(kind: string)
  {
    kind !in {"blockquote", "paragraph", "image", "text", "heading", "figure", "figcaption"}
  }

  /** What the transform learns from outside the tree. */
  datatype Env = Env(sizeOf: Source -> Dims, historyHead: Option<string>)

  const RowClass: string := "graf--layoutOutsetRow"
  const RowContinueClass: string := "graf--layoutOutsetRowContinue"
  const CaptionSeparator: string := " | "

  /** isEmpty: the text is made of spaces (U+0020) only. */
  predicate IsEmpty(s: string): (r: bool)
    ensures r <==> s == seq(|s|, i => ' ')
  {
    forall i :: 0 <= i < |s| ==> s[i] == ' '
  }

  /** `/^ *$/` accepts the empty text and runs of spaces, and nothing with
      a tab, a newline or a no-break space in it; blank texts concatenate. */
  lemma IsEmptyCases(a: string, b: string)
    ensures IsEmpty("") && IsEmpty("   ")
    ensures !IsEmpty(" \t") && !IsEmpty("\n") && !IsEmpty("\U{A0}")
    ensures IsEmpty(a + b) <==> IsEmpty(a) && IsEmpty(b)
  {
    assert " \t"[1] == '\t';
    assert "\n"[0] == '\n';
    assert "\U{A0}"[0] == '\U{A0}';
    if IsEmpty(a) && IsEmpty(b) {
      assert forall i :: 0 <= i < |a + b| ==> (a + b)[i] == (if i < |a| then a[i] else b[i - |a|]);
    }
    if IsEmpty(a + b) {
      assert forall i :: 0 <= i < |a| ==> a[i] == (a + b)[i];
      assert forall i :: 0 <= i < |b| ==> b[i] == (a + b)[|a| + i];
    }
  }

  predicate IsHttp(url: string)
  {
    (|url| >= 7 && url[..7] == "http://") || (|url| >= 8 && url[..8] == "https://")
  }

  function SourceOf(url: string, env: Env): Source
  {
    if IsHttp(url) then Remote(url) else Local(env.historyHead, url)
  }

  /** `n.alt || n.title || ""`: an absent or empty alt falls back to the title. */
  function Caption(img: Node): string
    requires img.Image?
  {
    if img.alt.Some? && img.alt.value != "" then img.alt.value
    else if img.title.Some? && img.title.value != "" then img.title.value
    else ""
  }

  /** A child that does not keep a paragraph from being an image row. */
  predicate ImageOrBlank(n: Node)
  {
    n.Image? || (n.Text? && IsEmpty(n.value))
  }

  predicate OnlyImages(cs: seq<Node>)
  {
    forall i :: 0 <= i < |cs| ==> ImageOrBlank(cs[i])
  }

  /** The image children, in order. */
  function Images(cs: seq<Node>): (imgs: seq<Node>)
    ensures |imgs| <= |cs|
    ensures forall j :: 0 <= j < |imgs| ==> imgs[j].Image?
    decreases |cs|
  {
    if cs == [] then []
    else Images(cs[..|cs| - 1]) + (if cs[|cs| - 1].Image? then [cs[|cs| - 1]] else [])
  }

  /** The non-empty texts of a list, in order. */
  function NonEmpty(ss: seq<string>): (r: seq<string>)
    ensures forall j :: 0 <= j < |r| ==> r[j] != ""
    decreases |ss|
  {
    if ss == [] then []
    else NonEmpty(ss[..|ss| - 1]) + (if ss[|ss| - 1] != "" then [ss[|ss| - 1]] else [])
  }

  function CaptionsOf(imgs: seq<Node>): seq<string>
    requires forall j :: 0 <= j < |imgs| ==> imgs[j].Image?
  {
    seq(|imgs|, j requires 0 <= j < |imgs| => Caption(imgs[j]))
  }

  /** The non-empty captions of a paragraph's images, in order. */
  function Captions(cs: seq<Node>): seq<string>
  {
    NonEmpty(CaptionsOf(Images(cs)))
  }

  /** The caption a row figure shows: its own while the row has at most one
      non-empty caption, otherwise all of them on the first figure and none
      on the others. */
  function RowCaption(img: Node, j: nat, captions: seq<string>): string
    requires img.Image?
  {
    if |captions| <= 1 then Caption(img)
    else if j == 0 then Join(captions, CaptionSeparator)
    else ""
  }

  /** The `j`-th figure of an image row; the image gains its size. */
  function RowFigure(img: Node, j: nat, captions: seq<string>, env: Env): Node
    requires img.Image?
  {
    Figure(
      Some(if j == 0 then RowClass else RowContinueClass),
      [img.(size := Some(env.sizeOf(SourceOf(img.url, env)))),
       Figcaption([Text(RowCaption(img, j, captions))])])
  }

  function Row(imgs: seq<Node>, captions: seq<string>, env: Env): seq<Node>
    requires forall j :: 0 <= j < |imgs| ==> imgs[j].Image?
  {
    seq(|imgs|, j requires 0 <= j < |imgs| => RowFigure(imgs[j], j, captions, env))
  }

  /** The figure a bare image becomes. */
  function LoneFigure(img: Node): Node
    requires img.Image?
  {
    Figure(None, [img, Figcaption([Text(Caption(img))])])
  }

  /** A blockquote's children with every paragraph replaced by its own
      children. */
  function Flatten(cs: seq<Node>): seq<Node>
    decreases |cs|
  {
    if cs == [] then []
    else
      var last := cs[|cs| - 1];
      Flatten(cs[..|cs| - 1]) + (if last.Paragraph? then last.children else [last])
  }

  /** `t(node)`: the nodes that replace one node. */
  function TNode(n: Node, env: Env): seq<Node>
    decreases n
  {
    match n
    case Blockquote(cs) => [Blockquote(Flatten(cs))]
    case Paragraph(cs) =>
      if !OnlyImages(cs) then [Paragraph(TSeq(cs, env))]
      else if |Images(cs)| < 2 then TSeq(cs, env)
      else Row(Images(cs), Captions(cs), env)
    case Image(_, _, _, _) => [LoneFigure(n)]
    case Text(_) => [n]
    case Heading(d, kids) => if kids.Present? then [Heading(d, Present(TSeq(kids.nodes, env)))] else [n]
    case Figure(c, cs) => [Figure(c, TSeq(cs, env))]
    case Figcaption(cs) => [Figcaption(TSeq(cs, env))]
    case Other(k, kids) => if kids.Present? then [Other(k, Present(TSeq(kids.nodes, env)))] else [n]
  }

  /** `transform(children)`: the in-order concatenation of what each child
      becomes. */
  function TSeq(cs: seq<Node>, env: Env): seq<Node>
    decreases cs
  {
    if cs == [] then [] else TSeq(cs[..|cs| - 1], env) + TNode(cs[|cs| - 1], env)
  }

  predicate IsHeading(n: Node, depth: int)
  {
    n.Heading? && n.depth == depth
  }

  /** The renumbering at the end of transformMDAST, with the length checks
      the source lacks: a leading `#` becomes depth 3 and, only then, a
      following `##` becomes depth 4. */
  function Renumber(cs: seq<Node>): seq<Node>
  {
    if |cs| == 0 || !IsHeading(cs[0], 1) then cs
    else
      var c := cs[0 := cs[0].(depth := 3)];
      if |c| < 2 || !IsHeading(c[1], 2) then c
      else c[1 := c[1].(depth := 4)]
  }

  /** The renumbering as the source writes it: `tree.children[0].type` and
      `tree.children[1].type` are read without checking that those children
      exist, so an empty tree, or one whose only child is a `#` heading,
      throws a TypeError. */
  function RenumberAsWritten(cs: seq<Node>): Result<seq<Node>>
  {
    if |cs| == 0 then Err("Cannot read property 'type' of undefined")
    else if !IsHeading(cs[0], 1) then Ok(cs)
    else
      var c := cs[0 := cs[0].(depth := 3)];
      if |c| < 2 then Err("Cannot read property 'type' of undefined")
      else if !IsHeading(c[1], 2) then Ok(c)
      else Ok(c[1 := c[1].(depth := 4)])
  }

  // ---------------------------------------------------------------------
  // The rewrite as the source runs it: loops that fill arrays.
  // ---------------------------------------------------------------------

  /** The transformer: transform the root's children, then renumber. */
  method TransformTree(tree: seq<Node>, env: Env) returns (r: seq<Node>)
    ensures r == Renumber(TSeq(tree, env))
  {
    r := TransformChildren(tree, env);
    if |r| == 0 || !IsHeading(r[0], 1) {
      return;
    }
    r := r[0 := r[0].(depth := 3)];
    if |r| < 2 || !IsHeading(r[1], 2) {
      return;
    }
    r := r[1 := r[1].(depth := 4)];
  }

  method TransformChildren(cs: seq<Node>, env: Env) returns (r: seq<Node>)
    ensures r == TSeq(cs, env)
    decreases cs
  {
    r := [];
    for k := 0 to |cs|
      invariant r == TSeq(cs[..k], env)
    {
      assert cs[..k + 1][..k] == cs[..k];
      var replaced := TransformNode(cs[k], env);
      r := r + replaced;
    }
    assert cs[..|cs|] == cs;
  }

  method TransformNode(n: Node, env: Env) returns (r: seq<Node>)
    ensures r == TNode(n, env)
    decreases n
  {
    match n
    case Blockquote(cs) =>
      var c: seq<Node> := [];
      for k := 0 to |cs|
        invariant c == Flatten(cs[..k])
      {
        assert cs[..k + 1][..k] == cs[..k];
        if cs[k].Paragraph? {
          c := c + cs[k].children;
        } else {
          c := c + [cs[k]];
        }
      }
      assert cs[..|cs|] == cs;
      r := [Blockquote(c)];
    case Paragraph(cs) =>
      r := TransformParagraph(cs, env);
    case Image(_, _, _, _) =>
      r := [Figure(None, [n, Figcaption([Text(Caption(n))])])];
    case Text(_) =>
      r := [n];
    case Heading(d, kids) =>
      if kids.Present? {
        var t := TransformChildren(kids.nodes, env);
        r := [Heading(d, Present(t))];
      } else {
        r := [n];
      }
    case Figure(c, cs) =>
      var t := TransformChildren(cs, env);
      r := [Figure(c, t)];
    case Figcaption(cs) =>
      var t := TransformChildren(cs, env);
      r := [Figcaption(t)];
    case Other(k, kids) =>
      if kids.Present? {
        var t := TransformChildren(kids.nodes, env);
        r := [Other(k, Present(t))];
      } else {
        r := [n];
      }
  }

  /** The `paragraph` case: one pass classifies the children and collects the
      captions, a second builds the figures of an image row. */
  method TransformParagraph(cs: seq<Node>, env: Env) returns (r: seq<Node>)
    ensures r == TNode(Paragraph(cs), env)
    decreases Paragraph(cs), 0
  {
    var isOnlyImage, len, captions := ScanParagraph(cs);
    if !isOnlyImage {
      var t := TransformChildren(cs, env);
      return [Paragraph(t)];
    }
    if len < 2 {
      r := TransformChildren(cs, env);
      return;
    }
    r := BuildRow(cs, captions, env);
  }

  /** The first loop of the `paragraph` case. */
  method ScanParagraph(cs: seq<Node>) returns (isOnlyImage: bool, len: nat, captions: seq<string>)
    ensures isOnlyImage == OnlyImages(cs)
    ensures len == |Images(cs)|
    ensures captions == Captions(cs)
  {
    isOnlyImage := true;
    len := 0;
    captions := [];
    for k := 0 to |cs|
      invariant isOnlyImage == OnlyImages(cs[..k])
      invariant len == |Images(cs[..k])|
      invariant captions == Captions(cs[..k])
    {
      ImagesSnoc(cs, k);
      var n := cs[k];
      if n.Image? {
        var caption := Caption(n);
        if caption != "" {
          captions := captions + [caption];
        }
        len := len + 1;
      } else if n.Text? {
        if !IsEmpty(n.value) {
          isOnlyImage := false;
        }
      } else {
        isOnlyImage := false;
      }
    }
    assert cs[..|cs|] == cs;
  }

  /** The second loop of the `paragraph` case: one figure per image. */
  method BuildRow(cs: seq<Node>, captions: seq<string>, env: Env) returns (c: seq<Node>)
    ensures c == Row(Images(cs), captions, env)
  {
    var i := 0;
    c := [];
    for k := 0 to |cs|
      invariant i == |Images(cs[..k])|
      invariant c == Row(Images(cs[..k]), captions, env)
    {
      ImagesOnlySnoc(cs, k);
      var n := cs[k];
      if n.Image? {
        var size := env.sizeOf(SourceOf(n.url, env));
        var caption;
        if |captions| <= 1 {
          caption := Caption(n);
        } else if i == 0 {
          caption := Join(captions, CaptionSeparator);
        } else {
          caption := "";
        }
        var img := n.(size := Some(size));
        var figure := Figure(Some(if i == 0 then RowClass else RowContinueClass),
                             [img, Figcaption([Text(caption)])]);
        assert caption == RowCaption(n, i, captions);
        assert figure == RowFigure(n, i, captions, env);
        RowSnoc(Images(cs[..k]), n, captions, env);
        c := c + [figure];
        i := i + 1;
      }
    }
    assert cs[..|cs|] == cs;
  }

  /** One more child extends the images and captions found so far. */
  lemma ImagesSnoc(cs: seq<Node>, k: nat)
    requires k < |cs|
    ensures Images(cs[..k + 1]) == Images(cs[..k]) + (if cs[k].Image? then [cs[k]] else [])
    ensures OnlyImages(cs[..k + 1]) == (OnlyImages(cs[..k]) && ImageOrBlank(cs[k]))
    ensures Captions(cs[..k + 1])
      == Captions(cs[..k]) + (if cs[k].Image? && Caption(cs[k]) != "" then [Caption(cs[k])] else [])
  {
    assert cs[..k + 1][..k] == cs[..k];
    var before := CaptionsOf(Images(cs[..k]));
    if cs[k].Image? {
      var after := before + [Caption(cs[k])];
      assert CaptionsOf(Images(cs[..k + 1])) == after;
      assert after[..|after| - 1] == before;
    } else {
      assert CaptionsOf(Images(cs[..k + 1])) == before;
    }
  }

  lemma ImagesOnlySnoc(cs: seq<Node>, k: nat)
    requires k < |cs|
    ensures Images(cs[..k + 1]) == Images(cs[..k]) + (if cs[k].Image? then [cs[k]] else [])
  {
    assert cs[..k + 1][..k] == cs[..k];
  }

  lemma RowSnoc(imgs: seq<Node>, img: Node, captions: seq<string>, env: Env)
    requires forall j :: 0 <= j < |imgs| ==> imgs[j].Image?
    requires img.Image?
    ensures Row(imgs + [img], captions, env) == Row(imgs, captions, env) + [RowFigure(img, |imgs|, captions, env)]
  {
  }

  // ---------------------------------------------------------------------
  // Properties of the rewrite.
  // ---------------------------------------------------------------------

  /** transform distributes over concatenation: each child is rewritten on
      its own and the results stay in order. */
  lemma {:induction false} TSeqAppend(a: seq<Node>, b: seq<Node>, env: Env)
    ensures TSeq(a + b, env) == TSeq(a, env) + TSeq(b, env)
    decreases |b|
  {
    if b != [] {
      var b' := b[..|b| - 1];
      assert (a + b)[..|a + b| - 1] == a + b';
      assert (a + b)[|a + b| - 1] == b[|b| - 1];
      TSeqAppend(a, b', env);
    } else {
      assert a + b == a;
    }
  }

  /** The first child's replacement comes first. */
  lemma TSeqCons(n: Node, rest: seq<Node>, env: Env)
    ensures TSeq([n] + rest, env) == TNode(n, env) + TSeq(rest, env)
  {
    TSeqAppend([n], rest, env);
    assert [n][..0] == [];
  }

  lemma {:induction false} FlattenAppend(a: seq<Node>, b: seq<Node>)
    ensures Flatten(a + b) == Flatten(a) + Flatten(b)
    decreases |b|
  {
    if b != [] {
      var b' := b[..|b| - 1];
      assert (a + b)[..|a + b| - 1] == a + b';
      FlattenAppend(a, b');
    } else {
      assert a + b == a;
    }
  }

  /** In a blockquote each paragraph gives way to its children, every other
      child stays where it is, and nothing inside is rewritten further. */
  lemma BlockquoteFlattens(p: seq<Node>, before: seq<Node>, after: seq<Node>, env: Env)
    ensures TNode(Blockquote(before + [Paragraph(p)] + after), env)
      == [Blockquote(Flatten(before) + p + Flatten(after))]
  {
    FlattenAppend(before + [Paragraph(p)], after);
    FlattenAppend(before, [Paragraph(p)]);
  }

  /** A blockquote without paragraphs keeps its children exactly. */
  lemma {:induction false} FlattenWithoutParagraphs(cs: seq<Node>)
    requires forall i :: 0 <= i < |cs| ==> !cs[i].Paragraph?
    ensures Flatten(cs) == cs
    decreases |cs|
  {
    if cs != [] {
      FlattenWithoutParagraphs(cs[..|cs| - 1]);
      assert cs == cs[..|cs| - 1] + [cs[|cs| - 1]];
    }
  }

  lemma {:induction false} ImagesAppend(a: seq<Node>, b: seq<Node>)
    ensures Images(a + b) == Images(a) + Images(b)
    decreases |b|
  {
    if b != [] {
      var b' := b[..|b| - 1];
      assert (a + b)[..|a + b| - 1] == a + b';
      ImagesAppend(a, b');
    } else {
      assert a + b == a;
    }
  }

  /** A row paragraph becomes one figure per image, in order, and nothing
      else: its blank texts are dropped. The first figure opens the row, the
      others continue it, and every image carries its size. */
  lemma ImageRow(cs: seq<Node>, env: Env)
    requires OnlyImages(cs) && |Images(cs)| >= 2
    ensures var r := TNode(Paragraph(cs), env);
      |r| == |Images(cs)|
      && forall j :: 0 <= j < |r| ==>
        r[j].Figure?
        && r[j].className == Some(if j == 0 then RowClass else RowContinueClass)
        && |r[j].children| == 2
        && r[j].children[0] == Images(cs)[j].(size := Some(env.sizeOf(SourceOf(Images(cs)[j].url, env))))
        && r[j].children[1] == Figcaption([Text(
             if |Captions(cs)| <= 1 then Caption(Images(cs)[j])
             else if j == 0 then Join(Captions(cs), CaptionSeparator)
             else "")])
  {
  }

  lemma {:induction false} NonEmptyAppend(a: seq<string>, b: seq<string>)
    ensures NonEmpty(a + b) == NonEmpty(a) + NonEmpty(b)
    decreases |b|
  {
    if b != [] {
      var b' := b[..|b| - 1];
      assert (a + b)[..|a + b| - 1] == a + b';
      NonEmptyAppend(a, b');
    } else {
      assert a + b == a;
    }
  }

  /** The text a figure's caption shows. */
  function Shown(fig: Node): string
  {
    if fig.Figure? && |fig.children| == 2 && fig.children[1].Figcaption?
       && |fig.children[1].children| == 1 && fig.children[1].children[0].Text?
    then fig.children[1].children[0].value
    else ""
  }

  function ShownAll(figs: seq<Node>): seq<string>
  {
    seq(|figs|, j requires 0 <= j < |figs| => Shown(figs[j]))
  }

  /** Whichever caption rule applies, the captions a row shows, read in
      order and joined, are exactly the images' non-empty captions joined:
      no caption is lost and none is shown twice. */
  lemma RowShowsEveryCaption(cs: seq<Node>, env: Env)
    requires OnlyImages(cs) && |Images(cs)| >= 2
    ensures Join(NonEmpty(ShownAll(TNode(Paragraph(cs), env))), CaptionSeparator)
      == Join(Captions(cs), CaptionSeparator)
  {
    var captions := Captions(cs);
    if |captions| <= 1 {
      ShownOwn(cs, env);
    } else {
      ShownMerged(cs, env);
      MergedJoin(captions, |Images(cs)| - 1);
    }
  }

  lemma MergedJoin(captions: seq<string>, m: nat)
    requires |captions| > 0 && captions[0] != ""
    ensures Join(NonEmpty([Join(captions, CaptionSeparator)] + seq(m, j => "")), CaptionSeparator)
      == Join(captions, CaptionSeparator)
  {
    var joined := Join(captions, CaptionSeparator);
    assert joined != "" by {
      JoinStartsWithFirst(captions, CaptionSeparator);
    }
    NonEmptyAppend([joined], seq(m, j => ""));
    NoneNonEmpty(m);
    assert NonEmpty([joined]) == [joined] by {
      assert [joined][..0] == [];
    }
  }

  /** With at most one caption, the row shows each image's own. */
  lemma ShownOwn(cs: seq<Node>, env: Env)
    requires OnlyImages(cs) && |Images(cs)| >= 2 && |Captions(cs)| <= 1
    ensures ShownAll(TNode(Paragraph(cs), env)) == CaptionsOf(Images(cs))
  {
    RowCaptionRule(cs, env);
  }

  /** With more, the first figure shows them all and the rest nothing. */
  lemma ShownMerged(cs: seq<Node>, env: Env)
    requires OnlyImages(cs) && |Images(cs)| >= 2 && |Captions(cs)| > 1
    ensures ShownAll(TNode(Paragraph(cs), env))
      == [Join(Captions(cs), CaptionSeparator)] + seq(|Images(cs)| - 1, j => "")
  {
    RowCaptionRule(cs, env);
  }

  lemma {:induction false} NoneNonEmpty(n: nat)
    ensures NonEmpty(seq(n, j => "")) == []
    decreases n
  {
    if n > 0 {
      assert seq(n, j => "")[..n - 1] == seq(n - 1, j => "");
      NoneNonEmpty(n - 1);
    }
  }

  lemma JoinStartsWithFirst(parts: seq<string>, sep: string)
    requires |parts| > 0
    ensures |Join(parts, sep)| >= |parts[0]| && Join(parts, sep)[..|parts[0]|] == parts[0]
  {
  }

  /** With at most one non-empty caption in the row, each figure shows its
      own image's caption; with more, the first shows them all. */
  lemma RowCaptionRule(cs: seq<Node>, env: Env)
    requires OnlyImages(cs) && |Images(cs)| >= 2
    ensures var r := TNode(Paragraph(cs), env);
      forall j :: 0 <= j < |r| ==>
        Shown(r[j]) == (if |Captions(cs)| <= 1 then Caption(Images(cs)[j])
                        else if j == 0 then Join(Captions(cs), CaptionSeparator)
                        else "")
  {
  }

  /** An image-only paragraph with fewer than two images is replaced by its
      rewritten children; a single image becomes a bare figure. */
  lemma ShortImageParagraph(cs: seq<Node>, env: Env)
    requires OnlyImages(cs) && |Images(cs)| < 2
    ensures TNode(Paragraph(cs), env) == TSeq(cs, env)
    ensures cs == [] ==> TNode(Paragraph(cs), env) == []
  {
  }

  /** The test "1 image": `![Red](fixtures/red.png)` becomes a figure whose
      caption is the alt text, without a row class and without a size. */
  lemma SingleImage(img: Node, env: Env)
    requires img.Image?
    ensures TNode(Paragraph([img]), env) == [Figure(None, [img, Figcaption([Text(Caption(img))])])]
  {
    assert OnlyImages([img]);
    assert Images([img]) == [img] by {
      assert [img][..0] == [];
    }
    TSeqCons(img, [], env);
  }

  /** A paragraph holding anything but images and blank text keeps its node
      and has its children rewritten. */
  lemma MixedParagraph(cs: seq<Node>, env: Env)
    requires exists i :: 0 <= i < |cs| && !ImageOrBlank(cs[i])
    ensures TNode(Paragraph(cs), env) == [Paragraph(TSeq(cs, env))]
  {
  }

  /** The images of a paragraph "image, blank, image". */
  lemma ImagesOfPair(x: Node, blank: Node, y: Node)
    requires x.Image? && y.Image? && !blank.Image?
    ensures Images([x, blank, y]) == [x, y]
  {
    ImagesAppend([x, blank], [y]);
    ImagesAppend([x], [blank]);
    assert Images([x]) == [x] by { assert [x][..0] == []; }
    assert Images([y]) == [y] by { assert [y][..0] == []; }
    assert Images([blank]) == [] by { assert [blank][..0] == []; }
    assert [x, blank, y] == [x, blank] + [y];
    assert [x, blank] == [x] + [blank];
  }

  lemma NonEmptyPair(a: string, b: string)
    requires a != "" && b != ""
    ensures NonEmpty([a, b]) == [a, b]
  {
    NonEmptyAppend([a], [b]);
    assert NonEmpty([a]) == [a] by { assert [a][..0] == []; }
    assert NonEmpty([b]) == [b] by { assert [b][..0] == []; }
    assert [a, b] == [a] + [b];
  }

  /** Two captioned images separated by blank text: the first figure opens
      the row and shows both captions, the second shows none. */
  lemma CaptionedPair(x: Node, blank: Node, y: Node, env: Env)
    requires x.Image? && y.Image? && Caption(x) != "" && Caption(y) != ""
    requires blank.Text? && IsEmpty(blank.value)
    ensures var r := TNode(Paragraph([x, blank, y]), env);
      |r| == 2 && r[0].Figure? && r[1].Figure?
      && r[0].className == Some(RowClass) && r[1].className == Some(RowContinueClass)
      && Shown(r[0]) == Caption(x) + CaptionSeparator + Caption(y) && Shown(r[1]) == ""
  {
    var cs := [x, blank, y];
    assert OnlyImages(cs) by {
      assert forall i :: 0 <= i < |cs| ==> ImageOrBlank(cs[i]);
    }
    ImagesOfPair(x, blank, y);
    assert CaptionsOf([x, y]) == [Caption(x), Caption(y)];
    NonEmptyPair(Caption(x), Caption(y));
    ImageRow(cs, env);
    RowCaptionRule(cs, env);
    var pair := [Caption(x), Caption(y)];
    assert Join(pair, CaptionSeparator) == Caption(x) + CaptionSeparator + Caption(y) by {
      assert pair[1..] == [Caption(y)];
    }
  }

  /** The test "2 images": captions "Red" and "Green" are both shown on the
      first figure. */
  lemma TwoImages(red: Node, green: Node, env: Env)
    requires red.Image? && red.alt == Some("Red")
    requires green.Image? && green.alt == Some("Green")
    ensures var r := TNode(Paragraph([red, Text(" "), green]), env);
      |r| == 2 && Shown(r[0]) == "Red | Green" && Shown(r[1]) == ""
      && r[0].Figure? && r[1].Figure? && r[0].className == Some(RowClass) && r[1].className == Some(RowContinueClass)
  {
    assert Caption(red) == "Red" && Caption(green) == "Green";
    CaptionedPair(red, Text(" "), green, env);
    assert "Red" + CaptionSeparator + "Green" == "Red | Green";
  }

  /** A leading `#` heading becomes depth 3; a `##` right after it becomes
      depth 4, but only then; every other node is untouched. */
  lemma RenumberDepths(cs: seq<Node>)
    ensures var r := Renumber(cs);
      |r| == |cs|
      && (|cs| > 0 && IsHeading(cs[0], 1) ==> r[0] == cs[0].(depth := 3))
      && (|cs| > 1 && IsHeading(cs[0], 1) && IsHeading(cs[1], 2) ==> r[1] == cs[1].(depth := 4))
      && forall k :: 0 <= k < |cs|
           && !(k == 0 && IsHeading(cs[0], 1))
           && !(k == 1 && IsHeading(cs[0], 1) && IsHeading(cs[1], 2))
           ==> r[k] == cs[k]
  {
  }

  /** The source's renumbering throws exactly on an empty tree and on a tree
      that is a single `#` heading; wherever it does not throw it agrees with
      the corrected one. */
  lemma RenumberAsWrittenFails(cs: seq<Node>)
    ensures RenumberAsWritten(cs).Err? <==> (|cs| == 0 || (|cs| == 1 && IsHeading(cs[0], 1)))
    ensures RenumberAsWritten(cs).Ok? ==> RenumberAsWritten(cs).value == Renumber(cs)
  {
  }

  /** The input that shows it: a post that is only its title. */
  lemma TitleOnlyPostThrows(title: Children, env: Env)
    ensures RenumberAsWritten(TSeq([Heading(1, title)], env)).Err?
    ensures Renumber(TSeq([Heading(1, title)], env)) == [Heading(3, TNode(Heading(1, title), env)[0].kids)]
  {
    TSeqCons(Heading(1, title), [], env);
  }

  /** A heading stays one heading of the same depth. */
  lemma HeadingKeepsDepth(d: int, kids: Children, env: Env)
    ensures |TNode(Heading(d, kids), env)| == 1 && IsHeading(TNode(Heading(d, kids), env)[0], d)
    ensures TNode(Heading(d, kids), env)[0].kids == (if kids.Present? then Present(TSeq(kids.nodes, env)) else Absent)
  {
  }

  /** Any other node keeps its type and has its children, when it has any,
      transformed in turn. */
  lemma OtherRecurses(kind: string, kids: Children, env: Env)
    requires IsOtherKind(kind)
    ensures TNode(Other(kind, kids), env)
      == [Other(kind, if kids.Present? then Present(TSeq(kids.nodes, env)) else Absent)]
  {
  }

  /** The test "should transform # and ## at head to h3 and h4". */
  lemma HeadingsAtHead(t: Children, s: Children, h: Children, sh: Children, text: seq<Node>, env: Env)
    ensures var r := Renumber(TSeq([Heading(1, t), Heading(2, s), Heading(3, h), Heading(4, sh), Paragraph(text)], env));
      |r| >= 4 && IsHeading(r[0], 3) && IsHeading(r[1], 4) && IsHeading(r[2], 3) && IsHeading(r[3], 4)
  {
    var p := [Paragraph(text)];
    var t1, t2, t3, t4 := TNode(Heading(1, t), env), TNode(Heading(2, s), env), TNode(Heading(3, h), env), TNode(Heading(4, sh), env);
    HeadingKeepsDepth(1, t, env);
    HeadingKeepsDepth(2, s, env);
    HeadingKeepsDepth(3, h, env);
    HeadingKeepsDepth(4, sh, env);
    var s4 := [Heading(4, sh)] + p;
    var s3 := [Heading(3, h)] + s4;
    var s2 := [Heading(2, s)] + s3;
    var cs := [Heading(1, t)] + s2;
    TSeqCons(Heading(4, sh), p, env);
    TSeqCons(Heading(3, h), s4, env);
    TSeqCons(Heading(2, s), s3, env);
    TSeqCons(Heading(1, t), s2, env);
    assert cs == [Heading(1, t), Heading(2, s), Heading(3, h), Heading(4, sh), Paragraph(text)];
    var u := TSeq(cs, env);
    assert u == t1 + (t2 + (t3 + (t4 + TSeq(p, env))));
    assert u[0] == t1[0] && u[1] == t2[0] && u[2] == t3[0] && u[3] == t4[0];
  }
}
