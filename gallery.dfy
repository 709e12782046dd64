/** The gallery the lightbox shows: one item per gallery node of the page,
    built once when the page is scanned, and the text the viewer derives from
    an item's caption. */
module Gallery {
  import opened JsText

  /** The placeholder used for a node without a caption, and as the image's
      alternative text when an item has none. */
  const DefaultCaption: string := "Charcoal artwork"

  datatype Option<T> = None | Some(value: T)

  /** A `.gallery-item[data-full]` node of the page: the value of its
      `data-full` attribute and the text content of its `figcaption`, if it has one. */
  datatype Node = Node(dataFull: string, figcaption: Option<string>)

  /** A gallery entry: the full-size image source and its caption. */
  datatype Item = Item(src: string, caption: string)

  /** The caption of a node: its trimmed `figcaption` text, or the placeholder
      when the node has no `figcaption` or its text is blank. Never empty, and
      never padded with white space. */
  function CaptionOf(n: Node): (c: string)
    ensures c != ""
    ensures c == DefaultCaption || IsTrimmed(c)
    ensures n.figcaption.None? ==> c == DefaultCaption
    ensures n.figcaption.Some? && IsBlank(n.figcaption.value) ==> c == DefaultCaption
    ensures n.figcaption.Some? && !IsBlank(n.figcaption.value) ==> c == Trim(n.figcaption.value)
  {
    match n.figcaption
    case None => DefaultCaption
    case Some(text) => OrElse(Trim(text), DefaultCaption)
  }

  /** The gallery, in page order: item `k` takes its source from node `k` and
      its caption from node `k`'s caption; every caption is non-empty. */
  function BuildGallery(nodes: seq<Node>): (g: seq<Item>)
    ensures |g| == |nodes|
    ensures forall k :: 0 <= k < |g| ==> g[k].src == nodes[k].dataFull && g[k].caption == CaptionOf(nodes[k])
    ensures forall k :: 0 <= k < |g| ==> g[k].caption != ""
  {
    seq(|nodes|, k requires 0 <= k < |nodes| => Item(nodes[k].dataFull, CaptionOf(nodes[k])))
  }

  /** The alternative text the viewer gives an item's image,
      `caption || 'Charcoal artwork'`: never empty, and the caption itself
      unless that is empty. */
  function AltText(item: Item): (r: string)
    ensures r != ""
    ensures item.caption != "" ==> r == item.caption
    ensures item.caption == "" ==> r == DefaultCaption
  {
    OrElse(item.caption, DefaultCaption)
  }

  /** The caption text the viewer shows for an item, `caption || ''`: always
      the item's own caption, so the fallback never changes anything. */
  function CaptionText(item: Item): (r: string)
    ensures r == item.caption
  {
    OrElse(item.caption, "")
  }

  /** On a gallery built from the page, neither fallback ever applies: every
      image's alternative text and caption text are the item's caption, and a
      node with no usable caption shows the placeholder in both. */
  lemma BuiltItemsNeedNoFallback(nodes: seq<Node>, k: int)
    requires 0 <= k < |nodes|
    ensures AltText(BuildGallery(nodes)[k]) == CaptionOf(nodes[k])
    ensures CaptionText(BuildGallery(nodes)[k]) == CaptionOf(nodes[k])
    ensures (nodes[k].figcaption.None? || IsBlank(nodes[k].figcaption.value)) ==>
              AltText(BuildGallery(nodes)[k]) == DefaultCaption
  {
  }
}
