/** The node tree the transpiler produces and consumes
    (`packages/core/src/dom`): groups of blocks and of inliners, the
    built-in paragraph and text elements, the elements registered
    transpilers define, and the two error nodes. Parse data of registered
    elements is the type parameter `D`. */
module Nodes {
  import opened Wrappers
  import opened MetaValues

  /** Whether an element node is a `BlockNode` or an `InlinerNode`. */
  datatype Place = Block | Inliner

  /** A group's `children`: `undefined`, or a list of nodes. */
  datatype Children<D> = Undefined | Defined(nodes: seq<Node<D>>)

  datatype Node<D> =
    /** `BlocksNode` (and `RootNode`). */
    | Blocks(children: Children<D>)
    /** `InlinersNode`. */
    | Inliners(children: Children<D>)
    /** `ParagraphNode`, named `paragraph`; its parse data is a node (an
        inliners group when the parser built it). */
    | Paragraph(meta: Meta, autoId: string, content: Node<D>)
    /** `TextNode`, named `text`. */
    | Text(meta: Meta, autoId: string, text: string)
    /** An element node of a registered transpiler. */
    | Element(place: Place, name: string, meta: Meta, autoId: string, data: D)
    | BlockError(name: string, strBlock: string, error: string)
    | InlinerError(name: string, strInliner: string, error: string)
    /** Any other object handed to the stringifier. */
    | Foreign(description: string)

  const ParagraphName: string := "paragraph"
  const TextName: string := "text"

  /** `setNodes(...nodes)` on a fresh group: no nodes leave `children`
      `undefined`. */
  function Kids<D>(nodes: seq<Node<D>>): (r: Children<D>)
    ensures r.Undefined? <==> |nodes| == 0
    ensures r.Defined? ==> r.nodes == nodes
  {
    if |nodes| == 0 then Undefined else Defined(nodes)
  }

  /** The children a group lists, `undefined` read as none. */
  function KidsOf<D>(children: Children<D>): seq<Node<D>> {
    if children.Defined? then children.nodes else []
  }

  /** One call of the `step` callback: the node and the text it was
      given. */
  datatype Stepped<D> = Stepped(node: Node<D>, str: string)
}
