/** The transformer the plugin returns: it rewrites, in place, the value of
    every text node of a document and leaves the rest of the document alone.

    The document is simplified to the flat, ordered list of its leaves.  Only
    nodes of type `text` are visited by the rewriting utility; leaves of other
    types keep their literal content even when it holds a curly quote (inline
    code, code blocks, raw HTML), and so do the attributes of other nodes (the
    `url` and `title` of a link, the `alt` and `title` of an image), which a
    flat list of leaves does not represent. */
module QuoteReplace {
  import opened QuoteTable

  /** A leaf of the document: a text node, or any other node with its type
      name and its literal content (empty when it has none).  The type name
      of an `Other` node is never "text": every node of type `text` is a
      `Text`.  `WellFormed` states this for a whole document. */
  datatype Node =
    | Text(value: string)
    | Other(kind: string, literal: string)

  /** No leaf outside `Text` claims the type `text`. */
  predicate WellFormed(doc: seq<Node>) {
    forall i :: 0 <= i < |doc| && doc[i].Other? ==> doc[i].kind != "text"
  }

  /** The effect of the transformer on one node. */
  function MapNode(n: Node): (r: Node)
    ensures r.Text? <==> n.Text?
    ensures n.Other? ==> r == n
    ensures n.Text? ==> |r.value| == |n.value|
    ensures n.Text? ==> forall i :: 0 <= i < |r.value| ==> r.value[i] == MapChar(n.value[i])
  {
    match n
    case Text(v) => Text(MapString(v))
    case Other(_, _) => n
  }

  /** The effect of the transformer on a whole document. */
  function MapDoc(doc: seq<Node>): (r: seq<Node>)
    ensures |r| == |doc|
    ensures forall i :: 0 <= i < |doc| ==> r[i] == MapNode(doc[i])
  {
    if doc == [] then [] else [MapNode(doc[0])] + MapDoc(doc[1..])
  }

  /** The text a node contributes: its value if it is a text node. */
  function TextValue(n: Node): string
  {
    if n.Text? then n.value else []
  }

  /** The text values of a document, node by node. */
  function TextValues(doc: seq<Node>): (r: seq<string>)
    ensures |r| == |doc|
    ensures forall i :: 0 <= i < |doc| ==> r[i] == TextValue(doc[i])
  {
    if doc == [] then [] else [TextValue(doc[0])] + TextValues(doc[1..])
  }

  /** The text of a document: its text values in order, joined. */
  function TextOf(doc: seq<Node>): string
  {
    Join(TextValues(doc))
  }

  /** The transformer: rewrites each text node of `doc`, in place, left to
      right; every other node is left as it is. */
  method Transform(doc: array<Node>)
    modifies doc
    ensures doc[..] == MapDoc(old(doc[..]))
    ensures forall k :: 0 <= k < doc.Length ==> (doc[k].Text? <==> old(doc[k]).Text?)
    ensures forall k :: 0 <= k < doc.Length && old(doc[k]).Other? ==> doc[k] == old(doc[k])
  {
    for i := 0 to doc.Length
      invariant forall k :: 0 <= k < i ==> doc[k] == MapNode(old(doc[k]))
      invariant forall k :: i <= k < doc.Length ==> doc[k] == old(doc[k])
    {
      if doc[i].Text? {
        doc[i] := Text(MapString(doc[i].value));
      }
    }
  }

  // ---------------------------------------------------------------------------
  // The utility's own loop order: one whole-document traversal per pair.

  /** One pass for one pair on one node: only a text value is rewritten. */
  function PassNode(n: Node, p: Pair): (r: Node)
    ensures r.Text? <==> n.Text?
    ensures n.Other? ==> r == n
  {
    if n.Text? then Text(ReplaceAll(n.value, p)) else n
  }

  /** One traversal of the document for one pair. */
  function PassDoc(doc: seq<Node>, p: Pair): (r: seq<Node>)
    ensures |r| == |doc|
    ensures forall i :: 0 <= i < |doc| ==> r[i] == PassNode(doc[i], p)
  {
    if doc == [] then [] else [PassNode(doc[0], p)] + PassDoc(doc[1..], p)
  }

  /** The traversals for a list of pairs, one after another in list order. */
  function PassesDoc(pairs: seq<Pair>, doc: seq<Node>): (r: seq<Node>)
    ensures |r| == |doc|
  {
    if pairs == [] then doc else PassesDoc(pairs[1..], PassDoc(doc, pairs[0]))
  }

  /** Nodes are independent: a traversal per pair acts on each node as the
      whole list of passes acts on that node alone. */
  lemma {:induction false} PassesDocPointwise(pairs: seq<Pair>, doc: seq<Node>)
    ensures |PassesDoc(pairs, doc)| == |doc|
    ensures forall i :: 0 <= i < |doc| ==>
      PassesDoc(pairs, doc)[i] == (if doc[i].Text? then Text(ApplyPairs(pairs, doc[i].value)) else doc[i])
  {
    if pairs != [] {
      PassesDocPointwise(pairs[1..], PassDoc(doc, pairs[0]));
    }
  }

  /** Pair-outer traversals, in the listed order or any reordering of the
      table, give the same document as the node-by-node rewrite. */
  lemma PassesDocAsMapDoc(pairs: seq<Pair>, doc: seq<Node>)
    requires forall p :: p in pairs <==> p in Table
    ensures PassesDoc(pairs, doc) == MapDoc(doc)
  {
    PassesDocPointwise(pairs, doc);
    forall i | 0 <= i < |doc| ensures PassesDoc(pairs, doc)[i] == MapDoc(doc)[i] {
      if doc[i].Text? {
        PassesInAnyOrder(pairs, doc[i].value);
      }
    }
  }

  /** The traversals the plugin asks for compute the node-by-node rewrite. */
  lemma PassesDocInTableOrder(doc: seq<Node>)
    ensures PassesDoc(Table, doc) == MapDoc(doc)
  {
    PassesDocAsMapDoc(Table, doc);
  }

  /** The in-place loop leaves the array as the utility's traversals, one per
      pair in the listed order, would leave it. */
  method TransformAsPasses(doc: array<Node>)
    modifies doc
    ensures doc[..] == PassesDoc(Table, old(doc[..]))
  {
    Transform(doc);
    PassesDocInTableOrder(old(doc[..]));
  }

  /** Only text values change: the number of nodes, their order, which of them
      are text nodes and every other node stay as they were, and each text
      value keeps its length. */
  lemma ShapePreserved(doc: seq<Node>)
    ensures |MapDoc(doc)| == |doc|
    ensures forall i :: 0 <= i < |doc| ==> (MapDoc(doc)[i].Text? <==> doc[i].Text?)
    ensures forall i :: 0 <= i < |doc| && doc[i].Other? ==> MapDoc(doc)[i] == doc[i]
    ensures forall i :: 0 <= i < |doc| && doc[i].Text? ==> |MapDoc(doc)[i].value| == |doc[i].value|
  {
  }

  /** After the transformer no text value holds a curly quote. */
  lemma NoSourceInText(doc: seq<Node>)
    ensures forall i, j :: 0 <= i < |doc| && MapDoc(doc)[i].Text? && 0 <= j < |MapDoc(doc)[i].value| ==>
      !IsSource(MapDoc(doc)[i].value[j])
  {
    forall i | 0 <= i < |doc| && doc[i].Text? {
      NoSourceSurvives(doc[i].value);
    }
  }

  /** Running the transformer a second time changes nothing. */
  lemma Idempotent(doc: seq<Node>)
    ensures MapDoc(MapDoc(doc)) == MapDoc(doc)
  {
    forall i | 0 <= i < |doc| ensures MapDoc(MapDoc(doc))[i] == MapDoc(doc)[i] {
      if doc[i].Text? {
        MapStringIdempotent(doc[i].value);
      }
    }
  }

  /** A document is left unchanged exactly when none of its text nodes holds a
      curly quote; in particular one without text nodes is unchanged. */
  lemma UnchangedIff(doc: seq<Node>)
    ensures MapDoc(doc) == doc <==>
      forall i, j :: 0 <= i < |doc| && doc[i].Text? && 0 <= j < |doc[i].value| ==> !IsSource(doc[i].value[j])
    ensures (forall i :: 0 <= i < |doc| ==> doc[i].Other?) ==> MapDoc(doc) == doc
  {
    forall i | 0 <= i < |doc| && doc[i].Text? {
      MapStringFixedIff(doc[i].value);
    }
    if MapDoc(doc) == doc {
      forall i | 0 <= i < |doc| && doc[i].Text? ensures MapString(doc[i].value) == doc[i].value {
        assert MapDoc(doc)[i] == doc[i];
      }
    }
  }

  /** The text of the rewritten document is the rewritten text of the
      document: how the text is spread over nodes makes no difference. */
  lemma TextCommutes(doc: seq<Node>)
    ensures TextOf(MapDoc(doc)) == MapString(TextOf(doc))
  {
    var values := TextValues(doc);
    var mapped := seq(|values|, i requires 0 <= i < |values| => MapString(values[i]));
    forall i | 0 <= i < |doc| ensures mapped[i] == TextValues(MapDoc(doc))[i] {
      if doc[i].Other? {
        assert |MapString([])| == 0;
      }
    }
    assert mapped == TextValues(MapDoc(doc));
    MapStringJoin(values);
  }

  /** The transformer keeps a document well formed. */
  lemma WellFormedPreserved(doc: seq<Node>)
    requires WellFormed(doc)
    ensures WellFormed(MapDoc(doc))
  {
  }
}
