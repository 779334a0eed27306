# Quote normaliser — a Dafny model

The documentation site registers one remark plugin of its own, `replaceQuotes`
(`quote-replace.js`, registered in `docusaurus.config.ts:42-44`). When the build
runs it over a parsed Markdown document, it rewrites the text leaves so that each
curly quote becomes a corner bracket:

| find | replace |
|---|---|
| “ U+201C | 『 U+300E |
| ” U+201D | 』 U+300F |
| ‘ U+2018 | 「 U+300C |
| ’ U+2019 | 」 U+300D |

The plugin passes this list to `findAndReplace` from `mdast-util-find-and-replace`,
which walks every node of type `text`. It makes one pass per pair, in list order. A
string find is matched literally and a string replace is inserted literally.

The model has two modules.

- `QuoteTable` (`quote_table.dfy`) holds the table and the substitution it denotes:
  `MapChar` on one character and `MapString` on a string. It also models the
  utility's treatment of the list: `ReplaceAll` is one literal pass for one pair,
  and `ApplyPairs` makes the passes one after another. The lemmas prove that the
  passes compute `MapString`, in the listed order or in any other order.
- `QuoteReplace` (`quote_replace.dfy`) holds the transformer. A document is the
  flat, ordered list of its leaves: `Text(value)` nodes, and `Other(kind, literal)`
  for any other node, such as inline code, whose content is not rewritten.
  `Transform` rewrites an `array<Node>` in place, left to right. Its contract ties
  the new array to the specification function `MapDoc` of the old one, and the
  lemmas state what `MapDoc` promises.

Characters are Dafny `char`s, which are Unicode scalar values. JavaScript strings
are UTF-16, but all eight glyphs lie in the Basic Multilingual Plane, so each is one
code unit there and one `char` here.

## Model

| member | source | states |
|---|---|---|
| QuoteTable.MapCharSpec | quote-replace.js:6-11 | a curly quote becomes the target of its own table entry, which is a corner bracket; every other character, straight ASCII quotes included, is kept; a character changes exactly when it is a curly quote; the result is never a curly quote |
| QuoteTable.TableColumns | quote-replace.js:7-10 | the set of curly quotes is exactly the find column of the table and the set of corner brackets exactly the replace column; the two are disjoint |
| QuoteTable.MapChar | quote-replace.js:7-10 | the table substitution on one character; it has no contract of its own, and its meaning is stated by `MapCharOnTable`, `MapCharOffTable` and `MapCharSpec` |
| QuoteTable.MapCharOnTable | quote-replace.js:7-10 | “→『, ”→』, ‘→「, ’→」 as listed, each table entry's find maps to its replace, and `"` and `'` are unchanged |
| QuoteTable.MapCharOffTable | quote-replace.js:6-11 | every character outside the find column of the table is unchanged |
| QuoteTable.MapCharIdempotent | quote-replace.js:7-10 | mapping a character twice gives the same as mapping it once |
| QuoteTable.MapString | quote-replace.js:6-11 | the result has the input's length and its i-th character is the mapped i-th input character |
| QuoteTable.NoSourceSurvives | quote-replace.js:6-11 | no curly quote is left in the result |
| QuoteTable.MapStringIdempotent | quote-replace.js:7-10 | rewriting a rewritten string changes nothing |
| QuoteTable.MapStringFixedIff | quote-replace.js:6-11 | a string is unchanged if and only if it holds no curly quote |
| QuoteTable.MapStringConcat | quote-replace.js:6 | rewriting a concatenation is concatenating the rewrites |
| QuoteTable.MapStringJoin | quote-replace.js:6 | rewriting the join of any list of pieces is joining the rewritten pieces |
| QuoteTable.ReplaceAll | quote-replace.js:6-11 | one pass for one pair keeps the length, replaces each occurrence of the find character by the replace character and keeps every other character |
| QuoteTable.ApplyPairs | quote-replace.js:6-11 | the passes for a list of pairs, one after another in list order, keep the length of the string; `PassesInTableOrder` and `PassesInAnyOrder` prove that for the table they compute `MapString` |
| QuoteTable.ReplaceAllConcat | quote-replace.js:6-11 | one pass over a concatenation is the concatenation of the pass over each piece, so the pieces an earlier pass splits a node into are rewritten as the whole would be |
| QuoteTable.ApplyPairsPointwise | quote-replace.js:6-11 | when no replace side of a list is a find side of it, the passes keep the length and act on each character by the first pair that matches it |
| QuoteTable.LookupAsTable | quote-replace.js:6-11 | any list with exactly the table's entries looks each character up as `MapChar` maps it |
| QuoteTable.PassesInAnyOrder | quote-replace.js:6-11 | the passes over any reordering of the table (repeats allowed) compute `MapString` |
| QuoteTable.PassesInTableOrder | quote-replace.js:6-11 | the passes over the list in its written order compute `MapString` |
| QuoteTable.ExampleDouble | quote-replace.js:7-8 | `“Hello”` becomes `『Hello』` |
| QuoteTable.ExampleSingle | quote-replace.js:9-10 | `‘single’` becomes `「single」` |
| QuoteTable.ExampleNested | quote-replace.js:7-10 | `“A ‘B’ C”` becomes `『A 「B」 C』` |
| QuoteTable.ExampleStraight | quote-replace.js:6-11 | `"plain text"` with straight quotes is unchanged |
| QuoteReplace.MapNode | quote-replace.js:5-6 | a node stays a text node or a non-text node; a non-text node is unchanged; a text value keeps its length and each character is mapped |
| QuoteReplace.MapDoc | quote-replace.js:5-6 | the document keeps its number of nodes, and each node is rewritten on its own, in place |
| QuoteReplace.Transform | quote-replace.js:5-11 | the array afterwards is `MapDoc` of the array before; which nodes are text nodes does not change; non-text nodes are untouched |
| QuoteReplace.PassNode | quote-replace.js:6-11 | one pass for one pair on one node; only a text value is rewritten, a node stays text or non-text, and a non-text node is returned as it was |
| QuoteReplace.PassDoc | quote-replace.js:6-11 | one traversal for one pair keeps the node count and rewrites each text value by that pair's pass, leaving other nodes as they were |
| QuoteReplace.PassesDoc | quote-replace.js:6-11 | the traversals for a list of pairs, one after another in list order, keep the node count; `PassesDocPointwise`, `PassesDocAsMapDoc` and `PassesDocInTableOrder` state its meaning |
| QuoteReplace.PassesDocPointwise | quote-replace.js:6-11 | one traversal per pair, in list order, keeps the node count and acts on each text node as the whole list of passes acts on its value alone |
| QuoteReplace.PassesDocAsMapDoc | quote-replace.js:6-11 | one traversal per pair, over any reordering of the table, gives the same document as the node-by-node rewrite `MapDoc` |
| QuoteReplace.PassesDocInTableOrder | quote-replace.js:6-11 | one traversal per pair in the listed order gives the same document as `MapDoc` |
| QuoteReplace.TransformAsPasses | quote-replace.js:5-11 | after the in-place loop the array is what the traversals, one per pair in the listed order, make of the array before |
| QuoteReplace.ShapePreserved | quote-replace.js:5-6 | node count, node order, which nodes are text and every non-text node are unchanged, and each text value keeps its length |
| QuoteReplace.NoSourceInText | quote-replace.js:6-11 | afterwards no text value holds a curly quote |
| QuoteReplace.Idempotent | quote-replace.js:5-11 | running the transformer twice gives the same document as running it once |
| QuoteReplace.UnchangedIff | quote-replace.js:5-11 | the document is unchanged if and only if no text node holds a curly quote; a document without text nodes is unchanged |
| QuoteReplace.WellFormedPreserved | quote-replace.js:5-6 | a document in which no non-text leaf claims the type `text` stays so after the rewrite |
| QuoteReplace.TextCommutes | quote-replace.js:5-6 | the joined text of the rewritten document is the rewritten joined text, however the text is spread over nodes |

## Left out

- `replaceQuotes` (quote-replace.js:3) only builds and returns the transformer closure. Dafny methods are not values, so `Transform` stands for the closure and `Table` for the list literal the closure builds on each call (quote-replace.js:6-11).
- The document is modelled as the flat list of its leaves. The nested structure of the Markdown tree and its traversal belong to `mdast-util-find-and-replace`, a foreign library. The attributes of parent nodes, such as the `url` and `title` of a link or the `alt` and `title` of an image, are not modelled either; they are not `text` nodes, so curly quotes in them survive the plugin.
- That library splits a text node around each match into several text nodes, so the real tree gains text nodes: the claim that the transform creates no nodes holds only at the level of text values, not for the tree the library leaves behind. The model applies the substitution to each text value instead. `TextCommutes` and `MapStringJoin` show that the rewritten text is the same however it is split into nodes before the rewrite. `ReplaceAllConcat` shows the same for the splits one pass leaves for the next.
- Node fields other than the text value and the type (source positions, `data`) are not modelled. The library replaces each text node that holds a curly quote by freshly built text nodes that carry only a type and a value, so those pieces lose `position` and `data`. Only text nodes without a curly quote keep these fields.
- JavaScript strings may hold lone surrogate code units; a Dafny `string` cannot, so such values are outside the model. This changes nothing here, because a lone surrogate is neither a find nor a replace character.
- The library's `ignore` option and replacement functions are not used by the plugin and are not modelled.
- Markdown parsing, plugin registration in `docusaurus.config.ts`, the React pages and the random package-name widget (which uses `Math.random`) have no logic of this component and are not part of this model.
