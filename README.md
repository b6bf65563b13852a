# DOM.Template in Dafny

A model of `DOM.Template<Key>` from swift-dom. A template is a pre-serialized HTML
fragment: a buffer of literal bytes plus an ordered list of anchors. Each anchor
is a `(key, index)` pair that marks the byte offset where the segment for a
placeholder key is spliced in at render time.

The model has four modules:

- `Templates` (`templates.dfy`) holds the value type. It has `init()`, `isEmpty`,
  `==` and `map`. It also defines the ordering invariant I1, which says anchor
  offsets are non-decreasing and lie within `[0, literals.count]`.
- `Rendering` (`rendering.dfy`) holds `rendered(_:)` and `rendered(substituting:)`.
  They are loops over the anchors, proved against a recursive specification
  `RenderFrom`. That specification is in turn proved equal to an independent
  splice definition, `Spliced`. For well-formed templates the splice is at the
  anchors' own offsets. For any other template that does not trap, it is at
  the offsets the cursor reaches, and the cursor never moves back.
- `Transforming` (`transforming.dfy`) holds `transform`. It is a loop that keeps
  each anchor (renamed to a new key) or resolves it to an inline segment. Once a
  segment is met, it switches to a second loop that rebuilds the literal buffer.
  Both loops are proved against `TransformFrom` and `Rebuild`.
- `Elements` (`elements.dfy`) holds the markup serializer
  `Element.rendered(into:anchors:)`, the class `Builder`, and the properties
  that tie freezing to rendering. `Builder` holds the template's two stored
  properties, which `freeze(_:)` and `init(freezing:)` update in place.

Bytes are integers in `[0, 256)`. Offsets are unbounded `int`s, as Swift's
`Int` is never near overflow here. The key-to-segment closures become
function-typed parameters. The preconditions of `Rendered` and `Transform` state
exactly when Swift's slice operations would not trap:

- `Renderable`: every anchor whose key resolves has an offset of at most
  `literals.count`.
- `Transformable`: the first anchor that becomes a segment lies within the
  literals, and no later anchor lies past their end.

Some details follow the code:

- A leaf element closes with `>` when its element is void and with `/>`
  otherwise. Lines 257 and 294-305 of `Sources/DOM/DOM.Template.swift` do this.
- `transform` always copies the literals after the last anchor. So the
  template `ABC` with a segment `1` for an anchor at 1 and a renamed key at 2
  becomes `A1BC` with that anchor at 3, which renders `A1B2C`.

## Model

| member | source | states |
|---|---|---|
| Templates.Empty | Sources/DOM/DOM.Template.swift:173-178 | `init()` makes an empty template that satisfies I1 |
| Templates.IsEmptyIsInitial | Sources/DOM/DOM.Template.swift:54-58 | `isEmpty` holds exactly for the template `init()` makes |
| Templates.EqualIsContentEquality | Sources/DOM/DOM.Template.swift:3-18 | `==` holds iff literals, anchor count and every anchor pair agree, i.e. iff the templates are identical |
| Templates.EqualIsOrderSensitive | Sources/DOM/DOM.Template.swift:12-16 | the same two distinct anchors listed in the opposite order give unequal templates |
| Templates.EqualIsOffsetSensitive | Sources/DOM/DOM.Template.swift:12-16 | the same key at two different offsets gives unequal templates |
| Templates.WellFormedIsOrdered | Sources/DOM/DOM.Template.swift:44-52 | the quantified form of I1 is equivalent to its recursive form |
| Templates.MapKeys | Sources/DOM/DOM.Template.swift:114-122 | `map` keeps the literals and the anchor count; anchor i gets key `f(key_i)` at the same offset |
| Templates.MapKeysWellFormed | Sources/DOM/DOM.Template.swift:114-122 | `map` preserves I1 |
| Rendering.Rendered | Sources/DOM/DOM.Template.swift:81-112 | the loop returns the rendering specification `Render(t, r)` |
| Rendering.RenderedSubstituting | Sources/DOM/DOM.Template.swift:70-77 | rendering with a dictionary is rendering with its lookup, and a missing key is an unresolved anchor |
| Rendering.RenderFromLength | Sources/DOM/DOM.Template.swift:87-111 | from any start position, the output length is the remaining literal count plus the resolved segment lengths |
| Rendering.RenderedLength | Sources/DOM/DOM.Template.swift:87-111 | output length = literal count + total length of the resolved segments |
| Rendering.RenderFromUnresolved | Sources/DOM/DOM.Template.swift:93-97 | when no anchor resolves, the output is the literals from the start position on |
| Rendering.RenderedUnresolved | Sources/DOM/DOM.Template.swift:93-97 | when no anchor resolves, rendering needs no bound on offsets and returns the literals unchanged |
| Rendering.RenderFromIsSpliced | Sources/DOM/DOM.Template.swift:91-109 | for ordered anchors, the loop's specification equals the independent splice definition from any start |
| Rendering.RenderIsSpliced | Sources/DOM/DOM.Template.swift:87-111 | for a template satisfying I1, rendering is exactly the literals with each resolved segment spliced at its offset, in anchor order |
| Rendering.RenderIsSplicedAtCursor | Sources/DOM/DOM.Template.swift:90-109 | for every template `rendered` accepts, in any anchor order: the output is the splice of the literals at the offsets the never-retreating cursor reaches, so each literal byte appears once and in order |
| Rendering.RenderAppendLiterals | Sources/DOM/DOM.Template.swift:106-109 | appending literal bytes to a well-formed template appends them to every rendering |
| Rendering.RenderAppendAnchor | Sources/DOM/DOM.Template.swift:91-105 | adding an anchor at the literals' end appends its resolved segment (or nothing) to every rendering |
| Rendering.RenderSameOffset | Sources/DOM/DOM.Template.swift:99-104 | two anchors at one offset emit their segments in anchor order, with no literals between them |
| Rendering.RenderSpliceExample | Sources/DOM/DOM.Template.swift:87-111 | `XY` with an anchor at 1 resolving to `Z` renders `XZY` |
| Rendering.RenderUnresolvedAttributeExample | Sources/DOM/DOM.Template.swift:93-97 | an unresolved attribute anchor leaves `href=""` with nothing between the quotes |
| Rendering.RenderMapKeys | Sources/DOM/DOM.Template.swift:114-122 | rendering `map(f)` with `g` equals rendering the original with `g ∘ f` |
| Transforming.Transform | Sources/DOM/DOM.Template.swift:126-169 | the loop returns the transform specification `Transformed(t, f)` |
| Transforming.RebuildFrom | Sources/DOM/DOM.Template.swift:139-165 | the rebuilding loop appends exactly `Rebuild`'s bytes and anchors to the new buffers |
| Transforming.TransformSizes | Sources/DOM/DOM.Template.swift:126-169 | the result has one anchor per key substitution, and the literal count grows by the total inlined segment length |
| Transforming.TransformKeysOnly | Sources/DOM/DOM.Template.swift:131-138 | when every anchor maps to a key, the literals are untouched and anchor i is renamed in place at its old offset |
| Transforming.MapIsTransform | Sources/DOM/DOM.Template.swift:114-138 | `transform` with only key substitutions is `map` |
| Transforming.TransformWellFormed | Sources/DOM/DOM.Template.swift:139-165 | `transform` of a template satisfying I1 needs no further precondition and again satisfies I1 |
| Transforming.TransformKeepsPrefix | Sources/DOM/DOM.Template.swift:131-144 | when anchor i is the first to inline a segment (every earlier one is renamed, in any order and at any offset), the new literal buffer starts with the original literals before anchor i's offset |
| Transforming.TransformRender | Sources/DOM/DOM.Template.swift:126-169 | rendering the transformed template with `g` equals rendering the original with the combined resolution: segments inline, keys go through `g` |
| Transforming.TransformLiterals | Sources/DOM/DOM.Template.swift:139-165 | the transformed literals equal rendering the original with every segment substitution and nothing for keys |
| Transforming.TransformLiteralsAtCursor | Sources/DOM/DOM.Template.swift:139-165 | for every template `transform` accepts, in any anchor order: the new literals are the input literals spliced with the inlined segments at the offsets the never-retreating copy position reaches, so each input byte is kept once and in order |
| Transforming.TransformSameOffset | Sources/DOM/DOM.Template.swift:142-159 | two segments at one offset are inlined in anchor order |
| Transforming.TransformExample | Sources/DOM/DOM.Template.swift:126-169 | `ABC` with a segment `1` at 1 and a key at 2 gives `A1BC` with the renamed anchor at 3, which renders `A1B2C` |
| Elements.RenderedInto | Sources/DOM/DOM.Template.swift:237-315 | the serializer produces exactly the template `Frozen(old template, e)` |
| Elements.Builder.constructor | Sources/DOM/DOM.Template.swift:173-178 | a new builder holds the empty template |
| Elements.Builder.Freezing | Sources/DOM/DOM.Template.swift:187-193 | `init(freezing:)` with one element holds `Frozen(empty, e)` |
| Elements.Builder.FreezingAll | Sources/DOM/DOM.Template.swift:180-186 | `init(freezing:)` with a sequence holds the elements frozen in order |
| Elements.Builder.Freeze | Sources/DOM/DOM.Template.swift:195-200 | `freeze` sets the template to `Frozen(old, e)` and only appends: old literals and anchors are kept as a prefix, and new anchors are ordered within the new bytes |
| Elements.Builder.FreezeAll | Sources/DOM/DOM.Template.swift:201-209 | freezing a sequence freezes each element in order and only appends |
| Elements.FrozenExtends | Sources/DOM/DOM.Template.swift:237-315 | serializing an element only appends to the literals and anchors, and new anchors are ordered within the appended bytes |
| Elements.FrozenAllExtends | Sources/DOM/DOM.Template.swift:205-208 | serializing several elements in turn only appends |
| Elements.ExtendsWellFormed | Sources/DOM/DOM.Template.swift:237-315 | appending in that way keeps I1 |
| Elements.FrozenAttributeRender | Sources/DOM/DOM.Template.swift:271-293 | a frozen attribute renders as ` name`, then `="text"`, `="segment"` or nothing |
| Elements.FrozenRender | Sources/DOM/DOM.Template.swift:237-315 | freezing an element into a well-formed template keeps I1, and rendering then appends the element serialized with its placeholders resolved |
| Elements.FrozenAllRender | Sources/DOM/DOM.Template.swift:308-311 | freezing children in turn renders as their serializations concatenated in order |
| Elements.FrozenLiterals | Sources/DOM/DOM.Template.swift:237-315 | the literals gained are the element serialized with every placeholder left empty |
| Elements.FreezeExample | Sources/DOM/DOM.Template.swift:259-315 | `<a href=anchor>` with no children freezes to `<a href=""></a>` with the anchor at offset 9, between the quotes |

## Left out

- `Hashable` conformance (lines 20-32) and `Sendable` conformances (lines 211-216) have no behaviour to model.
- `throws`/`rethrows`: the closures are total functions, so error propagation is not modelled.
- `Element.rendered(as:)` and `rendered(into:)` for `Anchor == Never` (lines 218-235) are thin wrappers and are not modelled.
- `html+resource.swift` is not part of this model.
- The generic `Output` and `Segment` collection types become byte sequences, and `reserveCapacity` has no observable effect.
- Element names, attribute names and text are byte sequences; the UTF-8 encoding of Swift `String`s is not modelled.
- The memberwise `init(literals:anchors:)` is the datatype constructor `Template`.
- Zero-copy storage sharing between templates is not modelled; templates are values.
- `inout` parameters and the array iterator in `transform` become parameters and results and an index; aliasing of the in-out buffers is not modelled.
- Swift `Int` overflow of offsets is not modelled; offsets are unbounded integers.
