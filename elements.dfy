/**
 * The markup tree and `DOM.Element.rendered(into:anchors:)`, which serializes
 * it depth-first into a growing template, plus `freeze`, which does so for
 * one or more elements in turn.
 */
module Elements {
  import opened Templates
  import opened Rendering

  /** An attribute's value: none, literal text, or a placeholder. */
  datatype Value<K> = Void | Text(text: seq<byte>) | Anchor(key: K)

  datatype Attribute<K> = Attribute(name: seq<byte>, value: Value<K>)

  /** The element variants the serializer switches over. */
  datatype Element<K> =
    | Bytes(utf8: seq<byte>)
    | Text(escaped: seq<byte>)
    | Leaf(name: seq<byte>, void: bool, attributes: seq<Attribute<K>>)
    | Container(name: seq<byte>, attributes: seq<Attribute<K>>, content: seq<Element<K>>)
    | Anchor(key: K)

  /** `output.append(contentsOf:)` on the template under construction. */
  function Append<K>(t: Template<K>, bytes: seq<byte>): Template<K>
  {
    Template(t.literals + bytes, t.anchors)
  }

  /** `anchors.append((key, output.endIndex))`: an anchor at the current end. */
  function Mark<K>(t: Template<K>, key: K): Template<K>
  {
    Template(t.literals, t.anchors + [Templates.Anchor(key, |t.literals|)])
  }

  /** One attribute: a space and the name, then `="value"` unless it is void. */
  function FrozenAttribute<K>(t: Template<K>, attribute: Attribute<K>): Template<K>
  {
    var named := Append(t, [0x20] + attribute.name);
    match attribute.value
    case Void => named
    case Text(text) => Append(Append(Append(named, [0x3d, 0x22]), text), [0x22])
    case Anchor(key) => Append(Mark(Append(named, [0x3d, 0x22]), key), [0x22])
  }

  function FrozenAttributes<K>(t: Template<K>, attributes: seq<Attribute<K>>): Template<K>
    decreases |attributes|
  {
    if |attributes| == 0 then t
    else FrozenAttribute(FrozenAttributes(t, attributes[..|attributes| - 1]), attributes[|attributes| - 1])
  }

  /** `<`, the tag name and the attributes. */
  function OpenTag<K>(t: Template<K>, name: seq<byte>, attributes: seq<Attribute<K>>): Template<K>
  {
    FrozenAttributes(Append(Append(t, [0x3c]), name), attributes)
  }

  /**
   * The template after serializing `e` into `t`: payload bytes verbatim; an
   * anchor node records its key at the current length; a void leaf closes
   * with `>`, any other leaf with `/>`; a container encloses its children
   * between `>` and `</name>`.
   */
  function Frozen<K>(t: Template<K>, e: Element<K>): Template<K>
    decreases e
  {
    match e
    case Bytes(utf8) => Append(t, utf8)
    case Text(escaped) => Append(t, escaped)
    case Anchor(key) => Mark(t, key)
    case Leaf(name, void, attributes) =>
      Append(OpenTag(t, name, attributes), if void then [0x3e] else [0x2f, 0x3e])
    case Container(name, attributes, content) =>
      Append(Append(Append(FrozenAll(Append(OpenTag(t, name, attributes), [0x3e]), content), [0x3c, 0x2f]), name), [0x3e])
  }

  /** Serializing several elements in turn into the same template. */
  function FrozenAll<K>(t: Template<K>, elements: seq<Element<K>>): Template<K>
    decreases elements
  {
    if |elements| == 0 then t
    else Frozen(FrozenAll(t, elements[..|elements| - 1]), elements[|elements| - 1])
  }

  /** `Element.rendered(into:anchors:)`, the in-out buffers as parameter and result. */
  method RenderedInto<K>(e: Element<K>, output: seq<byte>, anchors: seq<Templates.Anchor<K>>)
    returns (output': seq<byte>, anchors': seq<Templates.Anchor<K>>)
    ensures Template(output', anchors') == Frozen(Template(output, anchors), e)
    decreases e
  {
    output', anchors' := output, anchors;
    var attributes: seq<Attribute<K>>, children: Option<Option<seq<Element<K>>>>, name: seq<byte>;
    match e {
      case Bytes(utf8) =>
        output' := output' + utf8;
        return;
      case Text(escaped) =>
        output' := output' + escaped;
        return;
      case Leaf(element, void, items) =>
        attributes := items;
        children := if void then None else Some(None);
        name := element;
      case Container(element, items, content) =>
        attributes := items;
        children := Some(Some(content));
        name := element;
      case Anchor(key) =>
        anchors' := anchors' + [Templates.Anchor(key, |output'|)];
        return;
    }
    ghost var tagged := Append(Append(Template(output, anchors), [0x3c]), name);
    output' := output' + [0x3c];
    output' := output' + name;
    for i := 0 to |attributes|
      invariant Template(output', anchors') == FrozenAttributes(tagged, attributes[..i])
    {
      assert attributes[..i + 1][..i] == attributes[..i];
      var attribute := attributes[i];
      Associative(output', [0x20], attribute.name);
      output' := output' + [0x20];
      output' := output' + attribute.name;
      match attribute.value {
        case Void =>
        case Text(text) =>
          output' := output' + [0x3d, 0x22];
          output' := output' + text;
          output' := output' + [0x22];
        case Anchor(key) =>
          output' := output' + [0x3d, 0x22];
          anchors' := anchors' + [Templates.Anchor(key, |output'|)];
          output' := output' + [0x22];
      }
    }
    assert attributes[..|attributes|] == attributes;
    match children {
      case None =>
        output' := output' + [0x3e];
      case Some(None) =>
        output' := output' + [0x2f, 0x3e];
      case Some(Some(content)) =>
        assert e.Container? && content == e.content;
        ghost var enclosed := Template(output' + [0x3e], anchors');
        output' := output' + [0x3e];
        for i := 0 to |content|
          invariant Template(output', anchors') == FrozenAll(enclosed, content[..i])
        {
          assert content[..i + 1][..i] == content[..i];
          output', anchors' := RenderedInto(content[i], output', anchors');
        }
        assert content[..|content|] == content;
        output' := output' + [0x3c, 0x2f];
        output' := output' + name;
        output' := output' + [0x3e];
    }
  }

  /**
   * A template under construction, which `freeze` extends in place: the
   * literal buffer and the anchor list that `init(freezing:)` starts empty.
   */
  class Builder<K> {
    var literals: seq<byte>
    var anchors: seq<Templates.Anchor<K>>

    function Current(): Template<K>
      reads this
    {
      Template(literals, anchors)
    }

    /** `init()`. */
    constructor ()
      ensures Current() == Empty()
    {
      literals, anchors := [], [];
    }

    /** `init(freezing:)` for one element. */
    constructor Freezing(e: Element<K>)
      ensures Current() == Frozen(Empty(), e)
    {
      literals, anchors := [], [];
      new;
      Freeze(e);
    }

    /** `init(freezing:)` for a sequence of elements. */
    constructor FreezingAll(elements: seq<Element<K>>)
      ensures Current() == FrozenAll(Empty(), elements)
    {
      literals, anchors := [], [];
      new;
      FreezeAll(elements);
    }

    /** `freeze(_:)` for one element: it only appends. */
    method Freeze(e: Element<K>)
      modifies this
      ensures Current() == Frozen(old(Current()), e)
      ensures Extends(old(Current()), Current())
    {
      FrozenExtends(Current(), e);
      literals, anchors := RenderedInto(e, literals, anchors);
    }

    /** `freeze(_:)` for a sequence of elements, serialized in order: it only appends. */
    method FreezeAll(elements: seq<Element<K>>)
      modifies this
      ensures Current() == FrozenAll(old(Current()), elements)
      ensures Extends(old(Current()), Current())
    {
      FrozenAllExtends(Current(), elements);
      for i := 0 to |elements|
        invariant Current() == FrozenAll(old(Current()), elements[..i])
      {
        assert elements[..i + 1][..i] == elements[..i];
        literals, anchors := RenderedInto(elements[i], literals, anchors);
      }
      assert elements[..|elements|] == elements;
    }
  }

  /**
   * `u` continues `t`: the literals and anchors of `t` are unchanged at the
   * front of `u`, and the anchors added after them have non-decreasing
   * offsets between the old and the new literal length.
   */
  ghost predicate Extends<K>(t: Template<K>, u: Template<K>)
  {
    && |t.literals| <= |u.literals| && u.literals[..|t.literals|] == t.literals
    && |t.anchors| <= |u.anchors| && u.anchors[..|t.anchors|] == t.anchors
    && Ordered(u.anchors[|t.anchors|..], |t.literals|, |u.literals|)
  }

  lemma {:induction false} OrderedConcat<K>(front: seq<Templates.Anchor<K>>, back: seq<Templates.Anchor<K>>, lo: int, mid: int, hi: int)
    requires Ordered(front, lo, mid) && Ordered(back, mid, hi)
    ensures Ordered(front + back, lo, hi)
    decreases |front|
  {
    if |front| == 0 {
      assert front + back == back;
      OrderedWeaken(back, mid, hi, lo, hi);
    } else {
      assert (front + back)[1..] == front[1..] + back;
      OrderedConcat(front[1..], back, front[0].index, mid, hi);
      OrderedBounds(back, mid, hi);
    }
  }

  lemma ExtendsAppend<K>(t: Template<K>, bytes: seq<byte>)
    ensures Extends(t, Append(t, bytes))
  {
    assert Append(t, bytes).anchors[|t.anchors|..] == [];
  }

  lemma ExtendsMark<K>(t: Template<K>, key: K)
    ensures Extends(t, Mark(t, key))
  {
    var added := Mark(t, key).anchors[|t.anchors|..];
    assert added == [Templates.Anchor(key, |t.literals|)] && added[1..] == [];
  }

  lemma ExtendsTransitive<K>(a: Template<K>, b: Template<K>, c: Template<K>)
    requires Extends(a, b) && Extends(b, c)
    ensures Extends(a, c)
  {
    assert c.literals[..|a.literals|] == c.literals[..|b.literals|][..|a.literals|];
    assert c.anchors[..|a.anchors|] == c.anchors[..|b.anchors|][..|a.anchors|];
    assert c.anchors[|a.anchors|..] == b.anchors[|a.anchors|..] + c.anchors[|b.anchors|..] by {
      assert c.anchors == c.anchors[..|b.anchors|] + c.anchors[|b.anchors|..];
    }
    OrderedConcat(b.anchors[|a.anchors|..], c.anchors[|b.anchors|..], |a.literals|, |b.literals|, |c.literals|);
  }

  /** An I1 template extended stays I1. */
  lemma ExtendsWellFormed<K>(t: Template<K>, u: Template<K>)
    requires WellFormed(t) && Extends(t, u)
    ensures WellFormed(u)
  {
    WellFormedIsOrdered(t);
    assert u.anchors == t.anchors + u.anchors[|t.anchors|..] by {
      assert u.anchors == u.anchors[..|t.anchors|] + u.anchors[|t.anchors|..];
    }
    OrderedConcat(t.anchors, u.anchors[|t.anchors|..], 0, |t.literals|, |u.literals|);
    WellFormedIsOrdered(u);
  }

  lemma {:induction false} FrozenAttributesExtends<K>(t: Template<K>, attributes: seq<Attribute<K>>)
    ensures Extends(t, FrozenAttributes(t, attributes))
    decreases |attributes|
  {
    if |attributes| == 0 {
      ExtendsAppend(t, []);
      assert Append(t, []) == t;
    } else {
      var before := FrozenAttributes(t, attributes[..|attributes| - 1]);
      FrozenAttributesExtends(t, attributes[..|attributes| - 1]);
      var attribute := attributes[|attributes| - 1];
      var named := Append(before, [0x20] + attribute.name);
      ExtendsAppend(before, [0x20] + attribute.name);
      ExtendsTransitive(t, before, named);
      match attribute.value
      case Void =>
      case Text(text) =>
        var quoted := Append(named, [0x3d, 0x22]);
        ExtendsAppend(named, [0x3d, 0x22]);
        ExtendsAppend(quoted, text);
        ExtendsAppend(Append(quoted, text), [0x22]);
        ExtendsTransitive(t, named, quoted);
        ExtendsTransitive(t, quoted, Append(quoted, text));
        ExtendsTransitive(t, Append(quoted, text), Append(Append(quoted, text), [0x22]));
      case Anchor(key) =>
        var quoted := Append(named, [0x3d, 0x22]);
        ExtendsAppend(named, [0x3d, 0x22]);
        ExtendsMark(quoted, key);
        ExtendsAppend(Mark(quoted, key), [0x22]);
        ExtendsTransitive(t, named, quoted);
        ExtendsTransitive(t, quoted, Mark(quoted, key));
        ExtendsTransitive(t, Mark(quoted, key), Append(Mark(quoted, key), [0x22]));
    }
  }

  lemma OpenTagExtends<K>(t: Template<K>, name: seq<byte>, attributes: seq<Attribute<K>>)
    ensures Extends(t, OpenTag(t, name, attributes))
  {
    var bracket := Append(t, [0x3c]);
    ExtendsAppend(t, [0x3c]);
    ExtendsAppend(bracket, name);
    ExtendsTransitive(t, bracket, Append(bracket, name));
    FrozenAttributesExtends(Append(bracket, name), attributes);
    ExtendsTransitive(t, Append(bracket, name), OpenTag(t, name, attributes));
  }

  /**
   * Serializing only appends: earlier literals and anchors are unchanged, and
   * the anchors it records have non-decreasing offsets no greater than the
   * final length.
   */
  lemma {:induction false} FrozenExtends<K>(t: Template<K>, e: Element<K>)
    ensures Extends(t, Frozen(t, e))
    decreases e, 1
  {
    match e
    case Bytes(utf8) => ExtendsAppend(t, utf8);
    case Text(escaped) => ExtendsAppend(t, escaped);
    case Anchor(key) => ExtendsMark(t, key);
    case Leaf(name, void, attributes) =>
      var head := OpenTag(t, name, attributes);
      OpenTagExtends(t, name, attributes);
      ExtendsAppend(head, if void then [0x3e] else [0x2f, 0x3e]);
      ExtendsTransitive(t, head, Frozen(t, e));
    case Container(name, attributes, content) =>
      var head := Append(OpenTag(t, name, attributes), [0x3e]);
      OpenTagExtends(t, name, attributes);
      ExtendsAppend(OpenTag(t, name, attributes), [0x3e]);
      ExtendsTransitive(t, OpenTag(t, name, attributes), head);
      var inner := FrozenAll(head, content);
      FrozenAllExtends(head, content);
      ExtendsTransitive(t, head, inner);
      ExtendsAppend(inner, [0x3c, 0x2f]);
      ExtendsAppend(Append(inner, [0x3c, 0x2f]), name);
      ExtendsAppend(Append(Append(inner, [0x3c, 0x2f]), name), [0x3e]);
      ExtendsTransitive(t, inner, Append(inner, [0x3c, 0x2f]));
      ExtendsTransitive(t, Append(inner, [0x3c, 0x2f]), Append(Append(inner, [0x3c, 0x2f]), name));
      ExtendsTransitive(t, Append(Append(inner, [0x3c, 0x2f]), name), Frozen(t, e));
  }

  /** Freezing several elements only appends, element after element. */
  lemma {:induction false} FrozenAllExtends<K>(t: Template<K>, elements: seq<Element<K>>)
    ensures Extends(t, FrozenAll(t, elements))
    decreases elements, 0
  {
    if |elements| == 0 {
      ExtendsAppend(t, []);
      assert Append(t, []) == t;
    } else {
      var before := FrozenAll(t, elements[..|elements| - 1]);
      FrozenAllExtends(t, elements[..|elements| - 1]);
      FrozenExtends(before, elements[|elements| - 1]);
      ExtendsTransitive(t, before, FrozenAll(t, elements));
    }
  }

  /** An attribute as a plain serializer writes it, its placeholder value resolved by `r`. */
  function InlineAttribute<K>(attribute: Attribute<K>, r: K -> Option<seq<byte>>): seq<byte>
  {
    [0x20] + attribute.name +
    (match attribute.value
     case Void => []
     case Text(text) => [0x3d, 0x22] + text + [0x22]
     case Anchor(key) => [0x3d, 0x22] + Resolve(r, key) + [0x22])
  }

  function InlineAttributes<K>(attributes: seq<Attribute<K>>, r: K -> Option<seq<byte>>): seq<byte>
    decreases |attributes|
  {
    if |attributes| == 0 then []
    else InlineAttributes(attributes[..|attributes| - 1], r) + InlineAttribute(attributes[|attributes| - 1], r)
  }

  /**
   * Reference serializer without anchors: the bytes of `e` with every
   * placeholder replaced by what `r` resolves it to (nothing if unresolved).
   */
  function Inline<K>(e: Element<K>, r: K -> Option<seq<byte>>): seq<byte>
    decreases e
  {
    match e
    case Bytes(utf8) => utf8
    case Text(escaped) => escaped
    case Anchor(key) => Resolve(r, key)
    case Leaf(name, void, attributes) =>
      [0x3c] + name + InlineAttributes(attributes, r) + (if void then [0x3e] else [0x2f, 0x3e])
    case Container(name, attributes, content) =>
      [0x3c] + name + InlineAttributes(attributes, r) + [0x3e] + InlineAll(content, r) + ([0x3c, 0x2f] + name + [0x3e])
  }

  function InlineAll<K>(elements: seq<Element<K>>, r: K -> Option<seq<byte>>): seq<byte>
    decreases elements
  {
    if |elements| == 0 then []
    else InlineAll(elements[..|elements| - 1], r) + Inline(elements[|elements| - 1], r)
  }

  lemma RenderAppendTwice<K>(t: Template<K>, first: seq<byte>, second: seq<byte>, r: K -> Option<seq<byte>>)
    requires WellFormed(t)
    ensures WellFormed(Append(Append(t, first), second))
    ensures Render(Append(Append(t, first), second), r) == Render(t, r) + (first + second)
  {
    RenderAppendLiterals(t, first, r);
    RenderAppendLiterals(Append(t, first), second, r);
    Associative(Render(t, r), first, second);
  }

  lemma QuotedTextRender<K>(t: Template<K>, text: seq<byte>, r: K -> Option<seq<byte>>)
    requires WellFormed(t)
    ensures WellFormed(Append(Append(Append(t, [0x3d, 0x22]), text), [0x22]))
    ensures Render(Append(Append(Append(t, [0x3d, 0x22]), text), [0x22]), r) == Render(t, r) + ([0x3d, 0x22] + text + [0x22])
  {
    RenderAppendLiterals(t, [0x3d, 0x22], r);
    RenderAppendTwice(Append(t, [0x3d, 0x22]), text, [0x22], r);
    Associative(Render(t, r), [0x3d, 0x22], text + [0x22]);
    Associative([0x3d, 0x22], text, [0x22]);
  }

  lemma QuotedAnchorRender<K>(t: Template<K>, key: K, r: K -> Option<seq<byte>>)
    requires WellFormed(t)
    ensures WellFormed(Append(Mark(Append(t, [0x3d, 0x22]), key), [0x22]))
    ensures Render(Append(Mark(Append(t, [0x3d, 0x22]), key), [0x22]), r) == Render(t, r) + ([0x3d, 0x22] + Resolve(r, key) + [0x22])
  {
    var quoted := Append(t, [0x3d, 0x22]);
    var resolved := Resolve(r, key);
    RenderAppendLiterals(t, [0x3d, 0x22], r);
    RenderAppendAnchor(quoted, key, r);
    RenderAppendLiterals(Mark(quoted, key), [0x22], r);
    Associative(Render(t, r) + [0x3d, 0x22], resolved, [0x22]);
    Associative(Render(t, r), [0x3d, 0x22], resolved + [0x22]);
    Associative([0x3d, 0x22], resolved, [0x22]);
  }

  lemma FrozenAttributeRender<K>(t: Template<K>, attribute: Attribute<K>, r: K -> Option<seq<byte>>)
    requires WellFormed(t)
    ensures WellFormed(FrozenAttribute(t, attribute))
    ensures Render(FrozenAttribute(t, attribute), r) == Render(t, r) + InlineAttribute(attribute, r)
  {
    var named := Append(t, [0x20] + attribute.name);
    RenderAppendLiterals(t, [0x20] + attribute.name, r);
    match attribute.value
    case Void =>
    case Text(text) =>
      QuotedTextRender(named, text, r);
      Associative(Render(t, r), [0x20] + attribute.name, [0x3d, 0x22] + text + [0x22]);
    case Anchor(key) =>
      QuotedAnchorRender(named, key, r);
      Associative(Render(t, r), [0x20] + attribute.name, [0x3d, 0x22] + Resolve(r, key) + [0x22]);
  }

  lemma {:induction false} FrozenAttributesRender<K>(t: Template<K>, attributes: seq<Attribute<K>>, r: K -> Option<seq<byte>>)
    requires WellFormed(t)
    ensures WellFormed(FrozenAttributes(t, attributes))
    ensures Render(FrozenAttributes(t, attributes), r) == Render(t, r) + InlineAttributes(attributes, r)
    decreases |attributes|
  {
    if |attributes| > 0 {
      var front := attributes[..|attributes| - 1];
      var last := attributes[|attributes| - 1];
      FrozenAttributesRender(t, front, r);
      FrozenAttributeRender(FrozenAttributes(t, front), last, r);
      Associative(Render(t, r), InlineAttributes(front, r), InlineAttribute(last, r));
    }
  }

  lemma OpenTagRender<K>(t: Template<K>, name: seq<byte>, attributes: seq<Attribute<K>>, r: K -> Option<seq<byte>>)
    requires WellFormed(t)
    ensures WellFormed(OpenTag(t, name, attributes))
    ensures Render(OpenTag(t, name, attributes), r) == Render(t, r) + ([0x3c] + name + InlineAttributes(attributes, r))
  {
    RenderAppendTwice(t, [0x3c], name, r);
    FrozenAttributesRender(Append(Append(t, [0x3c]), name), attributes, r);
    Associative(Render(t, r), [0x3c] + name, InlineAttributes(attributes, r));
  }

  /**
   * Round trip: rendering a frozen element with `r` gives what serializing it
   * directly, with each placeholder replaced by its resolved bytes, gives.
   */
  lemma {:induction false} FrozenRender<K>(t: Template<K>, e: Element<K>, r: K -> Option<seq<byte>>)
    requires WellFormed(t)
    ensures WellFormed(Frozen(t, e))
    ensures Render(Frozen(t, e), r) == Render(t, r) + Inline(e, r)
    decreases e, 1
  {
    match e
    case Bytes(utf8) => RenderAppendLiterals(t, utf8, r);
    case Text(escaped) => RenderAppendLiterals(t, escaped, r);
    case Anchor(key) => RenderAppendAnchor(t, key, r);
    case Leaf(name, void, attributes) =>
      OpenTagRender(t, name, attributes, r);
      RenderAppendLiterals(OpenTag(t, name, attributes), if void then [0x3e] else [0x2f, 0x3e], r);
      Associative(Render(t, r), [0x3c] + name + InlineAttributes(attributes, r), if void then [0x3e] else [0x2f, 0x3e]);
    case Container(name, attributes, content) =>
      ContainerRender(t, name, attributes, content, r);
  }

  lemma OpeningRender<K>(t: Template<K>, name: seq<byte>, attributes: seq<Attribute<K>>, r: K -> Option<seq<byte>>)
    requires WellFormed(t)
    ensures WellFormed(Append(OpenTag(t, name, attributes), [0x3e]))
    ensures Render(Append(OpenTag(t, name, attributes), [0x3e]), r)
            == Render(t, r) + ([0x3c] + name + InlineAttributes(attributes, r) + [0x3e])
  {
    OpenTagRender(t, name, attributes, r);
    RenderAppendLiterals(OpenTag(t, name, attributes), [0x3e], r);
    Associative(Render(t, r), [0x3c] + name + InlineAttributes(attributes, r), [0x3e]);
  }

  lemma ClosingRender<K>(t: Template<K>, name: seq<byte>, r: K -> Option<seq<byte>>)
    requires WellFormed(t)
    ensures WellFormed(Append(Append(Append(t, [0x3c, 0x2f]), name), [0x3e]))
    ensures Render(Append(Append(Append(t, [0x3c, 0x2f]), name), [0x3e]), r) == Render(t, r) + ([0x3c, 0x2f] + name + [0x3e])
  {
    RenderAppendTwice(t, [0x3c, 0x2f], name, r);
    RenderAppendLiterals(Append(Append(t, [0x3c, 0x2f]), name), [0x3e], r);
    Associative(Render(t, r), [0x3c, 0x2f] + name, [0x3e]);
  }

  lemma {:induction false} ContainerRender<K>(t: Template<K>, name: seq<byte>, attributes: seq<Attribute<K>>,
                                              content: seq<Element<K>>, r: K -> Option<seq<byte>>)
    requires WellFormed(t)
    ensures WellFormed(Frozen(t, Container(name, attributes, content)))
    ensures Render(Frozen(t, Container(name, attributes, content)), r)
            == Render(t, r) + Inline(Container(name, attributes, content), r)
    decreases content, 2
  {
    var head := Append(OpenTag(t, name, attributes), [0x3e]);
    var opening := [0x3c] + name + InlineAttributes(attributes, r) + [0x3e];
    var children := InlineAll(content, r);
    OpeningRender(t, name, attributes, r);
    FrozenAllRender(head, content, r);
    ClosingRender(FrozenAll(head, content), name, r);
    Associative(Render(t, r), opening, children);
    Associative(Render(t, r), opening + children, [0x3c, 0x2f] + name + [0x3e]);
  }

  /** Freezing several elements renders as their direct serializations one after another. */
  lemma {:induction false} FrozenAllRender<K>(t: Template<K>, elements: seq<Element<K>>, r: K -> Option<seq<byte>>)
    requires WellFormed(t)
    ensures WellFormed(FrozenAll(t, elements))
    ensures Render(FrozenAll(t, elements), r) == Render(t, r) + InlineAll(elements, r)
    decreases elements, 0
  {
    if |elements| > 0 {
      var before := FrozenAll(t, elements[..|elements| - 1]);
      FrozenAllRender(t, elements[..|elements| - 1], r);
      FrozenRender(before, elements[|elements| - 1], r);
      Associative(Render(t, r), InlineAll(elements[..|elements| - 1], r), Inline(elements[|elements| - 1], r));
    }
  }

  /**
   * The literals freezing appends are the element's serialization with every
   * placeholder left empty.
   */
  lemma FrozenLiterals<K>(t: Template<K>, e: Element<K>)
    requires WellFormed(t)
    ensures Frozen(t, e).literals == t.literals + Inline(e, Nothing())
  {
    FrozenRender(t, e, Nothing());
    RenderedUnresolved(t, Nothing());
    RenderedUnresolved(Frozen(t, e), Nothing());
  }

  /**
   * `<a href="">` with a placeholder as the attribute value and no children:
   * the anchor sits between the quotes, at offset 9.
   */
  lemma FreezeExample<K>(key: K)
    ensures Frozen(Empty(), Container([0x61], [Attribute([0x68, 0x72, 0x65, 0x66], Value.Anchor(key))], []))
            == Template([0x3c, 0x61, 0x20, 0x68, 0x72, 0x65, 0x66, 0x3d, 0x22, 0x22, 0x3e, 0x3c, 0x2f, 0x61, 0x3e],
                        [Templates.Anchor(key, 9)])
  {
    var href := Attribute([0x68, 0x72, 0x65, 0x66], Value.Anchor(key));
    var tagged := Template([0x3c, 0x61], []);
    assert Append(Append(Empty(), [0x3c]), [0x61]) == tagged;
    assert [href][..0] == [];
    var named := Template([0x3c, 0x61, 0x20, 0x68, 0x72, 0x65, 0x66], []);
    assert Append(tagged, [0x20] + href.name) == named;
    var start := Template([0x3c, 0x61, 0x20, 0x68, 0x72, 0x65, 0x66, 0x3d, 0x22, 0x22], [Templates.Anchor(key, 9)]);
    var quoted := Template([0x3c, 0x61, 0x20, 0x68, 0x72, 0x65, 0x66, 0x3d, 0x22], []);
    assert Append(named, [0x3d, 0x22]) == quoted;
    assert |quoted.literals| == 9;
    assert Mark(quoted, key) == Template(quoted.literals, [Templates.Anchor(key, 9)]);
    assert FrozenAttribute(tagged, href) == Append(Mark(quoted, key), [0x22]) == start;
    assert FrozenAttributes(tagged, []) == tagged;
    assert FrozenAttributes(tagged, [href]) == FrozenAttribute(FrozenAttributes(tagged, []), href);
    assert OpenTag(Empty(), [0x61], [href]) == start;
    var head := Append(start, [0x3e]);
    assert FrozenAll(head, []) == head;
  }
}
