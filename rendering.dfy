/**
 * `DOM.Template.rendered`: one pass over the anchors that merges the literal
 * buffer with the segments a resolver supplies for the anchor keys.
 */
module Rendering {
  import opened Templates

  /** The bytes `r` supplies for `key`; an unresolved key contributes none. */
  function Resolve<K>(r: K -> Option<seq<byte>>, key: K): seq<byte>
  {
    match r(key)
    case None => []
    case Some(segment) => segment
  }

  /** The resolver of `rendered(substituting:)`: a dictionary lookup. */
  function Lookup<K>(segments: map<K, seq<byte>>): K -> Option<seq<byte>>
  {
    k => if k in segments then Some(segments[k]) else None
  }

  /** The resolver that leaves every key unresolved. */
  function Nothing<K>(): K -> Option<seq<byte>>
  {
    _ => None
  }

  /**
   * What `rendered` needs to run without trapping on a slice past the end of
   * the literals: every anchor whose key resolves lies at or before the end.
   */
  predicate Renderable<K>(literals: seq<byte>, anchors: seq<Anchor<K>>, r: K -> Option<seq<byte>>)
  {
    forall i :: 0 <= i < |anchors| && r(anchors[i].key).Some? ==> anchors[i].index <= |literals|
  }

  /**
   * The output of `rendered` from cursor `start` over the remaining anchors:
   * an unresolved anchor is skipped; a resolved one first flushes the literals
   * between the cursor and its offset (moving the cursor), then appends its
   * segment; the literals after the cursor close the output.
   */
  function RenderFrom<K>(literals: seq<byte>, anchors: seq<Anchor<K>>, r: K -> Option<seq<byte>>, start: nat): seq<byte>
    requires start <= |literals|
    requires Renderable(literals, anchors, r)
    decreases |anchors|
  {
    if |anchors| == 0 then literals[start..]
    else
      var a := anchors[0];
      match r(a.key)
      case None => RenderFrom(literals, anchors[1..], r, start)
      case Some(segment) =>
        if start < a.index then
          literals[start..a.index] + segment + RenderFrom(literals, anchors[1..], r, a.index)
        else
          segment + RenderFrom(literals, anchors[1..], r, start)
  }

  function Render<K>(t: Template<K>, r: K -> Option<seq<byte>>): seq<byte>
    requires Renderable(t.literals, t.anchors, r)
  {
    RenderFrom(t.literals, t.anchors, r, 0)
  }

  /** `rendered(_:)`, proved against `Render`. */
  method Rendered<K>(t: Template<K>, r: K -> Option<seq<byte>>) returns (output: seq<byte>)
    requires Renderable(t.literals, t.anchors, r)
    ensures output == Render(t, r)
  {
    output := [];
    var start: nat := 0;
    for i := 0 to |t.anchors|
      invariant start <= |t.literals|
      invariant output + RenderFrom(t.literals, t.anchors[i..], r, start) == Render(t, r)
    {
      assert t.anchors[i..][1..] == t.anchors[i + 1..];
      var anchor := t.anchors[i];
      match r(anchor.key) {
        case None =>
        case Some(segment) =>
          if start < anchor.index {
            output := output + t.literals[start..anchor.index];
            start := anchor.index;
          }
          output := output + segment;
      }
    }
    if start < |t.literals| {
      output := output + t.literals[start..];
    }
  }

  /** `rendered(substituting:)`: rendering with a dictionary of segments. */
  method RenderedSubstituting<K>(t: Template<K>, segments: map<K, seq<byte>>) returns (output: seq<byte>)
    requires Renderable(t.literals, t.anchors, Lookup(segments))
    ensures output == Render(t, Lookup(segments))
  {
    output := Rendered(t, Lookup(segments));
  }

  /** Total length of the segments the resolved anchors contribute. */
  function ResolvedLength<K>(anchors: seq<Anchor<K>>, r: K -> Option<seq<byte>>): nat
    decreases |anchors|
  {
    if |anchors| == 0 then 0 else |Resolve(r, anchors[0].key)| + ResolvedLength(anchors[1..], r)
  }

  /**
   * Every literal byte after the cursor is emitted once: the output is as long
   * as those literals plus all resolved segments, whatever the anchor order.
   */
  lemma {:induction false} RenderFromLength<K>(literals: seq<byte>, anchors: seq<Anchor<K>>, r: K -> Option<seq<byte>>, start: nat)
    requires start <= |literals|
    requires Renderable(literals, anchors, r)
    ensures |RenderFrom(literals, anchors, r, start)| == |literals| - start + ResolvedLength(anchors, r)
    decreases |anchors|
  {
    if |anchors| > 0 {
      var a := anchors[0];
      match r(a.key)
      case None =>
        RenderFromLength(literals, anchors[1..], r, start);
      case Some(segment) =>
        if start < a.index {
          RenderFromLength(literals, anchors[1..], r, a.index);
        } else {
          RenderFromLength(literals, anchors[1..], r, start);
        }
    }
  }

  lemma RenderedLength<K>(t: Template<K>, r: K -> Option<seq<byte>>)
    requires Renderable(t.literals, t.anchors, r)
    ensures |Render(t, r)| == |t.literals| + ResolvedLength(t.anchors, r)
  {
    RenderFromLength(t.literals, t.anchors, r, 0);
  }

  lemma {:induction false} RenderFromUnresolved<K>(literals: seq<byte>, anchors: seq<Anchor<K>>, r: K -> Option<seq<byte>>, start: nat)
    requires start <= |literals|
    requires forall i :: 0 <= i < |anchors| ==> r(anchors[i].key) == None
    ensures Renderable(literals, anchors, r)
    ensures RenderFrom(literals, anchors, r, start) == literals[start..]
    decreases |anchors|
  {
    if |anchors| > 0 {
      RenderFromUnresolved(literals, anchors[1..], r, start);
    }
  }

  /** With no anchors, or none of them resolved, the output is the literal buffer. */
  lemma RenderedUnresolved<K>(t: Template<K>, r: K -> Option<seq<byte>>)
    requires forall i :: 0 <= i < |t.anchors| ==> r(t.anchors[i].key) == None
    ensures Renderable(t.literals, t.anchors, r)
    ensures Render(t, r) == t.literals
  {
    RenderFromUnresolved(t.literals, t.anchors, r, 0);
  }

  /**
   * Reference rendering of anchors ordered within `[from, |literals|]`: the
   * literal span up to the first offset, that anchor's segment, and the rest
   * from that offset on. Each literal byte appears once, in order.
   */
  function Spliced<K>(literals: seq<byte>, anchors: seq<Anchor<K>>, r: K -> Option<seq<byte>>, from: nat): seq<byte>
    requires Ordered(anchors, from, |literals|)
    decreases |anchors|
  {
    if |anchors| == 0 then literals[from..]
    else
      literals[from..anchors[0].index] + Resolve(r, anchors[0].key)
      + Spliced(literals, anchors[1..], r, anchors[0].index)
  }

  /** Splicing from an earlier point adds just the literals up to the later one. */
  lemma {:induction false} SplicedSkip<K>(literals: seq<byte>, anchors: seq<Anchor<K>>, r: K -> Option<seq<byte>>, from: nat, mid: nat)
    requires from <= mid
    requires Ordered(anchors, mid, |literals|)
    ensures Ordered(anchors, from, |literals|)
    ensures Spliced(literals, anchors, r, from) == literals[from..mid] + Spliced(literals, anchors, r, mid)
  {
    OrderedWeaken(anchors, mid, |literals|, from, |literals|);
    if |anchors| == 0 {
      assert literals[from..] == literals[from..mid] + literals[mid..];
    } else {
      var o := anchors[0].index;
      var tail := Resolve(r, anchors[0].key) + Spliced(literals, anchors[1..], r, o);
      assert Spliced(literals, anchors, r, from) == literals[from..o] + tail;
      assert Spliced(literals, anchors, r, mid) == literals[mid..o] + tail;
      assert literals[from..o] == literals[from..mid] + literals[mid..o];
      Associative(literals[from..mid], literals[mid..o], tail);
    }
  }

  /** Ordered anchors can be rendered. */
  lemma OrderedRenderable<K>(literals: seq<byte>, anchors: seq<Anchor<K>>, r: K -> Option<seq<byte>>, from: int)
    requires Ordered(anchors, from, |literals|)
    ensures Renderable(literals, anchors, r)
  {
    OrderedBounds(anchors, from, |literals|);
  }

  lemma {:induction false} RenderFromIsSpliced<K>(literals: seq<byte>, anchors: seq<Anchor<K>>, r: K -> Option<seq<byte>>, start: nat)
    requires Ordered(anchors, start, |literals|)
    ensures Renderable(literals, anchors, r)
    ensures RenderFrom(literals, anchors, r, start) == Spliced(literals, anchors, r, start)
    decreases |anchors|
  {
    OrderedRenderable(literals, anchors, r, start);
    if |anchors| > 0 {
      var a := anchors[0];
      var rest := anchors[1..];
      RenderFromIsSpliced(literals, rest, r, a.index);
      if r(a.key).None? {
        OrderedWeaken(rest, a.index, |literals|, start, |literals|);
        RenderFromIsSpliced(literals, rest, r, start);
        SplicedSkip(literals, rest, r, start, a.index);
      } else {
        RenderFromSplicedStep(literals, anchors, r, start);
      }
    }
  }

  /** The step of `RenderFromIsSpliced` for a resolved anchor. */
  lemma RenderFromSplicedStep<K>(literals: seq<byte>, anchors: seq<Anchor<K>>, r: K -> Option<seq<byte>>, start: nat)
    requires |anchors| > 0 && Ordered(anchors, start, |literals|) && r(anchors[0].key).Some?
    requires Renderable(literals, anchors, r)
    requires RenderFrom(literals, anchors[1..], r, anchors[0].index) == Spliced(literals, anchors[1..], r, anchors[0].index)
    ensures RenderFrom(literals, anchors, r, start) == Spliced(literals, anchors, r, start)
  {
    var a := anchors[0];
    var segment := r(a.key).value;
    var spliced := Spliced(literals, anchors[1..], r, a.index);
    assert Spliced(literals, anchors, r, start) == literals[start..a.index] + segment + spliced;
    if start == a.index {
      assert literals[start..a.index] == [];
      assert RenderFrom(literals, anchors, r, start) == segment + RenderFrom(literals, anchors[1..], r, start);
    } else {
      assert RenderFrom(literals, anchors, r, start) == literals[start..a.index] + segment + RenderFrom(literals, anchors[1..], r, a.index);
    }
  }

  /**
   * On a template that keeps invariant I1, `rendered` emits the literal spans
   * between consecutive offsets in order, each resolved segment between them.
   */
  lemma RenderIsSpliced<K>(t: Template<K>, r: K -> Option<seq<byte>>)
    requires WellFormed(t)
    ensures Ordered(t.anchors, 0, |t.literals|)
    ensures Renderable(t.literals, t.anchors, r)
    ensures Render(t, r) == Spliced(t.literals, t.anchors, r, 0)
  {
    WellFormedIsOrdered(t);
    RenderFromIsSpliced(t.literals, t.anchors, r, 0);
  }

  /**
   * The anchors placed where `rendered` meets them, its cursor starting at
   * `start`: a resolved anchor at the larger of the cursor and its offset
   * (the cursor then moves there), an unresolved one at the cursor.
   */
  function Cursor<K>(anchors: seq<Anchor<K>>, r: K -> Option<seq<byte>>, start: int): (c: seq<Anchor<K>>)
    ensures |c| == |anchors|
    ensures forall i :: 0 <= i < |c| ==> c[i].key == anchors[i].key
    decreases |anchors|
  {
    if |anchors| == 0 then []
    else
      var a := anchors[0];
      var next := if r(a.key).Some? && start < a.index then a.index else start;
      [Anchor(a.key, next)] + Cursor(anchors[1..], r, next)
  }

  lemma RenderableTail<K>(literals: seq<byte>, anchors: seq<Anchor<K>>, r: K -> Option<seq<byte>>)
    requires |anchors| > 0 && Renderable(literals, anchors, r)
    ensures Renderable(literals, anchors[1..], r)
  {
    forall i | 0 <= i < |anchors[1..]| && r(anchors[1..][i].key).Some?
      ensures anchors[1..][i].index <= |literals|
    {
      assert anchors[1..][i] == anchors[i + 1];
    }
  }

  /** Moving each anchor to where the cursor meets it changes nothing `rendered` emits. */
  lemma {:induction false} RenderFromCursor<K>(literals: seq<byte>, anchors: seq<Anchor<K>>, r: K -> Option<seq<byte>>, start: nat)
    requires start <= |literals|
    requires Renderable(literals, anchors, r)
    ensures Ordered(Cursor(anchors, r, start), start, |literals|)
    ensures Renderable(literals, Cursor(anchors, r, start), r)
    ensures RenderFrom(literals, anchors, r, start) == RenderFrom(literals, Cursor(anchors, r, start), r, start)
    decreases |anchors|
  {
    var c := Cursor(anchors, r, start);
    if |anchors| > 0 {
      var a := anchors[0];
      var next: nat := if r(a.key).Some? && start < a.index then a.index else start;
      RenderableTail(literals, anchors, r);
      RenderFromCursor(literals, anchors[1..], r, next);
      assert c[0] == Anchor(a.key, next) && c[1..] == Cursor(anchors[1..], r, next);
    }
    OrderedRenderable(literals, c, r, start);
  }

  /**
   * For every template `rendered` accepts, in any anchor order: the output is
   * the splice of the literals at the offsets the cursor reaches. The cursor
   * never moves back, so each literal byte is emitted once and in order.
   */
  lemma RenderIsSplicedAtCursor<K>(t: Template<K>, r: K -> Option<seq<byte>>)
    requires Renderable(t.literals, t.anchors, r)
    ensures Ordered(Cursor(t.anchors, r, 0), 0, |t.literals|)
    ensures Render(t, r) == Spliced(t.literals, Cursor(t.anchors, r, 0), r, 0)
  {
    RenderFromCursor(t.literals, t.anchors, r, 0);
    RenderFromIsSpliced(t.literals, Cursor(t.anchors, r, 0), r, 0);
  }

  lemma {:induction false} SplicedAppendLiterals<K>(literals: seq<byte>, anchors: seq<Anchor<K>>, r: K -> Option<seq<byte>>, from: nat, bytes: seq<byte>)
    requires Ordered(anchors, from, |literals|)
    ensures Ordered(anchors, from, |literals + bytes|)
    ensures Spliced(literals + bytes, anchors, r, from) == Spliced(literals, anchors, r, from) + bytes
    decreases |anchors|
  {
    OrderedWeaken(anchors, from, |literals|, from, |literals + bytes|);
    if |anchors| == 0 {
      assert (literals + bytes)[from..] == literals[from..] + bytes;
    } else {
      var o := anchors[0].index;
      var head := literals[from..o] + Resolve(r, anchors[0].key);
      SplicedAppendLiterals(literals, anchors[1..], r, o, bytes);
      assert (literals + bytes)[from..o] == literals[from..o];
      assert Spliced(literals + bytes, anchors, r, from) == head + (Spliced(literals, anchors[1..], r, o) + bytes);
      Associative(head, Spliced(literals, anchors[1..], r, o), bytes);
    }
  }

  lemma {:induction false} SplicedAppendAnchor<K>(literals: seq<byte>, anchors: seq<Anchor<K>>, r: K -> Option<seq<byte>>, from: nat, key: K)
    requires Ordered(anchors, from, |literals|)
    ensures Ordered(anchors + [Anchor(key, |literals|)], from, |literals|)
    ensures Spliced(literals, anchors + [Anchor(key, |literals|)], r, from)
            == Spliced(literals, anchors, r, from) + Resolve(r, key)
    decreases |anchors|
  {
    var added := anchors + [Anchor(key, |literals|)];
    if |anchors| == 0 {
      assert added[1..] == [] && literals[|literals|..] == [];
    } else {
      var o := anchors[0].index;
      var head := literals[from..o] + Resolve(r, anchors[0].key);
      assert added[1..] == anchors[1..] + [Anchor(key, |literals|)];
      SplicedAppendAnchor(literals, anchors[1..], r, o, key);
      assert Spliced(literals, added, r, from) == head + (Spliced(literals, anchors[1..], r, o) + Resolve(r, key));
      Associative(head, Spliced(literals, anchors[1..], r, o), Resolve(r, key));
    }
  }

  /** Appending literal bytes to an I1 template appends them to every rendering. */
  lemma RenderAppendLiterals<K>(t: Template<K>, bytes: seq<byte>, r: K -> Option<seq<byte>>)
    requires WellFormed(t)
    ensures WellFormed(Template(t.literals + bytes, t.anchors))
    ensures Renderable(t.literals + bytes, t.anchors, r)
    ensures Render(Template(t.literals + bytes, t.anchors), r) == Render(t, r) + bytes
  {
    var u := Template(t.literals + bytes, t.anchors);
    RenderIsSpliced(t, r);
    SplicedAppendLiterals(t.literals, t.anchors, r, 0, bytes);
    WellFormedIsOrdered(u);
    RenderIsSpliced(u, r);
  }

  /** Recording an anchor at the end of an I1 template appends its segment to every rendering. */
  lemma RenderAppendAnchor<K>(t: Template<K>, key: K, r: K -> Option<seq<byte>>)
    requires WellFormed(t)
    ensures WellFormed(Template(t.literals, t.anchors + [Anchor(key, |t.literals|)]))
    ensures Renderable(t.literals, t.anchors + [Anchor(key, |t.literals|)], r)
    ensures Render(Template(t.literals, t.anchors + [Anchor(key, |t.literals|)]), r)
            == Render(t, r) + Resolve(r, key)
  {
    var u := Template(t.literals, t.anchors + [Anchor(key, |t.literals|)]);
    RenderIsSpliced(t, r);
    SplicedAppendAnchor(t.literals, t.anchors, r, 0, key);
    WellFormedIsOrdered(u);
    RenderIsSpliced(u, r);
  }

  /**
   * Anchors sharing an offset have their segments emitted in list order, after
   * the literals before the offset and before the byte at it.
   */
  lemma RenderSameOffset<K>(literals: seq<byte>, first: K, second: K, offset: nat, r: K -> Option<seq<byte>>)
    requires offset <= |literals|
    ensures Renderable(literals, [Anchor(first, offset), Anchor(second, offset)], r)
    ensures Render(Template(literals, [Anchor(first, offset), Anchor(second, offset)]), r)
            == literals[..offset] + Resolve(r, first) + Resolve(r, second) + literals[offset..]
  {
    var anchors := [Anchor(first, offset), Anchor(second, offset)];
    var rest := anchors[1..];
    assert rest == [Anchor(second, offset)] && rest[1..] == [];
    assert Ordered(anchors, 0, |literals|);
    RenderFromIsSpliced(literals, anchors, r, 0);
    assert Spliced(literals, rest, r, offset) == literals[offset..offset] + Resolve(r, second) + literals[offset..];
    assert literals[offset..offset] == [];
  }

  /** Literals "XY", anchor (k, 1), k resolved to "Z": the output is "XZY". */
  lemma RenderSpliceExample<K>(key: K, r: K -> Option<seq<byte>>)
    requires r(key) == Some(['Z' as byte])
    ensures Renderable(['X' as byte, 'Y' as byte], [Anchor(key, 1)], r)
    ensures Render(Template(['X' as byte, 'Y' as byte], [Anchor(key, 1)]), r)
            == ['X' as byte, 'Z' as byte, 'Y' as byte]
  {
    var literals: seq<byte> := ['X' as byte, 'Y' as byte];
    var anchors := [Anchor(key, 1)];
    assert anchors[1..] == [];
    assert RenderFrom(literals, anchors, r, 0) == literals[0..1] + ['Z' as byte] + literals[1..];
  }

  /** Literals `<a href="` and `">` around one unresolved anchor render to `<a href="">`. */
  lemma RenderUnresolvedAttributeExample<K>(key: K)
    ensures Renderable(HrefOpen() + HrefClose(), [Anchor(key, |HrefOpen()|)], Nothing())
    ensures Render(Template(HrefOpen() + HrefClose(), [Anchor(key, |HrefOpen()|)]), Nothing())
            == HrefOpen() + HrefClose()
  {
    RenderedUnresolved(Template(HrefOpen() + HrefClose(), [Anchor(key, |HrefOpen()|)]), Nothing());
  }

  /** The bytes `<a href="`. */
  function HrefOpen(): seq<byte>
  {
    [0x3c, 0x61, 0x20, 0x68, 0x72, 0x65, 0x66, 0x3d, 0x22]
  }

  /** The bytes `">`. */
  function HrefClose(): seq<byte>
  {
    [0x22, 0x3e]
  }

  lemma {:induction false} RenderFromMapKeys<K, T>(literals: seq<byte>, anchors: seq<Anchor<K>>, f: K -> T, g: T -> Option<seq<byte>>, start: nat)
    requires start <= |literals|
    requires Renderable(literals, anchors, k => g(f(k)))
    ensures Renderable(literals, MapAnchors(anchors, f), g)
    ensures RenderFrom(literals, MapAnchors(anchors, f), g, start) == RenderFrom(literals, anchors, k => g(f(k)), start)
    decreases |anchors|
  {
    var mapped := MapAnchors(anchors, f);
    assert Renderable(literals, mapped, g) by {
      forall i | 0 <= i < |mapped| && g(mapped[i].key).Some? ensures mapped[i].index <= |literals| {
        assert (k => g(f(k)))(anchors[i].key).Some?;
      }
    }
    if |anchors| > 0 {
      assert mapped[1..] == MapAnchors(anchors[1..], f);
      var a := anchors[0];
      RenderFromMapKeys(literals, anchors[1..], f, g, start);
      if a.index >= 0 && a.index <= |literals| {
        RenderFromMapKeys(literals, anchors[1..], f, g, a.index);
      }
    }
  }

  /** Rendering the result of `map` with `g` is rendering the input with `g` after `f`. */
  lemma RenderMapKeys<K, T>(t: Template<K>, f: K -> T, g: T -> Option<seq<byte>>)
    requires Renderable(t.literals, t.anchors, k => g(f(k)))
    ensures Renderable(MapKeys(t, f).literals, MapKeys(t, f).anchors, g)
    ensures Render(MapKeys(t, f), g) == Render(t, k => g(f(k)))
  {
    RenderFromMapKeys(t.literals, t.anchors, f, g, 0);
  }
}
