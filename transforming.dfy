/**
 * `DOM.Template.transform`: each anchor either stays a placeholder under a new
 * key or is resolved at once, its segment merged into a rebuilt literal buffer.
 */
module Transforming {
  import opened Templates
  import opened Rendering

  /** `DOM.Substitution`: rename the placeholder, or inline a segment for it. */
  datatype Substitution<T> = Key(key: T) | Segment(segment: seq<byte>)

  /**
   * What `transform` needs to run without trapping on a slice: the first
   * anchor that becomes a segment lies inside the literals, and no anchor from
   * it on lies past their end. Anchors before it are never used as slice bounds.
   */
  predicate Transformable<K, T>(literals: seq<byte>, anchors: seq<Anchor<K>>, f: K -> Substitution<T>)
    decreases |anchors|
  {
    |anchors| == 0 ||
    match f(anchors[0].key)
    case Key(_) => Transformable(literals, anchors[1..], f)
    case Segment(_) =>
      0 <= anchors[0].index && Below(anchors, |literals|)
  }

  /** Every anchor offset is at most `hi`. */
  predicate Below<K>(anchors: seq<Anchor<K>>, hi: int)
    decreases |anchors|
  {
    |anchors| == 0 || (anchors[0].index <= hi && Below(anchors[1..], hi))
  }

  /** The original literals between the copy position `source` and an anchor at `index`, if it lies ahead. */
  function Gap(literals: seq<byte>, source: nat, index: int): (gap: seq<byte>)
    requires source <= |literals| && index <= |literals|
    ensures source < index ==> gap == literals[source..index]
    ensures index <= source ==> gap == []
  {
    if source < index then literals[source..index] else []
  }

  /** The copy position after reaching an anchor at `index`: it never moves back. */
  function Advance(source: nat, index: int): (next: nat)
    ensures next == if source < index then index else source
  {
    if source < index then index else source
  }

  /**
   * The rebuilding phase, once a segment has been inlined: the bytes and anchors
   * it appends to a new buffer that already holds `base` bytes, when the
   * original literals have been copied up to `source`. Each anchor first
   * flushes the literals between `source` and its offset; a key then becomes an
   * anchor at the new buffer's current length, a segment is appended.
   */
  function Rebuild<K, T>(literals: seq<byte>, anchors: seq<Anchor<K>>, f: K -> Substitution<T>, source: nat, base: nat): Template<T>
    requires source <= |literals|
    requires Below(anchors, |literals|)
    decreases |anchors|
  {
    if |anchors| == 0 then Template(literals[source..], [])
    else
      var a := anchors[0];
      var gap := Gap(literals, source, a.index);
      var next := Advance(source, a.index);
      match f(a.key)
      case Key(k) =>
        var rest := Rebuild(literals, anchors[1..], f, next, base + |gap|);
        Template(gap + rest.literals, [Anchor(k, base + |gap|)] + rest.anchors)
      case Segment(s) =>
        var rest := Rebuild(literals, anchors[1..], f, next, base + |gap| + |s|);
        Template(gap + s + rest.literals, rest.anchors)
  }

  /**
   * The result of `transform`: while every result is a key, the literals are
   * kept and the anchor keeps its offset; the first segment switches to `Rebuild`.
   */
  function TransformFrom<K, T>(literals: seq<byte>, anchors: seq<Anchor<K>>, f: K -> Substitution<T>): Template<T>
    requires Transformable(literals, anchors, f)
    decreases |anchors|
  {
    if |anchors| == 0 then Template(literals, [])
    else
      var a := anchors[0];
      match f(a.key)
      case Key(k) =>
        var rest := TransformFrom(literals, anchors[1..], f);
        Template(rest.literals, [Anchor(k, a.index)] + rest.anchors)
      case Segment(s) =>
        var rest := Rebuild(literals, anchors[1..], f, a.index, a.index + |s|);
        Template(literals[..a.index] + s + rest.literals, rest.anchors)
  }

  function Transformed<K, T>(t: Template<K>, f: K -> Substitution<T>): Template<T>
    requires Transformable(t.literals, t.anchors, f)
  {
    TransformFrom(t.literals, t.anchors, f)
  }

  /** `transform`, proved against `Transformed`. */
  method Transform<K, T>(t: Template<K>, f: K -> Substitution<T>) returns (result: Template<T>)
    requires Transformable(t.literals, t.anchors, f)
    ensures result == Transformed(t, f)
  {
    ghost var whole := Transformed(t, f);
    var anchors: seq<Anchor<T>> := [];
    var i := 0;
    while i < |t.anchors|
      invariant 0 <= i <= |t.anchors|
      invariant Transformable(t.literals, t.anchors[i..], f)
      invariant whole.literals == TransformFrom(t.literals, t.anchors[i..], f).literals
      invariant whole.anchors == anchors + TransformFrom(t.literals, t.anchors[i..], f).anchors
    {
      assert t.anchors[i..][1..] == t.anchors[i + 1..];
      TransformStep(t.literals, t.anchors[i..], f, anchors);
      var anchor := t.anchors[i];
      i := i + 1;
      match f(anchor.key) {
        case Key(key) =>
          anchors := anchors + [Anchor(key, anchor.index)];
        case Segment(segment) =>
          result := RebuildFrom(t, f, i, t.literals[..anchor.index] + segment, anchor.index, anchors);
          return;
      }
    }
    return Template(t.literals, anchors);
  }

  /**
   * The rebuilding loop of `transform`, entered once a segment has been
   * inlined: `literals` and `anchors` are the new buffers so far, `source` how
   * far the original literals have been copied, `i` the next anchor.
   */
  method RebuildFrom<K, T>(t: Template<K>, f: K -> Substitution<T>, i: nat,
                           literals: seq<byte>, source: nat, anchors: seq<Anchor<T>>)
    returns (result: Template<T>)
    requires i <= |t.anchors| && source <= |t.literals|
    requires Below(t.anchors[i..], |t.literals|)
    ensures result.literals == literals + Rebuild(t.literals, t.anchors[i..], f, source, |literals|).literals
    ensures result.anchors == anchors + Rebuild(t.literals, t.anchors[i..], f, source, |literals|).anchors
  {
    ghost var whole := Template(literals + Rebuild(t.literals, t.anchors[i..], f, source, |literals|).literals,
                                anchors + Rebuild(t.literals, t.anchors[i..], f, source, |literals|).anchors);
    var k, copied, recorded := i, literals, anchors;
    var cursor: nat := source;
    while k < |t.anchors|
      invariant i <= k <= |t.anchors|
      invariant cursor <= |t.literals|
      invariant Below(t.anchors[k..], |t.literals|)
      invariant whole.literals == copied + Rebuild(t.literals, t.anchors[k..], f, cursor, |copied|).literals
      invariant whole.anchors == recorded + Rebuild(t.literals, t.anchors[k..], f, cursor, |copied|).anchors
    {
      assert t.anchors[k..][1..] == t.anchors[k + 1..];
      ghost var cursor0, copied0, recorded0, remaining := cursor, copied, recorded, t.anchors[k..];
      var next := t.anchors[k];
      k := k + 1;
      if cursor < next.index {
        copied := copied + t.literals[cursor..next.index];
        cursor := next.index;
      }
      assert copied == copied0 + Gap(t.literals, cursor0, next.index) && cursor == Advance(cursor0, next.index);
      match f(next.key) {
        case Key(key) =>
          recorded := recorded + [Anchor(key, |copied|)];
        case Segment(segment) =>
          copied := copied + segment;
      }
      RebuildStep(t.literals, remaining, f, cursor0, copied0, recorded0, cursor, copied, recorded);
    }
    assert t.anchors[k..] == [];
    if cursor < |t.literals| {
      copied := copied + t.literals[cursor..];
    }
    return Template(copied, recorded);
  }

  /** One iteration of the first loop consumes the first anchor of `TransformFrom`. */
  lemma TransformStep<K, T>(literals: seq<byte>, anchors: seq<Anchor<K>>, f: K -> Substitution<T>, recorded: seq<Anchor<T>>)
    requires |anchors| > 0
    requires Transformable(literals, anchors, f)
    ensures
      var a := anchors[0];
      var whole := TransformFrom(literals, anchors, f);
      match f(a.key)
      case Key(k) =>
        && Transformable(literals, anchors[1..], f)
        && whole.literals == TransformFrom(literals, anchors[1..], f).literals
        && recorded + whole.anchors == (recorded + [Anchor(k, a.index)]) + TransformFrom(literals, anchors[1..], f).anchors
      case Segment(s) =>
        && 0 <= a.index <= |literals|
        && Below(anchors[1..], |literals|)
        && var rest := Rebuild(literals, anchors[1..], f, a.index, |literals[..a.index] + s|);
           && whole.literals == literals[..a.index] + s + rest.literals
           && recorded + whole.anchors == recorded + rest.anchors
  {
    var a := anchors[0];
    match f(a.key)
    case Key(k) =>
      Associative(recorded, [Anchor(k, a.index)], TransformFrom(literals, anchors[1..], f).anchors);
    case Segment(s) =>
      assert |literals[..a.index] + s| == a.index + |s|;
  }

  /** One iteration of the rebuilding loop consumes the first anchor of `Rebuild`. */
  lemma RebuildStep<K, T>(literals: seq<byte>, anchors: seq<Anchor<K>>, f: K -> Substitution<T>,
                          source: nat, copied: seq<byte>, recorded: seq<Anchor<T>>,
                          source': nat, copied': seq<byte>, recorded': seq<Anchor<T>>)
    requires |anchors| > 0 && source <= |literals|
    requires Below(anchors, |literals|)
    requires source' == Advance(source, anchors[0].index)
    requires
      var gap := Gap(literals, source, anchors[0].index);
      match f(anchors[0].key)
      case Key(k) => copied' == copied + gap && recorded' == recorded + [Anchor(k, |copied'|)]
      case Segment(s) => copied' == copied + gap + s && recorded' == recorded
    ensures copied + Rebuild(literals, anchors, f, source, |copied|).literals
            == copied' + Rebuild(literals, anchors[1..], f, source', |copied'|).literals
    ensures recorded + Rebuild(literals, anchors, f, source, |copied|).anchors
            == recorded' + Rebuild(literals, anchors[1..], f, source', |copied'|).anchors
  {
    var a := anchors[0];
    var gap := Gap(literals, source, a.index);
    var rest := Rebuild(literals, anchors[1..], f, source', |copied'|);
    RebuildUnfold(literals, anchors, f, source, |copied|);
    if f(a.key).Key? {
      var k := f(a.key).key;
      assert Rebuild(literals, anchors, f, source, |copied|) == Template(gap + rest.literals, [Anchor(k, |copied'|)] + rest.anchors);
      Associative(copied, gap, rest.literals);
      Associative(recorded, [Anchor(k, |copied'|)], rest.anchors);
    } else {
      var s := f(a.key).segment;
      assert Rebuild(literals, anchors, f, source, |copied|) == Template(gap + s + rest.literals, rest.anchors);
      Associative(copied, gap + s, rest.literals);
      Associative(copied, gap, s);
    }
  }

  /** `Rebuild` unfolded once. */
  lemma RebuildUnfold<K, T>(literals: seq<byte>, anchors: seq<Anchor<K>>, f: K -> Substitution<T>, source: nat, base: nat)
    requires |anchors| > 0 && source <= |literals|
    requires Below(anchors, |literals|)
    ensures
      var a := anchors[0];
      var gap := Gap(literals, source, a.index);
      match f(a.key)
      case Key(k) =>
        var rest := Rebuild(literals, anchors[1..], f, Advance(source, a.index), base + |gap|);
        Rebuild(literals, anchors, f, source, base) == Template(gap + rest.literals, [Anchor(k, base + |gap|)] + rest.anchors)
      case Segment(s) =>
        var rest := Rebuild(literals, anchors[1..], f, Advance(source, a.index), base + |gap| + |s|);
        Rebuild(literals, anchors, f, source, base) == Template(gap + s + rest.literals, rest.anchors)
  {
  }

  /** The resolver `transform` is compatible with: a segment resolves to itself, a key as `g` resolves its new key. */
  function Combined<K, T>(f: K -> Substitution<T>, g: T -> Option<seq<byte>>): K -> Option<seq<byte>>
  {
    k => match f(k)
         case Key(key) => g(key)
         case Segment(segment) => Some(segment)
  }

  /** How many anchors `f` keeps as keys. */
  function KeyCount<K, T>(anchors: seq<Anchor<K>>, f: K -> Substitution<T>): nat
    decreases |anchors|
  {
    if |anchors| == 0 then 0
    else (if f(anchors[0].key).Key? then 1 else 0) + KeyCount(anchors[1..], f)
  }

  /** Total length of the segments `f` inlines. */
  function InlinedLength<K, T>(anchors: seq<Anchor<K>>, f: K -> Substitution<T>): nat
    decreases |anchors|
  {
    if |anchors| == 0 then 0
    else
      (match f(anchors[0].key) case Key(_) => 0 case Segment(s) => |s|)
      + InlinedLength(anchors[1..], f)
  }

  lemma {:induction false} RebuildSizes<K, T>(literals: seq<byte>, anchors: seq<Anchor<K>>, f: K -> Substitution<T>, source: nat, base: nat)
    requires source <= |literals|
    requires Below(anchors, |literals|)
    ensures |Rebuild(literals, anchors, f, source, base).anchors| == KeyCount(anchors, f)
    ensures |Rebuild(literals, anchors, f, source, base).literals| == |literals| - source + InlinedLength(anchors, f)
    decreases |anchors|
  {
    if |anchors| > 0 {
      var a := anchors[0];
      var gap := Gap(literals, source, a.index);
      var next := Advance(source, a.index);
      match f(a.key)
      case Key(k) =>
        RebuildSizes(literals, anchors[1..], f, next, base + |gap|);
      case Segment(s) =>
        RebuildSizes(literals, anchors[1..], f, next, base + |gap| + |s|);
    }
  }

  lemma {:induction false} TransformFromSizes<K, T>(literals: seq<byte>, anchors: seq<Anchor<K>>, f: K -> Substitution<T>)
    requires Transformable(literals, anchors, f)
    ensures |TransformFrom(literals, anchors, f).anchors| == KeyCount(anchors, f)
    ensures |TransformFrom(literals, anchors, f).literals| == |literals| + InlinedLength(anchors, f)
    decreases |anchors|
  {
    if |anchors| > 0 {
      var a := anchors[0];
      match f(a.key)
      case Key(k) =>
        TransformFromSizes(literals, anchors[1..], f);
      case Segment(s) =>
        RebuildSizes(literals, anchors[1..], f, a.index, a.index + |s|);
    }
  }

  /**
   * The result keeps one anchor per key result, and its literals grow by
   * exactly the inlined segments: no literal byte is lost or repeated.
   */
  lemma TransformSizes<K, T>(t: Template<K>, f: K -> Substitution<T>)
    requires Transformable(t.literals, t.anchors, f)
    ensures |Transformed(t, f).anchors| == KeyCount(t.anchors, f)
    ensures |Transformed(t, f).literals| == |t.literals| + InlinedLength(t.anchors, f)
  {
    TransformFromSizes(t.literals, t.anchors, f);
  }

  lemma {:induction false} TransformFromKeysOnly<K, T>(literals: seq<byte>, anchors: seq<Anchor<K>>, f: K -> Substitution<T>)
    requires forall i :: 0 <= i < |anchors| ==> f(anchors[i].key).Key?
    ensures Transformable(literals, anchors, f)
    ensures TransformFrom(literals, anchors, f).literals == literals
    ensures |TransformFrom(literals, anchors, f).anchors| == |anchors|
    ensures forall i :: 0 <= i < |anchors| ==>
              TransformFrom(literals, anchors, f).anchors[i] == Anchor(f(anchors[i].key).key, anchors[i].index)
    decreases |anchors|
  {
    if |anchors| > 0 {
      TransformFromKeysOnly(literals, anchors[1..], f);
      var rest := TransformFrom(literals, anchors[1..], f);
      var whole := TransformFrom(literals, anchors, f);
      assert whole.anchors == [Anchor(f(anchors[0].key).key, anchors[0].index)] + rest.anchors;
      forall i | 0 < i < |anchors|
        ensures whole.anchors[i] == Anchor(f(anchors[i].key).key, anchors[i].index)
      {
        assert whole.anchors[i] == rest.anchors[i - 1] && anchors[1..][i - 1] == anchors[i];
      }
    }
  }

  /**
   * When `f` never inlines a segment (also when there are no anchors), the
   * literals are the input's and each anchor is renamed in place, in order.
   */
  lemma TransformKeysOnly<K, T>(t: Template<K>, f: K -> Substitution<T>)
    requires forall i :: 0 <= i < |t.anchors| ==> f(t.anchors[i].key).Key?
    ensures Transformable(t.literals, t.anchors, f)
    ensures Transformed(t, f).literals == t.literals
    ensures |Transformed(t, f).anchors| == |t.anchors|
    ensures forall i :: 0 <= i < |t.anchors| ==>
              Transformed(t, f).anchors[i] == Anchor(f(t.anchors[i].key).key, t.anchors[i].index)
  {
    TransformFromKeysOnly(t.literals, t.anchors, f);
  }

  /** `map` is the special case of `transform` that only renames. */
  lemma MapIsTransform<K, T>(t: Template<K>, h: K -> T)
    ensures Transformable(t.literals, t.anchors, k => Key(h(k)))
    ensures Transformed(t, k => Key(h(k))) == MapKeys(t, h)
  {
    TransformKeysOnly(t, k => Key(h(k)));
    assert Transformed(t, k => Key(h(k))).anchors == MapKeys(t, h).anchors;
  }

  /** Anchors ordered within the literals can be transformed by any `f`. */
  lemma {:induction false} OrderedTransformable<K, T>(literals: seq<byte>, anchors: seq<Anchor<K>>, f: K -> Substitution<T>, lo: nat)
    requires Ordered(anchors, lo, |literals|)
    ensures Transformable(literals, anchors, f)
    decreases |anchors|
  {
    if |anchors| > 0 {
      OrderedTransformable(literals, anchors[1..], f, anchors[0].index);
      OrderedBelow(anchors, lo, |literals|);
    }
  }

  lemma {:induction false} OrderedBelow<K>(anchors: seq<Anchor<K>>, lo: int, hi: int)
    requires Ordered(anchors, lo, hi)
    ensures Below(anchors, hi)
    decreases |anchors|
  {
    if |anchors| > 0 {
      OrderedBelow(anchors[1..], anchors[0].index, hi);
    }
  }

  lemma {:induction false} RebuildOrdered<K, T>(literals: seq<byte>, anchors: seq<Anchor<K>>, f: K -> Substitution<T>, source: nat, base: nat)
    requires source <= |literals|
    requires Below(anchors, |literals|)
    ensures Ordered(Rebuild(literals, anchors, f, source, base).anchors, base,
                    base + |Rebuild(literals, anchors, f, source, base).literals|)
    decreases |anchors|
  {
    if |anchors| > 0 {
      var a := anchors[0];
      var gap := Gap(literals, source, a.index);
      var next := Advance(source, a.index);
      match f(a.key)
      case Key(k) =>
        var rest := Rebuild(literals, anchors[1..], f, next, base + |gap|);
        RebuildOrdered(literals, anchors[1..], f, next, base + |gap|);
        OrderedBounds(rest.anchors, base + |gap|, base + |gap| + |rest.literals|);
        var added := [Anchor(k, base + |gap|)] + rest.anchors;
        assert added[1..] == rest.anchors;
      case Segment(s) =>
        var rest := Rebuild(literals, anchors[1..], f, next, base + |gap| + |s|);
        RebuildOrdered(literals, anchors[1..], f, next, base + |gap| + |s|);
        OrderedWeaken(rest.anchors, base + |gap| + |s|, base + |gap| + |s| + |rest.literals|,
                      base, base + |gap| + |s| + |rest.literals|);
    }
  }

  lemma {:induction false} TransformFromOrdered<K, T>(literals: seq<byte>, anchors: seq<Anchor<K>>, f: K -> Substitution<T>, lo: nat)
    requires Ordered(anchors, lo, |literals|)
    ensures Transformable(literals, anchors, f)
    ensures Ordered(TransformFrom(literals, anchors, f).anchors, lo, |TransformFrom(literals, anchors, f).literals|)
    decreases |anchors|
  {
    OrderedTransformable(literals, anchors, f, lo);
    if |anchors| > 0 {
      var a := anchors[0];
      match f(a.key)
      case Key(k) =>
        var rest := TransformFrom(literals, anchors[1..], f);
        TransformFromOrdered(literals, anchors[1..], f, a.index);
        OrderedBounds(rest.anchors, a.index, |rest.literals|);
        var added := [Anchor(k, a.index)] + rest.anchors;
        assert added[1..] == rest.anchors;
      case Segment(s) =>
        OrderedBounds(anchors, lo, |literals|);
        var rest := Rebuild(literals, anchors[1..], f, a.index, a.index + |s|);
        RebuildOrdered(literals, anchors[1..], f, a.index, a.index + |s|);
        OrderedWeaken(rest.anchors, a.index + |s|, a.index + |s| + |rest.literals|,
                      lo, a.index + |s| + |rest.literals|);
    }
  }

  /**
   * On a template that keeps invariant I1, so does the result: its offsets
   * are non-decreasing and at most the length of the new literals.
   */
  lemma TransformWellFormed<K, T>(t: Template<K>, f: K -> Substitution<T>)
    requires WellFormed(t)
    ensures Transformable(t.literals, t.anchors, f)
    ensures WellFormed(Transformed(t, f))
  {
    WellFormedIsOrdered(t);
    TransformFromOrdered(t.literals, t.anchors, f, 0);
    WellFormedIsOrdered(Transformed(t, f));
  }

  /** Up to the first anchor, the result's literals are the input's. */
  lemma {:induction false} TransformFromKeepsPrefix<K, T>(literals: seq<byte>, anchors: seq<Anchor<K>>, f: K -> Substitution<T>, lo: nat)
    requires Ordered(anchors, lo, |literals|)
    ensures Transformable(literals, anchors, f)
    ensures lo <= |TransformFrom(literals, anchors, f).literals|
    ensures TransformFrom(literals, anchors, f).literals[..lo] == literals[..lo]
    decreases |anchors|
  {
    OrderedTransformable(literals, anchors, f, lo);
    if |anchors| > 0 {
      var a := anchors[0];
      match f(a.key)
      case Key(k) =>
        TransformFromKeepsPrefix(literals, anchors[1..], f, a.index);
        var rest := TransformFrom(literals, anchors[1..], f);
        assert rest.literals[..lo] == rest.literals[..a.index][..lo];
        assert literals[..lo] == literals[..a.index][..lo];
      case Segment(s) =>
        var rest := Rebuild(literals, anchors[1..], f, a.index, a.index + |s|);
        assert (literals[..a.index] + s + rest.literals)[..lo] == literals[..a.index][..lo];
    }
  }

  lemma {:induction false} RebuildSpliced<K, T>(literals: seq<byte>, anchors: seq<Anchor<K>>, f: K -> Substitution<T>,
                                                g: T -> Option<seq<byte>>, source: nat, prefix: seq<byte>)
    requires Ordered(anchors, source, |literals|)
    requires Below(anchors, |literals|)
    ensures Ordered(Rebuild(literals, anchors, f, source, |prefix|).anchors, |prefix|,
                    |prefix + Rebuild(literals, anchors, f, source, |prefix|).literals|)
    ensures Spliced(prefix + Rebuild(literals, anchors, f, source, |prefix|).literals,
                    Rebuild(literals, anchors, f, source, |prefix|).anchors, g, |prefix|)
            == Spliced(literals, anchors, Combined(f, g), source)
    decreases |anchors|
  {
    RebuildOrdered(literals, anchors, f, source, |prefix|);
    if |anchors| == 0 {
      assert (prefix + literals[source..])[|prefix|..] == literals[source..];
    } else {
      var a := anchors[0];
      if f(a.key).Key? {
        RebuildSpliced(literals, anchors[1..], f, g, a.index, prefix + literals[source..a.index]);
        RebuildSplicedKey(literals, anchors, f, g, source, prefix);
      } else {
        RebuildSpliced(literals, anchors[1..], f, g, a.index, prefix + literals[source..a.index] + f(a.key).segment);
        RebuildSplicedSegment(literals, anchors, f, g, source, prefix);
      }
    }
  }

  /** The inductive step of `RebuildSpliced` for an anchor that stays a placeholder. */
  lemma RebuildSplicedKey<K, T>(literals: seq<byte>, anchors: seq<Anchor<K>>, f: K -> Substitution<T>,
                                g: T -> Option<seq<byte>>, source: nat, prefix: seq<byte>)
    requires |anchors| > 0 && f(anchors[0].key).Key?
    requires |anchors| > 0 && Ordered(anchors, source, |literals|) && Below(anchors, |literals|)
    requires
      var a := anchors[0];
      var prefix' := prefix + literals[source..a.index];
      var rest := Rebuild(literals, anchors[1..], f, a.index, |prefix'|);
      && Ordered(rest.anchors, |prefix'|, |prefix' + rest.literals|)
      && Spliced(prefix' + rest.literals, rest.anchors, g, |prefix'|) == Spliced(literals, anchors[1..], Combined(f, g), a.index)
    ensures Ordered(Rebuild(literals, anchors, f, source, |prefix|).anchors, |prefix|,
                    |prefix + Rebuild(literals, anchors, f, source, |prefix|).literals|)
    ensures Spliced(prefix + Rebuild(literals, anchors, f, source, |prefix|).literals,
                    Rebuild(literals, anchors, f, source, |prefix|).anchors, g, |prefix|)
            == Spliced(literals, anchors, Combined(f, g), source)
  {
    RebuildOrdered(literals, anchors, f, source, |prefix|);
    var whole := Rebuild(literals, anchors, f, source, |prefix|);
    var a := anchors[0];
    var gap: seq<byte> := literals[source..a.index];
    RebuildUnfold(literals, anchors, f, source, |prefix|);
    assert Gap(literals, source, a.index) == gap && Advance(source, a.index) == a.index;
    var k := f(a.key).key;
    var prefix' := prefix + gap;
    var rest := Rebuild(literals, anchors[1..], f, a.index, |prefix'|);
    assert whole == Template(gap + rest.literals, [Anchor(k, |prefix'|)] + rest.anchors);
    Associative(prefix, gap, rest.literals);
    var text := prefix' + rest.literals;
    assert whole.anchors[1..] == rest.anchors;
    assert text[|prefix|..|prefix'|] == gap;
    assert Resolve(Combined(f, g), a.key) == Resolve(g, k);
  }

  /** The inductive step of `RebuildSpliced` for an anchor whose segment is inlined. */
  lemma RebuildSplicedSegment<K, T>(literals: seq<byte>, anchors: seq<Anchor<K>>, f: K -> Substitution<T>,
                                    g: T -> Option<seq<byte>>, source: nat, prefix: seq<byte>)
    requires |anchors| > 0 && f(anchors[0].key).Segment?
    requires |anchors| > 0 && Ordered(anchors, source, |literals|) && Below(anchors, |literals|)
    requires
      var a := anchors[0];
      var prefix' := prefix + literals[source..a.index] + f(a.key).segment;
      var rest := Rebuild(literals, anchors[1..], f, a.index, |prefix'|);
      && Ordered(rest.anchors, |prefix'|, |prefix' + rest.literals|)
      && Spliced(prefix' + rest.literals, rest.anchors, g, |prefix'|) == Spliced(literals, anchors[1..], Combined(f, g), a.index)
    ensures Ordered(Rebuild(literals, anchors, f, source, |prefix|).anchors, |prefix|,
                    |prefix + Rebuild(literals, anchors, f, source, |prefix|).literals|)
    ensures Spliced(prefix + Rebuild(literals, anchors, f, source, |prefix|).literals,
                    Rebuild(literals, anchors, f, source, |prefix|).anchors, g, |prefix|)
            == Spliced(literals, anchors, Combined(f, g), source)
  {
    RebuildOrdered(literals, anchors, f, source, |prefix|);
    var whole := Rebuild(literals, anchors, f, source, |prefix|);
    var a := anchors[0];
    var gap: seq<byte> := literals[source..a.index];
    RebuildUnfold(literals, anchors, f, source, |prefix|);
    assert Gap(literals, source, a.index) == gap && Advance(source, a.index) == a.index;
    var s := f(a.key).segment;
    var prefix' := prefix + gap + s;
    var rest := Rebuild(literals, anchors[1..], f, a.index, |prefix'|);
    assert whole == Template(gap + s + rest.literals, rest.anchors);
    Associative(prefix, gap + s, rest.literals);
    Associative(prefix, gap, s);
    var text := prefix' + rest.literals;
    SplicedSkip(text, rest.anchors, g, |prefix|, |prefix'|);
    assert text[|prefix|..|prefix'|] == gap + s;
    assert Resolve(Combined(f, g), a.key) == s;
  }

  lemma {:induction false} TransformFromSpliced<K, T>(literals: seq<byte>, anchors: seq<Anchor<K>>, f: K -> Substitution<T>,
                                                      g: T -> Option<seq<byte>>, from: nat)
    requires Ordered(anchors, from, |literals|)
    ensures Transformable(literals, anchors, f)
    ensures Ordered(TransformFrom(literals, anchors, f).anchors, from, |TransformFrom(literals, anchors, f).literals|)
    ensures Spliced(TransformFrom(literals, anchors, f).literals, TransformFrom(literals, anchors, f).anchors, g, from)
            == Spliced(literals, anchors, Combined(f, g), from)
    decreases |anchors|
  {
    TransformFromOrdered(literals, anchors, f, from);
    if |anchors| > 0 {
      var a := anchors[0];
      match f(a.key)
      case Key(k) =>
        TransformFromSpliced(literals, anchors[1..], f, g, a.index);
        TransformFromKeepsPrefix(literals, anchors[1..], f, a.index);
        TransformFromSplicedKey(literals, anchors, f, g, from);
      case Segment(s) =>
        OrderedBelow(anchors, from, |literals|);
        var prefix := literals[..a.index] + s;
        RebuildSpliced(literals, anchors[1..], f, g, a.index, prefix);
        TransformFromSplicedSegment(literals, anchors, f, g, from);
    }
  }

  /** The step of `TransformFromSpliced` for an anchor that stays a placeholder. */
  lemma TransformFromSplicedKey<K, T>(literals: seq<byte>, anchors: seq<Anchor<K>>, f: K -> Substitution<T>,
                                      g: T -> Option<seq<byte>>, from: nat)
    requires |anchors| > 0 && Ordered(anchors, from, |literals|) && f(anchors[0].key).Key?
    requires Transformable(literals, anchors[1..], f)
    requires
      var a := anchors[0];
      var rest := TransformFrom(literals, anchors[1..], f);
      && Ordered(rest.anchors, a.index, |rest.literals|)
      && a.index <= |rest.literals| && rest.literals[..a.index] == literals[..a.index]
      && Spliced(rest.literals, rest.anchors, g, a.index) == Spliced(literals, anchors[1..], Combined(f, g), a.index)
    ensures Transformable(literals, anchors, f)
    ensures Ordered(TransformFrom(literals, anchors, f).anchors, from, |TransformFrom(literals, anchors, f).literals|)
    ensures Spliced(TransformFrom(literals, anchors, f).literals, TransformFrom(literals, anchors, f).anchors, g, from)
            == Spliced(literals, anchors, Combined(f, g), from)
  {
    TransformFromOrdered(literals, anchors, f, from);
    var a := anchors[0];
    var k := f(a.key).key;
    var whole := TransformFrom(literals, anchors, f);
    var rest := TransformFrom(literals, anchors[1..], f);
    assert whole == Template(rest.literals, [Anchor(k, a.index)] + rest.anchors);
    assert whole.anchors[1..] == rest.anchors;
    assert rest.literals[from..a.index] == rest.literals[..a.index][from..];
    assert literals[from..a.index] == literals[..a.index][from..];
    assert Resolve(Combined(f, g), a.key) == Resolve(g, k);
  }

  /** The step of `TransformFromSpliced` for the first anchor that inlines a segment. */
  lemma TransformFromSplicedSegment<K, T>(literals: seq<byte>, anchors: seq<Anchor<K>>, f: K -> Substitution<T>,
                                          g: T -> Option<seq<byte>>, from: nat)
    requires |anchors| > 0 && Ordered(anchors, from, |literals|) && f(anchors[0].key).Segment?
    requires Below(anchors, |literals|)
    requires
      var a := anchors[0];
      var prefix := literals[..a.index] + f(a.key).segment;
      var rest := Rebuild(literals, anchors[1..], f, a.index, |prefix|);
      && Ordered(rest.anchors, |prefix|, |prefix + rest.literals|)
      && Spliced(prefix + rest.literals, rest.anchors, g, |prefix|) == Spliced(literals, anchors[1..], Combined(f, g), a.index)
    ensures Transformable(literals, anchors, f)
    ensures Ordered(TransformFrom(literals, anchors, f).anchors, from, |TransformFrom(literals, anchors, f).literals|)
    ensures Spliced(TransformFrom(literals, anchors, f).literals, TransformFrom(literals, anchors, f).anchors, g, from)
            == Spliced(literals, anchors, Combined(f, g), from)
  {
    TransformFromOrdered(literals, anchors, f, from);
    var a := anchors[0];
    var s := f(a.key).segment;
    var prefix := literals[..a.index] + s;
    var rest := Rebuild(literals, anchors[1..], f, a.index, |prefix|);
    assert TransformFrom(literals, anchors, f) == Template(prefix + rest.literals, rest.anchors);
    SplicedSkip(prefix + rest.literals, rest.anchors, g, from, |prefix|);
    assert (prefix + rest.literals)[from..|prefix|] == literals[from..a.index] + s;
    assert Resolve(Combined(f, g), a.key) == s;
  }

  /**
   * `transform` is compatible with rendering: on a template that keeps
   * invariant I1, rendering the result with `g` equals rendering the input
   * with segments resolved to themselves and keys resolved by `g`.
   */
  lemma TransformRender<K, T>(t: Template<K>, f: K -> Substitution<T>, g: T -> Option<seq<byte>>)
    requires WellFormed(t)
    ensures Transformable(t.literals, t.anchors, f)
    ensures WellFormed(Transformed(t, f))
    ensures Renderable(t.literals, t.anchors, Combined(f, g))
    ensures Renderable(Transformed(t, f).literals, Transformed(t, f).anchors, g)
    ensures Render(Transformed(t, f), g) == Render(t, Combined(f, g))
  {
    WellFormedIsOrdered(t);
    TransformFromSpliced(t.literals, t.anchors, f, g, 0);
    TransformWellFormed(t, f);
    RenderIsSpliced(t, Combined(f, g));
    RenderIsSpliced(Transformed(t, f), g);
  }

  /**
   * On a template that keeps invariant I1, the new literals are the input
   * rendered with only the inlined segments resolved: every input literal
   * byte once and in order, each segment at its anchor's offset, segments at
   * one offset in anchor order.
   */
  lemma TransformLiterals<K, T>(t: Template<K>, f: K -> Substitution<T>)
    requires WellFormed(t)
    ensures Transformable(t.literals, t.anchors, f)
    ensures Renderable(t.literals, t.anchors, Combined(f, Nothing()))
    ensures Transformed(t, f).literals == Render(t, Combined(f, Nothing()))
  {
    TransformRender(t, f, Nothing());
    RenderedUnresolved(Transformed(t, f), Nothing());
  }

  /** The anchors placed where the rebuilding loop's copy position meets them, starting at `source`. */
  function Advanced<K>(anchors: seq<Anchor<K>>, source: int): (c: seq<Anchor<K>>)
    ensures |c| == |anchors|
    ensures forall i :: 0 <= i < |c| ==> c[i].key == anchors[i].key
    decreases |anchors|
  {
    if |anchors| == 0 then []
    else
      var next := if source < anchors[0].index then anchors[0].index else source;
      [Anchor(anchors[0].key, next)] + Advanced(anchors[1..], next)
  }

  /**
   * The anchors placed where `transform` meets them: the renamed keys before
   * the first inlined segment at 0 (they touch no literals), that anchor at its
   * offset, and the rest where the copy position meets them.
   */
  function TransformCursor<K, T>(anchors: seq<Anchor<K>>, f: K -> Substitution<T>): (c: seq<Anchor<K>>)
    ensures |c| == |anchors|
    decreases |anchors|
  {
    if |anchors| == 0 then []
    else
      match f(anchors[0].key)
      case Key(_) => [Anchor(anchors[0].key, 0)] + TransformCursor(anchors[1..], f)
      case Segment(_) => [anchors[0]] + Advanced(anchors[1..], anchors[0].index)
  }

  /** Moving each anchor to where the copy position meets it changes nothing the rebuilding loop produces. */
  lemma {:induction false} RebuildAdvanced<K, T>(literals: seq<byte>, anchors: seq<Anchor<K>>, f: K -> Substitution<T>, source: nat, base: nat)
    requires source <= |literals|
    requires Below(anchors, |literals|)
    ensures Ordered(Advanced(anchors, source), source, |literals|)
    ensures Below(Advanced(anchors, source), |literals|)
    ensures Rebuild(literals, anchors, f, source, base) == Rebuild(literals, Advanced(anchors, source), f, source, base)
    decreases |anchors|
  {
    var c := Advanced(anchors, source);
    if |anchors| > 0 {
      var a := anchors[0];
      var next := Advance(source, a.index);
      var gap := Gap(literals, source, a.index);
      assert c[0] == Anchor(a.key, next) && c[1..] == Advanced(anchors[1..], next);
      assert Gap(literals, source, next) == gap && Advance(source, next) == next;
      match f(a.key)
      case Key(k) =>
        RebuildAdvanced(literals, anchors[1..], f, next, base + |gap|);
      case Segment(s) =>
        RebuildAdvanced(literals, anchors[1..], f, next, base + |gap| + |s|);
    }
    OrderedBelow(c, source, |literals|);
  }

  /** Moving each anchor to where `transform` meets it changes none of the new literals. */
  lemma {:induction false} TransformFromCursor<K, T>(literals: seq<byte>, anchors: seq<Anchor<K>>, f: K -> Substitution<T>)
    requires Transformable(literals, anchors, f)
    ensures Ordered(TransformCursor(anchors, f), 0, |literals|)
    ensures Transformable(literals, TransformCursor(anchors, f), f)
    ensures TransformFrom(literals, anchors, f).literals == TransformFrom(literals, TransformCursor(anchors, f), f).literals
    decreases |anchors|
  {
    var c := TransformCursor(anchors, f);
    if |anchors| > 0 {
      var a := anchors[0];
      match f(a.key)
      case Key(_) =>
        TransformFromCursor(literals, anchors[1..], f);
        assert c[0] == Anchor(a.key, 0) && c[1..] == TransformCursor(anchors[1..], f);
      case Segment(s) =>
        RebuildAdvanced(literals, anchors[1..], f, a.index, a.index + |s|);
        assert c[0] == a && c[1..] == Advanced(anchors[1..], a.index);
    }
    OrderedTransformable(literals, c, f, 0);
  }

  /**
   * For every template `transform` accepts, in any anchor order: the new
   * literals are the splice of the input literals with the inlined segments at
   * the offsets the copy position reaches. It never moves back, so each input
   * literal byte is kept once and in order.
   */
  lemma TransformLiteralsAtCursor<K, T>(t: Template<K>, f: K -> Substitution<T>)
    requires Transformable(t.literals, t.anchors, f)
    ensures Ordered(TransformCursor(t.anchors, f), 0, |t.literals|)
    ensures Transformed(t, f).literals == Spliced(t.literals, TransformCursor(t.anchors, f), Combined(f, Nothing()), 0)
  {
    TransformFromCursor(t.literals, t.anchors, f);
    var u := Template(t.literals, TransformCursor(t.anchors, f));
    WellFormedIsOrdered(u);
    TransformLiterals(u, f);
    RenderIsSpliced(u, Combined(f, Nothing()));
  }

  /** Up to the first anchor that inlines a segment, the result's literals are the input's. */
  lemma {:induction false} TransformFromKeepsPrefixBefore<K, T>(literals: seq<byte>, anchors: seq<Anchor<K>>, f: K -> Substitution<T>, i: nat)
    requires Transformable(literals, anchors, f)
    requires i < |anchors| && f(anchors[i].key).Segment?
    requires forall j :: 0 <= j < i ==> f(anchors[j].key).Key?
    ensures 0 <= anchors[i].index <= |literals|
    ensures anchors[i].index <= |TransformFrom(literals, anchors, f).literals|
    ensures TransformFrom(literals, anchors, f).literals[..anchors[i].index] == literals[..anchors[i].index]
    decreases i
  {
    var a := anchors[0];
    if i == 0 {
      var s := f(a.key).segment;
      var rest := Rebuild(literals, anchors[1..], f, a.index, a.index + |s|);
      assert (literals[..a.index] + s + rest.literals)[..a.index] == literals[..a.index];
    } else {
      assert f(a.key).Key?;
      forall j | 0 <= j < i - 1 ensures f(anchors[1..][j].key).Key? {
        assert anchors[1..][j] == anchors[j + 1];
      }
      assert anchors[1..][i - 1] == anchors[i];
      TransformFromKeepsPrefixBefore(literals, anchors[1..], f, i - 1);
    }
  }

  /**
   * The new literal buffer starts with the input's literals before the first
   * anchor that inlines a segment, whatever the renamed anchors before it.
   */
  lemma TransformKeepsPrefix<K, T>(t: Template<K>, f: K -> Substitution<T>, i: nat)
    requires Transformable(t.literals, t.anchors, f)
    requires i < |t.anchors| && f(t.anchors[i].key).Segment?
    requires forall j :: 0 <= j < i ==> f(t.anchors[j].key).Key?
    ensures 0 <= t.anchors[i].index <= |t.literals|
    ensures t.anchors[i].index <= |Transformed(t, f).literals|
    ensures Transformed(t, f).literals[..t.anchors[i].index] == t.literals[..t.anchors[i].index]
  {
    TransformFromKeepsPrefixBefore(t.literals, t.anchors, f, i);
  }

  /**
   * Literals "ABC", anchors (p, 1) and (q, 2); p inlines "1", q becomes q2:
   * the literals become "A1BC" with the one anchor (q2, 3), which renders to
   * "A1B2C" when q2 resolves to "2".
   */
  lemma TransformExample<K, T>(p: K, q: K, q2: T, f: K -> Substitution<T>, g: T -> Option<seq<byte>>)
    requires f(p) == Segment(['1' as byte]) && f(q) == Key(q2) && g(q2) == Some(['2' as byte])
    ensures Transformable(['A' as byte, 'B' as byte, 'C' as byte], [Anchor(p, 1), Anchor(q, 2)], f)
    ensures Transformed(Template(['A' as byte, 'B' as byte, 'C' as byte], [Anchor(p, 1), Anchor(q, 2)]), f)
            == Template(['A' as byte, '1' as byte, 'B' as byte, 'C' as byte], [Anchor(q2, 3)])
    ensures Renderable(['A' as byte, '1' as byte, 'B' as byte, 'C' as byte], [Anchor(q2, 3)], g)
    ensures Render(Template(['A' as byte, '1' as byte, 'B' as byte, 'C' as byte], [Anchor(q2, 3)]), g)
            == ['A' as byte, '1' as byte, 'B' as byte, '2' as byte, 'C' as byte]
  {
    var literals: seq<byte> := ['A' as byte, 'B' as byte, 'C' as byte];
    var anchors := [Anchor(p, 1), Anchor(q, 2)];
    assert anchors[1..] == [Anchor(q, 2)] && anchors[1..][1..] == [];
    var tail := Rebuild(literals, anchors[1..], f, 1, 2);
    assert Rebuild(literals, anchors[1..][1..], f, 2, 3) == Template(['C' as byte], []);
    assert tail == Template(['B' as byte, 'C' as byte], [Anchor(q2, 3)]);
    var result: seq<byte> := ['A' as byte, '1' as byte, 'B' as byte, 'C' as byte];
    assert [Anchor(q2, 3)][1..] == [];
    assert RenderFrom(result, [Anchor(q2, 3)], g, 0) == result[0..3] + ['2' as byte] + result[3..];
  }

  /** Two anchors at one offset that both inline a segment: the segments are concatenated in anchor order. */
  lemma TransformSameOffset<K, T>(literals: seq<byte>, p: K, q: K, offset: nat, f: K -> Substitution<T>)
    requires offset <= |literals| && f(p).Segment? && f(q).Segment?
    ensures Transformable(literals, [Anchor(p, offset), Anchor(q, offset)], f)
    ensures Transformed(Template(literals, [Anchor(p, offset), Anchor(q, offset)]), f)
            == Template(literals[..offset] + f(p).segment + f(q).segment + literals[offset..], [])
  {
    var anchors := [Anchor(p, offset), Anchor(q, offset)];
    assert anchors[1..] == [Anchor(q, offset)] && anchors[1..][1..] == [];
    assert Below(anchors, |literals|);
    RebuildLastSegment(literals, q, offset, offset + |f(p).segment|, f);
    assert TransformFrom(literals, anchors, f)
           == Template(literals[..offset] + f(p).segment + (f(q).segment + literals[offset..]), []);
    Associative(literals[..offset] + f(p).segment, f(q).segment, literals[offset..]);
  }

  /** A last anchor inlined at the copy position adds its segment, then the rest of the literals. */
  lemma RebuildLastSegment<K, T>(literals: seq<byte>, q: K, offset: nat, base: nat, f: K -> Substitution<T>)
    requires offset <= |literals| && f(q).Segment?
    ensures Rebuild(literals, [Anchor(q, offset)], f, offset, base) == Template(f(q).segment + literals[offset..], [])
  {
    assert [Anchor(q, offset)][1..] == [];
    assert Rebuild(literals, [], f, offset, base + |f(q).segment|) == Template(literals[offset..], []);
    assert [] + f(q).segment + literals[offset..] == f(q).segment + literals[offset..];
  }
}
