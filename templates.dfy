/**
 * The value type `DOM.Template<Key>`: a buffer of literal bytes and an
 * ordered list of anchors, each marking the byte offset at which the
 * segment of a placeholder key is spliced in.
 */
module Templates {

  type byte = x: int | 0 <= x < 256

  datatype Option<+T> = None | Some(value: T)

  /** A placeholder for `key`, belonging just before literal byte `index`. */
  datatype Anchor<K> = Anchor(key: K, index: int)

  datatype Template<K> = Template(literals: seq<byte>, anchors: seq<Anchor<K>>)

  /** `init()`: no literals and no anchors. */
  function Empty<K>(): (t: Template<K>)
    ensures IsEmpty(t) && WellFormed(t)
  {
    Template([], [])
  }

  /** `isEmpty`: both the anchor list and the literal buffer are empty. */
  predicate IsEmpty<K>(t: Template<K>)
  {
    |t.anchors| == 0 && |t.literals| == 0
  }

  /** A template is empty exactly when it is the one `init()` makes. */
  lemma IsEmptyIsInitial<K>(t: Template<K>)
    ensures IsEmpty(t) <==> t == Empty()
  {
    if IsEmpty(t) {
      assert t.literals == [] && t.anchors == [];
    }
  }

  /**
   * `==`: the literal buffers agree, the anchor lists have the same length,
   * and no index holds two different anchors.
   */
  predicate Equal<K(==)>(lhs: Template<K>, rhs: Template<K>)
  {
    && lhs.literals == rhs.literals
    && |lhs.anchors| == |rhs.anchors|
    && forall i :: 0 <= i < |lhs.anchors| ==> lhs.anchors[i] == rhs.anchors[i]
  }

  /** Template equality is exactly equality of content, anchor order and offsets included. */
  lemma EqualIsContentEquality<K>(lhs: Template<K>, rhs: Template<K>)
    ensures Equal(lhs, rhs) <==> lhs == rhs
  {
    if Equal(lhs, rhs) {
      assert lhs.anchors == rhs.anchors;
    }
  }

  /** Two anchors listed in the opposite order make different templates. */
  lemma EqualIsOrderSensitive<K>(literals: seq<byte>, a: Anchor<K>, b: Anchor<K>)
    requires a != b
    ensures !Equal(Template(literals, [a, b]), Template(literals, [b, a]))
  {
    assert Template(literals, [a, b]).anchors[0] != Template(literals, [b, a]).anchors[0];
  }

  /** The same key at two different offsets makes different templates. */
  lemma EqualIsOffsetSensitive<K>(literals: seq<byte>, key: K, i: int, j: int)
    requires i != j
    ensures !Equal(Template(literals, [Anchor(key, i)]), Template(literals, [Anchor(key, j)]))
  {
    assert Template(literals, [Anchor(key, i)]).anchors[0].index == i;
  }

  /**
   * Invariant I1: anchor offsets are non-decreasing along the list and lie
   * within `[0, literals.count]`.
   */
  predicate WellFormed<K>(t: Template<K>)
  {
    && (forall i, j :: 0 <= i <= j < |t.anchors| ==> t.anchors[i].index <= t.anchors[j].index)
    && (forall i :: 0 <= i < |t.anchors| ==> 0 <= t.anchors[i].index <= |t.literals|)
  }

  /**
   * The recursive form of I1 used by the inductive proofs: every offset lies
   * in `[lo, hi]`, and each one bounds the rest from below.
   */
  predicate Ordered<K>(anchors: seq<Anchor<K>>, lo: int, hi: int)
    decreases |anchors|
  {
    if |anchors| == 0 then lo <= hi
    else lo <= anchors[0].index <= hi && Ordered(anchors[1..], anchors[0].index, hi)
  }

  lemma {:induction false} OrderedBounds<K>(anchors: seq<Anchor<K>>, lo: int, hi: int)
    requires Ordered(anchors, lo, hi)
    ensures lo <= hi
    ensures forall i :: 0 <= i < |anchors| ==> lo <= anchors[i].index <= hi
    ensures forall i, j :: 0 <= i <= j < |anchors| ==> anchors[i].index <= anchors[j].index
    decreases |anchors|
  {
    if |anchors| > 0 {
      var rest := anchors[1..];
      OrderedBounds(rest, anchors[0].index, hi);
      forall i | 0 < i < |anchors| ensures anchors[0].index <= anchors[i].index <= hi {
        assert anchors[i] == rest[i - 1];
      }
      forall i, j | 0 <= i <= j < |anchors|
        ensures anchors[i].index <= anchors[j].index
      {
        if 0 < i {
          assert anchors[i] == rest[i - 1] && anchors[j] == rest[j - 1];
        }
      }
    }
  }

  lemma {:induction false} BoundsOrdered<K>(anchors: seq<Anchor<K>>, lo: int, hi: int)
    requires lo <= hi
    requires forall i :: 0 <= i < |anchors| ==> lo <= anchors[i].index <= hi
    requires forall i, j :: 0 <= i <= j < |anchors| ==> anchors[i].index <= anchors[j].index
    ensures Ordered(anchors, lo, hi)
    decreases |anchors|
  {
    if |anchors| > 0 {
      var rest := anchors[1..];
      forall i | 0 <= i < |rest| ensures anchors[0].index <= rest[i].index <= hi {
        assert rest[i] == anchors[i + 1];
      }
      forall i, j | 0 <= i <= j < |rest| ensures rest[i].index <= rest[j].index {
        assert rest[i] == anchors[i + 1] && rest[j] == anchors[j + 1];
      }
      BoundsOrdered(rest, anchors[0].index, hi);
    }
  }

  /** I1 in its quantified form and in its recursive form say the same thing. */
  lemma WellFormedIsOrdered<K>(t: Template<K>)
    ensures WellFormed(t) <==> Ordered(t.anchors, 0, |t.literals|)
  {
    if WellFormed(t) {
      BoundsOrdered(t.anchors, 0, |t.literals|);
    }
    if Ordered(t.anchors, 0, |t.literals|) {
      OrderedBounds(t.anchors, 0, |t.literals|);
    }
  }

  /** Lowering the lower bound or raising the upper one keeps a list ordered. */
  lemma {:induction false} OrderedWeaken<K>(anchors: seq<Anchor<K>>, lo: int, hi: int, lo': int, hi': int)
    requires Ordered(anchors, lo, hi)
    requires lo' <= lo && hi <= hi'
    ensures Ordered(anchors, lo', hi')
    decreases |anchors|
  {
    if |anchors| > 0 {
      OrderedWeaken(anchors[1..], anchors[0].index, hi, anchors[0].index, hi');
    }
  }

  /** The anchors of `map`: each key renamed, each offset and the order kept. */
  function MapAnchors<K, T>(anchors: seq<Anchor<K>>, f: K -> T): (r: seq<Anchor<T>>)
    ensures |r| == |anchors|
    ensures forall i :: 0 <= i < |r| ==> r[i].key == f(anchors[i].key) && r[i].index == anchors[i].index
  {
    seq(|anchors|, i requires 0 <= i < |anchors| => Anchor(f(anchors[i].key), anchors[i].index))
  }

  /** `map`: the same literals, and the anchors renamed by `f`. */
  function MapKeys<K, T>(t: Template<K>, f: K -> T): (r: Template<T>)
    ensures r.literals == t.literals
    ensures |r.anchors| == |t.anchors|
    ensures forall i :: 0 <= i < |r.anchors| ==>
              r.anchors[i] == Anchor(f(t.anchors[i].key), t.anchors[i].index)
  {
    Template(t.literals, MapAnchors(t.anchors, f))
  }

  /** Renaming keys keeps invariant I1. */
  lemma MapKeysWellFormed<K, T>(t: Template<K>, f: K -> T)
    requires WellFormed(t)
    ensures WellFormed(MapKeys(t, f))
  {
  }

  lemma Associative<X>(a: seq<X>, b: seq<X>, c: seq<X>)
    ensures a + (b + c) == (a + b) + c
  {
  }
}
