/** Bit-serial shift registers over an arbitrary word type: the inductive half of the checksum proof.
    `PageChecksum` instantiates it with 32-bit words and supplies the facts about single steps.
 */
module ShiftRegister {

  /** `step` clocks the register once; message bits are added at the bottom; `shift` moves a word up;
      `small` words leave room for one more shift. */
  datatype Register<!G(!new)> =
    Register(step: G -> G, add: (G, G) -> G, shift: G -> G, zero: G, one: G, small: G -> bool)
  {
    function Bit(b: bool): G {
      if b then one else zero
    }

    /** Feeds message bits into the register, one per step. */
    function Feed(s: G, bits: seq<bool>): G
      decreases |bits|
    {
      if bits == [] then s else Feed(step(add(s, Bit(bits[0]))), bits[1..])
    }

    /** The word whose bit i is bits[i]. */
    function Collect(bits: seq<bool>): G {
      if bits == [] then zero else add(shift(Collect(bits[1..])), Bit(bits[0]))
    }

    ghost predicate Unit() {
      forall x :: add(x, zero) == x
    }

    ghost predicate Cancels() {
      && (forall x, y, z :: add(x, y) == add(x, z) ==> y == z)
      && (forall x, y, z :: add(x, z) == add(y, z) ==> x == y)
    }

    /** The step loses nothing. */
    ghost predicate Reversible() {
      forall x, y :: step(x) == step(y) ==> x == y
    }

    /** The step shifts a small word plus a bit out from the bottom. */
    ghost predicate ShiftsOut() {
      forall s, x, m {:trigger add(s, add(shift(x), m))} ::
        small(x) ==> step(add(s, add(shift(x), m))) == add(step(add(s, m)), x)
    }

    /** A small word and the bit pushed below it can be told apart again. */
    ghost predicate Pushes() {
      && one != zero
      && (forall x, y, m, n ::
            small(x) && small(y) && m in {zero, one} && n in {zero, one} && add(shift(x), m) == add(shift(y), n)
            ==> x == y && m == n)
    }

    /** Words of fewer than `width` bits are small. */
    ghost predicate Holds(width: nat) {
      forall b: seq<bool> {:trigger Collect(b)} :: |b| < width ==> small(Collect(b))
    }
  }

  function Iterate<G>(f: G -> G, c: G, n: nat): G {
    if n == 0 then c else f(Iterate(f, c, n - 1))
  }

  ghost predicate Additive<G(!new)>(f: G -> G, add: (G, G) -> G) {
    forall x, y :: f(add(x, y)) == add(f(x), f(y))
  }

  lemma {:induction false} IterateAdditive<G(!new)>(f: G -> G, add: (G, G) -> G, a: G, b: G, n: nat)
    requires Additive(f, add)
    ensures Iterate(f, add(a, b), n) == add(Iterate(f, a, n), Iterate(f, b, n))
  {
    if n > 0 {
      IterateAdditive(f, add, a, b, n - 1);
    }
  }

  lemma {:induction false} IterateInner<G>(f: G -> G, c: G, n: nat)
    ensures Iterate(f, c, n + 1) == Iterate(f, f(c), n)
  {
    if n > 0 {
      IterateInner(f, c, n - 1);
    }
  }

  lemma {:induction false} IterateInjective<G(!new)>(r: Register<G>, a: G, b: G, n: nat)
    requires r.Reversible()
    requires Iterate(r.step, a, n) == Iterate(r.step, b, n)
    ensures a == b
  {
    if n > 0 {
      IterateInjective(r, a, b, n - 1);
    }
  }

  lemma IterateEight<G>(f: G -> G, c: G)
    ensures Iterate(f, c, 8) == f(f(f(f(f(f(f(f(c))))))))
  {
    assert Iterate(f, c, 2) == f(f(c));
    assert Iterate(f, c, 4) == f(f(Iterate(f, c, 2)));
    assert Iterate(f, c, 6) == f(f(Iterate(f, c, 4)));
  }

  lemma CollectCons<G(!new)>(r: Register<G>, b: bool, rest: seq<bool>)
    ensures r.Collect([b] + rest) == r.add(r.shift(r.Collect(rest)), r.Bit(b))
  {
    assert ([b] + rest)[1..] == rest;
  }

  lemma CollectFour<G(!new)>(r: Register<G>, a: bool, b: bool, c: bool, d: bool, rest: seq<bool>)
    ensures r.Collect([a, b, c, d] + rest) ==
            var low := r.add(r.shift(r.add(r.shift(r.Collect(rest)), r.Bit(d))), r.Bit(c));
            r.add(r.shift(r.add(r.shift(low), r.Bit(b))), r.Bit(a))
  {
    CollectCons(r, d, rest);
    CollectCons(r, c, [d] + rest);
    CollectCons(r, b, [c] + ([d] + rest));
    CollectCons(r, a, [b] + ([c] + ([d] + rest)));
    assert [a, b, c, d] + rest == [a] + ([b] + ([c] + ([d] + rest)));
  }

  lemma CollectEight<G(!new)>(r: Register<G>, a: bool, b: bool, c: bool, d: bool, e: bool, f: bool, g: bool, h: bool)
    ensures r.Collect([a, b, c, d, e, f, g, h]) ==
            var half := r.add(r.shift(r.add(r.shift(r.zero), r.Bit(h))), r.Bit(g));
            var top := r.add(r.shift(r.add(r.shift(half), r.Bit(f))), r.Bit(e));
            r.add(r.shift(r.add(r.shift(r.add(r.shift(r.add(r.shift(top), r.Bit(d))), r.Bit(c))), r.Bit(b))), r.Bit(a))
  {
    CollectFour(r, e, f, g, h, []);
    CollectFour(r, a, b, c, d, [e, f, g, h]);
    assert [e, f, g, h] + [] == [e, f, g, h];
    assert [a, b, c, d] + [e, f, g, h] == [a, b, c, d, e, f, g, h];
  }

  lemma {:induction false} CollectRelated<G(!new)>(r: Register<G>, grow: G -> G, rel: (G, G) -> bool, bits: seq<bool>)
    requires rel(r.zero, r.zero)
    requires forall x, m :: rel(x, m) ==>
              rel(r.add(r.shift(x), r.zero), grow(m)) && rel(r.add(r.shift(x), r.one), grow(m))
    ensures rel(r.Collect(bits), Iterate(grow, r.zero, |bits|))
  {
    if bits != [] {
      CollectRelated(r, grow, rel, bits[1..]);
    }
  }

  lemma {:induction false} CollectInjective<G(!new)>(r: Register<G>, a: seq<bool>, b: seq<bool>)
    requires r.Pushes() && r.Holds(|a|)
    requires |a| == |b|
    requires r.Collect(a) == r.Collect(b)
    ensures a == b
  {
    if a != [] {
      assert r.Collect(a[1..]) == r.Collect(b[1..]) && r.Bit(a[0]) == r.Bit(b[0]);
      CollectInjective(r, a[1..], b[1..]);
      assert a == [a[0]] + a[1..] && b == [b[0]] + b[1..];
    }
  }

  lemma {:induction false} FeedConcat<G(!new)>(r: Register<G>, s: G, a: seq<bool>, b: seq<bool>)
    ensures r.Feed(s, a + b) == r.Feed(r.Feed(s, a), b)
    decreases |a|
  {
    if a == [] {
      assert a + b == b;
    } else {
      assert (a + b)[1..] == a[1..] + b;
      FeedConcat(r, r.step(r.add(s, r.Bit(a[0]))), a[1..], b);
    }
  }

  lemma {:induction false} FeedInjective<G(!new)>(r: Register<G>, s: G, t: G, bits: seq<bool>)
    requires r.Cancels() && r.Reversible()
    requires r.Feed(s, bits) == r.Feed(t, bits)
    ensures s == t
    decreases |bits|
  {
    if bits != [] {
      var m := r.Bit(bits[0]);
      FeedInjective(r, r.step(r.add(s, m)), r.step(r.add(t, m)), bits[1..]);
    }
  }

  /** A word's worth of message bits may be mixed in together and then shifted out. */
  lemma {:induction false} FeedWord<G(!new)>(r: Register<G>, s: G, bits: seq<bool>)
    requires r.Unit() && r.ShiftsOut() && r.Holds(|bits|)
    ensures r.Feed(s, bits) == Iterate(r.step, r.add(s, r.Collect(bits)), |bits|)
    decreases |bits|
  {
    if bits != [] {
      var rest, m := bits[1..], r.Bit(bits[0]);
      var word := r.add(s, r.add(r.shift(r.Collect(rest)), m));
      FeedWord(r, r.step(r.add(s, m)), rest);
      IterateInner(r.step, word, |rest|);
      assert r.small(r.Collect(rest));
      assert r.step(word) == r.add(r.step(r.add(s, m)), r.Collect(rest));
    }
  }

  /** Two streams that differ only in one word's worth of bits leave different registers. */
  lemma BurstSeparates<G(!new)>(r: Register<G>, s: G, before: seq<bool>, w: seq<bool>, v: seq<bool>, after: seq<bool>)
    requires r.Unit() && r.Cancels() && r.Reversible() && r.ShiftsOut() && r.Pushes() && r.Holds(|w|)
    requires |w| == |v| && w != v
    ensures r.Feed(s, before + w + after) != r.Feed(s, before + v + after)
  {
    var m := r.Feed(s, before);
    FeedConcat(r, s, before + w, after);
    FeedConcat(r, s, before + v, after);
    FeedConcat(r, s, before, w);
    FeedConcat(r, s, before, v);
    if r.Feed(s, before + w + after) == r.Feed(s, before + v + after) {
      FeedInjective(r, r.Feed(m, w), r.Feed(m, v), after);
      FeedWord(r, m, w);
      FeedWord(r, m, v);
      IterateInjective(r, r.add(m, r.Collect(w)), r.add(m, r.Collect(v)), |w|);
      CollectInjective(r, w, v);
    }
  }

  // ---------- Streams of symbols ----------

  /** Concatenates the expansions of a sequence of symbols. */
  function Expand<S>(expand: S -> seq<bool>, data: seq<S>): seq<bool> {
    if data == [] then [] else expand(data[0]) + Expand(expand, data[1..])
  }

  lemma {:induction false} ExpandConcat<S>(expand: S -> seq<bool>, a: seq<S>, b: seq<S>)
    ensures Expand(expand, a + b) == Expand(expand, a) + Expand(expand, b)
  {
    if a == [] {
      assert a + b == b;
    } else {
      assert (a + b)[1..] == a[1..] + b;
      ExpandConcat(expand, a[1..], b);
    }
  }

  lemma {:induction false} ExpandLength<S(!new)>(expand: S -> seq<bool>, width: nat, data: seq<S>)
    requires forall x :: |expand(x)| == width
    ensures |Expand(expand, data)| == width * |data|
  {
    if data != [] {
      ExpandLength(expand, width, data[1..]);
      assert width * |data| == width + width * (|data| - 1);
    }
  }

  lemma {:induction false} ExpandInjective<S(!new)>(expand: S -> seq<bool>, width: nat, a: seq<S>, b: seq<S>)
    requires forall x :: |expand(x)| == width
    requires forall x, y :: expand(x) == expand(y) ==> x == y
    requires |a| == |b|
    requires Expand(expand, a) == Expand(expand, b)
    ensures a == b
  {
    if a != [] {
      assert expand(a[0]) == Expand(expand, a)[..width] && Expand(expand, a[1..]) == Expand(expand, a)[width..];
      assert expand(b[0]) == Expand(expand, b)[..width] && Expand(expand, b[1..]) == Expand(expand, b)[width..];
      ExpandInjective(expand, width, a[1..], b[1..]);
      assert a == [a[0]] + a[1..] && b == [b[0]] + b[1..];
    }
  }

  /** Streams of symbols that agree outside a window expand to bit streams that agree outside its image. */
  lemma ExpandWindow<S(!new)>(expand: S -> seq<bool>, a: seq<S>, b: seq<S>, lo: nat, hi: nat)
    requires forall x :: |expand(x)| == 8
    requires lo <= hi <= |a| == |b|
    requires a[..lo] == b[..lo] && a[hi..] == b[hi..]
    ensures |Expand(expand, a)| == |Expand(expand, b)| == 8 * |a|
    ensures Expand(expand, a)[..8 * lo] == Expand(expand, b)[..8 * lo]
    ensures Expand(expand, a)[8 * hi..] == Expand(expand, b)[8 * hi..]
  {
    ExpandLength(expand, 8, a);
    ExpandLength(expand, 8, b);
    ExpandSplit(expand, a, lo);
    ExpandSplit(expand, b, lo);
    ExpandSplit(expand, a, hi);
    ExpandSplit(expand, b, hi);
  }

  lemma ExpandSplit<S(!new)>(expand: S -> seq<bool>, a: seq<S>, k: nat)
    requires forall x :: |expand(x)| == 8
    requires k <= |a|
    ensures 8 * k <= |Expand(expand, a)|
    ensures Expand(expand, a)[..8 * k] == Expand(expand, a[..k])
    ensures Expand(expand, a)[8 * k..] == Expand(expand, a[k..])
  {
    assert a == a[..k] + a[k..];
    ExpandConcat(expand, a[..k], a[k..]);
    ExpandLength(expand, 8, a[..k]);
  }
}
