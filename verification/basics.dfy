/** Small shared vocabulary: optional values, page rectangles, colours, and the
    records that the external `difflib` and PDF-extraction collaborators hand
    to the comparators. */
module Basics {

  datatype Option<T> = None | Some(value: T)

  /** A rectangle `(x0, y0, x1, y1)` in page coordinates (points, not pixels). */
  datatype BBox = BBox(x0: real, y0: real, x1: real, y1: real)

  /** The named highlight colours the viewers use. */
  datatype Color = Red | Green | Yellow | Orange

  /** A `QColor(r, g, b, alpha)`. */
  datatype Rgba = Rgba(r: nat, g: nat, b: nat, alpha: nat)

  /** The tag of a `SequenceMatcher.get_opcodes()` entry. */
  datatype OpTag = OpEqual | OpDelete | OpInsert | OpReplace

  /** One `(tag, i1, i2, j1, j2)` opcode: `a[i1:i2]` relates to `b[j1:j2]`. */
  datatype Opcode = Opcode(tag: OpTag, i1: nat, i2: nat, j1: nat, j2: nat)

  /** What `get_opcodes()` guarantees about its ranges for sequences of
      lengths `n` and `m`. */
  predicate ValidOpcodes(ops: seq<Opcode>, n: nat, m: nat) {
    forall k | 0 <= k < |ops| :: ops[k].i1 <= ops[k].i2 <= n && ops[k].j1 <= ops[k].j2 <= m
  }

  /** Appends `x` to the list stored under `key`, creating the list if needed
      (`d.setdefault(key, []).append(x)`). */
  function AppendAt<T>(m: map<nat, seq<T>>, key: nat, x: T): (r: map<nat, seq<T>>)
    ensures r.Keys == m.Keys + {key}
    ensures r[key] == (if key in m then m[key] else []) + [x]
    ensures forall k | k in m && k != key :: r[k] == m[k]
  {
    m[key := (if key in m then m[key] else []) + [x]]
  }

  /** No two keys share a value. */
  predicate Injective(m: map<nat, nat>) {
    forall a, b | a in m && b in m && a != b :: m[a] != m[b]
  }

  function Min(a: int, b: int): int { if a <= b then a else b }

  function Max(a: int, b: int): int { if a < b then b else a }

  /** The lists of `ls`, concatenated in order (`''.join` on strings). */
  function Flatten<T>(ls: seq<seq<T>>): seq<T> {
    if ls == [] then [] else Flatten(ls[..|ls| - 1]) + ls[|ls| - 1]
  }

  lemma FlattenSnoc<T>(ls: seq<seq<T>>, l: seq<T>)
    ensures Flatten(ls + [l]) == Flatten(ls) + l
  {
    assert (ls + [l])[..|ls|] == ls;
  }

  lemma FlattenSingle<T>(l: seq<T>)
    ensures Flatten([l]) == l
  {
    FlattenSnoc([], l);
    assert [] + [l] == [l];
  }

  lemma {:induction false} FlattenAppend<T>(a: seq<seq<T>>, b: seq<seq<T>>)
    ensures Flatten(a + b) == Flatten(a) + Flatten(b)
    decreases |b|
  {
    if b != [] {
      var init := b[..|b| - 1];
      FlattenAppend(a, init);
      assert (a + b)[..|a + b| - 1] == a + init;
    } else {
      assert a + b == a;
    }
  }

  lemma FlattenCons<T>(l: seq<T>, ls: seq<seq<T>>)
    ensures Flatten([l] + ls) == l + Flatten(ls)
  {
    FlattenAppend([l], ls);
    FlattenSingle(l);
  }

  /** `(g + m) + t` regrouped as `g + (m + t)`, stated over plain values so
      that callers need not unfold the functions that produced them. */
  lemma AppendRegroup<T>(whole: seq<T>, x: seq<T>, t: seq<T>, g: seq<T>, m: seq<T>, full: seq<T>)
    requires whole == x + t && x == g + m && full == m + t
    ensures whole == g + full
  {
  }

  /** The set of images of a list's elements. */
  function Image<T, U>(xs: seq<T>, f: T -> U): set<U> {
    if xs == [] then {} else Image(xs[..|xs| - 1], f) + {f(xs[|xs| - 1])}
  }

  lemma ImageSnoc<T, U>(xs: seq<T>, x: T, f: T -> U)
    ensures Image(xs + [x], f) == Image(xs, f) + {f(x)}
  {
    assert (xs + [x])[..|xs|] == xs;
  }

  lemma {:induction false} ImageMembers<T, U>(xs: seq<T>, f: T -> U, y: U)
    ensures y in Image(xs, f) <==> exists k | 0 <= k < |xs| :: f(xs[k]) == y
  {
    if xs != [] {
      var init := xs[..|xs| - 1];
      ImageMembers(init, f, y);
      if exists k | 0 <= k < |init| :: f(init[k]) == y {
        var k :| 0 <= k < |init| && f(init[k]) == y;
        assert f(xs[k]) == y;
      }
      if exists k | 0 <= k < |xs| :: f(xs[k]) == y {
        var k :| 0 <= k < |xs| && f(xs[k]) == y;
        if k < |init| { assert f(init[k]) == y; }
      }
    }
  }

  /** The entries stored by page are exactly `items`. */
  ghost predicate MarksHold<H(!new)>(marks: map<nat, seq<H>>, items: set<(nat, H)>) {
    forall p, h :: (p in marks && h in marks[p]) <==> (p, h) in items
  }

  lemma MarksAppend<H(!new)>(marks: map<nat, seq<H>>, items: set<(nat, H)>, p: nat, h: H)
    requires MarksHold(marks, items)
    ensures MarksHold(AppendAt(marks, p, h), items + {(p, h)})
  {
    var r := AppendAt(marks, p, h);
    forall q, g ensures (q in r && g in r[q]) <==> (q, g) in items + {(p, h)} {
      if q == p {
        assert r[q] == (if p in marks then marks[p] else []) + [h];
      }
    }
  }

  /** Adding a fresh key adds its value to the map's values. */
  lemma ValuesAdd(m: map<nat, nat>, k: nat, v: nat)
    requires k !in m
    ensures m[k := v].Values == m.Values + {v}
  {
    var r := m[k := v];
    forall x | x in m.Values ensures x in r.Values {
      var y :| y in m && m[y] == x;
      assert r[y] == x;
    }
    assert r[k] == v;
  }

  /** The union of `item(0)`, ..., `item(n - 1)`. */
  function Collect<X>(item: nat -> set<X>, n: nat): set<X> {
    if n == 0 then {} else Collect(item, n - 1) + item(n - 1)
  }

  lemma {:induction false} CollectMembers<X>(item: nat -> set<X>, n: nat, x: X)
    ensures x in Collect(item, n) <==> exists i | 0 <= i < n :: x in item(i)
  {
    if n > 0 {
      CollectMembers(item, n - 1, x);
      if x in item(n - 1) {
        assert exists i | 0 <= i < n :: x in item(i);
      }
    }
  }

  /** The lists `f(x)` of a list's elements, concatenated in order. */
  function FlatMap<T, U>(xs: seq<T>, f: T -> seq<U>): seq<U> {
    if xs == [] then [] else FlatMap(xs[..|xs| - 1], f) + f(xs[|xs| - 1])
  }

  lemma {:induction false} FlatMapMembers<T, U>(xs: seq<T>, f: T -> seq<U>, y: U)
    ensures y in FlatMap(xs, f) <==> exists k | 0 <= k < |xs| :: y in f(xs[k])
  {
    if xs != [] {
      var init := xs[..|xs| - 1];
      FlatMapMembers(init, f, y);
      if exists k | 0 <= k < |init| :: y in f(init[k]) {
        var k :| 0 <= k < |init| && y in f(init[k]);
        assert xs[k] == init[k];
      }
      if exists k | 0 <= k < |xs| :: y in f(xs[k]) {
        var k :| 0 <= k < |xs| && y in f(xs[k]);
        if k < |init| { assert init[k] == xs[k]; }
      }
    }
  }

  lemma {:induction false} FlatMapCons<T, U>(x: T, xs: seq<T>, f: T -> seq<U>)
    ensures FlatMap([x] + xs, f) == f(x) + FlatMap(xs, f)
  {
    if xs == [] {
      assert [x] + xs == [x];
      assert [x][..0] == [];
    } else {
      var init := xs[..|xs| - 1];
      assert ([x] + xs)[..|xs|] == [x] + init;
      FlatMapCons(x, init, f);
    }
  }

  /** Like `FlatMap`, with each element's position passed along. */
  function FlatMapIndexed<T, U>(xs: seq<T>, f: (nat, T) -> seq<U>): seq<U> {
    if xs == [] then [] else FlatMapIndexed(xs[..|xs| - 1], f) + f(|xs| - 1, xs[|xs| - 1])
  }

  lemma {:induction false} FlatMapIndexedHas<T, U>(xs: seq<T>, f: (nat, T) -> seq<U>, k: nat, y: U)
    requires k < |xs| && y in f(k, xs[k])
    ensures y in FlatMapIndexed(xs, f)
  {
    var init := xs[..|xs| - 1];
    if k < |init| {
      assert init[k] == xs[k];
      FlatMapIndexedHas(init, f, k, y);
    }
  }

  lemma {:induction false} FlatMapIndexedFrom<T, U>(xs: seq<T>, f: (nat, T) -> seq<U>, y: U) returns (k: nat)
    requires y in FlatMapIndexed(xs, f)
    ensures k < |xs| && y in f(k, xs[k])
  {
    var init := xs[..|xs| - 1];
    if y in FlatMapIndexed(init, f) {
      k := FlatMapIndexedFrom(init, f, y);
      assert init[k] == xs[k];
    } else {
      k := |xs| - 1;
    }
  }

  lemma FlatMapIndexedMembers<T, U>(xs: seq<T>, f: (nat, T) -> seq<U>, y: U)
    ensures y in FlatMapIndexed(xs, f) <==> exists k: nat | k < |xs| :: y in f(k, xs[k])
  {
    if y in FlatMapIndexed(xs, f) {
      var k := FlatMapIndexedFrom(xs, f, y);
    }
    if exists k: nat | k < |xs| :: y in f(k, xs[k]) {
      var k: nat :| k < |xs| && y in f(k, xs[k]);
      FlatMapIndexedHas(xs, f, k, y);
    }
  }
}
