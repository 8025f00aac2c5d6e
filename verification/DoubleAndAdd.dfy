/** A double-and-add ladder over any associative operation with a neutral element. */
module DoubleAndAdd {
  import opened Arith

  /** The elements that on holds of are a monoid. */
  ghost predicate Monoid<G(!new)>(on: G -> bool, op: (G, G) -> G, id: G) {
    && on(id)
    && (forall x, y {:trigger op(x, y)} :: on(x) && on(y) ==> on(op(x, y)))
    && (forall x, y, z {:trigger op(op(x, y), z)} ::
          on(x) && on(y) && on(z) ==> op(op(x, y), z) == op(x, op(y, z)))
    && (forall x :: on(x) ==> op(id, x) == x && op(x, id) == x)
  }

  /** k times g: g + (g + ... + id). */
  ghost function Multiple<G(!new)>(op: (G, G) -> G, id: G, k: nat, g: G): G {
    if k == 0 then id else op(g, Multiple(op, id, k - 1, g))
  }

  lemma {:induction false} MultipleOn<G(!new)>(on: G -> bool, op: (G, G) -> G, id: G, k: nat, g: G)
    requires Monoid(on, op, id) && on(g)
    ensures on(Multiple(op, id, k, g))
  {
    if k == 0 {
    } else {
      MultipleOn(on, op, id, k - 1, g);
    }
  }

  lemma {:induction false} MultipleAdd<G(!new)>(on: G -> bool, op: (G, G) -> G, id: G, j: nat, k: nat, g: G)
    requires Monoid(on, op, id) && on(g)
    ensures Multiple(op, id, j + k, g) == op(Multiple(op, id, j, g), Multiple(op, id, k, g))
  {
    MultipleOn(on, op, id, k, g);
    if j == 0 {
    } else {
      MultipleOn(on, op, id, j - 1, g);
      MultipleAdd(on, op, id, j - 1, k, g);
      assert op(op(g, Multiple(op, id, j - 1, g)), Multiple(op, id, k, g))
          == op(g, op(Multiple(op, id, j - 1, g), Multiple(op, id, k, g)));
    }
  }

  /** One ladder step on a pair: double one component and add the other into it, as the bit says. */
  function Step<T>(add: (T, T) -> T, bit: int, pq: (T, T)): (T, T) {
    var (p, q) := if bit == 1 then (pq.1, pq.0) else pq;
    var (p', q') := (add(p, p), add(q, p));
    if bit == 1 then (q', p') else (p', q')
  }

  /** The value of the bits of s from i on. */
  function High(s: nat, i: nat): nat {
    PowPositive(2, i);
    s / Pow(2, i)
  }

  lemma HighStep(s: nat, i: nat)
    ensures High(s, i + 1) == High(s, i) / 2
  {
    PowPositive(2, i);
    DivDiv(s, Pow(2, i), 2);
  }

  /** The pair after bits n-1 down to i of s. */
  function Run<T>(add: (T, T) -> T, id: T, q: T, s: nat, n: nat, i: nat): (T, T)
    requires i <= n
    decreases n - i
  {
    if i == n then (id, q) else Step(add, High(s, i) % 2, Run(add, id, q, s, n, i + 1))
  }

  /** h maps the concrete points of dom to elements of the monoid, and add to its operation. */
  ghost predicate Represents<T(!new), G(!new)>(
    add: (T, T) -> T, id: T, dom: T -> bool, h: T -> G, on: G -> bool, op: (G, G) -> G, e: G)
  {
    && dom(id) && h(id) == e
    && (forall p :: dom(p) ==> on(h(p)))
    && forall p, q {:trigger add(p, q)} :: dom(p) && dom(q) ==> dom(add(p, q)) && h(add(p, q)) == op(h(p), h(q))
  }

  /** The pair stands for k times and k+1 times g. */
  ghost predicate Stands<T(!new), G(!new)>(
    pq: (T, T), k: nat, g: G, dom: T -> bool, h: T -> G, on: G -> bool, op: (G, G) -> G, e: G)
  {
    && on(g) && dom(pq.0) && dom(pq.1)
    && h(pq.0) == Multiple(op, e, k, g)
    && h(pq.1) == Multiple(op, e, k + 1, g)
  }

  /** One step turns k into 2k + bit. */
  lemma StepStands<T(!new), G(!new)>(
    add: (T, T) -> T, id: T, bit: int, pq: (T, T), k: nat, g: G,
    dom: T -> bool, h: T -> G, on: G -> bool, op: (G, G) -> G, e: G)
    requires Monoid(on, op, e) && Represents(add, id, dom, h, on, op, e) && 0 <= bit <= 1
    requires Stands(pq, k, g, dom, h, on, op, e)
    ensures Stands(Step(add, bit, pq), 2 * k + bit, g, dom, h, on, op, e)
  {
    hide Monoid, Multiple;
    MultipleAdd(on, op, e, k, k, g);
    MultipleAdd(on, op, e, k, k + 1, g);
    MultipleAdd(on, op, e, k + 1, k, g);
    MultipleAdd(on, op, e, k + 1, k + 1, g);
  }

  /** One step with the lowest bit of k, from half of k. */
  lemma BitStands<T(!new), G(!new)>(
    add: (T, T) -> T, id: T, k: nat, pq: (T, T), g: G,
    dom: T -> bool, h: T -> G, on: G -> bool, op: (G, G) -> G, e: G)
    requires Monoid(on, op, e) && Represents(add, id, dom, h, on, op, e)
    requires Stands(pq, k / 2, g, dom, h, on, op, e)
    ensures Stands(Step(add, k % 2, pq), k, g, dom, h, on, op, e)
  {
    hide *;
    StepStands(add, id, k % 2, pq, k / 2, g, dom, h, on, op, e);
    assert 2 * (k / 2) + k % 2 == k;
  }

  lemma InitiallyStands<T(!new), G(!new)>(
    id: T, q: T, dom: T -> bool, h: T -> G, on: G -> bool, op: (G, G) -> G, e: G)
    requires Monoid(on, op, e) && dom(id) && dom(q) && h(id) == e && on(h(q))
    ensures Stands((id, q), 0, h(q), dom, h, on, op, e)
  {
    assert Multiple(op, e, 1, h(q)) == op(h(q), Multiple(op, e, 0, h(q)));
  }

  /** Before the first bit the pair stands for 0 and 1 times the start. */
  lemma NoBitsRun<T(!new), G(!new)>(
    add: (T, T) -> T, id: T, q: T, s: nat, n: nat, dom: T -> bool, h: T -> G, on: G -> bool, op: (G, G) -> G, e: G)
    requires s < Pow(2, n)
    requires Monoid(on, op, e) && Represents(add, id, dom, h, on, op, e) && dom(q)
    ensures Stands(Run(add, id, q, s, n, n), High(s, n), h(q), dom, h, on, op, e)
  {
    hide Monoid, Stands, Pow;
    DivModUnique(s, Pow(2, n), 0, s);
    InitiallyStands(id, q, dom, h, on, op, e);
  }

  lemma RunStep<T>(add: (T, T) -> T, id: T, q: T, s: nat, n: nat, i: nat)
    requires i < n
    ensures Run(add, id, q, s, n, i) == Step(add, High(s, i) % 2, Run(add, id, q, s, n, i + 1))
  {
    hide Step, Pow;
  }

  /** Running bit i as well turns the multiple k / 2 into k. */
  lemma OneMoreBit<T(!new), G(!new)>(
    add: (T, T) -> T, id: T, q: T, s: nat, n: nat, i: nat,
    dom: T -> bool, h: T -> G, on: G -> bool, op: (G, G) -> G, e: G)
    requires i < n && Monoid(on, op, e) && Represents(add, id, dom, h, on, op, e)
    requires Stands(Run(add, id, q, s, n, i + 1), High(s, i + 1), h(q), dom, h, on, op, e)
    ensures Stands(Run(add, id, q, s, n, i), High(s, i), h(q), dom, h, on, op, e)
  {
    hide *;
    HighStep(s, i);
    RunStep(add, id, q, s, n, i);
    BitStands(add, id, High(s, i), Run(add, id, q, s, n, i + 1), h(q), dom, h, on, op, e);
  }

  /** The ladder invariant: the high bits with value k have built k and k+1 times the start. */
  lemma {:induction false} LadderInvariant<T(!new), G(!new)>(
    add: (T, T) -> T, id: T, q: T, s: nat, n: nat, i: nat,
    dom: T -> bool, h: T -> G, on: G -> bool, op: (G, G) -> G, e: G)
    requires i <= n && s < Pow(2, n)
    requires Monoid(on, op, e) && Represents(add, id, dom, h, on, op, e) && dom(q)
    ensures Stands(Run(add, id, q, s, n, i), High(s, i), h(q), dom, h, on, op, e)
    decreases n - i
  {
    hide *;
    if i == n {
      NoBitsRun(add, id, q, s, n, dom, h, on, op, e);
    } else {
      LadderInvariant(add, id, q, s, n, i + 1, dom, h, on, op, e);
      OneMoreBit(add, id, q, s, n, i, dom, h, on, op, e);
    }
  }

  lemma HighAll(s: nat)
    ensures High(s, 0) == s
  {
    assert Pow(2, 0) == 1;
  }

  /** The ladder computes the multiple the scalar says. */
  lemma LadderMultiplies<T(!new), G(!new)>(
    add: (T, T) -> T, id: T, q: T, s: nat, n: nat, dom: T -> bool, h: T -> G, on: G -> bool, op: (G, G) -> G, e: G)
    requires s < Pow(2, n)
    requires Monoid(on, op, e) && Represents(add, id, dom, h, on, op, e) && dom(q)
    ensures dom(Run(add, id, q, s, n, 0).0)
    ensures h(Run(add, id, q, s, n, 0).0) == Multiple(op, e, s, h(q))
  {
    hide Monoid, Represents, Run, Multiple;
    LadderInvariant(add, id, q, s, n, 0, dom, h, on, op, e);
    HighAll(s);
  }
}
