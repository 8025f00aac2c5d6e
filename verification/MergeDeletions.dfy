/** Which deletions the merged script contains: those of the first script, and every part of a
    matched stretch of the first script that one deletion of the second script takes away. */
module MergeDeletions {
  import opened EditScripts
  import opened ActionsMerger
  import opened ActionsMergerProofs
  import opened MergeLinewise

  /** s deletes exactly the lines [p, q) of its first file in one action. */
  ghost predicate Deletes(s: seq<Action>, p: int, q: int) {
    exists a :: a in s && a.op.Delete? && a.b1 == p && a.e1 == q
  }

  /** s matches lines of its second file from lo to hi, in one action, with lines from p on. */
  ghost predicate Keeps(s: seq<Action>, lo: int, hi: int, p: int) {
    exists a :: a in s && a.op.Equal? && a.b2 <= lo && hi <= a.e2 && p == a.b1 + lo - a.b2
  }

  /** One action of s deletes at least the lines [lo, hi). */
  ghost predicate Drops(s: seq<Action>, lo: int, hi: int) {
    exists b :: b in s && b.op.Delete? && b.b1 <= lo && hi <= b.e1
  }

  /** lo and hi are neighbours among y and the breakpoints behind it. */
  predicate Neighbours(r: seq<int>, y: int, lo: int, hi: int) {
    r != [] && ((lo == y && hi == r[0]) || Neighbours(r[1..], r[0], lo, hi))
  }

  lemma {:induction false} NeighboursBounds(r: seq<int>, y: int, hi': int, lo: int, hi: int)
    requires Breakpoints(r, y, hi') && Neighbours(r, y, lo, hi)
    ensures y <= lo < hi <= hi'
    ensures hi in r && (lo == y || lo in r)
    ensures lo == y ==> hi == r[0]
    ensures lo != y ==> Neighbours(r[1..], r[0], lo, hi)
    decreases |r|
  {
    if !(lo == y && hi == r[0]) {
      NeighboursBounds(r[1..], r[0], hi', lo, hi);
    }
  }

  /** No breakpoint lies between neighbours. */
  lemma {:induction false} NothingBetween(r: seq<int>, y: int, hi': int, lo: int, hi: int, e: int)
    requires Breakpoints(r, y, hi') && Neighbours(r, y, lo, hi) && e in r
    ensures e <= lo || hi <= e
    decreases |r|
  {
    NeighboursBounds(r, y, hi', lo, hi);
    BreakpointsMember(r, y, hi', e);
    if lo != y && e != r[0] {
      assert e in r[1..];
      NothingBetween(r[1..], r[0], hi', lo, hi, e);
    } else if lo != y {
      NeighboursBounds(r[1..], r[0], hi', lo, hi);
    }
  }

  /** Breakpoints with none between them are neighbours. */
  lemma {:induction false} AreNeighbours(r: seq<int>, y: int, hi': int, lo: int, hi: int)
    requires Breakpoints(r, y, hi') && lo < hi && hi in r && (lo == y || lo in r)
    requires forall e :: e in r ==> e <= lo || hi <= e
    ensures Neighbours(r, y, lo, hi)
    decreases |r|
  {
    assert r[0] in r;
    BreakpointsMember(r, y, hi', hi);
    if lo in r {
      BreakpointsMember(r, y, hi', lo);
      assert hi in r[1..];
      forall e | e in r[1..]
        ensures e <= lo || hi <= e
      {
        assert e in r;
      }
      AreNeighbours(r[1..], r[0], hi', lo, hi);
    } else {
      assert hi <= r[0];
    }
  }

  // ---- actions of a script ---------------------------------------------------

  lemma {:induction false} ActionInside(s: seq<Action>, x: int, y: int, x': int, y': int, a: Action)
    requires Script(s, x, y, x', y') && a in s
    ensures Proper(a) && x <= a.b1 && a.e1 <= x' && y <= a.b2 && a.e2 <= y'
    decreases |s|
  {
    ScriptMonotone(s[1..], s[0].e1, s[0].e2, x', y');
    if a != s[0] {
      assert a in s[1..];
      ActionInside(s[1..], s[0].e1, s[0].e2, x', y', a);
    }
  }

  /** No action of a script ends inside another one. */
  lemma {:induction false} NoEndInside(s: seq<Action>, x: int, y: int, x': int, y': int, a: Action, c: Action)
    requires Script(s, x, y, x', y') && a in s && c in s
    ensures c.e2 <= a.b2 || a.e2 <= c.e2
    ensures c.e1 <= a.b1 || a.e1 <= c.e1
    decreases |s|
  {
    var (h, t) := (s[0], s[1..]);
    assert s == [h] + t;
    if a == h || c == h {
      if a in t {
        ActionInside(t, h.e1, h.e2, x', y', a);
      }
      if c in t {
        ActionInside(t, h.e1, h.e2, x', y', c);
      }
    } else {
      NoEndInside(t, h.e1, h.e2, x', y', a, c);
    }
  }

  /** Every action begins where the script does or where one that covers lines of B ends. */
  lemma {:induction false} StartIsEnd(s: seq<Action>, x: int, y: int, x': int, y': int, a: Action)
    requires Script(s, x, y, x', y') && NoReplace(s) && a in s
    ensures a.b2 == y || exists c :: c in s && !c.op.Delete? && c.e2 == a.b2
    ensures a.b1 == x || exists c :: c in s && !c.op.Insert? && c.e1 == a.b1
    decreases |s|
  {
    var (h, t) := (s[0], s[1..]);
    assert s == [h] + t;
    if a != h {
      StartIsEnd(t, h.e1, h.e2, x', y', a);
    }
  }

  // ---- splitting -------------------------------------------------------------

  lemma {:induction false} SplitDeletions(s: seq<Action>, r: seq<int>, x: int, y: int, x': int, y': int)
    requires Script(s, x, y, x', y') && Breakpoints(r, y, y') && SplitActions1(s, r).Done?
    ensures Deletions(SplitActions1(s, r).value) == Deletions(s)
    decreases |s| + |r|
  {
    if s != [] {
      var a := s[0];
      if a.op.Delete? {
        SplitDeletions(s[1..], r, a.e1, a.e2, x', y');
        DeletionsCons(a, SplitActions1(s[1..], r).value);
      } else if r[0] == a.e2 {
        SplitDeletions(s[1..], r[1..], a.e1, a.e2, x', y');
        DeletionsCons(a, SplitActions1(s[1..], r[1..]).value);
      } else {
        var (b, c) := (Before1(a, r[0]), Behind1(a, r[0]));
        SplitDeletions([c] + s[1..], r[1..], c.b1, c.b2, x', y');
        DeletionsCons(c, s[1..]);
        DeletionsCons(b, SplitActions1([c] + s[1..], r[1..]).value);
      }
    }
  }

  /** An equal action of s lies over exactly the lines [lo, hi) of the second file, with lines from
      p on. */
  ghost predicate Equals(s: seq<Action>, lo: int, hi: int, p: int) {
    exists a :: a in s && a.op.Equal? && a.b2 == lo && a.e2 == hi && a.b1 == p
  }

  lemma EqualsCons(a: Action, s: seq<Action>, lo: int, hi: int, p: int)
    ensures Equals([a] + s, lo, hi, p) <==>
      (a.op.Equal? && a.b2 == lo && a.e2 == hi && a.b1 == p) || Equals(s, lo, hi, p)
  {
    if Equals(s, lo, hi, p) {
      var c :| c in s && c.op.Equal? && c.b2 == lo && c.e2 == hi && c.b1 == p;
      assert c in [a] + s;
    }
    if a.op.Equal? && a.b2 == lo && a.e2 == hi && a.b1 == p {
      assert a in [a] + s;
    }
  }

  lemma KeepsCons(a: Action, s: seq<Action>, lo: int, hi: int, p: int)
    ensures Keeps([a] + s, lo, hi, p) <==>
      (a.op.Equal? && a.b2 <= lo && hi <= a.e2 && p == a.b1 + lo - a.b2) || Keeps(s, lo, hi, p)
  {
    if Keeps(s, lo, hi, p) {
      var c :| c in s && c.op.Equal? && c.b2 <= lo && hi <= c.e2 && p == c.b1 + lo - c.b2;
      assert c in [a] + s;
    }
    if a.op.Equal? && a.b2 <= lo && hi <= a.e2 && p == a.b1 + lo - a.b2 {
      assert a in [a] + s;
    }
  }

  lemma KeepsInside(s: seq<Action>, x: int, y: int, x': int, y': int, lo: int, hi: int, p: int)
    requires Script(s, x, y, x', y') && Keeps(s, lo, hi, p)
    ensures y <= lo && hi <= y'
  {
    var a :| a in s && a.op.Equal? && a.b2 <= lo && hi <= a.e2 && p == a.b1 + lo - a.b2;
    ActionInside(s, x, y, x', y', a);
  }

  /** The head of a script over [y, r[0]) keeps just what lies between y and r[0]. */
  lemma HeadKeeps(a: Action, t: seq<Action>, r: seq<int>, x': int, y': int, lo: int, hi: int, p: int)
    requires Script(t, a.e1, a.e2, x', y') && r != [] && r[0] == a.e2 && Breakpoints(r, a.b2, y')
    ensures (Keeps([a] + t, lo, hi, p) && Neighbours(r, a.b2, lo, hi)) <==>
      || (a.op.Equal? && a.b2 == lo && a.e2 == hi && a.b1 == p)
      || (Keeps(t, lo, hi, p) && Neighbours(r[1..], r[0], lo, hi))
  {
    KeepsCons(a, t, lo, hi, p);
    if Neighbours(r, a.b2, lo, hi) {
      NeighboursBounds(r, a.b2, y', lo, hi);
    }
    if Neighbours(r[1..], r[0], lo, hi) {
      NeighboursBounds(r[1..], r[0], y', lo, hi);
    }
    if Keeps(t, lo, hi, p) {
      KeepsInside(t, a.e1, a.e2, x', y', lo, hi, p);
    }
  }

  /** Cutting the head in two does not change what is kept on either side of the cut. */
  lemma CutKeeps(a: Action, t: seq<Action>, r: seq<int>, y': int, lo: int, hi: int, p: int)
    requires (a.op.Equal? || a.op.Insert?) && r != [] && a.b2 < r[0] < a.e2 && Breakpoints(r, a.b2, y')
    requires Neighbours(r, a.b2, lo, hi)
    ensures Keeps([a] + t, lo, hi, p) <==> Keeps([Before1(a, r[0])] + ([Behind1(a, r[0])] + t), lo, hi, p)
  {
    var (b, c) := (Before1(a, r[0]), Behind1(a, r[0]));
    NeighboursBounds(r, a.b2, y', lo, hi);
    assert r[0] in r;
    NothingBetween(r, a.b2, y', lo, hi, r[0]);
    hide Keeps, Neighbours, Breakpoints;
    KeepsCons(a, t, lo, hi, p);
    KeepsCons(c, t, lo, hi, p);
    KeepsCons(b, [c] + t, lo, hi, p);
  }

  lemma NothingKept(lo: int, hi: int, p: int)
    ensures !Equals([], lo, hi, p) && !Keeps([], lo, hi, p)
  {
  }

  /** The equal actions of a split script are what it keeps between neighbouring breakpoints. */
  lemma {:induction false} SplitKeeps(s: seq<Action>, r: seq<int>, x: int, y: int, x': int, y': int,
                                      lo: int, hi: int, p: int)
    requires Script(s, x, y, x', y') && Breakpoints(r, y, y') && SplitActions1(s, r).Done?
    ensures Equals(SplitActions1(s, r).value, lo, hi, p) <==> Keeps(s, lo, hi, p) && Neighbours(r, y, lo, hi)
    decreases |s| + |r|
  {
    hide Equals, Keeps, Neighbours;
    if s == [] {
      NothingKept(lo, hi, p);
    } else {
      var (a, t) := (s[0], s[1..]);
      assert s == [a] + t;
      if a.op.Delete? {
        SplitKeeps(t, r, a.e1, a.e2, x', y', lo, hi, p);
        EqualsCons(a, SplitActions1(t, r).value, lo, hi, p);
        KeepsCons(a, t, lo, hi, p);
      } else if r[0] == a.e2 {
        SplitKeeps(t, r[1..], a.e1, a.e2, x', y', lo, hi, p);
        EqualsCons(a, SplitActions1(t, r[1..]).value, lo, hi, p);
        HeadKeeps(a, t, r, x', y', lo, hi, p);
      } else {
        var (b, c) := (Before1(a, r[0]), Behind1(a, r[0]));
        assert ([c] + t)[1..] == t;
        SplitKeeps([c] + t, r[1..], c.b1, c.b2, x', y', lo, hi, p);
        EqualsCons(b, SplitActions1([c] + t, r[1..]).value, lo, hi, p);
        HeadKeeps(b, [c] + t, r, x', y', lo, hi, p);
        if Neighbours(r, y, lo, hi) {
          CutKeeps(a, t, r, y', lo, hi, p);
        }
      }
    }
  }

  // ---- the second script -----------------------------------------------------

  /** A deletion of s lies over exactly the lines [lo, hi) of the first file. */
  ghost predicate Removes(s: seq<Action>, lo: int, hi: int) {
    exists b :: b in s && b.op.Delete? && b.b1 == lo && b.e1 == hi
  }

  lemma RemovesCons(b: Action, s: seq<Action>, lo: int, hi: int)
    ensures Removes([b] + s, lo, hi) <==> (b.op.Delete? && b.b1 == lo && b.e1 == hi) || Removes(s, lo, hi)
  {
    if Removes(s, lo, hi) {
      var c :| c in s && c.op.Delete? && c.b1 == lo && c.e1 == hi;
      assert c in [b] + s;
    }
    if b.op.Delete? && b.b1 == lo && b.e1 == hi {
      assert b in [b] + s;
    }
  }

  lemma DropsCons(b: Action, s: seq<Action>, lo: int, hi: int)
    ensures Drops([b] + s, lo, hi) <==> (b.op.Delete? && b.b1 <= lo && hi <= b.e1) || Drops(s, lo, hi)
  {
    if Drops(s, lo, hi) {
      var c :| c in s && c.op.Delete? && c.b1 <= lo && hi <= c.e1;
      assert c in [b] + s;
    }
    if b.op.Delete? && b.b1 <= lo && hi <= b.e1 {
      assert b in [b] + s;
    }
  }

  lemma DropsInside(s: seq<Action>, x: int, y: int, x': int, y': int, lo: int, hi: int)
    requires Script(s, x, y, x', y') && Drops(s, lo, hi)
    ensures x <= lo && hi <= x'
  {
    var b :| b in s && b.op.Delete? && b.b1 <= lo && hi <= b.e1;
    ActionInside(s, x, y, x', y', b);
  }

  lemma HeadDrops(b: Action, t: seq<Action>, r: seq<int>, x': int, y': int, lo: int, hi: int)
    requires Script(t, b.e1, b.e2, x', y') && r != [] && r[0] == b.e1 && Breakpoints(r, b.b1, x')
    ensures (Drops([b] + t, lo, hi) && Neighbours(r, b.b1, lo, hi)) <==>
      (b.op.Delete? && b.b1 == lo && b.e1 == hi) || (Drops(t, lo, hi) && Neighbours(r[1..], r[0], lo, hi))
  {
    DropsCons(b, t, lo, hi);
    if Neighbours(r, b.b1, lo, hi) {
      NeighboursBounds(r, b.b1, x', lo, hi);
    }
    if Neighbours(r[1..], r[0], lo, hi) {
      NeighboursBounds(r[1..], r[0], x', lo, hi);
    }
    if Drops(t, lo, hi) {
      DropsInside(t, b.e1, b.e2, x', y', lo, hi);
    }
  }

  lemma CutDrops(a: Action, t: seq<Action>, r: seq<int>, x': int, lo: int, hi: int)
    requires (a.op.Equal? || a.op.Delete?) && r != [] && a.b1 < r[0] < a.e1 && Breakpoints(r, a.b1, x')
    requires Neighbours(r, a.b1, lo, hi)
    ensures Drops([a] + t, lo, hi) <==> Drops([Before2(a, r[0])] + ([Behind2(a, r[0])] + t), lo, hi)
  {
    var (b, c) := (Before2(a, r[0]), Behind2(a, r[0]));
    NeighboursBounds(r, a.b1, x', lo, hi);
    assert r[0] in r;
    NothingBetween(r, a.b1, x', lo, hi, r[0]);
    hide Drops, Neighbours, Breakpoints;
    DropsCons(a, t, lo, hi);
    DropsCons(c, t, lo, hi);
    DropsCons(b, [c] + t, lo, hi);
  }

  lemma NothingDropped(lo: int, hi: int)
    ensures !Removes([], lo, hi) && !Drops([], lo, hi)
  {
  }

  /** The deletions of a split script are what it drops between neighbouring breakpoints. */
  lemma {:induction false} SplitDrops(s: seq<Action>, r: seq<int>, x: int, y: int, x': int, y': int, lo: int, hi: int)
    requires Script(s, x, y, x', y') && Breakpoints(r, x, x') && SplitActions2(s, r).Done?
    ensures Removes(SplitActions2(s, r).value, lo, hi) <==> Drops(s, lo, hi) && Neighbours(r, x, lo, hi)
    decreases |s| + |r|
  {
    hide Removes, Drops, Neighbours;
    if s == [] {
      NothingDropped(lo, hi);
    } else {
      var (a, t) := (s[0], s[1..]);
      assert s == [a] + t;
      if a.op.Insert? {
        SplitDrops(t, r, a.e1, a.e2, x', y', lo, hi);
        RemovesCons(a, SplitActions2(t, r).value, lo, hi);
        DropsCons(a, t, lo, hi);
      } else if r[0] == a.e1 {
        SplitDrops(t, r[1..], a.e1, a.e2, x', y', lo, hi);
        RemovesCons(a, SplitActions2(t, r[1..]).value, lo, hi);
        HeadDrops(a, t, r, x', y', lo, hi);
      } else {
        var (b, c) := (Before2(a, r[0]), Behind2(a, r[0]));
        assert ([c] + t)[1..] == t;
        SplitDrops([c] + t, r[1..], c.b1, c.b2, x', y', lo, hi);
        RemovesCons(b, SplitActions2([c] + t, r[1..]).value, lo, hi);
        HeadDrops(b, [c] + t, r, x', y', lo, hi);
        if Neighbours(r, x, lo, hi) {
          CutDrops(a, t, r, x', lo, hi);
        }
      }
    }
  }

  // ---- zipping ---------------------------------------------------------------

  /** An equal action of the first script and a deletion of the second lie over the same lines. */
  ghost predicate Meets(s1: seq<Action>, s2: seq<Action>, p: int, q: int) {
    exists lo, hi :: Equals(s1, lo, hi, p) && Removes(s2, lo, hi) && q == p + (hi - lo)
  }

  lemma DeletesCons(a: Action, s: seq<Action>, p: int, q: int)
    ensures Deletes([a] + s, p, q) <==> (a.op.Delete? && a.b1 == p && a.e1 == q) || Deletes(s, p, q)
  {
    if Deletes(s, p, q) {
      var c :| c in s && c.op.Delete? && c.b1 == p && c.e1 == q;
      assert c in [a] + s;
    }
    if a.op.Delete? && a.b1 == p && a.e1 == q {
      assert a in [a] + s;
    }
  }

  lemma MeetsSkip1(a: Action, s1: seq<Action>, s2: seq<Action>, p: int, q: int)
    requires !a.op.Equal?
    ensures Meets([a] + s1, s2, p, q) <==> Meets(s1, s2, p, q)
  {
    hide Equals, Removes;
    forall lo, hi
      ensures Equals([a] + s1, lo, hi, p) <==> Equals(s1, lo, hi, p)
    {
      EqualsCons(a, s1, lo, hi, p);
    }
  }

  lemma MeetsSkip2(b: Action, s1: seq<Action>, s2: seq<Action>, p: int, q: int)
    requires !b.op.Delete?
    ensures Meets(s1, [b] + s2, p, q) <==> Meets(s1, s2, p, q)
  {
    hide Equals, Removes;
    forall lo, hi
      ensures Removes([b] + s2, lo, hi) <==> Removes(s2, lo, hi)
    {
      RemovesCons(b, s2, lo, hi);
    }
  }

  lemma TailsBehind(s1: seq<Action>, s2: seq<Action>, x: int, y: int, z: int, x': int, y': int, z': int,
                    lo: int, hi: int, p: int)
    requires Script(s1, x, y, x', y') && Script(s2, y, z, y', z')
    ensures Equals(s1, lo, hi, p) ==> y <= lo
    ensures Removes(s2, lo, hi) ==> y <= lo
  {
    if Equals(s1, lo, hi, p) {
      var a :| a in s1 && a.op.Equal? && a.b2 == lo && a.e2 == hi && a.b1 == p;
      ActionInside(s1, x, y, x', y', a);
    }
    if Removes(s2, lo, hi) {
      var b :| b in s2 && b.op.Delete? && b.b1 == lo && b.e1 == hi;
      ActionInside(s2, y, z, y', z', b);
    }
  }

  /** Heads over the same lines meet each other and nothing else. */
  lemma MeetsHeads(a: Action, b: Action, s1: seq<Action>, s2: seq<Action>, x': int, y': int, z': int, p: int, q: int)
    requires Script(s1, a.e1, a.e2, x', y') && Script(s2, b.e1, b.e2, y', z') && Proper(a)
    requires a.b2 == b.b1 && a.e2 == b.e1 && a.b2 < a.e2
    ensures Meets([a] + s1, [b] + s2, p, q) <==>
      (a.op.Equal? && b.op.Delete? && p == a.b1 && q == a.e1) || Meets(s1, s2, p, q)
  {
    hide Equals, Removes;
    forall lo, hi
      ensures Equals([a] + s1, lo, hi, p) && Removes([b] + s2, lo, hi) <==>
        (a.op.Equal? && b.op.Delete? && a.b2 == lo && a.e2 == hi && a.b1 == p) ||
        (Equals(s1, lo, hi, p) && Removes(s2, lo, hi))
    {
      EqualsCons(a, s1, lo, hi, p);
      RemovesCons(b, s2, lo, hi);
      TailsBehind(s1, s2, a.e1, a.e2, b.e2, x', y', z', lo, hi, p);
    }
    if a.op.Equal? && b.op.Delete? && p == a.b1 && q == a.e1 {
      assert Equals([a] + s1, a.b2, a.e2, p) && Removes([b] + s2, a.b2, a.e2);
    }
    if Meets(s1, s2, p, q) {
      var lo, hi :| Equals(s1, lo, hi, p) && Removes(s2, lo, hi) && q == p + (hi - lo);
      assert Equals([a] + s1, lo, hi, p) && Removes([b] + s2, lo, hi);
    }
  }

  lemma NoDeletions(p: int, q: int)
    ensures !Deletes([], p, q) && !Meets([], [], p, q)
  {
  }

  /** The zipped script contains the deletions of the first script and one for every meeting. */
  lemma {:induction false} ZippedDeletions(s1: seq<Action>, s2: seq<Action>, x: int, y: int, z: int,
                                           x': int, y': int, z': int, last1: int, last3: int, p: int, q: int)
    requires ZipReady(s1, s2, x, y, z, x', y', z', last1, last3)
    ensures MergeBase(s1, s2, last1, last3).Done?
    ensures Deletes(MergeBase(s1, s2, last1, last3).value, p, q) <==> Deletes(s1, p, q) || Meets(s1, s2, p, q)
    decreases |s1| + |s2|
  {
    hide Deletes, Meets;
    MergeBaseWorks(s1, s2, x, y, z, x', y', z', last1, last3);
    ZipEnds(s1, s2, x, y, z, x', y', z', last1, last3);
    assert s1 != [] ==> s1 == [s1[0]] + s1[1..];
    assert s2 != [] ==> s2 == [s2[0]] + s2[1..];
    if s1 != [] && s1[0].op.Delete? {
      var a, next3 := s1[0], if s2 == [] then last3 else s2[0].e2;
      ZipDelete(s1, s2, x, y, z, x', y', z', last1, last3);
      ZippedDeletions(s1[1..], s2, a.e1, y, z, x', y', z', a.e1, next3, p, q);
      DeletesCons(Action(Delete, a.b1, a.e1, z, z), MergeBase(s1[1..], s2, a.e1, next3).value, p, q);
      DeletesCons(a, s1[1..], p, q);
      MeetsSkip1(a, s1[1..], s2, p, q);
    } else if s2 != [] && s2[0].op.Insert? {
      var b, next1 := s2[0], if s1 == [] then last1 else s1[0].e1;
      ZipInsert(s1, s2, x, y, z, x', y', z', last1, last3);
      ZippedDeletions(s1, s2[1..], x, y, b.e2, x', y', z', next1, b.e2, p, q);
      DeletesCons(Action(Insert, x, x, b.b2, b.e2), MergeBase(s1, s2[1..], next1, b.e2).value, p, q);
      MeetsSkip2(b, s1, s2[1..], p, q);
    } else if s1 != [] {
      var (a, b) := (s1[0], s2[0]);
      ZipBoth(s1, s2, x, y, z, x', y', z', last1, last3);
      DeletesCons(a, s1[1..], p, q);
      MeetsHeads(a, b, s1[1..], s2[1..], x', y', z', p, q);
      if a.op.Insert? && b.op.Delete? {
        ZippedDeletions(s1[1..], s2[1..], a.e1, a.e2, b.e2, x', y', z', last1, last3, p, q);
      } else {
        ZippedDeletions(s1[1..], s2[1..], a.e1, a.e2, b.e2, x', y', z', a.e1, b.e2, p, q);
        var op := if a.op.Insert? then Insert else if b.op.Delete? then Delete else Equal;
        DeletesCons(Action(op, a.b1, a.e1, b.b2, b.e2), MergeBase(s1[1..], s2[1..], a.e1, b.e2).value, p, q);
      }
    } else {
      NoDeletions(p, q);
    }
  }

  // ---- from the parts to the whole --------------------------------------------

  lemma {:induction false} DeletionsAre(s: seq<Action>, p: int, q: int)
    ensures Deletes(s, p, q) <==> Deletes(Deletions(s), p, q)
  {
    hide Deletes;
    if s == [] {
    } else {
      DeletionsAre(s[1..], p, q);
      assert s == [s[0]] + s[1..];
      DeletesCons(s[0], s[1..], p, q);
      DeletesCons(s[0], Deletions(s[1..]), p, q);
      assert [] + Deletions(s[1..]) == Deletions(s[1..]);
    }
  }

  function Max(a: int, b: int): int {
    if a < b then b else a
  }

  function Min(a: int, b: int): int {
    if a < b then a else b
  }

  /** An action of the first script that takes away just the lines [p, q). */
  ghost predicate TakesAway(s1: seq<Action>, p: int, q: int) {
    exists a :: a in s1 && (a.op.Delete? || a.op.Replace?) && a.b1 == p && a.e1 == q
  }

  /** The lines that a matches and b takes away are just those matched with [p, q), and not none. */
  predicate Shares(a: Action, b: Action, p: int, q: int) {
    && a.op.Equal? && (b.op.Delete? || b.op.Replace?)
    && var (lo, hi) := (Max(a.b2, b.b1), Min(a.e2, b.e1));
       lo < hi && p == a.b1 + lo - a.b2 && q == a.b1 + hi - a.b2
  }

  ghost predicate Overlap(s1: seq<Action>, s2: seq<Action>, p: int, q: int) {
    exists a, b :: a in s1 && b in s2 && Shares(a, b, p, q)
  }

  /** The ends that the ranges come from. */
  lemma RangesAreEnds(s1: seq<Action>, s2: seq<Action>, x: int, y: int, z: int, e: int)
    requires Script(s1, 0, 0, x, y) && Script(s2, 0, 0, y, z)
    ensures e in GetRanges(s1, s2) ==> (exists c :: c in s1 && c.e2 == e) || (exists c :: c in s2 && c.e1 == e)
    ensures forall c :: c in s1 && 0 < c.e2 ==> c.e2 in GetRanges(s1, s2)
    ensures forall c :: c in s2 && 0 < c.e1 ==> c.e1 in GetRanges(s1, s2)
  {
    RangesComplete(s1, s2);
    RangesOrdered(s1, s2, 0, 0, x, 0, 0, z, y);
    RangesFrom(s1, s2, 0, 0, x, 0, 0, z, y, 0);
    DedupeMembers(GetRangesBase(s1, s2));
    if e in GetRanges(s1, s2) {
      RangesSound(s1, s2, e);
    }
  }

  /** No range lies inside an action of either script. */
  lemma NoRangeInside(s1: seq<Action>, s2: seq<Action>, x: int, y: int, z: int, a: Action, b: Action, e: int)
    requires Script(s1, 0, 0, x, y) && Script(s2, 0, 0, y, z) && a in s1 && b in s2 && e in GetRanges(s1, s2)
    ensures e <= Max(a.b2, b.b1) || Min(a.e2, b.e1) <= e
  {
    RangesAreEnds(s1, s2, x, y, z, e);
    if c :| c in s1 && c.e2 == e {
      NoEndInside(s1, 0, 0, x, y, a, c);
    } else {
      var c :| c in s2 && c.e1 == e;
      NoEndInside(s2, 0, 0, y, z, b, c);
    }
  }

  /** The stretch that an action of either script shares is bounded by neighbouring ranges. */
  lemma SharedNeighbours(s1: seq<Action>, s2: seq<Action>, x: int, y: int, z: int, a: Action, b: Action)
    requires Script(s1, 0, 0, x, y) && Script(s2, 0, 0, y, z) && NoReplace(s1) && NoReplace(s2)
    requires Breakpoints(GetRanges(s1, s2), 0, y) && a in s1 && b in s2
    requires Max(a.b2, b.b1) < Min(a.e2, b.e1)
    ensures Neighbours(GetRanges(s1, s2), 0, Max(a.b2, b.b1), Min(a.e2, b.e1))
  {
    var r := GetRanges(s1, s2);
    var (lo, hi) := (Max(a.b2, b.b1), Min(a.e2, b.e1));
    ActionInside(s1, 0, 0, x, y, a);
    ActionInside(s2, 0, 0, y, z, b);
    RangesAreEnds(s1, s2, x, y, z, 0);
    StartIsEnd(s1, 0, 0, x, y, a);
    StartIsEnd(s2, 0, 0, y, z, b);
    assert hi in r && (lo == 0 || lo in r);
    forall e | e in r
      ensures e <= lo || hi <= e
    {
      NoRangeInside(s1, s2, x, y, z, a, b, e);
    }
    hide GetRanges;
    AreNeighbours(r, 0, y, lo, hi);
  }

  /** Neighbouring ranges inside an action of either script bound what the two share. */
  lemma NeighboursShared(s1: seq<Action>, s2: seq<Action>, x: int, y: int, z: int, a: Action, b: Action,
                         lo: int, hi: int)
    requires Script(s1, 0, 0, x, y) && Script(s2, 0, 0, y, z)
    requires Breakpoints(GetRanges(s1, s2), 0, y) && a in s1 && b in s2
    requires Max(a.b2, b.b1) <= lo && hi <= Min(a.e2, b.e1) && Neighbours(GetRanges(s1, s2), 0, lo, hi)
    ensures lo < hi && lo == Max(a.b2, b.b1) && hi == Min(a.e2, b.e1)
  {
    hide GetRanges;
    NeighboursBounds(GetRanges(s1, s2), 0, y, lo, hi);
    ActionInside(s1, 0, 0, x, y, a);
    ActionInside(s2, 0, 0, y, z, b);
    NoRangeInside(s1, s2, x, y, z, a, b, hi);
    if lo != 0 {
      NoRangeInside(s1, s2, x, y, z, a, b, lo);
    }
  }

  lemma {:induction false} NoneReplaced(s: seq<Action>, b: Action)
    requires NoReplace(s) && b in s
    ensures !b.op.Replace?
  {
    if b != s[0] {
      NoneReplaced(s[1..], b);
    }
  }

  lemma MeetingShares(s1: seq<Action>, s2: seq<Action>, x: int, y: int, z: int, lo: int, hi: int, p: int)
    requires Script(s1, 0, 0, x, y) && Script(s2, 0, 0, y, z) && Breakpoints(GetRanges(s1, s2), 0, y)
    requires Keeps(s1, lo, hi, p) && Drops(s2, lo, hi) && Neighbours(GetRanges(s1, s2), 0, lo, hi)
    ensures Overlap(s1, s2, p, p + (hi - lo))
  {
    hide GetRanges, Script, Breakpoints, Neighbours;
    var a :| a in s1 && a.op.Equal? && a.b2 <= lo && hi <= a.e2 && p == a.b1 + lo - a.b2;
    var b :| b in s2 && b.op.Delete? && b.b1 <= lo && hi <= b.e1;
    NeighboursShared(s1, s2, x, y, z, a, b, lo, hi);
    assert Shares(a, b, p, p + (hi - lo));
  }

  lemma SharesMeeting(s1: seq<Action>, s2: seq<Action>, x: int, y: int, z: int, a: Action, b: Action, p: int, q: int)
    requires Script(s1, 0, 0, x, y) && Script(s2, 0, 0, y, z) && NoReplace(s1) && NoReplace(s2)
    requires Breakpoints(GetRanges(s1, s2), 0, y) && a in s1 && b in s2 && Shares(a, b, p, q)
    ensures var (lo, hi) := (Max(a.b2, b.b1), Min(a.e2, b.e1));
      && Keeps(s1, lo, hi, p) && Drops(s2, lo, hi) && Neighbours(GetRanges(s1, s2), 0, lo, hi) && q == p + (hi - lo)
  {
    hide GetRanges, Script, Breakpoints, Neighbours;
    SharedNeighbours(s1, s2, x, y, z, a, b);
    NoneReplaced(s2, b);
  }

  /** Meetings of the split scripts are overlaps of the whole ones. */
  lemma MeetsIff(s1: seq<Action>, s2: seq<Action>, u1: seq<Action>, u2: seq<Action>, x: int, y: int, z: int,
                 p: int, q: int)
    requires Script(s1, 0, 0, x, y) && Script(s2, 0, 0, y, z) && NoReplace(s1) && NoReplace(s2)
    requires Breakpoints(GetRanges(s1, s2), 0, y)
    requires SplitActions1(s1, GetRanges(s1, s2)) == Done(u1) && SplitActions2(s2, GetRanges(s1, s2)) == Done(u2)
    ensures Meets(u1, u2, p, q) <==> Overlap(s1, s2, p, q)
  {
    hide GetRanges, SplitActions1, SplitActions2, Script, Breakpoints, NoReplace, Neighbours, Equals, Removes;
    hide Keeps, Drops, Shares;
    var r := GetRanges(s1, s2);
    if Meets(u1, u2, p, q) {
      var lo, hi :| Equals(u1, lo, hi, p) && Removes(u2, lo, hi) && q == p + (hi - lo);
      SplitKeeps(s1, r, 0, 0, x, y, lo, hi, p);
      SplitDrops(s2, r, 0, 0, y, z, lo, hi);
      MeetingShares(s1, s2, x, y, z, lo, hi, p);
    }
    if Overlap(s1, s2, p, q) {
      var a, b :| a in s1 && b in s2 && Shares(a, b, p, q);
      var (lo, hi) := (Max(a.b2, b.b1), Min(a.e2, b.e1));
      SharesMeeting(s1, s2, x, y, z, a, b, p, q);
      SplitKeeps(s1, r, 0, 0, x, y, lo, hi, p);
      SplitDrops(s2, r, 0, 0, y, z, lo, hi);
    }
  }

  // ---- replacements ------------------------------------------------------------

  /** What of an action of a script its preprocessed form contains. */
  lemma {:induction false} PreprocMembers(s: seq<Action>, c: Action)
    ensures c.op.Equal? ==> (c in Preproc(s) <==> c in s)
    ensures c.op.Delete? && c in Preproc(s) ==>
      exists a :: a in s && (a.op.Delete? || a.op.Replace?) && a.b1 == c.b1 && a.e1 == c.e1
    ensures (c.op.Delete? || c.op.Replace?) && c in s ==>
      exists d :: d in Preproc(s) && d.op.Delete? && d.b1 == c.b1 && d.e1 == c.e1
  {
    if s != [] {
      var (h, t) := (s[0], Preproc(s[1..]));
      assert s == [h] + s[1..];
      PreprocMembers(s[1..], c);
      if h.op.Replace? {
        var (d, n) := (Action(Delete, h.b1, h.e1, h.b2, h.b2), Action(Insert, h.e1, h.e1, h.b2, h.e2));
        assert Preproc(s) == [d, n] + t;
        assert d in Preproc(s) && h in s;
      } else {
        assert Preproc(s) == [h] + t;
      }
    }
  }

  lemma PreprocDeletes(s: seq<Action>, p: int, q: int)
    ensures Deletes(Preproc(s), p, q) <==> TakesAway(s, p, q)
  {
    hide Preproc;
    if Deletes(Preproc(s), p, q) {
      var c :| c in Preproc(s) && c.op.Delete? && c.b1 == p && c.e1 == q;
      PreprocMembers(s, c);
    }
    if TakesAway(s, p, q) {
      var a :| a in s && (a.op.Delete? || a.op.Replace?) && a.b1 == p && a.e1 == q;
      PreprocMembers(s, a);
    }
  }

  lemma SameShare(a: Action, b: Action, c: Action, p: int, q: int)
    requires Shares(a, b, p, q) && (c.op.Delete? || c.op.Replace?) && c.b1 == b.b1 && c.e1 == b.e1
    ensures Shares(a, c, p, q)
  {
  }

  lemma PreprocOverlap(s1: seq<Action>, s2: seq<Action>, p: int, q: int)
    ensures Overlap(s1, s2, p, q) ==> Overlap(Preproc(s1), Preproc(s2), p, q)
    ensures NoReplace(Preproc(s2)) && Overlap(Preproc(s1), Preproc(s2), p, q) ==> Overlap(s1, s2, p, q)
  {
    hide Preproc, NoReplace;
    if Overlap(s1, s2, p, q) {
      var a, b :| a in s1 && b in s2 && Shares(a, b, p, q);
      PreprocMembers(s1, a);
      PreprocMembers(s2, b);
      var d :| d in Preproc(s2) && d.op.Delete? && d.b1 == b.b1 && d.e1 == b.e1;
      SameShare(a, b, d, p, q);
    }
    if NoReplace(Preproc(s2)) && Overlap(Preproc(s1), Preproc(s2), p, q) {
      var a, b :| a in Preproc(s1) && b in Preproc(s2) && Shares(a, b, p, q);
      PreprocMembers(s1, a);
      PreprocMembers(s2, b);
      NoneReplaced(Preproc(s2), b);
      var c :| c in s2 && (c.op.Delete? || c.op.Replace?) && c.b1 == b.b1 && c.e1 == b.e1;
      SameShare(a, b, c, p, q);
    }
  }

  /** The merged script deletes just the lines [p, q) in one action if and only if the first
      script does so, or they are matched with just the lines that one action of the first script
      keeps and one of the second takes away. */
  lemma MergeDeletes(s1: seq<Action>, s2: seq<Action>, x: int, y: int, z: int, p: int, q: int)
    requires Script(s1, 0, 0, x, y) && Script(s2, 0, 0, y, z) && Covers1(s1) && Covers2(s2)
    ensures MergeActions(s1, s2).Done?
    ensures Deletes(MergeActions(s1, s2).value, p, q) <==> TakesAway(s1, p, q) || Overlap(s1, s2, p, q)
  {
    hide Script, NoReplace, Covers1, Covers2, Deletes, Meets, TakesAway, Overlap;
    hide Preproc, GetRanges, SplitActions1, SplitActions2, MergeBase, MergeCombine;
    hide Ends1, Ends2, EndsIn1, Breakpoints, ZipReady;
    var (t1, t2) := (Preproc(s1), Preproc(s2));
    PreprocKeeps(s1, 0, 0, x, y);
    PreprocKeeps(s2, 0, 0, y, z);
    var r := GetRanges(t1, t2);
    RangesAreBreakpoints(t1, t2, x, y, z);
    SplitActions1Works(t1, r, 0, 0, x, y);
    NoneAtStart(r, 0, y);
    SplitActions2Works(t2, r, 0, 0, y, z, 0, 0);
    var (u1, u2) := (SplitActions1(t1, r).value, SplitActions2(t2, r).value);
    ZipStart(u1, u2, x, y, z);
    MergeBaseWorks(u1, u2, 0, 0, 0, x, y, z, 0, 0);
    ZippedDeletions(u1, u2, 0, 0, 0, x, y, z, 0, 0, p, q);
    var m := MergeBase(u1, u2, 0, 0).value;
    CombineSteps(m, 0, 0, x, z);
    DeletionsAre(m, p, q);
    DeletionsAre(MergeCombine(m).value, p, q);
    SplitDeletions(t1, r, 0, 0, x, y);
    DeletionsAre(u1, p, q);
    DeletionsAre(t1, p, q);
    PreprocDeletes(s1, p, q);
    MeetsIff(t1, t2, u1, u2, x, y, z, p, q);
    PreprocOverlap(s1, s2, p, q);
  }
}
