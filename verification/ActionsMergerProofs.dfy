/** Composition of edit scripts is correct: it succeeds exactly on scripts whose actions
    cover the middle file, yields a script A -> C, and matches exactly the line pairs that
    are matched through a common line of B. */
module ActionsMergerProofs {
  import opened EditScripts
  import opened ActionsMerger

  // ---- breakpoints -------------------------------------------------------

  ghost predicate Increasing(r: seq<int>) {
    forall i, j :: 0 <= i < j < |r| ==> r[i] < r[j]
  }

  ghost predicate Ordered(r: seq<int>) {
    forall i, j :: 0 <= i < j < |r| ==> r[i] <= r[j]
  }

  ghost predicate Within(r: seq<int>, lo: int, hi: int) {
    forall x :: x in r ==> lo <= x <= hi
  }

  /** Every end in B appears among the ranges. */
  lemma {:induction false} RangesComplete(s1: seq<Action>, s2: seq<Action>)
    ensures forall a :: a in s1 ==> a.e2 in GetRangesBase(s1, s2)
    ensures forall b :: b in s2 ==> b.e1 in GetRangesBase(s1, s2)
    decreases |s1| + |s2|
  {
    if s1 != [] && (s2 == [] || s1[0].e2 < s2[0].e1) {
      RangesComplete(s1[1..], s2);
    } else if s2 != [] && (s1 == [] || s2[0].e1 < s1[0].e2) {
      RangesComplete(s1, s2[1..]);
    } else if s1 != [] {
      RangesComplete(s1[1..], s2[1..]);
    }
  }

  lemma OrderedCons(h: int, rest: seq<int>, hi: int)
    requires Ordered(rest) && Within(rest, h, hi)
    ensures Ordered([h] + rest)
  {
    forall i, j | 0 <= i < j < |rest| + 1
      ensures ([h] + rest)[i] <= ([h] + rest)[j]
    {
      assert rest[j - 1] in rest;
    }
  }

  lemma {:induction false} RangesSound(s1: seq<Action>, s2: seq<Action>, r: int)
    requires r in GetRangesBase(s1, s2)
    ensures (exists a :: a in s1 && a.e2 == r) || (exists b :: b in s2 && b.e1 == r)
    decreases |s1| + |s2|
  {
    if s1 != [] && (s2 == [] || s1[0].e2 < s2[0].e1) {
      if r != s1[0].e2 { RangesSound(s1[1..], s2, r); }
    } else if s2 != [] && (s1 == [] || s2[0].e1 < s1[0].e2) {
      if r != s2[0].e1 { RangesSound(s1, s2[1..], r); }
    } else if s1 != [] {
      if r != s1[0].e2 { RangesSound(s1[1..], s2[1..], r); }
    }
  }

  lemma {:induction false} EndsFrom1(s: seq<Action>, x: int, y: int, x': int, y': int, lo: int)
    requires Script(s, x, y, x', y') && (s == [] || lo <= s[0].e2)
    ensures forall a :: a in s ==> lo <= a.e2 <= y'
    decreases |s|
  {
    if s != [] {
      ScriptMonotone(s[1..], s[0].e1, s[0].e2, x', y');
      EndsFrom1(s[1..], s[0].e1, s[0].e2, x', y', lo);
    }
  }

  lemma {:induction false} EndsFrom2(s: seq<Action>, x: int, y: int, x': int, y': int, lo: int)
    requires Script(s, x, y, x', y') && (s == [] || lo <= s[0].e1)
    ensures forall a :: a in s ==> lo <= a.e1 <= x'
    decreases |s|
  {
    if s != [] {
      ScriptMonotone(s[1..], s[0].e1, s[0].e2, x', y');
      EndsFrom2(s[1..], s[0].e1, s[0].e2, x', y', lo);
    }
  }

  /** If both scripts' next ends are at least lo, so are all ends. */
  lemma RangesFrom(s1: seq<Action>, s2: seq<Action>,
                   x: int, y1: int, x': int, y2: int, z: int, z': int, hi: int, lo: int)
    requires Script(s1, x, y1, x', hi) && Script(s2, y2, z, hi, z')
    requires (s1 == [] || lo <= s1[0].e2) && (s2 == [] || lo <= s2[0].e1)
    ensures Within(GetRangesBase(s1, s2), lo, hi)
  {
    forall r | r in GetRangesBase(s1, s2)
      ensures lo <= r <= hi
    {
      EndsFrom1(s1, x, y1, x', hi, lo);
      EndsFrom2(s2, y2, z, hi, z', lo);
      RangesSound(s1, s2, r);
    }
  }

  lemma {:induction false} RangesOrdered(s1: seq<Action>, s2: seq<Action>,
                                         x: int, y1: int, x': int, y2: int, z: int, z': int, hi: int)
    requires Script(s1, x, y1, x', hi) && Script(s2, y2, z, hi, z')
    ensures Ordered(GetRangesBase(s1, s2))
    decreases |s1| + |s2|
  {
    ScriptMonotone(s1, x, y1, x', hi);
    ScriptMonotone(s2, y2, z, hi, z');
    if s1 != [] && (s2 == [] || s1[0].e2 < s2[0].e1) {
      var h := s1[0].e2;
      RangesOrdered(s1[1..], s2, s1[0].e1, h, x', y2, z, z', hi);
      RangesFrom(s1[1..], s2, s1[0].e1, h, x', y2, z, z', hi, h);
      OrderedCons(h, GetRangesBase(s1[1..], s2), hi);
    } else if s2 != [] && (s1 == [] || s2[0].e1 < s1[0].e2) {
      var h := s2[0].e1;
      RangesOrdered(s1, s2[1..], x, y1, x', h, s2[0].e2, z', hi);
      RangesFrom(s1, s2[1..], x, y1, x', h, s2[0].e2, z', hi, h);
      OrderedCons(h, GetRangesBase(s1, s2[1..]), hi);
    } else if s1 != [] {
      var h := s1[0].e2;
      RangesOrdered(s1[1..], s2[1..], s1[0].e1, h, x', h, s2[0].e2, z', hi);
      RangesFrom(s1[1..], s2[1..], s1[0].e1, h, x', h, s2[0].e2, z', hi, h);
      OrderedCons(h, GetRangesBase(s1[1..], s2[1..]), hi);
    }
  }

  /** Dropping zeros and repetitions from an ordered list keeps exactly the positive members. */
  lemma {:induction false} DedupeMembers(r: seq<int>)
    requires Ordered(r) && forall x :: x in r ==> 0 <= x
    ensures forall x :: x in Dedupe(r) <==> x in r && x != 0
    ensures Increasing(Dedupe(r))
    decreases |r|
  {
    if r == [] {
    } else {
      assert r == [r[0]] + r[1..];
      assert forall x :: x in r[1..] ==> x in r;
      if r[0] == 0 {
        DedupeMembers(r[1..]);
      } else if |r| == 1 {
      } else if r[0] == r[1] {
        assert [r[0]] + r[2..] == r[1..];
        DedupeMembers(r[1..]);
      } else {
        DedupeMembers(r[1..]);
        var d := Dedupe(r[1..]);
        forall k | 0 <= k < |d|
          ensures r[0] < d[k]
        {
          assert d[k] in d;
          assert r[1] <= d[k];
        }
      }
    }
  }

  /** Increasing lines above lo, at most hi. */
  predicate Breakpoints(r: seq<int>, lo: int, hi: int) {
    r == [] || (lo < r[0] <= hi && Breakpoints(r[1..], r[0], hi))
  }

  lemma {:induction false} IncreasingBreakpoints(r: seq<int>, lo: int, hi: int)
    requires Increasing(r) && forall x :: x in r ==> lo < x <= hi
    ensures Breakpoints(r, lo, hi)
    decreases |r|
  {
    if r != [] {
      assert r[0] in r;
      forall x | x in r[1..]
        ensures r[0] < x <= hi
      {
        assert x in r;
      }
      IncreasingBreakpoints(r[1..], r[0], hi);
    }
  }

  lemma {:induction false} BreakpointsMember(r: seq<int>, lo: int, hi: int, x: int)
    requires Breakpoints(r, lo, hi) && x in r
    ensures lo < x && r[0] <= x
    decreases |r|
  {
    if x != r[0] {
      assert x in r[1..];
      BreakpointsMember(r[1..], r[0], hi, x);
    }
  }

  /** The end in B of every action that should cover lines of B is one of the ranges. */
  predicate EndsIn1(s: seq<Action>, r: seq<int>) {
    s == [] || ((s[0].op.Delete? || s[0].e2 in r) && EndsIn1(s[1..], r))
  }

  lemma {:induction false} AllEndsIn1(s: seq<Action>, r: seq<int>)
    requires forall a :: a in s && !a.op.Delete? ==> a.e2 in r
    ensures EndsIn1(s, r)
    decreases |s|
  {
    if s != [] {
      assert s == [s[0]] + s[1..];
      AllEndsIn1(s[1..], r);
    }
  }

  // ---- splitting ---------------------------------------------------------

  /** Every action of A -> B that reaches into B covers at least one line of it. */
  predicate Covers1(s: seq<Action>) {
    s == [] || ((s[0].op.Delete? || s[0].b2 < s[0].e2) && Covers1(s[1..]))
  }

  /** Every action of B -> C that reaches into B covers at least one line of it. */
  predicate Covers2(s: seq<Action>) {
    s == [] || ((s[0].op.Insert? || s[0].b1 < s[0].e1) && Covers2(s[1..]))
  }

  /** The script of the opposite direction. */
  function Mirror(a: Action): Action {
    Action(match a.op case Insert => Delete case Delete => Insert case _ => a.op, a.b2, a.e2, a.b1, a.e1)
  }

  function Inverse(s: seq<Action>): (t: seq<Action>)
    ensures |t| == |s|
    ensures forall k :: 0 <= k < |s| ==> t[k] == Mirror(s[k])
  {
    if s == [] then [] else [Mirror(s[0])] + Inverse(s[1..])
  }

  lemma {:induction false} InverseScript(s: seq<Action>, x: int, y: int, x': int, y': int)
    ensures Script(s, x, y, x', y') <==> Script(Inverse(s), y, x, y', x')
    ensures NoReplace(s) <==> NoReplace(Inverse(s))
    ensures Covers2(s) <==> Covers1(Inverse(s))
    ensures Tidy(s) <==> Tidy(Inverse(s))
    ensures Inverse(Inverse(s)) == s
    decreases |s|
  {
    if s != [] {
      InverseScript(s[1..], s[0].e1, s[0].e2, x', y');
      assert Inverse(s)[1..] == Inverse(s[1..]);
      assert s == [s[0]] + s[1..];
    }
  }

  lemma {:induction false} InverseMatched(s: seq<Action>, i: int, j: int)
    requires exists x, y, x', y' :: Script(s, x, y, x', y')
    ensures Matched(s, i, j) <==> Matched(Inverse(s), j, i)
    decreases |s|
  {
    if s != [] {
      var x, y, x', y' :| Script(s, x, y, x', y');
      assert Script(s[1..], s[0].e1, s[0].e2, x', y');
      InverseMatched(s[1..], i, j);
      assert Inverse(s)[1..] == Inverse(s[1..]);
    }
  }

  lemma {:induction false} CoveringEnds1(s: seq<Action>, x: int, y: int, x': int, y': int)
    requires Script(s, x, y, x', y') && Covers1(s)
    ensures forall a :: a in s && !a.op.Delete? ==> y < a.e2
    decreases |s|
  {
    if s != [] {
      assert s == [s[0]] + s[1..];
      CoveringEnds1(s[1..], s[0].e1, s[0].e2, x', y');
    }
  }

  /** The ranges the merger computes are breakpoints and contain every end. */
  lemma RangesAreBreakpoints(s1: seq<Action>, s2: seq<Action>, x: int, y: int, z: int)
    requires Script(s1, 0, 0, x, y) && Script(s2, 0, 0, y, z)
    ensures Breakpoints(GetRanges(s1, s2), 0, y)
    ensures Covers1(s1) ==> EndsIn1(s1, GetRanges(s1, s2))
    ensures Covers2(s2) ==> EndsIn1(Inverse(s2), GetRanges(s1, s2))
  {
    RangesComplete(s1, s2);
    RangesOrdered(s1, s2, 0, 0, x, 0, 0, z, y);
    RangesFrom(s1, s2, 0, 0, x, 0, 0, z, y, 0);
    DedupeMembers(GetRangesBase(s1, s2));
    IncreasingBreakpoints(GetRanges(s1, s2), 0, y);
    if Covers1(s1) {
      CoveringEnds1(s1, 0, 0, x, y);
      AllEndsIn1(s1, GetRanges(s1, s2));
    }
    if Covers2(s2) {
      InverseScript(s2, 0, 0, y, z);
      CoveringEnds1(Inverse(s2), 0, 0, z, y);
      AllEndsIn1(Inverse(s2), GetRanges(s1, s2));
    }
  }

  /** A breakpoint below all remaining ends is not needed any more. */
  lemma {:induction false} DropBreakpoint1(s: seq<Action>, r: seq<int>, x: int, y: int, x': int, y': int)
    requires Script(s, x, y, x', y') && Covers1(s) && EndsIn1(s, r) && r != [] && r[0] <= y
    ensures EndsIn1(s, r[1..])
    decreases |s|
  {
    if s != [] {
      DropBreakpoint1(s[1..], r, s[0].e1, s[0].e2, x', y');
    }
  }

  /** The ends in B of the actions of A -> B that cover lines of B. */
  function Ends1(s: seq<Action>): seq<int> {
    if s == [] then [] else (if s[0].op.Delete? then [] else [s[0].e2]) + Ends1(s[1..])
  }

  function Ends2(s: seq<Action>): seq<int> {
    if s == [] then [] else (if s[0].op.Insert? then [] else [s[0].e1]) + Ends2(s[1..])
  }

  lemma {:induction false} InverseEnds(s: seq<Action>)
    ensures Ends2(s) == Ends1(Inverse(s))
  {
    if s != [] {
      InverseEnds(s[1..]);
      assert Inverse(s)[1..] == Inverse(s[1..]);
    }
  }

  lemma Prepend1(h: Action, t: seq<Action>, x': int, y': int, r: seq<int>)
    requires Proper(h) && Script(t, h.e1, h.e2, x', y') && NoReplace(t) && !h.op.Replace? && Covers1(t)
    requires h.op.Delete? || h.b2 < h.e2
    ensures Script([h] + t, h.b1, h.b2, x', y') && NoReplace([h] + t) && Covers1([h] + t)
    ensures Ends1([h] + t) == (if h.op.Delete? then [] else [h.e2]) + Ends1(t)
    ensures EndsIn1(t, r) && (h.op.Delete? || h.e2 in r) ==> EndsIn1([h] + t, r)
  {
    assert ([h] + t)[1..] == t;
  }

  /** What a successful split promises. */
  ghost predicate Split1(t: Outcome<seq<Action>>, r: seq<int>, x: int, y: int, x': int, y': int) {
    && t.Done?
    && Script(t.value, x, y, x', y') && NoReplace(t.value) && Covers1(t.value)
    && Ends1(t.value) == r
  }

  /** An action before a successful split. */
  lemma PrependSplit(h: Action, t: Outcome<seq<Action>>, r: seq<int>, x': int, y': int)
    requires Split1(t, r, h.e1, h.e2, x', y')
    requires Proper(h) && !h.op.Replace? && (h.op.Delete? || h.b2 < h.e2)
    ensures t.Done?
    ensures Split1(Done([h] + t.value), (if h.op.Delete? then [] else [h.e2]) + r, h.b1, h.b2, x', y')
  {
    Prepend1(h, t.value, x', y', r);
  }

  /** The step that splits the first action in two. */
  lemma SplitInside1(s: seq<Action>, r: seq<int>, x: int, y: int, x': int, y': int)
    requires Script(s, x, y, x', y') && NoReplace(s) && Covers1(s) && EndsIn1(s, r)
    requires s != [] && !s[0].op.Delete? && r != [] && y < r[0] < s[0].e2
    ensures var s' := [Behind1(s[0], r[0])] + s[1..];
      Script(s', s'[0].b1, s'[0].b2, x', y') && NoReplace(s') && Covers1(s') && EndsIn1(s', r[1..])
  {
    var rest := Behind1(s[0], r[0]);
    Prepend1(rest, s[1..], x', y', r);
    DropBreakpoint1([rest] + s[1..], r, rest.b1, rest.b2, x', y');
  }

  /** Splitting a covering script at its own ends and some more lines succeeds, does not
      move its corners, and yields actions that end exactly at those lines. */
  lemma {:induction false} SplitActions1Works(s: seq<Action>, r: seq<int>, x: int, y: int, x': int, y': int)
    requires Script(s, x, y, x', y') && NoReplace(s) && Covers1(s) && Breakpoints(r, y, y') && EndsIn1(s, r)
    ensures Split1(SplitActions1(s, r), r, x, y, x', y')
    decreases |s| + |r|
  {
    if s != [] {
      hide Split1;
      var a := s[0];
      if a.op.Delete? {
        SplitActions1Works(s[1..], r, a.e1, a.e2, x', y');
        PrependSplit(a, SplitActions1(s[1..], r), r, x', y');
        assert [] + r == r;
      } else {
        BreakpointsMember(r, y, y', a.e2);
        assert [r[0]] + r[1..] == r;
        if r[0] == a.e2 {
          DropBreakpoint1(s[1..], r, a.e1, a.e2, x', y');
          SplitActions1Works(s[1..], r[1..], a.e1, a.e2, x', y');
          PrependSplit(a, SplitActions1(s[1..], r[1..]), r[1..], x', y');
        } else {
          SplitInside1(s, r, x, y, x', y');
          var s' := [Behind1(a, r[0])] + s[1..];
          SplitActions1Works(s', r[1..], s'[0].b1, s'[0].b2, x', y');
          PrependSplit(Before1(a, r[0]), SplitActions1(s', r[1..]), r[1..], x', y');
        }
      }
    }
  }

  /** A split neither loses nor invents a match. */
  lemma {:induction false} SplitActions1Matches(s: seq<Action>, r: seq<int>,
                                                x: int, y: int, x': int, y': int, i: int, j: int)
    requires Script(s, x, y, x', y') && Breakpoints(r, y, y') && SplitActions1(s, r).Done?
    ensures Matched(SplitActions1(s, r).value, i, j) <==> Matched(s, i, j)
    decreases |s| + |r|
  {
    if s != [] {
      var a := s[0];
      if a.op.Delete? {
        SplitActions1Matches(s[1..], r, a.e1, a.e2, x', y', i, j);
      } else if r[0] == a.e2 {
        SplitActions1Matches(s[1..], r[1..], a.e1, a.e2, x', y', i, j);
      } else {
        var s' := [Behind1(a, r[0])] + s[1..];
        assert s'[1..] == s[1..];
        assert SplitActions1(s, r).value == [Before1(a, r[0])] + SplitActions1(s', r[1..]).value;
        SplitActions1Matches(s', r[1..], s'[0].b1, s'[0].b2, x', y', i, j);
      }
    }
  }

  lemma {:induction false} SplitActions1Tidy(s: seq<Action>, r: seq<int>, x: int, y: int, x': int, y': int)
    requires Script(s, x, y, x', y') && Breakpoints(r, y, y') && SplitActions1(s, r).Done? && Tidy(s)
    ensures Tidy(SplitActions1(s, r).value)
    decreases |s| + |r|
  {
    if s != [] {
      var a := s[0];
      if a.op.Delete? {
        SplitActions1Tidy(s[1..], r, a.e1, a.e2, x', y');
      } else if r[0] == a.e2 {
        SplitActions1Tidy(s[1..], r[1..], a.e1, a.e2, x', y');
      } else {
        var s' := [Behind1(a, r[0])] + s[1..];
        assert s'[1..] == s[1..];
        assert SplitActions1(s, r).value == [Before1(a, r[0])] + SplitActions1(s', r[1..]).value;
        SplitActions1Tidy(s', r[1..], s'[0].b1, s'[0].b2, x', y');
      }
    }
  }

  /** An action that covers nothing of B has no line to be split at: the splitter fails. */
  lemma {:induction false} SplitActions1Fails(s: seq<Action>, r: seq<int>, x: int, y: int, x': int, y': int)
    requires Script(s, x, y, x', y') && Breakpoints(r, y, y') && !Covers1(s)
    ensures SplitActions1(s, r).Failed?
    decreases |s| + |r|
  {
    var a := s[0];
    if a.op.Delete? {
      SplitActions1Fails(s[1..], r, a.e1, a.e2, x', y');
    } else if r != [] && r[0] == a.e2 {
      SplitActions1Fails(s[1..], r[1..], a.e1, a.e2, x', y');
    } else if r != [] && r[0] < a.e2 && (a.op.Equal? || a.op.Insert?) {
      var s' := [Behind1(a, r[0])] + s[1..];
      assert s'[1..] == s[1..];
      assert SplitActions1(s', r[1..]).Failed? ==> SplitActions1(s, r).Failed?;
      SplitActions1Fails(s', r[1..], s'[0].b1, s'[0].b2, x', y');
    }
  }

  function InverseOutcome(t: Outcome<seq<Action>>): Outcome<seq<Action>> {
    if t.Failed? then Failed else Done(Inverse(t.value))
  }

  function Prefixed(h: Action, t: Outcome<seq<Action>>): Outcome<seq<Action>> {
    if t.Failed? then Failed else Done([h] + t.value)
  }

  lemma SplitStep2(s: seq<Action>, r: seq<int>)
    requires s != [] && r != [] && s[0].b1 < r[0] < s[0].e1
    requires s[0].op.Equal? || (s[0].op.Delete? && s[0].b2 == s[0].e2)
    ensures SplitActions2(s, r) ==
            Prefixed(Before2(s[0], r[0]), SplitActions2([Behind2(s[0], r[0])] + s[1..], r[1..]))
  {
  }

  lemma SplitStep1(s: seq<Action>, r: seq<int>)
    requires s != [] && r != [] && s[0].b2 < r[0] < s[0].e2
    requires s[0].op.Equal? || (s[0].op.Insert? && s[0].b1 == s[0].e1)
    ensures SplitActions1(s, r) ==
            Prefixed(Before1(s[0], r[0]), SplitActions1([Behind1(s[0], r[0])] + s[1..], r[1..]))
  {
  }

  lemma MirrorParts(a: Action, r: int)
    requires a.op.Equal? || (a.op.Delete? && a.b2 == a.e2)
    ensures Mirror(Before2(a, r)) == Before1(Mirror(a), r)
    ensures Mirror(Behind2(a, r)) == Behind1(Mirror(a), r)
    ensures Mirror(Before1(Mirror(a), r)) == Before2(a, r)
  {
  }

  lemma InversePrefixed(h: Action, t: Outcome<seq<Action>>)
    ensures InverseOutcome(Prefixed(h, t)) == Prefixed(Mirror(h), InverseOutcome(t))
  {
    if t.Done? {
      assert ([h] + t.value)[1..] == t.value;
    }
  }

  /** The step that splits the first action in two, in both splitters. */
  lemma MirrorSplit(s: seq<Action>, r: seq<int>, x: int, y: int)
    requires s != [] && Proper(s[0]) && s[0].b1 == x && s[0].b2 == y && (s[0].op.Equal? || s[0].op.Delete?)
    requires r != [] && x < r[0] < s[0].e1
    requires var s' := [Behind2(s[0], r[0])] + s[1..];
      SplitActions2(s', r[1..]) == InverseOutcome(SplitActions1(Inverse(s'), r[1..]))
    ensures SplitActions2(s, r) == InverseOutcome(SplitActions1(Inverse(s), r))
  {
    var a, rest := s[0], Behind2(s[0], r[0]);
    assert Inverse(s)[0] == Mirror(a) && Inverse(s)[1..] == Inverse(s[1..]);
    assert Inverse([rest] + s[1..]) == [Mirror(rest)] + Inverse(s[1..]);
    assert Mirror(a).op.Equal? || Mirror(a).op.Insert?;
    assert Mirror(a).b2 == a.b1 && Mirror(a).e2 == a.e1 && (a.op.Delete? ==> Mirror(a).b1 == Mirror(a).e1);
    MirrorParts(a, r[0]);
    hide *;
    SplitStep2(s, r);
    SplitStep1(Inverse(s), r);
    InversePrefixed(Before1(Mirror(a), r[0]), SplitActions1([Mirror(rest)] + Inverse(s[1..]), r[1..]));
  }

  /** The second splitter is the first one on the script of the opposite direction, for
      breakpoints behind the start of the script. */
  lemma {:induction false} MirrorsInside(s: seq<Action>, r: seq<int>, x: int, y: int, x': int, y': int)
    requires Script(s, x, y, x', y') && Breakpoints(r, x, x')
    ensures SplitActions2(s, r) == InverseOutcome(SplitActions1(Inverse(s), r))
    decreases |s| + |r|
  {
    if s != [] {
      var a := s[0];
      assert Inverse(s)[0] == Mirror(a) && Inverse(s)[1..] == Inverse(s[1..]);
      if a.op.Insert? {
        MirrorsInside(s[1..], r, a.e1, a.e2, x', y');
      } else if r != [] && r[0] == a.e1 {
        MirrorsInside(s[1..], r[1..], a.e1, a.e2, x', y');
      } else if r != [] && r[0] < a.e1 && (a.op.Equal? || a.op.Delete?) {
        var rest := Behind2(a, r[0]);
        MirrorsInside([rest] + s[1..], r[1..], rest.b1, rest.b2, x', y');
        MirrorSplit(s, r, x, y);
      }
    }
  }

  predicate AllInserts(s: seq<Action>) {
    s == [] || (s[0].op.Insert? && AllInserts(s[1..]))
  }

  /** A breakpoint at the start of the script is skipped if some action can meet it; a script
      of insertions only is left with a breakpoint over, and the splitter fails. */
  lemma {:induction false} BreakpointAtStart(s: seq<Action>, r: seq<int>, x: int, y: int, x': int, y': int)
    requires Script(s, x, y, x', y')
    ensures SplitActions2(s, [x] + r) == if AllInserts(s) then Failed else SplitActions2(s, r)
    decreases |s|
  {
    assert ([x] + r)[1..] == r;
    if s != [] && s[0].op.Insert? {
      BreakpointAtStart(s[1..], r, s[0].e1, s[0].e2, x', y');
    }
  }

  /** The breakpoints without one at the start of the script. */
  function BehindStart(q: seq<int>, x: int): seq<int> {
    if q != [] && q[0] == x then q[1..] else q
  }

  /** The second splitter is the first one on the script of the opposite direction, except
      that it skips a breakpoint at the start of the script. */
  lemma SplitActions2Mirrors(s: seq<Action>, q: seq<int>, x: int, y: int, x': int, y': int)
    requires Script(s, x, y, x', y') && Breakpoints(BehindStart(q, x), x, x')
    ensures SplitActions2(s, q) ==
            if BehindStart(q, x) != q && AllInserts(s) then Failed
            else InverseOutcome(SplitActions1(Inverse(s), BehindStart(q, x)))
  {
    var r := BehindStart(q, x);
    MirrorsInside(s, r, x, y, x', y');
    if q != r {
      assert q == [x] + r;
      BreakpointAtStart(s, r, x, y, x', y');
    }
  }

  /** The second splitter, from the first one on the mirrored script. */
  lemma SplitActions2Works(s: seq<Action>, q: seq<int>, x: int, y: int, x': int, y': int, i: int, j: int)
    requires Script(s, x, y, x', y') && NoReplace(s) && Covers2(s)
    requires Breakpoints(BehindStart(q, x), x, x') && EndsIn1(Inverse(s), BehindStart(q, x))
    requires BehindStart(q, x) != q ==> !AllInserts(s)
    ensures var t := SplitActions2(s, q);
      && t.Done? && Script(t.value, x, y, x', y') && NoReplace(t.value) && Covers2(t.value)
      && Ends2(t.value) == BehindStart(q, x)
      && (Tidy(s) ==> Tidy(t.value))
      && (Matched(t.value, i, j) <==> Matched(s, i, j))
  {
    var r := BehindStart(q, x);
    InverseScript(s, x, y, x', y');
    SplitActions2Mirrors(s, q, x, y, x', y');
    SplitActions1Works(Inverse(s), r, y, x, y', x');
    var t := SplitActions1(Inverse(s), r).value;
    InverseScript(t, y, x, y', x');
    InverseScript(Inverse(t), x, y, x', y');
    InverseEnds(Inverse(t));
    SplitActions1Matches(Inverse(s), r, y, x, y', x', j, i);
    InverseMatched(s, i, j);
    InverseMatched(t, j, i);
    if Tidy(s) {
      SplitActions1Tidy(Inverse(s), r, y, x, y', x');
    }
  }

  // ---- zipping -----------------------------------------------------------

  /** Two scripts split at the same lines of B, at the positions x, y, z of A, B and C; last1
      and last3 are the bookkeeping of the code. */
  ghost predicate ZipReady(s1: seq<Action>, s2: seq<Action>, x: int, y: int, z: int,
                           x': int, y': int, z': int, last1: int, last3: int)
  {
    && Script(s1, x, y, x', y') && Script(s2, y, z, y', z')
    && NoReplace(s1) && NoReplace(s2) && Covers1(s1) && Covers2(s2) && Ends1(s1) == Ends2(s2)
    && x <= last1 && (if s1 == [] then last1 == x' else last1 <= s1[0].e1)
    && z <= last3 && (if s2 == [] then last3 == z' else last3 <= s2[0].e2)
  }

  lemma ZipDelete(s1: seq<Action>, s2: seq<Action>, x: int, y: int, z: int,
                  x': int, y': int, z': int, last1: int, last3: int)
    requires ZipReady(s1, s2, x, y, z, x', y', z', last1, last3)
    requires s1 != [] && s1[0].op.Delete?
    ensures ZipReady(s1[1..], s2, s1[0].e1, y, z, x', y', z', s1[0].e1, if s2 == [] then last3 else s2[0].e2)
  {
  }

  lemma ZipInsert(s1: seq<Action>, s2: seq<Action>, x: int, y: int, z: int,
                  x': int, y': int, z': int, last1: int, last3: int)
    requires ZipReady(s1, s2, x, y, z, x', y', z', last1, last3)
    requires s2 != [] && s2[0].op.Insert?
    ensures ZipReady(s1, s2[1..], x, y, s2[0].e2, x', y', z', if s1 == [] then last1 else s1[0].e1, s2[0].e2)
  {
  }

  /** Heads that cover lines of B cover the same lines. */
  lemma ZipBoth(s1: seq<Action>, s2: seq<Action>, x: int, y: int, z: int,
                x': int, y': int, z': int, last1: int, last3: int)
    requires ZipReady(s1, s2, x, y, z, x', y', z', last1, last3)
    requires s1 != [] && s2 != [] && !s1[0].op.Delete? && !s2[0].op.Insert?
    ensures s1[0].b2 == s2[0].b1 && s1[0].e2 == s2[0].e1
    ensures ZipReady(s1[1..], s2[1..], s1[0].e1, s1[0].e2, s2[0].e2, x', y', z', s1[0].e1, s2[0].e2)
    ensures s1[0].op.Insert? && s2[0].op.Delete? ==>
      ZipReady(s1[1..], s2[1..], s1[0].e1, s1[0].e2, s2[0].e2, x', y', z', last1, last3)
  {
    var (a, b) := (s1[0], s2[0]);
    assert Ends1(s1)[0] == a.e2 && Ends2(s2)[0] == b.e1;
    assert Ends1(s1)[1..] == Ends1(s1[1..]) && Ends2(s2)[1..] == Ends2(s2[1..]);
    ScriptMonotone(s1[1..], a.e1, a.e2, x', y');
    ScriptMonotone(s2[1..], b.e1, b.e2, y', z');
  }

  /** A head that covers lines of B meets another one or none is left. */
  lemma ZipEnds(s1: seq<Action>, s2: seq<Action>, x: int, y: int, z: int,
                x': int, y': int, z': int, last1: int, last3: int)
    requires ZipReady(s1, s2, x, y, z, x', y', z', last1, last3)
    ensures s1 == [] && s2 != [] ==> s2[0].op.Insert?
    ensures s2 == [] && s1 != [] ==> s1[0].op.Delete?
  {
  }

  lemma ScriptCons(h: Action, t: seq<Action>, x': int, y': int)
    requires Proper(h) && !h.op.Replace? && Script(t, h.e1, h.e2, x', y') && NoReplace(t)
    ensures Script([h] + t, h.b1, h.b2, x', y') && NoReplace([h] + t)
  {
    assert ([h] + t)[1..] == t;
  }

  ghost predicate Zipped(m: Outcome<seq<Action>>, x: int, z: int, x': int, z': int) {
    m.Done? && Script(m.value, x, z, x', z') && NoReplace(m.value)
  }

  /** Zipping succeeds and yields a script from A to C. */
  lemma {:induction false} MergeBaseWorks(s1: seq<Action>, s2: seq<Action>, x: int, y: int, z: int,
                                          x': int, y': int, z': int, last1: int, last3: int)
    requires ZipReady(s1, s2, x, y, z, x', y', z', last1, last3)
    ensures Zipped(MergeBase(s1, s2, last1, last3), x, z, x', z')
    decreases |s1| + |s2|
  {
    ZipEnds(s1, s2, x, y, z, x', y', z', last1, last3);
    if s1 != [] && s1[0].op.Delete? {
      var a, next3 := s1[0], if s2 == [] then last3 else s2[0].e2;
      ZipDelete(s1, s2, x, y, z, x', y', z', last1, last3);
      MergeBaseWorks(s1[1..], s2, a.e1, y, z, x', y', z', a.e1, next3);
      ScriptCons(Action(Delete, a.b1, a.e1, z, z), MergeBase(s1[1..], s2, a.e1, next3).value, x', z');
    } else if s2 != [] && s2[0].op.Insert? {
      var b, next1 := s2[0], if s1 == [] then last1 else s1[0].e1;
      ZipInsert(s1, s2, x, y, z, x', y', z', last1, last3);
      MergeBaseWorks(s1, s2[1..], x, y, b.e2, x', y', z', next1, b.e2);
      ScriptCons(Action(Insert, x, x, b.b2, b.e2), MergeBase(s1, s2[1..], next1, b.e2).value, x', z');
    } else if s1 != [] {
      var (a, b) := (s1[0], s2[0]);
      ZipBoth(s1, s2, x, y, z, x', y', z', last1, last3);
      if a.op.Insert? && b.op.Delete? {
        MergeBaseWorks(s1[1..], s2[1..], a.e1, a.e2, b.e2, x', y', z', last1, last3);
      } else {
        MergeBaseWorks(s1[1..], s2[1..], a.e1, a.e2, b.e2, x', y', z', a.e1, b.e2);
        var op := if a.op.Insert? then Insert else if b.op.Delete? then Delete else Equal;
        ScriptCons(Action(op, a.b1, a.e1, b.b2, b.e2), MergeBase(s1[1..], s2[1..], a.e1, b.e2).value, x', z');
      }
    }
  }

  /** Line i of A and line k of C are matched with the same line of B. */
  ghost predicate Composed(s1: seq<Action>, s2: seq<Action>, i: int, k: int) {
    exists j :: Matched(s1, i, j) && Matched(s2, j, k)
  }

  lemma ComposedSkip1(s1: seq<Action>, s2: seq<Action>, i: int, k: int)
    requires s1 != [] && !s1[0].op.Equal?
    ensures Composed(s1, s2, i, k) <==> Composed(s1[1..], s2, i, k)
  {
    assert forall j :: Matched(s1, i, j) <==> Matched(s1[1..], i, j);
  }

  lemma ComposedSkip2(s1: seq<Action>, s2: seq<Action>, i: int, k: int)
    requires s2 != [] && !s2[0].op.Equal?
    ensures Composed(s1, s2, i, k) <==> Composed(s1, s2[1..], i, k)
  {
    assert forall j :: Matched(s2, j, k) <==> Matched(s2[1..], j, k);
  }

  /** Heads over the same lines of B compose with each other only. */
  lemma ComposedHeads(s1: seq<Action>, s2: seq<Action>, x: int, y: int, z: int,
                      x': int, y': int, z': int, i: int, k: int)
    requires Script(s1, x, y, x', y') && Script(s2, y, z, y', z')
    requires s1 != [] && s2 != [] && s1[0].e2 == s2[0].e1
    ensures Composed(s1, s2, i, k) <==>
      || (Hits(s1[0], i, i - s1[0].b1 + s1[0].b2) && Hits(s2[0], i - s1[0].b1 + s1[0].b2, k))
      || Composed(s1[1..], s2[1..], i, k)
  {
    var (a, b) := (s1[0], s2[0]);
    var j0 := i - a.b1 + a.b2;
    if Composed(s1, s2, i, k) {
      var j :| Matched(s1, i, j) && Matched(s2, j, k);
      if Hits(a, i, j) {
        if !Hits(b, j, k) {
          MatchedInside(s2[1..], b.e1, b.e2, y', z', j, k);
        }
      } else {
        MatchedInside(s1[1..], a.e1, a.e2, x', y', i, j);
      }
    }
    if Hits(a, i, j0) && Hits(b, j0, k) {
      assert Matched(s1, i, j0) && Matched(s2, j0, k);
    }
    if Composed(s1[1..], s2[1..], i, k) {
      var j :| Matched(s1[1..], i, j) && Matched(s2[1..], j, k);
      assert Matched(s1, i, j) && Matched(s2, j, k);
    }
  }

  /** The zipped script matches exactly the composed pairs. */
  lemma {:induction false} MergeBaseMatches(s1: seq<Action>, s2: seq<Action>, x: int, y: int, z: int,
                                            x': int, y': int, z': int, last1: int, last3: int, i: int, k: int)
    requires ZipReady(s1, s2, x, y, z, x', y', z', last1, last3)
    ensures MergeBase(s1, s2, last1, last3).Done?
    ensures Matched(MergeBase(s1, s2, last1, last3).value, i, k) <==> Composed(s1, s2, i, k)
    decreases |s1| + |s2|
  {
    MergeBaseWorks(s1, s2, x, y, z, x', y', z', last1, last3);
    ZipEnds(s1, s2, x, y, z, x', y', z', last1, last3);
    if s1 != [] && s1[0].op.Delete? {
      var a, next3 := s1[0], if s2 == [] then last3 else s2[0].e2;
      ZipDelete(s1, s2, x, y, z, x', y', z', last1, last3);
      MergeBaseMatches(s1[1..], s2, a.e1, y, z, x', y', z', a.e1, next3, i, k);
      ComposedSkip1(s1, s2, i, k);
    } else if s2 != [] && s2[0].op.Insert? {
      var b, next1 := s2[0], if s1 == [] then last1 else s1[0].e1;
      ZipInsert(s1, s2, x, y, z, x', y', z', last1, last3);
      MergeBaseMatches(s1, s2[1..], x, y, b.e2, x', y', z', next1, b.e2, i, k);
      ComposedSkip2(s1, s2, i, k);
    } else if s1 != [] {
      var (a, b) := (s1[0], s2[0]);
      ZipBoth(s1, s2, x, y, z, x', y', z', last1, last3);
      ComposedHeads(s1, s2, x, y, z, x', y', z', i, k);
      if a.op.Insert? && b.op.Delete? {
        MergeBaseMatches(s1[1..], s2[1..], a.e1, a.e2, b.e2, x', y', z', last1, last3, i, k);
      } else {
        MergeBaseMatches(s1[1..], s2[1..], a.e1, a.e2, b.e2, x', y', z', a.e1, b.e2, i, k);
      }
    }
  }

  lemma {:induction false} MergeBaseTidy(s1: seq<Action>, s2: seq<Action>, x: int, y: int, z: int,
                                         x': int, y': int, z': int, last1: int, last3: int)
    requires ZipReady(s1, s2, x, y, z, x', y', z', last1, last3) && Tidy(s1) && Tidy(s2)
    ensures MergeBase(s1, s2, last1, last3).Done?
    ensures Tidy(MergeBase(s1, s2, last1, last3).value)
    decreases |s1| + |s2|
  {
    MergeBaseWorks(s1, s2, x, y, z, x', y', z', last1, last3);
    ZipEnds(s1, s2, x, y, z, x', y', z', last1, last3);
    if s1 != [] && s1[0].op.Delete? {
      var a, next3 := s1[0], if s2 == [] then last3 else s2[0].e2;
      ZipDelete(s1, s2, x, y, z, x', y', z', last1, last3);
      MergeBaseTidy(s1[1..], s2, a.e1, y, z, x', y', z', a.e1, next3);
    } else if s2 != [] && s2[0].op.Insert? {
      var b, next1 := s2[0], if s1 == [] then last1 else s1[0].e1;
      ZipInsert(s1, s2, x, y, z, x', y', z', last1, last3);
      MergeBaseTidy(s1, s2[1..], x, y, b.e2, x', y', z', next1, b.e2);
    } else if s1 != [] {
      var (a, b) := (s1[0], s2[0]);
      ZipBoth(s1, s2, x, y, z, x', y', z', last1, last3);
      if a.op.Insert? && b.op.Delete? {
        MergeBaseTidy(s1[1..], s2[1..], a.e1, a.e2, b.e2, x', y', z', last1, last3);
      } else {
        MergeBaseTidy(s1[1..], s2[1..], a.e1, a.e2, b.e2, x', y', z', a.e1, b.e2);
      }
    }
  }

  // ---- coalescing --------------------------------------------------------

  /** No two neighbouring equal actions and no two neighbouring insertions. */
  predicate Coalesced(s: seq<Action>) {
    forall k :: 0 < k < |s| ==> !(s[k - 1].op.Equal? && s[k].op.Equal?) && !(s[k - 1].op.Insert? && s[k].op.Insert?)
  }

  /** The action that joins two neighbours of the same kind. */
  function Joined(a: Action, b: Action): Action {
    Action(a.op, a.b1, b.e1, a.b2, b.e2)
  }

  lemma JoinStep(s: seq<Action>, x: int, z: int, x': int, z': int)
    requires Script(s, x, z, x', z') && |s| >= 2 && s[0].op == s[1].op && (s[0].op.Equal? || s[0].op.Insert?)
    ensures Script([Joined(s[0], s[1])] + s[2..], x, z, x', z')
    ensures MergeCombine(s) == MergeCombine([Joined(s[0], s[1])] + s[2..])
    ensures Tidy(s) ==> Tidy([Joined(s[0], s[1])] + s[2..])
    ensures NoReplace(s) ==> NoReplace([Joined(s[0], s[1])] + s[2..])
    ensures forall i, k :: Matched([Joined(s[0], s[1])] + s[2..], i, k) <==> Matched(s, i, k)
  {
    var t := [Joined(s[0], s[1])] + s[2..];
    assert t[1..] == s[2..] == s[1..][1..];
    assert Script(s[1..], s[0].e1, s[0].e2, x', z');
    assert Tidy(s) ==> Tidy(s[1..]) && Tidy(s[1..][1..]);
    assert NoReplace(s) ==> NoReplace(s[1..]) && NoReplace(s[1..][1..]);
  }

  /** Coalescing never fails on a script, keeps its corners, and leaves nothing to join. */
  lemma {:induction false} MergeCombineWorks(s: seq<Action>, x: int, z: int, x': int, z': int)
    requires Script(s, x, z, x', z')
    ensures var r := MergeCombine(s);
      && r.Done? && Script(r.value, x, z, x', z') && Coalesced(r.value)
      && (s != [] ==> r.value != [] && r.value[0].op == s[0].op)
    decreases |s|
  {
    if |s| >= 2 {
      if s[0].op == s[1].op && (s[0].op.Equal? || s[0].op.Insert?) {
        JoinStep(s, x, z, x', z');
        MergeCombineWorks([Joined(s[0], s[1])] + s[2..], x, z, x', z');
      } else {
        MergeCombineWorks(s[1..], s[0].e1, s[0].e2, x', z');
        var t := MergeCombine(s[1..]).value;
        assert ([s[0]] + t)[1..] == t;
      }
    }
  }

  /** Coalescing keeps the matches and creates no empty action. */
  lemma {:induction false} MergeCombineKeeps(s: seq<Action>, x: int, z: int, x': int, z': int, i: int, k: int)
    requires Script(s, x, z, x', z')
    ensures MergeCombine(s).Done?
    ensures Matched(MergeCombine(s).value, i, k) <==> Matched(s, i, k)
    ensures Tidy(s) ==> Tidy(MergeCombine(s).value)
    ensures NoReplace(s) ==> NoReplace(MergeCombine(s).value)
    decreases |s|
  {
    MergeCombineWorks(s, x, z, x', z');
    if |s| >= 2 {
      if s[0].op == s[1].op && (s[0].op.Equal? || s[0].op.Insert?) {
        JoinStep(s, x, z, x', z');
        MergeCombineKeeps([Joined(s[0], s[1])] + s[2..], x, z, x', z', i, k);
      } else {
        MergeCombineKeeps(s[1..], s[0].e1, s[0].e2, x', z', i, k);
        var t := MergeCombine(s[1..]).value;
        assert ([s[0]] + t)[1..] == t;
      }
    }
  }

  // ---- preprocessing -----------------------------------------------------

  /** Writing replacements as a deletion and an insertion changes neither corners nor
      matches, and decides covering by the replacement's own ranges. */
  lemma {:induction false} PreprocKeeps(s: seq<Action>, x: int, y: int, x': int, y': int)
    requires Script(s, x, y, x', y')
    ensures Script(Preproc(s), x, y, x', y') && NoReplace(Preproc(s))
    ensures Covers1(Preproc(s)) <==> Covers1(s)
    ensures Covers2(Preproc(s)) <==> Covers2(s)
    ensures Tidy(s) ==> Tidy(Preproc(s))
    ensures forall i, j :: Matched(Preproc(s), i, j) <==> Matched(s, i, j)
    decreases |s|
  {
    if s != [] {
      var a, t := s[0], Preproc(s[1..]);
      PreprocKeeps(s[1..], a.e1, a.e2, x', y');
      if a.op.Replace? {
        var (d, n) := (Action(Delete, a.b1, a.e1, a.b2, a.b2), Action(Insert, a.e1, a.e1, a.b2, a.e2));
        assert ([d, n] + t)[1..] == [n] + t && ([n] + t)[1..] == t;
      } else {
        assert ([a] + t)[1..] == t;
      }
    }
  }

  // ---- the merger --------------------------------------------------------

  /** Breakpoints behind a line do not include it. */
  lemma NoneAtStart(r: seq<int>, x: int, x': int)
    requires Breakpoints(r, x, x')
    ensures BehindStart(r, x) == r
  {
  }

  lemma ZipStart(u1: seq<Action>, u2: seq<Action>, x: int, y: int, z: int)
    requires Script(u1, 0, 0, x, y) && Script(u2, 0, 0, y, z) && NoReplace(u1) && NoReplace(u2)
    requires Covers1(u1) && Covers2(u2) && Ends1(u1) == Ends2(u2)
    ensures ZipReady(u1, u2, 0, 0, 0, x, y, z, 0, 0)
  {
  }

  lemma SplitsCompose(s1: seq<Action>, s2: seq<Action>, u1: seq<Action>, u2: seq<Action>, r: seq<int>,
                      x: int, y: int, z: int, i: int, k: int)
    requires Script(s1, 0, 0, x, y) && Script(s2, 0, 0, y, z) && Covers1(s1) && Covers2(s2)
    requires r == GetRanges(Preproc(s1), Preproc(s2))
    requires SplitActions1(Preproc(s1), r) == Done(u1) && SplitActions2(Preproc(s2), r) == Done(u2)
    ensures Composed(u1, u2, i, k) <==> Composed(s1, s2, i, k)
  {
    hide Script, Matched, Preproc, GetRanges, Covers1, Covers2, NoReplace, SplitActions1, SplitActions2;
    var (t1, t2) := (Preproc(s1), Preproc(s2));
    PreprocKeeps(s1, 0, 0, x, y);
    PreprocKeeps(s2, 0, 0, y, z);
    RangesAreBreakpoints(t1, t2, x, y, z);
    forall j
      ensures Matched(u1, i, j) <==> Matched(s1, i, j)
      ensures Matched(u2, j, k) <==> Matched(s2, j, k)
    {
      SplitActions1Matches(t1, r, 0, 0, x, y, i, j);
      NoneAtStart(r, 0, y);
      SplitActions2Works(t2, r, 0, 0, y, z, j, k);
    }
  }

  /** Covering scripts A -> B and B -> C merge to a script A -> C in normal form that matches
      line i of A with line k of C exactly if some line of B is matched with both. */
  lemma MergeCorrect(s1: seq<Action>, s2: seq<Action>, x: int, y: int, z: int, i: int, k: int)
    requires Script(s1, 0, 0, x, y) && Script(s2, 0, 0, y, z) && Covers1(s1) && Covers2(s2)
    ensures var m := MergeActions(s1, s2);
      && m.Done? && Script(m.value, 0, 0, x, z) && Coalesced(m.value) && NoReplace(m.value)
      && (Matched(m.value, i, k) <==> Composed(s1, s2, i, k))
      && (Tidy(s1) && Tidy(s2) ==> Tidy(m.value))
  {
    hide Script, Tidy, NoReplace, Covers1, Covers2, Matched, Coalesced, Composed;
    hide Preproc, GetRanges, SplitActions1, SplitActions2, MergeBase, MergeCombine;
    hide Ends1, Ends2, EndsIn1, Breakpoints, ZipReady;
    var (t1, t2) := (Preproc(s1), Preproc(s2));
    PreprocKeeps(s1, 0, 0, x, y);
    PreprocKeeps(s2, 0, 0, y, z);
    var r := GetRanges(t1, t2);
    RangesAreBreakpoints(t1, t2, x, y, z);
    SplitActions1Works(t1, r, 0, 0, x, y);
    NoneAtStart(r, 0, y);
    SplitActions2Works(t2, r, 0, 0, y, z, 0, 0);
    var (u1, u2) := (SplitActions1(t1, r).value, SplitActions2(t2, r).value);
    ZipStart(u1, u2, x, y, z);
    MergeBaseMatches(u1, u2, 0, 0, 0, x, y, z, 0, 0, i, k);
    MergeBaseWorks(u1, u2, 0, 0, 0, x, y, z, 0, 0);
    var m := MergeBase(u1, u2, 0, 0).value;
    MergeCombineWorks(m, 0, 0, x, z);
    MergeCombineKeeps(m, 0, 0, x, z, i, k);
    SplitsCompose(s1, s2, u1, u2, r, x, y, z, i, k);
    if Tidy(s1) && Tidy(s2) {
      SplitActions1Tidy(t1, r, 0, 0, x, y);
      MergeBaseTidy(u1, u2, 0, 0, 0, x, y, z, 0, 0);
    }
  }

  /** On scripts A -> B and B -> C the merger fails no assertion and no match if and only if
      every action that reaches into B covers at least one line of it. */
  lemma MergeSucceedsIff(s1: seq<Action>, s2: seq<Action>, x: int, y: int, z: int)
    requires Script(s1, 0, 0, x, y) && Script(s2, 0, 0, y, z)
    ensures MergeActions(s1, s2).Done? <==> Covers1(s1) && Covers2(s2)
  {
    var (t1, t2) := (Preproc(s1), Preproc(s2));
    PreprocKeeps(s1, 0, 0, x, y);
    PreprocKeeps(s2, 0, 0, y, z);
    var r := GetRanges(t1, t2);
    RangesAreBreakpoints(t1, t2, x, y, z);
    if !Covers1(s1) {
      SplitActions1Fails(t1, r, 0, 0, x, y);
    } else if !Covers2(s2) {
      InverseScript(t2, 0, 0, y, z);
      NoneAtStart(r, 0, y);
      SplitActions2Mirrors(t2, r, 0, 0, y, z);
      SplitActions1Fails(Inverse(t2), r, 0, 0, z, y);
    } else {
      MergeCorrect(s1, s2, x, y, z, 0, 0);
    }
  }

  lemma {:induction false} TidyCovers(s: seq<Action>)
    requires Tidy(s)
    ensures Covers1(s) && Covers2(s)
  {
    if s != [] {
      TidyCovers(s[1..]);
    }
  }

  lemma ComposedAssociative(s1: seq<Action>, s2: seq<Action>, s3: seq<Action>,
                            m12: seq<Action>, m23: seq<Action>, i: int, l: int)
    requires forall k :: Matched(m12, i, k) <==> Composed(s1, s2, i, k)
    requires forall j :: Matched(m23, j, l) <==> Composed(s2, s3, j, l)
    ensures Composed(m12, s3, i, l) <==> Composed(s1, m23, i, l)
  {
    hide Matched;
    if Composed(m12, s3, i, l) {
      var k :| Matched(m12, i, k) && Matched(s3, k, l);
      var j :| Matched(s1, i, j) && Matched(s2, j, k);
      assert Matched(m23, j, l);
    }
    if Composed(s1, m23, i, l) {
      var j :| Matched(s1, i, j) && Matched(m23, j, l);
      var k :| Matched(s2, j, k) && Matched(s3, k, l);
      assert Matched(m12, i, k);
    }
  }

  /** Scripts without empty actions can be merged over and over, and the order of merging
      three of them does not matter for what is matched. */
  lemma MergeAssociative(s1: seq<Action>, s2: seq<Action>, s3: seq<Action>,
                         x: int, y: int, z: int, w: int, i: int, l: int)
    requires Script(s1, 0, 0, x, y) && Script(s2, 0, 0, y, z) && Script(s3, 0, 0, z, w)
    requires Tidy(s1) && Tidy(s2) && Tidy(s3)
    ensures var (m12, m23) := (MergeActions(s1, s2), MergeActions(s2, s3));
      && m12.Done? && m23.Done?
      && var (left, right) := (MergeActions(m12.value, s3), MergeActions(s1, m23.value));
         && left.Done? && right.Done?
         && (Matched(left.value, i, l) <==> Matched(right.value, i, l))
  {
    hide Script, Tidy, Matched, MergeActions, Coalesced, NoReplace, Covers1, Covers2;
    TidyCovers(s1);
    TidyCovers(s2);
    TidyCovers(s3);
    MergeCorrect(s1, s2, x, y, z, 0, 0);
    MergeCorrect(s2, s3, y, z, w, 0, 0);
    var (m12, m23) := (MergeActions(s1, s2).value, MergeActions(s2, s3).value);
    TidyCovers(m12);
    TidyCovers(m23);
    MergeCorrect(m12, s3, x, z, w, i, l);
    MergeCorrect(s1, m23, x, y, w, i, l);
    forall k
      ensures Matched(m12, i, k) <==> Composed(s1, s2, i, k)
    {
      MergeCorrect(s1, s2, x, y, z, i, k);
    }
    forall j
      ensures Matched(m23, j, l) <==> Composed(s2, s3, j, l)
    {
      MergeCorrect(s2, s3, y, z, w, j, l);
    }
    ComposedAssociative(s1, s2, s3, m12, m23, i, l);
  }

  /** The diff of a file against itself with one line appended, as tools/gen-actions.py prints
      it: the script ends in an empty equal action. The merger fails on it although it is a
      script that describes the change correctly. */
  lemma TrailingEmptyEqualFails()
    ensures var s := [Action(Equal, 0, 1, 0, 1), Action(Insert, 1, 1, 1, 2), Action(Equal, 1, 1, 2, 2)];
      Script(s, 0, 0, 1, 2) && MergeActions(s, [Action(Equal, 0, 2, 0, 2)]).Failed?
  {
    var s := [Action(Equal, 0, 1, 0, 1), Action(Insert, 1, 1, 1, 2), Action(Equal, 1, 1, 2, 2)];
    var s2 := [Action(Equal, 0, 2, 0, 2)];
    assert s[1..] == [Action(Insert, 1, 1, 1, 2), Action(Equal, 1, 1, 2, 2)];
    assert s[1..][1..] == [Action(Equal, 1, 1, 2, 2)];
    assert s[1..][1..][1..] == [];
    assert s2[1..] == [];
    assert !Covers1(s[1..][1..]);
    assert !Covers1(s);
    MergeSucceedsIff(s, s2, 1, 2, 2);
  }
}
