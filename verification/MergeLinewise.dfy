/** The merger against a composition that works line by line: a script is a list of steps, each of
    which keeps, drops or adds one line, and two lists of steps compose one line of the middle
    file at a time. */
module MergeLinewise {
  import opened EditScripts
  import opened ActionsMerger
  import opened ActionsMergerProofs

  datatype Step = Keep | Drop | Add

  function Repeat(x: Step, n: int): seq<Step> {
    if n <= 0 then [] else [x] + Repeat(x, n - 1)
  }

  /** The steps of an action: a replacement drops its lines before it adds the new ones. */
  function StepsOf(a: Action): seq<Step> {
    match a.op
    case Equal => Repeat(Keep, a.e1 - a.b1)
    case Insert => Repeat(Add, a.e2 - a.b2)
    case Delete => Repeat(Drop, a.e1 - a.b1)
    case Replace => Repeat(Drop, a.e1 - a.b1) + Repeat(Add, a.e2 - a.b2)
    case Other(_) => []
  }

  function Steps(s: seq<Action>): seq<Step> {
    if s == [] then [] else StepsOf(s[0]) + Steps(s[1..])
  }

  /** Lines that the first list drops go first, then lines that the second adds; a line of the
      middle file is kept, added or dropped if one of the lists does so and the other keeps it,
      and leaves no trace if one adds it and the other drops it. */
  function Compose(p: seq<Step>, q: seq<Step>): seq<Step>
    decreases |p| + |q|
  {
    if p != [] && p[0] == Drop then [Drop] + Compose(p[1..], q)
    else if q != [] && q[0] == Add then [Add] + Compose(p, q[1..])
    else if p == [] || q == [] then []
    else
      var rest := Compose(p[1..], q[1..]);
      if p[0] == Keep then [q[0]] + rest
      else if q[0] == Keep then [Add] + rest
      else rest
  }

  // ---- steps of parts ------------------------------------------------------

  lemma {:induction false} RepeatAdd(x: Step, m: int, n: int)
    requires m >= 0 && n >= 0
    ensures Repeat(x, m + n) == Repeat(x, m) + Repeat(x, n)
    decreases m
  {
    if m > 0 {
      RepeatAdd(x, m - 1, n);
    }
  }

  lemma StepsCons(a: Action, s: seq<Action>)
    ensures Steps([a] + s) == StepsOf(a) + Steps(s)
  {
    assert ([a] + s)[1..] == s;
  }

  lemma ReplaceSteps(a: Action)
    requires a.op.Replace?
    ensures StepsOf(a) ==
      StepsOf(Action(Delete, a.b1, a.e1, a.b2, a.b2)) + StepsOf(Action(Insert, a.e1, a.e1, a.b2, a.e2))
  {
  }

  lemma {:induction false} PreprocSteps(s: seq<Action>, x: int, y: int, x': int, y': int)
    requires Script(s, x, y, x', y')
    ensures Steps(Preproc(s)) == Steps(s)
    decreases |s|
  {
    hide StepsOf;
    if s != [] {
      var a, t := s[0], Preproc(s[1..]);
      PreprocSteps(s[1..], a.e1, a.e2, x', y');
      if a.op.Replace? {
        var (d, n) := (Action(Delete, a.b1, a.e1, a.b2, a.b2), Action(Insert, a.e1, a.e1, a.b2, a.e2));
        ReplaceSteps(a);
        StepsCons(n, t);
        StepsCons(d, [n] + t);
        assert [d, n] + t == [d] + ([n] + t);
      } else {
        StepsCons(a, t);
      }
    }
  }

  lemma CutSteps1(a: Action, r: int)
    requires Proper(a) && (a.op.Equal? || a.op.Insert?) && a.b2 <= r <= a.e2
    ensures StepsOf(a) == StepsOf(Before1(a, r)) + StepsOf(Behind1(a, r))
  {
    RepeatAdd(if a.op.Equal? then Keep else Add, r - a.b2, a.e2 - r);
  }

  lemma CutSteps2(a: Action, r: int)
    requires Proper(a) && (a.op.Equal? || a.op.Delete?) && a.b1 <= r <= a.e1
    ensures StepsOf(a) == StepsOf(Before2(a, r)) + StepsOf(Behind2(a, r))
  {
    RepeatAdd(if a.op.Equal? then Keep else Drop, r - a.b1, a.e1 - r);
  }

  /** Splitting a script does not change its steps. */
  lemma {:induction false} SplitSteps1(s: seq<Action>, r: seq<int>, x: int, y: int, x': int, y': int)
    requires Script(s, x, y, x', y') && Breakpoints(r, y, y') && SplitActions1(s, r).Done?
    ensures Steps(SplitActions1(s, r).value) == Steps(s)
    decreases |s| + |r|
  {
    hide StepsOf;
    if s != [] {
      var a := s[0];
      if a.op.Delete? {
        SplitSteps1(s[1..], r, a.e1, a.e2, x', y');
        StepsCons(a, SplitActions1(s[1..], r).value);
      } else if r[0] == a.e2 {
        SplitSteps1(s[1..], r[1..], a.e1, a.e2, x', y');
        StepsCons(a, SplitActions1(s[1..], r[1..]).value);
      } else {
        var (b, c) := (Before1(a, r[0]), Behind1(a, r[0]));
        SplitSteps1([c] + s[1..], r[1..], c.b1, c.b2, x', y');
        StepsCons(c, s[1..]);
        StepsCons(b, SplitActions1([c] + s[1..], r[1..]).value);
        CutSteps1(a, r[0]);
      }
    }
  }

  lemma {:induction false} SplitSteps2(s: seq<Action>, r: seq<int>, x: int, y: int, x': int, y': int)
    requires Script(s, x, y, x', y') && Breakpoints(r, x, x') && SplitActions2(s, r).Done?
    ensures Steps(SplitActions2(s, r).value) == Steps(s)
    decreases |s| + |r|
  {
    hide StepsOf;
    if s != [] {
      var a := s[0];
      if a.op.Insert? {
        SplitSteps2(s[1..], r, a.e1, a.e2, x', y');
        StepsCons(a, SplitActions2(s[1..], r).value);
      } else if r[0] == a.e1 {
        SplitSteps2(s[1..], r[1..], a.e1, a.e2, x', y');
        StepsCons(a, SplitActions2(s[1..], r[1..]).value);
      } else {
        var (b, c) := (Before2(a, r[0]), Behind2(a, r[0]));
        SplitSteps2([c] + s[1..], r[1..], c.b1, c.b2, x', y');
        StepsCons(c, s[1..]);
        StepsCons(b, SplitActions2([c] + s[1..], r[1..]).value);
        CutSteps2(a, r[0]);
      }
    }
  }

  // ---- composing runs of steps --------------------------------------------

  lemma ComposeStep(p: seq<Step>, q: seq<Step>)
    ensures Compose([Drop] + p, q) == [Drop] + Compose(p, q)
    ensures p == [] || p[0] != Drop ==> Compose(p, [Add] + q) == [Add] + Compose(p, q)
    ensures Compose([Keep] + p, [Keep] + q) == [Keep] + Compose(p, q)
    ensures Compose([Keep] + p, [Drop] + q) == [Drop] + Compose(p, q)
    ensures Compose([Add] + p, [Keep] + q) == [Add] + Compose(p, q)
    ensures Compose([Add] + p, [Drop] + q) == Compose(p, q)
  {
    assert ([Drop] + p)[1..] == p && ([Keep] + p)[1..] == p && ([Add] + p)[1..] == p;
    assert ([Drop] + q)[1..] == q && ([Keep] + q)[1..] == q && ([Add] + q)[1..] == q;
  }

  lemma RepeatStep(x: Step, n: int, p: seq<Step>)
    requires n > 0
    ensures Repeat(x, n) + p == [x] + (Repeat(x, n - 1) + p)
  {
  }

  lemma {:induction false} ComposeDrops(n: int, p: seq<Step>, q: seq<Step>)
    ensures Compose(Repeat(Drop, n) + p, q) == Repeat(Drop, n) + Compose(p, q)
    decreases n
  {
    hide Compose;
    if n > 0 {
      ComposeDrops(n - 1, p, q);
      RepeatStep(Drop, n, p);
      RepeatStep(Drop, n, Compose(p, q));
      ComposeStep(Repeat(Drop, n - 1) + p, q);
    } else {
      assert Repeat(Drop, n) + p == p;
    }
  }

  lemma {:induction false} ComposeAdds(n: int, p: seq<Step>, q: seq<Step>)
    requires p == [] || p[0] != Drop
    ensures Compose(p, Repeat(Add, n) + q) == Repeat(Add, n) + Compose(p, q)
    decreases n
  {
    hide Compose;
    if n > 0 {
      ComposeAdds(n - 1, p, q);
      RepeatStep(Add, n, q);
      RepeatStep(Add, n, Compose(p, q));
      ComposeStep(p, Repeat(Add, n - 1) + q);
    } else {
      assert Repeat(Add, n) + q == q;
    }
  }

  /** What a line of the middle file leaves that is added or kept and then kept or dropped. */
  function Meeting(x: Step, y: Step, n: int): seq<Step> {
    if x == Keep then Repeat(y, n) else if y == Keep then Repeat(Add, n) else []
  }

  lemma {:induction false} ComposeRuns(x: Step, y: Step, n: int, p: seq<Step>, q: seq<Step>)
    requires x != Drop && y != Add
    ensures Compose(Repeat(x, n) + p, Repeat(y, n) + q) == Meeting(x, y, n) + Compose(p, q)
    decreases n
  {
    hide Compose;
    if n > 0 {
      ComposeRuns(x, y, n - 1, p, q);
      RepeatStep(x, n, p);
      RepeatStep(y, n, q);
      RepeatStep(y, n, Compose(p, q));
      RepeatStep(Add, n, Compose(p, q));
      ComposeStep(Repeat(x, n - 1) + p, Repeat(y, n - 1) + q);
    } else {
      assert Repeat(x, n) + p == p && Repeat(y, n) + q == q;
    }
  }

  lemma StepsHead(s: seq<Action>)
    ensures s != [] ==> Steps(s) == StepsOf(s[0]) + Steps(s[1..])
  {
  }

  /** An action that covers lines of the middle file does not begin with a dropped line. */
  lemma NoDropFirst(s: seq<Action>, x: int, y: int, x': int, y': int)
    requires Script(s, x, y, x', y') && Covers1(s) && NoReplace(s)
    requires s == [] || !s[0].op.Delete?
    ensures Steps(s) == [] || Steps(s)[0] != Drop
  {
  }

  lemma ZippedDelete(s1: seq<Action>, s2: seq<Action>, m: seq<Action>, z: int)
    requires s1 != [] && s1[0].op.Delete? && Steps(m) == Compose(Steps(s1[1..]), Steps(s2))
    ensures Steps([Action(Delete, s1[0].b1, s1[0].e1, z, z)] + m) == Compose(Steps(s1), Steps(s2))
  {
    hide Compose, Steps;
    StepsHead(s1);
    StepsCons(Action(Delete, s1[0].b1, s1[0].e1, z, z), m);
    ComposeDrops(s1[0].e1 - s1[0].b1, Steps(s1[1..]), Steps(s2));
  }

  lemma ZippedInsert(s1: seq<Action>, s2: seq<Action>, m: seq<Action>, x: int)
    requires s2 != [] && s2[0].op.Insert? && Steps(m) == Compose(Steps(s1), Steps(s2[1..]))
    requires Steps(s1) == [] || Steps(s1)[0] != Drop
    ensures Steps([Action(Insert, x, x, s2[0].b2, s2[0].e2)] + m) == Compose(Steps(s1), Steps(s2))
  {
    hide Compose, Steps;
    StepsHead(s2);
    StepsCons(Action(Insert, x, x, s2[0].b2, s2[0].e2), m);
    ComposeAdds(s2[0].e2 - s2[0].b2, Steps(s1), Steps(s2[1..]));
  }

  function StepIn1(a: Action): Step {
    if a.op.Equal? then Keep else Add
  }

  function StepIn2(b: Action): Step {
    if b.op.Equal? then Keep else Drop
  }

  /** The steps of two actions over the same lines of the middle file, and of what they make. */
  lemma MeetingSteps(a: Action, b: Action)
    requires Proper(a) && Proper(b) && (a.op.Equal? || a.op.Insert?) && (b.op.Equal? || b.op.Delete?)
    requires a.b2 == b.b1 && a.e2 == b.e1
    ensures var (x, y, n) := (StepIn1(a), StepIn2(b), a.e2 - a.b2);
      var op := if a.op.Insert? then Insert else if b.op.Delete? then Delete else Equal;
      && StepsOf(a) == Repeat(x, n) && StepsOf(b) == Repeat(y, n)
      && (if a.op.Insert? && b.op.Delete? then Meeting(x, y, n) == []
          else StepsOf(Action(op, a.b1, a.e1, b.b2, b.e2)) == Meeting(x, y, n))
  {
    hide Repeat;
  }

  /** Two actions over the same lines of the middle file. */
  lemma ZippedBoth(s1: seq<Action>, s2: seq<Action>, m: seq<Action>)
    requires s1 != [] && s2 != [] && Proper(s1[0]) && Proper(s2[0])
    requires s1[0].op.Equal? || s1[0].op.Insert?
    requires s2[0].op.Equal? || s2[0].op.Delete?
    requires s1[0].b2 == s2[0].b1 && s1[0].e2 == s2[0].e1 && Steps(m) == Compose(Steps(s1[1..]), Steps(s2[1..]))
    ensures var (a, b) := (s1[0], s2[0]);
      if a.op.Insert? && b.op.Delete? then Steps(m) == Compose(Steps(s1), Steps(s2))
      else
        var op := if a.op.Insert? then Insert else if b.op.Delete? then Delete else Equal;
        Steps([Action(op, a.b1, a.e1, b.b2, b.e2)] + m) == Compose(Steps(s1), Steps(s2))
  {
    var (a, b) := (s1[0], s2[0]);
    var (x, y, n) := (StepIn1(a), StepIn2(b), a.e2 - a.b2);
    var op := if a.op.Insert? then Insert else if b.op.Delete? then Delete else Equal;
    hide Compose, Steps, StepsOf, Repeat, Meeting;
    MeetingSteps(a, b);
    StepsHead(s1);
    StepsHead(s2);
    ComposeRuns(x, y, n, Steps(s1[1..]), Steps(s2[1..]));
    StepsCons(Action(op, a.b1, a.e1, b.b2, b.e2), m);
    assert [] + Steps(m) == Steps(m);
  }

  lemma NoSteps()
    ensures Steps([]) == [] && Compose([], []) == []
  {
  }

  /** Zipping composes the steps. */
  lemma {:induction false} ZippedSteps(s1: seq<Action>, s2: seq<Action>, x: int, y: int, z: int,
                                       x': int, y': int, z': int, last1: int, last3: int)
    requires ZipReady(s1, s2, x, y, z, x', y', z', last1, last3)
    ensures MergeBase(s1, s2, last1, last3).Done?
    ensures Steps(MergeBase(s1, s2, last1, last3).value) == Compose(Steps(s1), Steps(s2))
    decreases |s1| + |s2|
  {
    hide Compose, Steps;
    MergeBaseWorks(s1, s2, x, y, z, x', y', z', last1, last3);
    ZipEnds(s1, s2, x, y, z, x', y', z', last1, last3);
    if s1 != [] && s1[0].op.Delete? {
      var a, next3 := s1[0], if s2 == [] then last3 else s2[0].e2;
      ZipDelete(s1, s2, x, y, z, x', y', z', last1, last3);
      ZippedSteps(s1[1..], s2, a.e1, y, z, x', y', z', a.e1, next3);
      ZippedDelete(s1, s2, MergeBase(s1[1..], s2, a.e1, next3).value, z);
    } else if s2 != [] && s2[0].op.Insert? {
      var b, next1 := s2[0], if s1 == [] then last1 else s1[0].e1;
      ZipInsert(s1, s2, x, y, z, x', y', z', last1, last3);
      ZippedSteps(s1, s2[1..], x, y, b.e2, x', y', z', next1, b.e2);
      NoDropFirst(s1, x, y, x', y');
      ZippedInsert(s1, s2, MergeBase(s1, s2[1..], next1, b.e2).value, x);
    } else if s1 != [] {
      var (a, b) := (s1[0], s2[0]);
      ZipBoth(s1, s2, x, y, z, x', y', z', last1, last3);
      if a.op.Insert? && b.op.Delete? {
        ZippedSteps(s1[1..], s2[1..], a.e1, a.e2, b.e2, x', y', z', last1, last3);
        ZippedBoth(s1, s2, MergeBase(s1[1..], s2[1..], last1, last3).value);
      } else {
        ZippedSteps(s1[1..], s2[1..], a.e1, a.e2, b.e2, x', y', z', a.e1, b.e2);
        ZippedBoth(s1, s2, MergeBase(s1[1..], s2[1..], a.e1, b.e2).value);
      }
    } else {
      NoSteps();
    }
  }

  // ---- coalescing ----------------------------------------------------------

  /** The deletions of a script. */
  function Deletions(s: seq<Action>): seq<Action> {
    if s == [] then [] else (if s[0].op.Delete? then [s[0]] else []) + Deletions(s[1..])
  }

  lemma JoinedSteps(a: Action, b: Action)
    requires Proper(a) && Proper(b) && a.op == b.op && (a.op.Equal? || a.op.Insert?) && a.e1 == b.b1 && a.e2 == b.b2
    ensures StepsOf(Joined(a, b)) == StepsOf(a) + StepsOf(b)
  {
    if a.op.Equal? {
      RepeatAdd(Keep, a.e1 - a.b1, b.e1 - b.b1);
    } else {
      RepeatAdd(Add, a.e2 - a.b2, b.e2 - b.b2);
    }
  }

  lemma DeletionsCons(a: Action, s: seq<Action>)
    ensures Deletions([a] + s) == (if a.op.Delete? then [a] else []) + Deletions(s)
  {
    assert ([a] + s)[1..] == s;
  }

  /** Coalescing changes no step and joins no deletions. */
  lemma {:induction false} CombineSteps(s: seq<Action>, x: int, z: int, x': int, z': int)
    requires Script(s, x, z, x', z')
    ensures MergeCombine(s).Done?
    ensures Steps(MergeCombine(s).value) == Steps(s) && Deletions(MergeCombine(s).value) == Deletions(s)
    decreases |s|
  {
    hide StepsOf, Steps, Deletions;
    MergeCombineWorks(s, x, z, x', z');
    if |s| >= 2 {
      var (a, b) := (s[0], s[1]);
      assert s == [a] + s[1..] && s[1..] == [b] + s[2..] && Script(s[1..], a.e1, a.e2, x', z');
      StepsCons(a, s[1..]);
      DeletionsCons(a, s[1..]);
      if a.op == b.op && (a.op.Equal? || a.op.Insert?) {
        JoinStep(s, x, z, x', z');
        CombineSteps([Joined(a, b)] + s[2..], x, z, x', z');
        JoinedSteps(a, b);
        StepsCons(b, s[2..]);
        StepsCons(Joined(a, b), s[2..]);
        DeletionsCons(b, s[2..]);
        DeletionsCons(Joined(a, b), s[2..]);
      } else {
        CombineSteps(s[1..], a.e1, a.e2, x', z');
        StepsCons(a, MergeCombine(s[1..]).value);
        DeletionsCons(a, MergeCombine(s[1..]).value);
      }
    }
  }

  // ---- the merger ------------------------------------------------------------

  /** The merged script does line by line what the two scripts do one after the other. */
  lemma MergeIsLinewise(s1: seq<Action>, s2: seq<Action>, x: int, y: int, z: int)
    requires Script(s1, 0, 0, x, y) && Script(s2, 0, 0, y, z) && Covers1(s1) && Covers2(s2)
    ensures MergeActions(s1, s2).Done?
    ensures Steps(MergeActions(s1, s2).value) == Compose(Steps(s1), Steps(s2))
  {
    hide Script, NoReplace, Covers1, Covers2, Steps, Compose;
    hide Preproc, GetRanges, SplitActions1, SplitActions2, MergeBase, MergeCombine;
    hide Ends1, Ends2, EndsIn1, Breakpoints, ZipReady;
    var (t1, t2) := (Preproc(s1), Preproc(s2));
    PreprocKeeps(s1, 0, 0, x, y);
    PreprocKeeps(s2, 0, 0, y, z);
    PreprocSteps(s1, 0, 0, x, y);
    PreprocSteps(s2, 0, 0, y, z);
    var r := GetRanges(t1, t2);
    RangesAreBreakpoints(t1, t2, x, y, z);
    SplitActions1Works(t1, r, 0, 0, x, y);
    NoneAtStart(r, 0, y);
    SplitActions2Works(t2, r, 0, 0, y, z, 0, 0);
    SplitSteps1(t1, r, 0, 0, x, y);
    SplitSteps2(t2, r, 0, 0, y, z);
    var (u1, u2) := (SplitActions1(t1, r).value, SplitActions2(t2, r).value);
    ZipStart(u1, u2, x, y, z);
    MergeBaseWorks(u1, u2, 0, 0, 0, x, y, z, 0, 0);
    ZippedSteps(u1, u2, 0, 0, 0, x, y, z, 0, 0);
    CombineSteps(MergeBase(u1, u2, 0, 0).value, 0, 0, x, z);
  }
}
