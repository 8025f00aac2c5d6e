/** The merged script is the only one of its kind: its steps and its deletions determine it. */
module MergeNormalForm {
  import opened EditScripts
  import opened ActionsMerger
  import opened ActionsMergerProofs
  import opened MergeLinewise
  import opened MergeDeletions

  lemma {:induction false} SameRun(x: Step, m: int, n: int, p: seq<Step>, q: seq<Step>)
    requires m >= 0 && n >= 0 && Repeat(x, m) + p == Repeat(x, n) + q
    requires (p == [] || p[0] != x) && (q == [] || q[0] != x)
    ensures m == n && p == q
    decreases m
  {
    if m > 0 {
      RepeatStep(x, m, p);
    } else {
      assert Repeat(x, m) + p == p;
    }
    if n > 0 {
      RepeatStep(x, n, q);
    } else {
      assert Repeat(x, n) + q == q;
    }
    if m > 0 && n > 0 {
      assert (Repeat(x, m) + p)[1..] == Repeat(x, m - 1) + p;
      assert (Repeat(x, n) + q)[1..] == Repeat(x, n - 1) + q;
      SameRun(x, m - 1, n - 1, p, q);
    }
  }

  function StepOf(a: Action): Step {
    if a.op.Equal? then Keep else if a.op.Insert? then Add else Drop
  }

  /** The first step of a script without empty actions is that of its first action. */
  lemma FirstStep(s: seq<Action>, x: int, z: int, x': int, z': int)
    requires Script(s, x, z, x', z') && Tidy(s) && NoReplace(s)
    ensures s == [] <==> Steps(s) == []
    ensures s != [] ==> Steps(s)[0] == StepOf(s[0])
  {
  }

  lemma SameTail(h: seq<Step>, p: seq<Step>, q: seq<Step>)
    requires h + p == h + q
    ensures p == q
  {
    assert (h + p)[|h|..] == p && (h + q)[|h|..] == q;
  }

  lemma CoalescedTail(s: seq<Action>)
    requires Coalesced(s) && s != []
    ensures Coalesced(s[1..])
    ensures |s| > 1 ==> !(s[0].op.Equal? && s[1..][0].op.Equal?) && !(s[0].op.Insert? && s[1..][0].op.Insert?)
  {
    var t := s[1..];
    forall k | 0 < k < |t|
      ensures !(t[k - 1].op.Equal? && t[k].op.Equal?) && !(t[k - 1].op.Insert? && t[k].op.Insert?)
    {
      assert t[k] == s[k + 1] && t[k - 1] == s[k];
    }
    assert |s| > 1 ==> t[0] == s[1];
  }

  function Lines(a: Action): int {
    if a.op.Insert? then a.e2 - a.b2 else a.e1 - a.b1
  }

  lemma StepsAre(a: Action)
    requires a.op.Equal? || a.op.Insert? || a.op.Delete?
    ensures StepsOf(a) == Repeat(StepOf(a), Lines(a))
  {
  }

  /** The steps of the first action and a step of another kind after them. */
  lemma FirstRun(s: seq<Action>, x: int, z: int, x': int, z': int)
    requires Script(s, x, z, x', z') && Tidy(s) && NoReplace(s) && Coalesced(s) && s != [] && !s[0].op.Delete?
    ensures Steps(s) == Repeat(StepOf(s[0]), Lines(s[0])) + Steps(s[1..]) && Lines(s[0]) >= 0
    ensures Steps(s[1..]) == [] || Steps(s[1..])[0] != StepOf(s[0])
  {
    var a := s[0];
    FirstStep(s[1..], a.e1, a.e2, x', z');
    StepsHead(s);
    CoalescedTail(s);
    hide Steps, Repeat, StepsOf, Coalesced;
    StepsAre(a);
  }

  lemma SameOp(t: seq<Action>, u: seq<Action>, x: int, z: int, x': int, z': int)
    requires Script(t, x, z, x', z') && Script(u, x, z, x', z') && t != [] && u != []
    requires Tidy(t) && Tidy(u) && NoReplace(t) && NoReplace(u) && Steps(t) == Steps(u)
    ensures t[0].op == u[0].op && t[0].b1 == u[0].b1 && t[0].b2 == u[0].b2
  {
    FirstStep(t, x, z, x', z');
    FirstStep(u, x, z, x', z');
    hide Steps;
  }

  lemma SameLines(a: Action, b: Action)
    requires Proper(a) && Proper(b) && a.op == b.op && (a.op.Equal? || a.op.Insert?)
    requires a.b1 == b.b1 && a.b2 == b.b2 && Lines(a) == Lines(b)
    ensures a == b
  {
  }

  /** The same lines are deleted, action by action. */
  ghost predicate SameDeletions(t: seq<Action>, u: seq<Action>) {
    forall p, q :: Deletes(t, p, q) <==> Deletes(u, p, q)
  }

  lemma DeletesBehind(s: seq<Action>, x: int, z: int, x': int, z': int, p: int, q: int)
    requires Script(s, x, z, x', z') && Deletes(s, p, q)
    ensures x <= p <= q
  {
    var a :| a in s && a.op.Delete? && a.b1 == p && a.e1 == q;
    ActionInside(s, x, z, x', z', a);
  }

  /** The deletions of a script that begins with a. */
  lemma HeadDeletes(s: seq<Action>, x: int, z: int, x': int, z': int, p: int, q: int)
    requires Script(s, x, z, x', z') && Tidy(s) && s != []
    ensures Deletes(s, p, q) <==> (s[0].op.Delete? && s[0].b1 == p && s[0].e1 == q) || Deletes(s[1..], p, q)
    ensures s[0].op.Delete? && Deletes(s[1..], p, q) ==> p > x
  {
    assert s == [s[0]] + s[1..];
    DeletesCons(s[0], s[1..], p, q);
    if Deletes(s[1..], p, q) {
      DeletesBehind(s[1..], s[0].e1, s[0].e2, x', z', p, q);
    }
  }

  /** Deletions at the head of two scripts with the same deletions are the same. */
  lemma SameDeletion(t: seq<Action>, u: seq<Action>, x: int, z: int, x': int, z': int)
    requires Script(t, x, z, x', z') && Script(u, x, z, x', z') && Tidy(t) && Tidy(u) && t != [] && u != []
    requires SameDeletions(t, u) && t[0].op.Delete? && u[0].op.Delete?
    ensures t[0] == u[0]
  {
    var (a, b) := (t[0], u[0]);
    hide Deletes, Tidy;
    HeadDeletes(t, x, z, x', z', x, a.e1);
    HeadDeletes(u, x, z, x', z', x, a.e1);
  }

  lemma HeadStarts(s: seq<Action>, x: int, z: int, x': int, z': int)
    requires Script(s, x, z, x', z') && s != []
    ensures s[0].b1 == x && s[0].b2 == z && Proper(s[0])
  {
  }

  lemma SameTails(t: seq<Action>, u: seq<Action>, x: int, z: int, x': int, z': int)
    requires Script(t, x, z, x', z') && Script(u, x, z, x', z') && Tidy(t) && Tidy(u) && t != [] && u != []
    requires SameDeletions(t, u) && t[0] == u[0]
    ensures SameDeletions(t[1..], u[1..])
  {
    hide Deletes, Script, Tidy;
    forall p, q
      ensures Deletes(t[1..], p, q) <==> Deletes(u[1..], p, q)
    {
      HeadDeletes(t, x, z, x', z', p, q);
      HeadDeletes(u, x, z, x', z', p, q);
      assert t[0].b1 == x by {
        HeadStarts(t, x, z, x', z');
      }
    }
  }

  lemma SameHead(t: seq<Action>, u: seq<Action>, x: int, z: int, x': int, z': int)
    requires Script(t, x, z, x', z') && Script(u, x, z, x', z') && t != [] && u != []
    requires Tidy(t) && Tidy(u) && NoReplace(t) && NoReplace(u) && Coalesced(t) && Coalesced(u)
    requires Steps(t) == Steps(u) && SameDeletions(t, u)
    ensures t[0] == u[0] && Steps(t[1..]) == Steps(u[1..])
  {
    var (a, b) := (t[0], u[0]);
    assert !a.op.Replace?;
    SameOp(t, u, x, z, x', z');
    hide Steps, SameDeletions, Repeat, Coalesced, Tidy, NoReplace, Script;
    HeadStarts(t, x, z, x', z');
    HeadStarts(u, x, z, x', z');
    if a.op.Delete? {
      SameDeletion(t, u, x, z, x', z');
      StepsHead(t);
      StepsHead(u);
      SameTail(StepsOf(a), Steps(t[1..]), Steps(u[1..]));
    } else {
      FirstRun(t, x, z, x', z');
      FirstRun(u, x, z, x', z');
      SameRun(StepOf(a), Lines(a), Lines(b), Steps(t[1..]), Steps(u[1..]));
      SameLines(a, b);
    }
  }

  /** A coalesced script without empty actions is determined by its steps and its deletions. */
  lemma {:induction false} NormalForm(t: seq<Action>, u: seq<Action>, x: int, z: int, x': int, z': int)
    requires Script(t, x, z, x', z') && Script(u, x, z, x', z')
    requires Tidy(t) && Tidy(u) && NoReplace(t) && NoReplace(u) && Coalesced(t) && Coalesced(u)
    requires Steps(t) == Steps(u) && SameDeletions(t, u)
    ensures t == u
    decreases |t|
  {
    hide Steps, SameDeletions, Coalesced;
    FirstStep(t, x, z, x', z');
    FirstStep(u, x, z, x', z');
    if t != [] {
      SameHead(t, u, x, z, x', z');
      SameTails(t, u, x, z, x', z');
      CoalescedTail(t);
      CoalescedTail(u);
      NormalForm(t[1..], u[1..], t[0].e1, t[0].e2, x', z');
      assert t == [t[0]] + t[1..] && u == [u[0]] + u[1..];
    }
  }

  /** Two scripts without empty actions merge to the one coalesced script without empty actions and
      replacements that does line by line what the two do one after the other and deletes, action
      by action, what the first takes away and what the two have in common. */
  lemma MergeDetermined(s1: seq<Action>, s2: seq<Action>, x: int, y: int, z: int, u: seq<Action>)
    requires Script(s1, 0, 0, x, y) && Script(s2, 0, 0, y, z) && Tidy(s1) && Tidy(s2)
    ensures MergeActions(s1, s2) == Done(u) <==>
      && Script(u, 0, 0, x, z) && Tidy(u) && NoReplace(u) && Coalesced(u)
      && Steps(u) == Compose(Steps(s1), Steps(s2))
      && (forall p, q :: Deletes(u, p, q) <==> TakesAway(s1, p, q) || Overlap(s1, s2, p, q))
  {
    hide Script, Tidy, NoReplace, Coalesced, Steps, Compose, Deletes, TakesAway, Overlap, MergeActions;
    hide Covers1, Covers2, Composed, Matched;
    TidyCovers(s1);
    TidyCovers(s2);
    MergeCorrect(s1, s2, x, y, z, 0, 0);
    MergeIsLinewise(s1, s2, x, y, z);
    var m := MergeActions(s1, s2).value;
    forall p, q
      ensures Deletes(m, p, q) <==> TakesAway(s1, p, q) || Overlap(s1, s2, p, q)
    {
      MergeDeletes(s1, s2, x, y, z, p, q);
    }
    if Script(u, 0, 0, x, z) && Tidy(u) && NoReplace(u) && Coalesced(u) && Steps(u) == Compose(Steps(s1), Steps(s2)) &&
       forall p, q :: Deletes(u, p, q) <==> TakesAway(s1, p, q) || Overlap(s1, s2, p, q)
    {
      assert SameDeletions(m, u);
      NormalForm(m, u, 0, 0, x, z);
    }
  }
}
