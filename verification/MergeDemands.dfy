/** What the merger's assertions and matches demand of arbitrary lists of actions, scripts or not:
    where it succeeds, these conditions hold. */
module MergeDemands {
  import opened EditScripts
  import opened ActionsMerger
  import opened ActionsMergerProofs

  /** Deletions cover no line of B. */
  ghost predicate DeletesNothing(s: seq<Action>) {
    forall a :: a in s && a.op.Delete? ==> a.b2 == a.e2
  }

  /** Insertions cover no line of B. */
  ghost predicate InsertsNothing(s: seq<Action>) {
    forall b :: b in s && b.op.Insert? ==> b.b1 == b.e1
  }

  lemma MembersOf(a: Action, s: seq<Action>, c: Action)
    ensures c in [a] + s <==> c == a || c in s
  {
  }

  /** A split that succeeds ends its parts exactly at the breakpoints, none of which lies beyond
      the action that it cuts. */
  lemma {:induction false} Split1Demands(s: seq<Action>, r: seq<int>)
    requires SplitActions1(s, r).Done?
    ensures Ends1(SplitActions1(s, r).value) == r && DeletesNothing(s)
    ensures s != [] && !s[0].op.Delete? ==>
      && r != [] && r[0] <= s[0].e2
      && (r[0] < s[0].e2 ==> s[0].op.Equal? || (s[0].op.Insert? && s[0].b1 == s[0].e1))
    decreases |s| + |r|
  {
    if s != [] {
      var (a, t) := (s[0], s[1..]);
      assert s == [a] + t;
      if a.op.Delete? {
        Split1Demands(t, r);
        assert SplitActions1(s, r).value[1..] == SplitActions1(t, r).value;
      } else if r[0] == a.e2 {
        Split1Demands(t, r[1..]);
        assert SplitActions1(s, r).value[1..] == SplitActions1(t, r[1..]).value;
      } else {
        var (b, c) := (Before1(a, r[0]), Behind1(a, r[0]));
        Split1Demands([c] + t, r[1..]);
        assert SplitActions1(s, r).value[1..] == SplitActions1([c] + t, r[1..]).value;
        assert forall d :: d in t ==> d in [c] + t;
      }
    }
  }

  lemma {:induction false} Split2Demands(s: seq<Action>, r: seq<int>)
    requires SplitActions2(s, r).Done?
    ensures InsertsNothing(s)
    ensures forall e :: e in Ends2(SplitActions2(s, r).value) ==> e in r
    ensures s != [] && !s[0].op.Insert? ==>
      && r != [] && r[0] <= s[0].e1
      && (r[0] < s[0].e1 && r[0] != s[0].b1 ==> s[0].op.Equal? || (s[0].op.Delete? && s[0].b2 == s[0].e2))
    decreases |s| + |r|
  {
    if s != [] {
      var (a, t) := (s[0], s[1..]);
      assert s == [a] + t;
      if a.op.Insert? {
        Split2Demands(t, r);
        assert SplitActions2(s, r).value[1..] == SplitActions2(t, r).value;
      } else if r[0] == a.b1 {
        Split2Demands(s, r[1..]);
      } else if r[0] == a.e1 {
        Split2Demands(t, r[1..]);
        assert SplitActions2(s, r).value[1..] == SplitActions2(t, r[1..]).value;
      } else {
        var (b, c) := (Before2(a, r[0]), Behind2(a, r[0]));
        Split2Demands([c] + t, r[1..]);
        assert SplitActions2(s, r).value[1..] == SplitActions2([c] + t, r[1..]).value;
        assert forall d :: d in t ==> d in [c] + t;
      }
    }
  }

  /** The lines of B that the actions of either list cover, in order. */
  function Spans1(s: seq<Action>): seq<(int, int)> {
    if s == [] then [] else (if s[0].op.Delete? then [] else [(s[0].b2, s[0].e2)]) + Spans1(s[1..])
  }

  function Spans2(s: seq<Action>): seq<(int, int)> {
    if s == [] then [] else (if s[0].op.Insert? then [] else [(s[0].b1, s[0].e1)]) + Spans2(s[1..])
  }

  /** Zipping succeeds only on lists of known operations that cover the same lines of B, in the
      same pieces, and that meet wherever one deletes or inserts. */
  lemma {:induction false} ZipDemands(s1: seq<Action>, s2: seq<Action>, last1: int, last3: int)
    requires MergeBase(s1, s2, last1, last3).Done?
    ensures Spans1(s1) == Spans2(s2)
    ensures forall a :: a in s1 ==> a.op.Equal? || a.op.Insert? || a.op.Delete?
    ensures forall b :: b in s2 ==> b.op.Equal? || b.op.Insert? || b.op.Delete?
    ensures s1 != [] && s2 != [] ==> s1[0].b2 == s2[0].b1 && last1 <= s1[0].e1 && last3 <= s2[0].e2
    ensures s1 != [] && s2 != [] && s1[0].op.Insert? && s2[0].op.Equal? ==> s1[0].b1 == s1[0].e1
    ensures s1 != [] && s2 != [] && s1[0].op.Equal? && s2[0].op.Delete? ==> s2[0].b2 == s2[0].e2
    ensures s1 != [] && s2 != [] && s1[0].op.Delete? ==> s1[0].b2 == s1[0].e2
    ensures s1 != [] && s2 != [] && !s1[0].op.Delete? && s2[0].op.Insert? ==> s2[0].b1 == s2[0].e1
    decreases |s1| + |s2|
  {
    assert s1 != [] ==> s1 == [s1[0]] + s1[1..];
    assert s2 != [] ==> s2 == [s2[0]] + s2[1..];
    if s1 != [] && s2 != [] {
      var (a, b) := (s1[0], s2[0]);
      if a.op.Delete? {
        ZipDemands(s1[1..], s2, a.e1, b.e2);
      } else if b.op.Insert? {
        ZipDemands(s1, s2[1..], a.e1, b.e2);
      } else if a.op.Insert? && b.op.Delete? {
        ZipDemands(s1[1..], s2[1..], last1, last3);
      } else {
        ZipDemands(s1[1..], s2[1..], a.e1, b.e2);
      }
    } else if s2 != [] {
      ZipDemands([], s2[1..], last1, s2[0].e2);
    } else if s1 != [] {
      ZipDemands(s1[1..], [], s1[0].e1, last3);
    }
  }

  /** Coalescing succeeds only if what it joins is adjacent. */
  lemma {:induction false} CombineDemands(s: seq<Action>, k: nat)
    requires MergeCombine(s).Done? && k + 1 < |s|
    ensures s[k].op.Equal? && s[k + 1].op.Equal? ==> s[k].e1 == s[k + 1].b1 && s[k].e2 == s[k + 1].b2
    ensures s[k].op.Insert? && s[k + 1].op.Insert? ==>
      s[k].b1 == s[k].e1 == s[k + 1].b1 == s[k + 1].e1 && s[k].e2 == s[k + 1].b2
    decreases |s|
  {
    var (a, b) := (s[0], s[1]);
    if k > 0 {
      if a.op.Equal? && b.op.Equal? {
        var t := [Action(Equal, a.b1, b.e1, a.b2, b.e2)] + s[2..];
        CombineDemands(t, k - 1);
        assert t[k] == s[k + 1] && (k > 1 ==> t[k - 1] == s[k]);
      } else if a.op.Insert? && b.op.Insert? {
        var t := [Action(Insert, a.b1, a.e1, a.b2, b.e2)] + s[2..];
        CombineDemands(t, k - 1);
        assert t[k] == s[k + 1] && (k > 1 ==> t[k - 1] == s[k]);
      } else {
        CombineDemands(s[1..], k - 1);
        assert s[1..][k - 1] == s[k] && s[1..][k] == s[k + 1];
      }
    }
  }

  /** Every operation of a list is one of its parts' after a split. */
  lemma {:induction false} OpsKept1(s: seq<Action>, r: seq<int>, a: Action)
    requires SplitActions1(s, r).Done? && a in s
    ensures exists c :: c in SplitActions1(s, r).value && c.op == a.op
    decreases |s| + |r|
  {
    var (h, t, u) := (s[0], s[1..], SplitActions1(s, r).value);
    assert s == [h] + t && u[0].op == h.op && u[0] in u;
    if a != h {
      if h.op.Delete? {
        OpsKept1(t, r, a);
        assert u == [h] + SplitActions1(t, r).value;
      } else if r[0] == h.e2 {
        OpsKept1(t, r[1..], a);
        assert u == [h] + SplitActions1(t, r[1..]).value;
      } else {
        OpsKept1([Behind1(h, r[0])] + t, r[1..], a);
        assert u == [Before1(h, r[0])] + SplitActions1([Behind1(h, r[0])] + t, r[1..]).value;
      }
    }
  }

  lemma {:induction false} OpsKept2(s: seq<Action>, r: seq<int>, a: Action)
    requires SplitActions2(s, r).Done? && a in s
    ensures exists c :: c in SplitActions2(s, r).value && c.op == a.op
    decreases |s| + |r|
  {
    var (h, t, u) := (s[0], s[1..], SplitActions2(s, r).value);
    assert s == [h] + t;
    if !h.op.Insert? && r[0] == h.b1 {
      OpsKept2(s, r[1..], a);
    } else {
      assert u[0].op == h.op && u[0] in u;
      if a != h {
        if h.op.Insert? {
          OpsKept2(t, r, a);
          assert u == [h] + SplitActions2(t, r).value;
        } else if r[0] == h.e1 {
          OpsKept2(t, r[1..], a);
          assert u == [h] + SplitActions2(t, r[1..]).value;
        } else {
          OpsKept2([Behind2(h, r[0])] + t, r[1..], a);
          assert u == [Before2(h, r[0])] + SplitActions2([Behind2(h, r[0])] + t, r[1..]).value;
        }
      }
    }
  }

  lemma {:induction false} PreprocKeepsOthers(s: seq<Action>, a: Action)
    requires a in s && !a.op.Replace?
    ensures a in Preproc(s)
  {
    assert s == [s[0]] + s[1..];
    if a != s[0] {
      PreprocKeepsOthers(s[1..], a);
    }
  }

  /** On arbitrary lists the merger fails on an unknown operation in either list, on a deletion of
      the first that reaches into B, and on an insertion of the second that does. */
  lemma MergeAccepts(s1: seq<Action>, s2: seq<Action>, a: Action, b: Action)
    requires MergeActions(s1, s2).Done?
    ensures a in s1 ==> !a.op.Other? && (a.op.Delete? ==> a.b2 == a.e2)
    ensures b in s2 ==> !b.op.Other? && (b.op.Insert? ==> b.b1 == b.e1)
  {
    hide Preproc, GetRanges, SplitActions1, SplitActions2, MergeBase, MergeCombine, Ends1, Ends2, Spans1, Spans2;
    var (t1, t2) := (Preproc(s1), Preproc(s2));
    var r := GetRanges(t1, t2);
    var (u1, u2) := (SplitActions1(t1, r).value, SplitActions2(t2, r).value);
    Split1Demands(t1, r);
    Split2Demands(t2, r);
    ZipDemands(u1, u2, 0, 0);
    if a in s1 && !a.op.Replace? {
      PreprocKeepsOthers(s1, a);
      OpsKept1(t1, r, a);
    }
    if b in s2 && !b.op.Replace? {
      PreprocKeepsOthers(s2, b);
      OpsKept2(t2, r, b);
    }
  }
}
