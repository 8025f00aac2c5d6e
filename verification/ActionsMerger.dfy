/** Composing two edit scripts A -> B and B -> C into one A -> C, as common/actions_merger.ml
    does: split both at their common breakpoints in B, zip them, and coalesce. */
module ActionsMerger {
  import opened EditScripts

  /** The line numbers of B at which either script has an action end, in merged order. */
  function GetRangesBase(s1: seq<Action>, s2: seq<Action>): seq<int>
    decreases |s1| + |s2|
  {
    if s1 == [] && s2 == [] then []
    else if s1 == [] then [s2[0].e1] + GetRangesBase([], s2[1..])
    else if s2 == [] then [s1[0].e2] + GetRangesBase(s1[1..], [])
    else
      var end, end' := s1[0].e2, s2[0].e1;
      if end < end' then [end] + GetRangesBase(s1[1..], s2)
      else if end' < end then [end'] + GetRangesBase(s1, s2[1..])
      else [end] + GetRangesBase(s1[1..], s2[1..])
  }

  /** Drops zeros and repetitions. */
  function Dedupe(r: seq<int>): seq<int>
    decreases |r|
  {
    if r != [] && r[0] == 0 then Dedupe(r[1..])
    else if |r| >= 2 then
      if r[0] == r[1] then Dedupe([r[0]] + r[2..]) else [r[0]] + Dedupe(r[1..])
    else r
  }

  function GetRanges(s1: seq<Action>, s2: seq<Action>): seq<int> {
    Dedupe(GetRangesBase(s1, s2))
  }

  /** The two parts of an equal or insert action of A -> B cut at line r of B. */
  function Before1(a: Action, r: int): Action {
    var len := r - a.b2;
    if a.op.Equal? then Action(Equal, a.b1, a.b1 + len, a.b2, a.b2 + len)
    else Action(a.op, a.b1, a.b1, a.b2, a.b2 + len)
  }

  function Behind1(a: Action, r: int): Action {
    var len := r - a.b2;
    if a.op.Equal? then Action(Equal, a.b1 + len, a.e1, a.b2 + len, a.e2)
    else Action(a.op, a.b1, a.b1, a.b2 + len, a.e2)
  }

  /** The two parts of an equal or delete action of B -> C cut at line r of B. */
  function Before2(a: Action, r: int): Action {
    var len := r - a.b1;
    if a.op.Equal? then Action(Equal, a.b1, a.b1 + len, a.b2, a.b2 + len)
    else Action(a.op, a.b1, a.b1 + len, a.b2, a.b2)
  }

  function Behind2(a: Action, r: int): Action {
    var len := r - a.b1;
    if a.op.Equal? then Action(Equal, a.b1 + len, a.e1, a.b2 + len, a.e2)
    else Action(a.op, a.b1 + len, a.e1, a.b2, a.e2)
  }

  /** Splits the actions of A -> B at the given lines of B. */
  function SplitActions1(s: seq<Action>, ranges: seq<int>): Outcome<seq<Action>>
    decreases |s| + |ranges|
  {
    if s == [] then if ranges == [] then Done([]) else Failed
    else
      var a := s[0];
      if a.op.Delete? then
        if a.b2 != a.e2 then Failed
        else
          var rest :- SplitActions1(s[1..], ranges);
          Done([a] + rest)
      else if ranges == [] then Failed
      else
        var r := ranges[0];
        if !(r <= a.e2) then Failed
        else if r == a.e2 then
          var rest :- SplitActions1(s[1..], ranges[1..]);
          Done([a] + rest)
        else if a.op.Equal? || (a.op.Insert? && a.b1 == a.e1) then
          var rest :- SplitActions1([Behind1(a, r)] + s[1..], ranges[1..]);
          Done([Before1(a, r)] + rest)
        else Failed
  }

  /** Splits the actions of B -> C at the given lines of B. */
  function SplitActions2(s: seq<Action>, ranges: seq<int>): Outcome<seq<Action>>
    decreases |s| + |ranges|
  {
    if s == [] then if ranges == [] then Done([]) else Failed
    else
      var a := s[0];
      if a.op.Insert? then
        if a.b1 != a.e1 then Failed
        else
          var rest :- SplitActions2(s[1..], ranges);
          Done([a] + rest)
      else if ranges == [] then Failed
      else
        var r := ranges[0];
        if !(r <= a.e1) then Failed
        else if r == a.b1 then SplitActions2(s, ranges[1..])
        else if r == a.e1 then
          var rest :- SplitActions2(s[1..], ranges[1..]);
          Done([a] + rest)
        else if a.op.Equal? || (a.op.Delete? && a.b2 == a.e2) then
          var rest :- SplitActions2([Behind2(a, r)] + s[1..], ranges[1..]);
          Done([Before2(a, r)] + rest)
        else Failed
  }

  /** Zips two scripts that are split at the same lines of B. last1 and last3 are the ends in A
      and C of what has been handled. */
  function MergeBase(s1: seq<Action>, s2: seq<Action>, last1: int, last3: int): Outcome<seq<Action>>
    decreases |s1| + |s2|
  {
    if s1 != [] && s2 != [] then
      var (a, b) := (s1[0], s2[0]);
      if a.b2 != b.b1 || !(last1 <= a.e1 && last3 <= b.e2) then Failed
      else if a.op.Delete? then
        if a.b2 != a.e2 then Failed
        else
          var rest :- MergeBase(s1[1..], s2, a.e1, b.e2);
          Done([Action(Delete, a.b1, a.e1, b.b2, b.b2)] + rest)
      else if b.op.Insert? then
        if b.b1 != b.e1 then Failed
        else
          var rest :- MergeBase(s1, s2[1..], a.e1, b.e2);
          Done([Action(Insert, a.b1, a.b1, b.b2, b.e2)] + rest)
      else if a.e2 != b.e1 then Failed
      else
        match (a.op, b.op)
        case (Equal, Equal) =>
          var rest :- MergeBase(s1[1..], s2[1..], a.e1, b.e2);
          Done([Action(Equal, a.b1, a.e1, b.b2, b.e2)] + rest)
        case (Insert, Equal) =>
          if a.b1 != a.e1 then Failed
          else
            var rest :- MergeBase(s1[1..], s2[1..], a.e1, b.e2);
            Done([Action(Insert, a.b1, a.e1, b.b2, b.e2)] + rest)
        case (Equal, Delete) =>
          if b.b2 != b.e2 then Failed
          else
            var rest :- MergeBase(s1[1..], s2[1..], a.e1, b.e2);
            Done([Action(Delete, a.b1, a.e1, b.b2, b.e2)] + rest)
        case (Insert, Delete) =>
          MergeBase(s1[1..], s2[1..], last1, last3)
        case _ => Failed
    else if s1 == [] && s2 != [] then
      var b := s2[0];
      if b.op.Insert? then
        var rest :- MergeBase([], s2[1..], last1, b.e2);
        Done([Action(Insert, last1, last1, b.b2, b.e2)] + rest)
      else Failed
    else if s1 != [] then
      var a := s1[0];
      if a.op.Delete? then
        var rest :- MergeBase(s1[1..], [], a.e1, last3);
        Done([Action(Delete, a.b1, a.e1, last3, last3)] + rest)
      else Failed
    else Done([])
  }

  /** Joins neighbouring equal actions and neighbouring insertions. */
  function MergeCombine(s: seq<Action>): Outcome<seq<Action>>
    decreases |s|
  {
    if |s| <= 1 then Done(s)
    else
      var (a, b) := (s[0], s[1]);
      if a.op.Equal? && b.op.Equal? then
        if !(a.e1 == b.b1 && a.e2 == b.b2) then Failed
        else MergeCombine([Action(Equal, a.b1, b.e1, a.b2, b.e2)] + s[2..])
      else if a.op.Insert? && b.op.Insert? then
        if !(a.b1 == a.e1 && a.b1 == b.b1 && a.b1 == b.e1 && a.e2 == b.b2) then Failed
        else MergeCombine([Action(Insert, a.b1, a.e1, a.b2, b.e2)] + s[2..])
      else
        var rest :- MergeCombine(s[1..]);
        Done([a] + rest)
  }

  /** Replaces every replacement by a deletion and an insertion. */
  function Preproc(s: seq<Action>): seq<Action> {
    if s == [] then []
    else
      var a := s[0];
      if a.op.Replace? then
        [Action(Delete, a.b1, a.e1, a.b2, a.b2), Action(Insert, a.e1, a.e1, a.b2, a.e2)] + Preproc(s[1..])
      else [a] + Preproc(s[1..])
  }

  function MergeActions(s1: seq<Action>, s2: seq<Action>): Outcome<seq<Action>> {
    var (t1, t2) := (Preproc(s1), Preproc(s2));
    var ranges := GetRanges(t1, t2);
    var u1 :- SplitActions1(t1, ranges);
    var u2 :- SplitActions2(t2, ranges);
    var zipped :- MergeBase(u1, u2, 0, 0);
    MergeCombine(zipped)
  }
}
