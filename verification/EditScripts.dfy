/** Edit scripts between two files: contiguous lists of actions, each covering a half-open
    range of lines of either file, and the pairs of lines they match. */
module EditScripts {

  datatype Op = Equal | Insert | Delete | Replace | Other(name: string)

  /** One action: lines [b1, e1) of the first file against lines [b2, e2) of the second. */
  datatype Action = Action(op: Op, b1: int, e1: int, b2: int, e2: int)

  /** The result of a computation whose assertions and matches may fail. */
  datatype Outcome<+T> = Done(value: T) | Failed {
    predicate IsFailure() {
      Failed?
    }

    function PropagateFailure<U>(): Outcome<U>
      requires Failed?
    {
      Failed
    }

    function Extract(): T
      requires Done?
    {
      value
    }
  }

  /** The ranges of an action fit its operation. */
  predicate Proper(a: Action) {
    && a.b1 <= a.e1 && a.b2 <= a.e2
    && match a.op
       case Equal => a.e1 - a.b1 == a.e2 - a.b2
       case Insert => a.b1 == a.e1
       case Delete => a.b2 == a.e2
       case Replace => true
       case Other(_) => false
  }

  /** s leads from position (x, y) to position (x', y') without gap or overlap. */
  predicate Script(s: seq<Action>, x: int, y: int, x': int, y': int) {
    if s == [] then x == x' && y == y'
    else
      && Proper(s[0]) && s[0].b1 == x && s[0].b2 == y
      && Script(s[1..], s[0].e1, s[0].e2, x', y')
  }

  /** Whether the action matches line i of the first file with line j of the second. */
  predicate Hits(a: Action, i: int, j: int) {
    a.op.Equal? && a.b1 <= i < a.e1 && j == i - a.b1 + a.b2
  }

  predicate Matched(s: seq<Action>, i: int, j: int) {
    s != [] && (Hits(s[0], i, j) || Matched(s[1..], i, j))
  }

  /** No action is empty, so nothing in the script could be left out. */
  predicate Tidy(s: seq<Action>) {
    s == [] || ((s[0].op.Insert? || s[0].b1 < s[0].e1) && (s[0].op.Delete? || s[0].b2 < s[0].e2) && Tidy(s[1..]))
  }

  predicate NoReplace(s: seq<Action>) {
    s == [] || (!s[0].op.Replace? && NoReplace(s[1..]))
  }

  lemma {:induction false} ScriptMonotone(s: seq<Action>, x: int, y: int, x': int, y': int)
    requires Script(s, x, y, x', y')
    ensures x <= x' && y <= y'
    decreases |s|
  {
    if s == [] {
    } else {
      ScriptMonotone(s[1..], s[0].e1, s[0].e2, x', y');
    }
  }

  /** A script only matches lines inside the part of the files it covers. */
  lemma {:induction false} MatchedInside(s: seq<Action>, x: int, y: int, x': int, y': int, i: int, j: int)
    requires Script(s, x, y, x', y') && Matched(s, i, j)
    ensures x <= i < x' && y <= j < y'
    decreases |s|
  {
    ScriptMonotone(s[1..], s[0].e1, s[0].e2, x', y');
    if !Hits(s[0], i, j) {
      MatchedInside(s[1..], s[0].e1, s[0].e2, x', y', i, j);
    }
  }
}
