/**
  Breadth-first (level) order over the node arena of a Tree.

  Node `i` of an arena has the ordered child list `kids[i]`; node 0 is the
  root. `origin[c]` is the node under which `c` was created: the parent that
  Tree.java's `Node` comment (lines 11-12) says each node points to, kept
  here only as ghost bookkeeping because the Java `parent` field is never
  assigned.
*/
module Traversal {

  /** No node id occurs twice in `s`. */
  ghost predicate Distinct(s: seq<nat>)
  {
    forall i, j :: 0 <= i < j < |s| ==> s[i] != s[j]
  }

  /** The ids in `s` rise strictly from left to right. */
  ghost predicate Increasing(s: seq<nat>)
  {
    forall a, b :: 0 <= a < b < |s| ==> s[a] < s[b]
  }

  /**
    The arena is a tree rooted at node 0: each child id is a later node whose
    origin is the list holding it, no list repeats a child, each list holds
    its children in creation order, and every node other than the root sits
    in the child list of its origin.
  */
  ghost predicate WellFormed(kids: seq<seq<nat>>, origin: seq<nat>)
  {
    && |origin| == |kids|
    && (forall i, c {:trigger c in kids[i]} :: 0 <= i < |kids| && c in kids[i] ==> 0 < c < |kids| && origin[c] == i)
    && (forall i :: 0 <= i < |kids| ==> Distinct(kids[i]))
    && (forall i :: 0 <= i < |kids| ==> Increasing(kids[i]))
    && (forall c :: 0 < c < |kids| ==> origin[c] < c)
    && (forall c {:trigger kids[origin[c]]} :: 0 < c < |kids| ==> c in kids[origin[c]])
  }

  /** Children of the first `k` nodes of `level`, list after list, in the order of `level`. */
  function ChildrenOf(kids: seq<seq<nat>>, level: seq<nat>, k: nat): seq<nat>
    requires k <= |level|
  {
    if k == 0 then []
    else
      var m := level[k - 1];
      ChildrenOf(kids, level, k - 1) + (if m < |kids| then kids[m] else [])
  }

  /** The level below `level`: the children of all its nodes. */
  function Next(kids: seq<seq<nat>>, level: seq<nat>): seq<nat>
  {
    ChildrenOf(kids, level, |level|)
  }

  /** `level`, then the level below it, and so on, for at most `depth` levels. */
  function Levels(kids: seq<seq<nat>>, level: seq<nat>, depth: nat): seq<nat>
    decreases depth
  {
    if depth == 0 || level == [] then [] else level + Levels(kids, Next(kids, level), depth - 1)
  }

  /** Level order of the whole arena: the root's level and every level below it. */
  function LevelOrder(kids: seq<seq<nat>>): seq<nat>
  {
    if kids == [] then [] else Levels(kids, [0], |kids|)
  }

  /** The nodes at distance `d` from the root, left to right. */
  function Level(kids: seq<seq<nat>>, d: nat): seq<nat>
  {
    if d == 0 then [0] else Next(kids, Level(kids, d - 1))
  }

  /** Number of origin links from `c` up to the root. */
  ghost function Depth(origin: seq<nat>, c: nat): nat
    decreases c
  {
    if c == 0 || c >= |origin| || origin[c] >= c then 0 else 1 + Depth(origin, origin[c])
  }

  /**
    Creating node `|kids|` as the last child of node `cur` keeps the arena a
    tree; nothing else about the arena changes.
  */
  lemma {:induction false} GraftKeepsWellFormed(kids: seq<seq<nat>>, origin: seq<nat>, cur: nat)
    requires WellFormed(kids, origin) && cur < |kids|
    ensures WellFormed(kids[cur := kids[cur] + [|kids|]] + [[]], origin + [cur])
  {
    var n := |kids|;
    var kids' := kids[cur := kids[cur] + [n]] + [[]];
    var origin' := origin + [cur];
    forall i, c | 0 <= i < |kids'| && c in kids'[i]
      ensures 0 < c < |kids'| && origin'[c] == i
    {
      if i == cur && c == n {
      } else {
        assert c in kids[i];
      }
    }
    forall i | 0 <= i < |kids'|
      ensures Distinct(kids'[i])
    {
      if i == cur {
        forall x | x in kids[cur] ensures x !in [n] { }
        DistinctAppend(kids[cur], [n]);
      } else if i < n {
        assert kids'[i] == kids[i];
      }
    }
    forall i | 0 <= i < |kids'|
      ensures Increasing(kids'[i])
    {
      if i == cur {
        forall a, b | 0 <= a < b < |kids'[i]| ensures kids'[i][a] < kids'[i][b] {
          assert kids[cur][a] in kids[cur];
          if b == |kids[cur]| {
          } else {
            assert Increasing(kids[cur]);
          }
        }
      } else if i < n {
        assert kids'[i] == kids[i];
      }
    }
    forall c | 0 < c < |kids'|
      ensures c in kids'[origin'[c]]
    {
      if c < n {
        assert c in kids[origin[c]];
      }
    }
  }

  /** The whole child list of each of the first `k` nodes of a level is among their children. */
  lemma {:induction false} ChildInPrefix(kids: seq<seq<nat>>, level: seq<nat>, k: nat, j: nat, x: nat)
    requires j < k <= |level| && level[j] < |kids| && x in kids[level[j]]
    ensures x in ChildrenOf(kids, level, k)
    decreases k
  {
    if j < k - 1 {
      ChildInPrefix(kids, level, k - 1, j, x);
    }
  }

  /** A node's whole child list appears in the next level. */
  lemma ChildInNext(kids: seq<seq<nat>>, level: seq<nat>, j: nat, x: nat)
    requires j < |level| && level[j] < |kids| && x in kids[level[j]]
    ensures x in Next(kids, level)
  {
    ChildInPrefix(kids, level, |level|, j, x);
  }

  /** Every child of the first `k` nodes of a level is a child of one of them. */
  lemma {:induction false} PrefixParent(kids: seq<seq<nat>>, level: seq<nat>, k: nat, x: nat)
    requires k <= |level| && x in ChildrenOf(kids, level, k)
    ensures exists j :: 0 <= j < k && level[j] < |kids| && x in kids[level[j]]
    decreases k
  {
    var m := level[k - 1];
    if !(m < |kids| && x in kids[m]) {
      PrefixParent(kids, level, k - 1, x);
    }
  }

  /** Every member of the next level is a child of some member of `level`. */
  lemma NextParent(kids: seq<seq<nat>>, level: seq<nat>, x: nat)
    requires x in Next(kids, level)
    ensures exists k :: 0 <= k < |level| && level[k] < |kids| && x in kids[level[k]]
  {
    PrefixParent(kids, level, |level|, x);
  }

  lemma {:induction false} DistinctAppend(a: seq<nat>, b: seq<nat>)
    requires Distinct(a) && Distinct(b)
    requires forall x :: x in a ==> x !in b
    ensures Distinct(a + b)
  {
    forall i, j | 0 <= i < j < |a + b|
      ensures (a + b)[i] != (a + b)[j]
    {
      if j < |a| {
      } else if i < |a| {
        assert (a + b)[i] in a && (a + b)[j] in b;
      } else {
        assert (a + b)[i] == b[i - |a|] && (a + b)[j] == b[j - |a|];
      }
    }
  }

  /** The children of the first `k` nodes of a duplicate-free level of a well-formed arena are duplicate-free. */
  lemma {:induction false} PrefixDistinct(kids: seq<seq<nat>>, origin: seq<nat>, level: seq<nat>, k: nat)
    requires WellFormed(kids, origin) && k <= |level|
    requires Distinct(level) && forall x :: x in level ==> x < |kids|
    ensures Distinct(ChildrenOf(kids, level, k))
    decreases k
  {
    if k > 0 {
      var m := level[k - 1];
      assert m in level;
      PrefixDistinct(kids, origin, level, k - 1);
      forall x | x in ChildrenOf(kids, level, k - 1)
        ensures x !in kids[m]
      {
        PrefixParent(kids, level, k - 1, x);
        var j :| 0 <= j < k - 1 && level[j] < |kids| && x in kids[level[j]];
        assert origin[x] == level[j];
      }
      DistinctAppend(ChildrenOf(kids, level, k - 1), kids[m]);
    }
  }

  /** The children of a duplicate-free level of a well-formed arena are duplicate-free. */
  lemma NextDistinct(kids: seq<seq<nat>>, origin: seq<nat>, level: seq<nat>)
    requires WellFormed(kids, origin)
    requires Distinct(level) && forall x :: x in level ==> x < |kids|
    ensures Distinct(Next(kids, level))
  {
    PrefixDistinct(kids, origin, level, |level|);
  }

  /** `s` lists distinct nodes below `n`, all at depth `d`. */
  ghost predicate AtDepth(origin: seq<nat>, s: seq<nat>, n: nat, d: nat)
  {
    Distinct(s) && forall x :: x in s ==> x < n && Depth(origin, x) == d
  }

  /** The level below a level of depth-`d` nodes holds distinct nodes of depth `d + 1`. */
  lemma {:induction false} NextAtDepth(kids: seq<seq<nat>>, origin: seq<nat>, up: seq<nat>, d: nat)
    requires WellFormed(kids, origin) && AtDepth(origin, up, |kids|, d)
    ensures AtDepth(origin, Next(kids, up), |kids|, d + 1)
  {
    NextDistinct(kids, origin, up);
    forall x | x in Next(kids, up)
      ensures x < |kids| && Depth(origin, x) == d + 1
    {
      NextParent(kids, up, x);
      var k :| 0 <= k < |up| && up[k] < |kids| && x in kids[up[k]];
      assert up[k] in up;
      assert 0 < x < |kids| && origin[x] == up[k] < x;
      assert Depth(origin, x) == 1 + Depth(origin, up[k]);
    }
  }

  /** Level `d` lists distinct nodes of the arena, each at depth exactly `d`. */
  lemma {:induction false} LevelFacts(kids: seq<seq<nat>>, origin: seq<nat>, d: nat)
    requires WellFormed(kids, origin) && |kids| > 0
    ensures AtDepth(origin, Level(kids, d), |kids|, d)
  {
    if d > 0 {
      LevelFacts(kids, origin, d - 1);
      NextAtDepth(kids, origin, Level(kids, d - 1), d - 1);
    }
  }

  /** Every node on a level of a well-formed arena is a node of the arena. */
  lemma {:induction false} LevelInArena(kids: seq<seq<nat>>, origin: seq<nat>, d: nat)
    requires WellFormed(kids, origin) && |kids| > 0
    ensures forall x :: x in Level(kids, d) ==> x < |kids|
  {
    LevelFacts(kids, origin, d);
  }

  /** A node whose origin is on level `e` is on level `e + 1`. */
  lemma ChildOnNextLevel(kids: seq<seq<nat>>, origin: seq<nat>, c: nat, e: nat)
    requires WellFormed(kids, origin) && 0 < c < |kids|
    requires origin[c] in Level(kids, e)
    ensures c in Level(kids, e + 1)
  {
    var up := Level(kids, e);
    var k :| 0 <= k < |up| && up[k] == origin[c];
    assert c in kids[origin[c]];
    ChildInNext(kids, up, k, c);
  }

  /** Every node of a well-formed arena lies on the level named by its depth, no deeper than its id. */
  lemma {:induction false} NodeOnItsLevel(kids: seq<seq<nat>>, origin: seq<nat>, c: nat)
    requires WellFormed(kids, origin) && c < |kids|
    ensures Depth(origin, c) <= c
    ensures c in Level(kids, Depth(origin, c))
    decreases c
  {
    if c == 0 {
      assert Level(kids, 0) == [0];
    } else {
      var m := origin[c];
      assert m < c && |origin| == |kids|;
      NodeOnItsLevel(kids, origin, m);
      ChildOnNextLevel(kids, origin, c, Depth(origin, m));
      assert Depth(origin, c) == Depth(origin, m) + 1;
    }
  }

  /** Once a level is empty, every level below it is empty. */
  lemma {:induction false} EmptyLevelStaysEmpty(kids: seq<seq<nat>>, d: nat, e: nat)
    requires d <= e && Level(kids, d) == []
    ensures Level(kids, e) == []
    decreases e - d
  {
    if d < e {
      EmptyLevelStaysEmpty(kids, d + 1, e);
    }
  }

  /** Depths along `s` never decrease. */
  ghost predicate DepthSorted(origin: seq<nat>, s: seq<nat>)
  {
    forall i, j :: 0 <= i < j < |s| ==> Depth(origin, s[i]) <= Depth(origin, s[j])
  }

  /** Appending deeper nodes, themselves in depth order, after nodes of one depth keeps depth order. */
  lemma {:induction false} DepthSortedAppend(origin: seq<nat>, a: seq<nat>, b: seq<nat>, d: nat)
    requires forall x :: x in a ==> Depth(origin, x) == d
    requires forall x :: x in b ==> d < Depth(origin, x)
    requires DepthSorted(origin, b)
    ensures DepthSorted(origin, a + b)
  {
    forall i, j | 0 <= i < j < |a + b|
      ensures Depth(origin, (a + b)[i]) <= Depth(origin, (a + b)[j])
    {
      if j < |a| {
        assert (a + b)[i] in a && (a + b)[j] in a;
      } else if i < |a| {
        assert (a + b)[i] in a && (a + b)[j] in b;
      } else {
        assert (a + b)[i] == b[i - |a|] && (a + b)[j] == b[j - |a|];
      }
    }
  }

  /**
    `s` lists distinct nodes below `n`, none shallower than `d`, with depths
    never decreasing from left to right.
  */
  ghost predicate DeepOrder(origin: seq<nat>, s: seq<nat>, n: nat, d: nat)
  {
    && Distinct(s)
    && (forall x :: x in s ==> x < n && d <= Depth(origin, x))
    && DepthSorted(origin, s)
  }

  /**
    Starting from a group `here` of distinct depth-`d` nodes, the group and
    up to `depth - 1` generations below it, concatenated, list distinct
    nodes, each at depth `d` or more, with depths never decreasing from left
    to right.
  */
  lemma {:induction false} LevelsOrdered(kids: seq<seq<nat>>, origin: seq<nat>, here: seq<nat>, d: nat, depth: nat)
    requires WellFormed(kids, origin) && AtDepth(origin, here, |kids|, d)
    ensures DeepOrder(origin, Levels(kids, here, depth), |kids|, d)
    decreases depth
  {
    if depth > 0 && here != [] {
      var below := Next(kids, here);
      NextAtDepth(kids, origin, here, d);
      LevelsOrdered(kids, origin, below, d + 1, depth - 1);
      assert Levels(kids, here, depth) == here + Levels(kids, below, depth - 1);
      JoinLevels(origin, here, Levels(kids, below, depth - 1), |kids|, d);
    }
  }

  /**
    Nodes of one depth `d` followed by deeper nodes in depth order: the
    concatenation keeps every property level order needs.
  */
  lemma {:induction false} JoinLevels(origin: seq<nat>, here: seq<nat>, rest: seq<nat>, n: nat, d: nat)
    requires AtDepth(origin, here, n, d)
    requires DeepOrder(origin, rest, n, d + 1)
    ensures DeepOrder(origin, here + rest, n, d)
  {
    forall x | x in here
      ensures x !in rest
    {
      assert Depth(origin, x) == d;
    }
    DistinctAppend(here, rest);
    DepthSortedAppend(origin, here, rest, d);
  }

  /** What occurs in either part occurs in the concatenation. */
  lemma {:induction false} InEither(x: nat, a: seq<nat>, b: seq<nat>)
    requires x in a || x in b
    ensures x in a + b
  {
    if x in a {
      var i :| 0 <= i < |a| && a[i] == x;
      assert (a + b)[i] == x;
    } else {
      var i :| 0 <= i < |b| && b[i] == x;
      assert (a + b)[|a| + i] == x;
    }
  }

  /** A non-empty level followed by the levels below it. */
  lemma {:induction false} LevelsUnfold(kids: seq<seq<nat>>, d: nat, depth: nat)
    requires depth > 0 && Level(kids, d) != []
    ensures Levels(kids, Level(kids, d), depth) == Level(kids, d) + Levels(kids, Level(kids, d + 1), depth - 1)
  {
    assert Next(kids, Level(kids, d)) == Level(kids, d + 1);
  }

  /** Every node of levels `d` up to `d + depth - 1` occurs in their concatenation. */
  lemma {:induction false} LevelsCover(kids: seq<seq<nat>>, d: nat, depth: nat, k: nat, x: nat)
    requires d <= k < d + depth && x in Level(kids, k)
    ensures x in Levels(kids, Level(kids, d), depth)
    decreases depth
  {
    if Level(kids, d) == [] {
      EmptyLevelStaysEmpty(kids, d, k);
    } else {
      LevelsUnfold(kids, d, depth);
      if k > d {
        LevelsCover(kids, d + 1, depth - 1, k, x);
      }
      InEither(x, Level(kids, d), Levels(kids, Level(kids, d + 1), depth - 1));
    }
  }

  /** A node has a child exactly when some node was created under it. */
  lemma {:induction false} HasChildIff(kids: seq<seq<nat>>, origin: seq<nat>, m: nat)
    requires WellFormed(kids, origin) && m < |kids|
    ensures kids[m] != [] <==> exists c :: 0 < c < |kids| && origin[c] == m
  {
    if kids[m] != [] {
      assert kids[m][0] in kids[m];
    }
    if c :| 0 < c < |kids| && origin[c] == m {
      assert c in kids[origin[c]];
    }
  }

  /**
    A non-empty level `d + 1` lies within the depth budget of a level-order
    listing that started at the root, and opens the remainder of that listing.
  */
  lemma {:induction false} LevelOpens(kids: seq<seq<nat>>, origin: seq<nat>, d: nat)
    requires WellFormed(kids, origin) && |kids| > 0 && d < |kids| && Level(kids, d + 1) != []
    ensures d + 1 < |kids|
    ensures Levels(kids, Level(kids, d + 1), |kids| - d - 1)
      == Level(kids, d + 1) + Levels(kids, Level(kids, d + 2), |kids| - d - 2)
  {
    var x := Level(kids, d + 1)[0];
    LevelFacts(kids, origin, d + 1);
    assert x in Level(kids, d + 1);
    NodeOnItsLevel(kids, origin, x);
  }

  /**
    The state of a queue-driven breadth-first walk standing at entry `i` of
    level `d`: the queue holds the rest of that level followed by the
    children of its first `i` nodes, and what the walk has output (`done`)
    followed by what it is still to output is the whole level order.
  */
  ghost predicate Walk(kids: seq<seq<nat>>, d: nat, i: nat, queue: seq<nat>, done: seq<nat>)
  {
    && d < |kids|
    && i <= |Level(kids, d)|
    && queue == Level(kids, d)[i..] + ChildrenOf(kids, Level(kids, d), i)
    && done + Level(kids, d)[i..] + Levels(kids, Level(kids, d + 1), |kids| - d - 1) == LevelOrder(kids)
  }

  /** A walk over a non-empty arena starts with only the root queued and nothing output. */
  lemma {:induction false} WalkStarts(kids: seq<seq<nat>>)
    requires |kids| > 0
    ensures Walk(kids, 0, 0, [0], [])
  {
    assert Level(kids, 0) == [0] && Next(kids, [0]) == Level(kids, 1);
    assert LevelOrder(kids) == [0] + Levels(kids, Level(kids, 1), |kids| - 1);
  }

  /** An exhausted level whose successor is non-empty hands the walk over to that level. */
  lemma {:induction false} WalkDescends(kids: seq<seq<nat>>, origin: seq<nat>, d: nat, queue: seq<nat>, done: seq<nat>)
    requires WellFormed(kids, origin)
    requires Walk(kids, d, |Level(kids, d)|, queue, done) && queue != []
    ensures Walk(kids, d + 1, 0, queue, done)
  {
    var level, below := Level(kids, d), Level(kids, d + 1);
    assert queue == level[|level|..] + below;
    LevelOpens(kids, origin, d);
    var rest := Levels(kids, Level(kids, d + 2), |kids| - d - 2);
    Regroup(done, level[|level|..], below, rest);
  }

  /**
    Sequence bookkeeping for `WalkDescends` only: once the current level is
    used up (`gap` is its empty remainder), the queue and the pending output
    regroup as "next level from index 0". It states nothing about trees.
  */
  lemma {:induction false} Regroup(done: seq<nat>, gap: seq<nat>, below: seq<nat>, rest: seq<nat>)
    requires gap == []
    ensures done + gap + (below + rest) == done + below[0..] + rest
    ensures gap + below == below[0..] + []
  {
    assert below[0..] == below;
  }

  /**
    Serving the front of a queue that holds `level[i..]` and then `below`:
    the front is `level[i]`, the remaining queue followed by `extra` is the
    rest of the level followed by `below + extra`, and the output grown by
    `level[i]` still lines up with what remains to be output.
  */
  lemma {:induction false} Serve(level: seq<nat>, i: nat, below: seq<nat>, extra: seq<nat>, done: seq<nat>, rest: seq<nat>)
    requires i < |level|
    ensures (level[i..] + below)[0] == level[i]
    ensures (level[i..] + below)[1..] + extra == level[i + 1..] + (below + extra)
    ensures done + [level[i]] + level[i + 1..] + rest == done + level[i..] + rest
  {
    assert level[i..] == [level[i]] + level[i + 1..];
    assert (level[i..] + below)[1..] == level[i + 1..] + below;
    assert done + [level[i]] + level[i + 1..] == done + level[i..];
  }

  /** Inside a level, the front of the queue is the level's next node, and serving it moves the walk on. */
  lemma {:induction false} WalkAdvances(kids: seq<seq<nat>>, origin: seq<nat>, d: nat, i: nat, queue: seq<nat>, done: seq<nat>)
    requires WellFormed(kids, origin) && Walk(kids, d, i, queue, done) && i < |Level(kids, d)|
    ensures queue[0] < |kids|
    ensures Walk(kids, d, i + 1, queue[1..] + kids[queue[0]], done + [queue[0]])
  {
    var level := Level(kids, d);
    var below := ChildrenOf(kids, level, i);
    LevelInArena(kids, origin, d);
    assert level[i] in level;
    var extra := kids[level[i]];
    Serve(level, i, below, extra, done, Levels(kids, Level(kids, d + 1), |kids| - d - 1));
    assert ChildrenOf(kids, level, i + 1) == below + extra;
  }

  /**
    Taking the front node off the queue, outputting it and queuing its
    children is again a state of the walk.
  */
  lemma {:induction false} WalkStep(kids: seq<seq<nat>>, origin: seq<nat>, d: nat, i: nat, queue: seq<nat>, done: seq<nat>)
    returns (d': nat, i': nat)
    requires WellFormed(kids, origin) && Walk(kids, d, i, queue, done) && queue != []
    ensures queue[0] < |kids|
    ensures Walk(kids, d', i', queue[1..] + kids[queue[0]], done + [queue[0]])
  {
    if i == |Level(kids, d)| {
      WalkDescends(kids, origin, d, queue, done);
      WalkAdvances(kids, origin, d + 1, 0, queue, done);
      d', i' := d + 1, 1;
    } else {
      WalkAdvances(kids, origin, d, i, queue, done);
      d', i' := d, i + 1;
    }
  }

  /** A walk whose queue has run dry has output the whole level order. */
  lemma {:induction false} WalkEnds(kids: seq<seq<nat>>, d: nat, i: nat, done: seq<nat>)
    requires Walk(kids, d, i, [], done)
    ensures done == LevelOrder(kids)
  {
    var level := Level(kids, d);
    assert i == |level|;
    assert Level(kids, d + 1) == [];
  }

  /** A duplicate-free sequence of the ids below `n` that misses none of them has length `n`. */
  lemma {:induction false} DistinctCoverLength(s: seq<nat>, n: nat)
    requires Distinct(s)
    requires forall x: nat :: x in s <==> x < n
    ensures |s| == n
    decreases |s|
  {
    if s == [] {
      assert 0 in s <==> 0 < n;
    } else {
      assert s[0] in s;
      assert n - 1 in s;
      var k :| 0 <= k < |s| && s[k] == n - 1;
      var t := s[..k] + s[k + 1..];
      assert Distinct(t) by {
        forall i, j | 0 <= i < j < |t| ensures t[i] != t[j] {
          var i' := if i < k then i else i + 1;
          var j' := if j < k then j else j + 1;
          assert t[i] == s[i'] && t[j] == s[j'];
        }
      }
      forall x: nat | x in t
        ensures x < n - 1
      {
        var i :| 0 <= i < |t| && t[i] == x;
        var i' := if i < k then i else i + 1;
        assert x == s[i'] && i' != k;
        assert s[i'] in s;
      }
      forall x: nat | x < n - 1
        ensures x in t
      {
        assert x in s;
        var i :| 0 <= i < |s| && s[i] == x;
        assert i != k;
        assert t[if i < k then i else i - 1] == x;
      }
      DistinctCoverLength(t, n - 1);
    }
  }

  /**
    Level order of a well-formed, non-empty arena starts at the root, visits
    every node exactly once (so it has one entry per node) and never visits a
    node before a shallower one.
  */
  lemma {:induction false} LevelOrderVisitsEveryNodeOnce(kids: seq<seq<nat>>, origin: seq<nat>)
    requires WellFormed(kids, origin) && |kids| > 0
    ensures |LevelOrder(kids)| == |kids| && LevelOrder(kids)[0] == 0
    ensures Distinct(LevelOrder(kids))
    ensures forall x: nat :: x in LevelOrder(kids) <==> x < |kids|
    ensures DepthSorted(origin, LevelOrder(kids))
  {
    var order := LevelOrder(kids);
    assert order == Levels(kids, Level(kids, 0), |kids|);
    LevelFacts(kids, origin, 0);
    LevelsOrdered(kids, origin, [0], 0, |kids|);
    forall x: nat | x < |kids| ensures x in order {
      NodeOnItsLevel(kids, origin, x);
      LevelsCover(kids, 0, |kids|, Depth(origin, x), x);
    }
    DistinctCoverLength(order, |kids|);
  }
}
