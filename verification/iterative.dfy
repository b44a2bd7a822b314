/** `iterative_minimax_strategy`: minimax without recursion. Nodes wait on
    an explicit stack; a node popped for the first time is pushed back with
    its children above it, and popped the second time it takes the best of
    its children's scores. The Python nodes are objects shared between the
    stack and their parent's `children` list; here they live in an arena (a
    list of records) and both the stack and `children` hold arena
    positions. */
module Iterative {
  import opened Basics
  import opened SeqMax
  import opened Stacks
  import opened Nodes
  import opened Games
  import opened Minimax

  type Tree = Node<Position, Move>

  /** The variables of the strategy between two passes of its loop: every
      node made so far, the stack, and `best_move`. */
  datatype Search = Search(arena: seq<Tree>, stack: Stack<nat>, best: Option<Move>)

  // ---------------------------------------------------------------------
  // One pass of the loop

  /** Before the loop: a single node for the current state, on the stack. */
  function Start(root: Position): (s: Search)
    ensures |s.arena| == 1 && s.arena[0].state == root && s.arena[0].score == None
    ensures s.stack.items == [0] && s.best == None
  {
    Search([NewNode(root, None)], Add(New(), 0), None)
  }

  /** The arena position of the node on top of the stack. */
  function Top(s: Search): nat
    requires |s.stack.items| > 0
  {
    Remove(s.stack).0
  }

  /** `stack.append(node)` for each node of `xs`, in order. */
  function PushAll(st: Stack<nat>, xs: seq<nat>): (r: Stack<nat>)
    ensures r.items == st.items + xs
    decreases |xs|
  {
    if xs == [] then st
    else
      var r := PushAll(Add(st, xs[0]), xs[1..]);
      assert st.items + xs == st.items + [xs[0]] + xs[1..];
      r
  }

  /** What a pass of the loop needs in order not to fail: a node on the
      stack, in a position the game accepts, whose children (if it has any)
      have scores, since `child.score * -1` fails on `None`. */
  predicate Ready(s: Search)
  {
    && |s.stack.items| > 0
    && Top(s) < |s.arena|
    && Valid(s.arena[Top(s)].state)
    && var cs := s.arena[Top(s)].children;
       forall i | 0 <= i < |cs| :: cs[i] < |s.arena| && s.arena[cs[i]].score.Some?
  }

  /** The scores of the children, negated: `[child.score * -1 for child in children]`. */
  function ChildScores(a: seq<Tree>, cs: seq<nat>): (scores: seq<int>)
    requires forall i | 0 <= i < |cs| :: cs[i] < |a| && a[cs[i]].score.Some?
    ensures |scores| == |cs|
    ensures forall i | 0 <= i < |cs| :: scores[i] + a[cs[i]].score.value == 0
  {
    seq(|cs|, i requires 0 <= i < |cs| => -a[cs[i]].score.value)
  }

  /** A popped node whose game is over: scored 1, -1 or 0 for the player to
      move, and not pushed back. */
  function Terminal(s: Search): (r: Search)
    requires Ready(s)
    ensures |r.stack.items| + 1 == |s.stack.items|
    ensures r.stack.items == s.stack.items[..|s.stack.items| - 1]
    ensures |r.arena| == |s.arena| && r.arena[Top(s)].score == Some(TerminalValue(s.arena[Top(s)].state))
    ensures r.arena[Top(s)].state == s.arena[Top(s)].state && r.arena[Top(s)].children == s.arena[Top(s)].children
    ensures forall k | 0 <= k < |s.arena| && k != Top(s) :: r.arena[k] == s.arena[k]
    ensures r.best == s.best
  {
    var (t, below) := Remove(s.stack);
    var top := s.arena[t];
    Search(s.arena[t := top.(score := Some(TerminalValue(top.state)))], below, s.best)
  }

  /** The arena positions `n`, `n + 1`, ... of `count` new nodes. */
  function Fresh(n: nat, count: nat): (ids: seq<nat>)
    ensures |ids| == count
    ensures forall i | 0 <= i < count :: ids[i] == n + i
  {
    seq(count, i requires 0 <= i < count => n + i)
  }

  /** `Node(new_state, move)` for each state and its move, in order. */
  function NewNodes<S, M>(states: seq<S>, moves: seq<M>): (ns: seq<Node<S, M>>)
    requires |states| == |moves|
    ensures |ns| == |moves|
    ensures forall i | 0 <= i < |ns| :: ns[i] == NewNode(states[i], Some(moves[i]))
  {
    seq(|moves|, i requires 0 <= i < |moves| => NewNode(states[i], Some(moves[i])))
  }

  /** The arena after expanding node `t`: the new nodes go at the end and
      their positions become `t`'s children. */
  function Grow<S, M>(a: seq<Node<S, M>>, t: nat, states: seq<S>, moves: seq<M>): (a': seq<Node<S, M>>)
    requires t < |a| && |states| == |moves|
    ensures |a'| == |a| + |moves|
  {
    a[t := a[t].(children := Fresh(|a|, |moves|))] + NewNodes(states, moves)
  }

  /** Growing the arena touches only the children of `t`; the new nodes
      are unscored and childless. */
  lemma GrowFresh<S, M>(a: seq<Node<S, M>>, t: nat, states: seq<S>, moves: seq<M>)
    requires t < |a| && |states| == |moves|
    ensures var a' := Grow(a, t, states, moves);
      && (forall k | 0 <= k < |a| && k != t :: a'[k] == a[k])
      && a'[t] == a[t].(children := Fresh(|a|, |moves|))
      && (forall k | |a| <= k < |a'| :: a'[k].children == [] && a'[k].score == None)
  {
    var a' := Grow(a, t, states, moves);
    forall k | |a| <= k < |a'|
      ensures a'[k].children == [] && a'[k].score == None
    {
      assert a'[k] == NewNodes(states, moves)[k - |a|];
    }
  }

  /** The new nodes of a grown arena hold the given states and moves, in order. */
  lemma GrowNew<S, M>(a: seq<Node<S, M>>, t: nat, states: seq<S>, moves: seq<M>)
    requires t < |a| && |states| == |moves|
    ensures var a' := Grow(a, t, states, moves);
      forall k | |a| <= k < |a'| :: a'[k].state == states[k - |a|] && a'[k].move == Some(moves[k - |a|])
  {
    var a' := Grow(a, t, states, moves);
    forall k | |a| <= k < |a'|
      ensures a'[k].state == states[k - |a|] && a'[k].move == Some(moves[k - |a|])
    {
      assert a'[k] == NewNodes(states, moves)[k - |a|];
    }
  }

  /** A popped node seen for the first time: one new node per move, in move
      order, becomes its children; it goes back on the stack and its
      children above it, the last move's child on top. */
  function Expand(s: Search): (r: Search)
    requires Ready(s)
    ensures |r.arena| == |s.arena| + |Moves(s.arena[Top(s)].state)|
    ensures |r.stack.items| == |s.stack.items| + |Moves(s.arena[Top(s)].state)|
    ensures r.best == s.best
  {
    var (t, below) := Remove(s.stack);
    var p := s.arena[t].state;
    var ms := Moves(p);
    Search(Grow(s.arena, t, ChildStates(p), ms), PushAll(Add(below, t), Fresh(|s.arena|, |ms|)), s.best)
  }

  /** A popped node seen for the second time: it takes the largest negated
      child score; when it was the last node on the stack, `best_move` is
      the move of its first child with that score. */
  function Finish(s: Search): (r: Search)
    requires Ready(s) && s.arena[Top(s)].children != []
    ensures |r.stack.items| + 1 == |s.stack.items|
    ensures r.best != s.best ==> |r.stack.items| == 0
  {
    var (t, below) := Remove(s.stack);
    var top := s.arena[t];
    var scores := ChildScores(s.arena, top.children);
    var best := if IsEmpty(below) then s.arena[top.children[IndexOf(scores, Max(scores))]].move else s.best;
    Search(s.arena[t := top.(score := Some(Max(scores)))], below, best)
  }

  /** One pass of the `while len(stack) != 0` loop. */
  function Step(s: Search): (r: Search)
    requires Ready(s)
    ensures r.best != s.best ==> |r.stack.items| == 0
  {
    var top := s.arena[Top(s)];
    if IsOver(top.state) then Terminal(s)
    else if top.children == [] then Expand(s)
    else Finish(s)
  }

  // ---------------------------------------------------------------------
  // The invariant of the loop

  /** Arena position `c` holds the node for move `i` of position `p`. */
  ghost predicate ChildOk(a: seq<Tree>, p: Position, i: nat, c: nat)
    requires Valid(p) && i < |Moves(p)|
  {
    c < |a| && a[c].state == Child(p, i) && a[c].move == Some(Moves(p)[i])
  }

  /** An expanded node: its game is not over and its children are the
      nodes of its moves, in move order. */
  ghost predicate ExpandedOk(a: seq<Tree>, n: Tree)
    requires Valid(n.state)
  {
    && !IsOver(n.state)
    && |n.children| == |Moves(n.state)|
    && forall i | 0 <= i < |n.children| :: ChildOk(a, n.state, i, n.children[i])
  }

  /** Every node: a sound position, a score only if it is the negamax value,
      and children only once expanded. */
  ghost predicate NodeOk(a: seq<Tree>, n: Tree)
  {
    && Sound(n.state)
    && (n.score.Some? ==> n.score.value == Negamax(n.state))
    && (n.children != [] ==> ExpandedOk(a, n))
  }

  /** The node at arena position `k` is as `NodeOk` says. */
  ghost predicate NodeAt(a: seq<Tree>, k: nat)
    requires k < |a|
  {
    NodeOk(a, a[k])
  }

  ghost predicate ArenaOk(a: seq<Tree>)
  {
    forall k | 0 <= k < |a| :: NodeAt(a, k)
  }

  /** Every child of the node at stack position `j` is scored already or
      waits higher up the stack. */
  ghost predicate Awaiting<S, M>(a: seq<Node<S, M>>, st: seq<nat>, j: nat)
    requires j < |st| && st[j] < |a|
  {
    forall c | c in a[st[j]].children :: c < |a| && (a[c].score.Some? || c in st[j + 1..])
  }

  /** The stack holds distinct unscored nodes, each waiting only on nodes
      above it. */
  ghost predicate StackOk<S, M>(a: seq<Node<S, M>>, st: seq<nat>)
  {
    && (forall j | 0 <= j < |st| :: st[j] < |a| && a[st[j]].score.None?)
    && (forall j, j' | 0 <= j < j' < |st| :: st[j] != st[j'])
    && (forall j | 0 <= j < |st| :: Awaiting(a, st, j))
  }

  /** The move every exhaustive strategy picks, or none from a finished position. */
  ghost function Expected(root: Position): Option<Move>
    requires Sound(root)
  {
    if IsOver(root) then None else Some(Moves(root)[BestIndex(root)])
  }

  /** The root node stays at the bottom of the stack until it is scored, and
      `best_move` is set exactly when the stack empties. */
  ghost predicate RootOk(root: Position, s: Search)
    requires Sound(root)
  {
    && |s.arena| > 0 && s.arena[0].state == root
    && (|s.stack.items| > 0 ==> s.stack.items[0] == 0 && s.best == None)
    && (|s.stack.items| == 0 ==> s.best == Expected(root))
  }

  ghost predicate Inv(root: Position, s: Search)
  {
    && Sound(root)
    && ArenaOk(s.arena)
    && StackOk(s.arena, s.stack.items)
    && RootOk(root, s)
  }

  /** The arena keeps every node's position and move; it may only grow. */
  ghost predicate SameShape<S, M>(a: seq<Node<S, M>>, a': seq<Node<S, M>>)
  {
    && |a| <= |a'|
    && forall k | 0 <= k < |a| :: a'[k].state == a[k].state && a'[k].move == a[k].move
  }

  // ---------------------------------------------------------------------
  // The termination measure

  /** The passes of the loop a node costs from the moment it is pushed
      unexpanded: one if its game is over, else one to expand it, the
      passes of its children, and one to score it. */
  ghost function Work(p: Position): (w: nat)
    ensures w >= 1
    decreases Rank(p), 1
  {
    if !Valid(p) || IsOver(p) then 1 else 2 + Total(ChildWork(p))
  }

  ghost function ChildWork(p: Position): (ws: seq<nat>)
    requires Valid(p)
    ensures |ws| == |Moves(p)|
    decreases Rank(p), 0
  {
    var ms := Moves(p);
    seq(|ms|, i requires 0 <= i < |ms| => Work(Child(p, i)))
  }

  ghost function Total(ws: seq<nat>): nat
  {
    if ws == [] then 0 else Total(ws[..|ws| - 1]) + ws[|ws| - 1]
  }

  /** The passes a node on the stack still costs: all its work if it is not
      expanded, otherwise the one pass that scores it. */
  ghost function Weight(a: seq<Tree>, k: nat): nat
  {
    if k < |a| then (if a[k].children == [] then Work(a[k].state) else 1) else 0
  }

  /** The weights of the nodes at arena positions `xs`, in order. */
  ghost function Weights(a: seq<Tree>, xs: seq<nat>): (ws: seq<nat>)
    ensures |ws| == |xs|
  {
    seq(|xs|, i requires 0 <= i < |xs| => Weight(a, xs[i]))
  }

  /** The passes of the loop still to come. */
  ghost function Pending(s: Search): nat
  {
    Total(Weights(s.arena, s.stack.items))
  }

  lemma {:induction false} TotalAppend(u: seq<nat>, v: seq<nat>)
    ensures Total(u + v) == Total(u) + Total(v)
    decreases |v|
  {
    if v == [] {
      assert u + v == u;
    } else {
      var n := |v|;
      TotalAppend(u, v[..n - 1]);
      assert (u + v)[..|u + v| - 1] == u + v[..n - 1];
    }
  }

  lemma WeightsAppend(a: seq<Tree>, xs: seq<nat>, ys: seq<nat>)
    ensures Weights(a, xs + ys) == Weights(a, xs) + Weights(a, ys)
  {
    var l := Weights(a, xs + ys);
    var r := Weights(a, xs) + Weights(a, ys);
    forall i | 0 <= i < |l|
      ensures l[i] == r[i]
    {
      if i < |xs| {
        assert (xs + ys)[i] == xs[i];
      } else {
        assert (xs + ys)[i] == ys[i - |xs|];
      }
    }
  }

  lemma WeightsOne(a: seq<Tree>, k: nat)
    ensures Weights(a, [k]) == [Weight(a, k)]
  {
  }

  /** The weights of two runs of nodes add up. */
  lemma WeightsSplit(a: seq<Tree>, xs: seq<nat>, ys: seq<nat>)
    ensures Total(Weights(a, xs + ys)) == Total(Weights(a, xs)) + Total(Weights(a, ys))
  {
    WeightsAppend(a, xs, ys);
    TotalAppend(Weights(a, xs), Weights(a, ys));
  }

  /** The weight of a run of nodes is that of all but the last, plus the last. */
  lemma WeightsLast(a: seq<Tree>, xs: seq<nat>)
    requires |xs| > 0
    ensures Total(Weights(a, xs)) == Total(Weights(a, xs[..|xs| - 1])) + Weight(a, xs[|xs| - 1])
  {
    var k := xs[|xs| - 1];
    SplitLast(xs);
    WeightsSplit(a, xs[..|xs| - 1], [k]);
    WeightsOne(a, k);
    assert [Weight(a, k)][..0] == [];
  }

  lemma FreshSnoc(n: nat, m: nat)
    ensures Fresh(n, m + 1) == Fresh(n, m) + [n + m]
  {
  }

  /** Nodes at consecutive arena positions with the given weights weigh,
      in all, the total of those weights. */
  lemma {:induction false} WeightsFresh(a: seq<Tree>, n: nat, ws: seq<nat>)
    requires forall k | n <= k < n + |ws| :: Weight(a, k) == ws[k - n]
    ensures Total(Weights(a, Fresh(n, |ws|))) == Total(ws)
    decreases |ws|
  {
    if ws == [] {
      assert Weights(a, Fresh(n, 0)) == [];
    } else {
      var m := |ws| - 1;
      var init := ws[..m];
      assert forall j | 0 <= j < m :: init[j] == ws[j];
      WeightsFresh(a, n, init);
      FreshSnoc(n, m);
      WeightsSplit(a, Fresh(n, m), [n + m]);
      WeightsOne(a, n + m);
      assert Total([Weight(a, n + m)]) == Weight(a, n + m) == ws[m];
      assert Total(ws) == Total(init) + ws[m];
    }
  }

  lemma WeightsFrame(a: seq<Tree>, a': seq<Tree>, xs: seq<nat>)
    requires forall j | 0 <= j < |xs| :: Weight(a, xs[j]) == Weight(a', xs[j])
    ensures Weights(a, xs) == Weights(a', xs)
  {
  }
  /** Positions holding the same node in two arenas weigh the same. */
  lemma SameNodes(a: seq<Tree>, a': seq<Tree>, xs: seq<nat>)
    requires |a| <= |a'|
    requires forall j | 0 <= j < |xs| :: xs[j] < |a| && a'[xs[j]] == a[xs[j]]
    ensures Total(Weights(a, xs)) == Total(Weights(a', xs))
  {
    WeightsFrame(a, a', xs);
  }


  // ---------------------------------------------------------------------
  // The invariant is kept

  lemma ExpandedFrame(a: seq<Tree>, a': seq<Tree>, n: Tree)
    requires Valid(n.state) && ExpandedOk(a, n) && SameShape(a, a')
    ensures ExpandedOk(a', n)
  {
    forall i | 0 <= i < |n.children|
      ensures ChildOk(a', n.state, i, n.children[i])
    {
      assert ChildOk(a, n.state, i, n.children[i]);
    }
  }

  lemma NodeFrame(a: seq<Tree>, a': seq<Tree>, n: Tree)
    requires NodeOk(a, n) && SameShape(a, a')
    ensures NodeOk(a', n)
  {
    if n.children != [] {
      ExpandedFrame(a, a', n);
    }
  }

  /** The starting search satisfies the invariant. */
  lemma StartOk(root: Position)
    requires Sound(root)
    ensures Inv(root, Start(root))
  {
    var a := Start(root).arena;
    assert NodeAt(a, 0);
  }

  /** A node popped off a search in the invariant can be processed: in
      particular, once a node is back on top of the stack after its
      expansion, every one of its children has been scored. */
  lemma InvReady(root: Position, s: Search)
    requires Inv(root, s) && |s.stack.items| > 0
    ensures Ready(s)
  {
    var st := s.stack.items;
    var j := |st| - 1;
    assert Top(s) == st[j];
    assert NodeAt(s.arena, st[j]);
    assert Awaiting(s.arena, st, j);
    assert st[j + 1..] == [];
  }

  /** Giving arena node `t` its negamax value keeps the arena invariant. */
  lemma ScoreArena(a: seq<Tree>, t: nat, v: int)
    requires ArenaOk(a) && t < |a|
    requires Sound(a[t].state) && v == Negamax(a[t].state)
    ensures SameShape(a, a[t := a[t].(score := Some(v))])
    ensures ArenaOk(a[t := a[t].(score := Some(v))])
  {
    var a' := a[t := a[t].(score := Some(v))];
    assert SameShape(a, a');
    forall k | 0 <= k < |a'|
      ensures NodeAt(a', k)
    {
      assert NodeAt(a, k);
      NodeFrame(a, a', a[k]);
    }
  }

  /** Scoring the top node and popping it keeps the stack invariant: the
      nodes below never waited on anything but scored nodes and nodes above
      them. */
  lemma ScoreStack(a: seq<Tree>, st: seq<nat>, v: int)
    requires StackOk(a, st) && |st| > 0
    ensures StackOk(a[st[|st| - 1] := a[st[|st| - 1]].(score := Some(v))], st[..|st| - 1])
  {
    var t := st[|st| - 1];
    var below := st[..|st| - 1];
    var a' := a[t := a[t].(score := Some(v))];
    forall j | 0 <= j < |below|
      ensures below[j] < |a'| && a'[below[j]].score.None?
    {
      assert below[j] == st[j] != t;
    }
    forall j | 0 <= j < |below|
      ensures Awaiting(a', below, j)
    {
      assert below[j] == st[j] != t;
      assert Awaiting(a, st, j);
      assert st[j + 1..] == below[j + 1..] + [t];
    }
  }

  /** Scoring the top node and popping it takes its weight, at least one
      pass, off the passes still to come: a score does not change any
      node's weight. */
  lemma ScorePending(a: seq<Tree>, st: seq<nat>, v: int)
    requires |st| > 0 && st[|st| - 1] < |a|
    ensures Total(Weights(a[st[|st| - 1] := a[st[|st| - 1]].(score := Some(v))], st[..|st| - 1]))
      < Total(Weights(a, st))
  {
    var t := st[|st| - 1];
    var a' := a[t := a[t].(score := Some(v))];
    var below := st[..|st| - 1];
    WeightsFrame(a, a', below);
    WeightsLast(a, st);
  }

  /** Giving the node on top its negamax value and popping it keeps the
      arena and the stack in the invariant, and takes one pass off the
      passes still to come. */
  lemma ScoreTopKeeps(s: Search, v: int)
    requires ArenaOk(s.arena) && StackOk(s.arena, s.stack.items) && |s.stack.items| > 0
    requires Sound(s.arena[Top(s)].state) && v == Negamax(s.arena[Top(s)].state)
    ensures var a' := s.arena[Top(s) := s.arena[Top(s)].(score := Some(v))];
      && ArenaOk(a')
      && StackOk(a', Remove(s.stack).1.items)
      && Total(Weights(a', Remove(s.stack).1.items)) < Pending(s)
  {
    var st := s.stack.items;
    assert Top(s) == st[|st| - 1] && Remove(s.stack).1.items == st[..|st| - 1];
    ScoreArena(s.arena, Top(s), v);
    ScoreStack(s.arena, st, v);
    ScorePending(s.arena, st, v);
  }

  /** A finished node on top: scored and popped. */
  lemma TerminalKeeps(root: Position, s: Search)
    requires Inv(root, s) && Ready(s) && IsOver(s.arena[Top(s)].state)
    ensures Inv(root, Terminal(s)) && Pending(Terminal(s)) < Pending(s)
  {
    var t := Top(s);
    var p := s.arena[t].state;
    assert NodeAt(s.arena, t);
    ScoreTopKeeps(s, TerminalValue(p));
    var st := s.stack.items;
    assert t == st[|st| - 1];
  }

  /** Once every child of an expanded node is scored, the negated child
      scores are the values of the node's moves. */
  lemma ScoredChildren(a: seq<Tree>, n: Tree)
    requires ArenaOk(a) && NodeOk(a, n) && n.children != []
    requires forall i | 0 <= i < |n.children| :: n.children[i] < |a| && a[n.children[i]].score.Some?
    ensures !IsOver(n.state) && ChildScores(a, n.children) == ChildValues(n.state)
  {
    var p := n.state;
    var ms := Moves(p);
    var scores := ChildScores(a, n.children);
    forall i | 0 <= i < |ms|
      ensures scores[i] == ChildValues(p)[i]
    {
      var c := n.children[i];
      assert ChildOk(a, p, i, c);
      assert NodeAt(a, c);
    }
  }

  /** At the root, the move an expanded node picks once it is the last on
      the stack is the first best move. */
  lemma FinishRoot(root: Position, s: Search)
    requires Inv(root, s) && Ready(s)
    requires !IsOver(s.arena[Top(s)].state) && s.arena[Top(s)].children != []
    ensures RootOk(root, Finish(s))
  {
    var a := s.arena;
    var t := Top(s);
    var top := a[t];
    var st := s.stack.items;
    assert t == st[|st| - 1];
    if |st| == 1 {
      assert NodeAt(a, t);
      ScoredChildren(a, top);
      var scores := ChildScores(a, top.children);
      var k := IndexOf(scores, Max(scores));
      assert ChildOk(a, top.state, k, top.children[k]);
    }
  }

  /** An expanded node back on top: every child has its negamax value, so
      the largest negated child score is the node's own negamax value. */
  lemma FinishKeeps(root: Position, s: Search)
    requires Inv(root, s) && Ready(s)
    requires !IsOver(s.arena[Top(s)].state) && s.arena[Top(s)].children != []
    ensures Inv(root, Finish(s)) && Pending(Finish(s)) < Pending(s)
  {
    var a := s.arena;
    var top := a[Top(s)];
    assert NodeAt(a, Top(s));
    ScoredChildren(a, top);
    ScoreTopKeeps(s, Max(ChildScores(a, top.children)));
    FinishRoot(root, s);
  }

  /** A node seen for the first time: the nodes it does not touch keep the
      arena invariant, since the arena only grows. */
  lemma ExpandArenaOld(s: Search)
    requires ArenaOk(s.arena) && Ready(s)
    ensures SameShape(s.arena, Expand(s).arena)
    ensures forall k | 0 <= k < |s.arena| && k != Top(s) :: NodeAt(Expand(s).arena, k)
  {
    ExpandShape(s);
    var a := s.arena;
    var t := Top(s);
    var p := a[t].state;
    GrowFresh(a, t, ChildStates(p), Moves(p));
    var a' := Expand(s).arena;
    assert SameShape(a, a');
    forall k | 0 <= k < |a| && k != t
      ensures NodeAt(a', k)
    {
      assert NodeAt(a, k);
      NodeFrame(a, a', a[k]);
    }
  }

  /** After growing, the children of `t` are the nodes of the moves of `p`,
      in move order. */
  lemma GrowTop(a: seq<Tree>, t: nat, p: Position)
    requires t < |a| && Valid(p)
    ensures var a' := Grow(a, t, ChildStates(p), Moves(p));
      forall i | 0 <= i < |Moves(p)| :: ChildOk(a', p, i, Fresh(|a|, |Moves(p)|)[i])
  {
    var cs := ChildStates(p);
    var a' := Grow(a, t, cs, Moves(p));
    var ids := Fresh(|a|, |Moves(p)|);
    GrowNew(a, t, cs, Moves(p));
    forall i | 0 <= i < |Moves(p)|
      ensures ChildOk(a', p, i, ids[i])
    {
      var k := ids[i];
      assert k == |a| + i && k - |a| == i;
      assert a'[k].state == cs[i];
    }
  }

  /** A node seen for the first time: after expansion its children are the
      nodes of its moves, in move order. */
  lemma ExpandArenaTop(s: Search)
    requires ArenaOk(s.arena) && Ready(s)
    requires !IsOver(s.arena[Top(s)].state) && s.arena[Top(s)].children == []
    ensures NodeAt(Expand(s).arena, Top(s))
  {
    ExpandShape(s);
    var a := s.arena;
    var t := Top(s);
    var p := a[t].state;
    GrowFresh(a, t, ChildStates(p), Moves(p));
    GrowTop(a, t, p);
    assert NodeAt(a, t);
    var a' := Expand(s).arena;
    assert ExpandedOk(a', a'[t]);
  }

  /** The moves of a sound position that is not over lead to sound positions. */
  lemma ChildStatesSound(p: Position)
    requires Sound(p) && !IsOver(p)
    ensures forall i | 0 <= i < |ChildStates(p)| :: Sound(ChildStates(p)[i])
  {
    forall i | 0 <= i < |ChildStates(p)|
      ensures Sound(ChildStates(p)[i])
    {
      assert Sound(Child(p, i));
    }
  }

  /** The new nodes of a grown arena hold sound positions, unscored and
      not yet expanded. */
  lemma GrowNodes(a: seq<Tree>, t: nat, p: Position)
    requires t < |a| && Sound(p) && !IsOver(p)
    ensures var a' := Grow(a, t, ChildStates(p), Moves(p));
      forall k | |a| <= k < |a'| :: NodeAt(a', k)
  {
    var cs := ChildStates(p);
    var a' := Grow(a, t, cs, Moves(p));
    ChildStatesSound(p);
    GrowFresh(a, t, cs, Moves(p));
    GrowNew(a, t, cs, Moves(p));
    forall k | |a| <= k < |a'|
      ensures NodeAt(a', k)
    {
      assert Sound(cs[k - |a|]);
    }
  }

  /** A node seen for the first time: its new children are sound, unscored
      and not yet expanded. */
  lemma ExpandArenaNew(s: Search)
    requires ArenaOk(s.arena) && Ready(s)
    requires !IsOver(s.arena[Top(s)].state) && s.arena[Top(s)].children == []
    ensures forall k | |s.arena| <= k < |Expand(s).arena| :: NodeAt(Expand(s).arena, k)
  {
    ExpandShape(s);
    assert NodeAt(s.arena, Top(s));
    GrowNodes(s.arena, Top(s), s.arena[Top(s)].state);
  }

  /** A node seen for the first time: its new children are sound positions
      that fit the moves, and nothing else in the arena changes. */
  lemma ExpandArena(s: Search)
    requires ArenaOk(s.arena) && Ready(s)
    requires !IsOver(s.arena[Top(s)].state) && s.arena[Top(s)].children == []
    ensures SameShape(s.arena, Expand(s).arena) && ArenaOk(Expand(s).arena)
  {
    ExpandArenaOld(s);
    ExpandArenaTop(s);
    ExpandArenaNew(s);
  }


  /** A non-empty stack is the part below its top, then its top. */
  lemma SplitLast(st: seq<nat>)
    requires |st| > 0
    ensures st == st[..|st| - 1] + [st[|st| - 1]]
  {
  }

  /** What `Expand` does to the stack and which arena it builds. */
  lemma ExpandShape(s: Search)
    requires Ready(s)
    ensures var t := Top(s); var p := s.arena[t].state; var r := Expand(s);
      && t == s.stack.items[|s.stack.items| - 1]
      && r.arena == Grow(s.arena, t, ChildStates(p), Moves(p))
      && r.stack.items == s.stack.items + Fresh(|s.arena|, |Moves(p)|)
  {
    SplitLast(s.stack.items);
  }

  /** The stack invariant survives putting fresh unscored, childless nodes
      above the top node and making them its children. */
  lemma PushFreshStack<S, M>(a: seq<Node<S, M>>, a': seq<Node<S, M>>, st: seq<nat>, m: nat)
    requires StackOk(a, st) && |st| > 0
    requires |a'| == |a| + m
    requires forall k | 0 <= k < |a| :: a'[k].score == a[k].score
    requires forall k | 0 <= k < |a| && k != st[|st| - 1] :: a'[k].children == a[k].children
    requires a'[st[|st| - 1]].children == Fresh(|a|, m)
    requires forall k | |a| <= k < |a'| :: a'[k].children == [] && a'[k].score == None
    ensures StackOk(a', st + Fresh(|a|, m))
  {
    var n := |a|;
    var ids := Fresh(n, m);
    var st' := st + ids;
    forall j | 0 <= j < |st'|
      ensures st'[j] < |a'| && a'[st'[j]].score.None?
    {
      if j >= |st| {
        assert st'[j] == n + (j - |st|);
      }
    }
    forall j, j' | 0 <= j < j' < |st'|
      ensures st'[j] != st'[j']
    {
      if j' >= |st| {
        assert st'[j'] == n + (j' - |st|);
      }
    }
    PushFreshAwaiting(a, a', st, m);
  }

  lemma PushFreshAwaiting<S, M>(a: seq<Node<S, M>>, a': seq<Node<S, M>>, st: seq<nat>, m: nat)
    requires StackOk(a, st) && |st| > 0
    requires |a'| == |a| + m
    requires forall k | 0 <= k < |a| :: a'[k].score == a[k].score
    requires forall k | 0 <= k < |a| && k != st[|st| - 1] :: a'[k].children == a[k].children
    requires a'[st[|st| - 1]].children == Fresh(|a|, m)
    requires forall k | |a| <= k < |a'| :: a'[k].children == [] && a'[k].score == None
    ensures forall j | 0 <= j < |st + Fresh(|a|, m)| ::
      (st + Fresh(|a|, m))[j] < |a'| && Awaiting(a', st + Fresh(|a|, m), j)
  {
    var n := |a|;
    var ids := Fresh(n, m);
    var st' := st + ids;
    forall j | 0 <= j < |st'|
      ensures st'[j] < |a'| && Awaiting(a', st', j)
    {
      if j < |st| - 1 {
        assert st'[j] == st[j] != st[|st| - 1];
        assert Awaiting(a, st, j);
        assert st'[j + 1..] == st[j + 1..] + ids;
      } else if j == |st| - 1 {
        assert st'[j + 1..] == ids;
      } else {
        assert st'[j] == n + (j - |st|);
      }
    }
  }

  /** A node seen for the first time: it stays on the stack below its new
      children, which are distinct, unscored and waited on by it alone. */
  lemma ExpandStack(s: Search)
    requires StackOk(s.arena, s.stack.items) && Ready(s)
    requires s.arena[Top(s)].children == [] && s.arena[Top(s)].score == None
    ensures StackOk(Expand(s).arena, Expand(s).stack.items)
  {
    ExpandShape(s);
    var a := s.arena;
    var p := a[Top(s)].state;
    GrowFresh(a, Top(s), ChildStates(p), Moves(p));
    PushFreshStack(a, Expand(s).arena, s.stack.items, |Moves(p)|);
  }

  /** Arena positions `n` onwards hold one childless node per move of `p`,
      with the position that move leads to. */
  ghost predicate ChildNodes(a: seq<Tree>, n: nat, p: Position)
    requires Valid(p)
  {
    && n + |Moves(p)| <= |a|
    && forall k | n <= k < n + |Moves(p)| :: a[k].children == [] && a[k].state == ChildStates(p)[k - n]
  }

  /** Fresh children, unexpanded and holding the positions the moves of
      `p` lead to, weigh in all the work of the children of `p`. */
  lemma FreshWeights(a: seq<Tree>, n: nat, p: Position)
    requires Valid(p) && ChildNodes(a, n, p)
    ensures Total(Weights(a, Fresh(n, |Moves(p)|))) == Total(ChildWork(p))
  {
    var ws := ChildWork(p);
    forall k | n <= k < n + |ws|
      ensures Weight(a, k) == ws[k - n]
    {
      assert a[k].state == Child(p, k - n);
    }
    WeightsFresh(a, n, ws);
  }

  /** The nodes growing the arena adds for `p` are childless and hold the
      positions its moves lead to, in order. */
  lemma GrowChildNodes(a: seq<Tree>, t: nat, p: Position)
    requires t < |a| && Valid(p)
    ensures ChildNodes(Grow(a, t, ChildStates(p), Moves(p)), |a|, p)
  {
    GrowFresh(a, t, ChildStates(p), Moves(p));
    GrowNew(a, t, ChildStates(p), Moves(p));
  }

  /** So the new children weigh, in all, the work of the children of `p`. */
  lemma GrowWeights(a: seq<Tree>, t: nat, p: Position)
    requires t < |a| && Valid(p)
    ensures Total(Weights(Grow(a, t, ChildStates(p), Moves(p)), Fresh(|a|, |Moves(p)|))) == Total(ChildWork(p))
  {
    GrowChildNodes(a, t, p);
    FreshWeights(Grow(a, t, ChildStates(p), Moves(p)), |a|, p);
  }

  /** Before its expansion, the node on top weighs two more than the work
      of its children, on top of the weights below it. */
  lemma ExpandWeightsBefore(s: Search)
    requires Ready(s) && Sound(s.arena[Top(s)].state)
    requires !IsOver(s.arena[Top(s)].state) && s.arena[Top(s)].children == []
    ensures var st := s.stack.items;
      Pending(s) == Total(Weights(s.arena, st[..|st| - 1])) + 2 + Total(ChildWork(s.arena[Top(s)].state))
  {
    var st := s.stack.items;
    assert Top(s) == st[|st| - 1];
    WeightsLast(s.arena, st);
  }

  /** After its expansion, the node weighs one: the pass that scores it. */
  lemma ExpandTopWeight(s: Search)
    requires Ready(s) && Sound(s.arena[Top(s)].state)
    requires !IsOver(s.arena[Top(s)].state) && s.arena[Top(s)].children == []
    ensures Weight(Expand(s).arena, Top(s)) == 1
  {
    ExpandShape(s);
    var a := s.arena;
    var p := a[Top(s)].state;
    GrowFresh(a, Top(s), ChildStates(p), Moves(p));
    assert |Moves(p)| > 0;
    assert Fresh(|a|, |Moves(p)|)[0] == |a|;
  }

  /** The nodes below the one being expanded keep their weights. */
  lemma ExpandBelowWeights(s: Search)
    requires StackOk(s.arena, s.stack.items) && Ready(s)
    ensures var st := s.stack.items; var below := st[..|st| - 1];
      Total(Weights(s.arena, below)) == Total(Weights(Expand(s).arena, below))
  {
    ExpandShape(s);
    var a := s.arena;
    var st := s.stack.items;
    var t := Top(s);
    var p := a[t].state;
    GrowFresh(a, t, ChildStates(p), Moves(p));
    var a' := Expand(s).arena;
    var below := st[..|st| - 1];
    forall j | 0 <= j < |below|
      ensures below[j] < |a| && a'[below[j]] == a[below[j]]
    {
      assert below[j] == st[j] != st[|st| - 1];
    }
    SameNodes(a, a', below);
  }

  /** After expanding, the stack weighs what was below the node, one for
      the node itself, and the work of each child. */
  lemma ExpandWeightsAfter(s: Search)
    requires StackOk(s.arena, s.stack.items) && Ready(s) && Sound(s.arena[Top(s)].state)
    requires !IsOver(s.arena[Top(s)].state) && s.arena[Top(s)].children == []
    ensures var st := s.stack.items;
      Pending(Expand(s)) == Total(Weights(s.arena, st[..|st| - 1])) + 1 + Total(ChildWork(s.arena[Top(s)].state))
  {
    ExpandShape(s);
    var st := s.stack.items;
    var t := Top(s);
    var p := s.arena[t].state;
    var a' := Expand(s).arena;
    WeightsSplit(a', st, Fresh(|s.arena|, |Moves(p)|));
    WeightsLast(a', st);
    ExpandTopWeight(s);
    ExpandBelowWeights(s);
    GrowWeights(s.arena, t, p);
  }

  /** A node seen for the first time: its work is one pass for expanding
      it, one for scoring it later and the work of its children, so the
      passes still to come drop by one. */
  lemma ExpandPending(s: Search)
    requires StackOk(s.arena, s.stack.items) && Ready(s) && Sound(s.arena[Top(s)].state)
    requires !IsOver(s.arena[Top(s)].state) && s.arena[Top(s)].children == []
    ensures Pending(Expand(s)) < Pending(s)
  {
    ExpandWeightsAfter(s);
    ExpandWeightsBefore(s);
  }

  lemma ExpandKeeps(root: Position, s: Search)
    requires Inv(root, s) && Ready(s)
    requires !IsOver(s.arena[Top(s)].state) && s.arena[Top(s)].children == []
    ensures Inv(root, Expand(s)) && Pending(Expand(s)) < Pending(s)
  {
    assert NodeAt(s.arena, Top(s));
    ExpandArena(s);
    assert s.arena[Top(s)].score == None;
    ExpandStack(s);
    ExpandPending(s);
    var st := s.stack.items;
    assert Top(s) == st[|st| - 1];
    assert Expand(s).stack.items[0] == st[0];
  }

  /** Every pass of the loop keeps the invariant and shortens the work
      still to come, so the loop ends. */
  lemma StepKeeps(root: Position, s: Search)
    requires Inv(root, s) && |s.stack.items| > 0
    ensures Ready(s)
    ensures Inv(root, Step(s)) && Pending(Step(s)) < Pending(s)
  {
    InvReady(root, s);
    var top := s.arena[Top(s)];
    if IsOver(top.state) {
      TerminalKeeps(root, s);
    } else if top.children == [] {
      ExpandKeeps(root, s);
    } else {
      FinishKeeps(root, s);
    }
  }

  // ---------------------------------------------------------------------
  // The strategy

  /** `iterative_minimax_strategy`: no move from a finished position;
      otherwise the first move, in move order, whose value is the negamax
      value of the position, the same move as recursive minimax. */
  method IterativeMinimax(game: Session) returns (best: Option<Move>, after: Session)
    requires Sound(game.current)
    ensures var p := game.current;
      best == (if IsOver(p) then None else Some(Moves(p)[BestIndex(p)]))
    ensures after == game
  {
    var root := game.current;
    var s := Start(root);
    StartOk(root);
    while !IsEmpty(s.stack)
      invariant Inv(root, s)
      decreases Pending(s)
    {
      StepKeeps(root, s);
      s := Step(s);
    }
    best := s.best;
    after := game;
  }
}
