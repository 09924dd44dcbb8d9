/**
 Resynchronising a stale tree. The client posts some of its leaf paths; the server answers with the
 content of the intervals between them, leaving out those where both trees agree (FSyncTree.swift,
 `applyServerRangeMergeAtPath`). Applying the answers in order yields the server's tree.
 */
module RangeSync {
  import opened Options
  import opened Keys
  import opened Paths
  import opened Nodes
  import opened LeafViews
  import opened Ranges
  import opened RangeOutcomes
  import opened RangeMerges
  import opened RangeLaws
  import opened DataViews

  function Apply(m: RangeMerge, node: Node): Node {
    UpdateRange(m.range, [], node, m.updates)
  }

  lemma ApplyLeaves(range: Range, updates: Node, node: Node, p: Path)
    requires Plain(node) && Plain(updates)
    ensures Plain(Apply(RangeMerge(range, updates), node))
    ensures LeafAt(Apply(RangeMerge(range, updates), node), p) == Patched(range, [], node, updates, p)
  {
    UpdateRangeIsPlain(range, [], node, updates);
    UpdateRangeLeaves(range, [], node, updates, p);
  }

  /* ---------- the documented meaning ---------- */

  /** "Each leaf of the node inside the interval is deleted, each leaf of the update inside it is added." */
  ghost function Documented(range: Range, node: Node, updates: Node, p: Path): Option<LeafValue> {
    if range.Includes(p) then LeafAt(updates, p) else LeafAt(node, p)
  }

  /** No leaf to add lies above or below a leaf to keep: the documented leaves form a tree. */
  ghost predicate FormsTree(range: Range, node: Node, updates: Node) {
    forall u: Path, p: Path ::
      IsLeafPath(updates, u) && range.Includes(u) && IsLeafPath(node, p) && !range.Includes(p) ==> !Comparable(u, p)
  }

  /** Every leaf of the node to delete that lies strictly above the end makes room for an added leaf. */
  ghost predicate NoneStranded(range: Range, node: Node, updates: Node) {
    forall p: Path ::
      IsLeafPath(node, p) && range.Includes(p) && range.AboveEnd(p) ==> Overruled(range, [], updates, p)
  }

  /** One merge meets its documentation exactly when the documented leaves form a tree and no leaf is stranded. */
  lemma MeetsDocumentation(range: Range, node: Node, updates: Node)
    requires Plain(node) && Plain(updates)
    ensures (forall p: Path :: LeafAt(Apply(RangeMerge(range, updates), node), p) == Documented(range, node, updates, p))
            <==> FormsTree(range, node, updates) && NoneStranded(range, node, updates)
  {
    var r := Apply(RangeMerge(range, updates), node);
    forall p: Path
      ensures LeafAt(r, p) == Patched(range, [], node, updates, p)
    {
      ApplyLeaves(range, updates, node, p);
    }
    forall u: Path ensures [] + u == u {
    }
    if FormsTree(range, node, updates) && NoneStranded(range, node, updates) {
      forall p: Path ensures LeafAt(r, p) == Documented(range, node, updates, p) {
        KeptLeaf(range, node, updates, p);
      }
    }
    if forall p: Path :: LeafAt(r, p) == Documented(range, node, updates, p) {
      forall u: Path, p: Path | IsLeafPath(updates, u) && range.Includes(u) && IsLeafPath(node, p) && !range.Includes(p)
        ensures !Comparable(u, p)
      {
        assert [] + u == u;
        assert LeafAt(r, p) == Documented(range, node, updates, p);
      }
      forall p: Path | IsLeafPath(node, p) && range.Includes(p) && range.AboveEnd(p)
        ensures Overruled(range, [], updates, p)
      {
        assert LeafAt(r, p) == Documented(range, node, updates, p);
        assert IsLeafPath(updates, p) ==> Comparable(p, p);
      }
    }
  }

  lemma KeptLeaf(range: Range, node: Node, updates: Node, p: Path)
    requires FormsTree(range, node, updates) && NoneStranded(range, node, updates)
    ensures Patched(range, [], node, updates, p) == Documented(range, node, updates, p)
  {
    assert [] + p == p;
    if Overruled(range, [], updates, p) {
      var u: Path :| IsLeafPath(updates, u) && range.Includes([] + u) && Comparable(u, p);
      assert [] + u == u;
    }
  }

  /** A case where it does not: the leaf "a" lies strictly above the end "a/b" and nothing replaces it. */
  lemma StrandedLeafStays(k: Key, v: LeafValue)
    requires k != PRIORITY
    ensures var node := Children(map[k := Leaf(v, Empty)], Empty);
            var range := Range(None, Some([k, k]));
            Plain(node) && range.Includes([k]) && Apply(RangeMerge(range, Empty), node) == node
  {
    var node := Children(map[k := Leaf(v, Empty)], Empty);
    var range := Range(None, Some([k, k]));
    assert k in node.kids && node.kids[k] == Leaf(v, Empty);
    PrefixFirst([k], [k, k]);
    PathTrichotomy([k], [k, k]);
    var r := Apply(RangeMerge(range, Empty), node);
    forall p: Path ensures LeafAt(r, p) == LeafAt(node, p) {
      ApplyLeaves(range, Empty, node, p);
      assert [] + p == p;
      if IsLeafPath(node, p) {
        assert LeafAt(Leaf(v, Empty), p[1..]).Some?;
        assert p == [p[0]] + p[1..] == [k];
      }
    }
    ApplyLeaves(range, Empty, node, []);
    SameLeavesSameTree(r, node);
  }

  /* ---------- only the leaves inside the range matter ---------- */

  ghost predicate AgreeOn(range: Range, a: Node, b: Node) {
    forall p: Path :: range.Includes(p) ==> LeafAt(a, p) == LeafAt(b, p)
  }

  lemma OverruledAgrees(range: Range, a: Node, b: Node, p: Path)
    requires AgreeOn(range, a, b) && Overruled(range, [], a, p)
    ensures Overruled(range, [], b, p)
  {
    var u: Path :| IsLeafPath(a, u) && range.Includes([] + u) && Comparable(u, p);
    assert [] + u == u;
  }

  lemma OnlyRangeMatters(range: Range, a: Node, b: Node, node: Node)
    requires Plain(node) && Plain(a) && Plain(b) && AgreeOn(range, a, b)
    ensures Apply(RangeMerge(range, a), node) == Apply(RangeMerge(range, b), node)
  {
    var ra, rb := Apply(RangeMerge(range, a), node), Apply(RangeMerge(range, b), node);
    forall p: Path ensures LeafAt(ra, p) == LeafAt(rb, p) {
      ApplyLeaves(range, a, node, p);
      ApplyLeaves(range, b, node, p);
      assert [] + p == p;
      if Overruled(range, [], a, p) {
        OverruledAgrees(range, a, b, p);
      }
      if Overruled(range, [], b, p) {
        OverruledAgrees(range, b, a, p);
      }
    }
    ApplyLeaves(range, a, node, []);
    ApplyLeaves(range, b, node, []);
    SameLeavesSameTree(ra, rb);
  }

  /* ---------- adjacent merges compose ---------- */

  /** `p` is a boundary at which merges of `node` may be split: no leaf of the node is stranded above it. */
  ghost predicate GoodSplit(node: Node, p: Path, end: Option<Path>) {
    && (end.Some? ==> PathLess(p, end.value) && !Contains(p, end.value))
    && forall q: Path :: IsLeafPath(node, q) ==> !StrictlyAbove(q, p)
  }

  /** The union of the two ranges. */
  lemma SplitRange(start: Option<Path>, p: Path, end: Option<Path>, q: Path)
    requires start.Some? ==> PathLess(start.value, p)
    requires end.Some? ==> PathLess(p, end.value)
    ensures Range(start, end).Includes(q) <==> Range(start, Some(p)).Includes(q) || Range(Some(p), end).Includes(q)
    ensures !(Range(start, Some(p)).Includes(q) && Range(Some(p), end).Includes(q))
  {
    PathTrichotomy(p, q);
    if start.Some? {
      PathTrichotomy(start.value, q);
      if PathLess(p, q) {
        PathLessTransitive(start.value, p, q);
      }
    }
    if end.Some? {
      PathTrichotomy(end.value, q);
      if PathLess(end.value, q) {
        PathLessTransitive(p, end.value, q);
      }
    }
  }

  /** A path up to the split that lies above the end already lies above the split. */
  lemma AboveEndAboveSplit(p: Path, end: Path, q: Path)
    requires PathLess(p, end) && !Contains(p, end)
    requires !PathLess(p, q) && StrictlyAbove(q, end)
    ensures StrictlyAbove(q, p)
  {
    PathTrichotomy(p, q);
    if p != q && !Contains(q, p) {
      if Contains(p, q) {
        assert Contains(p, end);
      }
      OrderSurvivesExtension(q, p, end[|q|..], []);
      assert q + end[|q|..] == end && p + [] == p;
      PathTrichotomy(p, end);
    }
  }

  lemma OverruledSplit(start: Option<Path>, p: Path, end: Option<Path>, target: Node, q: Path)
    requires start.Some? ==> PathLess(start.value, p)
    requires end.Some? ==> PathLess(p, end.value)
    ensures Overruled(Range(start, end), [], target, q)
            <==> Overruled(Range(start, Some(p)), [], target, q) || Overruled(Range(Some(p), end), [], target, q)
  {
    forall u: Path
      ensures Range(start, end).Includes([] + u) <==>
              Range(start, Some(p)).Includes([] + u) || Range(Some(p), end).Includes([] + u)
    {
      SplitRange(start, p, end, [] + u);
    }
  }

  lemma ComposeLeaf(start: Option<Path>, p: Path, end: Option<Path>, node: Node, target: Node, q: Path)
    requires Plain(node) && Plain(target) && GoodSplit(node, p, end)
    requires start.Some? ==> PathLess(start.value, p)
    ensures var first := Apply(RangeMerge(Range(start, Some(p)), target), node);
            Patched(Range(Some(p), end), [], first, target, q) == Patched(Range(start, end), [], node, target, q)
  {
    var r1, r2, r := Range(start, Some(p)), Range(Some(p), end), Range(start, end);
    ApplyLeaves(r1, target, node, q);
    SplitRange(start, p, end, q);
    OverruledSplit(start, p, end, target, q);
    assert [] + q == q;
    if IsLeafPath(target, q) && r1.Includes(q) && Overruled(r2, [], target, q) {
      var u: Path :| IsLeafPath(target, u) && r2.Includes([] + u) && Comparable(u, q);
      if Contains(u, q) {
        LeavesArePrefixFree(target, u, q);
      } else {
        LeavesArePrefixFree(target, q, u);
      }
    }
    if r1.Includes(q) && r.AboveEnd(q) {
      AboveEndAboveSplit(p, end.value, q);
    }
  }

  /** Merging up to `p` and then from `p` is merging the whole range. */
  lemma AdjacentMergesCompose(start: Option<Path>, p: Path, end: Option<Path>, node: Node, target: Node)
    requires Plain(node) && Plain(target) && GoodSplit(node, p, end)
    requires start.Some? ==> PathLess(start.value, p)
    ensures Apply(RangeMerge(Range(Some(p), end), target), Apply(RangeMerge(Range(start, Some(p)), target), node))
            == Apply(RangeMerge(Range(start, end), target), node)
  {
    var first := Apply(RangeMerge(Range(start, Some(p)), target), node);
    ApplyLeaves(Range(start, Some(p)), target, node, []);
    var two := Apply(RangeMerge(Range(Some(p), end), target), first);
    var one := Apply(RangeMerge(Range(start, end), target), node);
    forall q: Path ensures LeafAt(two, q) == LeafAt(one, q) {
      ApplyLeaves(Range(Some(p), end), target, first, q);
      ApplyLeaves(Range(start, end), target, node, q);
      ComposeLeaf(start, p, end, node, target, q);
    }
    ApplyLeaves(Range(Some(p), end), target, first, []);
    ApplyLeaves(Range(start, end), target, node, []);
    SameLeavesSameTree(two, one);
  }

  /* ---------- the protocol ---------- */

  /** The server's answer for one interval: nothing when both trees agree on it, else new content. */
  datatype Answer = Unchanged | Replaced(updates: Node)

  /** The i-th interval cut out by the posts. */
  function Interval(posts: seq<Path>, i: nat): Range
    requires i <= |posts|
  {
    Range(if i == 0 then None else Some(posts[i - 1]), if i == |posts| then None else Some(posts[i]))
  }

  /** What the hash builder guarantees of its posts: leaf paths of the tree, in strictly increasing order. */
  ghost predicate GoodPosts(node: Node, posts: seq<Path>) {
    && (forall i :: 0 <= i < |posts| ==> IsLeafPath(node, posts[i]))
    && (forall i :: 0 <= i < |posts| - 1 ==> PathLess(posts[i], posts[i + 1]))
  }

  /** The answers tell, interval by interval, how the target differs from the stale tree. */
  ghost predicate AnswersFor(node: Node, target: Node, posts: seq<Path>, answers: seq<Answer>) {
    && |answers| == |posts| + 1
    && forall i :: 0 <= i <= |posts| ==> IsAnswerFor(Interval(posts, i), node, target, answers[i])
  }

  ghost predicate IsAnswerFor(range: Range, node: Node, target: Node, answer: Answer) {
    match answer
    case Unchanged => AgreeOn(range, node, target)
    case Replaced(updates) => Canonical(updates) && AgreeOn(range, updates, target)
  }

  ghost predicate PlainAnswers(answers: seq<Answer>) {
    forall i :: 0 <= i < |answers| && answers[i].Replaced? ==> Plain(answers[i].updates)
  }

  /** The range merges sent for the intervals from the i-th on. */
  function Messages(posts: seq<Path>, answers: seq<Answer>, i: nat): seq<RangeMerge>
    requires i <= |answers| == |posts| + 1
    decreases |answers| - i
  {
    if i == |answers| then []
    else
      var rest := Messages(posts, answers, i + 1);
      if answers[i].Unchanged? then rest else [RangeMerge(Interval(posts, i), answers[i].updates)] + rest
  }

  function ApplyAll(merges: seq<RangeMerge>, node: Node): Node {
    if merges == [] then node else ApplyAll(merges[1..], Apply(merges[0], node))
  }

  /** `r` can come out of applying the merges one after the other. */
  ghost predicate IsOutcomeOfAll(merges: seq<RangeMerge>, node: Node, r: Node)
    decreases |merges|
  {
    if merges == [] then r == node
    else exists next :: IsFirstOutcome(merges, node, next) && IsOutcomeOfAll(merges[1..], next, r)
  }

  ghost predicate IsFirstOutcome(merges: seq<RangeMerge>, node: Node, next: Node)
    requires merges != []
  {
    IsOutcome(merges[0].range, [], node, merges[0].updates, next)
  }

  ghost predicate CanonicalUpdates(merges: seq<RangeMerge>) {
    forall i :: 0 <= i < |merges| ==> Canonical(merges[i].updates)
  }

  ghost predicate PlainUpdates(merges: seq<RangeMerge>) {
    forall i :: 0 <= i < |merges| ==> Plain(merges[i].updates)
  }

  /** The loop of `applyServerRangeMergeAtPath`. */
  method ApplyServerRangeMerges(ranges: seq<RangeMerge>, serverCache: Node) returns (serverNode: Node)
    requires Canonical(serverCache) && CanonicalUpdates(ranges)
    ensures Canonical(serverNode) && IsOutcomeOfAll(ranges, serverCache, serverNode)
    ensures Plain(serverCache) && PlainUpdates(ranges) ==> serverNode == ApplyAll(ranges, serverCache)
  {
    serverNode := serverCache;
    for i := 0 to |ranges|
      invariant Canonical(serverNode)
      invariant forall r :: IsOutcomeOfAll(ranges[i..], serverNode, r) ==> IsOutcomeOfAll(ranges, serverCache, r)
    {
      ghost var before := serverNode;
      assert ranges[i..][1..] == ranges[i + 1..];
      serverNode := UpdateRangeInNode(ranges[i].range, [], serverNode, ranges[i].updates);
      assert IsFirstOutcome(ranges[i..], before, serverNode);
    }
    assert IsOutcomeOfAll(ranges[|ranges|..], serverNode, serverNode);
    if Plain(serverCache) && PlainUpdates(ranges) {
      PlainOutcomeOfAll(ranges, serverCache, serverNode);
    }
  }

  lemma {:induction false} PlainOutcomeOfAll(merges: seq<RangeMerge>, node: Node, r: Node)
    requires Plain(node) && PlainUpdates(merges) && IsOutcomeOfAll(merges, node, r)
    ensures r == ApplyAll(merges, node)
    decreases |merges|
  {
    if merges != [] {
      var next :| IsFirstOutcome(merges, node, next) && IsOutcomeOfAll(merges[1..], next, r);
      PlainHasOneOutcome(merges[0].range, [], node, merges[0].updates, next);
      UpdateRangeIsPlain(merges[0].range, [], node, merges[0].updates);
      PlainOutcomeOfAll(merges[1..], next, r);
    }
  }

  /** The tree after the first i intervals: the target up to the i-th post, the stale tree beyond it. */
  ghost function Stage(node: Node, target: Node, posts: seq<Path>, i: nat): Node
    requires i <= |posts| + 1
  {
    if i == 0 then node
    else Apply(RangeMerge(Range(None, if i == |posts| + 1 then None else Some(posts[i - 1])), target), node)
  }

  lemma StageIsPlain(node: Node, target: Node, posts: seq<Path>, i: nat)
    requires Plain(node) && Plain(target) && i <= |posts| + 1
    ensures Plain(Stage(node, target, posts, i))
  {
    if i > 0 {
      ApplyLeaves(Range(None, if i == |posts| + 1 then None else Some(posts[i - 1])), target, node, []);
    }
  }

  /** Some leaf of the target up to `post` lies above `p`. */
  ghost predicate Covered(target: Node, post: Path, p: Path) {
    exists u: Path :: IsLeafPath(target, u) && !PathLess(post, u) && StrictlyAbove(u, p)
  }

  /** A stage has the target's leaves up to the post, and the stale leaves beyond it that none of those covers. */
  lemma StageLeaves(node: Node, target: Node, posts: seq<Path>, i: nat, p: Path)
    requires Plain(node) && Plain(target) && GoodPosts(node, posts) && 0 < i <= |posts|
    ensures var post := posts[i - 1];
            LeafAt(Stage(node, target, posts, i), p)
            == if !PathLess(post, p) then LeafAt(target, p)
               else if Covered(target, post, p) then None
               else LeafAt(node, p)
  {
    var post := posts[i - 1];
    var range := Range(None, Some(post));
    ApplyLeaves(range, target, node, p);
    assert [] + p == p;
    PathTrichotomy(p, post);
    if !PathLess(post, p) {
      if IsLeafPath(node, p) && StrictlyAbove(p, post) {
        LeavesArePrefixFree(node, p, post);
      }
    } else {
      OverruledBeyond(target, post, p);
    }
  }

  lemma OverruledBeyond(target: Node, post: Path, p: Path)
    requires PathLess(post, p)
    ensures Overruled(Range(None, Some(post)), [], target, p) <==> Covered(target, post, p)
  {
    var range := Range(None, Some(post));
    PathTrichotomy(post, p);
    if Covered(target, post, p) {
      var u: Path :| IsLeafPath(target, u) && !PathLess(post, u) && StrictlyAbove(u, p);
      assert [] + u == u;
      PathTrichotomy(u, post);
      assert range.Includes([] + u) && Comparable(u, p);
    }
    if Overruled(range, [], target, p) {
      var u: Path :| IsLeafPath(target, u) && range.Includes([] + u) && Comparable(u, p);
      assert [] + u == u;
      PathTrichotomy(u, post);
      if !StrictlyAbove(u, p) && p != u {
        PrefixFirst(p, u);
        PathLessTransitive(post, p, u);
      }
    }
  }

  lemma PostsAreGoodSplits(node: Node, posts: seq<Path>, i: nat)
    requires GoodPosts(node, posts) && 0 < i <= |posts|
    ensures GoodSplit(node, posts[i - 1], Interval(posts, i).end)
  {
    var p := posts[i - 1];
    forall q: Path | IsLeafPath(node, q) ensures !StrictlyAbove(q, p) {
      if StrictlyAbove(q, p) {
        LeavesArePrefixFree(node, q, p);
      }
    }
    if i < |posts| {
      PathTrichotomy(p, posts[i]);
      assert PathLess(posts[i - 1], posts[i - 1 + 1]);
      if Contains(p, posts[i]) {
        LeavesArePrefixFree(node, p, posts[i]);
      }
    }
  }

  /** Merging the target into the next interval moves from one stage to the next. */
  lemma NextStage(node: Node, target: Node, posts: seq<Path>, i: nat)
    requires Plain(node) && Plain(target) && GoodPosts(node, posts) && i <= |posts|
    ensures Apply(RangeMerge(Interval(posts, i), target), Stage(node, target, posts, i))
            == Stage(node, target, posts, i + 1)
  {
    if i > 0 {
      PostsAreGoodSplits(node, posts, i);
      AdjacentMergesCompose(None, posts[i - 1], Interval(posts, i).end, node, target);
    }
  }

  /** Where both trees agree on the next interval, nothing has to be sent. */
  lemma NothingToSend(node: Node, target: Node, posts: seq<Path>, i: nat)
    requires Plain(node) && Plain(target) && GoodPosts(node, posts) && i <= |posts|
    requires AgreeOn(Interval(posts, i), node, target)
    ensures Stage(node, target, posts, i + 1) == Stage(node, target, posts, i)
  {
    var range, stage := Interval(posts, i), Stage(node, target, posts, i);
    StageIsPlain(node, target, posts, i);
    forall p: Path | range.Includes(p) ensures LeafAt(stage, p) == LeafAt(target, p) {
      StageBeyond(node, target, posts, i, p);
    }
    NextStage(node, target, posts, i);
    OnlyRangeMatters(range, target, stage, stage);
    SelfMerge(range, stage);
  }

  /** Beyond the i-th post the stage has the stale leaves that the target's earlier leaves leave room for. */
  lemma StageBeyond(node: Node, target: Node, posts: seq<Path>, i: nat, p: Path)
    requires Plain(node) && Plain(target) && GoodPosts(node, posts) && i <= |posts|
    requires Interval(posts, i).Includes(p) && LeafAt(node, p) == LeafAt(target, p)
    ensures LeafAt(Stage(node, target, posts, i), p) == LeafAt(target, p)
  {
    if i > 0 {
      var before := Range(None, Some(posts[i - 1]));
      ApplyLeaves(before, target, node, p);
      assert [] + p == p;
      if IsLeafPath(target, p) && Overruled(before, [], target, p) {
        var u: Path :| IsLeafPath(target, u) && before.Includes([] + u) && Comparable(u, p);
        assert [] + u == u;
        if Contains(u, p) {
          LeavesArePrefixFree(target, u, p);
        } else {
          LeavesArePrefixFree(target, p, u);
        }
      }
    }
  }

  /** Merging a tree into itself changes nothing. */
  lemma SelfMerge(range: Range, node: Node)
    requires Plain(node)
    ensures Apply(RangeMerge(range, node), node) == node
  {
    var r := Apply(RangeMerge(range, node), node);
    forall p: Path ensures LeafAt(r, p) == LeafAt(node, p) {
      ApplyLeaves(range, node, node, p);
      assert [] + p == p;
      if IsLeafPath(node, p) && Overruled(range, [], node, p) {
        var u: Path :| IsLeafPath(node, u) && range.Includes([] + u) && Comparable(u, p);
        assert [] + u == u;
        if Contains(u, p) {
          LeavesArePrefixFree(node, u, p);
        } else {
          LeavesArePrefixFree(node, p, u);
        }
      }
    }
    ApplyLeaves(range, node, node, []);
    SameLeavesSameTree(r, node);
  }

  /** Every answer moves on to the next stage. */
  lemma AnswerMovesOn(node: Node, target: Node, posts: seq<Path>, i: nat, answer: Answer)
    requires Plain(node) && Plain(target) && GoodPosts(node, posts) && i <= |posts|
    requires IsAnswerFor(Interval(posts, i), node, target, answer) && (answer.Replaced? ==> Plain(answer.updates))
    ensures answer.Unchanged? ==> Stage(node, target, posts, i + 1) == Stage(node, target, posts, i)
    ensures answer.Replaced? ==>
              Apply(RangeMerge(Interval(posts, i), answer.updates), Stage(node, target, posts, i))
              == Stage(node, target, posts, i + 1)
  {
    match answer
    case Unchanged =>
      NothingToSend(node, target, posts, i);
    case Replaced(updates) =>
      StageIsPlain(node, target, posts, i);
      OnlyRangeMatters(Interval(posts, i), updates, target, Stage(node, target, posts, i));
      NextStage(node, target, posts, i);
  }

  /** The first message, if one is sent for the interval, then the others. */
  lemma FirstMessage(posts: seq<Path>, answers: seq<Answer>, i: nat, node: Node)
    requires i < |answers| == |posts| + 1
    ensures ApplyAll(Messages(posts, answers, i), node)
            == ApplyAll(Messages(posts, answers, i + 1),
                 if answers[i].Unchanged? then node else Apply(RangeMerge(Interval(posts, i), answers[i].updates), node))
  {
    var rest := Messages(posts, answers, i + 1);
    if answers[i].Replaced? {
      assert ([RangeMerge(Interval(posts, i), answers[i].updates)] + rest)[1..] == rest;
    }
  }

  lemma {:induction false} SyncFrom(node: Node, target: Node, posts: seq<Path>, answers: seq<Answer>, i: nat)
    requires Plain(node) && Plain(target) && GoodPosts(node, posts) && AnswersFor(node, target, posts, answers)
    requires PlainAnswers(answers) && i <= |answers|
    ensures ApplyAll(Messages(posts, answers, i), Stage(node, target, posts, i)) == target
    decreases |answers| - i
  {
    if i < |answers| {
      SyncFrom(node, target, posts, answers, i + 1);
      assert IsAnswerFor(Interval(posts, i), node, target, answers[i]);
      AnswerMovesOn(node, target, posts, i, answers[i]);
      FirstMessage(posts, answers, i, Stage(node, target, posts, i));
    } else {
      assert Stage(node, target, posts, i) == target;
    }
  }

  /** Sync reaches the target, whatever the two trees are and wherever the posts cut. */
  lemma SyncReachesTarget(node: Node, target: Node, posts: seq<Path>, answers: seq<Answer>)
    requires Plain(node) && Plain(target) && GoodPosts(node, posts) && AnswersFor(node, target, posts, answers)
    requires PlainAnswers(answers)
    ensures ApplyAll(Messages(posts, answers, 0), node) == target
  {
    SyncFrom(node, target, posts, answers, 0);
  }

  /* ---------- with priorities ---------- */

  /** The law of the leaves holds for all trees and all orders of the children. */
  lemma OutcomeLeaves(range: Range, cur: Path, node: Node, updates: Node, r: Node, p: Path)
    requires Canonical(node) && Canonical(updates) && IsOutcome(range, cur, node, updates, r)
    ensures LeafAt(r, p) == Patched(range, cur, node, updates, p)
  {
    OutcomesShareData(range, cur, node, updates, r);
    DataOfRange(range, cur, node, updates);
    DataIsPlain(node);
    DataIsPlain(updates);
    UpdateRangeLeaves(range, cur, Data(node), Data(updates), p);
    LeafAtData(r, p);
    PatchedData(range, cur, node, updates, p);
  }

  lemma PatchedData(range: Range, cur: Path, node: Node, updates: Node, p: Path)
    ensures Patched(range, cur, Data(node), Data(updates), p) == Patched(range, cur, node, updates, p)
  {
    LeafAtData(node, p);
    forall u: Path ensures LeafAt(Data(updates), u) == LeafAt(updates, u) {
      LeafAtData(updates, u);
    }
  }

  function DataAnswers(answers: seq<Answer>): (r: seq<Answer>)
    ensures |r| == |answers|
  {
    seq(|answers|, i requires 0 <= i < |answers| => DataAnswer(answers[i]))
  }

  function DataAnswer(answer: Answer): Answer {
    match answer
    case Unchanged => Unchanged
    case Replaced(updates) => Replaced(Data(updates))
  }

  lemma {:induction false} DataOfOutcomes(posts: seq<Path>, answers: seq<Answer>, i: nat, node: Node, r: Node)
    requires i <= |answers| == |posts| + 1 && Canonical(node) && CanonicalAnswers(answers)
    requires IsOutcomeOfAll(Messages(posts, answers, i), node, r)
    ensures Canonical(r) && Data(r) == ApplyAll(Messages(posts, DataAnswers(answers), i), Data(node))
    decreases |answers| - i
  {
    if i < |answers| {
      if answers[i].Unchanged? {
        DataOfOutcomes(posts, answers, i + 1, node, r);
      } else {
        var merges, data := Messages(posts, answers, i), Messages(posts, DataAnswers(answers), i);
        assert merges[1..] == Messages(posts, answers, i + 1) && data[1..] == Messages(posts, DataAnswers(answers), i + 1);
        var next :| IsFirstOutcome(merges, node, next) && IsOutcomeOfAll(merges[1..], next, r);
        DataOfOutcome(merges, node, next);
        DataOfOutcomes(posts, answers, i + 1, next, r);
      }
    }
  }

  lemma DataOfOutcome(merges: seq<RangeMerge>, node: Node, next: Node)
    requires merges != [] && Canonical(node) && Canonical(merges[0].updates) && IsFirstOutcome(merges, node, next)
    ensures Canonical(next) && Data(next) == Apply(RangeMerge(merges[0].range, Data(merges[0].updates)), Data(node))
  {
    OutcomesShareData(merges[0].range, [], node, merges[0].updates, next);
    DataOfRange(merges[0].range, [], node, merges[0].updates);
  }

  ghost predicate CanonicalAnswers(answers: seq<Answer>) {
    forall i :: 0 <= i < |answers| && answers[i].Replaced? ==> Canonical(answers[i].updates)
  }

  /**
   With priorities anywhere and whatever the orders in which the children are visited, sync reaches the data of
   the target.
   */
  lemma SyncReachesData(node: Node, target: Node, posts: seq<Path>, answers: seq<Answer>, r: Node)
    requires Canonical(node) && Canonical(target) && GoodPosts(node, posts) && AnswersFor(node, target, posts, answers)
    requires IsOutcomeOfAll(Messages(posts, answers, 0), node, r)
    ensures Canonical(r) && Data(r) == Data(target)
  {
    DataOfOutcomes(posts, answers, 0, node, r);
    DataIsPlain(node);
    DataIsPlain(target);
    DataPosts(node, posts);
    DataAnswersFor(node, target, posts, answers);
    SyncReachesTarget(Data(node), Data(target), posts, DataAnswers(answers));
  }

  lemma DataPosts(node: Node, posts: seq<Path>)
    requires GoodPosts(node, posts)
    ensures GoodPosts(Data(node), posts)
  {
    forall i | 0 <= i < |posts| ensures IsLeafPath(Data(node), posts[i]) {
      LeafAtData(node, posts[i]);
    }
  }

  lemma DataAgrees(range: Range, a: Node, b: Node)
    ensures AgreeOn(range, Data(a), Data(b)) <==> AgreeOn(range, a, b)
  {
    forall p: Path ensures LeafAt(Data(a), p) == LeafAt(a, p) && LeafAt(Data(b), p) == LeafAt(b, p) {
      LeafAtData(a, p);
      LeafAtData(b, p);
    }
  }

  lemma DataAnswersFor(node: Node, target: Node, posts: seq<Path>, answers: seq<Answer>)
    requires AnswersFor(node, target, posts, answers)
    ensures AnswersFor(Data(node), Data(target), posts, DataAnswers(answers)) && PlainAnswers(DataAnswers(answers))
  {
    forall i | 0 <= i <= |posts|
      ensures IsAnswerFor(Interval(posts, i), Data(node), Data(target), DataAnswers(answers)[i])
      ensures DataAnswers(answers)[i].Replaced? ==> Plain(DataAnswers(answers)[i].updates)
    {
      DataAnswerFor(Interval(posts, i), node, target, answers[i]);
    }
  }

  lemma DataAnswerFor(range: Range, node: Node, target: Node, answer: Answer)
    requires IsAnswerFor(range, node, target, answer)
    ensures IsAnswerFor(range, Data(node), Data(target), DataAnswer(answer))
    ensures DataAnswer(answer).Replaced? ==> Plain(DataAnswer(answer).updates)
  {
    match answer
    case Unchanged => DataAgrees(range, node, target);
    case Replaced(updates) =>
      DataAgrees(range, updates, target);
      DataIsPlain(updates);
      PlainIsCanonical(Data(updates));
  }
}
