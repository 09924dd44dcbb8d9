/**
 The ranges of a compound hash: the text of a range holds exactly the leaves of the interval between two
 posts, so that equal texts mean equal leaves.
 */
module HashRanges {
  import opened Paths
  import opened Nodes
  import opened LeafViews
  import opened Lists
  import opened Ranges
  import opened HashTexts
  import opened Leaves
  import opened RangeSync

  /** The leaves of the closed ranges, in order. */
  ghost function LeavesOfAll(texts: seq<Text>): seq<(Path, Node)> {
    Concat(seq(|texts|, i requires 0 <= i < |texts| => LeavesIn(texts[i])))
  }

  lemma LeavesOfOneMore(texts: seq<Text>, text: Text)
    ensures LeavesOfAll(texts + [text]) == LeavesOfAll(texts) + LeavesIn(text)
  {
    var a := seq(|texts|, i requires 0 <= i < |texts| => LeavesIn(texts[i]));
    var b := seq(|texts + [text]|, i requires 0 <= i < |texts + [text]| => LeavesIn((texts + [text])[i]));
    assert b == a + [LeavesIn(text)];
    ConcatInSteps(a, [LeavesIn(text)]);
    ConcatOne(LeavesIn(text));
  }

  /** A range is well-formed, holds at least one leaf, and its post is the path of its last leaf. */
  ghost predicate IsPosted(text: Text, post: Path) {
    IsRange(text) && LeavesIn(text) != [] && post == LeavesIn(text)[|LeavesIn(text)| - 1].0
  }

  /* ---------- what the posts are ---------- */

  /** The leaves of the first n ranges are a prefix of all leaves, and the n-th post is the path of their last. */
  lemma {:induction false} PostIndex(texts: seq<Text>, posts: seq<Path>, n: nat) returns (last: nat)
    requires |texts| == |posts| && n < |posts|
    requires forall i :: 0 <= i < |posts| ==> IsPosted(texts[i], posts[i])
    ensures last == |LeavesOfAll(texts[..n + 1])| - 1 < |LeavesOfAll(texts)|
    ensures |LeavesOfAll(texts[..n])| <= last
    ensures LeavesOfAll(texts)[last].0 == posts[n]
  {
    var upTo, all := LeavesOfAll(texts[..n + 1]), LeavesOfAll(texts);
    assert texts[..n + 1] == texts[..n] + [texts[n]];
    LeavesOfOneMore(texts[..n], texts[n]);
    LeavesOfPrefix(texts, n + 1);
    last := |upTo| - 1;
  }

  lemma LeavesOfPrefix(texts: seq<Text>, n: nat)
    requires n <= |texts|
    ensures LeavesOfAll(texts[..n]) <= LeavesOfAll(texts)
  {
    var a := seq(n, i requires 0 <= i < n => LeavesIn(texts[i]));
    var b := seq(|texts| - n, i requires 0 <= i < |texts| - n => LeavesIn(texts[n + i]));
    var part := seq(|texts[..n]|, i requires 0 <= i < |texts[..n]| => LeavesIn(texts[..n][i]));
    var all := seq(|texts|, i requires 0 <= i < |texts| => LeavesIn(texts[i]));
    assert part == a && all == a + b;
    ConcatInSteps(a, b);
  }

  /** The posts are leaf paths in strictly increasing order. */
  lemma PostsAreGood(node: Node, posts: seq<Path>, texts: seq<Text>)
    requires Plain(node) && InOrder(LeavesOf(node)) && |texts| == |posts|
    requires forall i :: 0 <= i < |posts| ==> IsPosted(texts[i], posts[i])
    requires LeavesOfAll(texts) == LeavesOf(node)
    ensures GoodPosts(node, posts)
  {
    forall i | 0 <= i < |posts| ensures IsLeafPath(node, posts[i]) {
      var last := PostIndex(texts, posts, i);
      LeavesAreLeaves(node, last);
    }
    forall i | 0 <= i < |posts| - 1 ensures PathLess(posts[i], posts[i + 1]) {
      var a := PostIndex(texts, posts, i);
      var b := PostIndex(texts, posts, i + 1);
    }
  }

  /* ---------- what the texts are ---------- */

  /** The leaves inside an interval. */
  ghost function LeavesWithin(leaves: seq<(Path, Node)>, range: Range): seq<(Path, Node)> {
    if leaves == [] then []
    else
      var n := |leaves| - 1;
      LeavesWithin(leaves[..n], range) + if range.Includes(leaves[n].0) then [leaves[n]] else []
  }

  /** The text holds the leaves of the tree inside the interval, in order. */
  ghost predicate IsTextFor(text: Text, node: Node, range: Range) {
    LeavesIn(text) == LeavesWithin(LeavesOf(node), range)
  }

  /** Exactly the leaves from the a-th up to the b-th lie in the interval. */
  ghost predicate IsSlice(leaves: seq<(Path, Node)>, range: Range, a: nat, b: nat) {
    a <= b <= |leaves| && forall j :: 0 <= j < |leaves| ==> (range.Includes(leaves[j].0) <==> a <= j < b)
  }

  lemma SliceOfFront(leaves: seq<(Path, Node)>, range: Range, a: nat, b: nat)
    requires leaves != [] && IsSlice(leaves, range, a, b)
    ensures var n := |leaves| - 1;
            IsSlice(leaves[..n], range, if a == |leaves| then n else a, if b == |leaves| then n else b)
  {
  }

  lemma {:induction false} WithinSlice(leaves: seq<(Path, Node)>, range: Range, a: nat, b: nat)
    requires IsSlice(leaves, range, a, b)
    ensures LeavesWithin(leaves, range) == leaves[a..b]
    decreases |leaves|
  {
    if leaves != [] {
      var n := |leaves| - 1;
      var c, d := if a == |leaves| then n else a, if b == |leaves| then n else b;
      SliceOfFront(leaves, range, a, b);
      WithinSlice(leaves[..n], range, c, d);
      assert leaves[a..b] == leaves[..n][c..d] + if a <= n < b then [leaves[n]] else [];
    }
  }

  lemma {:induction false} WithinMembers(leaves: seq<(Path, Node)>, range: Range, e: (Path, Node))
    ensures e in LeavesWithin(leaves, range) <==> e in leaves && range.Includes(e.0)
  {
    if leaves != [] {
      var n := |leaves| - 1;
      WithinMembers(leaves[..n], range, e);
      assert leaves == leaves[..n] + [leaves[n]];
    }
  }

  /** Where the leaves of the i-th range start. */
  ghost function StartOf(texts: seq<Text>, i: nat): nat
    requires i <= |texts|
  {
    |LeavesOfAll(texts[..i])|
  }

  /** A leaf lies after the i-th post exactly when it is not among the leaves up to that post. */
  lemma AfterPost(texts: seq<Text>, posts: seq<Path>, i: nat, j: nat)
    requires |texts| == |posts| && i < |posts| && InOrder(LeavesOfAll(texts)) && j < |LeavesOfAll(texts)|
    requires forall m :: 0 <= m < |posts| ==> IsPosted(texts[m], posts[m])
    ensures PathLess(posts[i], LeavesOfAll(texts)[j].0) <==> StartOf(texts, i + 1) <= j
  {
    var last := PostIndex(texts, posts, i);
    var leaves := LeavesOfAll(texts);
    PathTrichotomy(posts[i], leaves[j].0);
    if j < last {
      assert PathLess(leaves[j].0, leaves[last].0);
    } else if last < j {
      assert PathLess(leaves[last].0, leaves[j].0);
    }
  }

  /** The leaves of one range. */
  lemma SliceOf(texts: seq<Text>, i: nat)
    requires i < |texts|
    ensures StartOf(texts, i) <= StartOf(texts, i + 1) <= |LeavesOfAll(texts)|
    ensures LeavesIn(texts[i]) == LeavesOfAll(texts)[StartOf(texts, i)..StartOf(texts, i + 1)]
  {
    assert texts[..i + 1] == texts[..i] + [texts[i]];
    LeavesOfOneMore(texts[..i], texts[i]);
    LeavesOfPrefix(texts, i + 1);
    var part := LeavesOfAll(texts[..i + 1]);
    assert part == LeavesOfAll(texts)[..|part|];
    assert part[StartOf(texts, i)..] == LeavesIn(texts[i]);
  }

  /** Each text holds exactly the leaves of its interval; after the last post there are none. */
  lemma TextsForIntervals(node: Node, posts: seq<Path>, hashes: seq<Text>)
    requires InOrder(LeavesOf(node)) && |hashes| == |posts| + 1 && hashes[|posts|] == []
    requires forall i :: 0 <= i < |posts| ==> IsPosted(hashes[i], posts[i])
    requires LeavesOfAll(hashes[..|posts|]) == LeavesOf(node)
    ensures forall i :: 0 <= i <= |posts| ==> IsTextFor(hashes[i], node, Interval(posts, i))
  {
    var texts := hashes[..|posts|];
    forall i | 0 <= i <= |posts| ensures IsTextFor(hashes[i], node, Interval(posts, i)) {
      WithinInterval(texts, posts, i);
      if i < |posts| {
        SliceOf(texts, i);
      }
    }
  }

  lemma WithinInterval(texts: seq<Text>, posts: seq<Path>, i: nat)
    requires |texts| == |posts| && i <= |posts| && InOrder(LeavesOfAll(texts))
    requires forall m :: 0 <= m < |posts| ==> IsPosted(texts[m], posts[m])
    ensures StartOf(texts, i) <= EndOf(texts, i) <= |LeavesOfAll(texts)|
    ensures i == |texts| ==> StartOf(texts, i) == |LeavesOfAll(texts)|
    ensures LeavesWithin(LeavesOfAll(texts), Interval(posts, i)) == LeavesOfAll(texts)[StartOf(texts, i)..EndOf(texts, i)]
  {
    var leaves := LeavesOfAll(texts);
    var a, b := StartOf(texts, i), EndOf(texts, i);
    SliceBounds(texts, i);
    forall j | 0 <= j < |leaves| ensures Interval(posts, i).Includes(leaves[j].0) <==> a <= j < b {
      IndexInInterval(texts, posts, i, j);
    }
    WithinSlice(leaves, Interval(posts, i), a, b);
  }

  ghost function EndOf(texts: seq<Text>, i: nat): nat
    requires i <= |texts|
  {
    if i < |texts| then StartOf(texts, i + 1) else |LeavesOfAll(texts)|
  }

  lemma SliceBounds(texts: seq<Text>, i: nat)
    requires i <= |texts|
    ensures StartOf(texts, i) <= EndOf(texts, i) <= |LeavesOfAll(texts)|
    ensures i == |texts| ==> StartOf(texts, i) == |LeavesOfAll(texts)|
  {
    if i < |texts| {
      SliceOf(texts, i);
    } else {
      assert texts[..i] == texts;
    }
  }

  lemma IndexInInterval(texts: seq<Text>, posts: seq<Path>, i: nat, j: nat)
    requires |texts| == |posts| && i <= |posts| && InOrder(LeavesOfAll(texts)) && j < |LeavesOfAll(texts)|
    requires forall m :: 0 <= m < |posts| ==> IsPosted(texts[m], posts[m])
    ensures Interval(posts, i).Includes(LeavesOfAll(texts)[j].0) <==> StartOf(texts, i) <= j < EndOf(texts, i)
  {
    if i > 0 {
      AfterPost(texts, posts, i - 1, j);
    } else {
      assert texts[..0] == [];
    }
    if i < |posts| {
      AfterPost(texts, posts, i, j);
    }
  }

  /** Trees that have the same text for an interval agree on it. */
  lemma SameTextSameLeaves(text: Text, a: Node, b: Node, range: Range)
    requires Plain(a) && Plain(b) && IsTextFor(text, a, range) && IsTextFor(text, b, range)
    ensures AgreeOn(range, a, b)
  {
    forall p: Path | range.Includes(p) ensures LeafAt(a, p) == LeafAt(b, p) {
      if IsLeafPath(a, p) {
        LeafShared(a, b, range, p);
      }
      if IsLeafPath(b, p) {
        LeafShared(b, a, range, p);
      }
    }
  }

  lemma LeafShared(a: Node, b: Node, range: Range, p: Path)
    requires Plain(a) && Plain(b) && LeavesWithin(LeavesOf(a), range) == LeavesWithin(LeavesOf(b), range)
    requires range.Includes(p) && IsLeafPath(a, p)
    ensures LeafAt(b, p) == LeafAt(a, p)
  {
    EveryLeafIsVisited(a, p);
    var i :| 0 <= i < |LeavesOf(a)| && LeavesOf(a)[i].0 == p;
    var e := LeavesOf(a)[i];
    LeavesAreLeaves(a, i);
    WithinMembers(LeavesOf(a), range, e);
    WithinMembers(LeavesOf(b), range, e);
    var j :| 0 <= j < |LeavesOf(b)| && LeavesOf(b)[j] == e;
    LeavesAreLeaves(b, j);
  }
}
