/**
 The compound hash builder (FCompoundHash.swift). It walks a tree and writes its leaves into ranges; after
 each leaf the range may end, as an arbitrary split strategy decides. The hash of a range is modelled by the
 text that is hashed.
 */
module HashBuilders {
  import opened Options
  import opened Keys
  import opened Paths
  import opened Nodes
  import opened Enumerations
  import opened ImmutableTrees
  import opened Lists
  import opened HashTexts
  import opened Leaves
  import opened HashRanges
  import opened RangeSync

  /** Everything down to `path` is open, and something has been written there. */
  ghost predicate IsOpenAt(text: Text, path: Path, leaves: seq<(Path, Node)>) {
    var r := ReadAll(START, text);
    r.Reader? && r.path == path && r.depth == |path| + 1 && r.mark in {AfterLeaf, AfterClose} && r.leaves == leaves
  }

  lemma CloseOne(text: Text, path: Path, leaves: seq<(Path, Node)>)
    requires IsOpenAt(text, path, leaves) && path != []
    ensures IsOpenAt(text + [Token.Close], path[..|path| - 1], leaves)
  {
    ReadLast(START, text, Token.Close);
  }

  lemma CloseLast(text: Text, leaves: seq<(Path, Node)>)
    requires IsOpenAt(text, [], leaves)
    ensures IsRange(text + [Token.Close]) && LeavesIn(text + [Token.Close]) == leaves
  {
    ReadLast(START, text, Token.Close);
  }

  class HashBuilder {
    var currentPaths: seq<Path>
    var currentHashes: seq<Text>
    var optHashValueBuilder: Option<Text>
    var keys: seq<Key>
    var lastLeafDepth: int
    var currentPathDepth: nat
    var needsComma: bool

    constructor ()
      ensures Valid() && AllLeaves() == [] && optHashValueBuilder == None && currentPathDepth == 0
      ensures currentPaths == []
    {
      currentPaths := [];
      currentHashes := [];
      optHashValueBuilder := None;
      keys := [];
      lastLeafDepth := -1;
      currentPathDepth := 0;
      needsComma := true;
      new;
      assert LeavesOfAll([]) == [];
    }

    /** What a reader makes of the open range. */
    ghost function Open(): Reader
      reads this
    {
      if optHashValueBuilder.Some? then ReadAll(START, optHashValueBuilder.value) else START
    }

    ghost predicate Valid()
      reads this
    {
      && currentPathDepth <= |keys|
      && |currentPaths| == |currentHashes|
      && (forall i :: 0 <= i < |currentHashes| ==> IsPosted(currentHashes[i], currentPaths[i]))
      && (optHashValueBuilder.Some? ==>
            && Open().Reader?
            && Open().path == keys[..currentPathDepth]
            && Open().depth == currentPathDepth + 1
            && Open().mark == if needsComma then (if IsAfterLeaf() then AfterLeaf else AfterClose) else AfterOpen)
    }

    ghost predicate IsAfterLeaf()
      reads this
    {
      Open().Reader? && Open().mark == AfterLeaf
    }

    /** All leaves written so far, closed ranges first. */
    ghost function AllLeaves(): seq<(Path, Node)>
      reads this
      requires Valid()
    {
      LeavesOfAll(currentHashes) + (if optHashValueBuilder.Some? then Open().leaves else [])
    }

    /** The key stack still spells the path of the last leaf. */
    ghost predicate RemembersLastLeaf()
      reads this
      requires Valid()
    {
      AllLeaves() != [] ==>
        0 <= lastLeafDepth <= |keys| && keys[..lastLeafDepth] == AllLeaves()[|AllLeaves()| - 1].0
    }

    function CurrentPath(depth: nat): Path
      reads this
      requires depth <= |keys|
    {
      keys[..depth]
    }

    method EnsureRange()
      requires Valid()
      modifies this`optHashValueBuilder, this`needsComma
      ensures Valid() && optHashValueBuilder.Some? && AllLeaves() == old(AllLeaves())
      ensures old(optHashValueBuilder).Some? ==> Open() == old(Open()) && needsComma == old(needsComma)
      ensures old(optHashValueBuilder).None? ==> !needsComma
    {
      if optHashValueBuilder.None? {
        var text := [Token.Open];
        ReadOne(START, Token.Open);
        var i := 0;
        while i < currentPathDepth
          invariant 0 <= i <= currentPathDepth
          invariant ReadAll(START, text) == Reader(keys[..i], i + 1, AfterOpen, [])
        {
          var key := keys[i];
          ReadKey(text, key);
          text := text + [Quoted(key), Colon, Token.Open];
          assert keys[..i] + [key] == keys[..i + 1];
          i := i + 1;
        }
        optHashValueBuilder := Some(text);
        needsComma := false;
      }
    }

    method Append(tokens: Text)
      requires optHashValueBuilder.Some?
      modifies this`optHashValueBuilder
      ensures optHashValueBuilder.Some?
      ensures optHashValueBuilder.value == old(optHashValueBuilder).value + tokens
      ensures Open() == ReadAll(old(Open()), tokens)
    {
      ReadInSteps(START, optHashValueBuilder.value, tokens);
      optHashValueBuilder := Some(optHashValueBuilder.value + tokens);
    }

    method ProcessLeaf(leafNode: Node)
      requires Valid() && leafNode.Leaf? && (optHashValueBuilder.Some? ==> !needsComma)
      modifies this
      ensures Valid() && AllLeaves() == old(AllLeaves()) + [(old(keys[..currentPathDepth]), leafNode)]
      ensures RemembersLastLeaf() && Tidy() && needsComma
      ensures currentPathDepth == old(currentPathDepth) && keys == old(keys)
    {
      EnsureRange();
      lastLeafDepth := currentPathDepth;
      ghost var before := Open();
      Append([LeafText(leafNode)]);
      ReadOne(before, LeafText(leafNode));
      needsComma := true;
      assert AllLeaves() == old(AllLeaves()) + [(keys[..currentPathDepth], leafNode)];
      // the strategy may look at the text and the path and may keep a state: any answer is possible
      var splits: bool := *;
      if splits {
        EndRange();
      }
    }

    /** An open range holds at least one leaf. */
    ghost predicate Tidy()
      reads this
    {
      optHashValueBuilder.Some? ==> Open().Reader? && Open().leaves != []
    }

    method AppendComma()
      requires Valid() && optHashValueBuilder.Some? && !IsAfterLeaf()
      modifies this`optHashValueBuilder
      ensures optHashValueBuilder.Some?
      ensures Open() == old(Open()).(mark := if needsComma then AfterComma else AfterOpen)
    {
      if needsComma {
        ghost var before := Open();
        Append([Comma]);
        ReadOne(before, Comma);
      }
    }

    method StartChild(key: Key)
      requires Valid() && (optHashValueBuilder.Some? ==> !IsAfterLeaf())
      modifies this
      ensures Valid() && AllLeaves() == old(AllLeaves())
      ensures optHashValueBuilder.Some? && !needsComma
      ensures currentPathDepth == old(currentPathDepth) + 1
      ensures keys[..currentPathDepth] == old(keys[..currentPathDepth]) + [key]
    {
      EnsureRange();
      AppendComma();
      ReadKeyTokens(Open(), key);
      Append([Quoted(key), Colon, Token.Open]);
      if currentPathDepth == |keys| {
        keys := keys + [key];
      } else {
        keys := keys[currentPathDepth := key];
      }
      assert keys[..currentPathDepth + 1] == old(keys[..currentPathDepth]) + [key];
      currentPathDepth := currentPathDepth + 1;
      needsComma := false;
    }

    method EndChild()
      requires Valid() && currentPathDepth > 0 && (optHashValueBuilder.Some? ==> needsComma)
      modifies this`currentPathDepth, this`optHashValueBuilder, this`needsComma
      ensures Valid() && AllLeaves() == old(AllLeaves())
      ensures currentPathDepth == old(currentPathDepth) - 1 && needsComma
      ensures optHashValueBuilder.Some? <==> old(optHashValueBuilder).Some?
      ensures optHashValueBuilder.Some? ==> !IsAfterLeaf() && Open().leaves == old(Open().leaves)
    {
      currentPathDepth := currentPathDepth - 1;
      if optHashValueBuilder.Some? {
        ghost var before := Open();
        Append([Token.Close]);
        ReadOne(before, Token.Close);
        assert keys[..currentPathDepth + 1][..currentPathDepth] == keys[..currentPathDepth];
      }
      needsComma := true;
    }

    method EndRange()
      requires Valid() && optHashValueBuilder.Some? && needsComma && RemembersLastLeaf() && Tidy()
      modifies this`optHashValueBuilder, this`currentHashes, this`currentPaths
      ensures Valid() && AllLeaves() == old(AllLeaves()) && optHashValueBuilder == None
      ensures RemembersLastLeaf()
      ensures |currentHashes| == |old(currentHashes)| + 1
    {
      ghost var leaves := Open().leaves;
      var text := optHashValueBuilder.value;
      var i := 0;
      while i < currentPathDepth
        invariant 0 <= i <= currentPathDepth
        invariant IsOpenAt(text, keys[..currentPathDepth - i], leaves)
        modifies {}
      {
        CloseOne(text, keys[..currentPathDepth - i], leaves);
        assert keys[..currentPathDepth - i][..currentPathDepth - i - 1] == keys[..currentPathDepth - i - 1];
        text := text + [Token.Close];
        i := i + 1;
      }
      CloseLast(text, leaves);
      text := text + [Token.Close];
      var lastLeafPath := CurrentPath(lastLeafDepth);
      assert IsPosted(text, lastLeafPath);
      LeavesOfOneMore(currentHashes, text);
      currentHashes := currentHashes + [text];
      currentPaths := currentPaths + [lastLeafPath];
      optHashValueBuilder := None;
    }

    /** Visits a tree below the current path and writes its leaves. */
    method ProcessNode(node: Node)
      requires Valid() && Canonical(node) && (optHashValueBuilder.Some? ==> !needsComma)
      modifies this
      ensures Valid() && AllLeaves() == old(AllLeaves()) + Under(old(keys[..currentPathDepth]), LeavesOf(node))
      ensures currentPathDepth == old(currentPathDepth) && keys[..currentPathDepth] == old(keys[..currentPathDepth])
      ensures node != Empty ==> RemembersLastLeaf() && Tidy() && needsComma
      decreases node, 2
    {
      match node {
        case Empty =>
          assert AllLeaves() + [] == AllLeaves();
        case Leaf(_, _) =>
          ProcessLeaf(node);
          assert Under(keys[..currentPathDepth], [([], node)]) == [(keys[..currentPathDepth] + [], node)];
          assert keys[..currentPathDepth] + [] == keys[..currentPathDepth];
        case Children(_, _) =>
          ProcessChildren(node);
      }
    }

    /** `enumerateChildrenAndPriority` with the visit of `processNode`. */
    method ProcessChildren(node: Node)
      requires Valid() && Canonical(node) && node.Children? && (optHashValueBuilder.Some? ==> !needsComma)
      modifies this
      ensures Valid() && AllLeaves() == old(AllLeaves()) + Under(old(keys[..currentPathDepth]), LeavesOf(node))
      ensures currentPathDepth == old(currentPathDepth) && keys[..currentPathDepth] == old(keys[..currentPathDepth])
      ensures RemembersLastLeaf() && Tidy() && needsComma
      decreases node, 1
    {
      var passedPriorityKey := node.priority.IsEmpty();
      var todo := node.kids.Keys;
      ghost var path, before := keys[..currentPathDepth], AllLeaves();
      VisitsAreValid(node);
      while todo != {}
        invariant todo <= node.kids.Keys && Valid()
        invariant node.priority.IsEmpty() ==> passedPriorityKey
        invariant currentPathDepth == old(currentPathDepth) && keys[..currentPathDepth] == path
        invariant optHashValueBuilder.Some? ==> !IsAfterLeaf()
        invariant todo != node.kids.Keys ==> RemembersLastLeaf() && Tidy() && needsComma
        invariant CanVisit(node, Remaining(todo, passedPriorityKey))
        invariant AllLeaves() + Under(path, KeyLeaves(node, Remaining(todo, passedPriorityKey)))
                  == before + Under(path, LeavesOf(node))
      {
        var key := First(ByKey, todo);
        passedPriorityKey := ProcessKey(node, key, todo, passedPriorityKey);
        todo := todo - {key};
      }
    }

    /** The block of the enumeration: the priority first, if it is due, then the child. */
    method ProcessKey(node: Node, key: Key, ghost todo: set<Key>, passedBefore: bool) returns (passed: bool)
      requires Valid() && Canonical(node) && node.Children? && (optHashValueBuilder.Some? ==> !IsAfterLeaf())
      requires key in node.kids && (node.priority.IsEmpty() ==> passedBefore)
      requires CanVisit(node, Remaining(todo, passedBefore))
      requires Sorted(ByKey, todo) == [key] + Sorted(ByKey, todo - {key})
      modifies this
      ensures Valid() && currentPathDepth == old(currentPathDepth)
      ensures keys[..currentPathDepth] == old(keys[..currentPathDepth])
      ensures RemembersLastLeaf() && Tidy() && needsComma && (optHashValueBuilder.Some? ==> !IsAfterLeaf())
      ensures (node.priority.IsEmpty() ==> passed) && CanVisit(node, Remaining(todo - {key}, passed))
      ensures AllLeaves() + Under(keys[..currentPathDepth], KeyLeaves(node, Remaining(todo - {key}, passed)))
              == old(AllLeaves()) + Under(keys[..currentPathDepth], KeyLeaves(node, Remaining(todo, passedBefore)))
      decreases node, 0, 1
    {
      passed := ProcessPriority(node, key, todo, passedBefore);
      ghost var path, before := keys[..currentPathDepth], AllLeaves();
      ghost var own := Under(path, Below(key, LeavesOf(node.kids[key])));
      ghost var rest := Under(path, KeyLeaves(node, Remaining(todo - {key}, passed)));
      NextLeaves(node, path, key, Remaining(todo - {key}, passed));
      ProcessChild(key, node.kids[key]);
      assert AllLeaves() == before + own;
      Associative(before, own, rest);
    }

    method ProcessPriority(node: Node, key: Key, ghost todo: set<Key>, passedBefore: bool) returns (passed: bool)
      requires Valid() && Canonical(node) && node.Children? && (optHashValueBuilder.Some? ==> !IsAfterLeaf())
      requires key in node.kids && (node.priority.IsEmpty() ==> passedBefore)
      requires CanVisit(node, Remaining(todo, passedBefore))
      requires Sorted(ByKey, todo) == [key] + Sorted(ByKey, todo - {key})
      modifies this
      ensures Valid() && currentPathDepth == old(currentPathDepth)
      ensures keys[..currentPathDepth] == old(keys[..currentPathDepth])
      ensures optHashValueBuilder.Some? ==> !IsAfterLeaf()
      ensures node.priority.IsEmpty() ==> passed
      ensures CanVisit(node, [key] + Remaining(todo - {key}, passed))
      ensures AllLeaves() + Under(keys[..currentPathDepth], KeyLeaves(node, [key] + Remaining(todo - {key}, passed)))
              == old(AllLeaves()) + Under(keys[..currentPathDepth], KeyLeaves(node, Remaining(todo, passedBefore)))
      decreases node, 0, 0
    {
      passed := passedBefore;
      RemainingStep(todo, key, passed);
      if !passed && CompareKey(key, PRIORITY) == Descending {
        passed := true;
        ghost var path, before := keys[..currentPathDepth], AllLeaves();
        ghost var own := Under(path, Below(PRIORITY, LeavesOf(node.priority)));
        ghost var rest := Under(path, KeyLeaves(node, [key] + Remaining(todo - {key}, true)));
        NextLeaves(node, path, PRIORITY, [key] + Remaining(todo - {key}, true));
        ProcessChild(PRIORITY, node.priority);
        assert AllLeaves() == before + own;
        Associative(before, own, rest);
      }
    }

    /** One child of the enumeration. */
    method ProcessChild(key: Key, child: Node)
      requires Valid() && Canonical(child) && child != Empty && (optHashValueBuilder.Some? ==> !IsAfterLeaf())
      modifies this
      ensures Valid() && AllLeaves() == old(AllLeaves()) + Under(old(keys[..currentPathDepth]), Below(key, LeavesOf(child)))
      ensures currentPathDepth == old(currentPathDepth) && keys[..currentPathDepth] == old(keys[..currentPathDepth])
      ensures RemembersLastLeaf() && Tidy() && needsComma && (optHashValueBuilder.Some? ==> !IsAfterLeaf())
      decreases child, 3
    {
      ghost var path := keys[..currentPathDepth];
      StartChild(key);
      ProcessNode(child);
      EndChild();
      UnderBelow(path, key, LeavesOf(child));
      assert keys[..currentPathDepth + 1][..currentPathDepth] == path;
    }

    /** Closes the last range; the empty text stands for the remaining, empty range. */
    method FinishHashing()
      requires Valid() && currentPathDepth == 0 && RemembersLastLeaf() && Tidy() && needsComma
      modifies this
      ensures |currentHashes| == |currentPaths| + 1 && currentHashes[|currentPaths|] == []
      ensures forall i :: 0 <= i < |currentPaths| ==> IsPosted(currentHashes[i], currentPaths[i])
      ensures LeavesOfAll(currentHashes[..|currentPaths|]) == old(AllLeaves())
    {
      if optHashValueBuilder.Some? {
        EndRange();
      }
      assert (currentHashes + [[]])[..|currentPaths|] == currentHashes;
      currentHashes := currentHashes + [[]];
    }
  }

  /** The compound hash of a tree: the posts and, one more, the texts of the ranges they end. */
  method FromNode(node: Node) returns (posts: seq<Path>, hashes: seq<Text>)
    requires Canonical(node)
    ensures |hashes| == |posts| + 1 && hashes[|posts|] == []
    ensures forall i :: 0 <= i < |posts| ==> IsPosted(hashes[i], posts[i])
    ensures LeavesOfAll(hashes[..|posts|]) == LeavesOf(node)
    ensures forall i :: 0 <= i <= |posts| ==> IsTextFor(hashes[i], node, Interval(posts, i))
    ensures Plain(node) ==> GoodPosts(node, posts)
  {
    if node.IsEmpty() {
      posts, hashes := [], [[]];
      assert hashes[..0] == [];
    } else {
      var builder := new HashBuilder();
      builder.ProcessNode(node);
      assert builder.AllLeaves() == LeavesOf(node) by {
        assert Under([], LeavesOf(node)) == LeavesOf(node) by {
          assert forall p: Path :: [] + p == p;
        }
      }
      builder.FinishHashing();
      posts, hashes := builder.currentPaths, builder.currentHashes;
    }
    PostsAndTexts(node, posts, hashes);
  }

  lemma PostsAndTexts(node: Node, posts: seq<Path>, hashes: seq<Text>)
    requires Canonical(node) && |hashes| == |posts| + 1 && hashes[|posts|] == []
    requires forall i :: 0 <= i < |posts| ==> IsPosted(hashes[i], posts[i])
    requires LeavesOfAll(hashes[..|posts|]) == LeavesOf(node)
    ensures forall i :: 0 <= i <= |posts| ==> IsTextFor(hashes[i], node, Interval(posts, i))
    ensures Plain(node) ==> GoodPosts(node, posts)
  {
    LeavesInOrder(node);
    TextsForIntervals(node, posts, hashes);
    if Plain(node) {
      PostsAreGood(node, posts, hashes[..|posts|]);
    }
  }

  /** The answers to a compound hash: a range whose text is the target's own may be left alone. */
  ghost predicate AnswersTo(target: Node, posts: seq<Path>, hashes: seq<Text>, answers: seq<Answer>) {
    && |answers| == |hashes| == |posts| + 1
    && forall i :: 0 <= i <= |posts| ==>
         match answers[i]
         case Unchanged => IsTextFor(hashes[i], target, Interval(posts, i))
         case Replaced(updates) => Plain(updates) && AgreeOn(Interval(posts, i), updates, target)
  }

  /** The whole exchange: hash a stale tree, let the server answer, apply the answers. */
  method Resynchronise(stale: Node, target: Node) returns (posts: seq<Path>, hashes: seq<Text>)
    requires Plain(stale) && Plain(target)
    ensures forall answers: seq<Answer> :: AnswersTo(target, posts, hashes, answers) ==>
              ApplyAll(Messages(posts, answers, 0), stale) == target
  {
    PlainIsCanonical(stale);
    posts, hashes := FromNode(stale);
    forall answers: seq<Answer> | AnswersTo(target, posts, hashes, answers)
      ensures ApplyAll(Messages(posts, answers, 0), stale) == target
    {
      forall i | 0 <= i <= |posts| && answers[i].Unchanged? ensures AgreeOn(Interval(posts, i), stale, target) {
        SameTextSameLeaves(hashes[i], stale, target, Interval(posts, i));
      }
      forall i | 0 <= i <= |posts| ensures IsAnswerFor(Interval(posts, i), stale, target, answers[i]) {
        if answers[i].Replaced? {
          PlainIsCanonical(answers[i].updates);
        }
      }
      SyncReachesTarget(stale, target, posts, answers);
    }
  }

  /** The keys still to visit. */
  ghost function Remaining(todo: set<Key>, passedPriorityKey: bool): seq<Key> {
    if passedPriorityKey then Sorted(ByKey, todo) else InsertPriority(Sorted(ByKey, todo))
  }

  lemma RemainingStep(todo: set<Key>, key: Key, passed: bool)
    requires Sorted(ByKey, todo) == [key] + Sorted(ByKey, todo - {key})
    ensures Remaining(todo, passed)
            == if !passed && CompareKey(key, PRIORITY) == Descending then [PRIORITY] + ([key] + Remaining(todo - {key}, true))
               else [key] + Remaining(todo - {key}, passed)
  {
    assert ([key] + Sorted(ByKey, todo - {key}))[1..] == Sorted(ByKey, todo - {key});
  }

  lemma NextLeaves(n: Node, path: Path, key: Key, rest: seq<Key>)
    requires CanVisit(n, [key] + rest)
    ensures CanVisit(n, rest) && (key == PRIORITY || key in n.kids)
    ensures Under(path, KeyLeaves(n, [key] + rest))
            == Under(path, Below(key, LeavesOf(if key == PRIORITY then n.priority else n.kids[key])))
               + Under(path, KeyLeaves(n, rest))
  {
    assert key in [key] + rest;
    assert forall k :: k in rest ==> k in [key] + rest;
    assert ([key] + rest)[1..] == rest;
    var own := Below(key, LeavesOf(if key == PRIORITY then n.priority else n.kids[key]));
    assert KeyLeaves(n, [key] + rest) == own + KeyLeaves(n, rest);
    UnderJoin(path, own, KeyLeaves(n, rest));
  }

  lemma UnderBelow(path: Path, key: Key, leaves: seq<(Path, Node)>)
    ensures Under(path, Below(key, leaves)) == Under(path + [key], leaves)
  {
    assert forall i :: 0 <= i < |leaves| ==> path + ([key] + leaves[i].0) == path + [key] + leaves[i].0;
  }

  /** Opening a child appends its key to the path. */
  lemma ReadKey(text: Text, key: Key)
    requires ReadAll(START, text).Reader? && ReadAll(START, text).mark in {AfterOpen, AfterComma}
    ensures var r := ReadAll(START, text);
            ReadAll(START, text + [Quoted(key), Colon, Token.Open])
            == Reader(r.path + [key], r.depth + 1, AfterOpen, r.leaves)
  {
    var r := ReadAll(START, text);
    ReadInSteps(START, text, [Quoted(key), Colon, Token.Open]);
    ReadKeyTokens(r, key);
  }
}
