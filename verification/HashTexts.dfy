/**
 The texts that are hashed for the ranges of a tree (FCompoundHash.swift), token by token, and a reader
 for them: it accepts the well-formed texts and recovers the leaves written in them with their paths.
 */
module HashTexts {
  import opened Keys
  import opened Paths
  import opened Nodes

  datatype Token = Open | Close | Comma | Colon | Quoted(key: Key) | LeafText(leaf: Node)

  type Text = seq<Token>

  datatype Mark = AtStart | AfterOpen | AfterKey(key: Key) | AfterColon(key: Key) | AfterLeaf | AfterClose | AfterComma

  /** A reader: the open path, the number of open parentheses, what came last, and the leaves read. */
  datatype Reader = Reader(path: Path, depth: nat, mark: Mark, leaves: seq<(Path, Node)>) | Malformed

  const START := Reader([], 0, AtStart, [])

  /** Keys follow an opening parenthesis or a comma, commas separate children, leaves stand alone. */
  function Read(r: Reader, token: Token): Reader {
    if r.Malformed? then Malformed
    else
      match (token, r.mark)
      case (Open, AtStart) => r.(depth := 1, mark := AfterOpen)
      case (Open, AfterColon(k)) => r.(path := r.path + [k], depth := r.depth + 1, mark := AfterOpen)
      case (Quoted(k), AfterOpen) => r.(mark := AfterKey(k))
      case (Quoted(k), AfterComma) => r.(mark := AfterKey(k))
      case (Colon, AfterKey(k)) => r.(mark := AfterColon(k))
      case (Comma, AfterClose) => if r.depth == 0 then Malformed else r.(mark := AfterComma)
      case (LeafText(n), AfterOpen) => r.(mark := AfterLeaf, leaves := r.leaves + [(r.path, n)])
      case (Close, AfterLeaf) => Shut(r)
      case (Close, AfterClose) => Shut(r)
      case _ => Malformed
  }

  /** A closing parenthesis leaves the innermost child, or ends the text. */
  function Shut(r: Reader): Reader
    requires r.Reader?
  {
    if r.depth == 0 then Malformed
    else if r.depth == 1 then if r.path == [] then r.(depth := 0, mark := AfterClose) else Malformed
    else if r.path == [] then Malformed
    else r.(path := r.path[..|r.path| - 1], depth := r.depth - 1, mark := AfterClose)
  }

  function ReadAll(r: Reader, text: Text): Reader
    decreases |text|
  {
    if text == [] then r else ReadAll(Read(r, text[0]), text[1..])
  }

  lemma {:induction false} ReadInSteps(r: Reader, a: Text, b: Text)
    ensures ReadAll(r, a + b) == ReadAll(ReadAll(r, a), b)
    decreases |a|
  {
    if a == [] {
      assert a + b == b;
    } else {
      assert (a + b)[0] == a[0] && (a + b)[1..] == a[1..] + b;
      ReadInSteps(Read(r, a[0]), a[1..], b);
    }
  }

  lemma ReadOne(r: Reader, token: Token)
    ensures ReadAll(r, [token]) == Read(r, token)
  {
    assert [token][1..] == [];
  }

  lemma ReadLast(r: Reader, a: Text, token: Token)
    ensures ReadAll(r, a + [token]) == Read(ReadAll(r, a), token)
  {
    ReadInSteps(r, a, [token]);
    ReadOne(ReadAll(r, a), token);
  }

  lemma ReadThree(r: Reader, a: Token, b: Token, c: Token)
    ensures ReadAll(r, [a, b, c]) == Read(Read(Read(r, a), b), c)
  {
    assert [a, b, c][1..] == [b, c] && [b, c][1..] == [c];
    ReadOne(Read(Read(r, a), b), c);
  }

  lemma ReadKeyTokens(r: Reader, key: Key)
    requires r.Reader? && r.mark in {AfterOpen, AfterComma}
    ensures ReadAll(r, [Quoted(key), Colon, Token.Open]) == Reader(r.path + [key], r.depth + 1, AfterOpen, r.leaves)
  {
    ReadThree(r, Quoted(key), Colon, Token.Open);
    ReadsKey(r, key);
    ReadsColon(Reader(r.path, r.depth, AfterKey(key), r.leaves), key);
    ReadsOpen(Reader(r.path, r.depth, AfterColon(key), r.leaves), key);
  }

  lemma ReadsKey(r: Reader, key: Key)
    requires r.Reader? && r.mark in {AfterOpen, AfterComma}
    ensures Read(r, Quoted(key)) == Reader(r.path, r.depth, AfterKey(key), r.leaves)
  {
  }

  lemma ReadsColon(r: Reader, key: Key)
    requires r.Reader? && r.mark == AfterKey(key)
    ensures Read(r, Colon) == Reader(r.path, r.depth, AfterColon(key), r.leaves)
  {
  }

  lemma ReadsOpen(r: Reader, key: Key)
    requires r.Reader? && r.mark == AfterColon(key)
    ensures Read(r, Token.Open) == Reader(r.path + [key], r.depth + 1, AfterOpen, r.leaves)
  {
  }

  /** The text of a complete range: all parentheses closed. */
  predicate IsRange(text: Text) {
    var r := ReadAll(START, text);
    r.Reader? && r.depth == 0 && r.mark == AfterClose && r.path == []
  }

  /** The leaves written in a text, with their paths. */
  function LeavesIn(text: Text): seq<(Path, Node)> {
    var r := ReadAll(START, text);
    if r.Reader? then r.leaves else []
  }
}
