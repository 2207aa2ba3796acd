/** The token stream `lexer` returns: a singly linked list of `Lex` records
    behind a sentinel head, extended at the tail (src/lexer.c:102-111,
    173-174). */
module TokenStream {
  import opened Tokens

  /** One `Lex` record: the token and the link to the next record. */
  class Node {
    const tok: Token
    var next: Node?

    constructor (t: Token)
      ensures tok == t && next == null
    {
      tok := t;
      next := null;
    }
  }

  /** `lex_head` together with the tail pointer `current`. The sentinel holds
      the zero-initialised record `{ 0 }`; the tokens follow it in order. */
  class TokenList {
    const head: Node
    var tail: Node
    /** The records from the sentinel to the tail, in link order. */
    ghost var nodes: seq<Node>
    /** The tokens the list holds, sentinel excluded. */
    ghost var Contents: seq<Token>
    ghost var Repr: set<object>

    ghost predicate Valid()
      reads this, Repr
    {
      this in Repr &&
      |nodes| == |Contents| + 1 &&
      nodes[0] == head && nodes[|nodes| - 1] == tail &&
      (forall i :: 0 <= i < |nodes| ==> nodes[i] in Repr) &&
      (forall i, j :: 0 <= i < j < |nodes| ==> nodes[i] != nodes[j]) &&
      (forall i :: 0 <= i < |nodes| - 1 ==> nodes[i].next == nodes[i + 1]) &&
      tail.next == null &&
      (forall i :: 0 <= i < |Contents| ==> nodes[i + 1].tok == Contents[i])
    }

    /** The sentinel record alone, with the tail pointer on it. */
    constructor ()
      ensures Valid() && fresh(Repr)
      ensures Contents == []
    {
      var sentinel := new Node(Token(0, Integer(0), 0, 0));
      head := sentinel;
      tail := sentinel;
      nodes := [sentinel];
      Contents := [];
      Repr := {this, sentinel};
    }

    /** A new record holding `t`, linked after the tail, becomes the tail. */
    method Append(t: Token)
      requires Valid()
      modifies Repr
      ensures Valid() && fresh(Repr - old(Repr))
      ensures Contents == old(Contents) + [t]
    {
      var node := new Node(t);
      tail.next := node;
      tail := node;
      nodes := nodes + [node];
      Contents := Contents + [t];
      Repr := Repr + {node};
    }
  }
}
