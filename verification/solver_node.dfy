/** struct solver_node of reverse_wordle.c with create_solver_node and
    reset_must_be, and the value each node stands for. */
module SolverNodes {
  import opened WordleTypes

  /** n empty must_be entries. */
  function EmptyEntries(n: nat): (r: seq<string>)
    ensures |r| == n && forall i :: 0 <= i < n ==> r[i] == ""
  {
    if n == 0 then [] else EmptyEntries(n - 1) + [""]
  }

  /** The must_be array of a fresh child: WORDLEN empty strings. */
  const EMPTY_MUST_BE: seq<string> := EmptyEntries(WORDLEN)

  /** The constraints a child starts from: the parent's, with every must_be
      entry emptied and cannot_be kept. */
  function MustBeCleared(c: ConstraintSet): (r: ConstraintSet)
    ensures r.cannotBe == c.cannotBe
    ensures forall i :: 0 <= i < WORDLEN ==> r.mustBe[i] == ""
  {
    c.(mustBe := EMPTY_MUST_BE)
  }

  /** A value view of struct solver_node: the word, the constraints (None for
      the C NULL of a leaf) and the child list in sibling order. */
  datatype Node = Node(word: string, con: Option<ConstraintSet>, children: seq<Node>)

  /** struct solver_node. Each node owns its constraint value (the C code
      stores the caller's address and later frees it); `Tree` is the value
      the node and its descendants stand for, and `Repr` their footprint. */
  class SolverNode {
    var word: string
    var con: Option<ConstraintSet>
    var childList: seq<SolverNode>
    ghost var Repr: set<SolverNode>
    ghost var Tree: Node

    /** The children are distinct, disjoint subtrees owned by this node. */
    ghost predicate Valid()
      reads this, Repr
      decreases Repr
    {
      this in Repr &&
      Tree.word == word && Tree.con == con && |Tree.children| == |childList| &&
      (forall k :: 0 <= k < |childList| ==>
        childList[k] in Repr && childList[k].Repr <= Repr && this !in childList[k].Repr) &&
      (forall k, l :: 0 <= k < l < |childList| ==> childList[k].Repr !! childList[l].Repr) &&
      (forall k :: 0 <= k < |childList| ==>
        childList[k].Valid() && childList[k].Tree == Tree.children[k])
    }

    /** create_solver_node: a node with the word, the given constraints (or
      none) and no children. */
    constructor (con: Option<ConstraintSet>, word: string)
      requires |word| <= WORDLEN
      ensures Valid() && Repr == {this}
      ensures this.word == word && this.con == con && childList == []
      ensures Tree == Node(word, con, [])
    {
      this.word := word;
      this.con := con;
      childList := [];
      Repr := {this};
      Tree := Node(word, con, []);
    }

    /** reset_must_be: empties every must_be entry of the node's constraints
        in place and leaves cannot_be and the rest of the node alone. */
    method ResetMustBe()
      requires Valid() && con.Some?
      modifies this
      ensures Valid() && Repr == old(Repr)
      ensures word == old(word) && childList == old(childList)
      ensures con == Some(MustBeCleared(old(con).value))
      ensures Tree == old(Tree).(con := con)
    {
      ghost var c0 := con.value;
      for i := 0 to WORDLEN
        invariant con.Some? && con.value.cannotBe == c0.cannotBe
        invariant forall j :: 0 <= j < i ==> con.value.mustBe[j] == ""
        invariant word == old(word) && childList == old(childList)
        invariant Repr == old(Repr) && Tree == old(Tree)
      {
        var c := con.value;
        con := Some(c.(mustBe := c.mustBe[i := ""]));
      }
      assert con.value.mustBe == EMPTY_MUST_BE;
      Tree := Tree.(con := con);
    }
  }

  /** The child list of p is a list of valid, disjoint subtrees owned by p
      that stand for `trees`. */
  ghost predicate OwnsChildren(p: SolverNode, trees: seq<Node>)
    reads p, p.Repr
  {
    p in p.Repr && |p.childList| == |trees| &&
    (forall j :: 0 <= j < |p.childList| ==>
      p.childList[j] in p.Repr && p.childList[j].Repr <= p.Repr && p !in p.childList[j].Repr) &&
    (forall j, l :: 0 <= j < l < |p.childList| ==> p.childList[j].Repr !! p.childList[l].Repr) &&
    (forall j :: 0 <= j < |p.childList| ==> p.childList[j].Valid() && p.childList[j].Tree == trees[j])
  }

  /** A node whose child list stands for its tree's children, and whose word
      and constraints are its tree's, is valid. */
  lemma OwnsChildrenValid(p: SolverNode)
    requires OwnsChildren(p, p.Tree.children)
    requires p.Tree.word == p.word && p.Tree.con == p.con
    ensures p.Valid()
  {
  }

  /** The linking step of the dictionary scan (lines 217 and 225-226): the
      new node is appended to the parent's child list. */
  method AttachChild(parent: SolverNode, child: SolverNode, ghost trees: seq<Node>)
    requires OwnsChildren(parent, trees)
    requires child.Valid() && child.Repr !! parent.Repr
    modifies parent`childList, parent`Repr
    ensures parent.childList == old(parent.childList) + [child]
    ensures parent.Repr == old(parent.Repr) + child.Repr
    ensures OwnsChildren(parent, trees + [child.Tree])
  {
    ghost var siblings := parent.childList;
    parent.childList := parent.childList + [child];
    parent.Repr := parent.Repr + child.Repr;
    forall j | 0 <= j < |parent.childList|
      ensures parent.childList[j].Valid() && parent.childList[j].Tree == (trees + [child.Tree])[j]
    {
      if j < |siblings| {
        assert parent.childList[j] == siblings[j];
      } else {
        assert parent.childList[j] == child;
      }
    }
  }
}
