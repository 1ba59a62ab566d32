/**
 * The tree of collected clues (`PistaNode`): an unbalanced binary search
 * tree keyed by `strcmp`, in which a clue equal to a node's goes right, so
 * repeated clues are kept.  `Clues` is its value; `PistaNode` the nodes the C
 * code mutates in place.
 */
module ClueIndex {
  import opened CStrings

  datatype Clues = Leaf | Node(left: Clues, key: CString, right: Clues)

  /** `inserirPista` on values: descend left on `strcmp < 0`, otherwise right. */
  function Insert(t: Clues, pista: CString): Clues
  {
    match t
    case Leaf => Node(Leaf, pista, Leaf)
    case Node(l, k, r) =>
      if Less(pista, k) then Node(Insert(l, pista), k, r)
      else Node(l, k, Insert(r, pista))
  }

  /** The clues in the order `exibirPistas` prints them: left, node, right. */
  function InOrder(t: Clues): seq<CString>
  {
    match t
    case Leaf => []
    case Node(l, k, r) => InOrder(l) + [k] + InOrder(r)
  }

  /**
   * The search-tree invariant: every clue left of a node is strictly less
   * than it, every clue right of it is greater or equal.
   */
  ghost predicate Ordered(t: Clues)
  {
    match t
    case Leaf => true
    case Node(l, k, r) =>
      && Ordered(l) && Ordered(r)
      && (forall x | x in InOrder(l) :: Less(x, k))
      && (forall x | x in InOrder(r) :: !Less(x, k))
  }

  /** Non-decreasing under `strcmp`. */
  ghost predicate Sorted(s: seq<CString>)
  {
    forall i, j | 0 <= i < j < |s| :: !Less(s[j], s[i])
  }

  /** Inserting adds exactly one copy of the clue and loses nothing. */
  lemma {:induction false} InsertAddsOneCopy(t: Clues, pista: CString)
    ensures multiset(InOrder(Insert(t, pista))) == multiset(InOrder(t)) + multiset{pista}
  {
    match t
    case Leaf =>
    case Node(l, k, r) =>
      if Less(pista, k) {
        InsertAddsOneCopy(l, pista);
      } else {
        InsertAddsOneCopy(r, pista);
      }
  }

  /** Inserting into an empty tree gives a single node without children. */
  lemma InsertIntoEmpty(pista: CString)
    ensures Insert(Leaf, pista) == Node(Leaf, pista, Leaf)
    ensures InOrder(Insert(Leaf, pista)) == [pista]
  {
  }

  /** Inserting keeps the search-tree invariant. */
  lemma {:induction false} InsertKeepsOrdered(t: Clues, pista: CString)
    requires Ordered(t)
    ensures Ordered(Insert(t, pista))
  {
    match t
    case Leaf =>
    case Node(l, k, r) =>
      if Less(pista, k) {
        InsertKeepsOrdered(l, pista);
        InsertAddsOneCopy(l, pista);
        forall x | x in InOrder(Insert(l, pista)) ensures Less(x, k) {
          assert x in multiset(InOrder(Insert(l, pista)));
        }
      } else {
        InsertKeepsOrdered(r, pista);
        InsertAddsOneCopy(r, pista);
        forall x | x in InOrder(Insert(r, pista)) ensures !Less(x, k) {
          assert x in multiset(InOrder(Insert(r, pista)));
        }
      }
  }

  /** The in-order sequence of a search tree is sorted. */
  lemma {:induction false} OrderedInOrderSorted(t: Clues)
    requires Ordered(t)
    ensures Sorted(InOrder(t))
  {
    match t
    case Leaf =>
    case Node(l, k, r) =>
      OrderedInOrderSorted(l);
      OrderedInOrderSorted(r);
      var sl, sr := InOrder(l), InOrder(r);
      var s := sl + [k] + sr;
      forall i, j | 0 <= i < j < |s| ensures !Less(s[j], s[i]) {
        if j < |sl| {
          assert s[i] == sl[i] && s[j] == sl[j];
        } else if i > |sl| {
          assert s[i] == sr[i - |sl| - 1] && s[j] == sr[j - |sl| - 1];
        } else if i < |sl| && j == |sl| {
          assert s[i] == sl[i] && s[i] in sl;
          LessAsymmetric(s[i], k);
        } else if i == |sl| {
          assert s[j] == sr[j - |sl| - 1] && s[j] in sr;
        } else {
          assert s[i] == sl[i] && s[i] in sl;
          assert s[j] == sr[j - |sl| - 1] && s[j] in sr;
          if Less(s[j], s[i]) {
            LessTransitive(s[j], s[i], k);
          }
        }
      }
  }

  /** Whatever was inserted, the printed list stays sorted and keeps duplicates. */
  lemma InsertSortedWithDuplicates(t: Clues, pista: CString)
    requires Ordered(t)
    ensures Sorted(InOrder(Insert(t, pista)))
    ensures multiset(InOrder(Insert(t, pista)))[pista] == multiset(InOrder(t))[pista] + 1
  {
    InsertKeepsOrdered(t, pista);
    OrderedInOrderSorted(Insert(t, pista));
    InsertAddsOneCopy(t, pista);
  }

  /** A node of the clue tree; `Tree` is the value of the subtree rooted here. */
  class PistaNode {
    var pista: CString
    var esquerda: PistaNode?
    var direita: PistaNode?
    ghost var Tree: Clues
    ghost var Repr: set<PistaNode>

    ghost predicate Valid()
      reads this, Repr
      decreases Repr
    {
      && this in Repr
      && (esquerda != null ==>
            esquerda in Repr && esquerda.Repr <= Repr && this !in esquerda.Repr && esquerda.Valid())
      && (direita != null ==>
            direita in Repr && direita.Repr <= Repr && this !in direita.Repr && direita.Valid())
      && (esquerda != null && direita != null ==> esquerda.Repr !! direita.Repr)
      && Tree == Node(TreeOf(esquerda), pista, TreeOf(direita))
    }

    /** `criarPistaNode`: a node holding a copy of the clue and no children. */
    constructor (pista: CString)
      ensures Valid() && fresh(Repr)
      ensures this.pista == pista && esquerda == null && direita == null
      ensures Tree == Node(Leaf, pista, Leaf)
    {
      this.pista := pista;
      esquerda := null;
      direita := null;
      Tree := Node(Leaf, pista, Leaf);
      Repr := {this};
    }
  }

  /** The value of the tree a possibly-NULL pointer points to. */
  ghost function TreeOf(n: PistaNode?): Clues
    reads n
  {
    if n == null then Leaf else n.Tree
  }

  /** The nodes of the tree a possibly-NULL pointer points to. */
  ghost function ReprOf(n: PistaNode?): set<PistaNode>
    reads n
  {
    if n == null then {} else n.Repr
  }

  /**
   * `inserirPista`: allocates a node for an empty tree, and otherwise
   * reassigns the child pointer on the path to the new leaf, returning the
   * same root.
   */
  method InserirPista(raiz: PistaNode?, pista: CString) returns (r: PistaNode)
    requires raiz != null ==> raiz.Valid()
    modifies if raiz != null then raiz.Repr else {}
    ensures r.Valid()
    ensures r.Tree == Insert(old(TreeOf(raiz)), pista)
    ensures raiz == null ==> r.esquerda == null && r.direita == null && r.pista == pista
    ensures raiz != null ==> r == raiz
    ensures fresh(r.Repr - old(if raiz != null then raiz.Repr else {}))
    decreases if raiz != null then raiz.Repr else {}
  {
    if raiz == null {
      r := new PistaNode(pista);
      return;
    }
    if Less(pista, raiz.pista) {
      var e := InserirPista(raiz.esquerda, pista);
      raiz.esquerda, raiz.Repr, raiz.Tree := e, raiz.Repr + e.Repr, Node(e.Tree, raiz.pista, TreeOf(raiz.direita));
    } else {
      var d := InserirPista(raiz.direita, pista);
      raiz.direita, raiz.Repr, raiz.Tree := d, raiz.Repr + d.Repr, Node(TreeOf(raiz.esquerda), raiz.pista, d.Tree);
    }
    r := raiz;
  }

  /** `exibirPistas`: the clues in the order they are printed. */
  function ExibirPistas(raiz: PistaNode?): (s: seq<CString>)
    requires raiz != null ==> raiz.Valid()
    reads if raiz != null then raiz.Repr else {}
    ensures s == InOrder(TreeOf(raiz))
    decreases ReprOf(raiz)
  {
    if raiz == null then []
    else ExibirPistas(raiz.esquerda) + [raiz.pista] + ExibirPistas(raiz.direita)
  }
}
