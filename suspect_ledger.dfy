/**
 * The table from clue to suspect (`HashTable* tabela[TABLE_SIZE]`): an
 * array of bucket chains indexed by a shift-and-add string hash.  Chain nodes
 * are never changed after they are linked, so a chain is a value; the bucket
 * array is updated in place.
 */
module SuspectLedger {
  import opened Options
  import opened CStrings

  const TABLE_SIZE: nat := 10

  /** 2^32: `hashValue` is an `unsigned int`. */
  const WORD: nat := 0x1_0000_0000

  /** A bucket chain: `NULL`, or a node holding a clue, its suspect and the rest. */
  datatype Chain = Nil | Link(pista: CString, suspeito: CString, proximo: Chain)

  /** The (clue, suspect) pairs of a chain, head first. */
  function Bindings(c: Chain): seq<(CString, CString)>
  {
    match c
    case Nil => []
    case Link(p, s, rest) => [(p, s)] + Bindings(rest)
  }

  /**
   * The `unsigned int` accumulator of `hash` after the bytes of `s`:
   * each step shifts it left by 5 and adds the next byte, wrapping at 2^32.
   */
  function HashValue(s: CString): (h: nat)
    ensures h < WORD
    decreases |s|
  {
    if s == [] then 0
    else (HashValue(s[..|s| - 1]) * 32 % WORD + s[|s| - 1] as int) % WORD
  }

  /** The same polynomial in unbounded arithmetic: sum of s[i] * 32^(n-1-i). */
  function Horner(s: CString): nat
    decreases |s|
  {
    if s == [] then 0 else Horner(s[..|s| - 1]) * 32 + s[|s| - 1] as int
  }

  /** The bucket `hash` returns. */
  function Bucket(s: CString): (b: nat)
    ensures b < TABLE_SIZE
  {
    HashValue(s) % TABLE_SIZE
  }

  lemma ModStep(x: int, b: int)
    ensures ((x % WORD) * 32 % WORD + b) % WORD == (x * 32 + b) % WORD
  {
    var q := x / WORD;
    assert x == q * WORD + x % WORD;
    assert x * 32 + b == (q * 32) * WORD + ((x % WORD) * 32 + b);
    assert (x % WORD) * 32 % WORD == (x % WORD) * 32 - ((x % WORD) * 32 / WORD) * WORD;
  }

  /** The wrap-around of the shift and the add is the same as one reduction at the end. */
  lemma {:induction false} HashValueIsHornerModWord(s: CString)
    ensures HashValue(s) == Horner(s) % WORD
    decreases |s|
  {
    if s != [] {
      HashValueIsHornerModWord(s[..|s| - 1]);
      ModStep(Horner(s[..|s| - 1]), s[|s| - 1] as int);
    }
  }

  /** `hash`: the loop over the bytes before the NUL, then `% TABLE_SIZE`. */
  method Hash(pista: CString) returns (index: nat)
    ensures index < TABLE_SIZE
    ensures index == Bucket(pista)
  {
    var hashValue: nat := 0;
    var i := 0;
    while i < |pista|
      invariant 0 <= i <= |pista|
      invariant hashValue == HashValue(pista[..i])
    {
      assert pista[..i + 1][..i] == pista[..i];
      hashValue := (hashValue * 32 % WORD + pista[i] as int) % WORD;
      i := i + 1;
    }
    assert pista[..i] == pista;
    index := hashValue % TABLE_SIZE;
  }

  /** The suspect of the first node in a chain whose clue is `pista`. */
  function Find(c: Chain, pista: CString): Option<CString>
  {
    match c
    case Nil => None
    case Link(p, s, rest) => if p == pista then Some(s) else Find(rest, pista)
  }

  /** `Find` returns the first binding of the clue, and nothing when there is none. */
  lemma {:induction false} FindIsFirstMatch(c: Chain, pista: CString)
    ensures Find(c, pista).None? <==> forall i | 0 <= i < |Bindings(c)| :: Bindings(c)[i].0 != pista
    ensures Find(c, pista).Some? ==>
              exists i | 0 <= i < |Bindings(c)| ::
                && Bindings(c)[i] == (pista, Find(c, pista).value)
                && forall j | 0 <= j < i :: Bindings(c)[j].0 != pista
  {
    match c
    case Nil =>
    case Link(p, s, rest) =>
      FindIsFirstMatch(rest, pista);
      var b := Bindings(c);
      assert b == [(p, s)] + Bindings(rest);
      if p == pista {
        assert Bindings(c)[0] == (pista, s);
        assert Find(c, pista) == Some(s);
        assert !(forall i | 0 <= i < |Bindings(c)| :: Bindings(c)[i].0 != pista);
      } else {
        assert forall i | 0 <= i < |Bindings(rest)| :: b[i + 1] == Bindings(rest)[i];
        if Find(rest, pista).Some? {
          var i :| 0 <= i < |Bindings(rest)| &&
                   Bindings(rest)[i] == (pista, Find(rest, pista).value) &&
                   forall j | 0 <= j < i :: Bindings(rest)[j].0 != pista;
          assert Bindings(c)[i + 1] == (pista, Find(c, pista).value);
          forall j | 0 <= j < i + 1 ensures b[j].0 != pista {
            if j > 0 { assert b[j] == Bindings(rest)[j - 1]; }
          }
        } else {
          forall i | 0 <= i < |b| ensures b[i].0 != pista {
            if i > 0 { assert b[i] == Bindings(rest)[i - 1]; }
          }
        }
      }
  }

  /** The table as `main` declares it: every bucket NULL. */
  function EmptyTable(): (tab: seq<Chain>)
    ensures |tab| == TABLE_SIZE
  {
    seq(TABLE_SIZE, _ => Nil)
  }

  /** `encontrarSuspeito` on values: search the clue's own bucket. */
  function Lookup(tab: seq<Chain>, pista: CString): Option<CString>
    requires |tab| == TABLE_SIZE
  {
    Find(tab[Bucket(pista)], pista)
  }

  /** `inserirNaHash` on values: a new head for the clue's bucket. */
  function Associate(tab: seq<Chain>, pista: CString, suspeito: CString): (r: seq<Chain>)
    requires |tab| == TABLE_SIZE
    ensures |r| == TABLE_SIZE
  {
    tab[Bucket(pista) := Link(pista, suspeito, tab[Bucket(pista)])]
  }

  /** Nothing is bound in the empty table. */
  lemma LookupEmpty(pista: CString)
    ensures Lookup(EmptyTable(), pista) == None
  {
  }

  /** The newest binding of a clue wins, whatever it was bound to before ... */
  lemma LookupAssociateSame(tab: seq<Chain>, pista: CString, suspeito: CString)
    requires |tab| == TABLE_SIZE
    ensures Lookup(Associate(tab, pista, suspeito), pista) == Some(suspeito)
  {
  }

  /** ... and every other clue keeps the suspect it had. */
  lemma LookupAssociateOther(tab: seq<Chain>, pista: CString, suspeito: CString, other: CString)
    requires |tab| == TABLE_SIZE
    requires other != pista
    ensures Lookup(Associate(tab, pista, suspeito), other) == Lookup(tab, other)
  {
  }

  /** `inserirNaHash`: prepend a node with copies of both strings to the clue's bucket. */
  method InserirNaHash(tabela: array<Chain>, pista: CString, suspeito: CString)
    requires tabela.Length == TABLE_SIZE
    modifies tabela
    ensures tabela[..] == Associate(old(tabela[..]), pista, suspeito)
    ensures tabela[Bucket(pista)] == Link(pista, suspeito, old(tabela[Bucket(pista)]))
    ensures forall i | 0 <= i < TABLE_SIZE && i != Bucket(pista) :: tabela[i] == old(tabela[i])
  {
    var index := Hash(pista);
    tabela[index] := Link(pista, suspeito, tabela[index]);
  }

  /** `encontrarSuspeito`: walk the clue's bucket to the first node with that clue. */
  method EncontrarSuspeito(tabela: array<Chain>, pista: CString) returns (r: Option<CString>)
    requires tabela.Length == TABLE_SIZE
    ensures r == Lookup(tabela[..], pista)
  {
    var index := Hash(pista);
    var node := tabela[index];
    while node != Nil
      invariant Find(node, pista) == Find(tabela[index], pista)
      decreases node
    {
      if node.pista == pista {
        return Some(node.suspeito);
      }
      node := node.proximo;
    }
    return None;
  }

  /** The bucket array `main` declares, with every chain NULL. */
  method NovaTabela() returns (tabela: array<Chain>)
    ensures fresh(tabela)
    ensures tabela[..] == EmptyTable()
  {
    tabela := new Chain[TABLE_SIZE](_ => Nil);
  }
}
