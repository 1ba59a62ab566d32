/**
 * `explorarSalasComPistas`: the walk through the rooms, one player choice
 * per step, recording every clue met into the clue tree and the suspect table.
 * The characters the player types are the sequence `escolhas`.
 */
module Exploration {
  import opened Options
  import opened CStrings
  import opened ClueIndex
  import opened SuspectLedger
  import opened RoomGraph

  /** The suspect a clue found in a room points to, chosen by the room's name. */
  function SuspeitoDaSala(nome: CString): CString
  {
    if nome == "Cozinha" then "Suspeito A"
    else if nome == "Biblioteca" then "Suspeito B"
    else "Suspeito C"
  }

  predicate IsLeft(opcao: char) { opcao == 'e' || opcao == 'E' }
  predicate IsRight(opcao: char) { opcao == 'd' || opcao == 'D' }
  predicate IsQuit(opcao: char) { opcao == 's' || opcao == 'S' }

  /** The room after one choice that does not end the walk. */
  function Mover(sala: Sala, opcao: char): Sala
  {
    if IsLeft(opcao) then (if sala.esquerda != None then sala.esquerda.value else sala)
    else if IsRight(opcao) then (if sala.direita != None then sala.direita.value else sala)
    else sala
  }

  /**
   * The room at the top of each iteration of the loop, in order.  The walk
   * ends at a room with no exits, on `s`/`S`, or when the input runs out.
   */
  function Percurso(sala: Sala, escolhas: seq<char>): seq<Sala>
    decreases |escolhas|
  {
    if SemSaida(sala) || escolhas == [] || IsQuit(escolhas[0]) then [sala]
    else [sala] + Percurso(Mover(sala, escolhas[0]), escolhas[1..])
  }

  /** What one iteration does to the clue tree. */
  function RecordClue(t: Clues, sala: Sala): Clues
  {
    if sala.pista != [] then Insert(t, sala.pista) else t
  }

  /** What one iteration does to the suspect table. */
  function RecordSuspect(tab: seq<Chain>, sala: Sala): (r: seq<Chain>)
    requires |tab| == TABLE_SIZE
    ensures |r| == TABLE_SIZE
  {
    if sala.pista != [] then Associate(tab, sala.pista, SuspeitoDaSala(sala.nome)) else tab
  }

  /** The clue tree after iterations at the given rooms. */
  function CollectClues(t: Clues, salas: seq<Sala>): Clues
    decreases |salas|
  {
    if salas == [] then t else CollectClues(RecordClue(t, salas[0]), salas[1..])
  }

  /** The suspect table after iterations at the given rooms. */
  function CollectSuspects(tab: seq<Chain>, salas: seq<Sala>): (r: seq<Chain>)
    requires |tab| == TABLE_SIZE
    ensures |r| == TABLE_SIZE
    decreases |salas|
  {
    if salas == [] then tab else CollectSuspects(RecordSuspect(tab, salas[0]), salas[1..])
  }

  /** The non-empty clues of the given rooms, one per visit. */
  function FoundClues(salas: seq<Sala>): seq<CString>
  {
    if salas == [] then []
    else (if salas[0].pista != [] then [salas[0].pista] else []) + FoundClues(salas[1..])
  }

  /**
   * Between two consecutive iterations the walk had not ended, and the room
   * changed only to an existing child in the chosen direction; an unknown
   * character or a missing exit leaves it where it was.
   */
  lemma {:induction false} PercursoStep(sala: Sala, escolhas: seq<char>, k: nat)
    requires k + 1 < |Percurso(sala, escolhas)|
    ensures k < |escolhas| && !SemSaida(Percurso(sala, escolhas)[k]) && !IsQuit(escolhas[k])
    ensures var (de, para, c) := (Percurso(sala, escolhas)[k], Percurso(sala, escolhas)[k + 1], escolhas[k]);
            && (IsLeft(c) && de.esquerda != None ==> para == de.esquerda.value)
            && (IsRight(c) && de.direita != None ==> para == de.direita.value)
            && (!(IsLeft(c) && de.esquerda != None) && !(IsRight(c) && de.direita != None) ==> para == de)
    decreases k
  {
    if k > 0 {
      PercursoStep(Mover(sala, escolhas[0]), escolhas[1..], k - 1);
      assert escolhas[1..][k - 1] == escolhas[k];
    }
  }

  /**
   * The walk starts at the entry room, takes at most one step per choice,
   * and ends at a room without exits, on `s`/`S`, or when the input runs out.
   */
  lemma {:induction false} PercursoEnds(sala: Sala, escolhas: seq<char>)
    ensures var p := Percurso(sala, escolhas);
            && 1 <= |p| <= |escolhas| + 1 && p[0] == sala
            && (SemSaida(p[|p| - 1]) || |p| == |escolhas| + 1 || IsQuit(escolhas[|p| - 1]))
    decreases |escolhas|
  {
    if !(SemSaida(sala) || escolhas == [] || IsQuit(escolhas[0])) {
      var rest := escolhas[1..];
      PercursoEnds(Mover(sala, escolhas[0]), rest);
      var q := Percurso(Mover(sala, escolhas[0]), rest);
      assert Percurso(sala, escolhas) == [sala] + q;
      if |q| <= |rest| && !SemSaida(q[|q| - 1]) {
        assert rest[|q| - 1] == escolhas[|q|];
      }
    }
  }

  /** Every clue collected keeps the clue tree a search tree. */
  lemma {:induction false} CollectCluesKeepsOrdered(t: Clues, salas: seq<Sala>)
    requires Ordered(t)
    ensures Ordered(CollectClues(t, salas))
    decreases |salas|
  {
    if salas != [] {
      if salas[0].pista != [] {
        InsertKeepsOrdered(t, salas[0].pista);
      }
      CollectCluesKeepsOrdered(RecordClue(t, salas[0]), salas[1..]);
    }
  }

  /** One iteration adds the room's clue, if it has one, to the clue tree. */
  lemma RecordClueContents(t: Clues, sala: Sala)
    ensures multiset(InOrder(RecordClue(t, sala))) == multiset(InOrder(t)) + multiset(FoundClues([sala]))
  {
    assert FoundClues([sala]) == (if sala.pista != [] then [sala.pista] else []) + FoundClues([]);
    if sala.pista != [] {
      InsertAddsOneCopy(t, sala.pista);
    }
  }

  /** The clues of a sequence of visits are those of its first visit followed by the rest. */
  lemma FoundCluesCons(salas: seq<Sala>)
    requires salas != []
    ensures multiset(FoundClues(salas)) == multiset(FoundClues([salas[0]])) + multiset(FoundClues(salas[1..]))
  {
    assert FoundClues([salas[0]]) == (if salas[0].pista != [] then [salas[0].pista] else []) + FoundClues([]);
  }

  /** The clue tree gains one copy of the clue of every visit to a room with a clue. */
  lemma {:induction false} CollectCluesContents(t: Clues, salas: seq<Sala>)
    ensures multiset(InOrder(CollectClues(t, salas))) == multiset(InOrder(t)) + multiset(FoundClues(salas))
    decreases |salas|
  {
    if salas != [] {
      RecordClueContents(t, salas[0]);
      FoundCluesCons(salas);
      CollectCluesContents(RecordClue(t, salas[0]), salas[1..]);
    }
  }

  /** A clue met in none of the rooms keeps whatever suspect it had. */
  lemma {:induction false} CollectSuspectsUnmet(tab: seq<Chain>, salas: seq<Sala>, pista: CString)
    requires |tab| == TABLE_SIZE
    requires pista != []
    requires forall k | 0 <= k < |salas| :: salas[k].pista != pista
    ensures Lookup(CollectSuspects(tab, salas), pista) == Lookup(tab, pista)
    decreases |salas|
  {
    if salas != [] {
      if salas[0].pista != [] {
        LookupAssociateOther(tab, salas[0].pista, SuspeitoDaSala(salas[0].nome), pista);
      }
      CollectSuspectsUnmet(RecordSuspect(tab, salas[0]), salas[1..], pista);
    }
  }

  /** A clue's suspect is the one chosen by the name of the last room it was met in. */
  lemma {:induction false} CollectSuspectsLastVisitWins(tab: seq<Chain>, salas: seq<Sala>, k: nat)
    requires |tab| == TABLE_SIZE
    requires k < |salas| && salas[k].pista != []
    requires forall j | k < j < |salas| :: salas[j].pista != salas[k].pista
    ensures Lookup(CollectSuspects(tab, salas), salas[k].pista) == Some(SuspeitoDaSala(salas[k].nome))
    decreases k
  {
    var tab1 := RecordSuspect(tab, salas[0]);
    if k == 0 {
      LookupAssociateSame(tab, salas[0].pista, SuspeitoDaSala(salas[0].nome));
      CollectSuspectsUnmet(tab1, salas[1..], salas[0].pista);
    } else {
      CollectSuspectsLastVisitWins(tab1, salas[1..], k - 1);
    }
  }

  /** The walk after the iteration at `sala` with input position `i`: empty when it ends there. */
  function Depois(sala: Sala, escolhas: seq<char>, i: nat): seq<Sala>
    requires i <= |escolhas|
  {
    if SemSaida(sala) || i == |escolhas| || IsQuit(escolhas[i]) then []
    else Percurso(Mover(sala, escolhas[i]), escolhas[i + 1..])
  }

  /**
   * One iteration at position `i` of the input: folding over the rest of the
   * walk is recording the current room, then folding over what follows it.
   */
  lemma IterationStep(t: Clues, tab: seq<Chain>, sala: Sala, escolhas: seq<char>, i: nat)
    requires |tab| == TABLE_SIZE && i <= |escolhas|
    ensures Percurso(sala, escolhas[i..]) == [sala] + Depois(sala, escolhas, i)
    ensures CollectClues(t, Percurso(sala, escolhas[i..]))
            == CollectClues(RecordClue(t, sala), Depois(sala, escolhas, i))
    ensures CollectSuspects(tab, Percurso(sala, escolhas[i..]))
            == CollectSuspects(RecordSuspect(tab, sala), Depois(sala, escolhas, i))
  {
    if i < |escolhas| {
      assert escolhas[i..][0] == escolhas[i] && escolhas[i..][1..] == escolhas[i + 1..];
    }
    var resto := [sala] + Depois(sala, escolhas, i);
    assert resto[0] == sala && resto[1..] == Depois(sala, escolhas, i);
  }

  /**
   * The first half of an iteration: a room with a clue adds it to the clue
   * tree and binds it to the room's suspect in the table.
   */
  method RegistrarPista(sala: Sala, raiz: PistaNode?, tabela: array<Chain>) returns (r: PistaNode?)
    requires tabela.Length == TABLE_SIZE
    requires raiz != null ==> raiz.Valid()
    modifies tabela, ReprOf(raiz)
    ensures r != null ==> r.Valid() && fresh(r.Repr - old(ReprOf(raiz)))
    ensures raiz != null ==> r == raiz
    ensures sala.pista != [] ==> r != null
    ensures TreeOf(r) == RecordClue(old(TreeOf(raiz)), sala)
    ensures tabela[..] == RecordSuspect(old(tabela[..]), sala)
  {
    r := raiz;
    if sala.pista != [] {
      r := InserirPista(raiz, sala.pista);
      InserirNaHash(tabela, sala.pista, SuspeitoDaSala(sala.nome));
    }
  }

  /**
   * The second half of an iteration, after the choice is read: `e`/`E` and
   * `d`/`D` take an existing exit and otherwise stay, `s`/`S` ends the walk,
   * and any other character stays in the room.
   */
  method Escolher(sala: Sala, opcao: char) returns (proxima: Sala, sair: bool)
    ensures sair <==> IsQuit(opcao)
    ensures !sair ==> proxima == Mover(sala, opcao)
    ensures proxima == sala || Some(proxima) == sala.esquerda || Some(proxima) == sala.direita
  {
    proxima, sair := sala, false;
    if opcao == 'e' || opcao == 'E' {
      if sala.esquerda != None {
        proxima := sala.esquerda.value;
      }
    } else if opcao == 'd' || opcao == 'D' {
      if sala.direita != None {
        proxima := sala.direita.value;
      }
    } else if opcao == 's' || opcao == 'S' {
      sair := true;
    }
  }

  /**
   * `explorarSalasComPistas`: `arvorePistas` is the in/out pointer to the
   * clue tree's root; the new root is returned.
   */
  method ExplorarSalasComPistas(salaAtual: Sala, arvorePistas: PistaNode?, tabela: array<Chain>,
                                escolhas: seq<char>) returns (raiz: PistaNode?)
    requires tabela.Length == TABLE_SIZE
    requires arvorePistas != null ==> arvorePistas.Valid()
    modifies tabela, ReprOf(arvorePistas)
    ensures raiz != null ==> raiz.Valid()
    ensures arvorePistas != null ==> raiz == arvorePistas
    ensures raiz != null ==> fresh(raiz.Repr - old(ReprOf(arvorePistas)))
    ensures TreeOf(raiz) == CollectClues(old(TreeOf(arvorePistas)), Percurso(salaAtual, escolhas))
    ensures tabela[..] == CollectSuspects(old(tabela[..]), Percurso(salaAtual, escolhas))
  {
    ghost var arvoreFinal := CollectClues(TreeOf(arvorePistas), Percurso(salaAtual, escolhas));
    ghost var tabelaFinal := CollectSuspects(tabela[..], Percurso(salaAtual, escolhas));
    ghost var arvore, tab := TreeOf(arvorePistas), tabela[..];
    ghost var resto := Percurso(salaAtual, escolhas);
    var salaVisitada := salaAtual;
    var i := 0;
    raiz := arvorePistas;
    while true
      invariant 0 <= i <= |escolhas|
      invariant raiz != null ==> raiz.Valid() && fresh(raiz.Repr - old(ReprOf(arvorePistas)))
      invariant arvorePistas != null ==> raiz == arvorePistas
      invariant TreeOf(raiz) == arvore && tabela[..] == tab && |tab| == TABLE_SIZE
      invariant resto == Percurso(salaVisitada, escolhas[i..])
      invariant CollectClues(arvore, resto) == arvoreFinal
      invariant CollectSuspects(tab, resto) == tabelaFinal
      decreases |escolhas| - i
    {
      IterationStep(arvore, tab, salaVisitada, escolhas, i);
      arvore, tab := RecordClue(arvore, salaVisitada), RecordSuspect(tab, salaVisitada);
      resto := Depois(salaVisitada, escolhas, i);
      raiz := RegistrarPista(salaVisitada, raiz, tabela);
      if salaVisitada.esquerda == None && salaVisitada.direita == None {
        break;
      }
      if i == |escolhas| {
        break;
      }
      var opcao := escolhas[i];
      i := i + 1;
      var sair;
      salaVisitada, sair := Escolher(salaVisitada, opcao);
      if sair {
        break;
      }
    }
  }
}
