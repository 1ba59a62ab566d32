/**
 * Small concrete mansions: whole explorations run through the methods of the
 * model, and the inputs that show how the accusation check behaves.
 */
module Scenarios {
  import opened Options
  import opened CStrings
  import opened ClueIndex
  import opened SuspectLedger
  import opened RoomGraph
  import opened Exploration
  import opened Accusation

  /** Hall (no clue), left to Lounge (clue "X"), left again to Garden (clue "Y"). */
  function MansaoA(): Sala
  {
    var garden := CriarSala("Garden", "Y");
    var lounge := Sala("Lounge", "X", Some(garden), None);
    Sala("Hall", "", Some(lounge), None)
  }

  /** Walking left twice collects both clues for "Suspeito C", and only for him. */
  method CenarioA()
  {
    var tabela := NovaTabela();
    var hall := MansaoA();
    var raiz := ExplorarSalasComPistas(hall, null, tabela, ['e', 'e']);
    WalkACollects();
    SpineCountsA();
    var culpadoC := VerificarSuspeitoFinal(tabela, raiz, "Suspeito C");
    assert culpadoC;
    var culpadoA := VerificarSuspeitoFinal(tabela, raiz, "Suspeito A");
    assert !culpadoA;
  }

  /** The walk of `CenarioA` and what it leaves in the tree and the table. */
  lemma WalkACollects()
    ensures var salas := Percurso(MansaoA(), ['e', 'e']);
            && CollectClues(Leaf, salas) == Node(Leaf, "X", Node(Leaf, "Y", Leaf))
            && CollectSuspects(EmptyTable(), salas)
               == Associate(Associate(EmptyTable(), "X", "Suspeito C"), "Y", "Suspeito C")
  {
    var hall := MansaoA();
    var lounge := hall.esquerda.value;
    var garden := lounge.esquerda.value;
    assert ['e', 'e'][1..] == ['e'];
    var salas := Percurso(hall, ['e', 'e']);
    assert salas == [hall, lounge, garden];
    assert salas[1..] == [lounge, garden] && salas[1..][1..] == [garden];
    assert !Less("Y", "X");
    assert SuspeitoDaSala("Lounge") == "Suspeito C" && SuspeitoDaSala("Garden") == "Suspeito C";
    assert CollectClues(Leaf, salas) == CollectClues(Leaf, [lounge, garden]);
    assert CollectClues(Leaf, [lounge, garden]) == CollectClues(Node(Leaf, "X", Leaf), [garden]);
    assert CollectSuspects(EmptyTable(), salas) == CollectSuspects(EmptyTable(), [lounge, garden]);
  }

  /** Both clues of `CenarioA` lie on the right spine and point to "Suspeito C". */
  lemma SpineCountsA()
    ensures var tab := Associate(Associate(EmptyTable(), "X", "Suspeito C"), "Y", "Suspeito C");
            var t := Node(Leaf, "X", Node(Leaf, "Y", Leaf));
            && CountPointing(tab, RightSpine(t), "Suspeito C") == 2
            && CountPointing(tab, RightSpine(t), "Suspeito A") == 0
  {
    var tab := Associate(Associate(EmptyTable(), "X", "Suspeito C"), "Y", "Suspeito C");
    assert Bucket("X") == 8 && Bucket("Y") == 9;
    assert Lookup(tab, "X") == Some("Suspeito C") && Lookup(tab, "Y") == Some("Suspeito C");
    var t := Node(Leaf, "X", Node(Leaf, "Y", Leaf));
    assert RightSpine(t) == ["X", "Y"];
    assert ["X", "Y"][1..] == ["Y"];
  }

  /** A single room without exits and without a clue: nothing is collected. */
  method CenarioC()
  {
    var tabela := NovaTabela();
    var sala := CriarSala("Quarto", "");
    var raiz := ExplorarSalasComPistas(sala, null, tabela, ['e', 'd']);
    assert raiz == null;
    var culpado := VerificarSuspeitoFinal(tabela, raiz, "Suspeito C");
    assert !culpado;
  }

  /**
   * A walk that meets fewer than two clues, counted per visit, supports no
   * accusation when it starts from an empty clue tree.
   */
  lemma FewCluesSupportNothing(salas: seq<Sala>, tab: seq<Chain>, suspeito: CString)
    requires |tab| == TABLE_SIZE
    requires |FoundClues(salas)| < QUORUM
    ensures CountPointing(tab, RightSpine(CollectClues(Leaf, salas)), suspeito) < QUORUM
  {
    var t := CollectClues(Leaf, salas);
    CollectCluesContents(Leaf, salas);
    assert |multiset(InOrder(t))| == |multiset(FoundClues(salas))|;
    RightSpineNoLonger(t);
  }

  /** One room with clue "B" whose left exit leads to a room with clue "A". */
  function MansaoEsquerda(): Sala
  {
    Sala("Sotao", "B", Some(CriarSala("Porao", "A")), None)
  }

  /**
   * Turning left stores "A" left of "B": both clues point to "Suspeito C",
   * yet the right-spine check counts one, while the full check sees two.
   */
  lemma RightSpineMissesLeftClue()
    ensures var salas := Percurso(MansaoEsquerda(), ['e']);
            var t := CollectClues(Leaf, salas);
            var tab := CollectSuspects(EmptyTable(), salas);
            && InOrder(t) == ["A", "B"]
            && CountPointing(tab, RightSpine(t), "Suspeito C") == 1
            && SupportedByAllClues(tab, t, "Suspeito C")
  {
    var salas := Percurso(MansaoEsquerda(), ['e']);
    assert salas == [MansaoEsquerda(), CriarSala("Porao", "A")];
    assert Less("A", "B");
    var t := CollectClues(Leaf, salas);
    assert t == Node(Node(Leaf, "A", Leaf), "B", Leaf);
    assert Bucket("A") == 5 && Bucket("B") == 6;
    var tab := CollectSuspects(EmptyTable(), salas);
    assert PointsTo(tab, "A", "Suspeito C") && PointsTo(tab, "B", "Suspeito C");
    assert InOrder(t)[0] == "A" && InOrder(t)[1] == "B";
  }

  /**
   * An invalid key re-records the clue of the same room: one clue, stored
   * twice on the right spine, supports the accusation on its own.
   */
  lemma RepromptRecordsClueTwice()
    ensures var salas := Percurso(MansaoA().esquerda.value, ['x', 's']);
            var t := CollectClues(Leaf, salas);
            var tab := CollectSuspects(EmptyTable(), salas);
            && RightSpine(t) == ["X", "X"]
            && CountPointing(tab, RightSpine(t), "Suspeito C") >= QUORUM
  {
    var lounge := MansaoA().esquerda.value;
    assert ['x', 's'][1..] == ['s'];
    assert Percurso(lounge, ['x', 's']) == [lounge, lounge];
    assert Bucket("X") == 8;
  }
}
