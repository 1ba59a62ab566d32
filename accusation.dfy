/**
 * `verificarSuspeitoFinal`: the accusation is supported when at least two
 * clues point to the accused.  As written, the C code only visits the root of
 * the clue tree and its chain of right children.
 */
module Accusation {
  import opened Options
  import opened CStrings
  import opened ClueIndex
  import opened SuspectLedger

  /** The fixed number of clues an accusation needs. */
  const QUORUM: nat := 2

  /** The clues on the path root, root.direita, root.direita.direita, ... */
  function RightSpine(t: Clues): seq<CString>
  {
    match t
    case Leaf => []
    case Node(_, k, r) => [k] + RightSpine(r)
  }

  /** The table binds the clue to exactly this suspect. */
  predicate PointsTo(tab: seq<Chain>, pista: CString, suspeito: CString)
    requires |tab| == TABLE_SIZE
  {
    Lookup(tab, pista) == Some(suspeito)
  }

  /** How many of the clues, counted with repetition, point to the suspect. */
  function CountPointing(tab: seq<Chain>, pistas: seq<CString>, suspeito: CString): (n: nat)
    requires |tab| == TABLE_SIZE
    ensures n <= |pistas|
  {
    if pistas == [] then 0
    else (if PointsTo(tab, pistas[0], suspeito) then 1 else 0) + CountPointing(tab, pistas[1..], suspeito)
  }

  /** The count over two sequences one after the other is the sum of the counts. */
  lemma {:induction false} CountPointingAppend(tab: seq<Chain>, a: seq<CString>, b: seq<CString>, suspeito: CString)
    requires |tab| == TABLE_SIZE
    ensures CountPointing(tab, a + b, suspeito) == CountPointing(tab, a, suspeito) + CountPointing(tab, b, suspeito)
    decreases |a|
  {
    if a != [] {
      assert (a + b)[0] == a[0] && (a + b)[1..] == a[1..] + b;
      CountPointingAppend(tab, a[1..], b, suspeito);
    } else {
      assert a + b == b;
    }
  }

  /** Two different positions hold clues that point to the suspect. */
  ghost predicate TwoWitnesses(tab: seq<Chain>, pistas: seq<CString>, suspeito: CString)
    requires |tab| == TABLE_SIZE
  {
    exists i, j | 0 <= i < j < |pistas| :: PointsTo(tab, pistas[i], suspeito) && PointsTo(tab, pistas[j], suspeito)
  }

  /** A count of at least two means two different positions whose clues point to the suspect. */
  lemma {:induction false} QuorumIffTwoWitnesses(tab: seq<Chain>, pistas: seq<CString>, suspeito: CString)
    requires |tab| == TABLE_SIZE
    ensures CountPointing(tab, pistas, suspeito) >= QUORUM <==> TwoWitnesses(tab, pistas, suspeito)
    decreases |pistas|
  {
    if pistas != [] {
      var rest := pistas[1..];
      QuorumIffTwoWitnesses(tab, rest, suspeito);
      OneWitness(tab, rest, suspeito);
      if CountPointing(tab, pistas, suspeito) >= QUORUM {
        if PointsTo(tab, pistas[0], suspeito) {
          var j :| 0 <= j < |rest| && PointsTo(tab, rest[j], suspeito);
          assert pistas[j + 1] == rest[j];
        } else {
          var i, j :| 0 <= i < j < |rest| && PointsTo(tab, rest[i], suspeito) && PointsTo(tab, rest[j], suspeito);
          assert pistas[i + 1] == rest[i] && pistas[j + 1] == rest[j];
        }
      }
    }
  }

  /** A positive count means some position whose clue points to the suspect. */
  lemma {:induction false} OneWitness(tab: seq<Chain>, pistas: seq<CString>, suspeito: CString)
    requires |tab| == TABLE_SIZE
    ensures CountPointing(tab, pistas, suspeito) > 0 <==>
              exists i | 0 <= i < |pistas| :: PointsTo(tab, pistas[i], suspeito)
    decreases |pistas|
  {
    if pistas != [] {
      var rest := pistas[1..];
      OneWitness(tab, rest, suspeito);
      if !PointsTo(tab, pistas[0], suspeito) && exists i | 0 <= i < |pistas| :: PointsTo(tab, pistas[i], suspeito) {
        var i :| 0 <= i < |pistas| && PointsTo(tab, pistas[i], suspeito);
        assert pistas[i] == rest[i - 1];
      }
      if CountPointing(tab, rest, suspeito) > 0 {
        var i :| 0 <= i < |rest| && PointsTo(tab, rest[i], suspeito);
        assert pistas[i + 1] == rest[i];
      }
    }
  }

  /** The right spine is part of the in-order list, so its count never exceeds the full count. */
  lemma {:induction false} SpineCountAtMostFullCount(tab: seq<Chain>, t: Clues, suspeito: CString)
    requires |tab| == TABLE_SIZE
    ensures CountPointing(tab, RightSpine(t), suspeito) <= CountPointing(tab, InOrder(t), suspeito)
  {
    match t
    case Leaf =>
    case Node(l, k, r) =>
      SpineCountAtMostFullCount(tab, r, suspeito);
      CountPointingAppend(tab, InOrder(l) + [k], InOrder(r), suspeito);
      CountPointingAppend(tab, InOrder(l), [k], suspeito);
      CountPointingAppend(tab, [k], RightSpine(r), suspeito);
  }

  /** The right spine never holds more clues than the whole tree. */
  lemma {:induction false} RightSpineNoLonger(t: Clues)
    ensures |RightSpine(t)| <= |InOrder(t)|
  {
    match t
    case Leaf =>
    case Node(_, _, r) => RightSpineNoLonger(r);
  }

  /**
   * `verificarSuspeitoFinal`: count the clues on the right spine whose
   * suspect, looked up in the table, is the accused; accept at two.
   */
  method VerificarSuspeitoFinal(tabela: array<Chain>, arvorePistas: PistaNode?, suspeito: CString)
    returns (ok: bool)
    requires tabela.Length == TABLE_SIZE
    requires arvorePistas != null ==> arvorePistas.Valid()
    ensures ok <==> CountPointing(tabela[..], RightSpine(TreeOf(arvorePistas)), suspeito) >= QUORUM
  {
    var node := arvorePistas;
    var pistasEncontradas := 0;
    while node != null
      invariant node != null ==> node.Valid()
      invariant pistasEncontradas + CountPointing(tabela[..], RightSpine(TreeOf(node)), suspeito)
             == CountPointing(tabela[..], RightSpine(TreeOf(arvorePistas)), suspeito)
      decreases ReprOf(node)
    {
      var suspeitoAssociado := EncontrarSuspeito(tabela, node.pista);
      if suspeitoAssociado != None && suspeitoAssociado.value == suspeito {
        pistasEncontradas := pistasEncontradas + 1;
      }
      node := node.direita;
    }
    ok := pistasEncontradas >= QUORUM;
  }

  /** An empty clue tree supports no accusation. */
  lemma EmptyTreeUnsupported(tab: seq<Chain>, suspeito: CString)
    requires |tab| == TABLE_SIZE
    ensures CountPointing(tab, RightSpine(Leaf), suspeito) < QUORUM
  {
  }

  /**
   * The check over every collected clue, not only the right spine: at least
   * two clues of the in-order list point to the accused.
   */
  function SupportedByAllClues(tab: seq<Chain>, t: Clues, suspeito: CString): (ok: bool)
    requires |tab| == TABLE_SIZE
    ensures ok <==> TwoWitnesses(tab, InOrder(t), suspeito)
  {
    QuorumIffTwoWitnesses(tab, InOrder(t), suspeito);
    CountPointing(tab, InOrder(t), suspeito) >= QUORUM
  }

  /** What the right-spine check accepts, the full check accepts too. */
  lemma SpineCheckIsConservative(tab: seq<Chain>, t: Clues, suspeito: CString)
    requires |tab| == TABLE_SIZE
    requires CountPointing(tab, RightSpine(t), suspeito) >= QUORUM
    ensures SupportedByAllClues(tab, t, suspeito)
  {
    SpineCountAtMostFullCount(tab, t, suspeito);
  }
}
