/**
 * The rooms of the mansion (`Sala`).  `main` wires the children once before
 * the exploration and nothing changes a room afterwards, so a room is a value.
 */
module RoomGraph {
  import opened Options
  import opened CStrings

  /** A room: its name, its clue (empty for none) and its two exits. */
  datatype Sala = Sala(nome: CString, pista: CString, esquerda: Option<Sala>, direita: Option<Sala>)

  /** `criarSala`: a room with the given name and clue and no exits yet. */
  function CriarSala(nome: CString, pista: CString): (s: Sala)
    ensures s.nome == nome && s.pista == pista
    ensures s.esquerda == None && s.direita == None
  {
    Sala(nome, pista, None, None)
  }

  /** A room with no way out. */
  predicate SemSaida(s: Sala)
  {
    s.esquerda == None && s.direita == None
  }
}
