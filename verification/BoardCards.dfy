/** BoardCardsModel.cpp: the rows of a board, labelled from the card catalog. */
module BoardCards {
  import opened Wrappers

  /** One card of a game: agendas, acts and locations carry a code, investigators a title. */
  datatype Card = Card(code: string, revealed: bool, title: string, image: string)

  datatype PublicGame = PublicGame(
    agendas: seq<Card>, acts: seq<Card>, locations: seq<Card>, investigators: seq<Card>)

  datatype CardNames = CardNames(name: string, revealedName: Option<string>)
  type CardNameTable = map<string, CardNames>

  datatype Row = Row(kind: string, code: string, revealed: bool, caption: string, image: string)

  function LabelFor(names: CardNameTable, row: Row): string {
    if row.code !in names then row.code
    else
      var card := names[row.code];
      var name := if row.revealed && card.revealedName.Some? then card.revealedName.value else card.name;
      if name == "" then row.code else name
  }

  /** Rows with a code are labelled from the catalog; the others keep the label they have. */
  function Relabel(names: CardNameTable, row: Row): Row {
    if row.code == "" then row else row.(caption := LabelFor(names, row))
  }

  function RelabelAll(names: CardNameTable, rows: seq<Row>): (relabelled: seq<Row>)
    ensures |relabelled| == |rows|
    ensures forall i | 0 <= i < |rows| :: relabelled[i] == Relabel(names, rows[i])
  {
    seq(|rows|, i requires 0 <= i < |rows| => Relabel(names, rows[i]))
  }

  function AgendaRow(card: Card): Row { Row("agenda", card.code, false, "", card.image) }
  function ActRow(card: Card): Row { Row("act", card.code, false, "", card.image) }
  function LocationRow(card: Card): Row { Row("location", card.code, card.revealed, "", card.image) }
  function InvestigatorRow(card: Card): Row { Row("investigator", "", false, card.title, card.image) }

  function MapRows(make: Card -> Row, cards: seq<Card>): (rows: seq<Row>)
    ensures |rows| == |cards|
    ensures forall i | 0 <= i < |cards| :: rows[i] == make(cards[i])
  {
    seq(|cards|, i requires 0 <= i < |cards| => make(cards[i]))
  }

  function UnlabelledRows(game: PublicGame): seq<Row> {
    MapRows(AgendaRow, game.agendas) + MapRows(ActRow, game.acts)
    + MapRows(LocationRow, game.locations) + MapRows(InvestigatorRow, game.investigators)
  }

  /** The board of a game under a name table. */
  function RowsOf(names: CardNameTable, game: PublicGame): seq<Row> {
    RelabelAll(names, UnlabelledRows(game))
  }

  /** Relabelling a board gives the board that the new names alone would have given. */
  lemma RelabelledBoard(before: CardNameTable, after: CardNameTable, game: PublicGame)
    ensures RelabelAll(after, RowsOf(before, game)) == RowsOf(after, game)
  {
    var rows := UnlabelledRows(game);
    forall i | 0 <= i < |rows| ensures Relabel(after, Relabel(before, rows[i])) == Relabel(after, rows[i]) {
    }
  }

  class BoardCardsModel {
    var rows: seq<Row>
    var names: CardNameTable

    constructor ()
      ensures rows == [] && names == map[]
    {
      rows, names := [], map[];
    }

    /** Appends a row for each card. */
    static method AppendRows(rows: seq<Row>, make: Card -> Row, cards: seq<Card>) returns (appended: seq<Row>)
      ensures appended == rows + MapRows(make, cards)
    {
      appended := rows;
      for i := 0 to |cards|
        invariant appended == rows + MapRows(make, cards)[..i]
      {
        appended := appended + [make(cards[i])];
      }
    }

    method SetGame(game: PublicGame)
      modifies this
      ensures rows == RowsOf(names, game) && names == old(names)
    {
      var built := AppendRows([], AgendaRow, game.agendas);
      built := AppendRows(built, ActRow, game.acts);
      built := AppendRows(built, LocationRow, game.locations);
      built := AppendRows(built, InvestigatorRow, game.investigators);
      assert built == UnlabelledRows(game);
      for i := 0 to |built|
        invariant |built| == |UnlabelledRows(game)|
        invariant forall j | 0 <= j < i :: built[j] == RowsOf(names, game)[j]
        invariant forall j | i <= j < |built| :: built[j] == UnlabelledRows(game)[j]
      {
        if built[i].code != "" {
          built := built[i := built[i].(caption := LabelFor(names, built[i]))];
        }
      }
      rows := built;
    }

    /** Returns the rows whose data changed: exactly those whose label is a new one. */
    method SetCardNames(newNames: CardNameTable) returns (changed: seq<nat>)
      modifies this
      ensures names == newNames && rows == RelabelAll(newNames, old(rows))
      ensures forall i: nat :: i in changed <==> i < |rows| && rows[i] != old(rows)[i]
    {
      names := newNames;
      changed := [];
      for i := 0 to |rows|
        invariant names == newNames && |rows| == |old(rows)|
        invariant forall j | 0 <= j < i :: rows[j] == Relabel(newNames, old(rows)[j])
        invariant forall j | i <= j < |rows| :: rows[j] == old(rows)[j]
        invariant forall j: nat :: j in changed <==> j < i && rows[j] != old(rows)[j]
      {
        if rows[i].code == "" {
          continue;
        }
        var caption := LabelFor(names, rows[i]);
        if caption == rows[i].caption {
          continue;
        }
        rows := rows[i := rows[i].(caption := caption)];
        changed := changed + [i];
      }
    }

    method Clear()
      modifies this
      ensures rows == [] && names == old(names)
    {
      if rows == [] {
        return;
      }
      rows := [];
    }
  }
}
