/** GameBoardController.cpp: the games list, the opened board and the card catalog, fetched by
    generation-stamped continuations that may run in any order, or never. */
module GameBoard {
  import opened Wrappers
  import opened BoardCards

  datatype Status = Idle | Loading | Loaded | Error
  datatype CatalogStatus = NoCatalog | CatalogLoading | CatalogLoaded

  type GameId = string
  datatype Game = Game(id: GameId, title: string)

  /** A row of the games list; only a fully decoded one can be opened. */
  datatype ListRow = Decoded(game: Game) | Broken

  /** A callback handed to the token source or the game client and not run yet. */
  datatype Continuation =
    | ListToken(generation: nat)
    | ListReply(generation: nat)
    | BoardToken(generation: nat, game: GameId)
    | BoardReply(generation: nat, game: GameId)
    | CatalogReply(generation: nat)

  datatype Reply =
    | Failed(text: string)
    | Token
    | Games(rows: seq<ListRow>)
    | BoardOf(board: PublicGame)
    | Catalog(names: CardNameTable)

  /** `shown` is history: the game id the displayed board was requested for, and the reply's game. */
  datatype State = State(
    listGeneration: nat, boardGeneration: nat, catalogGeneration: nat,
    listStatus: Status, boardStatus: Status, catalogStatus: CatalogStatus,
    games: seq<Game>, selected: int, errorText: string, signedIn: bool,
    rows: seq<Row>, names: CardNameTable,
    pending: set<Continuation>, shown: Option<(GameId, PublicGame)>)

  const INITIAL := State(0, 0, 0, Idle, Idle, NoCatalog, [], -1, "", false, [], map[], {}, None)

  const SIGNED_OUT_TEXT := "Sign in to see your games."

  function TokenFailureText(signedIn: bool, diagnostic: string): string {
    if !signedIn then SIGNED_OUT_TEXT else "Could not read your saved sign-in (" + diagnostic + ")."
  }

  function OpenableGames(rows: seq<ListRow>): seq<Game> {
    if rows == [] then []
    else
      var front := OpenableGames(rows[..|rows| - 1]);
      var last := rows[|rows| - 1];
      if last.Decoded? then front + [last.game] else front
  }

  // ---- User operations ----

  function LoadGames(s: State): State {
    s.(listGeneration := s.listGeneration + 1, boardGeneration := s.boardGeneration + 1,
       rows := [], shown := None, games := [], selected := -1,
       boardStatus := Idle, listStatus := Loading, errorText := "",
       pending := s.pending + {ListToken(s.listGeneration + 1)})
  }

  function FetchBoard(s: State): State
    requires 0 <= s.selected < |s.games|
  {
    s.(boardGeneration := s.boardGeneration + 1, rows := [], shown := None,
       boardStatus := Loading, errorText := "",
       pending := s.pending + {BoardToken(s.boardGeneration + 1, s.games[s.selected].id)})
  }

  function OpenGame(s: State, index: int): State {
    if s.listStatus != Loaded || index < 0 || index >= |s.games| then s
    else FetchBoard(s.(selected := index))
  }

  function Retry(s: State): State {
    if s.boardStatus == Error && 0 <= s.selected < |s.games| then FetchBoard(s)
    else if s.listStatus == Error then LoadGames(s)
    else s
  }

  function CloseGame(s: State): State {
    if s.selected < 0 && s.boardStatus == Idle then s
    else
      s.(boardGeneration := s.boardGeneration + 1, rows := [], shown := None, selected := -1,
         boardStatus := Idle, errorText := "")
  }

  function Reset(s: State): State {
    s.(listGeneration := s.listGeneration + 1, boardGeneration := s.boardGeneration + 1,
       catalogGeneration := s.catalogGeneration + 1, catalogStatus := NoCatalog,
       rows := [], shown := None, names := map[], games := [], selected := -1,
       listStatus := Idle, boardStatus := Idle, errorText := "")
  }

  function SetSignedIn(s: State, signedIn: bool): State {
    if !signedIn then Reset(s.(signedIn := false)) else s.(signedIn := true)
  }

  // ---- Continuations ----

  function FailList(s: State, text: string): State { s.(listStatus := Error, errorText := text) }
  function FailBoard(s: State, text: string): State { s.(boardStatus := Error, errorText := text) }

  predicate IsStale(s: State, c: Continuation) {
    match c
    case ListToken(g) => g != s.listGeneration
    case ListReply(g) => g != s.listGeneration
    case BoardToken(g, _) => g != s.boardGeneration
    case BoardReply(g, _) => g != s.boardGeneration
    case CatalogReply(g) => g != s.catalogGeneration
  }

  /** The replies a continuation can be run with. */
  predicate Fits(c: Continuation, reply: Reply) {
    || reply.Failed?
    || match c
       case ListToken(_) => reply.Token?
       case BoardToken(_, _) => reply.Token?
       case ListReply(_) => reply.Games?
       case BoardReply(_, _) => reply.BoardOf?
       case CatalogReply(_) => reply.Catalog?
  }

  function FetchCatalog(s: State): State {
    s.(catalogStatus := CatalogLoading, pending := s.pending + {CatalogReply(s.catalogGeneration)})
  }

  /** Runs one continuation. */
  function Deliver(s: State, c: Continuation, reply: Reply): State
    requires c in s.pending && Fits(c, reply)
  {
    var s := s.(pending := s.pending - {c});
    if IsStale(s, c) then s
    else
      match c
      case ListToken(g) =>
        if reply.Failed? then FailList(s, TokenFailureText(s.signedIn, reply.text))
        else
          var s := if s.catalogStatus == NoCatalog then FetchCatalog(s) else s;
          s.(pending := s.pending + {ListReply(g)})
      case ListReply(_) =>
        if reply.Failed? then FailList(s, reply.text)
        else s.(games := s.games + OpenableGames(reply.rows), listStatus := Loaded)
      case BoardToken(g, game) =>
        if reply.Failed? then FailBoard(s, TokenFailureText(s.signedIn, reply.text))
        else s.(pending := s.pending + {BoardReply(g, game)})
      case BoardReply(_, game) =>
        if reply.Failed? then FailBoard(s, reply.text)
        else s.(rows := RowsOf(s.names, reply.board), shown := Some((game, reply.board)), boardStatus := Loaded)
      case CatalogReply(_) =>
        if reply.Failed? then s.(catalogStatus := NoCatalog)
        else s.(catalogStatus := CatalogLoaded, names := reply.names, rows := RelabelAll(reply.names, s.rows))
  }

  datatype Op =
    | LoadGamesOp
    | OpenGameOp(index: int)
    | RetryOp
    | CloseGameOp
    | ResetOp
    | SetSignedInOp(signedIn: bool)
    | DeliverOp(continuation: Continuation, reply: Reply)

  predicate Enabled(s: State, op: Op) {
    op.DeliverOp? ==> op.continuation in s.pending && Fits(op.continuation, op.reply)
  }

  function Apply(s: State, op: Op): State
    requires Enabled(s, op)
  {
    match op
    case LoadGamesOp => LoadGames(s)
    case OpenGameOp(index) => OpenGame(s, index)
    case RetryOp => Retry(s)
    case CloseGameOp => CloseGame(s)
    case ResetOp => Reset(s)
    case SetSignedInOp(signedIn) => SetSignedIn(s, signedIn)
    case DeliverOp(c, reply) => Deliver(s, c, reply)
  }

  // ---- What every operation keeps ----

  /** The selection is -1 or a game of the list; a game is selected exactly while its board is being
      shown or fetched, which needs a loaded list. */
  predicate SelectionInv(s: State) {
    && -1 <= s.selected < |s.games|
    && (s.selected >= 0 <==> s.boardStatus != Idle)
    && (s.listStatus != Loaded ==> s.games == [])
  }

  /** A loaded board is the board of the selected game, labelled from the present names; otherwise no
      rows are shown. An error text stands only for a stage in error. */
  predicate DisplayInv(s: State) {
    && (s.boardStatus != Loaded ==> s.rows == [])
    && (s.boardStatus == Loaded ==>
          && s.shown.Some? && 0 <= s.selected < |s.games| && s.shown.value.0 == s.games[s.selected].id
          && s.rows == RowsOf(s.names, s.shown.value.1))
    && (s.listStatus != Error && s.boardStatus != Error ==> s.errorText == "")
  }

  /** No continuation is from the future, and a stage is loading exactly while one continuation of its
      present generation is outstanding. */
  ghost predicate PendingInv(s: State) {
    && (forall c | c in s.pending ::
          match c
          case ListToken(g) => g <= s.listGeneration && (g == s.listGeneration ==> s.listStatus == Loading)
          case ListReply(g) => g <= s.listGeneration && (g == s.listGeneration ==> s.listStatus == Loading)
          case BoardToken(g, game) => g <= s.boardGeneration && (g == s.boardGeneration ==> IsFetching(s, game))
          case BoardReply(g, game) => g <= s.boardGeneration && (g == s.boardGeneration ==> IsFetching(s, game))
          case CatalogReply(g) =>
            g <= s.catalogGeneration && (g == s.catalogGeneration ==> s.catalogStatus == CatalogLoading))
    && !(ListToken(s.listGeneration) in s.pending && ListReply(s.listGeneration) in s.pending)
    && (s.selected >= 0 && s.selected < |s.games| ==>
          !(BoardToken(s.boardGeneration, s.games[s.selected].id) in s.pending
            && BoardReply(s.boardGeneration, s.games[s.selected].id) in s.pending))
    && (s.listStatus == Loading ==>
         ListToken(s.listGeneration) in s.pending || ListReply(s.listGeneration) in s.pending)
    && (s.boardStatus == Loading && 0 <= s.selected < |s.games| ==>
          || BoardToken(s.boardGeneration, s.games[s.selected].id) in s.pending
          || BoardReply(s.boardGeneration, s.games[s.selected].id) in s.pending)
    && (s.catalogStatus == CatalogLoading ==> CatalogReply(s.catalogGeneration) in s.pending)
  }

  predicate IsFetching(s: State, game: GameId) {
    s.boardStatus == Loading && 0 <= s.selected < |s.games| && s.games[s.selected].id == game
  }

  ghost predicate Valid(s: State) { SelectionInv(s) && DisplayInv(s) && PendingInv(s) }

  lemma UserOpKeepsPending(s: State, op: Op)
    requires Valid(s) && !op.DeliverOp?
    ensures PendingInv(Apply(s, op))
  {
    match op
    case LoadGamesOp =>
    case OpenGameOp(_) =>
    case RetryOp =>
    case CloseGameOp =>
    case ResetOp =>
    case SetSignedInOp(_) =>
  }

  lemma UserOpKeeps(s: State, op: Op)
    requires Valid(s) && !op.DeliverOp?
    ensures SelectionInv(Apply(s, op)) && DisplayInv(Apply(s, op))
  {
  }

  lemma DeliverKeepsSelection(s: State, c: Continuation, reply: Reply)
    requires Valid(s) && c in s.pending && Fits(c, reply)
    ensures SelectionInv(Deliver(s, c, reply))
  {
  }

  lemma DeliverKeepsDisplay(s: State, c: Continuation, reply: Reply)
    requires Valid(s) && c in s.pending && Fits(c, reply)
    ensures DisplayInv(Deliver(s, c, reply))
  {
    if c.CatalogReply? && reply.Catalog? && s.boardStatus == Loaded {
      RelabelledBoard(s.names, reply.names, s.shown.value.1);
    }
  }

  lemma TokenKeepsPending(s: State, c: Continuation, reply: Reply)
    requires Valid(s) && c in s.pending && Fits(c, reply) && (c.ListToken? || c.BoardToken?)
    ensures PendingInv(Deliver(s, c, reply))
  {
  }

  lemma DeliverKeepsPending(s: State, c: Continuation, reply: Reply)
    requires Valid(s) && c in s.pending && Fits(c, reply)
    ensures PendingInv(Deliver(s, c, reply))
  {
    if c.ListToken? || c.BoardToken? {
      TokenKeepsPending(s, c, reply);
    }
  }

  /** Every operation keeps the invariant ... */
  lemma ApplyKeeps(s: State, op: Op)
    requires Valid(s) && Enabled(s, op)
    ensures Valid(Apply(s, op))
  {
    if op.DeliverOp? {
      DeliverKeepsSelection(s, op.continuation, op.reply);
      DeliverKeepsDisplay(s, op.continuation, op.reply);
      DeliverKeepsPending(s, op.continuation, op.reply);
    } else {
      UserOpKeeps(s, op);
      UserOpKeepsPending(s, op);
    }
  }

  ghost predicate IsRun(states: seq<State>, ops: seq<Op>) {
    && |states| == |ops| + 1
    && forall i | 0 <= i < |ops| :: Enabled(states[i], ops[i]) && states[i + 1] == Apply(states[i], ops[i])
  }

  /** ... so it holds in every state of every run, whatever order the continuations run in: a board
      shown as loaded is always that of the selected game, and a stage shown as loading always has a
      continuation outstanding that will settle it. */
  lemma RunKeeps(states: seq<State>, ops: seq<Op>)
    requires IsRun(states, ops) && states[0] == INITIAL
    ensures forall n | 0 <= n < |states| :: Valid(states[n])
  {
    var n := 0;
    while n < |ops|
      invariant 0 <= n <= |ops|
      invariant forall m | 0 <= m <= n :: Valid(states[m])
    {
      ApplyKeeps(states[n], ops[n]);
      n := n + 1;
    }
  }

  // ---- Stale replies ----

  lemma StaleIsDropped(s: State, c: Continuation, reply: Reply)
    requires c in s.pending && Fits(c, reply) && IsStale(s, c)
    ensures Deliver(s, c, reply) == s.(pending := s.pending - {c})
  {
  }

  /** Generations never go back, so what is behind them stays behind. */
  ghost predicate IsBehind(s: State, c: Continuation) {
    match c
    case ListToken(g) => g < s.listGeneration
    case ListReply(g) => g < s.listGeneration
    case BoardToken(g, _) => g < s.boardGeneration
    case BoardReply(g, _) => g < s.boardGeneration
    case CatalogReply(g) => g < s.catalogGeneration
  }

  lemma BehindStaysBehind(s: State, op: Op, c: Continuation)
    requires Enabled(s, op) && IsBehind(s, c)
    ensures IsBehind(Apply(s, op), c)
  {
  }

  lemma BehindForever(states: seq<State>, ops: seq<Op>, c: Continuation)
    requires IsRun(states, ops) && IsBehind(states[0], c)
    ensures forall n | 0 <= n < |states| :: IsBehind(states[n], c)
  {
    var n := 0;
    while n < |ops|
      invariant 0 <= n <= |ops|
      invariant forall m | 0 <= m <= n :: IsBehind(states[m], c)
    {
      BehindStaysBehind(states[n], ops[n], c);
      n := n + 1;
    }
  }

  /** A reply to anything requested before a reset is dropped whenever it lands, however long after:
      running its continuation changes nothing and asks for nothing more. */
  lemma ResetDropsInFlight(s: State, c: Continuation, states: seq<State>, ops: seq<Op>, n: nat, reply: Reply)
    requires Valid(s) && c in s.pending
    requires IsRun(states, ops) && states[0] == Reset(s) && n < |states|
    requires c in states[n].pending && Fits(c, reply)
    ensures Deliver(states[n], c, reply) == states[n].(pending := states[n].pending - {c})
  {
    assert IsBehind(Reset(s), c);
    BehindForever(states, ops, c);
    assert IsBehind(states[n], c);
    StaleIsDropped(states[n], c, reply);
  }

  /** Likewise opening another game, or closing one, drops every board reply still in flight; the
      catalog reply is not affected. */
  lemma SwitchingDropsBoardReplies(s: State, index: int, c: Continuation, reply: Reply)
    requires Valid(s) && c in s.pending && (c.BoardToken? || c.BoardReply?) && Fits(c, reply)
    requires s.listStatus == Loaded && 0 <= index < |s.games|
    ensures var t := OpenGame(s, index); c in t.pending && Deliver(t, c, reply) == t.(pending := t.pending - {c})
    ensures s.selected >= 0 ==>
      var t := CloseGame(s); c in t.pending && Deliver(t, c, reply) == t.(pending := t.pending - {c})
    ensures OpenGame(s, index).catalogGeneration == s.catalogGeneration == CloseGame(s).catalogGeneration
  {
    assert IsBehind(OpenGame(s, index), c);
    StaleIsDropped(OpenGame(s, index), c, reply);
    if s.selected >= 0 {
      StaleIsDropped(CloseGame(s), c, reply);
    }
  }

  // ---- Order of replies ----

  /** The board and the catalog may arrive in either order: the state, row labels included, is the
      same. */
  lemma BoardAndCatalogCommute(s: State, board: Continuation, catalog: Continuation, r1: Reply, r2: Reply)
    requires Valid(s) && board in s.pending && catalog in s.pending
    requires board.BoardReply? && catalog.CatalogReply? && Fits(board, r1) && Fits(catalog, r2)
    ensures Deliver(Deliver(s, board, r1), catalog, r2) == Deliver(Deliver(s, catalog, r2), board, r1)
  {
    var rest := s.pending - {board} - {catalog};
    assert rest == s.pending - {catalog} - {board};
    if r1.BoardOf? && r2.Catalog? {
      RelabelledBoard(s.names, r2.names, r1.board);
    }
    assert RelabelAll(s.names, []) == [];
  }
}
