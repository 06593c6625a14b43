/** GameBoardController.cpp: the object, with its continuations as methods that run once each. */
module GameBoardController {
  import opened Wrappers
  import opened BoardCards
  import opened GameBoard

  /** The invariant of every run (the quantifier keeps the solver from unfolding it in the methods). */
  ghost predicate InvariantHolds(s: GameBoard.State) {
    forall t | t == s :: Valid(t)
  }

  lemma StepKeeps(s: GameBoard.State, op: Op)
    requires InvariantHolds(s) && Enabled(s, op)
    ensures InvariantHolds(Apply(s, op))
  {
    ApplyKeeps(s, op);
  }

  class GameBoardController {
    const board: BoardCardsModel
    var listGeneration: nat
    var boardGeneration: nat
    var catalogGeneration: nat
    var listStatus: Status
    var boardStatus: Status
    var catalogStatus: CatalogStatus
    var games: seq<Game>
    var selected: int
    var errorText: string
    var signedIn: bool
    /** The callbacks held by the token source and the client. */
    var pending: set<Continuation>
    ghost var shown: Option<(GameId, PublicGame)>

    ghost function State(): GameBoard.State
      reads this, board
    {
      GameBoard.State(listGeneration, boardGeneration, catalogGeneration, listStatus, boardStatus, catalogStatus,
                      games, selected, errorText, signedIn, board.rows, board.names, pending, shown)
    }

    ghost predicate Valid()
      reads this, board
    {
      InvariantHolds(State())
    }

    constructor ()
      ensures State() == INITIAL && Valid() && fresh(board)
    {
      board := new BoardCardsModel();
      listGeneration, boardGeneration, catalogGeneration := 0, 0, 0;
      listStatus, boardStatus, catalogStatus := Idle, Idle, NoCatalog;
      games, selected, errorText, signedIn := [], -1, "", false;
      pending, shown := {}, None;
    }

    method LoadGames()
      requires Valid()
      modifies this, board
      ensures State() == GameBoard.LoadGames(old(State())) && Valid()
    {
      StepKeeps(State(), LoadGamesOp);
      StartList();
    }

    method StartList()
      modifies this, board
      ensures State() == GameBoard.LoadGames(old(State()))
    {
      board.Clear();
      listGeneration := listGeneration + 1;
      boardGeneration := boardGeneration + 1;
      games := [];
      selected := -1;
      boardStatus := Idle;
      listStatus := Loading;
      errorText := "";
      shown := None;
      pending := pending + {ListToken(listGeneration)};
    }

    method OpenGame(index: int)
      requires Valid()
      modifies this, board
      ensures State() == GameBoard.OpenGame(old(State()), index) && Valid()
    {
      StepKeeps(State(), OpenGameOp(index));
      if listStatus != Loaded || index < 0 || index >= |games| {
        return;
      }
      selected := index;
      FetchBoard();
    }

    method FetchBoard()
      requires 0 <= selected < |games|
      modifies this, board
      ensures State() == GameBoard.FetchBoard(old(State()))
    {
      boardGeneration := boardGeneration + 1;
      board.Clear();
      boardStatus := Loading;
      errorText := "";
      shown := None;
      pending := pending + {BoardToken(boardGeneration, games[selected].id)};
    }

    method Retry()
      requires Valid()
      modifies this, board
      ensures State() == GameBoard.Retry(old(State())) && Valid()
    {
      StepKeeps(State(), RetryOp);
      assert GameBoard.Valid(State());
      if boardStatus == Error && selected >= 0 {
        FetchBoard();
      } else if listStatus == Error {
        StartList();
      }
    }

    /** Every board reply still in flight is stale afterwards. */
    method CloseGame()
      requires Valid()
      modifies this, board
      ensures State() == GameBoard.CloseGame(old(State())) && Valid()
      ensures forall c | c in pending && (c.BoardToken? || c.BoardReply?) :: IsStale(State(), c)
    {
      StepKeeps(State(), CloseGameOp);
      assert GameBoard.Valid(State());
      if selected < 0 && boardStatus == Idle {
        return;
      }
      boardGeneration := boardGeneration + 1;
      board.Clear();
      selected := -1;
      boardStatus := Idle;
      errorText := "";
      shown := None;
    }

    /** Everything still in flight is stale afterwards. */
    method Reset()
      requires Valid()
      modifies this, board
      ensures State() == GameBoard.Reset(old(State())) && Valid()
      ensures forall c | c in pending :: IsStale(State(), c)
    {
      StepKeeps(State(), ResetOp);
      assert GameBoard.Valid(State());
      Forget();
    }

    method Forget()
      modifies this, board
      ensures State() == GameBoard.Reset(old(State()))
    {
      board.Clear();
      var changed := board.SetCardNames(map[]);
      assert board.rows == [];
      listGeneration := listGeneration + 1;
      boardGeneration := boardGeneration + 1;
      catalogGeneration := catalogGeneration + 1;
      catalogStatus := NoCatalog;
      games := [];
      selected := -1;
      listStatus := Idle;
      boardStatus := Idle;
      errorText := "";
      shown := None;
    }

    method SetSignedIn(nowSignedIn: bool) returns (announced: bool)
      requires Valid()
      modifies this, board
      ensures State() == GameBoard.SetSignedIn(old(State()), nowSignedIn) && Valid()
      ensures announced <==> nowSignedIn && !old(signedIn)
    {
      StepKeeps(State(), SetSignedInOp(nowSignedIn));
      if !nowSignedIn {
        signedIn := false;
        Forget();
        return false;
      }
      if signedIn {
        return false;
      }
      signedIn := true;
      return true;
    }

    // ---- Continuations ----

    /** Runs a continuation with a reply it can get, whichever of those outstanding it is. */
    method Run(c: Continuation, reply: Reply)
      requires Valid() && c in pending && Fits(c, reply)
      modifies this, board
      ensures State() == Deliver(old(State()), c, reply) && Valid()
    {
      StepKeeps(State(), DeliverOp(c, reply));
      Continue(c, reply);
    }

    method Continue(c: Continuation, reply: Reply)
      requires c in pending && Fits(c, reply)
      modifies this, board
      ensures State() == Deliver(old(State()), c, reply)
    {
      match c
      case ListToken(_) => OnListToken(c, reply);
      case ListReply(_) => OnListReply(c, reply);
      case BoardToken(_, _) => OnBoardToken(c, reply);
      case BoardReply(_, _) => OnBoardReply(c, reply);
      case CatalogReply(_) => OnCatalogReply(c, reply);
    }

    method OnListToken(c: Continuation, reply: Reply)
      requires c.ListToken? && c in pending && Fits(c, reply)
      modifies this, board
      ensures State() == Deliver(old(State()), c, reply)
    {
      pending := pending - {c};
      if c.generation != listGeneration {
        return;
      }
      if reply.Failed? {
        listStatus := Error;
        errorText := TokenFailureText(signedIn, reply.text);
        return;
      }
      if catalogStatus == NoCatalog {
        catalogStatus := CatalogLoading;
        pending := pending + {CatalogReply(catalogGeneration)};
      }
      pending := pending + {ListReply(c.generation)};
    }

    method OnListReply(c: Continuation, reply: Reply)
      requires c.ListReply? && c in pending && Fits(c, reply)
      modifies this, board
      ensures State() == Deliver(old(State()), c, reply)
    {
      pending := pending - {c};
      if c.generation != listGeneration {
        return;
      }
      if reply.Failed? {
        listStatus := Error;
        errorText := reply.text;
        return;
      }
      for i := 0 to |reply.rows|
        invariant games == old(games) + OpenableGames(reply.rows[..i])
        invariant State() == old(State()).(pending := pending, games := games)
        invariant pending == old(pending) - {c}
      {
        assert reply.rows[..i + 1][..i] == reply.rows[..i];
        if reply.rows[i].Decoded? {
          games := games + [reply.rows[i].game];
        }
      }
      assert reply.rows[..|reply.rows|] == reply.rows;
      listStatus := Loaded;
    }

    method OnBoardToken(c: Continuation, reply: Reply)
      requires c.BoardToken? && c in pending && Fits(c, reply)
      modifies this, board
      ensures State() == Deliver(old(State()), c, reply)
    {
      pending := pending - {c};
      if c.generation != boardGeneration {
        return;
      }
      if reply.Failed? {
        boardStatus := Error;
        errorText := TokenFailureText(signedIn, reply.text);
        return;
      }
      pending := pending + {BoardReply(c.generation, c.game)};
    }

    method OnBoardReply(c: Continuation, reply: Reply)
      requires c.BoardReply? && c in pending && Fits(c, reply)
      modifies this, board
      ensures State() == Deliver(old(State()), c, reply)
    {
      pending := pending - {c};
      if c.generation != boardGeneration {
        return;
      }
      if reply.Failed? {
        boardStatus := Error;
        errorText := reply.text;
        return;
      }
      board.SetGame(reply.board);
      boardStatus := Loaded;
      shown := Some((c.game, reply.board));
    }

    method OnCatalogReply(c: Continuation, reply: Reply)
      requires c.CatalogReply? && c in pending && Fits(c, reply)
      modifies this, board
      ensures State() == Deliver(old(State()), c, reply)
    {
      pending := pending - {c};
      if c.generation != catalogGeneration {
        return;
      }
      if reply.Failed? {
        catalogStatus := NoCatalog;
        return;
      }
      catalogStatus := CatalogLoaded;
      var changed := board.SetCardNames(reply.names);
    }
  }
}
