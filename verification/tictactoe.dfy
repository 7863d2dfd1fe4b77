/**
 * The rules of src/apps/tictactoe.c: a 3x3 board of ' ', 'X' and 'O', the
 * player to move, a cursor, and the game-over flag with its winner code
 * (-1 none yet, 0 X won, 1 O won, 2 draw).
 */
module TicTacToe {
  import opened Base

  const BOARD_SIZE: int := 3

  /** Scancodes handle_input reacts to. */
  const KEY_Q: int := 0x10
  const KEY_R: int := 0x13
  const KEY_UP: int := 0x48
  const KEY_DOWN: int := 0x50
  const KEY_LEFT: int := 0x4B
  const KEY_RIGHT: int := 0x4D
  const KEY_SPACE: int := 0x39

  /**
   * The game's static variables.  The board is read row by row: cell (y, x)
   * is board[3 * y + x].
   */
  datatype GameState = GameState(board: seq<char>, player: int, x: int, y: int, over: bool, winner: int)

  /** The eight lines check_winner inspects, in its order: rows, columns, the two diagonals. */
  const LINES: seq<(int, int, int)> :=
    [(0, 1, 2), (3, 4, 5), (6, 7, 8), (0, 3, 6), (1, 4, 7), (2, 5, 8), (0, 4, 8), (2, 4, 6)]

  /** The mark of player 0 is 'X', of player 1 'O'. */
  function Mark(player: int): char {
    if player == 0 then 'X' else 'O'
  }

  /** A line holding three equal marks. */
  predicate Complete(b: seq<char>, k: int)
    requires |b| == 9 && 0 <= k < 8
  {
    var (i, j, l) := LINES[k];
    b[i] != ' ' && b[i] == b[j] && b[j] == b[l]
  }

  /** The first complete line from k on, or 8 when there is none. */
  function FirstComplete(b: seq<char>, k: nat): (r: nat)
    requires |b| == 9 && k <= 8
    ensures k <= r <= 8 && (r < 8 ==> Complete(b, r))
    decreases 8 - k
  {
    if k == 8 then 8 else if Complete(b, k) then k else FirstComplete(b, k + 1)
  }

  /** No line between k and the first complete one is complete. */
  lemma {:induction false} BeforeFirstComplete(b: seq<char>, k: nat)
    requires |b| == 9 && k <= 8
    ensures forall j | k <= j < FirstComplete(b, k) :: !Complete(b, j)
    decreases 8 - k
  {
    if k < 8 && !Complete(b, k) {
      BeforeFirstComplete(b, k + 1);
    }
  }

  /**
   * What check_winner returns: the owner of the first complete line (0 for
   * 'X', 1 for anything else), otherwise -1 while a cell is empty and 2 for
   * a full board.
   */
  function Winner(b: seq<char>): (w: int)
    requires |b| == 9
    ensures -1 <= w <= 2
  {
    var k := FirstComplete(b, 0);
    if k < 8 then (if b[LINES[k].0] == 'X' then 0 else 1)
    else if ' ' in b then -1
    else 2
  }

  /**
   * The meaning of check_winner's result: a win for the player of a mark
   * exactly when some line is complete, and then for the owner of the first
   * complete line in the order check_winner scans them (0 for an 'X' line,
   * 1 otherwise); a draw exactly when no line is complete and the board is
   * full, and -1 otherwise.
   */
  lemma WinnerMeaning(b: seq<char>)
    requires |b| == 9
    ensures Winner(b) in {-1, 0, 1, 2}
    ensures (Winner(b) == 0 || Winner(b) == 1) <==> exists k | 0 <= k < 8 :: Complete(b, k)
    ensures Winner(b) == 0 ==> exists k | 0 <= k < 8 :: Complete(b, k) && b[LINES[k].0] == 'X'
    ensures Winner(b) == 1 ==> exists k | 0 <= k < 8 :: Complete(b, k) && b[LINES[k].0] != 'X'
    ensures forall k | 0 <= k < 8 && Complete(b, k) && (forall j | 0 <= j < k :: !Complete(b, j)) ::
      Winner(b) == (if b[LINES[k].0] == 'X' then 0 else 1)
    ensures Winner(b) == 2 <==> (forall k | 0 <= k < 8 :: !Complete(b, k)) && ' ' !in b
    ensures Winner(b) == -1 <==> (forall k | 0 <= k < 8 :: !Complete(b, k)) && ' ' in b
  {
    var k := FirstComplete(b, 0);
    BeforeFirstComplete(b, 0);
    if k < 8 {
      assert Complete(b, k);
    }
  }

  /** The number of cells holding c. */
  function Count(b: seq<char>, c: char): nat {
    multiset(b)[c]
  }

  /** Nine cells and the cursor on one of them. */
  predicate OnBoard(s: GameState) {
    |s.board| == 9 && 0 <= s.x < BOARD_SIZE && 0 <= s.y < BOARD_SIZE
  }

  /**
   * What holds between moves: the cursor is on the board, marks are ' ',
   * 'X' or 'O', and a winner code is recorded exactly when the game is over.
   */
  predicate Inv(s: GameState) {
    && OnBoard(s)
    && (forall i | 0 <= i < 9 :: s.board[i] in {' ', 'X', 'O'})
    && (s.player == 0 || s.player == 1)
    && -1 <= s.winner <= 2 && (s.over <==> s.winner != -1)
  }

  /**
   * The players take turns: X has made one more move than O exactly when
   * O is to move or X made the last move, and as many otherwise.
   */
  predicate Balanced(s: GameState) {
    Count(s.board, 'X') - Count(s.board, 'O') == (if s.over then 1 - s.player else s.player)
  }

  /** The recorded winner code is check_winner of the board. */
  predicate Scored(s: GameState)
    requires |s.board| == 9
  {
    s.winner == Winner(s.board)
  }

  /** The board init_game leaves: nine blank cells. */
  function Blank(): (b: seq<char>)
    ensures |b| == 9 && forall i | 0 <= i < 9 :: b[i] == ' '
  {
    seq(9, _ => ' ')
  }

  /** init_game: a new game keeps the invariants, with no winner yet, X to move and no marks. */
  function Initial(): (s: GameState)
    ensures Inv(s) && Scored(s) && Balanced(s)
  {
    EmptyBoard();
    GameState(Blank(), 0, 0, 0, false, -1)
  }

  lemma EmptyBoard()
    ensures Winner(Blank()) == -1 && Count(Blank(), 'X') == 0 && Count(Blank(), 'O') == 0
  {
    assert Blank()[0] == ' ';
    assert 'X' !in Blank() && 'O' !in Blank();
    assert forall k | 0 <= k < 8 :: !Complete(Blank(), k);
  }

  /**
   * make_move: on an empty cell of a running game the cursor's cell gets the
   * mover's mark and the winner is recomputed; the game ends if there is one,
   * and otherwise the other player is to move.  Anything else changes nothing.
   */
  function Move(s: GameState): GameState
    requires OnBoard(s)
  {
    var i := 3 * s.y + s.x;
    if s.board[i] == ' ' && !s.over then
      var b := s.board[i := Mark(s.player)];
      var w := Winner(b);
      if w != -1 then s.(board := b, winner := w, over := true)
      else s.(board := b, winner := w, player := 1 - s.player)
    else s
  }

  /**
   * handle_input: release codes are ignored; once the game is over only 'R'
   * (a restart) does anything; otherwise the arrows move the cursor around
   * the board and space makes a move.
   */
  function Step(s: GameState, code: Byte): GameState
    requires OnBoard(s)
  {
    if code >= 0x80 then s
    else if s.over then (if code == KEY_R then Initial() else s)
    else if code == KEY_UP then s.(y := (s.y - 1 + BOARD_SIZE) % BOARD_SIZE)
    else if code == KEY_DOWN then s.(y := (s.y + 1) % BOARD_SIZE)
    else if code == KEY_LEFT then s.(x := (s.x - 1 + BOARD_SIZE) % BOARD_SIZE)
    else if code == KEY_RIGHT then s.(x := (s.x + 1) % BOARD_SIZE)
    else if code == KEY_SPACE then Move(s)
    else s
  }

  /** A move keeps the invariant. */
  lemma MoveInv(s: GameState)
    requires Inv(s)
    ensures Inv(Move(s))
  {
    var i := 3 * s.y + s.x;
    if s.board[i] == ' ' && !s.over {
      MarkPlaced(s.board, i, Mark(s.player));
    }
  }

  /** A move keeps the players' turns balanced. */
  lemma MoveBalanced(s: GameState)
    requires Inv(s) && Balanced(s)
    ensures Balanced(Move(s))
  {
    var i := 3 * s.y + s.x;
    if s.board[i] == ' ' && !s.over {
      var c := Mark(s.player);
      var b := s.board[i := c];
      MarkPlaced(s.board, i, c);
      assert Count(b, 'X') - Count(b, 'O') == s.player + (if c == 'X' then 1 else -1);
      var w := Winner(b);
      var t := Move(s);
      assert t.board == b && t.over == (w != -1);
      assert t.player == if w != -1 then s.player else 1 - s.player;
    }
  }

  /** A mark put on an empty cell adds one to its own count and keeps the marks legal. */
  lemma MarkPlaced(b: seq<char>, i: int, c: char)
    requires |b| == 9 && 0 <= i < 9 && b[i] == ' ' && (c == 'X' || c == 'O')
    requires forall j | 0 <= j < 9 :: b[j] in {' ', 'X', 'O'}
    ensures var b2 := b[i := c]; forall j | 0 <= j < 9 :: b2[j] in {' ', 'X', 'O'}
    ensures Count(b[i := c], 'X') == Count(b, 'X') + (if c == 'X' then 1 else 0)
    ensures Count(b[i := c], 'O') == Count(b, 'O') + (if c == 'O' then 1 else 0)
  {
    assert multiset(b[i := c]) == multiset(b) - multiset{' '} + multiset{c};
  }

  /** Every input keeps the invariant, so the cursor never leaves the board. */
  lemma StepInv(s: GameState, code: Byte)
    requires Inv(s)
    ensures Inv(Step(s, code))
  {
    if code < 0x80 && !s.over && code == KEY_SPACE {
      MoveInv(s);
    }
  }

  /**
   * In a running game an input either leaves the board alone or fills one
   * empty cell, the one under the cursor, with the mover's mark.
   */
  lemma StepFillsOne(s: GameState, code: Byte)
    requires Inv(s) && !s.over
    ensures var b := Step(s, code).board;
      || b == s.board
      || (var i := 3 * s.y + s.x; s.board[i] == ' ' && b == s.board[i := Mark(s.player)])
  {
  }

  /** Once the game is over, an input changes nothing unless it is 'R', which restarts. */
  lemma StepWhenOver(s: GameState, code: Byte)
    requires Inv(s) && s.over
    ensures Step(s, code) == (if code == KEY_R then Initial() else s)
  {
  }

  /** Every input keeps the players' turns balanced. */
  lemma StepBalanced(s: GameState, code: Byte)
    requires Inv(s) && Balanced(s)
    ensures Balanced(Step(s, code))
  {
    if code < 0x80 && !s.over && code == KEY_SPACE {
      MoveBalanced(s);
    }
  }

  /** Every input keeps the recorded winner code equal to check_winner of the board. */
  lemma StepScored(s: GameState, code: Byte)
    requires Inv(s) && Scored(s)
    ensures Scored(Step(s, code))
  {
    StepInv(s, code);
    if code < 0x80 && !s.over && code == KEY_SPACE {
      MoveScored(s);
    }
  }

  /** A move records check_winner of the board it leaves. */
  lemma MoveScored(s: GameState)
    requires Inv(s) && Scored(s)
    ensures Scored(Move(s))
  {
    MoveInv(s);
  }

  /**
   * What make_move does: on an empty cell of a running game the mover's mark
   * goes under the cursor and nowhere else, the recorded winner is
   * check_winner of the new board, the game ends exactly when that is not -1,
   * and the other player is to move exactly when it goes on; the cursor stays.
   * On a taken cell or in a finished game nothing changes.
   */
  lemma MoveOutcome(s: GameState)
    requires Inv(s)
    ensures var i, t := 3 * s.y + s.x, Move(s);
      if s.board[i] == ' ' && !s.over then
        && t.board == s.board[i := Mark(s.player)]
        && t.winner == Winner(t.board)
        && t.over == (Winner(t.board) != -1)
        && t.player == (if t.over then s.player else 1 - s.player)
        && t.x == s.x && t.y == s.y
      else t == s
  {
  }

  /** What a run of tictactoe_game ends with: the state, the scancodes read, and whether 'Q' ended it. */
  datatype Session = Session(state: GameState, used: nat, quit: bool)

  /**
   * The loop of tictactoe_game after init_game: every scancode goes through
   * handle_input, and 'Q' once the game is over ends the loop.
   */
  function Play(s: GameState, codes: seq<Byte>): Session
    requires Inv(s)
    decreases |codes|
  {
    if codes == [] then Session(s, 0, false)
    else
      StepInv(s, codes[0]);
      var s1 := Step(s, codes[0]);
      if codes[0] == KEY_Q && s1.over then Session(s1, 1, true)
      else
        var r := Play(s1, codes[1..]);
        Session(r.state, r.used + 1, r.quit)
  }

  /** A run keeps the invariants, the recorded winner and the turns balanced. */
  lemma {:induction false} PlayKeeps(s: GameState, codes: seq<Byte>)
    requires Inv(s) && Scored(s) && Balanced(s)
    ensures Inv(Play(s, codes).state) && Scored(Play(s, codes).state) && Balanced(Play(s, codes).state)
    decreases |codes|
  {
    if codes != [] {
      StepInv(s, codes[0]);
      StepScored(s, codes[0]);
      StepBalanced(s, codes[0]);
      var s1 := Step(s, codes[0]);
      if !(codes[0] == KEY_Q && s1.over) {
        PlayKeeps(s1, codes[1..]);
      }
    }
  }

  /**
   * A run reads no more scancodes than there are, stops early only on 'Q',
   * and 'Q' ends it only in a finished game.
   */
  lemma {:induction false} PlayStops(s: GameState, codes: seq<Byte>)
    requires Inv(s)
    ensures Play(s, codes).used <= |codes|
    ensures Play(s, codes).used < |codes| ==> Play(s, codes).quit
    ensures Play(s, codes).quit ==>
      0 < Play(s, codes).used && codes[Play(s, codes).used - 1] == KEY_Q && Play(s, codes).state.over
    decreases |codes|
  {
    if codes != [] {
      StepInv(s, codes[0]);
      var s1 := Step(s, codes[0]);
      if !(codes[0] == KEY_Q && s1.over) {
        PlayStops(s1, codes[1..]);
        var r := Play(s1, codes[1..]);
        if r.quit {
          assert codes[1..][r.used - 1] == codes[r.used];
        }
      }
    }
  }

  /**
   * A run keeps the invariants and the turns balanced, reads no more
   * scancodes than there are, stops early only on 'Q', and 'Q' ends it only
   * in a finished game, which then has a winner or is a draw.
   */
  lemma PlayEnds(s: GameState, codes: seq<Byte>)
    requires Inv(s) && Scored(s) && Balanced(s)
    ensures var r := Play(s, codes);
      && Inv(r.state) && Scored(r.state) && Balanced(r.state)
      && r.used <= |codes| && (r.used < |codes| ==> r.quit)
      && (r.quit ==> 0 < r.used && codes[r.used - 1] == KEY_Q && r.state.over && r.state.winner in {0, 1, 2})
  {
    PlayKeeps(s, codes);
    PlayStops(s, codes);
  }

  /**
   * The game state of tictactoe.c.  board[y][x] is kept at cell 3 * y + x of
   * a nine-cell array, the row-major layout of the C array.
   */
  class Game {
    const board: array<char>
    var currentPlayer: int
    var cursorX: int
    var cursorY: int
    var gameOver: bool
    var winner: int

    function State(): GameState
      reads this, board
    {
      GameState(board[..], currentPlayer, cursorX, cursorY, gameOver, winner)
    }

    ghost predicate Valid()
      reads this, board
    {
      board.Length == 9 && Inv(State()) && Scored(State())
    }

    /** The game as tictactoe_game starts it. */
    constructor ()
      ensures Valid() && State() == Initial() && fresh(board)
    {
      board := new char[9];
      new;
      InitGame();
    }

    /** init_game: every cell blank, X to move, cursor at the top left, no winner. */
    method InitGame()
      requires board.Length == 9
      modifies this, board
      ensures Valid() && State() == Initial()
    {
      ClearBoard();
      currentPlayer := 0;
      cursorX, cursorY := 0, 0;
      gameOver := false;
      winner := -1;
      assert State() == GameState(Blank(), 0, 0, 0, false, -1);
    }

    /** The nested loops of init_game that blank every cell. */
    method ClearBoard()
      requires board.Length == 9
      modifies board
      ensures board[..] == Blank()
    {
      for y := 0 to BOARD_SIZE
        invariant forall i | 0 <= i < 3 * y :: board[i] == ' '
      {
        for x := 0 to BOARD_SIZE
          invariant forall i | 0 <= i < 3 * y + x :: board[i] == ' '
        {
          board[3 * y + x] := ' ';
        }
      }
    }

    /** check_winner, scanning rows, columns, diagonals and then the cells. */
    method CheckWinner() returns (w: int)
      requires board.Length == 9
      ensures w == Winner(board[..])
    {
      ghost var b := board[..];
      for y := 0 to BOARD_SIZE
        invariant forall k | 0 <= k < y :: !Complete(b, k)
      {
        var r := 3 * y;
        if board[r] != ' ' && board[r] == board[r + 1] && board[r + 1] == board[r + 2] {
          assert Complete(b, y);
          FirstCompleteAt(b, y);
          return if board[r] == 'X' then 0 else 1;
        }
        assert !Complete(b, y);
      }
      for x := 0 to BOARD_SIZE
        invariant forall k | 0 <= k < 3 + x :: !Complete(b, k)
      {
        if board[x] != ' ' && board[x] == board[3 + x] && board[3 + x] == board[6 + x] {
          assert Complete(b, 3 + x);
          FirstCompleteAt(b, 3 + x);
          return if board[x] == 'X' then 0 else 1;
        }
        assert !Complete(b, 3 + x);
      }
      if board[0] != ' ' && board[0] == board[4] && board[4] == board[8] {
        FirstCompleteAt(b, 6);
        return if board[0] == 'X' then 0 else 1;
      }
      if board[2] != ' ' && board[2] == board[4] && board[4] == board[6] {
        FirstCompleteAt(b, 7);
        return if board[2] == 'X' then 0 else 1;
      }
      FirstCompleteAt(b, 8);
      for y := 0 to BOARD_SIZE
        invariant forall i | 0 <= i < 3 * y :: b[i] != ' '
      {
        for x := 0 to BOARD_SIZE
          invariant forall i | 0 <= i < 3 * y + x :: b[i] != ' '
        {
          if board[3 * y + x] == ' ' {
            assert b[3 * y + x] == ' ';
            return -1;
          }
        }
      }
      assert ' ' !in b;
      return 2;
    }

    /** make_move, from the game state s. */
    method MakeMove(ghost s: GameState)
      requires board.Length == 9 && State() == s && OnBoard(s)
      modifies this, board
      ensures State() == Move(s)
    {
      var i := 3 * cursorY + cursorX;
      if board[i] == ' ' && !gameOver {
        ghost var b := s.board[i := Mark(s.player)];
        board[i] := Mark(currentPlayer);
        assert board[..] == b;
        winner := CheckWinner();
        if winner != -1 {
          gameOver := true;
        } else {
          currentPlayer := 1 - currentPlayer;
        }
      }
    }

    /** A state that keeps the invariants, once it is the game's state, makes the game valid. */
    lemma ValidOf(t: GameState)
      requires board.Length == 9 && State() == t && Inv(t) && Scored(t)
      ensures Valid()
    {
    }

    /** handle_input, for one scancode read from the keyboard controller. */
    method HandleInput(code: Byte)
      requires Valid()
      modifies this, board
      ensures Valid() && State() == Step(old(State()), code)
    {
      ghost var s := State();
      StepInv(s, code);
      StepScored(s, code);
      assert OnBoard(s);
      HandleKey(s, code);
      ValidOf(Step(s, code));
    }

    /**
     * The loop of tictactoe_game, fed the scancodes read from the keyboard:
     * handle_input for each one, until 'Q' in a finished game.
     */
    method Run(codes: seq<Byte>) returns (used: nat, quit: bool)
      requires Valid()
      modifies this, board
      ensures Valid() && Play(old(State()), codes) == Session(State(), used, quit)
    {
      ghost var s0 := State();
      used, quit := 0, false;
      while used < |codes| && !quit
        invariant used <= |codes| && Valid()
        invariant !quit ==> Play(s0, codes) == (var r := Play(State(), codes[used..]); Session(r.state, r.used + used, r.quit))
        invariant quit ==> Play(s0, codes) == Session(State(), used, true)
        decreases |codes| - used, !quit
      {
        assert codes[used..][0] == codes[used] && codes[used..][1..] == codes[used + 1..];
        var code := codes[used];
        HandleInput(code);
        used := used + 1;
        if code == KEY_Q && gameOver {
          quit := true;
        }
      }
    }

    /** The body of handle_input, from the game state s. */
    method HandleKey(ghost s: GameState, code: Byte)
      requires board.Length == 9 && State() == s && OnBoard(s)
      modifies this, board
      ensures State() == Step(s, code)
    {
      if code < 0x80 {
        if gameOver {
          if code == KEY_R {
            Restart(s, code);
          }
        } else if code == KEY_SPACE {
          MakeMove(s);
        } else {
          MoveCursor(s, code);
        }
      }
    }

    /** 'R' once the game is over: init_game starts a new one. */
    method Restart(ghost s: GameState, code: Byte)
      requires board.Length == 9 && OnBoard(s) && s.over && code == KEY_R
      modifies this, board
      ensures State() == Step(s, code)
    {
      InitGame();
    }

    /** The arrow keys of handle_input: the cursor moves one cell, wrapping around the board. */
    method MoveCursor(ghost s: GameState, code: Byte)
      requires board.Length == 9 && State() == s && OnBoard(s) && !s.over && code < 0x80 && code != KEY_SPACE
      modifies this
      ensures State() == Step(s, code)
    {
      if code == KEY_UP {
        cursorY := (cursorY - 1 + BOARD_SIZE) % BOARD_SIZE;
      } else if code == KEY_DOWN {
        cursorY := (cursorY + 1) % BOARD_SIZE;
      } else if code == KEY_LEFT {
        cursorX := (cursorX - 1 + BOARD_SIZE) % BOARD_SIZE;
      } else if code == KEY_RIGHT {
        cursorX := (cursorX + 1) % BOARD_SIZE;
      }
    }
  }

  /** The first complete line is k when k is and none before it is. */
  lemma FirstCompleteAt(b: seq<char>, k: nat)
    requires |b| == 9 && k <= 8 && (k < 8 ==> Complete(b, k))
    requires forall j | 0 <= j < k :: !Complete(b, j)
    ensures FirstComplete(b, 0) == k
  {
    FirstCompleteFrom(b, 0, k);
  }

  lemma {:induction false} FirstCompleteFrom(b: seq<char>, i: nat, k: nat)
    requires |b| == 9 && i <= k <= 8 && (k < 8 ==> Complete(b, k))
    requires forall j | i <= j < k :: !Complete(b, j)
    ensures FirstComplete(b, i) == k
    decreases k - i
  {
    if i < k {
      FirstCompleteFrom(b, i + 1, k);
    }
  }
}
