# ShOS kernel core in Dafny

This project models the core of ShOS, a small hobby x86 kernel written in C,
and proves properties of the model. It covers these parts of the kernel:

- **The in-memory tree filesystem** (`src/fs/fs.c`). Nodes live in a fixed pool next to a static
  `root_dir`. The links are `parent`, `children` and `next`, and `current_dir` is the cursor.
  - `FsTree` states each operation as a function on a `Tree` value, together with the
    structural invariant `Wf`: a single parentless root, consistent parent and child links,
    at most one entry per name and kind among siblings, and a pool that only grows.
  - `Fs.FileSystem` performs the same operations on an `array<Node>`. It follows and
    rewrites the links with loops, and every method is proved to agree with the function
    of the same operation.
  - `FsLegacy` models the older top-level `fs.c`. Only its `fs_pwd` differs.
- **The kernel C library** (`klib.c`, duplicated in `klib.h`). `KLib` covers:
  - C strings stored in `seq<char>` or `array<char>`: `kstrlen`, `kstreq`, `kstrcpy` and `kstrcat`;
  - `str_to_int` and `int_to_str` on 32-bit `int`;
  - the line editor of `kgets`, over a finite key stream;
  - the scancode table of `kgetchar`.
- **The credential table** (`src/auth/auth.c`, module `Auth`):
  - the `name:password:admin` line serialiser and the line parser;
  - the users file `users.dat` kept in the filesystem;
  - the credential check, `auth_init`, and the decisions of `auth_register` and `auth_login`.
- **Tic-tac-toe** (`src/apps/tictactoe.c`): the board, moves, winner detection, cursor
  handling and the game loop.
- **The shell** (`shell.c`): `parse_args` cuts the line into words in place, and
  `execute_command` looks the first word up in the command table.
- **The text editor** (`editor.c`): what each scancode does to the 1024-byte buffer, the
  cursor and the Ctrl flag; loading the file; saving it with `fs_write`.
- **The VGA text driver** (`src/drivers/vga.c`): the 80x25 cell array and its cursor, with
  line wrap, backspace and scrolling.

Code that changes state in place is modelled as a Dafny class over arrays or fields. Each
such method is proved against a function on values, and the properties are lemmas about
those functions. Keyboard input and the file system's contents are parameters. Each
keyboard-driven loop takes a finite sequence of keys or scancodes.

In three places the usual description of the system and its code differ. The model follows
the code:

- `auth_load_users` also cuts the third field at a further `':'`, because `kstrchr` runs a
  third time and writes a NUL there. Text after that `':'` is dropped, not kept in the field.
- `vga_putc('\b')` at (0, 0) leaves the cursor where it is, but it still blanks cell 0.
- `vga_putc` stores `(0x07 << 8) | c` with a signed `char`. A byte of 0x80 or above is
  sign-extended, so its attribute byte is 0xFF rather than 0x07 (`Vga.Entry`).

## Model

| member | source | states |
|---|---|---|
| KLib.CLen | klib.c:5-9 | the length of a C string is the index of its first NUL, with no NUL before it |
| KLib.StrLen | klib.c:5-9 | kstrlen returns the index of the first NUL |
| KLib.StrEq | klib.c:11-17 | kstreq is true exactly when the two C strings are equal |
| KLib.StrEqUpToTerminator | klib.h:21-27 | two C strings are equal exactly when the bytes up to and including the first one's terminator agree |
| KLib.StrEqOnTexts | klib.c:11-17 | comparing two terminated texts is plain equality of the texts |
| KLib.TextEq | klib.c:11-17 | kstreq on two stored texts is true exactly when they are equal |
| KLib.StrCpy | klib.c:19-24 | dest holds src and a NUL; cells after the terminator are untouched |
| KLib.CopyAt | klib.c:29-32 | the copy loop writes src and its NUL from index d and leaves everything else as it was |
| KLib.StrCat | klib.c:27-33 | dest holds its old string followed by src, NUL-terminated; cells after are untouched |
| KLib.CStrOfPrefix | klib.c:5-9 | memory that starts with a text and a NUL holds that C string |
| KLib.StrToInt | klib.c:86-106 | str_to_int returns the value of an optional '-' and decimal digits, and 0 when any other character occurs ("" and "-" give 0) |
| KLib.IntToStr | klib.c:108-144 | int_to_str writes the decimal form (a '-' for negatives, "0" for zero, most significant digit first) and a NUL, for every value but INT_MIN |
| KLib.PutRevDigits | klib.c:123-127 | the digit loop writes the digits least significant first |
| KLib.ReversePrefix | klib.c:135-143 | the swap loop reverses str[0..len) in place and touches nothing else |
| KLib.RevDigitsReversed | klib.c:123-143 | reversing the digits written least significant first gives the decimal digits |
| KLib.DecimalRoundTrip | klib.c:86-144 | str_to_int reads back what int_to_str writes |
| KLib.DecimalAlphabet | klib.c:108-144 | int_to_str writes only digits and '-' |
| KLib.KGets | klib.c:35-52 | kgets leaves the edited line followed by a NUL in buf and reads keys up to the newline, or until max-1 characters are kept |
| KLib.PutKey | klib.c:38-48 | one key: backspace drops the last kept character, a character in 32..126 is appended, anything else is ignored |
| KLib.TypeLineWithoutBackspace | klib.c:35-52 | without backspaces, kgets keeps exactly the first max-1 printable characters typed before the newline |
| KLib.TypeLineBounds | klib.h:29-46 | kgets keeps at most max-1 characters, all in 32..126, and reads no key past the first newline |
| KLib.KGetChar | klib.c:54-74 | kgetchar maps release codes to NUL and only ever yields NUL, backspace, tab, newline or a printable character |
| KLib.KeymapChars | klib.c:58-68 | the table has 128 entries, each NUL, backspace, tab, newline or printable |
| KLib.KeymapSpecialKeys | klib.h:54-69 | 0x0E gives backspace, 0x1C newline and 0x39 space; Ctrl and Shift give NUL |
| FsTree.CreateOutcome | src/fs/fs.c:26-42 | fs_create_node fails exactly when the pool is used up; otherwise it takes slot node_count, as a child of current_dir, and node_count grows by one |
| FsTree.Find | src/fs/fs.c:44-64 | lookup returns the child of current_dir with that name and kind, or NULL when there is none; there is at most one |
| FsTree.FindSameEntries | src/fs/fs.c:44-64 | lookups depend only on current_dir's list and the names and kinds in it |
| FsTree.MakeEntryOutcome | src/fs/fs.c:66-124 | mkdir/touch give -1 with nothing changed for an empty or too long name, an existing entry of that name and kind, or a full pool; otherwise the new node heads current_dir's children with the old children behind it |
| FsTree.MakeEntryLinked | src/fs/fs.c:86-88 | the two link writes of mkdir/touch keep the tree well formed and the pool only grows |
| FsTree.LinkHeadWf | src/fs/fs.c:117-118 | putting a fresh, uniquely named child at the head of current_dir's list keeps the tree well formed |
| FsTree.WriteOutcome | src/fs/fs.c:126-144 | fs_write gives -1 with no change for a missing file; otherwise only that file changes and fs_cat then shows exactly the new content |
| FsTree.WriteReplaces | src/fs/fs.c:137-138 | a second fs_write fully replaces the first |
| FsTree.Ls | src/fs/fs.c:175-212 | fs_ls gives -1 for a non-empty path; otherwise it lists one entry per child in list order, and none ("(empty)") exactly when there are no children |
| FsTree.RenderCons | src/fs/fs.c:221-228 | each step of the pwd walk prepends "/" and the node's name |
| FsTree.ChainParents | src/fs/fs.c:221-228 | the path of current_dir follows parent links up to a child of the root |
| FsTree.CdSpecial | src/fs/fs.c:239-263 | cd "" and "/" go to the root, which prints as "/"; "." stays; ".." at the root stays; all return 0 |
| FsTree.CdParent | src/fs/fs.c:246-252 | cd ".." below the root moves to the parent, whose path is one step shorter |
| FsTree.CdName | src/fs/fs.c:265-275 | cd with a name gives -1 with nothing changed when no child directory has it; otherwise current_dir becomes that child and its path grows by "/name" |
| FsTree.MoveCwdWf | src/fs/fs.c:239-276 | moving current_dir to another directory keeps the tree well formed |
| FsTree.RemoveOutcome | src/fs/fs.c:279-302 | fs_remove_node succeeds exactly for a node still in its parent's list and then removes only that node; the other children keep their order |
| FsTree.RemoveAttached | src/fs/fs.c:284-299 | an attached node is unlinked, whether it heads its parent's list or not |
| FsTree.RemoveDetached | src/fs/fs.c:280-301 | the root, NULL and a node not in its parent's list are refused with -1 and no change |
| FsTree.UnlinkHeadWf | src/fs/fs.c:285-288 | unlinking the head of a children list keeps the tree well formed |
| FsTree.UnlinkAfterWf | src/fs/fs.c:291-299 | splicing a later child out of the list keeps the tree well formed |
| FsTree.PrevFound | src/fs/fs.c:291-294 | the search loop stops at the node just before the target |
| FsTree.RmOutcome | src/fs/fs.c:304-356 | fs_rm removes a file of that name first, else an empty directory of that name; a non-empty directory, the current directory, the root and an unknown name give -1 with nothing changed |
| Fs.FileSystem.constructor | src/fs/fs.c:11-24 | fs_init: only the root exists, it is current, pwd prints "/" and ls lists nothing |
| Fs.FileSystem.CreateNode | src/fs/fs.c:26-42 | the pool method agrees with FsTree.Create and keeps the invariant |
| Fs.FileSystem.FindChild | src/fs/fs.c:45-52 | the scan loop returns the first child of that name and kind, as FsTree.Find |
| Fs.FileSystem.FindFile | src/fs/fs.c:44-53 | fs_find_file agrees with FsTree.Find for files |
| Fs.FileSystem.FindDir | src/fs/fs.c:55-64 | fs_find_dir agrees with FsTree.Find for directories |
| Fs.FileSystem.AddEntry | src/fs/fs.c:66-124 | the shared body of mkdir/touch agrees with FsTree.MakeEntry and keeps the invariant |
| Fs.FileSystem.Mkdir | src/fs/fs.c:66-94 | fs_mkdir agrees with FsTree.MakeEntry for directories |
| Fs.FileSystem.Touch | src/fs/fs.c:96-124 | fs_touch agrees with FsTree.MakeEntry for files |
| Fs.FileSystem.Write | src/fs/fs.c:126-144 | fs_write agrees with FsTree.Write and keeps the invariant |
| Fs.FileSystem.Cat | src/fs/fs.c:146-173 | fs_cat gives -1 for a missing file, "empty" for no data or size 0, and otherwise the stored bytes |
| Fs.FileSystem.Ls | src/fs/fs.c:175-212 | fs_ls returns 0 or -1 and shows the entries FsTree.Ls lists |
| Fs.FileSystem.Pwd | src/fs/fs.c:214-237 | fs_pwd prints "/" at the root and otherwise "/" and a name for each directory from below the root down to current_dir |
| Fs.FileSystem.WalkUp | src/fs/fs.c:218-228 | the buffer ends up holding the rendered path of current_dir |
| Fs.FileSystem.Cd | src/fs/fs.c:239-276 | fs_cd agrees with FsTree.Cd and keeps the invariant |
| Fs.FileSystem.RemoveNode | src/fs/fs.c:279-302 | fs_remove_node agrees with FsTree.Remove and keeps the invariant |
| Fs.FileSystem.UnlinkFirst | src/fs/fs.c:285-288 | parent->children = node->next for the head of the list |
| Fs.FileSystem.UnlinkNext | src/fs/fs.c:296-298 | current->next = node->next for a later node |
| Fs.FileSystem.Rm | src/fs/fs.c:304-356 | fs_rm agrees with FsTree.Rm and keeps the invariant |
| FsLegacy.PwdText | fs.c:118-141 | the older fs_pwd prints "/" and the root's name before the newer path: "//" at the root, "///a" below it |
| FsLegacy.DoubledSlash | fs.c:125-132 | the older fs_pwd never prints the newer path, and prints "//" at the root |
| FsLegacy.Pwd | fs.c:118-141 | the older fs_pwd on the pool agrees with FsLegacy.PwdText |
| FsLegacy.WalkToNull | fs.c:125-131 | the walk loop that goes on through the root ends with the rendered chain in the buffer |
| Auth.LineOf | src/auth/auth.c:37-45 | one saved line is username, ':', password, ':', decimal is_admin and '\n' |
| Auth.SerializeLength | src/auth/auth.c:34-46 | the saved text of a full table of storable users fits the 1024-byte buffer |
| Auth.DecimalShort | src/auth/auth.c:42-43 | an is_admin in -99..999 fits admin_str[4] |
| Auth.AdminReads | src/auth/auth.c:101 | the written is_admin reads back through str_to_int without overflow |
| Auth.Span | src/auth/auth.c:90 | the position kstrchr finds: a ':' when there is one, and no ':' before it |
| Auth.Split | src/auth/auth.c:88-95 | the loop keeps at most k fields, and at least one |
| Auth.UserList | src/auth/auth.c:97-103 | a line stands for at most one user |
| Auth.SplitFields | src/auth/auth.c:84-95 | the field loop cuts at most three fields, each at the next ':' |
| Auth.SplitLine | src/auth/auth.c:84-101 | the three fields of a written line come back as written |
| Auth.ReadLine | src/auth/auth.c:84-103 | a line gives a user exactly when it has three fields |
| Auth.ParseLine | src/auth/auth.c:79-106 | parsing a written line yields its user and goes on with the rest |
| Auth.ParseStep | src/auth/auth.c:79-106 | at a newline the line before it is parsed and parsing goes on after it |
| Auth.ParseNoLine | src/auth/auth.c:79-108 | a trailing line without a newline gives no user |
| Auth.ParseSerialize | src/auth/auth.c:29-111 | parsing what the serialiser writes gives the same users in the same order |
| Auth.LoadableSerialize | src/auth/auth.c:29-111 | a saved table of storable users loads back without overflowing any field buffer |
| Auth.ReadUsers | src/auth/auth.c:73-110 | the line loop reads at most MAX_USERS users, line by line, each storable |
| Auth.TakeLine | src/auth/auth.c:80-105 | a newline ends the line: its user, if it has three fields, is stored and the scan goes on after the newline |
| Auth.ReadNewline | src/auth/auth.c:80-105 | after a newline the scan goes on with the next line and the line's user is stored |
| Auth.ReadDone | src/auth/auth.c:79-110 | when the scan stops, the users read are the first MAX_USERS parsed |
| Auth.SavedOutcome | src/auth/auth.c:48-61 | auth_save_users fails only when users.dat is missing and the pool is full, and then changes nothing; otherwise users.dat holds exactly the content |
| Auth.LoadedContent | src/auth/auth.c:65-111 | loading gives the first MAX_USERS users parsed from users.dat, and 1 exactly when there is at least one |
| Auth.SaveThenLoad | src/auth/auth.c:29-111 | loading after a successful save restores the table when no field holds ':' or '\n' |
| Auth.AppendText | src/auth/auth.c:37 | kstrcat of a text appends exactly that text |
| Auth.AppendField | src/auth/auth.c:37-40 | a field and its ':' are appended |
| Auth.AppendAdmin | src/auth/auth.c:42-45 | is_admin is appended in decimal through admin_str, then '\n' |
| Auth.AppendLine | src/auth/auth.c:37-45 | one user's line is appended to the buffer |
| Auth.BuildContent | src/auth/auth.c:34-46 | the first loop serialises the whole table into a fresh 1024-byte buffer |
| Auth.OpenFile | src/auth/auth.c:49-53 | users.dat is found, or created first when missing; NULL only when it cannot be |
| Auth.SetData | src/auth/auth.c:55-58 | data and size of users.dat become the content |
| Auth.StoreContent | src/auth/auth.c:48-61 | the second half of auth_save_users agrees with Auth.Saved |
| Auth.DefaultsSavable | src/auth/auth.c:15-23 | the two default users fit every buffer and survive a save and a load |
| Auth.UserTable.constructor | src/auth/auth.c:7-8 | the table starts empty |
| Auth.UserTable.CheckCredentials | src/auth/auth.c:113-121 | returns 1 exactly when some user has both this username and this password |
| Auth.UserTable.SaveUsers | src/auth/auth.c:29-62 | the serialised table becomes the content of users.dat |
| Auth.UserTable.LoadUsers | src/auth/auth.c:65-111 | 0 with the table kept when users.dat or its data is missing; otherwise the users parsed from it, and 1 exactly when there is at least one |
| Auth.UserTable.Init | src/auth/auth.c:11-26 | when nothing loads, the table is admin/password/1 and user/12345/0 and is saved; users.dat then loads back as the table |
| Auth.UserTable.Register | src/auth/auth.c:194-282 | 1 exactly when the table has room, the username is new and the confirmation matches; then one non-admin user is appended and saved, otherwise nothing changes |
| Auth.UserTable.UsernameTaken | src/auth/auth.c:214-220 | true exactly when some user already has the username |
| Auth.UserTable.Login | src/auth/auth.c:123-192 | 1 at the first attempt that matches, 0 after exactly three that do not |
| TicTacToe.Winner | src/apps/tictactoe.c:111-145 | check_winner's result is always -1, 0, 1 or 2 |
| TicTacToe.WinnerMeaning | src/apps/tictactoe.c:111-145 | 0 or 1 exactly when some line is complete, and then the owner of the first complete line in scan order (0 for an X line, 1 for an O line); 2 exactly when no line is and the board is full, -1 exactly when no line is and a cell is empty |
| TicTacToe.Initial | src/apps/tictactoe.c:19-32 | init_game's state keeps the invariants, has no winner, X to move and no marks |
| TicTacToe.Blank | src/apps/tictactoe.c:21-25 | init_game leaves nine blank cells |
| TicTacToe.EmptyBoard | src/apps/tictactoe.c:21-25 | the blank board has no winner and no marks |
| TicTacToe.MarkPlaced | src/apps/tictactoe.c:149-150 | a mark on an empty cell adds one to its own count and keeps marks legal |
| TicTacToe.MoveInv | src/apps/tictactoe.c:148-161 | make_move keeps the invariant |
| TicTacToe.MoveBalanced | src/apps/tictactoe.c:148-161 | make_move keeps the X and O counts in turn |
| TicTacToe.MoveScored | src/apps/tictactoe.c:148-152 | make_move keeps the recorded winner equal to check_winner of the board |
| TicTacToe.MoveOutcome | src/apps/tictactoe.c:148-161 | on an empty cell of a running game the mover's mark goes under the cursor only, the winner is check_winner of the new board, the game ends exactly when it is not -1 and the player switches exactly when it goes on; otherwise nothing changes |
| TicTacToe.StepInv | src/apps/tictactoe.c:173-180 | every input keeps the cursor on the board and the invariant |
| TicTacToe.StepFillsOne | src/apps/tictactoe.c:148-182 | an input leaves the board alone or fills exactly the empty cell under the cursor with the mover's mark |
| TicTacToe.StepWhenOver | src/apps/tictactoe.c:164-172 | once the game is over only 'R' changes anything, by restarting |
| TicTacToe.StepBalanced | src/apps/tictactoe.c:164-186 | every input keeps the turns balanced |
| TicTacToe.StepScored | src/apps/tictactoe.c:164-186 | every input keeps the recorded winner equal to check_winner of the board |
| TicTacToe.PlayKeeps | src/apps/tictactoe.c:224-245 | the game loop keeps the invariants, the recorded winner and the turn balance |
| TicTacToe.PlayStops | src/apps/tictactoe.c:224-237 | the game loop reads no more scancodes than there are, stops early only on 'Q', and 'Q' ends it only in a finished game |
| TicTacToe.PlayEnds | src/apps/tictactoe.c:224-237 | the game loop keeps the invariants, stops early only on 'Q', and 'Q' ends it only in a finished game |
| TicTacToe.Game.constructor | src/apps/tictactoe.c:204-205 | the game starts as init_game leaves it |
| TicTacToe.Game.InitGame | src/apps/tictactoe.c:19-32 | init_game agrees with TicTacToe.Initial |
| TicTacToe.Game.ClearBoard | src/apps/tictactoe.c:21-25 | the nested loops leave all nine cells blank |
| TicTacToe.Game.CheckWinner | src/apps/tictactoe.c:111-145 | the scan of rows, columns, diagonals and cells agrees with TicTacToe.Winner |
| TicTacToe.Game.MakeMove | src/apps/tictactoe.c:148-161 | make_move agrees with TicTacToe.Move |
| TicTacToe.Game.HandleInput | src/apps/tictactoe.c:164-186 | handle_input agrees with TicTacToe.Step and keeps the invariants |
| TicTacToe.Game.HandleKey | src/apps/tictactoe.c:164-186 | the body of handle_input takes the game to TicTacToe.Step of its state |
| TicTacToe.Game.Restart | src/apps/tictactoe.c:169-171 | 'R' in a finished game restarts it |
| TicTacToe.Game.MoveCursor | src/apps/tictactoe.c:173-180 | the arrows move the cursor one cell, wrapping modulo 3 |
| TicTacToe.Game.Run | src/apps/tictactoe.c:224-237 | the game loop agrees with TicTacToe.Play |
| Shell.SpaceEnd | shell.c:40 | the skip loop stops at the first non-space or the end |
| Shell.WordEnd | shell.c:47 | the word loop stops at the first space or the end, past at least one character |
| Shell.WordsShape | shell.c:38-49 | every word is non-empty, holds no space and comes from the line |
| Shell.WordsNone | shell.c:40-41 | a line has no words exactly when it is all spaces |
| Shell.WordsUnwords | shell.c:38-49 | words joined by single spaces split back into the same words |
| Shell.SkipSpaces | shell.c:40 | the skip loop agrees with Shell.SpaceEnd and reaches the NUL exactly at the end of the line |
| Shell.SkipWord | shell.c:47 | the word loop agrees with Shell.WordEnd and reaches the NUL exactly at the end of the line |
| Shell.CutWord | shell.c:43-48 | one round records where the word starts and writes a NUL over the space after it |
| Shell.ParseArgs | shell.c:34-53 | argc is the number of words capped at MAX_ARGS-1, args[argc] is NULL, each args[k] is the index where the k-th word starts and reads back as that word, and exactly the space right after each taken word becomes a NUL while every other cell keeps its value |
| Shell.TakeWords | shell.c:38-49 | the loop stops with the whole line read or MAX_ARGS-1 words taken, having recorded each word's start and cut only the spaces after the taken words |
| Shell.StartsFrom | shell.c:40-47 | the k-th word runs from its start index to the first space or the end after it |
| Shell.CutPointsSpaces | shell.c:48 | every cell parse_args overwrites held a space inside the line |
| Shell.LookupFrom | shell.c:104-108 | the first table entry from i whose name matches, or none exactly when none matches |
| Shell.LookupUnique | shell.c:24-31 | a name is found exactly when it is in the table, and at the only index that holds it |
| Shell.ExecuteEmpty | shell.c:102 | a line does nothing exactly when it is blank |
| Shell.ExecuteWords | shell.c:104-113 | a command typed as words runs the entry of its first word with at most MAX_ARGS-1 words, or is reported unknown |
| Shell.Select | shell.c:104-113 | the lookup loop with kstreq runs the entry found or reports an unknown command |
| Shell.ReadArgs | shell.c:106 | the strings args[0..argc) point at are the words |
| Shell.ExecuteCommand | shell.c:98-114 | execute_command agrees with Shell.Execute of the line |
| Shell.ShellRound | shell.c:121-124 | one round of shell_run: kgets a line of at most 79 characters, then execute it |
| Editor.KeyChar | editor.c:84-114 | a scancode gives a character exactly when the switch maps it, and that character is a lowercase letter or a space |
| Editor.KeyCode | editor.c:84-114 | the scancode a character of the switch comes from |
| Editor.KeyCodeOfChar | editor.c:84-114 | KeyCode undoes KeyChar on every mapped key |
| Editor.KeyCharDistinct | editor.c:84-114 | different mapped keys give different characters |
| Editor.Start | editor.c:28-33 | the buffer starts with the file's data, or empty, editing, Ctrl released |
| Editor.StepInv | editor.c:76-119 | the text always leaves room for the NUL |
| Editor.StepText | editor.c:67-119 | backspace drops the last character (nothing at 0); Enter and mapped keys append only while there is room; the Ctrl keys and Ctrl+S/Ctrl+X leave the text alone |
| Editor.StepCtrl | editor.c:46-49 | pressing Ctrl sets the flag, releasing it clears it, nothing else changes it |
| Editor.StepSave | editor.c:52-63 | fs_write is called exactly on Ctrl+S; the loop ends exactly on Ctrl+S or Ctrl+X |
| Editor.TypeThenErase | editor.c:67-119 | typing a mapped key with room and then backspace gives the text back |
| Editor.RunInv | editor.c:35-129 | the session reads no key after editing ends, and saves only when it ended on Ctrl+S |
| Editor.SaveThenLoad | editor.c:53-58 | saving a missing file changes nothing; an existing file loads back as the text saved |
| Editor.Nano.constructor | editor.c:15-33 | the buffer holds the loaded text, NUL everywhere from the cursor on |
| Editor.Nano.Text | editor.c:55 | the buffer handed to fs_write is the text |
| Editor.Nano.Key | editor.c:41-128 | one scancode agrees with Editor.Step and keeps every cell from the cursor on NUL |
| Editor.Nano.Put | editor.c:116-119 | buffer[cursor++] = c appends c |
| Editor.Nano.Erase | editor.c:67-75 | cursor--, buffer[cursor] = 0 drops the last character |
| Editor.Nano.Loop | editor.c:35-129 | the editing loop agrees with Editor.Run |
| Editor.EditorNano | editor.c:14-139 | editor_nano reads the scancodes Editor.Edit reads, and the filesystem changes only by fs_write of the final text on Ctrl+S |
| Vga.Entry | src/drivers/vga.c:27 | a cell keeps the character in its low byte, with attribute 0x07 below 0x80 and 0xFF from 0x80 up |
| Vga.Cleared | src/drivers/vga.c:7-12 | every cell blank and the cursor at (0, 0) |
| Vga.Scrolled | src/drivers/vga.c:36-46 | each row moves up one and the bottom row is blank |
| Vga.PutChar | src/drivers/vga.c:14-47 | from a cursor on the screen, vga_putc leaves the cursor on the screen |
| Vga.PutCharPrints | src/drivers/vga.c:26-34 | a character goes into the cell under the cursor and the cursor moves to the next cell, wrapping rows; from the last cell the screen scrolls |
| Vga.PutCharNewline | src/drivers/vga.c:15-17 | '\n' writes nothing and moves to column 0 of the next row, scrolling from the bottom row |
| Vga.PutCharBackspace | src/drivers/vga.c:18-25 | '\b' moves back one cell, to the previous row if need be but not before (0, 0), and blanks it |
| Vga.PutCharThenBackspace | src/drivers/vga.c:18-29 | '\b' after a character restores the cursor and leaves a blank where it was |
| Vga.PutString | src/drivers/vga.c:55-57 | vga_puts keeps the cursor on the screen |
| Vga.PutStringAppend | src/drivers/vga.c:55-57 | writing two strings in turn is writing their concatenation |
| Vga.PutStringLaysOut | src/drivers/vga.c:55-57 | a string without '\n' and '\b' that fits is laid out cell after cell from the cursor, leaving every other cell alone |
| Vga.PutAt | src/drivers/vga.c:49-53 | vga_putc_at writes the one cell when (x, y) is on the screen, changes nothing otherwise, and never moves the cursor |
| Vga.Display.constructor | src/drivers/vga.c:4-5 | the cursor starts at (0, 0) over whatever video memory holds |
| Vga.Display.Clear | src/drivers/vga.c:7-12 | vga_clear agrees with Vga.Cleared |
| Vga.Display.Scroll | src/drivers/vga.c:36-46 | the shift and blank loops agree with Vga.Scrolled |
| Vga.Display.Putc | src/drivers/vga.c:14-47 | vga_putc agrees with Vga.PutChar |
| Vga.Display.PutcAt | src/drivers/vga.c:49-53 | vga_putc_at agrees with Vga.PutAt |
| Vga.Display.Puts | src/drivers/vga.c:55-57 | vga_puts agrees with Vga.PutString of the text before the NUL |

## Left out

- Console output is left out. The messages the filesystem, auth, shell, editor and game print
  are not modelled; only return codes and state are. The bodies of the shell commands
  (shell.c:56-95) are out too, so `Shell.Execute` names the table entry and the arguments it
  would run.
- Port I/O (`inb`/`outb`), polling for a key and busy-wait delays are left out. Every keyboard
  loop takes a finite sequence of keys or scancodes instead.
- Drawing code is left out: the tic-tac-toe renderers and `clear_game_area`, and the title and
  instructions of `tictactoe_game`.
- Pointer aliasing is left out. `fs_write` keeps the caller's pointer, and `auth_save_users`
  stores a pointer to a stack buffer that dangles once the function returns. The model stores
  copies of the content, so Auth.SaveThenLoad and the reload property of Auth.UserTable.Init
  hold of the model only: in the program users.dat's data would point at that dead buffer.
  The same goes for the editor: editor_nano passes its stack buffer to `fs_write`, so
  Editor.SaveThenLoad and the Ctrl+S case of Editor.EditorNano (the file's data is the saved
  text) hold of the model only; in the program they hold until editor_nano returns.
- `auth_load_users` writes NULs into the file data in place. The model parses a copy, so a
  reload of the same data in the program would see those NULs, which the model does not show.
- kstrchr, used by `auth_load_users`, is not part of this model. Its assumed meaning (the
  first ':' or NULL) is `Auth.Span`.
- Overflows that C does not check are preconditions rather than modelled behaviour:
  - kstrcpy and kstrcat into a buffer that is too small;
  - fs_pwd paths of MAX_PATH_LEN or more;
  - str_to_int inputs whose digits, after an optional '-', exceed INT_MAX while they are read
    (this includes "-2147483648" and a long digit run before a non-digit);
  - `int_to_str(INT_MIN)`;
  - int_to_str into a buffer shorter than the decimal form and its NUL;
  - user fields too long for their buffers;
  - editor loads of 1024 bytes or more.
- `fs_get_current_dir` is left out; it only returns the cursor.
- `fs_init`, `fs_create_node`, `fs_mkdir`, `fs_ls` and `fs_cd` of the older `fs.c` behave like
  those of `src/fs/fs.c`, so only its `fs_pwd` has members of its own.
- Auth.UserTable.Register: takes the three typed lines (username, password, confirmation) as
  texts, not the raw key stream. The masked password prompts edit a line as kgets does.
- Auth.UserTable.Login: takes the typed username and password of each attempt as texts, and
  requires at least three attempts to be supplied.
- TicTacToe.Balanced: the turn balance between X and O counts is proved to be kept by every
  input (TicTacToe.StepBalanced), but it is not part of `TicTacToe.Game.Valid`.
- The `tictactoe_game` loop is modelled from the state `init_game` leaves (`TicTacToe.Game.Run`
  from the constructor's state); it stops when the scancodes run out.
- Shell.ShellRound: `shell_run` loops forever; the model is one round of it.
- The editor is left out after its loop: the success message it prints whatever `fs_write`
  returns, and the wait for a key before clearing the screen. When the file does not exist,
  `fs_write` does not create it and the text is lost (`Editor.SaveThenLoad`).
- Screen output of the editor and of kgets (echo, masking, backspace erasing) is left out.
  `Vga.PutCharThenBackspace` states what the `'\b'`, `' '`, `'\b'` sequence rests on.

## Findings

| source | as written | input that shows it | evidently intended | confidence | as-written member | corrected member |
|---|---|---|---|---|---|---|
| fs.c:125-132 | the pwd walk goes on until the NULL parent, so the root's own name "/" is prepended too | `fs_pwd` right after `fs_init` prints "//"; after `fs_mkdir("a")` and `fs_cd("a")` it prints "///a" | "/" at the root and "/a" inside `a`, as the later src/fs/fs.c:221 prints by stopping at `root_dir` | high; not executed | FsLegacy.DoubledSlash | Fs.FileSystem.Pwd |
