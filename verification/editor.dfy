/**
 * The text editor of editor.c (editor_nano): a 1024-byte buffer holding a
 * NUL-terminated text, a cursor at its end, and a Ctrl flag, changed one
 * keyboard scancode at a time until Ctrl+S (save with fs_write) or Ctrl+X
 * (leave without saving).
 */
module Editor {
  import opened Base
  import KLib
  import opened FsTree
  import Fs

  const EDITOR_BUFFER_SIZE: int := 1024

  // Scancodes (set 1) the editor reacts to.
  const KEY_CTRL: int := 0x1D
  const KEY_CTRL_RELEASE: int := 0x9D
  const KEY_S: int := 0x1F
  const KEY_X: int := 0x2D
  const KEY_BACKSPACE: int := 0x0E
  const KEY_ENTER: int := 0x1C
  const KEY_SPACE: int := 0x39

  // The letter rows of the editor's own scancode switch.
  const TopRow: string := "qwertyuiop"     // 0x10..0x19
  const HomeRow: string := "asdfghjkl"     // 0x1E..0x26
  const BottomRow: string := "zxcvbnm"     // 0x2C..0x32

  /** The scancodes the editor's switch gives a character. */
  predicate Mapped(code: int) {
    (0x10 <= code <= 0x19) || (0x1E <= code <= 0x26) || (0x2C <= code <= 0x32) || code == KEY_SPACE
  }

  /** The character the editor's switch gives a key press, or NUL when it has none. */
  function KeyChar(code: int): (c: char)
    ensures c != '\0' <==> Mapped(code)
    ensures c != '\0' ==> c == ' ' || 'a' <= c <= 'z'
  {
    if 0x10 <= code <= 0x19 then TopRow[code - 0x10]
    else if 0x1E <= code <= 0x26 then HomeRow[code - 0x1E]
    else if 0x2C <= code <= 0x32 then BottomRow[code - 0x2C]
    else if code == KEY_SPACE then ' '
    else '\0'
  }

  /** The scancode of a character of the switch, or -1 when no key gives it. */
  function KeyCode(c: char): (code: int)
    ensures code != -1 ==> Mapped(code)
  {
    match c
    case 'q' => 0x10 case 'w' => 0x11 case 'e' => 0x12 case 'r' => 0x13 case 't' => 0x14
    case 'y' => 0x15 case 'u' => 0x16 case 'i' => 0x17 case 'o' => 0x18 case 'p' => 0x19
    case 'a' => 0x1E case 's' => 0x1F case 'd' => 0x20 case 'f' => 0x21 case 'g' => 0x22
    case 'h' => 0x23 case 'j' => 0x24 case 'k' => 0x25 case 'l' => 0x26
    case 'z' => 0x2C case 'x' => 0x2D case 'c' => 0x2E case 'v' => 0x2F case 'b' => 0x30
    case 'n' => 0x31 case 'm' => 0x32
    case ' ' => 0x39
    case _ => -1
  }

  /** KeyCode undoes KeyChar on every key of the switch, key by key. */
  lemma KeyCodeOfChar(code: int)
    requires Mapped(code)
    ensures KeyCode(KeyChar(code)) == code
  {
    if code < 0x15 {
    } else if code < 0x1A {
    } else if code < 0x23 {
    } else if code < 0x27 {
    } else if code < 0x30 {
    } else if code < 0x33 {
    }
  }

  /** Different keys of the switch give different characters. */
  lemma KeyCharDistinct(a: int, b: int)
    requires Mapped(a) && Mapped(b) && a != b
    ensures KeyChar(a) != KeyChar(b)
  {
    KeyCodeOfChar(a);
    KeyCodeOfChar(b);
  }

  // ---------------------------------------------------------------------------
  // One scancode

  /** The editor's locals between two scancodes: the text before the NUL, the Ctrl flag, and whether it goes on. */
  datatype EdState = EdState(text: Text, ctrl: bool, editing: bool)

  /** The buffer always holds its text and a NUL. */
  predicate Inv(s: EdState) {
    |s.text| < EDITOR_BUFFER_SIZE
  }

  /** The initial buffer: the file's data when it has some, otherwise empty. */
  function Start(data: Option<Text>): (s: EdState)
    requires data.Some? ==> |data.value| < EDITOR_BUFFER_SIZE
    ensures Inv(s) && s.editing && !s.ctrl
    ensures s.text == if data.Some? then data.value else []
  {
    EdState(if data.Some? then data.value else [], false, true)
  }

  /**
   * One pass of editor_nano's loop for a scancode: the new state, and
   * whether fs_write is called with the text.
   */
  function Step(s: EdState, code: int): (EdState, bool)
    requires 0 <= code < 256
  {
    if code < 0x80 then
      if code == KEY_CTRL then (s.(ctrl := true), false)
      else if s.ctrl && code == KEY_S then (s.(editing := false), true)
      else if s.ctrl && code == KEY_X then (s.(editing := false), false)
      else if code == KEY_BACKSPACE then
        (if |s.text| > 0 then s.(text := s.text[..|s.text| - 1]) else s, false)
      else if code == KEY_ENTER then
        (if |s.text| < EDITOR_BUFFER_SIZE - 1 then s.(text := s.text + ['\n']) else s, false)
      else
        var c := KeyChar(code);
        (if c != '\0' && |s.text| < EDITOR_BUFFER_SIZE - 1 then s.(text := s.text + [c]) else s, false)
    else if code - 0x80 == KEY_CTRL then (s.(ctrl := false), false)
    else (s, false)
  }

  /** A step keeps the text shorter than the buffer. */
  lemma StepInv(s: EdState, code: int)
    requires Inv(s) && 0 <= code < 256
    ensures Inv(Step(s, code).0)
  {
  }

  /**
   * What a step does to the text: backspace drops the last character,
   * Enter appends a newline and a mapped key its character, each only when
   * the buffer has room; the Ctrl keys and Ctrl+S/Ctrl+X leave it alone.
   */
  lemma StepText(s: EdState, code: int)
    requires Inv(s) && 0 <= code < 256
    ensures var t := Step(s, code).0.text;
      if code >= 0x80 || code == KEY_CTRL || (s.ctrl && (code == KEY_S || code == KEY_X)) then t == s.text
      else if code == KEY_BACKSPACE then t == if s.text == [] then [] else s.text[..|s.text| - 1]
      else if code == KEY_ENTER then t == if |s.text| < EDITOR_BUFFER_SIZE - 1 then s.text + ['\n'] else s.text
      else t == if Mapped(code) && |s.text| < EDITOR_BUFFER_SIZE - 1 then s.text + [KeyChar(code)] else s.text
  {
  }

  /** Pressing Ctrl sets the flag, releasing it clears it, and no other key changes it. */
  lemma StepCtrl(s: EdState, code: int)
    requires 0 <= code < 256
    ensures Step(s, code).0.ctrl == if code == KEY_CTRL then true else if code == KEY_CTRL_RELEASE then false else s.ctrl
  {
  }

  /** fs_write is called exactly on Ctrl+S, and the loop ends exactly on Ctrl+S and Ctrl+X. */
  lemma StepSave(s: EdState, code: int)
    requires 0 <= code < 256
    ensures Step(s, code).1 <==> s.ctrl && code == KEY_S
    ensures !Step(s, code).0.editing <==> !s.editing || (s.ctrl && (code == KEY_S || code == KEY_X))
  {
  }

  /** Typing a mapped key with room to spare and then backspace gives the text back. */
  lemma TypeThenErase(s: EdState, code: int)
    requires Inv(s) && 0 <= code < 0x80 && Mapped(code) && |s.text| < EDITOR_BUFFER_SIZE - 1
    requires !(s.ctrl && (code == KEY_S || code == KEY_X))
    ensures Step(Step(s, code).0, KEY_BACKSPACE).0.text == s.text
  {
    var t := Step(s, code).0;
    assert t.text == s.text + [KeyChar(code)];
    assert t.text[..|t.text| - 1] == s.text;
  }

  // ---------------------------------------------------------------------------
  // The whole session

  /** What a session of editor_nano ends with, and how many scancodes it read. */
  datatype Session = Session(state: EdState, used: nat, saved: bool)

  predicate Scancodes(codes: seq<int>) {
    forall k | 0 <= k < |codes| :: 0 <= codes[k] < 256
  }

  /** editor_nano's loop over the scancodes, as long as it is editing. */
  function Run(s: EdState, codes: seq<int>): Session
    requires Scancodes(codes)
    decreases |codes|
  {
    if !s.editing || codes == [] then Session(s, 0, false)
    else
      var (s1, save) := Step(s, codes[0]);
      var r := Run(s1, codes[1..]);
      Session(r.state, r.used + 1, save || r.saved)
  }

  /**
   * A session keeps the text shorter than the buffer, reads no more
   * scancodes than there are, stops reading only when editing ends, and
   * saves only when it ended on Ctrl+S.
   */
  lemma {:induction false} RunInv(s: EdState, codes: seq<int>)
    requires Inv(s) && Scancodes(codes)
    ensures var r := Run(s, codes);
      && Inv(r.state) && r.used <= |codes|
      && (r.used < |codes| ==> !r.state.editing)
      && (r.saved ==> 0 < r.used && !r.state.editing && codes[r.used - 1] == KEY_S)
    decreases |codes|
  {
    if s.editing && codes != [] {
      StepInv(s, codes[0]);
      StepSave(s, codes[0]);
      var s1 := Step(s, codes[0]).0;
      RunInv(s1, codes[1..]);
      var r := Run(s1, codes[1..]);
      if r.saved {
        assert codes[1..][r.used - 1] == codes[r.used];
      }
    }
  }

  /** What editor_nano loads: the data of the file of that name in the current directory, if any. */
  function Loaded(t: Tree, filename: Text): Option<Text>
    requires Wf(t)
  {
    var f := Find(t, filename, File);
    if f == NIL then None else t.ns[f].data
  }

  /** The session of editor_nano on a filesystem. */
  function Edit(t: Tree, filename: Text, codes: seq<int>): Session
    requires Wf(t) && Scancodes(codes)
    requires Loaded(t, filename).Some? ==> |Loaded(t, filename).value| < EDITOR_BUFFER_SIZE
  {
    Run(Start(Loaded(t, filename)), codes)
  }

  /**
   * Saving writes the text into the file; a file that does not exist is
   * not created, so its text is lost, while a file that exists afterwards
   * loads back as the text saved.
   */
  lemma SaveThenLoad(t: Tree, filename: Text, text: Text)
    requires Wf(t)
    ensures Find(t, filename, File) == NIL ==> FsTree.Write(t, filename, text) == (t, -1)
    ensures Find(t, filename, File) != NIL ==>
      var (t2, r) := FsTree.Write(t, filename, text);
      r == 0 && Wf(t2) && Loaded(t2, filename) == Some(text)
  {
    var f := Find(t, filename, File);
    if f != NIL {
      WriteOutcome(t, filename, text);
    }
  }

  // ---------------------------------------------------------------------------
  // editor_nano's locals as they change

  class Nano {
    /** buffer[EDITOR_BUFFER_SIZE], zero-initialised. */
    const buffer: array<char>
    var cursor: nat
    var ctrl: bool
    var editing: bool

    ghost function State(): EdState
      reads this, buffer
      requires cursor <= buffer.Length && '\0' !in buffer[..cursor]
    {
      EdState(buffer[..cursor], ctrl, editing)
    }

    /** The text is the buffer up to the cursor, and every cell from the cursor on is NUL. */
    ghost predicate Valid()
      reads this, buffer
    {
      && buffer.Length == EDITOR_BUFFER_SIZE
      && cursor < EDITOR_BUFFER_SIZE
      && '\0' !in buffer[..cursor]
      && forall i | cursor <= i < buffer.Length :: buffer[i] == '\0'
    }

    /** The start of editor_nano: an empty buffer, then the file's data copied in with kstrcpy. */
    constructor (data: Option<Text>)
      requires data.Some? ==> |data.value| < EDITOR_BUFFER_SIZE
      ensures Valid() && State() == Start(data) && fresh(buffer)
    {
      buffer := new char[EDITOR_BUFFER_SIZE](_ => '\0');
      cursor := 0;
      ctrl := false;
      editing := true;
      new;
      if data.Some? {
        var d := data.value;
        KLib.CStrOfText(d);
        KLib.StrCpy(buffer, d + ['\0']);
        cursor := KLib.StrLen(buffer[..]);
        assert buffer[..cursor] == buffer[..|d| + 1][..|d|] == d;
      }
    }

    /** The text of the buffer: what fs_write is handed. */
    method Text() returns (t: Text)
      requires Valid()
      ensures t == State().text
    {
      t := buffer[..cursor];
    }

    /** One pass of editor_nano's loop for a scancode; `save` is whether fs_write is called. */
    method Key(code: int) returns (save: bool)
      requires Valid() && 0 <= code < 256
      modifies this, buffer
      ensures Valid() && (State(), save) == Step(old(State()), code)
    {
      save := false;
      if code < 0x80 {
        if code == KEY_CTRL {
          ctrl := true;
        } else if ctrl && code == KEY_S {
          editing := false;
          save := true;
        } else if ctrl && code == KEY_X {
          editing := false;
        } else if code == KEY_BACKSPACE {
          if cursor > 0 {
            Erase();
          }
        } else if code == KEY_ENTER {
          if cursor < EDITOR_BUFFER_SIZE - 1 {
            Put('\n');
          }
        } else {
          var c := KeyChar(code);
          if c != '\0' && cursor < EDITOR_BUFFER_SIZE - 1 {
            Put(c);
          }
        }
      } else {
        var release := code - 0x80;
        if release == KEY_CTRL {
          ctrl := false;
        }
      }
    }

    /** editor_nano's loop: one Key per scancode while editing, stopping at the end of the scancodes. */
    method Loop(codes: seq<int>) returns (used: nat, saved: bool)
      requires Valid() && Scancodes(codes)
      modifies this, buffer
      ensures Valid() && Run(old(State()), codes) == Session(State(), used, saved)
    {
      ghost var s0 := State();
      used := 0;
      saved := false;
      while used < |codes| && editing
        invariant used <= |codes| && Valid() && (saved ==> !editing)
        invariant Run(s0, codes) == (var r := Run(State(), codes[used..]); Session(r.state, r.used + used, saved || r.saved))
        decreases |codes| - used
      {
        assert codes[used..][0] == codes[used] && codes[used..][1..] == codes[used + 1..];
        saved := Key(codes[used]);
        used := used + 1;
      }
    }

    /** buffer[cursor++] = c. */
    method Put(c: char)
      requires Valid() && c != '\0' && cursor < EDITOR_BUFFER_SIZE - 1
      modifies this, buffer
      ensures Valid() && State() == old(State()).(text := old(State()).text + [c])
    {
      ghost var t := buffer[..cursor];
      buffer[cursor] := c;
      cursor := cursor + 1;
      assert buffer[..cursor] == t + [c];
    }

    /** cursor--; buffer[cursor] = '\0'. */
    method Erase()
      requires Valid() && cursor > 0
      modifies this, buffer
      ensures Valid() && State() == old(State()).(text := old(State()).text[..|old(State()).text| - 1])
    {
      ghost var t := buffer[..cursor];
      cursor := cursor - 1;
      buffer[cursor] := '\0';
      assert buffer[..cursor] == t[..cursor];
    }
  }

  /**
   * editor_nano(filename) on the filesystem, fed the scancodes read from
   * the keyboard: loads the file, runs the loop until Ctrl+S or Ctrl+X or
   * until the scancodes run out, and on Ctrl+S writes the text with
   * fs_write.  Returns how many scancodes it read.
   */
  method EditorNano(fs: Fs.FileSystem, filename: Text, codes: seq<int>) returns (used: nat)
    requires fs.Valid() && Scancodes(codes)
    requires Loaded(fs.Model(), filename).Some? ==> |Loaded(fs.Model(), filename).value| < EDITOR_BUFFER_SIZE
    modifies fs.nodes
    ensures fs.Valid()
    ensures var r := Edit(old(fs.Model()), filename, codes);
      && used == r.used
      && fs.Model() == if r.saved then FsTree.Write(old(fs.Model()), filename, r.state.text).0 else old(fs.Model())
  {
    var file := fs.FindFile(filename);
    var data := if file == NIL then None else fs.nodes[file].data;
    var ed := new Nano(data);
    var saved;
    used, saved := ed.Loop(codes);
    if saved {
      var text := ed.Text();
      var _ := fs.Write(filename, text);
    }
  }
}
