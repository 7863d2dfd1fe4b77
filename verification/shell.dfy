/**
 * The command line of shell.c: parse_args cuts the typed line into words
 * in place, execute_command looks the first word up in the command table,
 * and shell_run reads one line after the other and executes it.
 */
module Shell {
  import opened Base
  import opened KLib

  const MAX_INPUT: int := 80
  const MAX_ARGS: int := 10

  /** The NULL that ends the argument vector; other entries are indices into the line. */
  const NULL: int := -1

  /** The names of the command table, in its order. */
  const COMMANDS: seq<string> := ["help", "clear", "echo", "info", "shutdown"]

  // ---------------------------------------------------------------------------
  // Words of a line

  /** The first index at or after i that does not hold a space (|t| if none). */
  function SpaceEnd(t: string, i: nat): (j: nat)
    requires i <= |t|
    ensures i <= j <= |t| && (j < |t| ==> t[j] != ' ')
    decreases |t| - i
  {
    if i < |t| && t[i] == ' ' then SpaceEnd(t, i + 1) else i
  }

  /** Everything SpaceEnd skips is a space. */
  lemma {:induction false} SpaceEndAll(t: string, i: nat)
    requires i <= |t|
    ensures forall k | i <= k < SpaceEnd(t, i) :: t[k] == ' '
    decreases |t| - i
  {
    if i < |t| && t[i] == ' ' {
      SpaceEndAll(t, i + 1);
    }
  }

  /** The first index at or after i that holds a space (|t| if none). */
  function WordEnd(t: string, i: nat): (j: nat)
    requires i <= |t|
    ensures i <= j <= |t| && (j < |t| ==> t[j] == ' ')
    ensures i < |t| && t[i] != ' ' ==> i < j
    decreases |t| - i
  {
    if i < |t| && t[i] != ' ' then WordEnd(t, i + 1) else i
  }

  /** Nothing WordEnd moves over is a space. */
  lemma {:induction false} WordEndAll(t: string, i: nat)
    requires i <= |t|
    ensures forall k | i <= k < WordEnd(t, i) :: t[k] != ' '
    decreases |t| - i
  {
    if i < |t| && t[i] != ' ' {
      WordEndAll(t, i + 1);
    }
  }

  /** A run of non-spaces from i to j, followed by a space or the end, ends at j. */
  lemma {:induction false} WordEndAt(t: string, i: nat, j: nat)
    requires i <= j <= |t| && (forall k | i <= k < j :: t[k] != ' ') && (j < |t| ==> t[j] == ' ')
    ensures WordEnd(t, i) == j
    decreases j - i
  {
    if i < j {
      WordEndAt(t, i + 1, j);
    }
  }

  /** The maximal runs of non-space characters of t from index i on, in order. */
  function WordsFrom(t: string, i: nat): seq<string>
    requires i <= |t|
    decreases |t| - i
  {
    var a := SpaceEnd(t, i);
    if a == |t| then []
    else
      var e := WordEnd(t, a);
      [t[a..e]] + WordsFrom(t, e)
  }

  /** The words of a line. */
  function Words(t: string): seq<string> {
    WordsFrom(t, 0)
  }

  /**
   * The indices where the words of t from index i on start, in order: each
   * word of WordsFrom runs from its start to the space or end after it.
   */
  ghost function StartsFrom(t: string, i: nat): (r: seq<nat>)
    requires i <= |t|
    ensures |r| == |WordsFrom(t, i)|
    ensures forall k | 0 <= k < |r| :: i <= r[k] < |t| && WordsFrom(t, i)[k] == t[r[k]..WordEnd(t, r[k])]
    decreases |t| - i
  {
    var a := SpaceEnd(t, i);
    if a == |t| then []
    else
      var e := WordEnd(t, a);
      var rest := StartsFrom(t, e);
      assert WordsFrom(t, i) == [t[a..e]] + WordsFrom(t, e);
      [a] + rest
  }

  /** Where the words of a line start. */
  ghost function Starts(t: string): seq<nat> {
    StartsFrom(t, 0)
  }

  /**
   * The cells parse_args overwrites with a NUL when it takes the first n
   * words of t: the space right after each of them (a word that ends the
   * line has none).
   */
  ghost function CutPoints(t: string, n: nat): set<int> {
    set k | 0 <= k < n && k < |Starts(t)| && WordEnd(t, Starts(t)[k]) < |t| :: WordEnd(t, Starts(t)[k])
  }

  /** Every cut point held a space, and lies before the line's end. */
  lemma CutPointsSpaces(t: string, n: nat)
    ensures forall i | i in CutPoints(t, n) :: 0 <= i < |t| && t[i] == ' '
  {
  }

  /** A space at i does not change the words from i on. */
  lemma WordsSpace(t: string, i: nat)
    requires i < |t| && t[i] == ' '
    ensures WordsFrom(t, i) == WordsFrom(t, i + 1)
  {
  }

  /** A word of line t: non-empty, without spaces, made of characters of t. */
  ghost predicate WordOf(w: string, t: string) {
    w != [] && ' ' !in w && forall c | c in w :: c in t
  }

  /** Every word from i on is non-empty, holds no space, and holds only characters of the line. */
  lemma {:induction false} WordsFromShape(t: string, i: nat)
    requires i <= |t|
    ensures forall k | 0 <= k < |WordsFrom(t, i)| :: WordOf(WordsFrom(t, i)[k], t)
    decreases |t| - i
  {
    var a := SpaceEnd(t, i);
    if a < |t| {
      var e := WordEnd(t, a);
      var ws := WordsFrom(t, i);
      assert ws == [t[a..e]] + WordsFrom(t, e);
      WordEndAll(t, a);
      assert t[a..e][0] == t[a];
      forall c | c in t[a..e] ensures c in t {
        var k :| 0 <= k < e - a && t[a..e][k] == c;
        assert t[a + k] == c;
      }
      assert WordOf(ws[0], t);
      WordsFromShape(t, e);
      forall k | 1 <= k < |ws| ensures WordOf(ws[k], t) {
        assert ws[k] == WordsFrom(t, e)[k - 1];
      }
    }
  }

  /** Every word of a line is non-empty, holds no space, and holds only characters of the line. */
  lemma WordsShape(t: string)
    ensures forall k | 0 <= k < |Words(t)| :: WordOf(Words(t)[k], t)
  {
    WordsFromShape(t, 0);
  }

  /** A line has no words exactly when it is all spaces. */
  lemma WordsNone(t: string)
    ensures Words(t) == [] <==> forall i | 0 <= i < |t| :: t[i] == ' '
  {
    SpaceEndAll(t, 0);
  }

  /** Words separated by single spaces. */
  function Unwords(ws: seq<string>): string {
    if ws == [] then []
    else if |ws| == 1 then ws[0]
    else ws[0] + [' '] + Unwords(ws[1..])
  }

  /**
   * A line that goes on, from index i, with words joined by single spaces:
   * the first word is there, and a single space or the end follows.
   */
  lemma UnwordsAt(t: string, i: nat, ws: seq<string>)
    requires i <= |t| && t[i..] == Unwords(ws) && ws != []
    ensures i + |ws[0]| <= |t| && t[i..i + |ws[0]|] == ws[0]
    ensures |ws| == 1 ==> i + |ws[0]| == |t|
    ensures |ws| > 1 ==> i + |ws[0]| < |t| && t[i + |ws[0]|] == ' ' && t[i + |ws[0]| + 1..] == Unwords(ws[1..])
  {
    var w := ws[0];
    var j := i + |w|;
    var rest := Unwords(ws[1..]);
    assert t[i..] == if |ws| == 1 then w else w + [' '] + rest;
    assert t[i..j] == t[i..][..|w|];
    if |ws| > 1 {
      assert t[j] == t[i..][|w|] == ' ';
      assert t[j + 1..] == t[i..][|w| + 1..] == rest;
    }
  }

  /** A word at index i, followed by a space or the end, is the first word read from i. */
  lemma WordAt(t: string, i: nat, w: string)
    requires i + |w| <= |t| && t[i..i + |w|] == w && w != [] && ' ' !in w
    requires i + |w| < |t| ==> t[i + |w|] == ' '
    ensures WordsFrom(t, i) == [w] + WordsFrom(t, i + |w|)
  {
    var j := i + |w|;
    forall k | i <= k < j ensures t[k] != ' ' {
      assert t[k] == t[i..j][k - i];
    }
    assert t[i] == w[0];
    assert SpaceEnd(t, i) == i;
    WordEndAt(t, i, j);
  }

  /** Splitting, from index i, a line that goes on with words joined by single spaces gives those words. */
  lemma {:induction false} WordsAt(t: string, i: nat, ws: seq<string>)
    requires i <= |t| && t[i..] == Unwords(ws) && WordList(ws)
    ensures WordsFrom(t, i) == ws
    decreases |ws|
  {
    if ws == [] {
      assert |t[i..]| == 0;
    } else {
      UnwordsAt(t, i, ws);
      if |ws| > 1 {
        var rest := ws[1..];
        WordsAt(t, i + |ws[0]| + 1, rest);
      }
      FirstWordAt(t, i, ws);
    }
  }

  /** One step of WordsAt: the first word, then the words after the space that follows it. */
  lemma FirstWordAt(t: string, i: nat, ws: seq<string>)
    requires ws != [] && ws[0] != [] && ' ' !in ws[0]
    requires i + |ws[0]| <= |t| && t[i..i + |ws[0]|] == ws[0]
    requires |ws| == 1 ==> i + |ws[0]| == |t|
    requires |ws| > 1 ==> i + |ws[0]| < |t| && t[i + |ws[0]|] == ' ' && WordsFrom(t, i + |ws[0]| + 1) == ws[1..]
    ensures WordsFrom(t, i) == ws
  {
    var j := i + |ws[0]|;
    WordAt(t, i, ws[0]);
    if |ws| == 1 {
      assert WordsFrom(t, j) == [] && ws[1..] == [];
      Glue(WordsFrom(t, i), WordsFrom(t, j), [], ws);
    } else {
      WordsSpace(t, j);
      Glue(WordsFrom(t, i), WordsFrom(t, j), WordsFrom(t, j + 1), ws);
    }
  }

  /** A list is its head followed by its tail. */
  lemma Glue(x: seq<string>, y: seq<string>, z: seq<string>, ws: seq<string>)
    requires ws != [] && x == [ws[0]] + y && y == z && z == ws[1..]
    ensures x == ws
  {
    assert ws == [ws[0]] + ws[1..];
  }

  /** Every entry of ws is non-empty and holds no space. */
  predicate WordList(ws: seq<string>) {
    ws == [] || (ws[0] != [] && ' ' !in ws[0] && WordList(ws[1..]))
  }

  lemma {:induction false} WordListAll(ws: seq<string>)
    requires forall k | 0 <= k < |ws| :: ws[k] != [] && ' ' !in ws[k]
    ensures WordList(ws)
  {
    if ws != [] {
      var rest := ws[1..];
      assert forall k | 0 <= k < |rest| :: rest[k] == ws[k + 1];
      WordListAll(rest);
    }
  }

  /** Joining words with single spaces and splitting the result gives the words back. */
  lemma WordsUnwords(ws: seq<string>)
    requires forall k | 0 <= k < |ws| :: ws[k] != [] && ' ' !in ws[k]
    ensures Words(Unwords(ws)) == ws
  {
    WordListAll(ws);
    WordsAt(Unwords(ws), 0, ws);
  }

  // ---------------------------------------------------------------------------
  // parse_args

  function Min(a: int, b: int): int {
    if a < b then a else b
  }

  /**
   * Argument k starts at index a[k] of memory m, and the NUL-terminated
   * string there is the word ws[k].
   */
  ghost predicate ArgsRead(m: seq<char>, a: seq<int>, ws: seq<string>) {
    && |a| == |ws|
    && forall k | 0 <= k < |ws| :: 0 <= a[k] < |m| && '\0' in m[a[k]..] && CStr(m[a[k]..]) == ws[k]
  }

  /**
   * parse_args: the first MAX_ARGS - 1 words of the line become the
   * arguments, each pointed at where it starts and cut off by writing a NUL
   * over the space after it; the entry after the last argument is NULL.
   */
  method ParseArgs(input: array<char>, args: array<int>) returns (argc: nat)
    requires '\0' in input[..] && args.Length == MAX_ARGS
    modifies input, args
    ensures var ws := Words(CStr(old(input[..])));
      && argc == Min(|ws|, MAX_ARGS - 1)
      && args[argc] == NULL
      && ArgsRead(input[..], args[..argc], ws[..argc])
    ensures var t := CStr(old(input[..]));
      && (forall k | 0 <= k < argc :: args[k] == Starts(t)[k])
      && forall i | 0 <= i < input.Length :: input[i] == if i in CutPoints(t, argc) then '\0' else old(input[i])
  {
    ghost var s := input[..];
    ghost var t := s[..CLen(s)];
    ghost var taken;
    var p;
    argc, p, taken := TakeWords(input, args, s, t);
    Unread(input[..], s, t, p);
    ghost var starts, m := args[..argc], input[..];
    Collected(m, s, starts, taken, p);
    Finished(m, s, t, starts, p);
    args[argc] := NULL;
    assert args[..argc] == starts && input[..] == m;
    assert Words(t)[..argc] == taken;
  }

  /**
   * The loop of parse_args: while the line goes on and there is room for
   * another argument, skip spaces, record where the word starts and cut it
   * off.  It stops with the whole line read or MAX_ARGS - 1 words taken.
   */
  method TakeWords(input: array<char>, args: array<int>, ghost s: seq<char>, ghost t: string)
    returns (argc: nat, p: nat, ghost taken: seq<string>)
    requires '\0' in s && t == s[..CLen(s)] && input[..] == s && args.Length == MAX_ARGS
    modifies input, args
    ensures p <= |t| && argc == |taken| <= MAX_ARGS - 1 && (p == |t| || argc == MAX_ARGS - 1)
    ensures Overwritten(input[..], s, p) && Cuts(input[..], s, args[..argc], taken, p)
    ensures Words(t) == taken + WordsFrom(t, p)
    ensures Starts(t) == args[..argc] + StartsFrom(t, p) && Exact(input[..], s, CutPoints(t, argc))
  {
    taken := [];
    argc := 0;
    p := 0;
    while input[p] != '\0' && argc < MAX_ARGS - 1
      invariant 0 <= p <= |t| && argc == |taken| <= MAX_ARGS - 1
      invariant Overwritten(input[..], s, p)
      invariant Words(t) == taken + WordsFrom(t, p)
      invariant Cuts(input[..], s, args[..argc], taken, p)
      invariant Starts(t) == args[..argc] + StartsFrom(t, p)
      invariant Exact(input[..], s, CutPoints(t, argc))
      decreases |t| - p
    {
      Unread(input[..], s, t, p);
      var q := SkipSpaces(input, p, t);
      if input[q] == '\0' {
        Later(input[..], s, args[..argc], taken, p, q);
        p := q;
        break;
      }
      var e;
      e, p := CutWord(input, args, argc, p, q, s, t, taken);
      taken := taken + [t[q..e]];
      argc := argc + 1;
    }
    Unread(input[..], s, t, p);
  }

  /** When the loop stops, the arguments are the first starts and the cut cells are NULs. */
  lemma Finished(m: seq<char>, s: seq<char>, t: string, starts: seq<int>, p: nat)
    requires p <= |t| && Starts(t) == starts + StartsFrom(t, p) && Exact(m, s, CutPoints(t, |starts|))
    ensures forall k | 0 <= k < |starts| :: starts[k] == Starts(t)[k]
    ensures forall i | 0 <= i < |m| :: m[i] == if i in CutPoints(t, |starts|) then '\0' else s[i]
  {
  }

  /**
   * One round of parse_args: records the word that starts at q and cuts it
   * off with a NUL over the space after it; returns where the word ends
   * and where the next round starts.
   */
  method CutWord(input: array<char>, args: array<int>, argc: nat, p: nat, q: nat,
                 ghost s: seq<char>, ghost t: string, ghost taken: seq<string>)
    returns (e: nat, next: nat)
    requires '\0' in s && t == s[..CLen(s)]
    requires args.Length == MAX_ARGS && argc == |taken| < MAX_ARGS - 1
    requires p <= |t| && q == SpaceEnd(t, p) && q < |t|
    requires Overwritten(input[..], s, p) && Cuts(input[..], s, args[..argc], taken, p)
    requires Words(t) == taken + WordsFrom(t, p)
    requires Starts(t) == args[..argc] + StartsFrom(t, p) && Exact(input[..], s, CutPoints(t, argc))
    modifies input, args
    ensures e == WordEnd(t, q) && q < e <= next <= |t|
    ensures Starts(t) == args[..argc + 1] + StartsFrom(t, next) && Exact(input[..], s, CutPoints(t, argc + 1))
    ensures Overwritten(input[..], s, next) && Cuts(input[..], s, args[..argc + 1], taken + [t[q..e]], next)
    ensures Words(t) == (taken + [t[q..e]]) + WordsFrom(t, next)
    ensures args[argc] == q && args[..argc] == old(args[..argc])
  {
    ghost var starts := args[..argc];
    args[argc] := q;
    assert args[..argc + 1] == starts + [q];
    Unread(input[..], s, t, p);
    e := SkipWord(input, q, t);
    next := if input[e] == '\0' then e else e + 1;
    ghost var before := input[..];
    if input[e] != '\0' {
      input[e] := '\0';
    }
    Round(before, input[..], s, t, starts, taken, p, q, e, next);
    StartsStep(t, starts, p, q, e, next);
    CutPointsStep(t, argc, q, e);
    ExactStep(before, input[..], s, CutPoints(t, argc), e, |t|);
  }

  /**
   * Memory m is the line s with exactly the cells of cut overwritten by
   * NULs.
   */
  ghost predicate Exact(m: seq<char>, s: seq<char>, cut: set<int>) {
    |m| == |s| && forall i | 0 <= i < |m| :: m[i] == if i in cut then '\0' else s[i]
  }

  /** The word found at q, from p on, is the next start; the next round starts after it. */
  lemma StartsStep(t: string, starts: seq<nat>, p: nat, q: nat, e: nat, next: nat)
    requires p <= |t| && Starts(t) == starts + StartsFrom(t, p)
    requires q == SpaceEnd(t, p) < |t| && e == WordEnd(t, q) && next == (if e < |t| then e + 1 else e)
    ensures Starts(t) == (starts + [q]) + StartsFrom(t, next)
  {
    assert StartsFrom(t, p) == [q] + StartsFrom(t, e);
    if e < |t| {
      assert SpaceEnd(t, e) == SpaceEnd(t, e + 1);
      assert StartsFrom(t, e) == StartsFrom(t, e + 1);
    }
  }

  /** Taking word n, which starts at q and ends at e, adds e to the cut points when e is a space. */
  lemma CutPointsStep(t: string, n: nat, q: nat, e: nat)
    requires n < |Starts(t)| && Starts(t)[n] == q && e == WordEnd(t, q)
    ensures CutPoints(t, n + 1) == CutPoints(t, n) + (if e < |t| then {e} else {})
  {
  }

  /** Writing a NUL at e (when e is inside the line) adds e to the overwritten cells. */
  lemma ExactStep(m: seq<char>, m2: seq<char>, s: seq<char>, cut: set<int>, e: nat, n: nat)
    requires Exact(m, s, cut) && e <= n < |m| && m[n] == '\0' && e !in cut
    requires m2 == if m[e] == '\0' then m else m[e := '\0']
    requires e < n <==> m[e] != '\0'
    ensures Exact(m2, s, cut + (if e < n then {e} else {}))
  {
  }

  /** Past p, memory still holds the line t and the NUL that ends it. */
  lemma Unread(m: seq<char>, s: seq<char>, t: string, p: nat)
    requires '\0' in s && t == s[..CLen(s)] && p <= |t| && Overwritten(m, s, p)
    ensures '\0' !in t && |t| < |m| && m[|t|] == '\0' && forall i | p <= i < |t| :: m[i] == t[i]
  {
  }

  /** The ghost bookkeeping of one round of parse_args. */
  lemma Round(m: seq<char>, m2: seq<char>, s: seq<char>, t: string, starts: seq<int>, taken: seq<string>,
              p: nat, q: nat, e: nat, next: nat)
    requires '\0' in s && t == s[..CLen(s)]
    requires p <= |t| && q == SpaceEnd(t, p) && q < |t| && e == WordEnd(t, q)
    requires Overwritten(m, s, p) && Cuts(m, s, starts, taken, p) && Words(t) == taken + WordsFrom(t, p)
    requires e < |m| && next == (if m[e] == '\0' then e else e + 1)
    requires m2 == if m[e] == '\0' then m else m[e := '\0']
    ensures q < e <= next <= |t|
    ensures Overwritten(m2, s, next) && Cuts(m2, s, starts + [q], taken + [t[q..e]], next)
    ensures Words(t) == (taken + [t[q..e]]) + WordsFrom(t, next)
  {
    Unread(m, s, t, p);
    assert next == (if e < |t| then e + 1 else e);
    assert WordsFrom(t, p) == [t[q..e]] + WordsFrom(t, e);
    if e < |t| {
      WordsSpace(t, e);
    }
    Assoc(taken, [t[q..e]], WordsFrom(t, next));
    WordChars(t, q, e);
    PrefixSlice(s, |t|, q, e);
    CutsStep(m, m2, s, starts, taken, p, q, e, next);
    OverwriteStep(m, m2, s, p, e, next);
  }

  /**
   * Memory m is the line s with some of its spaces before index p
   * overwritten by NULs, and nothing else changed.
   */
  ghost predicate Overwritten(m: seq<char>, s: seq<char>, p: int) {
    && |m| == |s|
    && forall i | 0 <= i < |m| ::
      if i < p then m[i] == s[i] || (s[i] == ' ' && m[i] == '\0') else m[i] == s[i]
  }

  /** Overwriting the space at e, or nothing, and moving on to next keeps the overwritten memory. */
  lemma OverwriteStep(m: seq<char>, m2: seq<char>, s: seq<char>, p: nat, e: nat, next: nat)
    requires Overwritten(m, s, p) && p <= e <= next <= e + 1 && e < |m|
    requires |m2| == |m| && forall i | 0 <= i < |m| && i != e :: m2[i] == m[i]
    requires m2[e] == m[e] || (s[e] == ' ' && m2[e] == '\0' && next == e + 1)
    ensures Overwritten(m2, s, next)
  {
  }

  /**
   * The words taken so far sit in the original line s at their start
   * indices, hold no space, and are each followed in memory m by a NUL
   * before index p.
   */
  ghost predicate Cuts(m: seq<char>, s: seq<char>, starts: seq<int>, taken: seq<string>, p: int) {
    && |starts| == |taken| && |m| == |s|
    && forall k | 0 <= k < |taken| ::
      && 0 <= starts[k] && starts[k] + |taken[k]| <= p && starts[k] + |taken[k]| < |m|
      && ' ' !in taken[k] && '\0' !in taken[k]
      && s[starts[k]..starts[k] + |taken[k]|] == taken[k] && m[starts[k] + |taken[k]|] == '\0'
  }

  /** The words taken and the overwritten spaces stay as they are when p moves on to q. */
  lemma Later(m: seq<char>, s: seq<char>, starts: seq<int>, taken: seq<string>, p: int, q: int)
    requires Cuts(m, s, starts, taken, p) && Overwritten(m, s, p) && p <= q
    ensures Cuts(m, s, starts, taken, q) && Overwritten(m, s, q)
  {
  }

  /** Cutting the next word, found at q..e after p, by a NUL at e keeps the words taken before. */
  lemma CutsStep(m: seq<char>, m2: seq<char>, s: seq<char>, starts: seq<int>, taken: seq<string>,
                 p: nat, q: nat, e: nat, next: nat)
    requires Cuts(m, s, starts, taken, p) && p < |m| && m[p] != '\0' && p <= q <= e <= next < |m|
    requires ' ' !in s[q..e] && '\0' !in s[q..e]
    requires |m2| == |m| && m2[e] == '\0' && forall i | 0 <= i < |m| && i != e :: m2[i] == m[i]
    ensures Cuts(m2, s, starts + [q], taken + [s[q..e]], next)
  {
    var starts', taken' := starts + [q], taken + [s[q..e]];
    forall k | 0 <= k < |taken'|
      ensures && 0 <= starts'[k] && starts'[k] + |taken'[k]| <= next && starts'[k] + |taken'[k]| < |m2|
              && ' ' !in taken'[k] && '\0' !in taken'[k]
              && s[starts'[k]..starts'[k] + |taken'[k]|] == taken'[k] && m2[starts'[k] + |taken'[k]|] == '\0'
    {
      if k < |taken| {
        assert starts'[k] == starts[k] && taken'[k] == taken[k];
        assert starts[k] + |taken[k]| != p;
      }
    }
  }

  lemma Assoc(a: seq<string>, b: seq<string>, c: seq<string>)
    ensures a + (b + c) == (a + b) + c
  {
  }

  /** A slice inside a prefix is a slice of the whole. */
  lemma PrefixSlice(s: string, n: nat, a: nat, b: nat)
    requires a <= b <= n <= |s|
    ensures s[..n][a..b] == s[a..b]
  {
  }

  /** The word found at q holds no space, and no NUL when the line holds none. */
  lemma WordChars(t: string, q: nat, e: nat)
    requires q <= |t| && e == WordEnd(t, q)
    ensures ' ' !in t[q..e] && ('\0' !in t ==> '\0' !in t[q..e])
  {
    WordEndAll(t, q);
    forall i | 0 <= i < e - q ensures t[q..e][i] != ' ' && t[q..e][i] in t {
      assert t[q..e][i] == t[q + i];
    }
  }

  /** One word taken, read back from memory at its start index. */
  lemma CutRead(m: seq<char>, s: seq<char>, starts: seq<int>, taken: seq<string>, p: int, k: nat)
    requires Overwritten(m, s, p) && Cuts(m, s, starts, taken, p) && k < |taken|
    ensures 0 <= starts[k] < |m| && '\0' in m[starts[k]..] && CStr(m[starts[k]..]) == taken[k]
  {
    var a, w := starts[k], taken[k];
    forall i | 0 <= i < |w| ensures m[a + i] == w[i] {
      assert s[a + i] == s[a..a + |w|][i] == w[i];
    }
    assert m[a..][..|w| + 1] == w + ['\0'];
    CStrOfPrefix(m[a..], w);
  }

  /** Each word taken is read back from memory, at its start index, as that word. */
  lemma Collected(m: seq<char>, s: seq<char>, starts: seq<int>, taken: seq<string>, p: int)
    requires Overwritten(m, s, p) && Cuts(m, s, starts, taken, p)
    ensures ArgsRead(m, starts, taken)
  {
    forall k | 0 <= k < |taken|
      ensures 0 <= starts[k] < |m| && '\0' in m[starts[k]..] && CStr(m[starts[k]..]) == taken[k]
    {
      CutRead(m, s, starts, taken, p, k);
    }
  }

  /** The inner skip loop of parse_args: moves past the spaces of the line t from p. */
  method SkipSpaces(m: array<char>, p: nat, ghost t: string) returns (q: nat)
    requires '\0' !in t && p <= |t| < m.Length && m[|t|] == '\0'
    requires forall i | p <= i < |t| :: m[i] == t[i]
    ensures q == SpaceEnd(t, p) && (m[q] == '\0' <==> q == |t|)
  {
    q := p;
    while m[q] == ' '
      invariant p <= q <= |t| && SpaceEnd(t, q) == SpaceEnd(t, p)
      decreases |t| - q
    {
      q := q + 1;
    }
  }

  /** The inner word loop of parse_args: moves to the space or NUL after the word of t at p. */
  method SkipWord(m: array<char>, p: nat, ghost t: string) returns (q: nat)
    requires '\0' !in t && p <= |t| < m.Length && m[|t|] == '\0'
    requires forall i | p <= i < |t| :: m[i] == t[i]
    ensures q == WordEnd(t, p) && (m[q] == '\0' <==> q == |t|)
  {
    q := p;
    while m[q] != '\0' && m[q] != ' '
      invariant p <= q <= |t| && WordEnd(t, q) == WordEnd(t, p)
      decreases |t| - q
    {
      q := q + 1;
    }
  }

  // ---------------------------------------------------------------------------
  // execute_command

  /** What execute_command does with a line. */
  datatype Dispatch =
    | Empty                                   // no word: nothing happens
    | Run(index: nat, args: seq<string>)      // the command at this index of the table, with the argument strings
    | Unknown(name: string)                   // "Unknown command: " and the first word

  /** The first index of the command table, from i on, whose name is `name`. */
  function LookupFrom(name: string, i: nat): (r: Option<nat>)
    requires i <= |COMMANDS|
    ensures r.Some? ==> i <= r.value < |COMMANDS| && COMMANDS[r.value] == name
    ensures r.Some? ==> forall k | i <= k < r.value :: COMMANDS[k] != name
    ensures r.None? <==> forall k | i <= k < |COMMANDS| :: COMMANDS[k] != name
    decreases |COMMANDS| - i
  {
    if i == |COMMANDS| then None
    else if COMMANDS[i] == name then Some(i)
    else LookupFrom(name, i + 1)
  }

  /** The table entry execute_command picks for a first word. */
  function Lookup(name: string): Option<nat> {
    LookupFrom(name, 0)
  }

  /** The names of the command table are distinct, so the entry found is the only one. */
  lemma LookupUnique(name: string)
    ensures Lookup(name).Some? <==> name in COMMANDS
    ensures forall k | 0 <= k < |COMMANDS| && COMMANDS[k] == name :: Lookup(name) == Some(k)
  {
    assert Lookup(name).None? <==> forall k | 0 <= k < |COMMANDS| :: COMMANDS[k] != name;
  }

  /** execute_command on the text of a line. */
  function Execute(t: string): Dispatch {
    var ws := Words(t);
    if ws == [] then Empty else Choose(ws)
  }

  /** What execute_command does with the words of a line that has some. */
  function Choose(ws: seq<string>): Dispatch
    requires ws != []
  {
    match Lookup(ws[0])
    case Some(i) => Run(i, ws[..Min(|ws|, MAX_ARGS - 1)])
    case None => Unknown(ws[0])
  }

  /** A line does nothing exactly when it is blank. */
  lemma ExecuteEmpty(t: string)
    ensures Execute(t) == Empty <==> forall i | 0 <= i < |t| :: t[i] == ' '
  {
    WordsNone(t);
  }

  /**
   * A command typed as words separated by single spaces runs the table
   * entry of its first word with at most MAX_ARGS - 1 of the words, or is
   * reported as unknown.
   */
  lemma ExecuteWords(ws: seq<string>)
    requires ws != [] && forall k | 0 <= k < |ws| :: ws[k] != [] && ' ' !in ws[k]
    ensures ws[0] in COMMANDS ==>
      Execute(Unwords(ws)) == Run(Lookup(ws[0]).value, ws[..Min(|ws|, MAX_ARGS - 1)]) &&
      COMMANDS[Lookup(ws[0]).value] == ws[0]
    ensures ws[0] !in COMMANDS ==> Execute(Unwords(ws)) == Unknown(ws[0])
  {
    WordsUnwords(ws);
    LookupUnique(ws[0]);
  }

  /**
   * execute_command: splits the line with parse_args, then looks the first
   * argument up in the command table.
   */
  method ExecuteCommand(input: array<char>) returns (r: Dispatch)
    requires '\0' in input[..]
    modifies input
    ensures r == Execute(CStr(old(input[..])))
  {
    ghost var ws := Words(CStr(input[..]));
    var args := new int[MAX_ARGS];
    var argc := ParseArgs(input, args);
    if argc == 0 {
      return Empty;
    }
    r := Select(input, args, argc, ws);
  }

  /**
   * The lookup loop of execute_command: compares the first argument with
   * each name of the command table in order, with kstreq.
   */
  method Select(input: array<char>, args: array<int>, argc: nat, ghost ws: seq<string>) returns (r: Dispatch)
    requires 0 < argc < args.Length && argc == Min(|ws|, MAX_ARGS - 1)
    requires ArgsRead(input[..], args[..argc], ws[..argc])
    ensures r == Choose(ws)
  {
    assert args[..argc][0] == args[0] && ws[..argc][0] == ws[0];
    var first := input[args[0]..];
    assert first == input[..][args[0]..];
    var i := 0;
    while i < |COMMANDS|
      invariant 0 <= i <= |COMMANDS|
      invariant LookupFrom(ws[0], 0) == LookupFrom(ws[0], i)
    {
      CStrOfText(COMMANDS[i]);
      var eq := StrEq(first, COMMANDS[i] + ['\0']);
      if eq {
        var argv := ReadArgs(input, args, argc, ws[..argc]);
        return Run(i, argv);
      }
      i := i + 1;
    }
    return Unknown(CStr(first));
  }

  /** The argument strings args[0..argc) point at, read back from the line. */
  method ReadArgs(input: array<char>, args: array<int>, argc: nat, ghost ws: seq<string>)
    returns (argv: seq<string>)
    requires argc <= args.Length && ArgsRead(input[..], args[..argc], ws)
    ensures argv == ws
  {
    argv := [];
    var k := 0;
    while k < argc
      invariant k <= argc && argv == ws[..k]
    {
      assert args[..argc][k] == args[k] && input[args[k]..] == input[..][args[k]..];
      argv := argv + [CStr(input[args[k]..])];
      k := k + 1;
    }
  }

  // ---------------------------------------------------------------------------
  // shell_run

  /**
   * One round of shell_run's endless loop: read a line of at most
   * MAX_INPUT - 1 characters from the keys with kgets, then execute it.
   */
  method ShellRound(keys: seq<char>) returns (r: Dispatch, used: nat)
    requires '\n' in keys
    ensures (r, used) == (Execute(TypeLine([], keys, MAX_INPUT).0), TypeLine([], keys, MAX_INPUT).1)
  {
    var input := new char[MAX_INPUT];
    used := KGets(input, MAX_INPUT, keys);
    ghost var line := TypeLine([], keys, MAX_INPUT).0;
    TypeLineBounds([], keys, MAX_INPUT);
    assert '\0' !in line by {
      forall i | 0 <= i < |line| ensures line[i] != '\0' {
        assert IsPrintable(line[i]);
      }
    }
    CStrOfPrefix(input[..], line);
    r := ExecuteCommand(input);
  }
}
