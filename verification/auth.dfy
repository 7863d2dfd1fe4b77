/**
 * The credential table of src/auth/auth.c: up to MAX_USERS users kept in
 * memory and saved to the file users.dat of the in-memory filesystem as
 * one "username:password:is_admin\n" line per user.
 */
module Auth {
  import opened Base
  import KLib
  import opened FsTree
  import Fs

  const MAX_USERNAME_LEN: int := 20
  const MAX_PASSWORD_LEN: int := 20
  const MAX_USERS: int := 10
  const AUTH_FILE: Text := "users.dat"
  /** Size of auth_save_users' file_content buffer. */
  const CONTENT_LEN: int := 1024
  /** Size of auth_save_users' admin_str buffer. */
  const ADMIN_STR_LEN: int := 4

  datatype User = User(username: Text, password: Text, isAdmin: int)

  /** The users installed by auth_init when nothing could be loaded. */
  const Defaults: seq<User> := [User("admin", "password", 1), User("user", "12345", 0)]

  /** A user the 20-byte username and password arrays can hold. */
  predicate Stored(u: User) {
    |u.username| < MAX_USERNAME_LEN && |u.password| < MAX_PASSWORD_LEN
  }

  /** An is_admin value whose decimal form fits admin_str: -99..999. */
  predicate AdminFits(u: User) {
    -99 <= u.isAdmin <= 999
  }

  /** Fields that survive a save and a load: neither contains ':' or '\n'. */
  predicate Clean(u: User) {
    ':' !in u.username && '\n' !in u.username && ':' !in u.password && '\n' !in u.password
  }

  /** The users' credentials include this username and password. */
  predicate Accepts(us: seq<User>, username: Text, password: Text) {
    exists i | 0 <= i < |us| :: us[i].username == username && us[i].password == password
  }

  function First<T>(s: seq<T>, n: nat): (r: seq<T>)
    ensures |r| <= n && r <= s
    ensures |s| <= n ==> r == s
  {
    if |s| <= n then s else s[..n]
  }

  // ---------------------------------------------------------------------------
  // The file format

  /** One line of users.dat, as auth_save_users writes it. */
  function LineOf(u: User): (l: Text)
    ensures |l| == |u.username| + |u.password| + |KLib.Decimal(u.isAdmin)| + 3
  {
    KLib.DecimalAlphabet(u.isAdmin);
    u.username + ":" + u.password + ":" + KLib.Decimal(u.isAdmin) + "\n"
  }

  /** The whole file: the users' lines in table order. */
  function Serialize(us: seq<User>): (s: Text)
  {
    if us == [] then "" else LineOf(us[0]) + Serialize(us[1..])
  }

  /** Position of the first c in s, or |s| when there is none (kstrchr). */
  function Span(s: string, c: char): (n: nat)
    ensures n <= |s| && (n < |s| ==> s[n] == c)
  {
    if s == [] || s[0] == c then 0 else 1 + Span(s[1..], c)
  }

  /** The position of a c with no c before it is the Span. */
  lemma {:induction false} SpanAt(s: string, c: char, n: nat)
    requires n <= |s| && (n < |s| ==> s[n] == c)
    requires forall k | 0 <= k < n :: s[k] != c
    ensures Span(s, c) == n
    decreases n
  {
    if n > 0 {
      assert s[0] != c;
      SpanAt(s[1..], c, n - 1);
    }
  }

  /**
   * The first k fields of a line as the splitting loop of auth_load_users
   * cuts them: each field ends at the next ':' (which is overwritten) or at
   * the end of the line, and splitting stops at the end of the line.
   */
  function Split(s: Text, k: nat): (parts: seq<Text>)
    ensures |parts| <= k
    ensures k > 0 ==> |parts| > 0
  {
    if k == 0 then []
    else
      var n := Span(s, ':');
      [s[..n]] + (if n < |s| then Split(s[n + 1..], k - 1) else [])
  }

  /** The user a line stands for: none unless it has three fields. */
  function UserList(line: Text): (r: seq<User>)
    ensures |r| <= 1
  {
    var parts := Split(line, 3);
    if |parts| == 3 then [User(parts[0], parts[1], KLib.IntOfText(parts[2]))] else []
  }

  /** The users of every '\n'-terminated line, in file order; an unterminated tail is ignored. */
  function Parse(s: Text): seq<User>
    decreases |s|
  {
    var n := Span(s, '\n');
    if n == |s| then [] else UserList(s[..n]) + Parse(s[n + 1..])
  }

  /**
   * A line whose fields auth_load_users can store: username and password
   * fit their 20-byte arrays, and str_to_int does not overflow on the third.
   */
  predicate LineFits(line: Text) {
    var parts := Split(line, 3);
    |parts| == 3 ==> |parts[0]| < MAX_USERNAME_LEN && |parts[1]| < MAX_PASSWORD_LEN && KLib.FitsInt(parts[2])
  }

  /** Every line auth_load_users reads, once k users are stored, fits. */
  predicate Loadable(s: Text, k: nat)
    decreases |s|
  {
    k >= MAX_USERS ||
    var n := Span(s, '\n');
    n == |s| || (LineFits(s[..n]) && Loadable(s[n + 1..], k + |UserList(s[..n])|))
  }

  // ---------------------------------------------------------------------------
  // Properties of the format

  lemma {:induction false} SerializeSnoc(us: seq<User>, u: User)
    ensures Serialize(us + [u]) == Serialize(us) + LineOf(u)
  {
    if us == [] {
      assert us + [u] == [u];
    } else {
      assert (us + [u])[1..] == us[1..] + [u];
      SerializeSnoc(us[1..], u);
    }
  }

  /** An is_admin value in -99..999 takes at most three characters, so admin_str holds it. */
  lemma DecimalShort(x: int)
    requires -99 <= x <= 999
    ensures |KLib.Decimal(x)| <= 3
  {
    var a := if x < 0 then -x else x;
    if a >= 10 {
      assert KLib.NatDigits(a) == KLib.NatDigits(a / 10) + [KLib.DigitChar(a % 10)];
      if a / 10 >= 10 {
        assert KLib.NatDigits(a / 10) == KLib.NatDigits(a / 10 / 10) + [KLib.DigitChar(a / 10 % 10)];
      }
    }
  }

  /** A line length bound: 19 + 1 + 19 + 1 + 3 + 1 characters at most. */
  lemma LineLength(u: User)
    requires Stored(u) && AdminFits(u)
    ensures |LineOf(u)| <= 44
  {
    DecimalShort(u.isAdmin);
  }

  /** The saved text of a full table of storable users fits the 1024-byte buffer. */
  lemma {:induction false} SerializeLength(us: seq<User>)
    requires forall i | 0 <= i < |us| :: Stored(us[i]) && AdminFits(us[i])
    ensures |Serialize(us)| <= 44 * |us|
  {
    if us != [] {
      LineLength(us[0]);
      SerializeLength(us[1..]);
    }
  }

  /** The decimal form of is_admin reads back through str_to_int without overflow. */
  lemma AdminReads(u: User)
    requires AdminFits(u)
    ensures KLib.FitsInt(KLib.Decimal(u.isAdmin)) && KLib.IntOfText(KLib.Decimal(u.isAdmin)) == u.isAdmin
  {
    var x := u.isAdmin;
    var a: nat := if x < 0 then -x else x;
    var d := KLib.Decimal(x);
    var body := KLib.Unsigned(d);
    assert body == KLib.NatDigits(a) by {
      if x >= 0 {
        assert KLib.IsDigit(d[0]);
      }
    }
    assert KLib.DigitsValue(body) == a by {
      KLib.NatDigitsValue(a);
    }
    assert body[..KLib.DigitRun(body)] == body by {
      KLib.DigitRunCovers(body, |body|);
      assert body[..|body|] == body;
    }
    KLib.DecimalRoundTrip(x);
  }

  /** A field without ':' followed by ':' is cut off whole. */
  lemma SplitField(a: Text, rest: Text, k: nat)
    requires ':' !in a && k > 0
    ensures Split(a + ":" + rest, k) == [a] + Split(rest, k - 1)
  {
    var line := a + ":" + rest;
    assert line[..|a|] == a;
    SpanAt(line, ':', |a|);
    assert line[|a| + 1..] == rest;
  }

  /** A last field without ':' is the whole rest of the line. */
  lemma SplitLast(d: Text)
    requires ':' !in d
    ensures Split(d, 1) == [d]
  {
    assert d[..|d|] == d;
    SpanAt(d, ':', |d|);
  }

  /** The decimal form of is_admin contains neither separator. */
  lemma DecimalClean(x: int)
    ensures ':' !in KLib.Decimal(x) && '\n' !in KLib.Decimal(x) && '\0' !in KLib.Decimal(x)
  {
    KLib.DecimalAlphabet(x);
  }

  /** The three fields of a written line come back as they were written. */
  lemma SplitLine(u: User)
    requires Clean(u)
    ensures var d := KLib.Decimal(u.isAdmin);
      Split(u.username + ":" + (u.password + ":" + d), 3) == [u.username, u.password, d]
  {
    var d := KLib.Decimal(u.isAdmin);
    DecimalClean(u.isAdmin);
    SplitLast(d);
    SplitField(u.password, d, 2);
    SplitField(u.username, u.password + ":" + d, 3);
  }

  /** Where a written line ends inside the file, and what it stands for. */
  lemma LineParts(u: User, s: Text)
    requires Clean(u)
    ensures var all, n := LineOf(u) + s, |LineOf(u)| - 1;
      && Span(all, '\n') == n && all[n + 1..] == s && all[..n] == LineOf(u)[..n]
      && UserList(all[..n]) == [u]
  {
    var d := KLib.Decimal(u.isAdmin);
    DecimalClean(u.isAdmin);
    var line: Text := u.username + ":" + (u.password + ":" + d);
    assert LineOf(u) == line + "\n";
    var all := LineOf(u) + s;
    var n := |line|;
    assert all[..n] == line && all[n] == '\n' && all[n + 1..] == s by {
      assert all == line + "\n" + s;
    }
    assert LineOf(u)[..n] == line;
    assert Span(all, '\n') == n by {
      assert forall k | 0 <= k < n :: all[k] == line[k];
      SpanAt(all, '\n', n);
    }
    assert UserList(line) == [u] by {
      SplitLine(u);
      KLib.DecimalRoundTrip(u.isAdmin);
    }
  }

  /** A written line of a storable user can be read back without overflow. */
  lemma LineFitsOf(u: User)
    requires Clean(u) && Stored(u) && AdminFits(u)
    ensures var n := |LineOf(u)| - 1; LineFits(LineOf(u)[..n])
  {
    var d := KLib.Decimal(u.isAdmin);
    DecimalClean(u.isAdmin);
    var line: Text := u.username + ":" + (u.password + ":" + d);
    assert LineOf(u)[..|line|] == line;
    SplitLine(u);
    AdminReads(u);
  }

  /** Parsing a written line yields its user and goes on with the rest. */
  lemma ParseLine(u: User, s: Text)
    requires Clean(u)
    ensures Parse(LineOf(u) + s) == [u] + Parse(s)
  {
    LineParts(u, s);
  }

  /** Reading back what auth_save_users writes gives the same users, in the same order. */
  lemma {:induction false} ParseSerialize(us: seq<User>)
    requires forall i | 0 <= i < |us| :: Clean(us[i])
    ensures Parse(Serialize(us)) == us
  {
    if us != [] {
      ParseLine(us[0], Serialize(us[1..]));
      ParseSerialize(us[1..]);
    }
  }

  /** A saved table of storable users can be loaded back without overflow. */
  lemma {:induction false} LoadableSerialize(us: seq<User>, k: nat)
    requires forall i | 0 <= i < |us| :: Clean(us[i]) && Stored(us[i]) && AdminFits(us[i])
    ensures Loadable(Serialize(us), k)
  {
    if us != [] && k < MAX_USERS {
      LineParts(us[0], Serialize(us[1..]));
      LineFitsOf(us[0]);
      LoadableSerialize(us[1..], k + 1);
    }
  }

  /** At a newline, the line before it is parsed and parsing goes on after it. */
  lemma ParseStep(s: Text, n: nat)
    requires n < |s| && s[n] == '\n' && (forall j | 0 <= j < n :: s[j] != '\n')
    ensures Parse(s) == UserList(s[..n]) + Parse(s[n + 1..])
  {
    SpanAt(s, '\n', n);
  }

  /** At a newline, the line before it fits and loading goes on after it. */
  lemma LoadStep(s: Text, n: nat, k: nat, k': nat)
    requires n < |s| && s[n] == '\n' && (forall j | 0 <= j < n :: s[j] != '\n')
    requires Loadable(s, k) && k < MAX_USERS && k' == k + |UserList(s[..n])|
    ensures LineFits(s[..n]) && Loadable(s[n + 1..], k')
  {
    SpanAt(s, '\n', n);
  }

  /** Text without a newline holds no complete line. */
  lemma ParseNoLine(s: Text)
    requires '\n' !in s
    ensures Parse(s) == []
  {
    assert s[..|s|] == s;
    SpanAt(s, '\n', |s|);
  }

  lemma FirstAppend<T>(a: seq<T>, b: seq<T>, m: nat)
    requires |a| <= m
    ensures First(a + b, m) == a + First(b, m - |a|)
  {
    if |a + b| > m {
      assert (a + b)[..m] == a + b[..m - |a|];
    }
  }

  /** Moving a prefix a of p from the part still bounded by m to the part already taken. */
  lemma ShiftFirst<T>(done: seq<T>, p: seq<T>, a: seq<T>, b: seq<T>, m: nat, done': seq<T>, m': nat)
    requires p == a + b && |a| <= m && done' == done + a && m' == m - |a|
    ensures done + First(p, m) == done' + First(b, m')
  {
    FirstAppend(a, b, m);
    assert done + (a + First(b, m')) == (done + a) + First(b, m');
  }

  // ---------------------------------------------------------------------------
  // The file on the filesystem

  /**
   * What auth_save_users does to the filesystem: the content goes into
   * users.dat of the current directory, which is created first when
   * missing.  1 for success, 0 when the file could not be created.
   */
  function Saved(t: Tree, content: Text): (Tree, int)
    requires Wf(t)
  {
    if FsTree.Find(t, AUTH_FILE, File) != NIL then (FsTree.Write(t, AUTH_FILE, content).0, 1)
    else
      MakeEntryOutcome(t, AUTH_FILE, File);
      var t1 := MakeEntry(t, AUTH_FILE, File).0;
      if FsTree.Find(t1, AUTH_FILE, File) != NIL then (FsTree.Write(t1, AUTH_FILE, content).0, 1)
      else (t1, 0)
  }

  /**
   * What auth_load_users does: with no users.dat or no data, the table is
   * kept and the result is 0; otherwise the table becomes the first
   * MAX_USERS users of the file, and the result is 1 iff there is one.
   */
  function Loaded(us: seq<User>, t: Tree): (seq<User>, int)
    requires Wf(t)
  {
    var f := FsTree.Find(t, AUTH_FILE, File);
    if f == NIL || t.ns[f].data.None? then (us, 0)
    else
      var ps := First(Parse(t.ns[f].data.value), MAX_USERS);
      (ps, if |ps| > 0 then 1 else 0)
  }

  /** users.dat, if it has data, can be loaded without overflow. */
  predicate FileLoadable(t: Tree)
    requires Wf(t)
  {
    var f := FsTree.Find(t, AUTH_FILE, File);
    f != NIL && t.ns[f].data.Some? ==> Loadable(t.ns[f].data.value, 0)
  }

  /**
   * auth_save_users fails only when users.dat is missing and the node pool
   * is full, and then changes nothing; otherwise users.dat of the current
   * directory holds exactly the content.
   */
  lemma SavedOutcome(t: Tree, content: Text)
    requires Wf(t)
    ensures var (t', r) := Saved(t, content);
      && Wf(t') && t'.cwd == t.cwd
      && (r == 0 || r == 1)
      && (r == 0 <==> FsTree.Find(t, AUTH_FILE, File) == NIL && t.count == POOL)
      && (r == 0 ==> t' == t)
      && (r == 1 ==> FsTree.Find(t', AUTH_FILE, File) != NIL
                     && t'.ns[FsTree.Find(t', AUTH_FILE, File)].data == Some(content))
  {
    MakeEntryOutcome(t, AUTH_FILE, File);
    var t1 := MakeEntry(t, AUTH_FILE, File).0;
    if FsTree.Find(t, AUTH_FILE, File) != NIL {
      WriteOutcome(t, AUTH_FILE, content);
    } else if FsTree.Find(t1, AUTH_FILE, File) != NIL {
      WriteOutcome(t1, AUTH_FILE, content);
    }
  }

  /** Loading reads whatever users.dat holds. */
  lemma LoadedContent(t: Tree, content: Text, before: seq<User>)
    requires Wf(t) && FsTree.Find(t, AUTH_FILE, File) != NIL
    requires t.ns[FsTree.Find(t, AUTH_FILE, File)].data == Some(content)
    ensures FileLoadable(t) == Loadable(content, 0)
    ensures Loaded(before, t) == (First(Parse(content), MAX_USERS),
                                 if First(Parse(content), MAX_USERS) == [] then 0 else 1)
  {
  }

  /**
   * Loading after a successful save gives back exactly the saved table,
   * when no field contains ':' or '\n'; the saved file is also loadable
   * without overflow when the users are storable.
   */
  lemma SaveThenLoad(t: Tree, us: seq<User>, before: seq<User>)
    requires Wf(t) && |us| <= MAX_USERS
    requires forall i | 0 <= i < |us| :: Clean(us[i]) && Stored(us[i]) && AdminFits(us[i])
    ensures var (t', r) := Saved(t, Serialize(us));
      Wf(t') && (r == 1 ==> FileLoadable(t') && Loaded(before, t') == (us, if us == [] then 0 else 1))
  {
    var content := Serialize(us);
    SavedOutcome(t, content);
    var (t', r) := Saved(t, content);
    if r == 1 {
      ParseSerialize(us);
      LoadableSerialize(us, 0);
      LoadedContent(t', content, before);
    }
  }

  // ---------------------------------------------------------------------------
  // The table

  /** One field cut off the front of a line at a ':'. */
  lemma SplitStep(done: seq<Text>, token: Text, head: Text, rest: Text, k: nat)
    requires k > 0 && Span(token, ':') < |token|
    requires head == token[..Span(token, ':')] && rest == token[Span(token, ':') + 1..]
    ensures done + Split(token, k) == (done + [head]) + Split(rest, k - 1)
  {
    assert Split(token, k) == [head] + Split(rest, k - 1);
  }

  /** The last field of a line: there is no ':' left. */
  lemma SplitEnd(done: seq<Text>, token: Text, k: nat)
    requires k > 0 && Span(token, ':') == |token|
    ensures done + Split(token, k) == done + [token]
  {
    assert token[..|token|] == token;
  }

  /** The splitting loop of auth_load_users: up to three fields, each cut at the next ':'. */
  method SplitFields(line: Text) returns (parts: seq<Text>)
    ensures parts == Split(line, 3)
  {
    parts := [];
    var token := line;
    var more := true;
    while more && |parts| < 3
      invariant |parts| <= 3
      invariant more ==> parts + Split(token, 3 - |parts|) == Split(line, 3)
      invariant !more ==> parts == Split(line, 3)
      decreases 3 - |parts|
    {
      var cut := Span(token, ':');
      if cut < |token| {
        TextSplit(token, cut);
        TextSplit(token, cut + 1);
        var head: Text := token[..cut];
        var rest: Text := token[cut + 1..];
        SplitStep(parts, token, head, rest, 3 - |parts|);
        parts := parts + [head];
        token := rest;
      } else {
        SplitEnd(parts, token, 3 - |parts|);
        parts := parts + [token];
        more := false;
      }
    }
  }

  /** kstrcat of a whole text onto the buffer. */
  method AppendText(buf: array<char>, t: Text)
    requires '\0' in buf[..] && |KLib.CStr(buf[..])| + |t| < buf.Length
    modifies buf
    ensures '\0' in buf[..] && KLib.CStr(buf[..]) == old(KLib.CStr(buf[..])) + t
  {
    KLib.CStrOfText(t);
    KLib.StrCat(buf, t + ['\0']);
  }

  /** One user's line appended to auth_save_users' buffer with kstrcat and int_to_str. */
  method AppendLine(buf: array<char>, u: User)
    requires buf.Length == CONTENT_LEN && '\0' in buf[..] && AdminFits(u)
    requires |KLib.CStr(buf[..])| + |LineOf(u)| < CONTENT_LEN
    modifies buf
    ensures '\0' in buf[..] && KLib.CStr(buf[..]) == old(KLib.CStr(buf[..])) + LineOf(u)
  {
    ghost var s0 := KLib.CStr(buf[..]);
    AppendField(buf, u.username);
    AppendField(buf, u.password);
    AppendAdmin(buf, u.isAdmin);
    assert KLib.CStr(buf[..]) == s0 + LineOf(u);
  }

  /** A field and its ':' appended. */
  method AppendField(buf: array<char>, f: Text)
    requires '\0' in buf[..] && |KLib.CStr(buf[..])| + |f| + 1 < buf.Length
    modifies buf
    ensures '\0' in buf[..] && KLib.CStr(buf[..]) == old(KLib.CStr(buf[..])) + f + ":"
  {
    AppendText(buf, f);
    AppendText(buf, ":");
  }

  /** The is_admin value appended through admin_str, then the end of the line. */
  method AppendAdmin(buf: array<char>, x: int)
    requires -99 <= x <= 999
    requires '\0' in buf[..] && |KLib.CStr(buf[..])| + |KLib.Decimal(x)| + 1 < buf.Length
    modifies buf
    ensures '\0' in buf[..] && KLib.CStr(buf[..]) == old(KLib.CStr(buf[..])) + KLib.Decimal(x) + "\n"
  {
    DecimalShort(x);
    DecimalClean(x);
    var adminStr := new char[ADMIN_STR_LEN];
    KLib.IntToStr(x as int32, adminStr);
    KLib.CStrOfPrefix(adminStr[..], KLib.Decimal(x));
    AppendText(buf, KLib.CStr(adminStr[..]));
    AppendText(buf, "\n");
  }

  /** The next user's line still fits the buffer, after the lines before it. */
  lemma ContentStep(users: seq<User>, i: nat)
    requires i < |users| <= MAX_USERS
    requires forall j | 0 <= j < |users| :: Stored(users[j]) && AdminFits(users[j])
    ensures Serialize(users[..i + 1]) == Serialize(users[..i]) + LineOf(users[i])
    ensures |Serialize(users[..i])| + |LineOf(users[i])| < CONTENT_LEN
  {
    SerializeSnoc(users[..i], users[i]);
    assert users[..i + 1] == users[..i] + [users[i]];
    SerializeLength(users[..i + 1]);
  }

  /** The first loop of auth_save_users: the whole table, serialised into a fresh 1024-byte buffer. */
  method BuildContent(users: seq<User>) returns (buf: array<char>)
    requires |users| <= MAX_USERS
    requires forall i | 0 <= i < |users| :: Stored(users[i]) && AdminFits(users[i])
    ensures fresh(buf) && buf.Length == CONTENT_LEN
    ensures '\0' in buf[..] && KLib.CStr(buf[..]) == Serialize(users)
  {
    buf := new char[CONTENT_LEN](_ => '\0');
    assert buf[..][0] == '\0' && buf[..][..0] == [];
    KLib.CLenAt(buf[..], 0);
    var i := 0;
    while i < |users|
      invariant 0 <= i <= |users|
      invariant '\0' in buf[..] && KLib.CStr(buf[..]) == Serialize(users[..i])
    {
      ContentStep(users, i);
      AppendLine(buf, users[i]);
      i := i + 1;
    }
    assert users[..i] == users;
  }

  /** The second half of auth_save_users: users.dat, created when missing, gets the buffer as its data. */
  method StoreContent(fs: Fs.FileSystem, buf: array<char>) returns (r: int)
    requires fs.Valid() && '\0' in buf[..]
    modifies fs, fs.nodes
    ensures fs.Valid()
    ensures (fs.Model(), r) == Saved(old(fs.Model()), KLib.CStr(buf[..]))
  {
    var content := KLib.CStr(buf[..]);
    var size := KLib.StrLen(buf[..]);
    ghost var t := fs.Model();
    SavedOutcome(t, content);
    MakeEntryOutcome(t, AUTH_FILE, File);
    var file := OpenFile(fs);
    if file != NIL {
      SetData(fs, file, content, size);
      return 1;
    }
    return 0;
  }

  /** users.dat of the current directory, created first when missing; NIL when it cannot be. */
  method OpenFile(fs: Fs.FileSystem) returns (file: int)
    requires fs.Valid()
    modifies fs, fs.nodes
    ensures fs.Valid()
    ensures var t := old(fs.Model());
      fs.Model() == (if FsTree.Find(t, AUTH_FILE, File) != NIL then t else MakeEntry(t, AUTH_FILE, File).0)
    ensures file == FsTree.Find(fs.Model(), AUTH_FILE, File)
  {
    file := fs.FindFile(AUTH_FILE);
    if file == NIL {
      var touched := fs.Touch(AUTH_FILE);
      file := fs.FindFile(AUTH_FILE);
    }
  }

  /** file->data and file->size of the node users.dat set to the content. */
  method SetData(fs: Fs.FileSystem, file: int, content: Text, size: nat)
    requires fs.Valid() && file != NIL && file == FsTree.Find(fs.Model(), AUTH_FILE, File)
    requires size == |content|
    modifies fs.nodes
    ensures fs.Valid()
    ensures fs.Model() == FsTree.Write(old(fs.Model()), AUTH_FILE, content).0
  {
    ghost var t := fs.Model();
    WriteOutcome(t, AUTH_FILE, content);
    fs.nodes[file] := fs.nodes[file].(data := Some(content), size := size);
    assert fs.Model() == FsTree.Write(t, AUTH_FILE, content).0;
  }

  /**
   * What ReadUsers keeps while it scans: rest is the text from line_start
   * on, and content points len characters into it.
   */
  ghost predicate Reading(content: Text, rest: Text, len: nat, users: seq<User>)
  {
    && len <= |rest| && (forall k | 0 <= k < len :: rest[k] != '\n')
    && |users| <= MAX_USERS && (forall j | 0 <= j < |users| :: Stored(users[j]))
    && users + First(Parse(rest), MAX_USERS - |users|) == First(Parse(content), MAX_USERS)
    && Loadable(rest, |users|)
  }

  /**
   * The line loop of auth_load_users: at most MAX_USERS users, line by
   * line.  The pointers line_start and content become the text from
   * line_start on and the offset of content within it.
   */
  method ReadUsers(content: Text) returns (users: seq<User>)
    requires Loadable(content, 0)
    ensures users == First(Parse(content), MAX_USERS)
    ensures forall i | 0 <= i < |users| :: Stored(users[i])
  {
    var rest := content;
    var len := 0;
    users := [];
    ReadStart(content);
    while len < |rest| && |users| < MAX_USERS
      invariant Reading(content, rest, len, users)
      decreases |rest| - len
    {
      if rest[len] == '\n' {
        rest, users := TakeLine(content, rest, len, users);
        len := 0;
      } else {
        ReadOther(content, rest, len, users);
        len := len + 1;
      }
    }
    ReadDone(content, rest, len, users);
  }

  /**
   * A newline ends the line: its fields are split off, its user (if it has
   * three fields) is stored, and line_start moves past the newline.
   */
  method TakeLine(content: Text, rest: Text, len: nat, users: seq<User>) returns (rest': Text, users': seq<User>)
    requires Reading(content, rest, len, users) && len < |rest| && rest[len] == '\n' && |users| < MAX_USERS
    ensures rest' == rest[len + 1..] && users' == users + UserList(rest[..len])
    ensures Reading(content, rest', 0, users')
  {
    var line := rest[..len];
    assert LineFits(line) by {
      LoadStep(rest, len, |users|, |users| + |UserList(line)|);
    }
    var found, u := ReadLine(line);
    var ul := if found then [u] else [];
    users' := users + ul;
    rest' := rest[len + 1..];
    ReadNewline(content, rest, len, users, ul, rest', users');
  }

  lemma ReadStart(content: Text)
    requires Loadable(content, 0)
    ensures Reading(content, content, 0, [])
  {
  }

  /** After a newline, the scan goes on with the next line, the line's user stored. */
  lemma ReadNewline(content: Text, rest: Text, len: nat, users: seq<User>, ul: seq<User>,
                    rest': Text, users': seq<User>)
    requires Reading(content, rest, len, users) && len < |rest| && rest[len] == '\n' && |users| < MAX_USERS
    requires ul == UserList(rest[..len]) && forall j | 0 <= j < |ul| :: Stored(ul[j])
    requires rest' == rest[len + 1..] && users' == users + ul
    ensures Reading(content, rest', 0, users')
  {
    StoredAppend(users, ul);
    NextLoadable(rest, len, users, users');
    ParseStep(rest, len);
    ShiftFirst(users, Parse(rest), ul, Parse(rest'), MAX_USERS - |users|, users', MAX_USERS - |users'|);
  }

  lemma StoredAppend(a: seq<User>, b: seq<User>)
    requires (forall j | 0 <= j < |a| :: Stored(a[j])) && (forall j | 0 <= j < |b| :: Stored(b[j]))
    ensures forall j | 0 <= j < |a + b| :: Stored((a + b)[j])
  {
    assert forall j | |a| <= j < |a + b| :: (a + b)[j] == b[j - |a|];
  }

  /** Loading can go on past the newline with the line's user stored. */
  lemma NextLoadable(rest: Text, len: nat, users: seq<User>, users': seq<User>)
    requires len < |rest| && rest[len] == '\n' && (forall k | 0 <= k < len :: rest[k] != '\n')
    requires |users| < MAX_USERS && Loadable(rest, |users|) && users' == users + UserList(rest[..len])
    ensures Loadable(rest[len + 1..], |users'|)
  {
    LoadStep(rest, len, |users|, |users'|);
  }

  /** Any other character only lengthens the current line. */
  lemma ReadOther(content: Text, rest: Text, len: nat, users: seq<User>)
    requires Reading(content, rest, len, users) && len < |rest| && rest[len] != '\n'
    ensures Reading(content, rest, len + 1, users)
  {
  }

  /** When the scan stops, the users read are the result. */
  lemma ReadDone(content: Text, rest: Text, len: nat, users: seq<User>)
    requires Reading(content, rest, len, users) && (len == |rest| || |users| == MAX_USERS)
    ensures users == First(Parse(content), MAX_USERS)
  {
    if |users| < MAX_USERS {
      assert rest[..len] == rest;
      ParseNoLine(rest);
    }
  }

  /** One line split into its fields; a user only when there are three. */
  method ReadLine(line: Text) returns (found: bool, u: User)
    requires LineFits(line)
    ensures UserList(line) == (if found then [u] else [])
    ensures found ==> Stored(u)
  {
    var parts := SplitFields(line);
    found := |parts| == 3;
    if found {
      KLib.CStrOfText(parts[2]);
      var admin := KLib.StrToInt(parts[2] + ['\0']);
      u := User(parts[0], parts[1], admin as int);
    } else {
      u := User("", "", 0);
    }
  }

  /** The default users survive a save and a load, and fit every buffer. */
  lemma DefaultsSavable()
    ensures |Defaults| <= MAX_USERS
    ensures forall i | 0 <= i < |Defaults| :: Clean(Defaults[i]) && Stored(Defaults[i]) && AdminFits(Defaults[i])
  {
    assert Clean(Defaults[0]) && Clean(Defaults[1]);
  }

  /** The users table and user_count of src/auth/auth.c, as the sequence users[0..user_count). */
  class UserTable {
    var users: seq<User>

    ghost predicate Valid()
      reads this
    {
      |users| <= MAX_USERS && forall i | 0 <= i < |users| :: Stored(users[i])
    }

    /** The table before auth_init: static storage, so no users. */
    constructor ()
      ensures Valid() && users == []
    {
      users := [];
    }

    /** auth_check_credentials: 1 iff some user has exactly this username and password. */
    method CheckCredentials(username: Text, password: Text) returns (r: int)
      ensures r == 0 || r == 1
      ensures r == 1 <==> Accepts(users, username, password)
    {
      var i := 0;
      while i < |users|
        invariant 0 <= i <= |users|
        invariant forall j | 0 <= j < i :: !(users[j].username == username && users[j].password == password)
      {
        var sameName := KLib.TextEq(users[i].username, username);
        if sameName {
          var samePassword := KLib.TextEq(users[i].password, password);
          if samePassword {
            return 1;
          }
        }
        i := i + 1;
      }
      return 0;
    }

    /** auth_save_users: the table, serialised, becomes the content of users.dat. */
    method SaveUsers(fs: Fs.FileSystem) returns (r: int)
      requires Valid() && fs.Valid()
      requires forall i | 0 <= i < |users| :: AdminFits(users[i])
      modifies fs, fs.nodes
      ensures fs.Valid()
      ensures (fs.Model(), r) == Saved(old(fs.Model()), Serialize(users))
    {
      var buf := BuildContent(users);
      r := StoreContent(fs, buf);
    }

    /** auth_load_users: reads the users of users.dat, in place of the table. */
    method LoadUsers(fs: Fs.FileSystem) returns (r: int)
      requires Valid() && fs.Valid() && FileLoadable(fs.Model())
      modifies this
      ensures Valid()
      ensures (users, r) == Loaded(old(users), fs.Model())
    {
      var file := fs.FindFile(AUTH_FILE);
      if file == NIL || fs.nodes[file].data.None? {
        return 0;
      }
      users := ReadUsers(fs.nodes[file].data.value);
      r := if |users| > 0 then 1 else 0;
    }

    /**
     * auth_init: the users of users.dat when it yields any; otherwise the
     * two default users, which are then saved.  Either way users.dat, when
     * it exists, afterwards loads as exactly the table.
     */
    method Init(fs: Fs.FileSystem)
      requires Valid() && fs.Valid() && FileLoadable(fs.Model())
      modifies this, fs, fs.nodes
      ensures Valid() && fs.Valid() && FileLoadable(fs.Model())
      ensures var (loaded, n) := Loaded(old(users), old(fs.Model()));
        if n == 1 then users == loaded && fs.Model() == old(fs.Model())
        else users == Defaults && fs.Model() == Saved(old(fs.Model()), Serialize(Defaults)).0
      ensures FsTree.Find(fs.Model(), AUTH_FILE, File) != NIL ==> Loaded([], fs.Model()) == (users, 1)
    {
      var n := LoadUsers(fs);
      if n == 0 {
        users := Defaults;
        ghost var t := fs.Model();
        DefaultsSavable();
        var saved := SaveUsers(fs);
        SavedOutcome(t, Serialize(Defaults));
        SaveThenLoad(t, Defaults, []);
      }
    }

    /**
     * auth_register, given the lines typed at its username, password and
     * confirmation prompts: 1 iff the table has room, no user has that
     * username and the confirmation matches; the user is then appended as a
     * non-admin and the table saved, whatever the save returns.
     */
    method Register(fs: Fs.FileSystem, username: Text, password: Text, confirm: Text) returns (r: int)
      requires Valid() && fs.Valid() && forall i | 0 <= i < |users| :: AdminFits(users[i])
      requires |username| < MAX_USERNAME_LEN && |password| < MAX_PASSWORD_LEN
      modifies this, fs, fs.nodes
      ensures Valid() && fs.Valid() && forall i | 0 <= i < |users| :: AdminFits(users[i])
      ensures r == 0 || r == 1
      ensures r == 1 <==> && |old(users)| < MAX_USERS && password == confirm
                          && forall i | 0 <= i < |old(users)| :: old(users)[i].username != username
      ensures r == 0 ==> users == old(users) && fs.Model() == old(fs.Model())
      ensures r == 1 ==> && users == old(users) + [User(username, password, 0)]
                         && fs.Model() == Saved(old(fs.Model()), Serialize(users)).0
                         && Accepts(users, username, password)
    {
      if |users| >= MAX_USERS {
        return 0;
      }
      var taken := UsernameTaken(username);
      if taken {
        return 0;
      }
      var same := KLib.TextEq(password, confirm);
      if !same {
        return 0;
      }
      users := users + [User(username, password, 0)];
      assert users[|users| - 1] == User(username, password, 0);
      var saved := SaveUsers(fs);
      r := 1;
    }

    /** The username check of auth_register: does some user already have it? */
    method UsernameTaken(username: Text) returns (taken: bool)
      ensures taken <==> exists i | 0 <= i < |users| :: users[i].username == username
    {
      var i := 0;
      while i < |users|
        invariant 0 <= i <= |users|
        invariant forall j | 0 <= j < i :: users[j].username != username
      {
        var same := KLib.TextEq(users[i].username, username);
        if same {
          return true;
        }
        i := i + 1;
      }
      return false;
    }

    /**
     * auth_login, given the username and password typed at each attempt:
     * 1 at the first attempt that matches a user, 0 after three that do
     * not; `tries` is the number of attempts made.
     */
    method Login(attempts: seq<(Text, Text)>) returns (r: int, tries: nat)
      requires |attempts| >= 3
      ensures r == 0 || r == 1
      ensures 1 <= tries <= 3 && (r == 0 ==> tries == 3)
      ensures forall k | 0 <= k < tries - 1 :: !Accepts(users, attempts[k].0, attempts[k].1)
      ensures r == 1 <==> Accepts(users, attempts[tries - 1].0, attempts[tries - 1].1)
    {
      r, tries := 0, 0;
      while tries < 3
        invariant tries <= 3
        invariant forall k | 0 <= k < tries :: !Accepts(users, attempts[k].0, attempts[k].1)
      {
        var (username, password) := attempts[tries];
        var ok := CheckCredentials(username, password);
        tries := tries + 1;
        if ok == 1 {
          return 1, tries;
        }
      }
    }
  }
}
