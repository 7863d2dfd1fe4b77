/**
 * The kernel's small C library: NUL-terminated strings, decimal conversion,
 * the line editor behind kgets and the scancode keymap of kgetchar.
 *
 * Memory that holds a C string is a `seq<char>` (read-only uses) or an
 * `array<char>` (buffers the routine writes into); the string itself is the
 * part before the first NUL.
 */
module KLib {
  import opened Base

  // ---------------------------------------------------------------------------
  // C strings

  /** Index of the first NUL in `s`, i.e. the length of the C string stored there. */
  function CLen(s: seq<char>): (n: nat)
    requires '\0' in s
    ensures n < |s| && s[n] == '\0'
    ensures forall k | 0 <= k < n :: s[k] != '\0'
  {
    if s[0] == '\0' then 0
    else
      assert s == [s[0]] + s[1..];
      1 + CLen(s[1..])
  }

  /** The C string stored at the start of `s`. */
  function CStr(s: seq<char>): Text
    requires '\0' in s
  {
    assert forall k | 0 <= k < CLen(s) :: s[..CLen(s)][k] == s[k];
    s[..CLen(s)]
  }

  /** A NUL at index n with none before it is the terminator. */
  lemma CLenAt(s: seq<char>, n: nat)
    requires n < |s| && s[n] == '\0'
    requires forall k | 0 <= k < n :: s[k] != '\0'
    ensures '\0' in s && CLen(s) == n
  {
    assert s[n] in s;
    var m := CLen(s);
  }

  /** A text followed by its terminator is read back as that text. */
  lemma CStrOfText(t: Text)
    ensures '\0' in t + ['\0'] && CLen(t + ['\0']) == |t| && CStr(t + ['\0']) == t
  {
    assert (t + ['\0'])[..|t|] == t;
    CLenAt(t + ['\0'], |t|);
  }

  /** Memory that starts with a text and its terminator holds that C string. */
  lemma CStrOfPrefix(s: seq<char>, t: Text)
    requires |t| < |s| && s[..|t| + 1] == t + ['\0']
    ensures '\0' in s && CLen(s) == |t| && CStr(s) == t
  {
    assert s[|t|] == (t + ['\0'])[|t|];
    assert s[..|t|] == s[..|t| + 1][..|t|];
    CLenAt(s, |t|);
  }

  /** kstrlen: counts characters up to the first NUL. */
  method StrLen(s: seq<char>) returns (len: nat)
    requires '\0' in s
    ensures len == CLen(s)
  {
    len := 0;
    while s[len] != '\0'
      invariant len <= CLen(s)
      decreases CLen(s) - len
    {
      assert len != CLen(s);
      assert s[..CLen(s)][len] == s[len];
      len := len + 1;
    }
  }

  /** kstreq: compares two C strings character by character. */
  method StrEq(s1: seq<char>, s2: seq<char>) returns (eq: bool)
    requires '\0' in s1 && '\0' in s2
    ensures eq <==> CStr(s1) == CStr(s2)
  {
    var i := 0;
    while s1[i] != '\0' && s2[i] != '\0' && s1[i] == s2[i]
      invariant i <= CLen(s1) && i <= CLen(s2)
      invariant s1[..i] == s2[..i]
      decreases CLen(s1) - i
    {
      assert i != CLen(s1) && i != CLen(s2);
      assert s1[..i + 1] == s1[..i] + [s1[i]] && s2[..i + 1] == s2[..i] + [s2[i]];
      i := i + 1;
    }
    if i < CLen(s1) { assert s1[..CLen(s1)][i] == s1[i]; }
    if i < CLen(s2) { assert s2[..CLen(s2)][i] == s2[i]; }
    eq := s1[i] == s2[i];
    if eq {
      CLenAt(s1, i);
      CLenAt(s2, i);
    } else if CLen(s1) == CLen(s2) {
      assert CStr(s1)[i] != CStr(s2)[i];
    }
  }

  /**
   * Two C strings are equal exactly when the bytes up to and including the
   * first string's terminator agree.
   */
  lemma StrEqUpToTerminator(s1: seq<char>, s2: seq<char>)
    requires '\0' in s1 && '\0' in s2
    ensures CStr(s1) == CStr(s2) <==>
            CLen(s1) < |s2| && s1[..CLen(s1) + 1] == s2[..CLen(s1) + 1]
  {
    var n := CLen(s1);
    if CStr(s1) == CStr(s2) {
      assert s1[..n + 1] == CStr(s1) + ['\0'];
      assert s2[..n + 1] == CStr(s2) + ['\0'];
    }
    if n < |s2| && s1[..n + 1] == s2[..n + 1] {
      assert s2[..n] == s1[..n + 1][..n];
      CLenAt(s2, n);
    }
  }

  /** Comparing two terminated texts is plain equality. */
  lemma StrEqOnTexts(a: Text, b: Text)
    ensures '\0' in a + ['\0'] && '\0' in b + ['\0']
    ensures CStr(a + ['\0']) == CStr(b + ['\0']) <==> a == b
  {
    CStrOfText(a);
    CStrOfText(b);
  }

  /** kstreq on two strings stored with their terminators: equal exactly when the texts are. */
  method TextEq(a: Text, b: Text) returns (eq: bool)
    ensures eq <==> a == b
  {
    StrEqOnTexts(a, b);
    eq := StrEq(a + ['\0'], b + ['\0']);
  }

  /** kstrcpy: copies `src` and its terminator to the start of `dest`. */
  method StrCpy(dest: array<char>, src: seq<char>)
    requires '\0' in src && CLen(src) < dest.Length
    modifies dest
    ensures dest[..CLen(src) + 1] == CStr(src) + ['\0']
    ensures '\0' in dest[..] && CStr(dest[..]) == CStr(src)
    ensures forall k | CLen(src) < k < dest.Length :: dest[k] == old(dest[k])
  {
    CopyAt(dest, 0, src);
    assert dest[..CLen(src) + 1] == dest[0..CLen(src) + 1];
    CStrOfPrefix(dest[..], CStr(src));
  }

  /** kstrcat: appends `src` after the C string already in `dest`. */
  method StrCat(dest: array<char>, src: seq<char>)
    requires '\0' in dest[..] && '\0' in src
    requires CLen(dest[..]) + CLen(src) < dest.Length
    modifies dest
    ensures '\0' in dest[..] && CStr(dest[..]) == old(CStr(dest[..])) + CStr(src)
    ensures dest[..old(CLen(dest[..])) + CLen(src) + 1] == old(CStr(dest[..])) + CStr(src) + ['\0']
    ensures forall k | old(CLen(dest[..])) + CLen(src) < k < dest.Length :: dest[k] == old(dest[k])
  {
    ghost var before := CStr(dest[..]);
    // The first loop of kstrcat walks to the terminator, as kstrlen does.
    var d := StrLen(dest[..]);
    assert dest[..d] == before;
    CopyAt(dest, d, src);
    ghost var after := dest[..];
    Joined(after, before, CStr(src));
    CStrOfPrefix(after, before + CStr(src));
  }

  /** A text in front of a terminated text, both in place, make one terminated text. */
  lemma Joined(s: seq<char>, a: seq<char>, b: seq<char>)
    requires |a| + |b| < |s| && s[..|a|] == a && s[|a|..|a| + |b| + 1] == b + ['\0']
    ensures s[..|a + b| + 1] == a + b + ['\0']
  {
    assert s[..|a| + |b| + 1] == s[..|a|] + s[|a|..|a| + |b| + 1];
  }

  /** The copying loop of kstrcpy and kstrcat: `src` and its terminator written from index d on. */
  method CopyAt(dest: array<char>, d: nat, src: seq<char>)
    requires '\0' in src && d + CLen(src) < dest.Length
    modifies dest
    ensures dest[..d] == old(dest[..d])
    ensures dest[d..d + CLen(src) + 1] == CStr(src) + ['\0']
    ensures forall k | d + CLen(src) < k < dest.Length :: dest[k] == old(dest[k])
  {
    var i := 0;
    while src[i] != '\0'
      invariant i <= CLen(src)
      invariant dest[..d] == old(dest[..d])
      invariant dest[d..d + i] == src[..i]
      invariant forall k | d + i <= k < dest.Length :: dest[k] == old(dest[k])
      decreases CLen(src) - i
    {
      assert i != CLen(src);
      dest[d + i] := src[i];
      assert dest[d..d + i + 1] == dest[d..d + i] + [src[i]];
      i := i + 1;
    }
    dest[d + i] := '\0';
    assert dest[d..d + i + 1] == dest[d..d + i] + [dest[d + i]];
  }

  // ---------------------------------------------------------------------------
  // Decimal conversion

  predicate IsDigit(c: char) {
    '0' <= c <= '9'
  }

  predicate AllDigits(t: string) {
    forall i | 0 <= i < |t| :: IsDigit(t[i])
  }

  /** Value of a digit string read most significant digit first. */
  function DigitsValue(t: string): nat
    requires AllDigits(t)
  {
    if t == [] then 0
    else DigitsValue(t[..|t| - 1]) * 10 + (t[|t| - 1] as int - '0' as int)
  }

  /** Number of leading digits of `t`. */
  function DigitRun(t: string): (n: nat)
    ensures n <= |t| && AllDigits(t[..n])
  {
    if t != [] && IsDigit(t[0]) then 1 + DigitRun(t[1..]) else 0
  }

  /** The part of a str_to_int argument after an optional leading '-'. */
  function Unsigned(t: string): string {
    if |t| > 0 && t[0] == '-' then t[1..] else t
  }

  /**
   * What str_to_int computes: an optional '-' followed by decimal digits gives
   * that number; any other character anywhere gives 0.
   */
  function IntOfText(t: string): int {
    var body := Unsigned(t);
    if !AllDigits(body) then 0
    else if |t| > 0 && t[0] == '-' then 0 - DigitsValue(body) as int
    else DigitsValue(body)
  }

  /** str_to_int's accumulator stays within a C int while it reads `t`. */
  predicate FitsInt(t: string) {
    var body := Unsigned(t);
    DigitsValue(body[..DigitRun(body)]) <= INT_MAX
  }

  lemma {:induction false} DigitsValuePrefix(t: string, k: nat)
    requires AllDigits(t) && k <= |t|
    ensures DigitsValue(t[..k]) <= DigitsValue(t)
    decreases |t|
  {
    if k < |t| {
      assert t[..|t| - 1][..k] == t[..k];
      DigitsValuePrefix(t[..|t| - 1], k);
    } else {
      assert t[..k] == t;
    }
  }

  lemma {:induction false} DigitRunCovers(t: string, k: nat)
    requires k <= |t| && AllDigits(t[..k])
    ensures k <= DigitRun(t)
    decreases k
  {
    if k > 0 {
      assert IsDigit(t[..k][0]);
      assert t[1..][..k - 1] == t[..k][1..];
      DigitRunCovers(t[1..], k - 1);
    }
  }

  /** Every digit prefix of a str_to_int argument that fits keeps fitting. */
  lemma PrefixFits(body: string, j: nat)
    requires j <= |body| && AllDigits(body[..j])
    requires DigitsValue(body[..DigitRun(body)]) <= INT_MAX
    ensures DigitsValue(body[..j]) <= INT_MAX
  {
    DigitRunCovers(body, j);
    assert body[..DigitRun(body)][..j] == body[..j];
    DigitsValuePrefix(body[..DigitRun(body)], j);
  }

  /** Reading one more digit multiplies the value so far by ten and adds it. */
  lemma DigitsValueSnoc(t: string, c: char)
    requires AllDigits(t) && IsDigit(c)
    ensures AllDigits(t + [c])
    ensures DigitsValue(t + [c]) == DigitsValue(t) * 10 + (c as int - '0' as int)
  {
    assert (t + [c])[..|t|] == t;
  }

  /** One more digit read by str_to_int: the value so far times ten plus the digit. */
  lemma ReadDigit(body: string, k: nat)
    requires k < |body| && AllDigits(body[..k]) && IsDigit(body[k])
    ensures body[..k + 1] == body[..k] + [body[k]]
    ensures AllDigits(body[..k + 1])
    ensures DigitsValue(body[..k + 1]) == DigitsValue(body[..k]) * 10 + (body[k] as int - '0' as int)
  {
    var t, c := body[..k], body[k];
    assert body[..k + 1] == t + [c];
    DigitsValueSnoc(t, c);
  }

  /** str_to_int. */
  method StrToInt(s: seq<char>) returns (r: int32)
    requires '\0' in s
    requires FitsInt(CStr(s))
    ensures r as int == IntOfText(CStr(s))
  {
    ghost var t := CStr(s);
    ghost var body := Unsigned(t);
    var result: int32 := 0;
    var sign: int32 := 1;
    var i := 0;
    if s[0] == '-' {
      sign := -1;
      i := 1;
    }
    var start := i;
    assert body == s[start..CLen(s)];
    while s[i] != '\0'
      invariant start <= i <= CLen(s)
      invariant AllDigits(body[..i - start])
      invariant result as int == DigitsValue(body[..i - start])
      decreases CLen(s) - i
    {
      assert i != CLen(s);
      if '0' <= s[i] <= '9' {
        assert body[i - start] == s[i];
        ReadDigit(body, i - start);
        PrefixFits(body, i - start + 1);
        var d := (s[i] as int - '0' as int) as int32;
        result := result * 10 + d;
        i := i + 1;
      } else {
        assert !AllDigits(body) by {
          assert body[i - start] == s[i];
        }
        return 0;
      }
    }
    assert body[..i - start] == body;
    r := result * sign;
  }

  function DigitChar(d: int): char
    requires 0 <= d < 10
  {
    ('0' as int + d) as char
  }

  /** Decimal digits of n, most significant first ("0" for zero). */
  function NatDigits(n: nat): (t: string)
    ensures |t| > 0 && AllDigits(t)
  {
    if n < 10 then [DigitChar(n)]
    else NatDigits(n / 10) + [DigitChar(n % 10)]
  }

  /** The decimal form int_to_str writes: a '-' for negatives, then the digits. */
  function Decimal(n: int): string {
    if n < 0 then "-" + NatDigits(-n) else NatDigits(n)
  }

  lemma {:induction false} NatDigitsValue(n: nat)
    ensures DigitsValue(NatDigits(n)) == n
  {
    var t := NatDigits(n);
    if n >= 10 {
      assert t[..|t| - 1] == NatDigits(n / 10);
      NatDigitsValue(n / 10);
    }
  }

  /** str_to_int reads back what int_to_str writes. */
  lemma DecimalRoundTrip(n: int)
    ensures IntOfText(Decimal(n)) == n
  {
    if n < 0 {
      assert Unsigned(Decimal(n)) == NatDigits(-n);
      NatDigitsValue(-n);
    } else {
      assert IsDigit(NatDigits(n)[0]);
      NatDigitsValue(n);
    }
  }

  /** The decimal form contains no character other than digits and '-'. */
  lemma DecimalAlphabet(n: int)
    ensures forall i | 0 <= i < |Decimal(n)| :: IsDigit(Decimal(n)[i]) || Decimal(n)[i] == '-'
  {
  }

  function Reverse(s: string): (r: string)
    ensures |r| == |s|
  {
    if s == [] then [] else Reverse(s[1..]) + [s[0]]
  }

  lemma {:induction false} ReverseAt(s: string, k: nat)
    requires k < |s|
    ensures Reverse(s)[k] == s[|s| - 1 - k]
  {
    if k < |s| - 1 {
      ReverseAt(s[1..], k);
    }
  }

  lemma {:induction false} ReverseSnoc(s: string, c: char)
    ensures Reverse(s + [c]) == [c] + Reverse(s)
  {
    var a, b := Reverse(s + [c]), [c] + Reverse(s);
    forall k | 0 <= k < |a| ensures a[k] == b[k] {
      ReverseAt(s + [c], k);
      if k > 0 { ReverseAt(s, k - 1); }
    }
  }

  /** The digits of n, least significant first, as int_to_str's first loop writes them. */
  function RevDigits(n: nat): string {
    if n == 0 then [] else [DigitChar(n % 10)] + RevDigits(n / 10)
  }

  lemma {:induction false} RevDigitsReversed(n: nat)
    requires n > 0
    ensures Reverse(RevDigits(n)) == NatDigits(n)
  {
    var t := RevDigits(n / 10);
    assert RevDigits(n) == [DigitChar(n % 10)] + t;
    assert ([DigitChar(n % 10)] + t)[1..] == t;
    if n >= 10 {
      RevDigitsReversed(n / 10);
    }
  }

  /** The loop at the end of int_to_str: reverses str[0..len) in place. */
  method ReversePrefix(str: array<char>, len: nat)
    requires len <= str.Length
    modifies str
    ensures str[..len] == Reverse(old(str[..len]))
    ensures forall k | len <= k < str.Length :: str[k] == old(str[k])
  {
    ghost var w := str[..len];
    var lo, hi := 0, len - 1;
    while lo < hi
      invariant 0 <= lo && hi == len - 1 - lo && lo <= len
      invariant forall k | 0 <= k < len && (k < lo || hi < k) :: str[k] == old(str[len - 1 - k])
      invariant forall k | lo <= k <= hi :: str[k] == old(str[k])
      invariant forall k | len <= k < str.Length :: str[k] == old(str[k])
    {
      str[lo], str[hi] := str[hi], str[lo];
      lo, hi := lo + 1, hi - 1;
    }
    forall k | 0 <= k < len ensures str[k] == Reverse(w)[k] {
      ReverseAt(w, k);
    }
  }

  /** int_to_str: writes the decimal form and a terminator, reversing the digits in place. */
  method IntToStr(num: int32, str: array<char>)
    requires num as int != INT_MIN
    requires |Decimal(num as int)| < str.Length
    modifies str
    ensures str[..|Decimal(num as int)| + 1] == Decimal(num as int) + ['\0']
    ensures forall k | |Decimal(num as int)| < k < str.Length :: str[k] == old(str[k])
  {
    var n := num;
    var i := 0;
    var isNegative := false;
    if n < 0 {
      isNegative := true;
      n := -n;
    }
    if n == 0 {
      str[i] := '0';
      i := i + 1;
      str[i] := '\0';
      return;
    }
    ghost var n0: nat := n as int;
    ghost var sign := if isNegative then "-" else "";
    ReversedDecimal(num as int);
    i := PutRevDigits(n, str);
    if isNegative {
      str[i] := '-';
      i := i + 1;
    }
    assert str[..i] == RevDigits(n0) + sign;
    TerminateReversed(str, i, RevDigits(n0) + sign);
  }

  /** The digits of x, least significant first, then its sign, reversed: its decimal form. */
  lemma ReversedDecimal(x: int)
    requires x != 0
    ensures var a: nat := if x < 0 then -x else x;
      Reverse(RevDigits(a) + (if x < 0 then "-" else "")) == Decimal(x)
      && |Decimal(x)| == |RevDigits(a)| + (if x < 0 then 1 else 0)
  {
    var a: nat := if x < 0 then -x else x;
    RevDigitsReversed(a);
    if x < 0 {
      ReverseSnoc(RevDigits(a), '-');
    } else {
      assert RevDigits(a) + "" == RevDigits(a);
    }
  }

  /** The end of int_to_str: the terminator after the i characters written, then their reversal. */
  method TerminateReversed(str: array<char>, i: nat, ghost w: string)
    requires i < str.Length && str[..i] == w
    modifies str
    ensures str[..i + 1] == Reverse(w) + ['\0']
    ensures forall k | i < k < str.Length :: str[k] == old(str[k])
  {
    str[i] := '\0';
    assert str[..i] == w;
    ReversePrefix(str, i);
    assert str[..i + 1] == str[..i] + [str[i]];
  }

  /** The digit loop of int_to_str: the digits of n, least significant first, from index 0. */
  method PutRevDigits(n: int32, str: array<char>) returns (i: nat)
    requires 0 < n as int && |RevDigits(n as int)| < str.Length
    modifies str
    ensures i == |RevDigits(n as int)| && str[..i] == RevDigits(n as int)
    ensures forall k | i <= k < str.Length :: str[k] == old(str[k])
  {
    ghost var n0: nat := n as int;
    var m := n;
    i := 0;
    while m != 0
      invariant 0 <= m as int <= n0
      invariant i + |RevDigits(m as int)| == |RevDigits(n0)|
      invariant str[..i] + RevDigits(m as int) == RevDigits(n0)
      invariant forall k | i <= k < str.Length :: str[k] == old(str[k])
      decreases m
    {
      var digit := m % 10;
      assert RevDigits(m as int) == [DigitChar(digit as int)] + RevDigits((m / 10) as int);
      str[i] := DigitChar(digit as int);
      i := i + 1;
      m := m / 10;
    }
    assert str[..i] == RevDigits(n0);
  }

  // ---------------------------------------------------------------------------
  // Keyboard input

  /**
   * The line editor of kgets: given what is typed so far and the keys still to
   * come, the final line and the number of keys read.  Reading stops once
   * max-1 characters are kept or at a newline; backspace drops the last kept
   * character; other keys outside 32..126 are ignored.
   */
  function TypeLine(line: string, keys: seq<char>, max: int): (string, nat)
    decreases |keys|
  {
    if |line| >= max - 1 || keys == [] then (line, 0)
    else if keys[0] == '\n' then (line, 1)
    else
      var rest := TypeLine(TypeKey(line, keys[0]), keys[1..], max);
      (rest.0, rest.1 + 1)
  }

  /** kgets: fills `buf` from the key stream; returns how many keys it read. */
  method KGets(buf: array<char>, max: int, keys: seq<char>) returns (used: nat)
    requires 0 < buf.Length && max <= buf.Length
    requires '\n' in keys
    modifies buf
    ensures used == TypeLine([], keys, max).1
    ensures |TypeLine([], keys, max).0| < buf.Length
    ensures buf[..|TypeLine([], keys, max).0| + 1] == TypeLine([], keys, max).0 + ['\0']
  {
    ghost var final := TypeLine([], keys, max);
    var i := 0;
    var k := 0;
    while i < max - 1
      invariant 0 <= i < buf.Length && k <= |keys|
      invariant '\n' in keys[k..]
      invariant TypeLine(buf[..i], keys[k..], max) == (final.0, final.1 - k)
      decreases |keys| - k
    {
      var c := keys[k];
      ghost var line, ks := buf[..i], keys[k..];
      assert ks[0] == c && ks[1..] == keys[k + 1..];
      k := k + 1;
      if c == '\n' {
        assert final == (line, k);
        break;
      }
      i := PutKey(buf, i, c);
      assert TypeLine(buf[..i], keys[k..], max) == (final.0, final.1 - k) by {
        TypeLineStep(line, ks, max);
      }
    }
    assert final == (buf[..i], k);
    buf[i] := '\0';
    assert buf[..i + 1] == final.0 + ['\0'];
    used := k;
  }

  /** One key of kgets' loop applied to buf[0..i): backspace, a printable character, or nothing. */
  method PutKey(buf: array<char>, i: nat, c: char) returns (j: nat)
    requires i + 1 < buf.Length
    modifies buf
    ensures j <= i + 1 && buf[..j] == TypeKey(old(buf[..i]), c)
  {
    ghost var kept := buf[..i];
    j := i;
    if c == BS && i > 0 {
      j := i - 1;
    } else if 32 <= c as int <= 126 {
      buf[i] := c;
      assert buf[..i + 1] == kept + [c];
      j := i + 1;
    }
  }

  /** Only keys before the first newline are looked at. */
  function BeforeNewline(keys: seq<char>): seq<char> {
    if keys == [] || keys[0] == '\n' then [] else [keys[0]] + BeforeNewline(keys[1..])
  }

  function Printables(s: seq<char>): string {
    if s == [] then [] else (if IsPrintable(s[0]) then [s[0]] else []) + Printables(s[1..])
  }

  function Take(s: string, n: int): string {
    if n <= 0 then [] else if n >= |s| then s else s[..n]
  }

  /** One key of the line editor, for a line that still has room and a key that is not a newline. */
  function TypeKey(line: string, c: char): string {
    if c == BS && |line| > 0 then line[..|line| - 1]
    else if IsPrintable(c) then line + [c]
    else line
  }

  lemma TypeLineStep(line: string, keys: seq<char>, max: int)
    requires |line| < max - 1 && keys != [] && keys[0] != '\n'
    ensures TypeLine(line, keys, max) ==
            (TypeLine(TypeKey(line, keys[0]), keys[1..], max).0,
             TypeLine(TypeKey(line, keys[0]), keys[1..], max).1 + 1)
  {
  }

  lemma TakeCons(c: char, p: string, n: int)
    requires n >= 1
    ensures Take([c] + p, n) == [c] + Take(p, n - 1)
  {
    if n - 1 > 0 && n - 1 < |p| {
      assert ([c] + p)[..n] == [c] + p[..n - 1];
    }
  }

  /**
   * Without backspaces, kgets keeps the first max-1 printable characters typed
   * before the newline, and nothing else.
   */
  lemma {:induction false} TypeLineWithoutBackspace(line: string, keys: seq<char>, max: int)
    requires BS !in keys
    ensures TypeLine(line, keys, max).0 ==
            line + Take(Printables(BeforeNewline(keys)), max - 1 - |line|)
    decreases |keys|
  {
    if |line| >= max - 1 || keys == [] {
    } else if keys[0] == '\n' {
    } else {
      assert BS !in keys[1..] by {
        assert keys == [keys[0]] + keys[1..];
      }
      TypeLineWithoutBackspace(TypeKey(line, keys[0]), keys[1..], max);
      WithoutBackspaceStep(line, keys, max);
    }
  }

  /** The step of TypeLineWithoutBackspace: one key that is not a newline, typed with room left. */
  lemma WithoutBackspaceStep(line: string, keys: seq<char>, max: int)
    requires |line| < max - 1 && keys != [] && keys[0] != '\n' && keys[0] != BS
    requires var line' := TypeKey(line, keys[0]);
      TypeLine(line', keys[1..], max).0 ==
      line' + Take(Printables(BeforeNewline(keys[1..])), max - 1 - |line'|)
    ensures TypeLine(line, keys, max).0 ==
            line + Take(Printables(BeforeNewline(keys)), max - 1 - |line|)
  {
    var c, rest := keys[0], keys[1..];
    var n := max - 1 - |line|;
    var p := Printables(BeforeNewline(rest));
    var line' := TypeKey(line, c);
    TypeLineStep(line, keys, max);
    PrintablesStep(keys);
    if IsPrintable(c) {
      TypedPrintable(line, line', c, p, Printables(BeforeNewline(keys)), n, TypeLine(line', rest, max).0);
    }
  }

  /** A printable key joins the line and heads what is kept of the printables. */
  lemma TypedPrintable(line: string, line': string, c: char, p: string, ps: string, n: int, x: string)
    requires n >= 1 && line' == line + [c] && ps == [c] + p
    requires x == line' + Take(p, n - 1)
    ensures x == line + Take(ps, n)
  {
    TakeCons(c, p, n);
    assert line + ([c] + Take(p, n - 1)) == line' + Take(p, n - 1);
  }

  /** The printable keys before the newline, one key at a time. */
  lemma PrintablesStep(keys: seq<char>)
    requires keys != [] && keys[0] != '\n'
    ensures var p := Printables(BeforeNewline(keys[1..]));
      Printables(BeforeNewline(keys)) == (if IsPrintable(keys[0]) then [keys[0]] + p else p)
  {
    var c := keys[0];
    assert BeforeNewline(keys) == [c] + BeforeNewline(keys[1..]);
    assert ([c] + BeforeNewline(keys[1..]))[1..] == BeforeNewline(keys[1..]);
  }

  predicate AllPrintable(s: string) {
    forall i | 0 <= i < |s| :: IsPrintable(s[i])
  }

  lemma TypeKeyPrintable(line: string, c: char)
    requires AllPrintable(line)
    ensures AllPrintable(TypeKey(line, c)) && |TypeKey(line, c)| <= |line| + 1
  {
  }

  /**
   * kgets never keeps more than max-1 characters, keeps only characters in
   * 32..126, and reads no key past the first newline.
   */
  lemma {:induction false} TypeLineBounds(line: string, keys: seq<char>, max: int)
    requires |line| <= max - 1 || line == []
    requires AllPrintable(line)
    ensures var (out, used) := TypeLine(line, keys, max);
      && (|out| <= max - 1 || out == [])
      && AllPrintable(out)
      && used <= |keys|
      && (forall j | 0 <= j < used - 1 :: keys[j] != '\n')
    decreases |keys|
  {
    if |line| >= max - 1 || keys == [] {
    } else if keys[0] == '\n' {
    } else {
      var next := TypeKey(line, keys[0]);
      TypeLineStep(line, keys, max);
      TypeKeyPrintable(line, keys[0]);
      TypeLineBounds(next, keys[1..], max);
      var used := TypeLine(next, keys[1..], max).1;
      forall j | 0 <= j < used ensures keys[j] != '\n' {
        if j > 0 { assert keys[j] == keys[1..][j - 1]; }
      }
    }
  }

  // Scancode set 1 to ASCII for key presses 0x00..0x7F (US layout), in the
  // rows of the C table.
  const KeysRow0: seq<char> :=    // 0x00..0x0E
    [ '\0', '\0', '1', '2', '3', '4', '5', '6', '7', '8', '9', '0', '-', '=', BS ]
  const KeysRow1: seq<char> :=    // 0x0F..0x1C
    [ '\t', 'q', 'w', 'e', 'r', 't', 'y', 'u', 'i', 'o', 'p', '[', ']', '\n' ]
  const KeysRow2: seq<char> :=    // 0x1D..0x2B
    [ '\0', 'a', 's', 'd', 'f', 'g', 'h', 'j', 'k', 'l', ';', '\'', '`', '\0', '\\' ]
  const KeysRow3: seq<char> :=    // 0x2C..0x3A
    [ 'z', 'x', 'c', 'v', 'b', 'n', 'm', ',', '.', '/', '\0', '*', '\0', ' ', '\0' ]
  const Unmapped: seq<char> :=    // a row of 15 keys without a character
    [ '\0', '\0', '\0', '\0', '\0', '\0', '\0', '\0', '\0', '\0', '\0', '\0', '\0', '\0', '\0' ]
  const Keymap: seq<char> :=
    KeysRow0 + KeysRow1 + KeysRow2 + KeysRow3 + Unmapped + Unmapped + Unmapped + Unmapped + Unmapped[..9]

  /** The characters kgetchar can deliver. */
  predicate IsKeyChar(c: char) {
    c == '\0' || c == BS || c == '\t' || c == '\n' || IsPrintable(c)
  }

  lemma KeymapChars()
    ensures |Keymap| == 128
    ensures forall i | 0 <= i < 128 :: IsKeyChar(Keymap[i])
  {
    forall i | 0 <= i < |KeysRow0| ensures IsKeyChar(KeysRow0[i]) { if i < 8 {} else {} }
    forall i | 0 <= i < |KeysRow1| ensures IsKeyChar(KeysRow1[i]) { if i < 8 {} else {} }
    forall i | 0 <= i < |KeysRow2| ensures IsKeyChar(KeysRow2[i]) { if i < 8 {} else {} }
    forall i | 0 <= i < |KeysRow3| ensures IsKeyChar(KeysRow3[i]) { if i < 8 {} else {} }
    forall i | 0 <= i < |Unmapped| ensures IsKeyChar(Unmapped[i]) { if i < 8 {} else {} }
  }

  /**
   * The decoding step of kgetchar for a scancode read from port 0x60: key
   * presses go through the keymap, key releases (0x80 and up) give NUL.  Every
   * result is NUL, backspace, tab, newline or a printable character.
   */
  function KGetChar(scancode: Byte): (c: char)
    ensures scancode >= 0x80 ==> c == '\0'
    ensures IsKeyChar(c)
  {
    KeymapChars();
    if scancode < 0x80 then Keymap[scancode] else '\0'
  }

  /** The keys the line editors depend on. */
  lemma KeymapSpecialKeys()
    ensures KGetChar(0x0E) == BS && KGetChar(0x1C) == '\n' && KGetChar(0x39) == ' '
    ensures KGetChar(0x01) == '\0' && KGetChar(0x1D) == '\0' && KGetChar(0x2A) == '\0'
  {
    KeymapChars();
  }
}
