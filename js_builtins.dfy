/**
  The handful of JavaScript built-ins that the blog's server and page scripts
  lean on: String.prototype.trim, toLowerCase, includes and split(' '),
  the global parseInt, and the decimal rendering of an integer.  Each is
  written out from the ECMAScript definition so that the rest of the model
  can state what the scripts do with them.
 */
module JsBuiltins {

  datatype Option<+T> = None | Some(value: T) {
    function GetOr(default: T): T {
      match this
      case Some(v) => v
      case None => default
    }
  }

  // ---------------------------------------------------------------------
  // White space (ECMAScript WhiteSpace and LineTerminator productions)
  // ---------------------------------------------------------------------

  /** The characters trim() removes and parseInt() skips. */
  predicate IsSpace(c: char) {
    || c == '\t' || c == '\n' || c == '\U{000B}' || c == '\U{000C}' || c == '\r'
    || c == ' ' || c == '\U{00A0}' || c == '\U{1680}'
    || ('\U{2000}' <= c <= '\U{200A}')
    || c == '\U{2028}' || c == '\U{2029}' || c == '\U{202F}' || c == '\U{205F}'
    || c == '\U{3000}' || c == '\U{FEFF}'
  }

  /** s with its leading white space removed. */
  function TrimStart(s: string): (r: string)
    ensures |r| <= |s| && r == s[|s| - |r|..]
    ensures r == [] || !IsSpace(r[0])
    ensures forall i :: 0 <= i < |s| - |r| ==> IsSpace(s[i])
  {
    if s != [] && IsSpace(s[0]) then TrimStart(s[1..]) else s
  }

  /** s with its trailing white space removed. */
  function TrimEnd(s: string): (r: string)
    ensures |r| <= |s| && r == s[..|r|]
    ensures r == [] || !IsSpace(r[|r| - 1])
    ensures forall i :: |r| <= i < |s| ==> IsSpace(s[i])
  {
    if s != [] && IsSpace(s[|s| - 1]) then TrimEnd(s[..|s| - 1]) else s
  }

  /** String.prototype.trim: both ends; trimmed text is left as it is. */
  function Trim(s: string): (r: string)
    ensures IsTrimmed(r)
    ensures IsTrimmed(s) ==> r == s
  {
    var t := TrimStart(s);
    var r := TrimEnd(t);
    assert r != [] ==> r[0] == t[0];
    r
  }

  predicate IsTrimmed(s: string) {
    s == [] || (!IsSpace(s[0]) && !IsSpace(s[|s| - 1]))
  }

  predicate AllSpace(s: string) {
    forall i :: 0 <= i < |s| ==> IsSpace(s[i])
  }

  /** Leading white space in front of text that does not start with any is exactly what TrimStart removes. */
  lemma TrimStartOfPadded(pre: string, x: string)
    requires AllSpace(pre) && (x == [] || !IsSpace(x[0]))
    ensures TrimStart(pre + x) == x
  {
    var s := pre + x;
    assert s[|s| - |x|..] == x;
  }

  /** Trailing white space behind text that does not end with any is exactly what TrimEnd removes. */
  lemma TrimEndOfPadded(x: string, post: string)
    requires AllSpace(post) && (x == [] || !IsSpace(x[|x| - 1]))
    ensures TrimEnd(x + post) == x
  {
    var s := x + post;
    assert s[..|x|] == x;
  }

  /** trim() gives back the text between white-space padding, whatever the padding. */
  lemma TrimPadded(pre: string, w: string, post: string)
    requires AllSpace(pre) && AllSpace(post) && IsTrimmed(w)
    ensures Trim(pre + w + post) == w
  {
    if w == [] {
      assert pre + w + post == pre + post;
      assert AllSpace(pre + post);
      TrimStartOfPadded(pre + post, []);
      assert pre + post + [] == pre + post;
    } else {
      assert pre + w + post == pre + (w + post);
      TrimStartOfPadded(pre, w + post);
      TrimEndOfPadded(w, post);
    }
  }

  lemma TrimStartSplits(s: string) returns (pre: string)
    ensures AllSpace(pre) && s == pre + TrimStart(s)
  {
    var t := TrimStart(s);
    var k := |s| - |t|;
    pre := s[..k];
    assert s == s[..k] + s[k..];
    forall i | 0 <= i < k ensures IsSpace(pre[i]) {
      assert pre[i] == s[i];
    }
  }

  lemma TrimEndSplits(s: string) returns (post: string)
    ensures AllSpace(post) && s == TrimEnd(s) + post
  {
    var u := TrimEnd(s);
    var k := |u|;
    post := s[k..];
    assert s == s[..k] + s[k..];
    forall i | 0 <= i < |post| ensures IsSpace(post[i]) {
      assert post[i] == s[k + i];
    }
  }

  lemma Associative(a: string, b: string, c: string)
    ensures a + (b + c) == a + b + c
  {
  }

  /** Conversely every string is its trim() padded with white space on both sides. */
  lemma TrimSplits(s: string) returns (pre: string, post: string)
    ensures AllSpace(pre) && AllSpace(post)
    ensures s == pre + Trim(s) + post
  {
    var t := TrimStart(s);
    pre := TrimStartSplits(s);
    post := TrimEndSplits(t);
    Associative(pre, TrimEnd(t), post);
  }

  // ---------------------------------------------------------------------
  // Case mapping
  // ---------------------------------------------------------------------

  function LowerChar(c: char): (d: char)
    ensures !('A' <= d <= 'Z')
    ensures IsSpace(d) <==> IsSpace(c)
  {
    if 'A' <= c <= 'Z' then (c as int - 'A' as int + 'a' as int) as char else c
  }

  /** String.prototype.toLowerCase, restricted to the letters A to Z. */
  function Lower(s: string): (r: string)
    ensures |r| == |s|
    ensures forall i :: 0 <= i < |s| ==> r[i] == LowerChar(s[i])
  {
    if s == [] then [] else [LowerChar(s[0])] + Lower(s[1..])
  }

  predicate IsLower(s: string) {
    forall i :: 0 <= i < |s| ==> !('A' <= s[i] <= 'Z')
  }

  lemma LowerIsLower(s: string)
    ensures IsLower(Lower(s))
    ensures IsLower(s) ==> Lower(s) == s
  {
  }

  /** Trimming keeps a lowercase string lowercase: what is left is a piece of it. */
  lemma TrimKeepsLower(s: string)
    requires IsLower(s)
    ensures IsLower(Trim(s))
  {
    var t := TrimStart(s);
    assert IsLower(t) by {
      forall i | 0 <= i < |t| ensures !('A' <= t[i] <= 'Z') {
        assert t[i] == s[|s| - |t| + i];
      }
    }
  }

  /** toLowerCase works character by character, so it distributes over concatenation. */
  lemma LowerConcat(a: string, b: string)
    ensures Lower(a + b) == Lower(a) + Lower(b)
  {
    assert forall i :: 0 <= i < |a + b| ==> (a + b)[i] == if i < |a| then a[i] else b[i - |a|];
  }

  /** toLowerCase keeps white space white space. */
  lemma LowerKeepsSpace(s: string)
    requires AllSpace(s)
    ensures AllSpace(Lower(s))
  {
  }

  /** Lowering keeps a trimmed string trimmed, since no white space is a capital letter. */
  lemma LowerKeepsTrimmed(s: string)
    requires IsTrimmed(s)
    ensures IsTrimmed(Lower(s))
  {
  }

  // ---------------------------------------------------------------------
  // includes
  // ---------------------------------------------------------------------

  /** String.prototype.includes: q occurs in s at some position. */
  predicate Includes(s: string, q: string)
    decreases |s|
  {
    q <= s || (s != [] && Includes(s[1..], q))
  }

  lemma {:induction false} IncludesAt(s: string, q: string, i: nat)
    requires i + |q| <= |s| && s[i..i + |q|] == q
    ensures Includes(s, q)
    decreases i
  {
    if i > 0 {
      assert s[1..][i - 1..i - 1 + |q|] == q;
      IncludesAt(s[1..], q, i - 1);
    }
  }

  lemma {:induction false} IncludesWitness(s: string, q: string) returns (i: nat)
    requires Includes(s, q)
    ensures i + |q| <= |s| && s[i..i + |q|] == q
    decreases |s|
  {
    if q <= s {
      i := 0;
    } else {
      var j := IncludesWitness(s[1..], q);
      i := j + 1;
      assert s[i..i + |q|] == s[1..][j..j + |q|];
    }
  }

  /** q occurs in s starting at position i. */
  predicate OccursAt(s: string, q: string, i: int) {
    0 <= i && i + |q| <= |s| && s[i..i + |q|] == q
  }

  /** includes is exactly "occurs at some position". */
  lemma IncludesIff(s: string, q: string)
    ensures Includes(s, q) <==> exists i :: OccursAt(s, q, i)
  {
    if Includes(s, q) {
      var i := IncludesWitness(s, q);
      assert OccursAt(s, q, i);
    }
    if exists i :: OccursAt(s, q, i) {
      var i :| OccursAt(s, q, i);
      IncludesAt(s, q, i);
    }
  }

  // ---------------------------------------------------------------------
  // Subsequences (what Array.prototype.filter keeps)
  // ---------------------------------------------------------------------

  /** a is b with some elements left out, the rest in the same order. */
  predicate IsSubsequence<T(==)>(a: seq<T>, b: seq<T>)
    decreases |b|
  {
    a == [] || (b != [] && (if a[0] == b[0] then IsSubsequence(a[1..], b[1..]) else IsSubsequence(a, b[1..])))
  }

  lemma {:induction false} SubsequenceMembers<T>(a: seq<T>, b: seq<T>)
    requires IsSubsequence(a, b)
    ensures forall x :: x in a ==> x in b
    decreases |b|
  {
    if a != [] {
      if a[0] == b[0] {
        SubsequenceMembers(a[1..], b[1..]);
        assert a == [a[0]] + a[1..];
      } else {
        SubsequenceMembers(a, b[1..]);
      }
    }
  }

  // ---------------------------------------------------------------------
  // split(' ')
  // ---------------------------------------------------------------------

  /** String.prototype.split with a one-character separator. */
  function Split(s: string, sep: char): (r: seq<string>)
    ensures |r| >= 1
    ensures forall k :: 0 <= k < |r| ==> sep !in r[k]
  {
    if s == [] then [""]
    else if s[0] == sep then [""] + Split(s[1..], sep)
    else
      var rest := Split(s[1..], sep);
      [[s[0]] + rest[0]] + rest[1..]
  }

  /** The pieces joined back with the separator. */
  function Join(pieces: seq<string>, sep: char): string
    requires |pieces| >= 1
  {
    if |pieces| == 1 then pieces[0] else pieces[0] + [sep] + Join(pieces[1..], sep)
  }

  /** split loses nothing: joining its pieces gives back the string. */
  lemma {:induction false} SplitJoin(s: string, sep: char)
    ensures Join(Split(s, sep), sep) == s
  {
    if s == [] {
    } else if s[0] == sep {
      SplitJoin(s[1..], sep);
      assert [""] + Split(s[1..], sep) == Split(s, sep);
      assert Split(s, sep)[1..] == Split(s[1..], sep);
    } else {
      var rest := Split(s[1..], sep);
      SplitJoin(s[1..], sep);
      var r := Split(s, sep);
      assert r[0] == [s[0]] + rest[0];
      if |rest| == 1 {
      } else {
        assert r[1..] == rest[1..];
      }
    }
  }

  /** Splitting a word, a separator and the remainder. */
  lemma {:induction false} SplitFirstWord(w: string, t: string, sep: char)
    requires sep !in w
    ensures Split(w + [sep] + t, sep) == [w] + Split(t, sep)
    decreases |w|
  {
    if w == [] {
      assert [sep] + t == w + [sep] + t;
      assert ([sep] + t)[1..] == t;
    } else {
      SplitFirstWord(w[1..], t, sep);
      assert (w + [sep] + t)[1..] == w[1..] + [sep] + t;
      assert [w[0]] + w[1..] == w;
    }
  }

  /** The first piece runs past a word with no separator when no separator follows it. */
  lemma {:induction false} SplitHeadLonger(w: string, t: string, sep: char)
    requires sep !in w && t != [] && t[0] != sep
    ensures |Split(w + t, sep)[0]| > |w|
    decreases |w|
  {
    if w == [] {
      assert w + t == t;
    } else {
      SplitHeadLonger(w[1..], t, sep);
      assert (w + t)[1..] == w[1..] + t;
    }
  }

  lemma {:induction false} SplitNoSep(t: string, sep: char)
    requires sep !in t
    ensures Split(t, sep) == [t]
    decreases |t|
  {
    if t != [] {
      SplitNoSep(t[1..], sep);
      assert [t[0]] + t[1..] == t;
    }
  }

  // ---------------------------------------------------------------------
  // Decimal rendering of an integer (Number.prototype.toString for safe integers)
  // ---------------------------------------------------------------------

  predicate IsDigit(c: char) {
    '0' <= c <= '9'
  }

  function DigitChar(d: nat): (c: char)
    requires d < 10
    ensures IsDigit(c)
  {
    ('0' as int + d) as char
  }

  function Digits(n: nat): (r: string)
    ensures |r| >= 1 && forall i :: 0 <= i < |r| ==> IsDigit(r[i])
  {
    if n < 10 then [DigitChar(n)] else Digits(n / 10) + [DigitChar(n % 10)]
  }

  /** The decimal rendering of an integer (`${n}`): an optional minus, then digits without a leading zero. */
  function IntToString(n: int): (r: string)
    ensures |r| >= 1
    ensures r[0] == '-' <==> n < 0
    ensures n >= 0 ==> IsDigit(r[0])
    ensures forall i :: 0 < i < |r| ==> IsDigit(r[i])
    ensures n != 0 ==> r[0] != '0' && (n < 0 ==> |r| >= 2 && r[1] != '0')
  {
    if n < 0 then
      DigitsLead(-n);
      "-" + Digits(-n)
    else
      assert n != 0 ==> Digits(n)[0] != '0' by {
        if n != 0 {
          DigitsLead(n);
        }
      }
      Digits(n)
  }

  // ---------------------------------------------------------------------
  // parseInt (ECMAScript section 19.2.5, radix left undefined)
  // ---------------------------------------------------------------------

  function DigitValue(c: char): int {
    if '0' <= c <= '9' then c as int - '0' as int
    else if 'a' <= c <= 'z' then c as int - 'a' as int + 10
    else if 'A' <= c <= 'Z' then c as int - 'A' as int + 10
    else 36
  }

  predicate IsRadixDigit(c: char, radix: nat) {
    DigitValue(c) < radix
  }

  /** Length of the longest prefix of s made of radix digits. */
  function DigitRun(s: string, radix: nat): (n: nat)
    ensures n <= |s|
    ensures forall i :: 0 <= i < n ==> IsRadixDigit(s[i], radix)
    ensures n < |s| ==> !IsRadixDigit(s[n], radix)
  {
    if s != [] && IsRadixDigit(s[0], radix) then 1 + DigitRun(s[1..], radix) else 0
  }

  /** The value of a string of radix digits, most significant first. */
  function DigitsValue(s: string, radix: nat): int {
    if s == [] then 0 else DigitsValue(s[..|s| - 1], radix) * radix + DigitValue(s[|s| - 1])
  }

  function Sign(s: string): int {
    if s != [] && s[0] == '-' then -1 else 1
  }

  function Unsigned(s: string): string {
    if s != [] && (s[0] == '-' || s[0] == '+') then s[1..] else s
  }

  predicate HexPrefix(s: string) {
    |s| >= 2 && s[0] == '0' && (s[1] == 'x' || s[1] == 'X')
  }

  /**
    parseInt(s): skip leading white space, take an optional sign, then a
    "0x"/"0X" prefix switches to radix 16; the longest run of digits is the
    number, and no digit at all is NaN (None here).
   */
  function ParseInt(s: string): Option<int> {
    var t := TrimStart(s);
    var u := Unsigned(t);
    var radix := if HexPrefix(u) then 16 else 10;
    var body := if radix == 16 then u[2..] else u;
    var n := DigitRun(body, radix);
    if n == 0 then None else Some(Sign(t) * DigitsValue(body[..n], radix))
  }

  /**
    What parseInt promises whatever the text: white space alone is NaN, a
    negative number needs its minus sign, and a leading digit (without "0x")
    always gives a non-negative number.
   */
  lemma ParseIntShape(s: string)
    ensures AllSpace(s) ==> ParseInt(s).None?
    ensures ParseInt(s).Some? ==> TrimStart(s) != [] && (ParseInt(s).value < 0 ==> TrimStart(s)[0] == '-')
    ensures var t := TrimStart(s); t != [] && IsDigit(t[0]) && !HexPrefix(t) ==> ParseInt(s).Some? && ParseInt(s).value >= 0
  {
    var t := TrimStart(s);
    assert AllSpace(s) ==> t == [];
    var u := Unsigned(t);
    var body := if HexPrefix(u) then u[2..] else u;
    var n := DigitRun(body, if HexPrefix(u) then 16 else 10);
    DigitsValueNonNegative(body[..n], if HexPrefix(u) then 16 else 10);
  }

  lemma {:induction false} DigitsValueNonNegative(s: string, radix: nat)
    ensures DigitsValue(s, radix) >= 0
    decreases |s|
  {
    if s != [] {
      DigitsValueNonNegative(s[..|s| - 1], radix);
    }
  }

  /** `parseInt(x) || d`: NaN and zero are falsy and give the fallback. */
  function ParseIntOr(s: Option<string>, d: int): (r: int)
    ensures s.None? ==> r == d
    ensures s.Some? && ParseInt(s.value).Some? && ParseInt(s.value).value != 0 ==> r == ParseInt(s.value).value
    ensures s.Some? && (ParseInt(s.value).None? || ParseInt(s.value).value == 0) ==> r == d
  {
    match s
    case None => d
    case Some(text) =>
      match ParseInt(text)
      case Some(v) => if v != 0 then v else d
      case None => d
  }

  lemma {:induction false} DigitsValueOfDigits(n: nat)
    ensures DigitsValue(Digits(n), 10) == n
  {
    if n >= 10 {
      var d := Digits(n);
      DigitsValueOfDigits(n / 10);
      assert d[..|d| - 1] == Digits(n / 10);
    }
  }

  lemma DigitRunOfDigits(n: nat, rest: string)
    requires rest == [] || !IsDigit(rest[0])
    ensures DigitRun(Digits(n) + rest, 10) == |Digits(n)|
  {
    var d := Digits(n);
    var s := d + rest;
    assert forall i :: 0 <= i < |d| ==> s[i] == d[i];
    if |d| < |s| {
      assert s[|d|] == rest[0];
    }
  }

  /**
    Text after the decimal rendering of n that parseInt does not read as part
    of the number: it does not start with a digit, and after a lone "0" not
    with the x of a "0x" prefix either.
   */
  predicate EndsNumber(n: int, rest: string) {
    rest == [] || (!IsDigit(rest[0]) && (n == 0 ==> rest[0] != 'x' && rest[0] != 'X'))
  }

  /** Only 0 is rendered with a leading "0". */
  lemma {:induction false} DigitsLead(m: nat)
    requires m != 0
    ensures Digits(m)[0] != '0'
    decreases m
  {
    if m >= 10 {
      DigitsLead(m / 10);
    }
  }

  /** The digits of a rendered integer start with a digit and never with "0x". */
  lemma {:induction false} DigitsShape(m: nat, rest: string)
    requires EndsNumber(m, rest)
    ensures var u := Digits(m) + rest; u != [] && IsDigit(u[0]) && !HexPrefix(u)
  {
    var d := Digits(m);
    var u := d + rest;
    assert u[0] == d[0];
    if |d| == 1 {
      if m != 0 {
        DigitsLead(m);
      }
      if |u| >= 2 {
        assert u[1] == rest[0];
      }
    } else {
      assert u[1] == d[1];
    }
  }

  /** Text that does not start with white space is left alone by TrimStart. */
  lemma {:induction false} TrimStartNoSpace(s: string)
    requires s != [] && !IsSpace(s[0])
    ensures TrimStart(s) == s
  {
  }

  /** How parseInt sees a rendered non-negative integer: no sign, no "0x". */
  lemma {:induction false} RenderedNonNegative(m: nat, rest: string)
    requires EndsNumber(m, rest)
    ensures var u := Digits(m) + rest;
      TrimStart(u) == u && Unsigned(u) == u && Sign(u) == 1 && !HexPrefix(u)
  {
    DigitsShape(m, rest);
    TrimStartNoSpace(Digits(m) + rest);
  }

  /** How parseInt sees a rendered negative integer: a minus sign, then the digits. */
  lemma {:induction false} RenderedNegative(m: nat, rest: string)
    requires EndsNumber(m, rest)
    ensures var u := Digits(m) + rest;
      var s := ['-'] + u;
      TrimStart(s) == s && Unsigned(s) == u && Sign(s) == -1 && !HexPrefix(u)
  {
    var u := Digits(m) + rest;
    DigitsShape(m, rest);
    TrimStartNoSpace(['-'] + u);
    assert (['-'] + u)[1..] == u;
  }

  /** parseInt of text with no leading space, a sign, no "0x" and a run of decimal digits d. */
  lemma {:induction false} ParseIntOfShape(s: string, u: string, d: string, sign: int, m: int)
    requires TrimStart(s) == s && Unsigned(s) == u && Sign(s) == sign && !HexPrefix(u)
    requires |d| >= 1 && DigitRun(u, 10) == |d| && u[..|d|] == d && DigitsValue(d, 10) == m
    ensures ParseInt(s) == Some(sign * m)
  {
  }

  /** parseInt reads back the digits of m. */
  lemma {:induction false} ParseIntOfDigits(s: string, m: nat, rest: string)
    requires EndsNumber(m, rest)
    requires s == Digits(m) + rest
    ensures ParseInt(s) == Some(m)
  {
    var d := Digits(m);
    DigitRunOfDigits(m, rest);
    assert s[..|d|] == d;
    DigitsValueOfDigits(m);
    RenderedNonNegative(m, rest);
    ParseIntOfShape(s, s, d, 1, m);
  }

  /** parseInt reads back the digits of m after a minus sign as -m. */
  lemma {:induction false} ParseIntOfNegated(s: string, m: nat, rest: string)
    requires EndsNumber(m, rest)
    requires s == ['-'] + (Digits(m) + rest)
    ensures ParseInt(s) == Some(-(m as int))
  {
    var d := Digits(m);
    var u := d + rest;
    DigitRunOfDigits(m, rest);
    assert u[..|d|] == d;
    DigitsValueOfDigits(m);
    RenderedNegative(m, rest);
    ParseIntOfShape(s, u, d, -1, m);
  }

  /** Text whose first character after the white space is a letter other than a hex prefix is NaN. */
  lemma {:induction false} ParseIntOfLetter(s: string, w: string)
    requires TrimStart(s) == w && w != [] && 10 <= DigitValue(w[0]) < 36
    ensures ParseInt(s).None?
  {
    assert Unsigned(w) == w && !HexPrefix(w);
    assert DigitRun(w, 10) == 0;
  }

  /**
    The "<n> min read" label round-trip: parseInt reads back the integer that
    was rendered at the front of a label, whatever follows it as long as it
    does not continue the number (EndsNumber).
   */
  lemma {:induction false} ParseIntOfRendered(n: int, rest: string)
    requires EndsNumber(n, rest)
    ensures ParseInt(IntToString(n) + rest) == Some(n)
  {
    var s := IntToString(n) + rest;
    if n < 0 {
      var m: nat := -n;
      assert IntToString(n) == ['-'] + Digits(m);
      assert s == ['-'] + (Digits(m) + rest);
      ParseIntOfNegated(s, m, rest);
    } else {
      ParseIntOfDigits(s, n, rest);
    }
  }
  /** A digit after the rendering extends the number: "5" followed by "3" reads as 53. */
  lemma DigitSuffixExtends()
    ensures ParseInt(IntToString(5) + "3") == Some(53)
  {
    var s := "53";
    assert IntToString(5) + "3" == s;
    TrimStartNoSpace(s);
    assert DigitRun(s[1..], 10) == 1;
    assert s[..2] == s && s[..1] == "5";
    ParseIntOfShape(s, s, s, 1, 53);
  }

  /** An x after a lone "0" makes a hex prefix: "0" followed by "x1" reads as 1. */
  lemma HexSuffixAfterZero()
    ensures ParseInt(IntToString(0) + "x1") == Some(1)
  {
    var h := "0x1";
    assert IntToString(0) + "x1" == h;
    TrimStartNoSpace(h);
    assert HexPrefix(Unsigned(h)) && h[2..] == "1";
    assert DigitRun("1", 16) == 1;
    assert "1"[..1] == "1";
  }
}
