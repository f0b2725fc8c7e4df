/** The JavaScript string primitives the gateway relies on (`split`, `trim`,
    `toUpperCase`, `indexOf`, `substring`, `slice`, `replace` with a literal
    global pattern, and the prefix scans behind `parseInt` and `parseFloat`),
    stated over `seq<char>`. */
module JsString {

  datatype Option<T> = None | Some(value: T)

  /** The characters matched by `\s` and removed by `trim`: white space and line terminators. */
  predicate IsWs(c: char) {
    c == ' ' || c == '\t' || c == '\n' || c == '\r' || c == '\U{B}' || c == '\U{C}'
    || c == '\U{A0}' || c == '\U{1680}' || ('\U{2000}' <= c <= '\U{200A}')
    || c == '\U{2028}' || c == '\U{2029}' || c == '\U{202F}' || c == '\U{205F}'
    || c == '\U{3000}' || c == '\U{FEFF}'
  }

  /** The characters `.` refuses to match. */
  predicate IsLineTerminator(c: char) {
    c == '\n' || c == '\r' || c == '\U{2028}' || c == '\U{2029}'
  }

  predicate IsDigit(c: char) { '0' <= c <= '9' }

  predicate IsHexDigit(c: char) { IsDigit(c) || 'a' <= c <= 'f' || 'A' <= c <= 'F' }

  /** The characters of `\w` (ASCII letters, digits and underscore). */
  predicate IsWordChar(c: char) { 'a' <= c <= 'z' || 'A' <= c <= 'Z' || IsDigit(c) || c == '_' }

  function UpperChar(c: char): char {
    if 'a' <= c <= 'z' then (c as int - 32) as char else c
  }

  /** `toUpperCase` on ASCII letters. */
  function Upper(s: string): (u: string)
    ensures |u| == |s|
  {
    seq(|s|, k requires 0 <= k < |s| => UpperChar(s[k]))
  }

  /** `s`, read case-insensitively, holds the upper-case keyword `kw` at position `i`. */
  predicate KeywordAt(s: string, i: nat, kw: string)
    ensures KeywordAt(s, i, kw) ==> i + |kw| <= |s|
    decreases |kw|
  {
    if kw == [] then i <= |s|
    else i < |s| && UpperChar(s[i]) == kw[0] && KeywordAt(s, i + 1, kw[1..])
  }

  /** Each character of a keyword found at `i` is there, up to case. */
  lemma {:induction false} KeywordAtChar(s: string, i: nat, kw: string, k: nat)
    requires KeywordAt(s, i, kw) && k < |kw|
    ensures UpperChar(s[i + k]) == kw[k]
    decreases k
  {
    if k > 0 {
      KeywordAtChar(s, i + 1, kw[1..], k - 1);
    }
  }

  /** The keyword test is the upper-cased slice compared with the keyword. */
  lemma {:induction false} KeywordAtIsUpperSlice(s: string, i: nat, kw: string)
    ensures KeywordAt(s, i, kw) <==> i + |kw| <= |s| && Upper(s[i..i + |kw|]) == kw
    decreases |kw|
  {
    if kw != [] && i < |s| {
      KeywordAtIsUpperSlice(s, i + 1, kw[1..]);
      if i + |kw| <= |s| {
        assert Upper(s[i..i + |kw|]) == [UpperChar(s[i])] + Upper(s[i + 1..i + 1 + |kw[1..]|]);
        assert kw == [kw[0]] + kw[1..];
      }
    }
  }

  /** A keyword made of two parts is the first part followed by the second. */
  lemma {:induction false} KeywordAtConcat(s: string, i: nat, a: string, b: string)
    ensures KeywordAt(s, i, a + b) <==> KeywordAt(s, i, a) && KeywordAt(s, i + |a|, b)
    decreases |a|
  {
    if a == [] {
      assert a + b == b;
    } else {
      assert (a + b)[0] == a[0];
      assert (a + b)[1..] == a[1..] + b;
      KeywordAtConcat(s, i + 1, a[1..], b);
    }
  }

  /** An upper-case keyword written out in the text is found there. */
  lemma KeywordAtOfLiteral(s: string, i: nat, kw: string)
    requires i + |kw| <= |s| && s[i..i + |kw|] == kw
    requires forall k :: 0 <= k < |kw| ==> UpperChar(kw[k]) == kw[k]
    ensures KeywordAt(s, i, kw)
  {
    KeywordAtIsUpperSlice(s, i, kw);
    assert Upper(kw) == kw;
  }

  /** `s` holds `lit` exactly (case-sensitively) at position `i`. */
  predicate LiteralAt(s: string, i: nat, lit: string) {
    i + |lit| <= |s| && s[i..i + |lit|] == lit
  }

  /** The end of the run of characters satisfying `p` that starts at `i`. */
  function RunEnd(s: string, i: nat, p: char -> bool): (e: nat)
    requires i <= |s|
    ensures i <= e <= |s|
    ensures forall k :: i <= k < e ==> p(s[k])
    ensures e < |s| ==> !p(s[e])
    decreases |s| - i
  {
    if i < |s| && p(s[i]) then RunEnd(s, i + 1, p) else i
  }

  /** Cutting `s` after the end of a run leaves the run's end where it was. */
  lemma {:induction false} RunEndOfPrefix(s: string, n: nat, i: nat, p: char -> bool)
    requires i <= n <= |s|
    requires RunEnd(s, i, p) <= n
    ensures RunEnd(s[..n], i, p) == RunEnd(s, i, p)
    decreases n - i
  {
    if i < n && p(s[i]) {
      assert s[..n][i] == s[i];
      RunEndOfPrefix(s, n, i + 1, p);
    } else if i < n {
      assert s[..n][i] == s[i];
    }
  }

  /** The end of the run of white space at `i`. */
  function SkipWs(s: string, i: nat): (e: nat)
    requires i <= |s|
    ensures i <= e <= |s|
    ensures forall k :: i <= k < e ==> IsWs(s[k])
    ensures e < |s| ==> !IsWs(s[e])
    decreases |s| - i
  {
    if i < |s| && IsWs(s[i]) then SkipWs(s, i + 1) else i
  }

  /** The end of the run of word characters (`\w`) at `i`. */
  function WordEnd(s: string, i: nat): (e: nat)
    requires i <= |s|
    ensures i <= e <= |s|
    ensures forall k :: i <= k < e ==> IsWordChar(s[k])
    ensures e < |s| ==> !IsWordChar(s[e])
    decreases |s| - i
  {
    if i < |s| && IsWordChar(s[i]) then WordEnd(s, i + 1) else i
  }

  /** `String.prototype.trim`: the text between the leading and the trailing
      white space, which is all that is removed. */
  function Trim(s: string): (t: string)
    ensures |t| <= |s|
    ensures t != [] ==> !IsWs(t[0]) && !IsWs(t[|t| - 1])
    ensures SkipWs(s, 0) + |t| <= |s| && t == s[SkipWs(s, 0)..SkipWs(s, 0) + |t|]
    ensures forall k :: 0 <= k < |s| && !(SkipWs(s, 0) <= k < SkipWs(s, 0) + |t|) ==> IsWs(s[k])
  {
    var i := SkipWs(s, 0);
    var t := TrimEnd(s[i..]);
    assert forall k :: i + |t| <= k < |s| ==> s[k] == s[i..][k - i];
    t
  }

  function TrimEnd(s: string): (t: string)
    ensures |t| <= |s| && t == s[..|t|]
    ensures t != [] ==> !IsWs(t[|t| - 1])
    ensures forall k :: |t| <= k < |s| ==> IsWs(s[k])
    ensures s != [] && !IsWs(s[0]) ==> t != [] && t[0] == s[0]
  {
    if s == [] then []
    else if IsWs(s[|s| - 1]) then TrimEnd(s[..|s| - 1])
    else s
  }

  /** `s.split(d)` for a one-character separator: every occurrence cuts, so
      adjacent separators produce empty pieces. */
  function Split(s: string, d: char): (parts: seq<string>)
    ensures |parts| >= 1
  {
    if s == [] then [""]
    else if s[0] == d then [""] + Split(s[1..], d)
    else var rest := Split(s[1..], d); [[s[0]] + rest[0]] + rest[1..]
  }

  /** The first piece is the text up to the first separator, or all of it. */
  lemma {:induction false} SplitHead(s: string, d: char)
    ensures var p := Split(s, d)[0];
            |p| <= |s| && s[..|p|] == p && d !in p && (|p| < |s| ==> s[|p|] == d)
  {
    if s != [] && s[0] != d {
      SplitHead(s[1..], d);
      var p := Split(s, d)[0];
      assert p == [s[0]] + Split(s[1..], d)[0];
    }
  }

  /** The first piece is the text before the first separator. */
  lemma FirstPieceIs(s: string, d: char, k: nat)
    requires k < |s| && s[k] == d && d !in s[..k]
    ensures Split(s, d)[0] == s[..k]
  {
    SplitHead(s, d);
  }

  function Join(parts: seq<string>, d: char): string {
    if parts == [] then ""
    else if |parts| == 1 then parts[0]
    else parts[0] + [d] + Join(parts[1..], d)
  }

  function Count(s: string, d: char): nat {
    if s == [] then 0 else (if s[0] == d then 1 else 0) + Count(s[1..], d)
  }

  /** Joining the pieces with the separator gives back the text. */
  lemma {:induction false} JoinSplit(s: string, d: char)
    ensures Join(Split(s, d), d) == s
  {
    if s != [] {
      JoinSplit(s[1..], d);
      var rest := Split(s[1..], d);
      if s[0] == d {
        assert Split(s, d) == [""] + rest;
        assert Split(s, d)[1..] == rest;
      } else if |rest| == 1 {
        assert s == [s[0]] + s[1..];
      } else {
        assert Split(s, d)[1..] == rest[1..];
        assert Join(rest, d) == rest[0] + [d] + Join(rest[1..], d);
        assert s == [s[0]] + s[1..];
      }
    }
  }

  /** A piece without the separator, followed by the separator, is split off whole. */
  lemma {:induction false} SplitPieceFirst(x: string, d: char, rest: string)
    requires d !in x
    ensures Split(x + [d] + rest, d) == [x] + Split(rest, d)
  {
    if x != [] {
      SplitPieceFirst(x[1..], d, rest);
      assert (x + [d] + rest)[1..] == x[1..] + [d] + rest;
      assert [x[0]] + x[1..] == x;
    } else {
      assert x + [d] + rest == [d] + rest;
      assert ([d] + rest)[1..] == rest;
    }
  }

  /** Text without the separator is one piece. */
  lemma {:induction false} SplitWithout(x: string, d: char)
    requires d !in x
    ensures Split(x, d) == [x]
  {
    if x != [] {
      SplitWithout(x[1..], d);
      assert [x[0]] + x[1..] == x;
    }
  }

  /** Splitting undoes joining when no piece holds the separator. */
  lemma {:induction false} SplitJoin(xs: seq<string>, d: char)
    requires xs != [] && forall k :: 0 <= k < |xs| ==> d !in xs[k]
    ensures Split(Join(xs, d), d) == xs
  {
    if |xs| == 1 {
      SplitWithout(xs[0], d);
    } else {
      SplitJoin(xs[1..], d);
      SplitPieceFirst(xs[0], d, Join(xs[1..], d));
      assert xs == [xs[0]] + xs[1..];
    }
  }

  /** There is one piece more than there are separators, and no piece holds one. */
  lemma {:induction false} SplitPieces(s: string, d: char)
    ensures |Split(s, d)| == Count(s, d) + 1
    ensures forall k :: 0 <= k < |Split(s, d)| ==> d !in Split(s, d)[k]
  {
    if s != [] {
      SplitPieces(s[1..], d);
      var rest := Split(s[1..], d);
      if s[0] != d {
        var parts := Split(s, d);
        forall k | 0 <= k < |parts| ensures d !in parts[k] {
          if k > 0 { assert parts[k] == rest[k]; }
        }
      }
    }
  }

  /** `s.indexOf(sub)`: the first index holding `sub`, or -1. */
  function IndexOf(s: string, sub: string): (r: int)
    ensures -1 <= r <= |s|
    ensures r >= 0 ==> LiteralAt(s, r, sub) && forall k :: 0 <= k < r ==> !LiteralAt(s, k, sub)
    ensures r == -1 ==> forall k :: 0 <= k <= |s| ==> !LiteralAt(s, k, sub)
  {
    IndexFrom(s, sub, 0)
  }

  function IndexFrom(s: string, sub: string, i: nat): (r: int)
    requires i <= |s|
    requires forall k :: 0 <= k < i ==> !LiteralAt(s, k, sub)
    ensures -1 <= r <= |s|
    ensures r >= 0 ==> LiteralAt(s, r, sub) && forall k :: 0 <= k < r ==> !LiteralAt(s, k, sub)
    ensures r == -1 ==> forall k :: 0 <= k <= |s| ==> !LiteralAt(s, k, sub)
    decreases |s| - i
  {
    if LiteralAt(s, i, sub) then i
    else if i == |s| then -1
    else IndexFrom(s, sub, i + 1)
  }

  /** `s.includes(sub)`. */
  predicate Contains(s: string, sub: string) {
    IndexOf(s, sub) >= 0
  }

  /** `s.lastIndexOf(c)` for one character. */
  function LastIndexOfChar(s: string, c: char): (r: int)
    ensures -1 <= r < |s|
    ensures r >= 0 ==> s[r] == c && forall k :: r < k < |s| ==> s[k] != c
    ensures r == -1 ==> c !in s
  {
    if s == [] then -1
    else if s[|s| - 1] == c then |s| - 1
    else LastIndexOfChar(s[..|s| - 1], c)
  }

  function Clamp(x: int, n: nat): (r: nat)
    ensures r <= n
  {
    if x < 0 then 0 else if x > n then n else x
  }

  /** `s.substring(a, b)`: both ends clamped into the text, swapped when out of order. */
  function Substring(s: string, a: int, b: int): string {
    var x, y := Clamp(a, |s|), Clamp(b, |s|);
    if x <= y then s[x..y] else s[y..x]
  }

  /** `s.slice(a, b)` for `a, b >= 0`: clamped, and empty when out of order. */
  function Slice(s: string, a: nat, b: nat): (t: string)
    ensures a <= b <= |s| ==> t == s[a..b]
    ensures a <= |s| <= b ==> t == s[a..]
  {
    var x, y := Clamp(a, |s|), Clamp(b, |s|);
    if x <= y then s[x..y] else ""
  }

  /** `s.replace(/m/g, '')` for a literal pattern `m`: occurrences are removed
      left to right without overlap. */
  function RemoveAll(s: string, m: string): (t: string)
    requires |m| > 0
    ensures |t| <= |s|
  {
    if LiteralAt(s, 0, m) then RemoveAll(s[|m|..], m)
    else if s == [] then []
    else [s[0]] + RemoveAll(s[1..], m)
  }

  lemma {:induction false} RemoveAllAbsent(s: string, m: string)
    requires |m| > 0
    requires IndexOf(s, m) == -1
    ensures RemoveAll(s, m) == s
  {
    if s != [] {
      assert !LiteralAt(s, 0, m);
      forall k | 0 <= k <= |s[1..]| ensures !LiteralAt(s[1..], k, m) {
        assert !LiteralAt(s, k + 1, m);
      }
      assert IndexOf(s[1..], m) == -1;
      RemoveAllAbsent(s[1..], m);
    }
  }

  /** The helper `parseInt(s)` does not yield NaN: after leading white space and
      an optional sign there is a decimal digit, or `0x`/`0X` and a hex digit. */
  predicate ParsesAsInteger(s: string) {
    var i := SkipWs(s, 0);
    var j := if i < |s| && (s[i] == '+' || s[i] == '-') then i + 1 else i;
    if j + 1 < |s| && s[j] == '0' && (s[j + 1] == 'x' || s[j + 1] == 'X') then
      j + 2 < |s| && IsHexDigit(s[j + 2])
    else
      j < |s| && IsDigit(s[j])
  }

  /** The length of the longest prefix of `s` that is a decimal literal as
      `parseFloat` reads it: an optional sign, then `Infinity` or digits with an
      optional fraction and an optional exponent; 0 when there is none. */
  function NumberLiteralLength(s: string): (n: nat)
    ensures n <= |s|
  {
    var i := if 0 < |s| && (s[0] == '+' || s[0] == '-') then 1 else 0;
    if LiteralAt(s, i, "Infinity") then i + 8
    else
      var j := RunEnd(s, i, IsDigit);
      var k := if j < |s| && s[j] == '.' then RunEnd(s, j + 1, IsDigit) else j;
      if j == i && k <= j + 1 then 0
      else ExponentEnd(s, k)
  }

  /** Where an optional exponent starting at `k` ends. */
  function ExponentEnd(s: string, k: nat): (n: nat)
    requires k <= |s|
    ensures k <= n <= |s|
  {
    if k < |s| && (s[k] == 'e' || s[k] == 'E') then
      var m := if k + 1 < |s| && (s[k + 1] == '+' || s[k + 1] == '-') then k + 2 else k + 1;
      var e := RunEnd(s, m, IsDigit);
      if e > m then e else k
    else k
  }

  lemma ExponentEndOfPrefix(s: string, n: nat, k: nat)
    requires k <= n <= |s| && ExponentEnd(s, k) <= n
    ensures ExponentEnd(s[..n], k) == ExponentEnd(s, k)
  {
    var t := s[..n];
    if k < |s| && (s[k] == 'e' || s[k] == 'E') {
      var m := if k + 1 < |s| && (s[k + 1] == '+' || s[k + 1] == '-') then k + 2 else k + 1;
      var e := RunEnd(s, m, IsDigit);
      if e > m {
        assert t[k] == s[k];
        if k + 1 < |s| && (s[k + 1] == '+' || s[k + 1] == '-') { assert t[k + 1] == s[k + 1]; }
        else if k + 1 < n { assert t[k + 1] == s[k + 1]; }
        RunEndOfPrefix(s, n, m, IsDigit);
      } else if k < n {
        assert t[k] == s[k];
        var mt := if k + 1 < |t| && (t[k + 1] == '+' || t[k + 1] == '-') then k + 2 else k + 1;
        if mt <= n {
          if mt < n { assert t[mt] == s[mt]; assert !IsDigit(t[mt]); }
          assert RunEnd(t, mt, IsDigit) == mt;
        }
      }
    } else if k < n {
      assert t[k] == s[k];
    }
  }

  /** A literal found by `NumberLiteralLength` is read whole when it stands alone. */
  lemma NumberLiteralLengthIdempotent(s: string)
    ensures NumberLiteralLength(s[..NumberLiteralLength(s)]) == NumberLiteralLength(s)
  {
    var n := NumberLiteralLength(s);
    var t := s[..n];
    if n > 0 {
      var i := if 0 < |s| && (s[0] == '+' || s[0] == '-') then 1 else 0;
      assert t[0] == s[0];
      if LiteralAt(s, i, "Infinity") {
        assert t[i..i + 8] == s[i..i + 8];
      } else {
        var j := RunEnd(s, i, IsDigit);
        var k := if j < |s| && s[j] == '.' then RunEnd(s, j + 1, IsDigit) else j;
        var ti := if 0 < |t| && (t[0] == '+' || t[0] == '-') then 1 else 0;
        assert ti == i;
        assert !LiteralAt(t, i, "Infinity");
        RunEndOfPrefix(s, n, i, IsDigit);
        if j < |s| && s[j] == '.' {
          assert t[j] == s[j];
          RunEndOfPrefix(s, n, j + 1, IsDigit);
        } else if j < n {
          assert t[j] == s[j];
        }
        ExponentEndOfPrefix(s, n, k);
      }
    }
  }

  /** `parseFloat(s)`: the literal it reads after leading white space, or None for NaN. */
  function ParseFloat(s: string): (r: Option<string>)
    ensures r.Some? ==> |r.value| > 0 && !IsWs(r.value[0])
  {
    var i := SkipWs(s, 0);
    var n := NumberLiteralLength(s[i..]);
    if n == 0 then None
    else
      assert !IsWs(s[i..][0]) by { if i < |s| { assert s[i..][0] == s[i]; } }
      Some(s[i..][..n])
  }

  /** A literal `parseFloat` produced is read back whole. */
  lemma ParseFloatOfLiteral(s: string)
    requires ParseFloat(s).Some?
    ensures ParseFloat(ParseFloat(s).value) == ParseFloat(s)
  {
    var i := SkipWs(s, 0);
    var lit := ParseFloat(s).value;
    NumberLiteralLengthIdempotent(s[i..]);
    assert SkipWs(lit, 0) == 0;
    assert lit[0..] == lit;
    assert lit[..|lit|] == lit;
  }

  /** The decimal digits of `n`, as `n.toString()` writes them. */
  function NatToString(n: nat): (s: string)
    ensures |s| > 0
  {
    if n < 10 then [DigitChar(n)] else NatToString(n / 10) + [DigitChar(n % 10)]
  }

  function DigitChar(d: nat): char
    requires d < 10
  {
    ['0', '1', '2', '3', '4', '5', '6', '7', '8', '9'][d]
  }

  /** `parseInt` of a run of decimal digits. */
  function DigitsValue(s: string): nat
    requires forall k :: 0 <= k < |s| ==> IsDigit(s[k])
  {
    if s == [] then 0
    else
      var d := s[|s| - 1];
      assert IsDigit(d);
      DigitsValue(s[..|s| - 1]) * 10 + (d as int - '0' as int)
  }
}
