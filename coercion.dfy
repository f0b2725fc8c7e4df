/** Value coercion (`clean` in server.js): a literal token of the command
    language becomes null, a number, or a string. */
module Coercion {
  import opened JsString

  /** A typed value. A number is kept as the decimal literal `parseFloat` read;
      its IEEE double is not modelled. */
  datatype Value = Null | Num(literal: string) | Str(text: string)

  predicate IsQuote(c: char) { c == '\'' || c == '"' }

  /** The token starts and ends with `'`, or starts and ends with `"`. */
  predicate WrappedInQuotes(token: string) {
    token != [] && ((token[0] == '\'' && token[|token| - 1] == '\'') || (token[0] == '"' && token[|token| - 1] == '"'))
  }

  /** `clean(token)`: any casing of NULL becomes null; a token wrapped in a
      matching pair of quotes becomes the text between its first and last
      character (a one-character token `'` stays itself, as `substring(1, 0)`
      swaps its bounds); else a token `parseFloat` can read becomes that number;
      anything else stays the same string. */
  function Clean(token: string): (v: Value)
    ensures Upper(token) == "NULL" <==> v == Null
    ensures v.Str? && Upper(token) != "NULL" && WrappedInQuotes(token) && |token| >= 2 ==>
              token == [token[0]] + v.text + [token[0]]
    ensures v.Num? <==> Upper(token) != "NULL" && !WrappedInQuotes(token) && ParseFloat(token).Some?
    ensures v.Num? ==> v.literal == ParseFloat(token).value
    ensures v.Str? && !WrappedInQuotes(token) ==> v.text == token
  {
    if Upper(token) == "NULL" then Null
    else if WrappedInQuotes(token) then Str(Substring(token, 1, |token| - 1))
    else match ParseFloat(token)
      case Some(lit) => Num(lit)
      case None => Str(token)
  }

  /** The literal that writes a value back into the command language. */
  function Literal(v: Value): string {
    match v
    case Null => "NULL"
    case Num(lit) => lit
    case Str(t) => "'" + t + "'"
  }

  /** Coercing the literal of a coerced value gives that value again. */
  lemma CleanLiteralRoundTrip(token: string)
    ensures Clean(Literal(Clean(token))) == Clean(token)
  {
    var v := Clean(token);
    match v
    case Null =>
      assert Literal(v) == "NULL";
      assert Upper("NULL") == "NULL";
    case Str(t) =>
      var lit := "'" + t + "'";
      assert Upper(lit)[0] == '\'';
      assert Substring(lit, 1, |lit| - 1) == t;
    case Num(n) =>
      ParseFloatOfLiteral(token);
      assert n != [] && !IsWs(n[0]);
      var c := n[0];
      assert c == '+' || c == '-' || c == 'I' || c == '.' || IsDigit(c) by {
        var s := token[SkipWs(token, 0)..];
        assert n == s[..NumberLiteralLength(s)];
        assert n[0] == s[0];
      }
      assert Upper(n)[0] != 'N';
      assert !WrappedInQuotes(n);
  }

  /** NULL in any casing is null. */
  lemma CleanNullExample()
    ensures Clean("null") == Null && Clean("NuLl") == Null
  {
    assert Upper("null") == "NULL";
    assert Upper("NuLl") == "NULL";
  }

  /** One pair of quotes, single or double, is removed. */
  lemma CleanQuotedExample()
    ensures Clean("'abc'") == Str("abc") && Clean("\"abc\"") == Str("abc")
  {
    assert Upper("'abc'")[0] == '\'';
    assert Substring("'abc'", 1, 4) == "abc";
    assert Upper("\"abc\"")[0] == '"';
    assert Substring("\"abc\"", 1, 4) == "abc";
  }

  /** A lone quote stays as it is: `substring(1, 0)` swaps its bounds. */
  lemma CleanLoneQuoteExample()
    ensures Clean("'") == Str("'")
  {
    assert Upper("'")[0] == '\'';
    assert Substring("'", 1, 0) == "'";
  }

  /** A token `parseFloat` reads becomes the number it reads, even with a suffix. */
  lemma CleanNumberExample()
    ensures Clean("42") == Num("42")
    ensures Clean("42abc") == Num("42")
  {
    assert Upper("42")[0] == '4';
    assert RunEnd("42", 2, IsDigit) == 2;
    assert RunEnd("42", 1, IsDigit) == 2;
    assert NumberLiteralLength("42") == 2;
    assert "42"[0..] == "42";
    assert "42"[..2] == "42";
    var t := "42abc";
    assert Upper(t)[0] == '4';
    assert RunEnd(t, 2, IsDigit) == 2;
    assert RunEnd(t, 1, IsDigit) == 2;
    assert NumberLiteralLength(t) == 2;
    assert t[0..] == t;
    assert t[..2] == "42";
  }

  /** Any other token is kept as a string. */
  lemma CleanFallbackExample()
    ensures Clean("abc") == Str("abc") && Clean("") == Str("")
  {
    assert Upper("abc")[0] == 'A';
    assert "abc"[0..] == "abc";
    assert RunEnd("abc", 0, IsDigit) == 0;
    assert NumberLiteralLength("abc") == 0;
  }
}
