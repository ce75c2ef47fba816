/**
 * escape_js_string: rewrites a string so that it can stand between the quotes
 * of a JavaScript string literal. Six characters are replaced by the
 * two-character single-character escapes of ECMA-262 (String Literals,
 * section 12.9.4 of ECMAScript 2022); every other character is copied.
 *
 * One `char` here stands for one byte of the C++ `std::string`; the six
 * special characters are ASCII, so the byte view and the character view agree.
 */
module JsEscape {
  import opened Wrappers

  /** The characters that are never copied raw: quote, double quote, backslash, newline, carriage return, tab. */
  predicate IsSpecial(c: char) {
    c == '\'' || c == '"' || c == '\\' || c == '\n' || c == '\r' || c == '\t'
  }

  /** The special character that the letter after a backslash stands for, if any. */
  function DecodeLetter(e: char): (r: Option<char>)
    ensures r.Some? ==> IsSpecial(r.value)
  {
    if e == 'n' then Some('\n')
    else if e == 'r' then Some('\r')
    else if e == 't' then Some('\t')
    else if e == '\'' || e == '"' || e == '\\' then Some(e)
    else None
  }

  /** The character written after the backslash for special character `c`. */
  function EscapeLetter(c: char): (e: char)
    requires IsSpecial(c)
    ensures DecodeLetter(e) == Some(c)
  {
    match c
    case '\n' => 'n'
    case '\r' => 'r'
    case '\t' => 't'
    case _ => c
  }

  /** What one input character becomes in the output. */
  function EscapeChar(c: char): (r: string)
    ensures |r| == if IsSpecial(c) then 2 else 1
    ensures IsSpecial(c) ==> r[0] == '\\' && DecodeLetter(r[1]) == Some(c)
    ensures !IsSpecial(c) ==> r == [c]
  {
    if IsSpecial(c) then ['\\', EscapeLetter(c)] else [c]
  }

  /** The specification of escape_js_string: each character escaped in turn. */
  function Escape(s: string): string
  {
    if s == [] then [] else EscapeChar(s[0]) + Escape(s[1..])
  }

  /** The number of special characters in `s`. */
  function SpecialCount(s: string): nat
  {
    if s == [] then 0 else (if IsSpecial(s[0]) then 1 else 0) + SpecialCount(s[1..])
  }

  /**
   * The reader of a quoted literal's body: every backslash pair is turned back
   * into its character; a raw special character or a dangling or unknown
   * escape is rejected.
   */
  function Unescape(t: string): Option<string>
    decreases |t|
  {
    if t == [] then Some([])
    else if t[0] == '\\' then
      if |t| < 2 then None
      else
        match DecodeLetter(t[1])
        case None => None
        case Some(c) =>
          match Unescape(t[2..])
          case None => None
          case Some(rest) => Some([c] + rest)
    else if IsSpecial(t[0]) then None
    else
      match Unescape(t[1..])
      case None => None
      case Some(rest) => Some([t[0]] + rest)
  }

  /** escape_js_string, with its index loop and its switch over the current character. */
  method EscapeJsString(input: string) returns (output: string)
    ensures output == Escape(input)
    ensures |output| == |input| + SpecialCount(input)
  {
    output := [];
    var idx := 0;
    while idx < |input|
      invariant 0 <= idx <= |input|
      invariant output == Escape(input[..idx])
    {
      var c := input[idx];
      assert input[..idx + 1] == input[..idx] + [c];
      EscapeAppend(input[..idx], [c]);
      assert Escape([c]) == EscapeChar(c);
      match c {
        case '\'' => output := output + ['\\', '\''];
        case '"' => output := output + ['\\', '"'];
        case '\\' => output := output + ['\\', '\\'];
        case '\n' => output := output + ['\\', 'n'];
        case '\r' => output := output + ['\\', 'r'];
        case '\t' => output := output + ['\\', 't'];
        case _ => output := output + [c];
      }
      idx := idx + 1;
    }
    assert input[..idx] == input;
    EscapeLength(input);
  }

  /** Escaping works character by character, so it distributes over concatenation. */
  lemma {:induction false} EscapeAppend(a: string, b: string)
    ensures Escape(a + b) == Escape(a) + Escape(b)
  {
    if a == [] {
      assert a + b == b;
    } else {
      assert (a + b)[0] == a[0];
      assert (a + b)[1..] == a[1..] + b;
      EscapeAppend(a[1..], b);
    }
  }

  /** Each special character grows by one, every other character keeps its length. */
  lemma {:induction false} EscapeLength(s: string)
    ensures |Escape(s)| == |s| + SpecialCount(s)
  {
    if s != [] {
      EscapeLength(s[1..]);
    }
  }

  /** A string is left as it is exactly when it holds no special character. */
  lemma {:induction false} EscapeUnchangedIff(s: string)
    ensures Escape(s) == s <==> forall i :: 0 <= i < |s| ==> !IsSpecial(s[i])
  {
    if forall i :: 0 <= i < |s| ==> !IsSpecial(s[i]) {
      NoSpecialUnchanged(s);
    } else {
      var i :| 0 <= i < |s| && IsSpecial(s[i]);
      SpecialCountPositive(s, i);
      EscapeLength(s);
    }
  }

  lemma {:induction false} NoSpecialUnchanged(s: string)
    requires forall i :: 0 <= i < |s| ==> !IsSpecial(s[i])
    ensures Escape(s) == s
  {
    if s != [] {
      NoSpecialUnchanged(s[1..]);
    }
  }

  lemma {:induction false} SpecialCountPositive(s: string, i: int)
    requires 0 <= i < |s| && IsSpecial(s[i])
    ensures SpecialCount(s) > 0
  {
    if i > 0 {
      SpecialCountPositive(s[1..], i - 1);
    }
  }

  /** The output never holds a raw newline, carriage return or tab. */
  lemma {:induction false} EscapeHasNoRawControl(s: string)
    ensures forall i :: 0 <= i < |Escape(s)| ==> Escape(s)[i] != '\n' && Escape(s)[i] != '\r' && Escape(s)[i] != '\t'
  {
    if s != [] {
      EscapeHasNoRawControl(s[1..]);
      var head := EscapeChar(s[0]);
      assert forall i :: 0 <= i < |head| ==> head[i] != '\n' && head[i] != '\r' && head[i] != '\t';
    }
  }

  /** Reading the escaped text back as a literal body gives the original string. */
  lemma {:induction false} UnescapeEscape(s: string)
    ensures Unescape(Escape(s)) == Some(s)
  {
    if s != [] {
      var t := Escape(s);
      var head := EscapeChar(s[0]);
      assert t == head + Escape(s[1..]);
      UnescapeEscape(s[1..]);
      if IsSpecial(s[0]) {
        assert t[0] == '\\' && t[1] == head[1];
        assert t[2..] == Escape(s[1..]);
      } else {
        assert t[0] == s[0];
        assert t[1..] == Escape(s[1..]);
      }
      assert [s[0]] + s[1..] == s;
    }
  }

  /** Conversely, every literal body that reads back to `s` is the escape of `s`. */
  lemma {:induction false} EscapeUnescape(t: string, s: string)
    requires Unescape(t) == Some(s)
    ensures Escape(s) == t
  {
    if t != [] {
      if t[0] == '\\' {
        var c := DecodeLetter(t[1]).value;
        var rest := Unescape(t[2..]).value;
        EscapeUnescape(t[2..], rest);
        assert s == [c] + rest;
        assert s[0] == c && s[1..] == rest;
        assert EscapeChar(c) == t[..2];
        assert t == t[..2] + t[2..];
      } else {
        var rest := Unescape(t[1..]).value;
        EscapeUnescape(t[1..], rest);
        assert s == [t[0]] + rest;
        assert s[0] == t[0] && s[1..] == rest;
        assert t == [t[0]] + t[1..];
      }
    }
  }

  /** Two different strings never escape to the same text. */
  lemma EscapeInjective(a: string, b: string)
    requires Escape(a) == Escape(b)
    ensures a == b
  {
    UnescapeEscape(a);
    UnescapeEscape(b);
  }
}
