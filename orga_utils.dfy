/**
 * Two helpers of the org parser (packages/orga/src/utils.ts): `escape`, which
 * backslash-quotes the regular-expression metacharacters of a string so that
 * it can be embedded in a pattern, and `isPhrasingContent`, which tells the
 * token types that may appear inside a paragraph.
 */
module OrgaUtils {

  /** The fourteen characters of the class `[|\\{}()[\]^$+*?.]`. */
  predicate IsRegexOperator(c: char) {
    || c == '|' || c == '\\' || c == '{' || c == '}' || c == '(' || c == ')' || c == '['
    || c == ']' || c == '^' || c == '$' || c == '+' || c == '*' || c == '?' || c == '.'
  }

  /** Number of metacharacters in `s`. */
  function OperatorCount(s: string): nat
  {
    if s == [] then 0 else (if IsRegexOperator(s[0]) then 1 else 0) + OperatorCount(s[1..])
  }

  /**
   * `escape`: the global replace of every metacharacter by itself preceded by
   * a backslash (`'\\$&'`); the string is scanned left to right and no
   * character is looked at twice, so this is a map over the characters.
   */
  function Escape(s: string): (r: string)
  {
    if s == [] then []
    else (if IsRegexOperator(s[0]) then ['\\', s[0]] else [s[0]]) + Escape(s[1..])
  }

  /** Removes the backslash of each escape pair, keeping the character it quotes. */
  function Unescape(r: string): (s: string)
    ensures |s| <= |r|
  {
    if r == [] then []
    else if r[0] == '\\' && |r| >= 2 then [r[1]] + Unescape(r[2..])
    else [r[0]] + Unescape(r[1..])
  }

  /**
   * The strings `escape` can produce: every metacharacter sits in a pair
   * whose first character is a backslash and whose second is a metacharacter.
   */
  predicate IsEscaped(r: string)
  {
    if r == [] then true
    else if IsRegexOperator(r[0]) then
      r[0] == '\\' && |r| >= 2 && IsRegexOperator(r[1]) && IsEscaped(r[2..])
    else IsEscaped(r[1..])
  }

  /** Each metacharacter gains one backslash and nothing else is added. */
  lemma {:induction false} EscapeLength(s: string)
    ensures |Escape(s)| == |s| + OperatorCount(s)
  {
    if s != [] {
      EscapeLength(s[1..]);
    }
  }

  /** Escaping distributes over concatenation. */
  lemma {:induction false} EscapeAppend(a: string, b: string)
    ensures Escape(a + b) == Escape(a) + Escape(b)
  {
    if a == [] {
      assert a + b == b;
    } else {
      EscapeAppend(a[1..], b);
      assert (a + b)[0] == a[0] && (a + b)[1..] == a[1..] + b;
    }
  }

  /** A string without metacharacters is left as it is. */
  lemma {:induction false} EscapePlain(s: string)
    requires forall i :: 0 <= i < |s| ==> !IsRegexOperator(s[i])
    ensures Escape(s) == s
  {
    if s != [] {
      EscapePlain(s[1..]);
      assert s == [s[0]] + s[1..];
    }
  }

  /** Escaping only ever produces escaped strings. */
  lemma {:induction false} EscapeIsEscaped(s: string)
    ensures IsEscaped(Escape(s))
  {
    if s != [] {
      EscapeIsEscaped(s[1..]);
      var r := Escape(s);
      if IsRegexOperator(s[0]) {
        assert r[2..] == Escape(s[1..]);
      } else {
        assert r[1..] == Escape(s[1..]);
      }
    }
  }

  /** Deleting the inserted backslashes gives the original string back. */
  lemma {:induction false} UnescapeEscape(s: string)
    ensures Unescape(Escape(s)) == s
  {
    if s != [] {
      UnescapeEscape(s[1..]);
      var r := Escape(s);
      if IsRegexOperator(s[0]) {
        assert r[2..] == Escape(s[1..]);
      } else {
        assert r[1..] == Escape(s[1..]);
      }
    }
  }

  /** Every escaped string is the escape of its unescaping, so `Escape` is a
      bijection between all strings and the escaped ones. */
  lemma {:induction false} EscapeUnescape(r: string)
    requires IsEscaped(r)
    ensures Escape(Unescape(r)) == r
  {
    if r != [] {
      if IsRegexOperator(r[0]) {
        EscapeUnescape(r[2..]);
        assert Unescape(r) == [r[1]] + Unescape(r[2..]);
        assert r == [r[0], r[1]] + r[2..];
      } else {
        EscapeUnescape(r[1..]);
        assert r[0] != '\\';
        assert Unescape(r) == [r[0]] + Unescape(r[1..]);
        assert r == [r[0]] + r[1..];
      }
    }
  }

  /**
   * Where each character of `s` lands in `escape(s)`: character `i` moves right
   * by the number of metacharacters before it, and a metacharacter has a
   * backslash immediately in front of it.
   */
  lemma EscapePosition(s: string, i: nat)
    requires i < |s|
    ensures var at := i + OperatorCount(s[..i]);
      && (IsRegexOperator(s[i]) ==> at + 1 < |Escape(s)| && Escape(s)[at] == '\\' && Escape(s)[at + 1] == s[i])
      && (!IsRegexOperator(s[i]) ==> at < |Escape(s)| && Escape(s)[at] == s[i])
  {
    assert s == s[..i] + s[i..];
    EscapeAppend(s[..i], s[i..]);
    EscapeLength(s[..i]);
    assert s[i..][0] == s[i];
  }

  /**
   * `isPhrasingContent`: the token types that may appear inside a paragraph,
   * that is the `text.*` family, footnote references, links and line breaks.
   */
  predicate IsPhrasingContent(tokenType: string)
  {
    (|tokenType| >= 5 && tokenType[..5] == "text.") ||
    tokenType == "footnote.reference" || tokenType == "link" || tokenType == "newline"
  }

  /** `startsWith('text.')` is being `"text."` followed by anything. */
  lemma PhrasingContentTypes(tokenType: string)
    ensures IsPhrasingContent(tokenType) <==>
      (exists suffix: string :: tokenType == "text." + suffix) ||
      tokenType in {"footnote.reference", "link", "newline"}
  {
    if |tokenType| >= 5 && tokenType[..5] == "text." {
      assert tokenType == "text." + tokenType[5..];
    }
    forall suffix: string | tokenType == "text." + suffix
      ensures |tokenType| >= 5 && tokenType[..5] == "text."
    {
    }
  }
}
