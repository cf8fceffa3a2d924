/**
 * Turning a raw table cell into a C identifier (`sanitize_identifier`):
 * strip surrounding whitespace, then rewrite with the regular expression
 * `\W|^(?=\d)` replaced by `_`.
 */
module Sanitizer {

  /** Whitespace as Python's `str.strip()` sees it, restricted to ASCII:
      tab, line feed, vertical tab, form feed, carriage return (9-13),
      the information separators (28-31) and the space (32). */
  predicate IsSpace(c: char) {
    (9 <= c as int <= 13) || (28 <= c as int <= 32)
  }

  predicate IsDigit(c: char) {
    '0' <= c <= '9'
  }

  /** The regular-expression class `\w`, read over ASCII. */
  predicate IsWordChar(c: char) {
    ('a' <= c <= 'z') || ('A' <= c <= 'Z') || IsDigit(c) || c == '_'
  }

  /** Drops the leading whitespace. */
  function TrimStart(s: string): (r: string)
    ensures |r| <= |s|
    ensures r == [] || !IsSpace(r[0])
  {
    if s != [] && IsSpace(s[0]) then TrimStart(s[1..]) else s
  }

  /** Drops the trailing whitespace. */
  function TrimEnd(s: string): (r: string)
    ensures |r| <= |s|
    ensures r == [] || !IsSpace(r[|r| - 1])
    ensures r != [] ==> r[0] == s[0]
  {
    if s != [] && IsSpace(s[|s| - 1]) then TrimEnd(s[..|s| - 1]) else s
  }

  /** Python's `str.strip()`: whitespace is removed from both ends. */
  function Strip(s: string): (r: string)
    ensures |r| <= |s|
    ensures r == [] || (!IsSpace(r[0]) && !IsSpace(r[|r| - 1]))
  {
    TrimEnd(TrimStart(s))
  }

  /** A string is left alone by `Strip` exactly when neither of its ends is
      whitespace; in particular stripping twice is stripping once. */
  lemma StripFixesTrimmed(s: string)
    ensures Strip(s) == s <==> (s == [] || (!IsSpace(s[0]) && !IsSpace(s[|s| - 1])))
    ensures Strip(Strip(s)) == Strip(s)
  {
    var r := Strip(s);
    assert TrimEnd(TrimStart(r)) == r by {
      assert r == [] || !IsSpace(r[0]);
    }
  }

  /** `TrimStart` removes a prefix made of whitespace only. */
  lemma {:induction false} TrimStartDropsSpaces(s: string)
    ensures TrimStart(s) == s[|s| - |TrimStart(s)|..]
    ensures forall k :: 0 <= k < |s| - |TrimStart(s)| ==> IsSpace(s[k])
  {
    if s != [] && IsSpace(s[0]) {
      TrimStartDropsSpaces(s[1..]);
    }
  }

  /** `TrimEnd` removes a suffix made of whitespace only. */
  lemma {:induction false} TrimEndDropsSpaces(s: string)
    ensures TrimEnd(s) == s[..|TrimEnd(s)|]
    ensures forall k :: |TrimEnd(s)| <= k < |s| ==> IsSpace(s[k])
  {
    if s != [] && IsSpace(s[|s| - 1]) {
      TrimEndDropsSpaces(s[..|s| - 1]);
    }
  }

  /** What `Strip` removes is whitespace and nothing else: the result is the
      infix of `s` between a whitespace prefix and a whitespace suffix. */
  lemma StripKeepsInfix(s: string)
    ensures var i := |s| - |TrimStart(s)|;
      && i + |Strip(s)| <= |s|
      && Strip(s) == s[i..i + |Strip(s)|]
      && (forall k :: 0 <= k < i ==> IsSpace(s[k]))
      && (forall k :: i + |Strip(s)| <= k < |s| ==> IsSpace(s[k]))
  {
    var t := TrimStart(s);
    var i := |s| - |t|;
    TrimStartDropsSpaces(s);
    var r := TrimEnd(t);
    TrimEndDropsSpaces(t);
    assert r == t[..|r|];
    assert t[..|r|] == s[i..i + |r|];
    forall k | i + |r| <= k < |s|
      ensures IsSpace(s[k])
    {
      assert s[k] == t[k - i];
    }
  }

  /** The `\W` alternative of the pattern: every character outside `\w`
      becomes exactly one `_`; runs are not merged. */
  function ReplaceNonWord(s: string): (r: string)
    ensures |r| == |s|
  {
    if s == [] then [] else [if IsWordChar(s[0]) then s[0] else '_'] + ReplaceNonWord(s[1..])
  }

  /** Position by position, a word character is kept and any other
      character becomes `_`. */
  lemma {:induction false} ReplaceNonWordMaps(s: string)
    ensures forall k :: 0 <= k < |s| ==> ReplaceNonWord(s)[k] == if IsWordChar(s[k]) then s[k] else '_'
  {
    if s != [] {
      ReplaceNonWordMaps(s[1..]);
      var r := ReplaceNonWord(s);
      assert forall k :: 1 <= k < |s| ==> r[k] == ReplaceNonWord(s[1..])[k - 1] && s[k] == s[1..][k - 1];
    }
  }

  predicate StartsWithDigit(s: string) {
    s != [] && IsDigit(s[0])
  }

  /** `sanitize_identifier`. The `^(?=\d)` alternative matches the empty
      string before a leading digit, so an `_` is inserted there and the
      digit itself is kept. */
  function Sanitize(name: string): string {
    var s := Strip(name);
    if StartsWithDigit(s) then "_" + ReplaceNonWord(s) else ReplaceNonWord(s)
  }

  /** The result is a C identifier: word characters only, no leading digit.
      It is the stripped name with every non-word character turned into one
      `_` and every word character kept in place, preceded by one inserted
      `_` exactly when the stripped name starts with a digit. */
  lemma SanitizeShape(name: string)
    ensures var id := Sanitize(name);
      && (forall k :: 0 <= k < |id| ==> IsWordChar(id[k]))
      && (id == [] || !IsDigit(id[0]))
    ensures var id, s := Sanitize(name), Strip(name);
      && |id| == |s| + (if StartsWithDigit(s) then 1 else 0)
      && (StartsWithDigit(s) ==> id[0] == '_')
      && (forall k :: 0 <= k < |s| ==> id[|id| - |s| + k] == if IsWordChar(s[k]) then s[k] else '_')
  {
    ReplaceNonWordMaps(Strip(name));
  }

  /** A stripped name made only of word characters and not starting with a
      digit is already an identifier: sanitizing returns it unchanged. */
  lemma {:induction false} SanitizeKeepsIdentifiers(name: string)
    requires Strip(name) == name
    requires forall k :: 0 <= k < |name| ==> IsWordChar(name[k])
    requires !StartsWithDigit(name)
    ensures Sanitize(name) == name
  {
    var r := ReplaceNonWord(name);
    ReplaceNonWordMaps(name);
    assert forall k :: 0 <= k < |name| ==> r[k] == name[k];
  }

  /** Whitespace never survives in a string of word characters. */
  lemma StripWordChars(s: string)
    requires forall k :: 0 <= k < |s| ==> IsWordChar(s[k])
    ensures Strip(s) == s
  {
    if s != [] {
      assert IsWordChar(s[0]) && IsWordChar(s[|s| - 1]);
    }
    StripFixesTrimmed(s);
  }

  /** Sanitizing twice is sanitizing once. */
  lemma {:induction false} SanitizeIdempotent(name: string)
    ensures Sanitize(Sanitize(name)) == Sanitize(name)
  {
    var id := Sanitize(name);
    SanitizeShape(name);
    StripWordChars(id);
    SanitizeKeepsIdentifiers(id);
  }
}
