/**
 * The scoreboard key of a participant: the display name, trimmed, with each of
 * `. # $ / [ ]` and every whitespace character replaced by an underscore.
 * Other characters are kept, including control characters that are not
 * whitespace.
 */
module Keys {

  /**
   * The characters that JavaScript's `String.prototype.trim` strips and that the
   * regular-expression class `\s` matches (WhiteSpace and LineTerminator of
   * ECMAScript, section 12.2 and 12.3).
   */
  predicate IsWhitespace(c: char) {
    || c == '\t' || c == '\n' || c == '\U{000B}' || c == '\U{000C}' || c == '\r'
    || c == ' ' || c == '\U{00A0}' || c == '\U{1680}'
    || ('\U{2000}' <= c <= '\U{200A}')
    || c == '\U{2028}' || c == '\U{2029}' || c == '\U{202F}' || c == '\U{205F}'
    || c == '\U{3000}' || c == '\U{FEFF}'
  }

  /** The class `[.#$/\[\]\s]` of the sanitising regular expression. */
  predicate IsReserved(c: char) {
    c == '.' || c == '#' || c == '$' || c == '/' || c == '[' || c == ']' || IsWhitespace(c)
  }

  /** `s` with its leading whitespace removed. */
  function TrimStart(s: string): (r: string)
    ensures |r| <= |s|
  {
    if s != [] && IsWhitespace(s[0]) then TrimStart(s[1..]) else s
  }

  /** `s` with its trailing whitespace removed. */
  function TrimEnd(s: string): (r: string)
    ensures |r| <= |s|
  {
    if s != [] && IsWhitespace(s[|s| - 1]) then TrimEnd(s[..|s| - 1]) else s
  }

  /** JavaScript's `s.trim()`. */
  function Trim(s: string): (r: string)
    ensures |r| <= |s|
  {
    TrimEnd(TrimStart(s))
  }

  /** `t.replace(/[.#$/\[\]\s]/g, "_")`: every reserved character becomes `_`. */
  function ReplaceReserved(t: string): (r: string)
    ensures |r| == |t|
  {
    if t == [] then [] else [if IsReserved(t[0]) then '_' else t[0]] + ReplaceReserved(t[1..])
  }

  /** The scoreboard key of display name `name`. */
  function EncodeKey(name: string): (key: string)
    ensures |key| == |Trim(name)|
  {
    ReplaceReserved(Trim(name))
  }

  /** TrimStart removes exactly the leading whitespace: what it keeps is a suffix starting with a non-space. */
  lemma {:induction false} TrimStartSpec(s: string)
    ensures var r := TrimStart(s);
      && r == s[|s| - |r|..]
      && (forall i :: 0 <= i < |s| - |r| ==> IsWhitespace(s[i]))
      && (r == [] || !IsWhitespace(r[0]))
  {
    if s != [] && IsWhitespace(s[0]) {
      TrimStartSpec(s[1..]);
    }
  }

  /** TrimEnd removes exactly the trailing whitespace: what it keeps is a prefix ending with a non-space. */
  lemma {:induction false} TrimEndSpec(s: string)
    ensures var r := TrimEnd(s);
      && r == s[..|r|]
      && (forall i :: |r| <= i < |s| ==> IsWhitespace(s[i]))
      && (r == [] || !IsWhitespace(r[|r| - 1]))
  {
    if s != [] && IsWhitespace(s[|s| - 1]) {
      TrimEndSpec(s[..|s| - 1]);
    }
  }

  /**
   * Trim keeps a contiguous part of `s` that neither starts nor ends with
   * whitespace, and drops only whitespace around it; it is empty exactly when
   * `s` is all whitespace.
   */
  lemma TrimSpec(s: string)
    ensures var r, k := Trim(s), |s| - |TrimStart(s)|;
      && k + |r| <= |s| && r == s[k..k + |r|]
      && (forall i :: 0 <= i < k ==> IsWhitespace(s[i]))
      && (forall i :: k + |r| <= i < |s| ==> IsWhitespace(s[i]))
      && (r == [] || (!IsWhitespace(r[0]) && !IsWhitespace(r[|r| - 1])))
      && (r == [] <==> forall i :: 0 <= i < |s| ==> IsWhitespace(s[i]))
  {
    var t := TrimStart(s);
    var r := TrimEnd(t);
    TrimStartSpec(s);
    TrimEndSpec(t);
    var k := |s| - |t|;
    assert r == s[k..k + |r|];
    forall i | k + |r| <= i < |s| ensures IsWhitespace(s[i]) {
      assert s[i] == t[i - k];
    }
    if r != [] {
      assert r[0] == t[0];
    } else {
      assert t == [];
    }
  }

  /** A string with no whitespace character is its own trim. */
  lemma TrimOfUnspaced(s: string)
    requires forall i :: 0 <= i < |s| ==> !IsWhitespace(s[i])
    ensures Trim(s) == s
  {
    TrimStartSpec(s);
    TrimEndSpec(s);
  }

  /** Trimming twice is trimming once. */
  lemma TrimIdempotent(s: string)
    ensures Trim(Trim(s)) == Trim(s)
  {
    var r := Trim(s);
    TrimSpec(s);
    if r != [] {
      TrimStartSpec(r);
      TrimEndSpec(r);
    }
  }

  /** ReplaceReserved replaces each reserved character by `_` and keeps every other one. */
  lemma {:induction false} ReplaceReservedSpec(t: string)
    ensures var r := ReplaceReserved(t);
      forall i :: 0 <= i < |t| ==> r[i] == (if IsReserved(t[i]) then '_' else t[i])
  {
    if t != [] {
      ReplaceReservedSpec(t[1..]);
    }
  }

  /**
   * A key has the length of the trimmed name, contains no reserved character
   * and no whitespace, and keeps every other character of the trimmed name in place.
   */
  lemma EncodeKeySpec(name: string)
    ensures var key := EncodeKey(name);
      && |key| == |Trim(name)|
      && (forall i :: 0 <= i < |key| ==> !IsReserved(key[i]))
      && (forall i :: 0 <= i < |key| ==> key[i] == if IsReserved(Trim(name)[i]) then '_' else Trim(name)[i])
  {
    ReplaceReservedSpec(Trim(name));
  }

  /** Encoding a key again leaves it unchanged. */
  lemma EncodeKeyIdempotent(name: string)
    ensures EncodeKey(EncodeKey(name)) == EncodeKey(name)
  {
    var key := EncodeKey(name);
    EncodeKeySpec(name);
    TrimOfUnspaced(key);
    ReplaceReservedSpec(key);
  }

  /** Keys are not injective: two different names share one scoreboard entry. */
  lemma EncodeKeyCollides()
    ensures "a.b" != "a_b" && EncodeKey("a.b") == EncodeKey("a_b")
  {
    TrimOfUnspaced("a.b");
    TrimOfUnspaced("a_b");
    assert ReplaceReserved("a.b") == "a_b";
    assert ReplaceReserved("a_b") == "a_b";
  }
}
