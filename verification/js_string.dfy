/** JavaScript string semantics the chat component relies on: `String.prototype.trim`
    (used to reject blank drafts) and the `a || d` defaulting of possibly-empty strings.

    A Dafny `char` stands for one JavaScript string element, so `|s|` plays the role of
    `s.length`. JavaScript counts UTF-16 code units, so a character outside the Basic
    Multilingual Plane counts as two there and as one here. */
module JsString {

  /** ECMAScript WhiteSpace (TAB, VT, FF, ZWNBSP and every Unicode "Zs" space) together with
      the LineTerminator code points (LF, CR, LS, PS): exactly what `trim` strips. */
  const WhiteSpace: set<char> := {
    '\t', '\n', '\U{000B}', '\U{000C}', '\r', ' ', '\U{00A0}', '\U{1680}',
    '\U{2000}', '\U{2001}', '\U{2002}', '\U{2003}', '\U{2004}', '\U{2005}',
    '\U{2006}', '\U{2007}', '\U{2008}', '\U{2009}', '\U{200A}',
    '\U{2028}', '\U{2029}', '\U{202F}', '\U{205F}', '\U{3000}', '\U{FEFF}'
  }

  predicate IsWhiteSpace(c: char) {
    c in WhiteSpace
  }

  /** Drops leading white space (`TrimStartSpec` states what remains). */
  function TrimStart(s: string): string
    decreases |s|
  {
    if |s| > 0 && IsWhiteSpace(s[0]) then TrimStart(s[1..]) else s
  }

  /** Drops trailing white space (`TrimEndSpec` states what remains). */
  function TrimEnd(s: string): string
    decreases |s|
  {
    if |s| > 0 && IsWhiteSpace(s[|s| - 1]) then TrimEnd(s[..|s| - 1]) else s
  }

  /** `s.trim()`. */
  function Trim(s: string): string {
    TrimEnd(TrimStart(s))
  }

  /** Trimming the start leaves the suffix of `s` that begins at its first non-white-space
      character: everything dropped is white space. */
  lemma {:induction false} TrimStartSpec(s: string)
    ensures var r := TrimStart(s);
            && |r| <= |s| && r == s[|s| - |r|..]
            && (forall k :: 0 <= k < |s| - |r| ==> IsWhiteSpace(s[k]))
            && (r == [] || !IsWhiteSpace(r[0]))
    decreases |s|
  {
    if |s| > 0 && IsWhiteSpace(s[0]) {
      TrimStartSpec(s[1..]);
      var r := TrimStart(s[1..]);
      assert forall k :: 1 <= k < |s| - |r| ==> s[k] == s[1..][k - 1];
    }
  }

  /** Trimming the end leaves the prefix of `s` that ends at its last non-white-space
      character: everything dropped is white space. */
  lemma {:induction false} TrimEndSpec(s: string)
    ensures var r := TrimEnd(s);
            && |r| <= |s| && r == s[..|r|]
            && (forall k :: |r| <= k < |s| ==> IsWhiteSpace(s[k]))
            && (r == [] || !IsWhiteSpace(r[|r| - 1]))
    decreases |s|
  {
    if |s| > 0 && IsWhiteSpace(s[|s| - 1]) {
      TrimEndSpec(s[..|s| - 1]);
      var r := TrimEnd(s[..|s| - 1]);
      assert forall k :: |r| <= k < |s| - 1 ==> s[k] == s[..|s| - 1][k];
    }
  }

  /** `trim` never lengthens a string, and what it returns is empty or begins and ends with
      a non-white-space character. */
  lemma TrimSpec(s: string)
    ensures |Trim(s)| <= |s|
    ensures Trim(s) == [] || (!IsWhiteSpace(Trim(s)[0]) && !IsWhiteSpace(Trim(s)[|Trim(s)| - 1]))
  {
    TrimStartSpec(s);
    TrimEndSpec(TrimStart(s));
  }

  /** The source's blank test `!input.trim()`: the trimmed string is the falsy "". */
  predicate IsBlank(s: string) {
    Trim(s) == ""
  }

  /** A string is blank exactly when every one of its characters is white space. */
  lemma {:induction false} BlankIffAllWhiteSpace(s: string)
    ensures IsBlank(s) <==> forall k :: 0 <= k < |s| ==> IsWhiteSpace(s[k])
  {
    var t := TrimStart(s);
    TrimStartSpec(s);
    TrimEndSpec(t);
    if IsBlank(s) {
      assert t == [];
    }
    if forall k :: 0 <= k < |s| ==> IsWhiteSpace(s[k]) {
      assert t == [];
    }
  }

  /** JavaScript's `a || d` on a string `a`: the empty string is falsy and yields `d`. */
  function Or(a: string, d: string): string {
    if a == "" then d else a
  }
}
