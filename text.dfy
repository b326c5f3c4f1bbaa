/** ECMAScript's String.prototype.trim, which the reconstruction applies to every cell text and
    the merge to every header name and row key. */
module Text {

  /** The characters trim removes: the WhiteSpace code points of ECMAScript (tab, vertical tab,
      form feed, space, no-break space, byte order mark and the other space separators of
      Unicode) and its LineTerminator code points (line feed, carriage return, line separator,
      paragraph separator). */
  const Spaces: set<char> := {
    '\t', '\U{000B}', '\U{000C}', ' ', '\U{00A0}', '\U{FEFF}', '\U{1680}',
    '\U{2000}', '\U{2001}', '\U{2002}', '\U{2003}', '\U{2004}', '\U{2005}', '\U{2006}',
    '\U{2007}', '\U{2008}', '\U{2009}', '\U{200A}', '\U{202F}', '\U{205F}', '\U{3000}',
    '\n', '\r', '\U{2028}', '\U{2029}'
  }

  predicate IsSpace(c: char) {
    c in Spaces
  }

  function TrimStart(s: string): string {
    if s != [] && IsSpace(s[0]) then TrimStart(s[1..]) else s
  }

  function TrimEnd(s: string): string {
    if s != [] && IsSpace(s[|s| - 1]) then TrimEnd(s[..|s| - 1]) else s
  }

  /** String.prototype.trim. */
  function Trim(s: string): string {
    TrimEnd(TrimStart(s))
  }

  /** Whether s consists of spaces only (the empty string does). */
  predicate AllSpaces(s: string) {
    forall i :: 0 <= i < |s| ==> IsSpace(s[i])
  }

  /** TrimStart drops exactly the leading spaces: what it keeps is a suffix that is empty or starts
      with a non-space, and everything before that suffix is a space. */
  lemma {:induction false} TrimStartSpec(s: string)
    ensures var r := TrimStart(s);
      |r| <= |s| && r == s[|s| - |r|..] &&
      (forall i :: 0 <= i < |s| - |r| ==> IsSpace(s[i])) &&
      (r == [] || !IsSpace(r[0]))
  {
    if s != [] && IsSpace(s[0]) {
      TrimStartSpec(s[1..]);
      var r := TrimStart(s);
      forall i | 0 <= i < |s| - |r| ensures IsSpace(s[i]) {
        if i > 0 { assert s[i] == s[1..][i - 1]; }
      }
    }
  }

  /** TrimEnd drops exactly the trailing spaces. */
  lemma {:induction false} TrimEndSpec(s: string)
    ensures var r := TrimEnd(s);
      |r| <= |s| && r == s[..|r|] &&
      (forall i :: |r| <= i < |s| ==> IsSpace(s[i])) &&
      (r == [] || !IsSpace(r[|r| - 1]))
  {
    if s != [] && IsSpace(s[|s| - 1]) {
      TrimEndSpec(s[..|s| - 1]);
      var r := TrimEnd(s);
      forall i | |r| <= i < |s| ensures IsSpace(s[i]) {
        if i < |s| - 1 { assert s[i] == s[..|s| - 1][i]; }
      }
    }
  }

  /** Trim never lengthens its input, what it keeps has a non-space at each end, the result is
      empty exactly when the input is all spaces, and an input with no space at either end is
      kept whole. */
  lemma TrimSpec(s: string)
    ensures var r := Trim(s);
      |r| <= |s| &&
      (r == [] || (!IsSpace(r[0]) && !IsSpace(r[|r| - 1]))) &&
      (r == [] <==> AllSpaces(s)) &&
      ((s == [] || (!IsSpace(s[0]) && !IsSpace(s[|s| - 1]))) ==> r == s)
  {
    var t := TrimStart(s);
    TrimStartSpec(s);
    TrimEndSpec(t);
    var r := Trim(s);
    var a := |s| - |t|;
    if r != [] {
      assert r[0] == t[0];
    }
    if s != [] && !IsSpace(s[0]) && !IsSpace(s[|s| - 1]) {
      assert t == s;
    }
  }

  /** Trimming a trimmed string changes nothing. */
  lemma TrimIdempotent(s: string)
    ensures Trim(Trim(s)) == Trim(s)
  {
    TrimSpec(s);
    TrimSpec(Trim(s));
  }
}
