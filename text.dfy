/** JavaScript's `String.prototype.trim`, which the submit handler uses to reject
    names and descriptions that are empty or consist of whitespace only. */
module Text {

  /** The code points ECMAScript counts as WhiteSpace or LineTerminator, which `trim` strips:
      TAB, LF, VT, FF, CR, SPACE, NBSP, the space separators of category Zs, LS, PS and ZWNBSP. */
  predicate IsWhitespace(c: char) {
    c == '\t' || c == '\n' || c == '\U{000B}' || c == '\U{000C}' || c == '\r' || c == ' '
    || c == '\U{00A0}' || c == '\U{1680}' || ('\U{2000}' <= c <= '\U{200A}')
    || c == '\U{2028}' || c == '\U{2029}' || c == '\U{202F}' || c == '\U{205F}'
    || c == '\U{3000}' || c == '\U{FEFF}'
  }

  predicate IsBlank(s: string) {
    forall i :: 0 <= i < |s| ==> IsWhitespace(s[i])
  }

  /** `s` without its leading whitespace. */
  function TrimStart(s: string): string {
    if s != [] && IsWhitespace(s[0]) then TrimStart(s[1..]) else s
  }

  /** `s` without its trailing whitespace. */
  function TrimEnd(s: string): string {
    if s != [] && IsWhitespace(s[|s| - 1]) then TrimEnd(s[..|s| - 1]) else s
  }

  /** `s.trim()`: `s` without its leading and its trailing whitespace. */
  function Trim(s: string): string {
    TrimEnd(TrimStart(s))
  }

  /** TrimStart keeps a suffix of `s` that starts with a non-blank character, and
      everything it cuts off is whitespace. */
  lemma {:induction false} TrimStartSpec(s: string)
    ensures |TrimStart(s)| <= |s| && TrimStart(s) == s[|s| - |TrimStart(s)|..]
    ensures TrimStart(s) == [] || !IsWhitespace(TrimStart(s)[0])
    ensures IsBlank(s[..|s| - |TrimStart(s)|])
  {
    if s != [] && IsWhitespace(s[0]) {
      TrimStartSpec(s[1..]);
      var r := TrimStart(s);
      var k := |s| - |r|;
      assert r == s[1..][|s| - 1 - |r|..];
      forall j | 0 <= j < k ensures IsWhitespace(s[..k][j]) {
        if j > 0 { assert s[..k][j] == s[1..][..k - 1][j - 1]; }
      }
    }
  }

  /** TrimEnd keeps a prefix of `s` that ends with a non-blank character, and
      everything it cuts off is whitespace. */
  lemma {:induction false} TrimEndSpec(s: string)
    ensures |TrimEnd(s)| <= |s| && TrimEnd(s) == s[..|TrimEnd(s)|]
    ensures TrimEnd(s) == [] || !IsWhitespace(TrimEnd(s)[|TrimEnd(s)| - 1])
    ensures IsBlank(s[|TrimEnd(s)|..])
  {
    if s != [] && IsWhitespace(s[|s| - 1]) {
      var s' := s[..|s| - 1];
      TrimEndSpec(s');
      var r := TrimEnd(s);
      assert r == s'[..|r|];
      forall j | |r| <= j < |s| ensures IsWhitespace(s[j]) {
        if j < |s| - 1 { assert s'[|r|..][j - |r|] == s[j]; }
      }
      assert IsBlank(s[|r|..]) by {
        forall j | 0 <= j < |s| - |r| ensures IsWhitespace(s[|r|..][j]) { assert s[|r|..][j] == s[|r| + j]; }
      }
    }
  }

  /** Trim leaves no whitespace at either end of its result. */
  lemma TrimSpec(s: string)
    ensures |Trim(s)| <= |s|
    ensures Trim(s) == [] || (!IsWhitespace(Trim(s)[0]) && !IsWhitespace(Trim(s)[|Trim(s)| - 1]))
  {
    TrimStartSpec(s);
    TrimEndSpec(TrimStart(s));
  }

  lemma {:induction false} TrimStartOfBlank(s: string)
    requires IsBlank(s)
    ensures TrimStart(s) == []
  {
    if s != [] {
      assert IsWhitespace(s[0]);
      assert IsBlank(s[1..]) by {
        forall j | 0 <= j < |s| - 1 ensures IsWhitespace(s[1..][j]) { assert s[1..][j] == s[j + 1]; }
      }
      TrimStartOfBlank(s[1..]);
    }
  }

  /** `!s.trim()` holds exactly for the empty and the whitespace-only strings. */
  lemma TrimEmptyIffBlank(s: string)
    ensures Trim(s) == [] <==> IsBlank(s)
  {
    TrimStartSpec(s);
    var t := TrimStart(s);
    TrimEndSpec(t);
    var i := |s| - |t|;
    if Trim(s) == [] {
      assert IsBlank(t[0..]);
      assert t == [];
      assert s[..i] == s;
    }
    if IsBlank(s) {
      TrimStartOfBlank(s);
    }
  }
}
