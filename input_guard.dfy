/**
 * The submission guard of the add form: `newTodo.trim()` must be non-empty
 * (app/page.tsx:103, 113). JavaScript's `String.prototype.trim` is written out here.
 */
module InputGuard {

  /**
   * The characters `trim` strips: the WhiteSpace and LineTerminator productions of the
   * ECMAScript language specification (sections 12.2 and 12.3), that is TAB, VT, FF,
   * ZWNBSP, every space separator (category Zs), LF, CR, LS and PS.
   */
  predicate IsTrimmable(c: char)
    ensures c < '\U{0080}' ==> (IsTrimmable(c) <==> c in "\t\n\U{000B}\U{000C}\r ")
  {
    || c == '\t' || c == '\U{000B}' || c == '\U{000C}' || c == '\U{FEFF}'
    || c == ' ' || c == '\U{00A0}' || c == '\U{1680}' || ('\U{2000}' <= c <= '\U{200A}')
    || c == '\U{202F}' || c == '\U{205F}' || c == '\U{3000}'
    || c == '\n' || c == '\r' || c == '\U{2028}' || c == '\U{2029}'
  }

  /** Drops the leading trimmable characters: the result is the suffix starting at the first other character. */
  function TrimStart(s: string): (r: string)
    ensures |r| <= |s| && r == s[|s| - |r|..]
    ensures forall i :: 0 <= i < |s| - |r| ==> IsTrimmable(s[i])
    ensures r != [] ==> !IsTrimmable(r[0])
  {
    if s != [] && IsTrimmable(s[0]) then
      var r := TrimStart(s[1..]);
      assert s[1..][|s| - 1 - |r|..] == s[|s| - |r|..];
      r
    else s
  }

  /** Drops the trailing trimmable characters: the result is the prefix ending at the last other character. */
  function TrimEnd(s: string): (r: string)
    ensures |r| <= |s| && r == s[..|r|]
    ensures forall i :: |r| <= i < |s| ==> IsTrimmable(s[i])
    ensures r != [] ==> !IsTrimmable(r[|r| - 1])
  {
    if s != [] && IsTrimmable(s[|s| - 1]) then
      var r := TrimEnd(s[..|s| - 1]);
      assert s[..|s| - 1][..|r|] == s[..|r|];
      r
    else s
  }

  /** `s.trim()`: never longer than the input, and a non-empty result neither starts nor ends with a trimmable character. */
  function Trim(s: string): (r: string)
    ensures |r| <= |s|
    ensures r != [] ==> !IsTrimmable(r[0]) && !IsTrimmable(r[|r| - 1])
  {
    var u := TrimStart(s);
    var r := TrimEnd(u);
    assert r != [] ==> r[0] == u[0];
    r
  }

  /** `trim` yields the empty string exactly when every character is trimmable. */
  lemma TrimEmptyIffBlank(s: string)
    ensures Trim(s) == [] <==> forall i :: 0 <= i < |s| ==> IsTrimmable(s[i])
  {
    var u := TrimStart(s);
    if Trim(s) == [] {
      // A non-empty `u` starts with a kept character, which `TrimEnd` would keep too.
      assert u == [];
    } else {
      assert u != [];
      assert s[|s| - |u|] == u[0];
    }
  }

  /** The result of `trim` is the contiguous piece of the input that starts after the leading trimmable characters. */
  lemma TrimIsInfix(s: string)
    ensures var k := |s| - |TrimStart(s)|; k + |Trim(s)| <= |s| && Trim(s) == s[k..k + |Trim(s)|]
  {
    var u := TrimStart(s);
    var r := TrimEnd(u);
    var k := |s| - |u|;
    assert u == s[k..];
    assert r == u[..|r|];
  }

  /** Whether the button submits: `newTodo.trim()` is truthy, i.e. some character is not trimmable. */
  function ShouldSubmit(input: string): (b: bool)
    ensures b <==> exists i :: 0 <= i < |input| && !IsTrimmable(input[i])
  {
    TrimEmptyIffBlank(input);
    Trim(input) != []
  }

  /** Whether a key press submits: the key is Enter and the input passes the same guard. */
  function ShouldSubmitOnKey(key: string, input: string): (b: bool)
    ensures b <==> key == "Enter" && exists i :: 0 <= i < |input| && !IsTrimmable(input[i])
  {
    key == "Enter" && ShouldSubmit(input)
  }

  /** Examples: an empty or blank input is refused; surrounding spaces do not matter. */
  lemma GuardExamples()
    ensures !ShouldSubmit("")
    ensures !ShouldSubmit(" \t\n")
    ensures ShouldSubmit("  Buy milk ")
    ensures !ShouldSubmitOnKey("a", "Buy milk")
  {
    assert !IsTrimmable("  Buy milk "[2]);
  }
}
