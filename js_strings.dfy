/**
 * The parts of JavaScript's `String.prototype.trim` and `Array.prototype.join`
 * that the argument merge relies on.
 */
module JsStrings {

  /** ECMAScript WhiteSpace and LineTerminator code points: what `trim` removes. */
  predicate IsWhitespace(c: char)
  {
    || c == '\t' || c == '\n' || c == '\U{000B}' || c == '\U{000C}' || c == '\r' || c == ' '
    || c == '\U{00A0}' || c == '\U{1680}' || ('\U{2000}' <= c <= '\U{200A}')
    || c == '\U{2028}' || c == '\U{2029}' || c == '\U{202F}' || c == '\U{205F}'
    || c == '\U{3000}' || c == '\U{FEFF}'
  }

  /**
   * Among ASCII characters, `trim` removes exactly tab, line feed, vertical
   * tab, form feed, carriage return and space.
   */
  lemma AsciiWhitespace(c: char)
    requires c < '\U{0080}'
    ensures IsWhitespace(c) <==> c in {'\t', '\n', '\U{000B}', '\U{000C}', '\r', ' '}
  {
  }

  /** Neither starts nor ends with whitespace. */
  predicate IsTrimmed(s: string)
  {
    s == [] || (!IsWhitespace(s[0]) && !IsWhitespace(s[|s| - 1]))
  }

  /** Drops leading whitespace: the result is the suffix that starts at the first non-blank. */
  function TrimStart(s: string): (r: string)
    ensures |r| <= |s| && r == s[|s| - |r|..]
    ensures r == [] || !IsWhitespace(r[0])
    ensures forall i :: 0 <= i < |s| - |r| ==> IsWhitespace(s[i])
  {
    if s != [] && IsWhitespace(s[0]) then TrimStart(s[1..]) else s
  }

  /** Drops trailing whitespace: the result is the prefix that ends at the last non-blank. */
  function TrimEnd(s: string): (r: string)
    ensures |r| <= |s| && r == s[..|r|]
    ensures r == [] || !IsWhitespace(r[|r| - 1])
    ensures forall i :: |r| <= i < |s| ==> IsWhitespace(s[i])
  {
    if s != [] && IsWhitespace(s[|s| - 1]) then TrimEnd(s[..|s| - 1]) else s
  }

  /** `s.trim()` */
  function Trim(s: string): (r: string)
    ensures IsTrimmed(r)
  {
    TrimEnd(TrimStart(s))
  }

  /** Everything `trim` cuts off, at either end, is whitespace. */
  lemma TrimCutsWhitespace(s: string)
    ensures var k := |s| - |TrimStart(s)|; var r := Trim(s);
      forall i :: 0 <= i < |s| && (i < k || k + |r| <= i) ==> IsWhitespace(s[i])
  {
    var a := TrimStart(s);
    BlankOutside(s, a, TrimEnd(a));
  }

  /**
   * A prefix `t` of a suffix `a` of `s` is a slice of `s`; when only
   * whitespace was cut off each time, everything outside the slice is
   * whitespace.
   */
  lemma BlankOutside(s: string, a: string, t: string)
    requires |a| <= |s| && a == s[|s| - |a|..]
    requires |t| <= |a| && t == a[..|t|]
    requires forall i :: 0 <= i < |s| - |a| ==> IsWhitespace(s[i])
    requires forall i :: |t| <= i < |a| ==> IsWhitespace(a[i])
    ensures var k := |s| - |a|; k + |t| <= |s| && t == s[k..k + |t|]
    ensures var k := |s| - |a|; forall i :: 0 <= i < |s| && (i < k || k + |t| <= i) ==> IsWhitespace(s[i])
  {
    var k := |s| - |a|;
    forall i | 0 <= i < |s| && k + |t| <= i ensures IsWhitespace(s[i]) {
      assert s[i] == a[i - k];
    }
  }

  /** Trimming changes nothing exactly when the string is already trimmed. */
  lemma TrimFixpoint(s: string)
    ensures Trim(s) == s <==> IsTrimmed(s)
  {
    var a := TrimStart(s);
    if IsTrimmed(s) && s != [] {
      assert a == s;
      assert TrimEnd(a) == a;
    }
  }

  /** A string is blank when trimming leaves nothing: every character is whitespace. */
  lemma BlankIffAllWhitespace(s: string)
    ensures Trim(s) == "" <==> forall i :: 0 <= i < |s| ==> IsWhitespace(s[i])
  {
    var a := TrimStart(s);
    if Trim(s) == "" {
      forall i | |s| - |a| <= i < |s| ensures IsWhitespace(s[i]) {
        assert s[i] == a[i - (|s| - |a|)];
      }
    }
  }

  /** `parts.join(sep)` */
  function Join(parts: seq<string>, sep: string): (r: string)
    ensures parts == [] ==> r == ""
    ensures |parts| == 1 ==> r == parts[0]
  {
    if parts == [] then ""
    else if |parts| == 1 then parts[0]
    else parts[0] + sep + Join(parts[1..], sep)
  }

  /** Joining two non-empty lists inserts exactly one separator between them. */
  lemma {:induction false} JoinAppend(a: seq<string>, b: seq<string>, sep: string)
    requires a != [] && b != []
    ensures Join(a + b, sep) == Join(a, sep) + sep + Join(b, sep)
  {
    if |a| == 1 {
      assert (a + b)[1..] == b;
    } else {
      assert (a + b)[1..] == a[1..] + b;
      JoinAppend(a[1..], b, sep);
    }
  }
}
