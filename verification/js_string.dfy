/**
 * The part of ECMAScript string semantics the chat server relies on:
 * `String.prototype.trim`, which strips white space and line terminators
 * from both ends of a string.
 */
module JsString {

  /** ECMAScript WhiteSpace (TAB, VT, FF, ZWNBSP and every space separator of
      Unicode category Zs) and LineTerminator (LF, CR, LS, PS). */
  predicate IsWhitespace(c: char) {
    || c == '\t' || c == '\n' || c == '\U{000B}' || c == '\U{000C}' || c == '\r'
    || c == ' ' || c == '\U{00A0}' || c == '\U{1680}'
    || ('\U{2000}' <= c <= '\U{200A}')
    || c == '\U{2028}' || c == '\U{2029}' || c == '\U{202F}' || c == '\U{205F}'
    || c == '\U{3000}' || c == '\U{FEFF}'
  }

  predicate AllWhitespace(s: string) {
    forall i :: 0 <= i < |s| ==> IsWhitespace(s[i])
  }

  /** Neither end of `s` is white space. */
  predicate Trimmed(s: string) {
    s == [] || (!IsWhitespace(s[0]) && !IsWhitespace(s[|s| - 1]))
  }

  /** `r` is what remains of `s` once white space is cut from both ends:
      a slice of `s`, with only white space cut away, and none left at either end. */
  ghost predicate IsTrimOf(s: string, r: string) {
    exists i, j :: 0 <= i <= j <= |s| && r == s[i..j]
                   && AllWhitespace(s[..i]) && AllWhitespace(s[j..]) && Trimmed(r)
  }

  /** Strips leading white space. */
  function TrimStart(s: string): (r: string)
    ensures |r| <= |s| && r == s[|s| - |r|..]
    ensures forall k :: 0 <= k < |s| - |r| ==> IsWhitespace(s[k])
    ensures r == [] || !IsWhitespace(r[0])
  {
    if s != [] && IsWhitespace(s[0]) then
      var r := TrimStart(s[1..]);
      assert s[1..][|s| - 1 - |r|..] == s[|s| - |r|..];
      r
    else s
  }

  /** Strips trailing white space. */
  function TrimEnd(s: string): (r: string)
    ensures |r| <= |s| && r == s[..|r|]
    ensures forall k :: |r| <= k < |s| ==> IsWhitespace(s[k])
    ensures r == [] || !IsWhitespace(r[|r| - 1])
  {
    if s != [] && IsWhitespace(s[|s| - 1]) then
      var r := TrimEnd(s[..|s| - 1]);
      assert s[..|s| - 1][..|r|] == s[..|r|];
      r
    else s
  }

  /** `String.prototype.trim`. */
  function Trim(s: string): (r: string)
    ensures IsTrimOf(s, r)
    ensures r == [] <==> AllWhitespace(s)
  {
    var a := TrimStart(s);
    var r := TrimEnd(a);
    TrimPasses(s, a, r);
    r
  }

  /** Stripping leading and then trailing white space cuts a white-space
      prefix and a white-space suffix and leaves neither end white space. */
  lemma TrimPasses(s: string, a: string, r: string)
    requires |a| <= |s| && a == s[|s| - |a|..]
    requires forall k :: 0 <= k < |s| - |a| ==> IsWhitespace(s[k])
    requires a == [] || !IsWhitespace(a[0])
    requires |r| <= |a| && r == a[..|r|]
    requires forall k :: |r| <= k < |a| ==> IsWhitespace(a[k])
    requires r == [] || !IsWhitespace(r[|r| - 1])
    ensures IsTrimOf(s, r)
    ensures r == [] <==> AllWhitespace(s)
  {
    var i := |s| - |a|;
    assert r == s[i..i + |r|];
    assert forall k :: i + |r| <= k < |s| ==> IsWhitespace(s[k]) by {
      forall k | i + |r| <= k < |s| ensures IsWhitespace(s[k]) {
        assert s[k] == a[k - i];
      }
    }
    assert Trimmed(r) by {
      if r != [] { assert r[0] == a[0]; }
    }
    CutIsTrim(s, i, i + |r|);
  }

  /** Cutting a white-space prefix and a white-space suffix so that neither
      end of what remains is white space gives the trim of a string. */
  lemma CutIsTrim(s: string, i: nat, j: nat)
    requires i <= j <= |s|
    requires forall k :: 0 <= k < i ==> IsWhitespace(s[k])
    requires forall k :: j <= k < |s| ==> IsWhitespace(s[k])
    requires Trimmed(s[i..j])
    ensures IsTrimOf(s, s[i..j])
    ensures s[i..j] == [] <==> AllWhitespace(s)
  {
    assert AllWhitespace(s[..i]);
    assert AllWhitespace(s[j..]);
    if i < j {
      assert s[i..j][0] == s[i];
    }
  }

  /** A string with no white space at either end is its own trim. */
  lemma TrimOfTrimmed(s: string)
    requires Trimmed(s)
    ensures Trim(s) == s
  {
    assert TrimStart(s) == s;
    assert TrimEnd(s) == s;
  }

  /** Trimming twice is trimming once. */
  lemma TrimIdempotent(s: string)
    ensures Trim(Trim(s)) == Trim(s)
  {
    TrimIsTrimmed(s);
    TrimOfTrimmed(Trim(s));
  }

  /** The result of trim has no white space at either end. */
  lemma TrimIsTrimmed(s: string)
    ensures Trimmed(Trim(s))
  {
    var r := Trim(s);
    var i, j :| 0 <= i <= j <= |s| && r == s[i..j]
                && AllWhitespace(s[..i]) && AllWhitespace(s[j..]) && Trimmed(r);
  }

  /** Trimming a string that is not all white space leaves some of it. */
  lemma TrimNotBlank(s: string)
    requires !AllWhitespace(s)
    ensures Trim(s) != [] && !AllWhitespace(Trim(s))
  {
    TrimIsTrimmed(s);
    assert !IsWhitespace(Trim(s)[0]);
  }
}
