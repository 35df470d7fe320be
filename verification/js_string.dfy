/** The two JavaScript string primitives the editor relies on:
    `String.prototype.substring` and `String.prototype.trim`.
    Positions count characters (see README for UTF-16 code units). */
module JsString {

  /** An index argument of `substring`, clamped into `[0, len]`. */
  function Clamp(i: int, len: nat): (r: nat)
    ensures r <= len
    ensures 0 <= i <= len ==> r == i
    ensures i < 0 ==> r == 0
    ensures i > len ==> r == len
  {
    if i < 0 then 0 else if i > len then len else i
  }

  /** `s.substring(a, b)`: both indices are clamped into the string, and the
      smaller one is the start whatever order they were given in. */
  function Substring(s: string, a: int, b: int): (r: string)
    ensures |r| <= |s|
    ensures 0 <= a <= b <= |s| ==> r == s[a..b]
    ensures 0 <= b <= a <= |s| ==> r == s[b..a]
  {
    var x := Clamp(a, |s|);
    var y := Clamp(b, |s|);
    if x <= y then s[x..y] else s[y..x]
  }

  /** `s.substring(a)`: everything from `a` to the end. */
  function SubstringFrom(s: string, a: int): (r: string)
    ensures 0 <= a <= |s| ==> r == s[a..]
    ensures a <= 0 ==> r == s
    ensures a >= |s| ==> r == []
  {
    Substring(s, a, |s|)
  }

  /** The code points `trim` removes: ECMAScript WhiteSpace (tab, vertical
      tab, form feed, ZWNBSP and every Unicode space separator) and
      LineTerminator (line feed, carriage return, U+2028, U+2029). */
  predicate IsJsWhitespace(c: char) {
    || c == '\t' || c == '\n' || c == '\U{000B}' || c == '\U{000C}' || c == '\r'
    || c == ' ' || c == '\U{00A0}' || c == '\U{1680}'
    || ('\U{2000}' <= c <= '\U{200A}')
    || c == '\U{2028}' || c == '\U{2029}' || c == '\U{202F}' || c == '\U{205F}'
    || c == '\U{3000}' || c == '\U{FEFF}'
  }

  /** Every character of `s` is whitespace (vacuously so for the empty string). */
  predicate AllWhitespace(s: string) {
    forall i :: 0 <= i < |s| ==> IsJsWhitespace(s[i])
  }

  /** `s` with its leading whitespace removed. */
  function TrimStart(s: string): (r: string)
    ensures |r| <= |s| && r == s[|s| - |r|..]
    ensures AllWhitespace(s[..|s| - |r|])
    ensures r == [] || !IsJsWhitespace(r[0])
    decreases |s|
  {
    if |s| > 0 && IsJsWhitespace(s[0]) then
      var r := TrimStart(s[1..]);
      WhitespaceCons(s, |s| - |r|);
      r
    else s
  }

  /** A whitespace character followed by whitespace is whitespace. */
  lemma WhitespaceCons(s: string, n: nat)
    requires 0 < n <= |s|
    requires IsJsWhitespace(s[0]) && AllWhitespace(s[1..][..n - 1])
    ensures AllWhitespace(s[..n])
  {
    forall k | 0 <= k < n ensures IsJsWhitespace(s[..n][k]) {
      if k > 0 {
        assert s[..n][k] == s[1..][..n - 1][k - 1];
      }
    }
  }

  /** `s` with its trailing whitespace removed. */
  function TrimEnd(s: string): (r: string)
    ensures |r| <= |s| && r == s[..|r|]
    ensures AllWhitespace(s[|r|..])
    ensures r == [] || !IsJsWhitespace(r[|r| - 1])
    decreases |s|
  {
    if |s| > 0 && IsJsWhitespace(s[|s| - 1]) then
      var r := TrimEnd(s[..|s| - 1]);
      WhitespaceSnoc(s, |r|);
      r
    else s
  }

  /** Whitespace followed by a whitespace character is whitespace. */
  lemma WhitespaceSnoc(s: string, n: nat)
    requires n < |s|
    requires IsJsWhitespace(s[|s| - 1]) && AllWhitespace(s[..|s| - 1][n..])
    ensures AllWhitespace(s[n..])
  {
    forall k | 0 <= k < |s| - n ensures IsJsWhitespace(s[n..][k]) {
      if k < |s| - 1 - n {
        assert s[n..][k] == s[..|s| - 1][n..][k];
      }
    }
  }

  /** `s.trim()`: both ends stripped. The result is empty exactly when every
      character of `s` is whitespace, and otherwise starts and ends with a
      non-whitespace character. */
  function Trim(s: string): (r: string)
    ensures |r| <= |s|
    ensures r == [] <==> AllWhitespace(s)
    ensures r != [] ==> !IsJsWhitespace(r[0]) && !IsJsWhitespace(r[|r| - 1])
    ensures exists i, j :: 0 <= i <= j <= |s| && r == s[i..j] && AllWhitespace(s[..i]) && AllWhitespace(s[j..])
  {
    var t := TrimStart(s);
    var u := TrimEnd(t);
    TrimmedSlice(s, t, u);
    u
  }

  /** Cutting whitespace from the front of `s` to get `t`, then from the back
      of `t` to get `u`, leaves `u` a slice of `s` with only whitespace on
      either side; `u` is empty exactly when `s` is all whitespace. */
  lemma TrimmedSlice(s: string, t: string, u: string)
    requires |t| <= |s| && t == s[|s| - |t|..] && AllWhitespace(s[..|s| - |t|])
    requires t == [] || !IsJsWhitespace(t[0])
    requires |u| <= |t| && u == t[..|u|] && AllWhitespace(t[|u|..])
    requires u == [] || !IsJsWhitespace(u[|u| - 1])
    ensures u == [] <==> AllWhitespace(s)
    ensures u != [] ==> !IsJsWhitespace(u[0])
    ensures exists i, j :: 0 <= i <= j <= |s| && u == s[i..j] && AllWhitespace(s[..i]) && AllWhitespace(s[j..])
  {
    var i, j := |s| - |t|, |s| - |t| + |u|;
    assert u == s[i..j];
    assert t[|u|..] == s[j..];
    WhitespaceOutside(s, i, j);
    if u != [] {
      assert u[0] == t[0];
      assert !AllWhitespace(u);
    }
  }

  /** When everything outside `s[i..j]` is whitespace, `s` is all whitespace
      exactly when `s[i..j]` is. */
  lemma WhitespaceOutside(s: string, i: nat, j: nat)
    requires i <= j <= |s|
    requires AllWhitespace(s[..i]) && AllWhitespace(s[j..])
    ensures AllWhitespace(s) <==> AllWhitespace(s[i..j])
  {
    if AllWhitespace(s[i..j]) {
      forall k | 0 <= k < |s| ensures IsJsWhitespace(s[k]) {
        if k < i {
          assert s[k] == s[..i][k];
        } else if k < j {
          assert s[k] == s[i..j][k - i];
        } else {
          assert s[k] == s[j..][k - j];
        }
      }
    }
  }
}
