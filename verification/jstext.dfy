/** JavaScript's `String.prototype.trim` and the truthiness of its result. */
module JsText {

  /** The characters ECMAScript counts as WhiteSpace or LineTerminator, which `trim` strips. */
  predicate IsWhitespace(ch: char) {
    || ch == '\t' || ch == '\n' || ch == '\U{000B}' || ch == '\U{000C}' || ch == '\r' || ch == ' '
    || ch == '\U{00A0}' || ch == '\U{1680}' || ('\U{2000}' <= ch <= '\U{200A}')
    || ch == '\U{2028}' || ch == '\U{2029}' || ch == '\U{202F}' || ch == '\U{205F}'
    || ch == '\U{3000}' || ch == '\U{FEFF}'
  }

  predicate AllWhitespace(s: string) {
    forall k :: 0 <= k < |s| ==> IsWhitespace(s[k])
  }

  /** `s` with its leading whitespace removed: a suffix of `s` that starts with a visible character. */
  function TrimStart(s: string): (r: string)
    ensures |r| <= |s| && r == s[|s| - |r|..]
    ensures AllWhitespace(s[..|s| - |r|])
    ensures r != [] ==> !IsWhitespace(r[0])
  {
    if s != [] && IsWhitespace(s[0]) then
      var r := TrimStart(s[1..]);
      TrimStartStep(s, r);
      r
    else s
  }

  /** One step of `TrimStart`: a leading blank joins the cut-off prefix of the rest. */
  lemma TrimStartStep(s: string, r: string)
    requires s != [] && IsWhitespace(s[0])
    requires |r| <= |s| - 1 && r == s[1..][|s| - 1 - |r|..]
    requires AllWhitespace(s[1..][..|s| - 1 - |r|])
    ensures r == s[|s| - |r|..]
    ensures AllWhitespace(s[..|s| - |r|])
  {
    var n := |s| - |r|;
    assert s[1..][n - 1..] == s[n..];
    forall k | 0 <= k < n ensures IsWhitespace(s[..n][k]) {
      if k > 0 { assert s[..n][k] == s[1..][..n - 1][k - 1]; }
    }
  }

  /** `s` with its trailing whitespace removed: a prefix of `s` that ends with a visible character. */
  function TrimEnd(s: string): (r: string)
    ensures |r| <= |s| && r == s[..|r|]
    ensures AllWhitespace(s[|r|..])
    ensures r != [] ==> !IsWhitespace(r[|r| - 1])
  {
    if s != [] && IsWhitespace(s[|s| - 1]) then
      var r := TrimEnd(s[..|s| - 1]);
      TrimEndStep(s, r);
      r
    else s
  }

  /** One step of `TrimEnd`: a trailing blank joins the cut-off suffix of the rest. */
  lemma TrimEndStep(s: string, r: string)
    requires s != [] && IsWhitespace(s[|s| - 1])
    requires |r| <= |s| - 1 && r == s[..|s| - 1][..|r|]
    requires AllWhitespace(s[..|s| - 1][|r|..])
    ensures r == s[..|r|]
    ensures AllWhitespace(s[|r|..])
  {
    var p := s[..|s| - 1];
    assert p[..|r|] == s[..|r|];
    forall k | 0 <= k < |s| - |r| ensures IsWhitespace(s[|r|..][k]) {
      if |r| + k < |s| - 1 { assert s[|r|..][k] == p[|r|..][k]; }
    }
  }

  /** `s.trim()`: a contiguous slice of `s` with only whitespace cut away on either side. */
  function Trim(s: string): (r: string)
    ensures exists i, j :: 0 <= i <= j <= |s| && r == s[i..j] && AllWhitespace(s[..i]) && AllWhitespace(s[j..])
    ensures r != [] ==> !IsWhitespace(r[0]) && !IsWhitespace(r[|r| - 1])
  {
    var t := TrimStart(s);
    var r := TrimEnd(t);
    TrimFacts(s, t, r);
    r
  }

  /** Trimming the end after the start leaves the slice between two all-blank margins. */
  lemma TrimFacts(s: string, t: string, r: string)
    requires |t| <= |s| && t == s[|s| - |t|..] && AllWhitespace(s[..|s| - |t|])
    requires |r| <= |t| && r == t[..|r|] && AllWhitespace(t[|r|..])
    ensures exists i, j :: 0 <= i <= j <= |s| && r == s[i..j] && AllWhitespace(s[..i]) && AllWhitespace(s[j..])
  {
    var i := |s| - |t|;
    var j := i + |r|;
    assert r == s[i..j];
    assert s[j..] == t[|r|..];
    assert 0 <= i <= j <= |s| && r == s[i..j] && AllWhitespace(s[..i]) && AllWhitespace(s[j..]);
  }

  /** The guard `if (text.trim())`: the trimmed string is truthy exactly when some character is not whitespace. */
  lemma TrimEmptyIff(s: string)
    ensures Trim(s) == [] <==> AllWhitespace(s)
  {
    if Trim(s) == [] {
      EmptyTrimIsBlank(s);
    } else {
      VisibleTrimIsNotBlank(s);
    }
  }

  /** Nothing survives the trim only when the whole string is whitespace. */
  lemma EmptyTrimIsBlank(s: string)
    requires Trim(s) == []
    ensures AllWhitespace(s)
  {
    var t := TrimStart(s);
    var n := |s| - |t|;
    BlankAfterTrimStart(s[..n], t);
    assert s == s[..n] + t;
  }

  /** A non-empty trim starts with a visible character of the string. */
  lemma VisibleTrimIsNotBlank(s: string)
    requires Trim(s) != []
    ensures !AllWhitespace(s)
  {
    var t := TrimStart(s);
    var n := |s| - |t|;
    assert Trim(s)[0] == t[0] == s[n];
  }

  /** A whitespace prefix followed by a remainder that `TrimEnd` empties is all whitespace. */
  lemma BlankAfterTrimStart(a: string, t: string)
    requires AllWhitespace(a)
    requires TrimEnd(t) == []
    ensures AllWhitespace(a + t)
  {
    assert t[0..] == t;
    AllWhitespaceConcat(a, t);
  }

  /** A concatenation is all whitespace exactly when both parts are. */
  lemma AllWhitespaceConcat(a: string, b: string)
    ensures AllWhitespace(a + b) <==> AllWhitespace(a) && AllWhitespace(b)
  {
    if AllWhitespace(a + b) {
      forall k | 0 <= k < |b| ensures IsWhitespace(b[k]) { assert (a + b)[|a| + k] == b[k]; }
      forall k | 0 <= k < |a| ensures IsWhitespace(a[k]) { assert (a + b)[k] == a[k]; }
    }
  }
}
