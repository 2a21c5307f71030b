/** The string primitives the server applies to request fields: ECMAScript's
    white-space class (`\s` in a regular expression, what `String.prototype.trim`
    strips), trimming, ASCII lower-casing and JavaScript truthiness of an optional
    string field. */
module Text {
  import opened Common

  /** A character of ECMAScript's WhiteSpace or LineTerminator productions. */
  predicate IsJsSpace(c: char)
  {
    || c == '\t' || c == '\n' || c == '\U{0B}' || c == '\U{0C}' || c == '\r' || c == ' '
    || c == '\U{A0}' || c == '\U{1680}' || ('\U{2000}' <= c <= '\U{200A}')
    || c == '\U{2028}' || c == '\U{2029}' || c == '\U{202F}' || c == '\U{205F}'
    || c == '\U{3000}' || c == '\U{FEFF}'
  }

  function TrimStart(s: string): (r: string)
    ensures |r| <= |s|
    ensures r == s[|s| - |r|..]
    ensures r == [] || !IsJsSpace(r[0])
    ensures forall k :: 0 <= k < |s| - |r| ==> IsJsSpace(s[k])
  {
    if s != [] && IsJsSpace(s[0]) then TrimStart(s[1..]) else s
  }

  function TrimEnd(s: string): (r: string)
    ensures |r| <= |s|
    ensures r == s[..|r|]
    ensures r == [] || !IsJsSpace(r[|r| - 1])
    ensures forall k :: |r| <= k < |s| ==> IsJsSpace(s[k])
  {
    if s != [] && IsJsSpace(s[|s| - 1]) then TrimEnd(s[..|s| - 1]) else s
  }

  /** Neither end of `s` is white space. */
  predicate IsTrimmed(s: string)
  {
    s == [] || (!IsJsSpace(s[0]) && !IsJsSpace(s[|s| - 1]))
  }

  /** `String.prototype.trim`: white space removed from both ends. */
  function Trim(s: string): (r: string)
    ensures |r| <= |s|
    ensures IsTrimmed(r)
  {
    var t := TrimStart(s);
    var r := TrimEnd(t);
    assert r != [] ==> r[0] == t[0];
    r
  }

  /** Every character of `s` outside `[i, j)` is white space. */
  predicate SpaceOutside(s: string, i: int, j: int)
  {
    forall k :: 0 <= k < |s| && (k < i || j <= k) ==> IsJsSpace(s[k])
  }

  /** `r` is the slice of `s` starting at `i`, and all of `s` around it is white space. */
  predicate CutAt(s: string, r: string, i: int)
  {
    0 <= i <= |s| - |r| && s[i..i + |r|] == r && SpaceOutside(s, i, i + |r|)
  }

  /** `r` is `s` with nothing but white space cut from its two ends. */
  ghost predicate CutsOnlySpace(s: string, r: string)
  {
    exists i :: CutAt(s, r, i)
  }

  /** What trimming is: the one string with no white space at either end that
      `s` becomes by cutting white space from its ends. */
  lemma TrimIff(s: string, r: string)
    ensures r == Trim(s) <==> IsTrimmed(r) && CutsOnlySpace(s, r)
  {
    TrimCutsOnlySpace(s);
    if IsTrimmed(r) && CutsOnlySpace(s, r) {
      var i :| CutAt(s, r, i);
      TrimOfSpaceAround(s, r, i);
    }
  }

  lemma TrimCutsOnlySpace(s: string)
    ensures CutsOnlySpace(s, Trim(s))
  {
    var t := TrimStart(s);
    var r := TrimEnd(t);
    CutAtFromEnds(s, t, r);
    assert CutAt(s, Trim(s), |s| - |t|);
  }

  /** Cutting white space off the front and then off the back is a cut around a slice. */
  lemma CutAtFromEnds(s: string, t: string, r: string)
    requires |t| <= |s| && t == s[|s| - |t|..]
    requires forall k :: 0 <= k < |s| - |t| ==> IsJsSpace(s[k])
    requires |r| <= |t| && r == t[..|r|]
    requires forall k :: |r| <= k < |t| ==> IsJsSpace(t[k])
    ensures CutAt(s, r, |s| - |t|)
  {
    var i := |s| - |t|;
    assert s[i..i + |r|] == r;
    forall k | 0 <= k < |s| && i + |r| <= k ensures IsJsSpace(s[k]) {
      assert s[k] == t[k - i];
    }
  }

  lemma TrimOfSpaceAround(s: string, r: string, i: nat)
    requires IsTrimmed(r) && CutAt(s, r, i)
    ensures Trim(s) == r
  {
    if r == [] {
      TrimEmptyIff(s);
    } else {
      CutAtEnds(s, r, i);
      TrimStartSkips(s, i);
      TrimEndSkips(s[i..], |r|);
    }
  }

  /** Around a non-empty slice with no white space at its ends, the cut stops
      exactly at the slice. */
  lemma CutAtEnds(s: string, r: string, i: nat)
    requires IsTrimmed(r) && CutAt(s, r, i) && r != []
    ensures i < |s| && !IsJsSpace(s[i])
    ensures forall k :: 0 <= k < i ==> IsJsSpace(s[k])
    ensures 0 < |r| <= |s[i..]| && !IsJsSpace(s[i..][|r| - 1]) && s[i..][..|r|] == r
    ensures forall k :: |r| <= k < |s[i..]| ==> IsJsSpace(s[i..][k])
  {
    assert s[i] == r[0];
    var t := s[i..];
    assert t[|r| - 1] == r[|r| - 1];
    forall k | |r| <= k < |t| ensures IsJsSpace(t[k]) {
      assert t[k] == s[i + k];
    }
  }

  /** Leading white space up to a non-space character is what `TrimStart` cuts. */
  lemma {:induction false} TrimStartSkips(s: string, i: nat)
    requires i < |s| && !IsJsSpace(s[i])
    requires forall k :: 0 <= k < i ==> IsJsSpace(s[k])
    ensures TrimStart(s) == s[i..]
  {
    if i > 0 {
      assert IsJsSpace(s[0]);
      TrimStartSkips(s[1..], i - 1);
      assert s[1..][i - 1..] == s[i..];
    }
  }

  /** Trailing white space back to a non-space character is what `TrimEnd` cuts. */
  lemma {:induction false} TrimEndSkips(t: string, j: nat)
    requires 0 < j <= |t| && !IsJsSpace(t[j - 1])
    requires forall k :: j <= k < |t| ==> IsJsSpace(t[k])
    ensures TrimEnd(t) == t[..j]
    decreases |t| - j
  {
    if j < |t| {
      var front := t[..|t| - 1];
      assert IsJsSpace(t[|t| - 1]);
      TrimEndSkips(front, j);
      assert front[..j] == t[..j];
    }
  }

  /** Trimming twice is trimming once: a trimmed string is its own trim. */
  lemma TrimIdempotent(s: string)
    ensures Trim(Trim(s)) == Trim(s)
  {
    TrimFixesTrimmed(Trim(s));
  }

  /** The strings that trimming leaves alone are exactly those with no white
      space at either end. */
  lemma TrimFixesTrimmed(s: string)
    ensures Trim(s) == s <==> IsTrimmed(s)
  {
    if IsTrimmed(s) {
      assert TrimStart(s) == s;
      assert TrimEnd(s) == s;
    }
  }

  /** A string trims to empty exactly when every character is white space. */
  lemma {:induction false} TrimEmptyIff(s: string)
    ensures Trim(s) == [] <==> forall i :: 0 <= i < |s| ==> IsJsSpace(s[i])
  {
    TrimStartEmptyIff(s);
    var t := TrimStart(s);
    if t != [] {
      assert !IsJsSpace(t[0]);
      assert |TrimEnd(t)| > 0;
    }
  }

  lemma {:induction false} TrimStartEmptyIff(s: string)
    ensures TrimStart(s) == [] <==> forall i :: 0 <= i < |s| ==> IsJsSpace(s[i])
  {
    if s != [] && IsJsSpace(s[0]) {
      TrimStartEmptyIff(s[1..]);
      assert forall i :: 1 <= i < |s| ==> s[i] == s[1..][i - 1];
    }
  }

  /** ASCII upper-case letters mapped to lower case; every other character kept.
      (JavaScript's `toLowerCase` also folds non-ASCII letters.) */
  function LowerChar(c: char): char
  {
    if 'A' <= c <= 'Z' then (c as int + 32) as char else c
  }

  /** `toLowerCase` on ASCII: no upper-case ASCII letter is left, each one
      becomes the letter 32 code points above it (`'A'` to `'a'`), and every
      other character is kept. */
  function Lower(s: string): (r: string)
    ensures |r| == |s|
    ensures forall i :: 0 <= i < |r| ==> !('A' <= r[i] <= 'Z')
    ensures forall i :: 0 <= i < |s| && 'A' <= s[i] <= 'Z' ==>
      'a' <= r[i] <= 'z' && r[i] as int == s[i] as int + 32
    ensures forall i :: 0 <= i < |s| && !('A' <= s[i] <= 'Z') ==> r[i] == s[i]
  {
    seq(|s|, i requires 0 <= i < |s| => LowerChar(s[i]))
  }

  /** JavaScript truthiness of an optional request field: absent, `null` and the
      empty string are all falsy. */
  predicate Truthy(field: Option<string>)
  {
    field.Some? && field.value != ""
  }
}
