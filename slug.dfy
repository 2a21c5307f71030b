/** Slug derivation, the expression shared by the post and category pre-save
    hooks:
        text.toLowerCase().replace(/[^a-z0-9]+/g, "-").replace(/^-*|-*$/g, "")
    modelled stage by stage (Lower, Collapse, TrimDashes), with the algebraic
    facts the rest of the model relies on: the output alphabet, the shape of a
    slug, idempotence, when a slug is empty, and when two texts collide. */
module Slug {
  import opened Text

  /** The character class `[a-z0-9]`. */
  predicate IsSlugAlnum(c: char)
  {
    'a' <= c <= 'z' || '0' <= c <= '9'
  }

  /** The letters and digits of `s`, in order: what a slug keeps of its text. */
  function Alnums(s: string): string
  {
    if s == [] then []
    else if IsSlugAlnum(s[0]) then [s[0]] + Alnums(s[1..])
    else Alnums(s[1..])
  }

  predicate NoDoubleDash(s: string)
  {
    forall i :: 0 <= i < |s| - 1 ==> !(s[i] == '-' && s[i + 1] == '-')
  }

  predicate InSlugAlphabet(s: string)
  {
    forall i :: 0 <= i < |s| ==> IsSlugAlnum(s[i]) || s[i] == '-'
  }

  /** What every slug looks like: only `a-z`, `0-9` and `-`, no `--`, and no
      `-` at either end. */
  predicate IsSlug(s: string)
  {
    && InSlugAlphabet(s)
    && NoDoubleDash(s)
    && (s == [] || (s[0] != '-' && s[|s| - 1] != '-'))
  }

  /** `.replace(/[^a-z0-9]+/g, "-")`: every maximal run of characters outside
      `[a-z0-9]` becomes a single `-`. `inRun` says that the character just
      before `s` already belonged to a replaced run. */
  function Collapse(s: string, inRun: bool): (r: string)
    ensures InSlugAlphabet(r) && NoDoubleDash(r)
    ensures inRun ==> r == [] || r[0] != '-'
    ensures Alnums(r) == Alnums(s)
  {
    if s == [] then []
    else if IsSlugAlnum(s[0]) then [s[0]] + Collapse(s[1..], false)
    else if inRun then Collapse(s[1..], true)
    else
      var rest := Collapse(s[1..], true);
      assert Alnums(['-'] + rest) == Alnums(rest) by {
        assert (['-'] + rest)[1..] == rest;
      }
      ['-'] + rest
  }

  /** The `^-*` half of the final replacement. */
  function TrimLeadingDashes(s: string): (r: string)
    ensures |r| <= |s| && r == s[|s| - |r|..]
    ensures r == [] || r[0] != '-'
    ensures Alnums(r) == Alnums(s)
  {
    if s != [] && s[0] == '-' then TrimLeadingDashes(s[1..]) else s
  }

  /** The `-*$` half of the final replacement. */
  function TrimTrailingDashes(s: string): (r: string)
    ensures |r| <= |s| && r == s[..|r|]
    ensures r == [] || r[|r| - 1] != '-'
    ensures Alnums(r) == Alnums(s)
  {
    if s != [] && s[|s| - 1] == '-' then
      var front := s[..|s| - 1];
      AlnumsAppend(front, ['-']);
      assert s == front + ['-'];
      TrimTrailingDashes(front)
    else s
  }

  /** `.replace(/^-*|-*$/g, "")`: dashes removed from both ends. */
  function TrimDashes(s: string): string
  {
    TrimTrailingDashes(TrimLeadingDashes(s))
  }

  /** The slug of a title or category name. Its result is always slug-shaped
      and keeps exactly the letters and digits of the lower-cased text, in
      order. */
  function Slugify(text: string): (r: string)
    ensures IsSlug(r)
    ensures Alnums(r) == Alnums(Lower(text))
  {
    var c := Collapse(Lower(text), false);
    TrimDashesMakesSlug(c);
    TrimDashes(c)
  }

  /** Trimming the dashes at both ends of a collapsed string leaves a slug. */
  lemma TrimDashesMakesSlug(c: string)
    requires InSlugAlphabet(c) && NoDoubleDash(c)
    ensures IsSlug(TrimDashes(c))
  {
    TrimLeadingKeepsShape(c);
    TrimTrailingKeepsShape(TrimLeadingDashes(c));
  }

  lemma TrimLeadingKeepsShape(c: string)
    requires InSlugAlphabet(c) && NoDoubleDash(c)
    ensures InSlugAlphabet(TrimLeadingDashes(c)) && NoDoubleDash(TrimLeadingDashes(c))
  {
    var t := TrimLeadingDashes(c);
    SliceKeepsShape(c, |c| - |t|, |c|);
  }

  lemma TrimTrailingKeepsShape(t: string)
    requires InSlugAlphabet(t) && NoDoubleDash(t) && (t == [] || t[0] != '-')
    ensures IsSlug(TrimTrailingDashes(t))
  {
    var r := TrimTrailingDashes(t);
    SliceKeepsShape(t, 0, |r|);
    assert r == [] || r[0] == t[0];
  }

  /** A contiguous piece of a string in the slug alphabet without `--` is again
      in the alphabet and without `--`. */
  lemma SliceKeepsShape(s: string, lo: nat, hi: nat)
    requires lo <= hi <= |s|
    requires InSlugAlphabet(s) && NoDoubleDash(s)
    ensures InSlugAlphabet(s[lo..hi]) && NoDoubleDash(s[lo..hi])
  {
    var t := s[lo..hi];
    assert forall i :: 0 <= i < |t| ==> t[i] == s[lo + i];
  }

  lemma {:induction false} AlnumsAppend(a: string, b: string)
    ensures Alnums(a + b) == Alnums(a) + Alnums(b)
  {
    if a == [] {
      assert a + b == b;
    } else {
      assert (a + b)[0] == a[0];
      assert (a + b)[1..] == a[1..] + b;
      AlnumsAppend(a[1..], b);
    }
  }

  lemma {:induction false} AlnumsEmptyIff(s: string)
    ensures Alnums(s) == [] <==> forall i :: 0 <= i < |s| ==> !IsSlugAlnum(s[i])
  {
    if s != [] {
      AlnumsEmptyIff(s[1..]);
      assert forall i :: 1 <= i < |s| ==> s[i] == s[1..][i - 1];
    }
  }

  /** A slug-shaped string is left unchanged by the collapsing stage. */
  lemma {:induction false} CollapseFixesSlugShape(t: string, inRun: bool)
    requires InSlugAlphabet(t) && NoDoubleDash(t)
    requires inRun ==> t == [] || t[0] != '-'
    ensures Collapse(t, inRun) == t
  {
    if t != [] {
      var rest := t[1..];
      assert InSlugAlphabet(rest) && NoDoubleDash(rest) by {
        assert forall i :: 0 <= i < |rest| ==> rest[i] == t[i + 1];
      }
      if IsSlugAlnum(t[0]) {
        CollapseFixesSlugShape(rest, false);
        assert t == [t[0]] + rest;
      } else {
        assert |t| > 1 ==> t[1] != '-';
        CollapseFixesSlugShape(rest, true);
        assert t == ['-'] + rest;
      }
    }
  }

  /** A slug is its own slug. */
  lemma SlugifyFixesSlugs(t: string)
    requires IsSlug(t)
    ensures Slugify(t) == t
  {
    LowerFixesSlugAlphabet(t);
    CollapseFixesSlugShape(t, false);
    TrimDashesFixesSlugs(t);
  }

  /** Lower-casing leaves `a-z`, `0-9` and `-` alone. */
  lemma LowerFixesSlugAlphabet(t: string)
    requires InSlugAlphabet(t)
    ensures Lower(t) == t
  {
    forall i | 0 <= i < |t| ensures Lower(t)[i] == t[i] {
      assert IsSlugAlnum(t[i]) || t[i] == '-';
    }
  }

  lemma TrimDashesFixesSlugs(t: string)
    requires IsSlug(t)
    ensures TrimDashes(t) == t
  {
    assert TrimLeadingDashes(t) == t;
    assert TrimTrailingDashes(t) == t;
  }

  /** Deriving the slug of a slug changes nothing. */
  lemma SlugifyIdempotent(text: string)
    ensures Slugify(Slugify(text)) == Slugify(text)
  {
    SlugifyFixesSlugs(Slugify(text));
  }

  /** A slug is empty exactly when the text has no ASCII letter or digit. */
  lemma SlugEmptyIff(text: string)
    ensures Slugify(text) == [] <==> forall i :: 0 <= i < |text| ==> !IsSlugAlnum(LowerChar(text[i]))
  {
    var r := Slugify(text);
    var low := Lower(text);
    AlnumsEmptyIff(low);
    assert forall i :: 0 <= i < |text| ==> low[i] == LowerChar(text[i]);
    if r != [] {
      assert IsSlugAlnum(r[0]);
      assert Alnums(r) != [] by {
        assert Alnums(r) == [r[0]] + Alnums(r[1..]);
      }
    }
  }

  /** Two characters the slug cannot tell apart: equal once lower-cased, or
      both outside `[a-z0-9]` once lower-cased. */
  predicate SlugEquivalent(a: char, b: char)
  {
    LowerChar(a) == LowerChar(b)
    || (!IsSlugAlnum(LowerChar(a)) && !IsSlugAlnum(LowerChar(b)))
  }

  lemma {:induction false} CollapseRespectsEquivalence(s: string, t: string, inRun: bool)
    requires |s| == |t|
    requires forall i :: 0 <= i < |s| ==> s[i] == t[i] || (!IsSlugAlnum(s[i]) && !IsSlugAlnum(t[i]))
    ensures Collapse(s, inRun) == Collapse(t, inRun)
  {
    if s != [] {
      CollapseRespectsEquivalence(s[1..], t[1..], !IsSlugAlnum(s[0]));
    }
  }

  /** Titles that differ only in letter case, or in which character fills
      each punctuation position, derive the same slug, so the second of them
      collides with the first under the unique slug index. */
  lemma SlugCollision(s: string, t: string)
    requires |s| == |t|
    requires forall i :: 0 <= i < |s| ==> SlugEquivalent(s[i], t[i])
    ensures Slugify(s) == Slugify(t)
  {
    CollapseRespectsEquivalence(Lower(s), Lower(t), false);
  }

  predicate AllAlnum(w: string)
  {
    forall i :: 0 <= i < |w| ==> IsSlugAlnum(w[i])
  }

  predicate NoAlnum(w: string)
  {
    forall i :: 0 <= i < |w| ==> !IsSlugAlnum(w[i])
  }

  lemma {:induction false} CollapseWord(w: string, rest: string, inRun: bool)
    requires w != [] && AllAlnum(w)
    ensures Collapse(w + rest, inRun) == w + Collapse(rest, false)
  {
    var x := w + rest;
    assert x[0] == w[0] && IsSlugAlnum(x[0]);
    assert x[1..] == w[1..] + rest;
    assert Collapse(x, inRun) == [w[0]] + Collapse(x[1..], false);
    if |w| > 1 {
      CollapseWord(w[1..], rest, false);
      var c := Collapse(rest, false);
      SeqAssoc([w[0]], w[1..], c);
      assert [w[0]] + w[1..] == w;
    } else {
      assert x[1..] == rest;
      assert [w[0]] == w;
    }
  }

  lemma {:induction false} CollapseSeparator(sep: string, rest: string, inRun: bool)
    requires sep != [] && NoAlnum(sep)
    requires rest == [] || IsSlugAlnum(rest[0])
    ensures Collapse(sep + rest, inRun) == (if inRun then [] else "-") + Collapse(rest, false)
  {
    assert (sep + rest)[0] == sep[0] && (sep + rest)[1..] == sep[1..] + rest;
    if |sep| > 1 {
      CollapseSeparator(sep[1..], rest, true);
    } else {
      assert sep[1..] + rest == rest;
    }
  }

  lemma SeqAssoc(a: string, b: string, c: string)
    ensures a + (b + c) == (a + b) + c
  {
  }

  /** The slug of a one-word text is the lower-cased word. */
  lemma SlugOfWord(text: string, w: string)
    requires Lower(text) == w && w != [] && AllAlnum(w)
    ensures Slugify(text) == w
  {
    CollapseWord(w, [], false);
    assert w + [] == w;
  }

  /** Collapsing two words around a separator joins them with one `-`. */
  lemma CollapseTwoWords(a: string, sep: string, b: string)
    requires a != [] && AllAlnum(a) && b != [] && AllAlnum(b)
    requires sep != [] && NoAlnum(sep)
    ensures Collapse(a + sep + b, false) == a + "-" + b
  {
    CollapseWord(b, [], false);
    assert b + [] == b;
    CollapseSeparator(sep, b, false);
    CollapseWord(a, sep + b, false);
    SeqAssoc(a, sep, b);
    SeqAssoc(a, "-", b);
  }

  /** Trimming dashes leaves a string that starts and ends with no `-` alone. */
  lemma TrimDashesKeepsInner(r: string)
    requires r != [] && r[0] != '-' && r[|r| - 1] != '-'
    ensures TrimDashes(r) == r
  {
  }

  /** Lower-casing works character by character, so it splits at any point. */
  lemma LowerAppend(x: string, y: string)
    ensures Lower(x + y) == Lower(x) + Lower(y)
  {
  }

  /** The slug of two words around a separator joins the lower-cased words
      with one `-`. */
  lemma SlugOfTwoWords(first: string, sep: string, second: string, a: string, b: string)
    requires Lower(first) == a && Lower(sep) == sep && Lower(second) == b
    requires a != [] && AllAlnum(a) && b != [] && AllAlnum(b)
    requires sep != [] && NoAlnum(sep)
    ensures Slugify(first + sep + second) == a + "-" + b
  {
    LowerAppend(first, sep);
    LowerAppend(first + sep, second);
    CollapseTwoWords(a, sep, b);
    var r := a + "-" + b;
    assert r[0] == a[0] && r[|r| - 1] == b[|b| - 1];
    TrimDashesKeepsInner(r);
  }

  /** `s` from its first letter or digit on. */
  function SkipSeparators(s: string): (r: string)
    ensures |r| <= |s| && r == s[|s| - |r|..]
    ensures r == [] || IsSlugAlnum(r[0])
    ensures forall k :: 0 <= k < |s| - |r| ==> !IsSlugAlnum(s[k])
  {
    if s != [] && !IsSlugAlnum(s[0]) then
      var r := SkipSeparators(s[1..]);
      assert forall k :: 1 <= k < |s| ==> s[k] == s[1..][k - 1];
      r
    else s
  }

  /** The longest prefix of `s` made of letters and digits. */
  function LeadingWord(s: string): (w: string)
    ensures |w| <= |s| && w == s[..|w|] && AllAlnum(w)
    ensures |w| < |s| ==> !IsSlugAlnum(s[|w|])
  {
    if s != [] && IsSlugAlnum(s[0]) then [s[0]] + LeadingWord(s[1..]) else []
  }

  /** The words of `s`: its maximal runs of `[a-z0-9]`, in order. */
  function Words(s: string): (ws: seq<string>)
    ensures forall w <- ws :: w != [] && AllAlnum(w)
    decreases |s|
  {
    var t := SkipSeparators(s);
    if t == [] then []
    else
      var w := LeadingWord(t);
      [w] + Words(t[|w|..])
  }

  /** The words joined by single dashes. */
  function JoinWith(ws: seq<string>): string
  {
    if ws == [] then []
    else if |ws| == 1 then ws[0]
    else ws[0] + "-" + JoinWith(ws[1..])
  }

  /** The slug is the words of the lower-cased text joined by `-`. */
  lemma SlugifyJoinsWords(text: string)
    ensures Slugify(text) == JoinWith(Words(Lower(text)))
  {
    CollapseJoinsWords(Lower(text));
  }

  /** The joined words of `s`, read left to right: `JoinedWords` is outside
      any word, `WordThenRest` is inside one. */
  function JoinedWords(s: string): string
    decreases |s|
  {
    if s == [] then []
    else if IsSlugAlnum(s[0]) then [s[0]] + WordThenRest(s[1..])
    else JoinedWords(s[1..])
  }

  function WordThenRest(s: string): string
    decreases |s|
  {
    if s == [] then []
    else if IsSlugAlnum(s[0]) then [s[0]] + WordThenRest(s[1..])
    else
      var t := JoinedWords(s[1..]);
      if t == [] then [] else "-" + t
  }

  lemma {:induction false} TrimTrailingCons(c: char, x: string)
    ensures TrimTrailingDashes([c] + x)
         == if c == '-' && TrimTrailingDashes(x) == [] then [] else [c] + TrimTrailingDashes(x)
    decreases |x|
  {
    var y := [c] + x;
    if x == [] {
      assert y[..0] == [];
    } else if x[|x| - 1] == '-' {
      assert y[..|y| - 1] == [c] + x[..|x| - 1];
      TrimTrailingCons(c, x[..|x| - 1]);
    }
  }

  /** Collapsing and then trimming the trailing dash reads off the joined words. */
  lemma {:induction false} CollapseTrimmedIsJoined(s: string)
    ensures TrimTrailingDashes(Collapse(s, true)) == JoinedWords(s)
    ensures TrimTrailingDashes(Collapse(s, false)) == WordThenRest(s)
  {
    if s != [] {
      CollapseTrimmedIsJoined(s[1..]);
      TrimTrailingCons(s[0], Collapse(s[1..], false));
      TrimTrailingCons('-', Collapse(s[1..], true));
    }
  }

  /** Collapsing the runs of other characters to `-` and stripping the dashes
      at both ends leaves the words of `s` joined by `-`. */
  lemma CollapseJoinsWords(s: string)
    ensures TrimDashes(Collapse(s, false)) == JoinWith(Words(s))
  {
    TrimDashesOfCollapse(s);
    JoinedWordsAreWords(s);
  }

  lemma TrimDashesOfCollapse(s: string)
    ensures TrimDashes(Collapse(s, false)) == JoinedWords(s)
  {
    CollapseTrimmedIsJoined(s);
    if s != [] {
      CollapseTrimmedIsJoined(s[1..]);
      var c := Collapse(s, false);
      if IsSlugAlnum(s[0]) {
        assert TrimLeadingDashes(c) == c;
      } else {
        var rest := Collapse(s[1..], true);
        assert c == ['-'] + rest;
        assert TrimLeadingDashes(c) == rest by {
          assert c[1..] == rest;
        }
      }
    }
  }

  /** Separators in front of the first word add nothing. */
  lemma {:induction false} JoinedWordsSkips(s: string)
    ensures JoinedWords(s) == JoinedWords(SkipSeparators(s))
  {
    if s != [] && !IsSlugAlnum(s[0]) {
      JoinedWordsSkips(s[1..]);
    }
  }

  /** Inside a word: the rest of the word, then a dash and the joined words
      after it when there are any. */
  lemma {:induction false} WordThenRestSplits(t: string)
    ensures var w := LeadingWord(t);
            var tail := JoinedWords(t[|w|..]);
            WordThenRest(t) == w + (if tail == [] then [] else "-" + tail)
  {
    if t != [] && IsSlugAlnum(t[0]) {
      WordThenRestSplits(t[1..]);
      var v := LeadingWord(t[1..]);
      assert t[1..][|v|..] == t[1 + |v|..];
      var tail := JoinedWords(t[1 + |v|..]);
      SeqAssoc([t[0]], v, if tail == [] then [] else "-" + tail);
    } else if t != [] {
      assert t[0..] == t;
    }
  }

  lemma JoinWithEmptyIff(ws: seq<string>)
    requires forall w <- ws :: w != []
    ensures JoinWith(ws) == [] <==> ws == []
  {
    if |ws| == 1 {
      assert ws[0] in ws;
    }
  }

  /** The left-to-right reading agrees with the words joined by `-`. */
  lemma {:induction false} JoinedWordsAreWords(s: string)
    ensures JoinedWords(s) == JoinWith(Words(s))
    decreases |s|
  {
    JoinedWordsSkips(s);
    var t := SkipSeparators(s);
    if t != [] {
      var w := LeadingWord(t);
      var u := t[|w|..];
      WordThenRestSplits(t);
      assert JoinedWords(t) == WordThenRest(t);
      JoinedWordsAreWords(u);
      JoinWithEmptyIff(Words(u));
      assert Words(s) == [w] + Words(u);
      if Words(u) != [] {
        SeqAssoc(w, "-", JoinWith(Words(u)));
        assert ([w] + Words(u))[1..] == Words(u);
      }
    }
  }

  /** Case and the choice of separator do not matter: both titles derive the
      same slug. */
  lemma SlugCollisionExample()
    ensures Slugify("Hello World") == Slugify("hello-world")
  {
    SlugCollision("Hello World", "hello-world");
  }
}
