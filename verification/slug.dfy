/** `toSlug`, the URL key of the service and industry detail pages:
    lower-case, `&` spelled out as `and`, every run of characters outside
    `[a-z0-9]` replaced by one `-`, and a dash dropped from each end. */
module Slug {
  import opened Text
  import Seqs

  /** The characters `[a-z0-9]` keeps. */
  predicate IsSlugChar(c: char) {
    'a' <= c <= 'z' || '0' <= c <= '9'
  }

  /** Characters of `s` are slug characters or dashes. */
  predicate SlugAlphabet(s: string) {
    forall i :: 0 <= i < |s| ==> IsSlugChar(s[i]) || s[i] == '-'
  }

  predicate NoDoubleDash(s: string) {
    forall i :: 0 <= i < |s| - 1 ==> !(s[i] == '-' && s[i + 1] == '-')
  }

  /** A canonical slug: only `[a-z0-9-]`, no dash at either end, no two
      dashes in a row. */
  predicate IsSlug(s: string) {
    && SlugAlphabet(s)
    && NoDoubleDash(s)
    && (s == [] || (s[0] != '-' && s[|s| - 1] != '-'))
  }

  /** The letters and digits of `s`, in order. */
  function Alnums(s: string): string {
    Seqs.Filter(IsSlugChar, s)
  }

  /** `.replace(/&/g, "and")`: no `&` is left, and text without `&` is
      unchanged. */
  function ExpandAmpersands(s: string): (r: string)
    ensures '&' !in r
    ensures '&' !in s ==> r == s
  {
    if s == [] then []
    else (if s[0] == '&' then "and" else [s[0]]) + ExpandAmpersands(s[1..])
  }

  lemma {:induction false} ExpandAmpersandsAppend(a: string, b: string)
    ensures ExpandAmpersands(a + b) == ExpandAmpersands(a) + ExpandAmpersands(b)
  {
    if a == [] {
      assert a + b == b;
    } else {
      assert (a + b)[0] == a[0];
      assert (a + b)[1..] == a[1..] + b;
      ExpandAmpersandsAppend(a[1..], b);
    }
  }

  /** No letter or digit in `s`. */
  predicate NoAlnum(s: string) {
    forall i :: 0 <= i < |s| ==> !IsSlugChar(s[i])
  }

  /** Drops the leading run of characters outside `[a-z0-9]`: the result is
      a suffix of `s` that is empty or starts with a letter or digit, and
      what was dropped holds none. */
  function SkipRun(s: string): (r: string)
    ensures |r| <= |s| && r == s[|s| - |r|..]
    ensures r == [] || IsSlugChar(r[0])
    ensures forall i :: 0 <= i < |s| - |r| ==> !IsSlugChar(s[i])
  {
    if s != [] && !IsSlugChar(s[0]) then
      var r := SkipRun(s[1..]);
      assert forall i :: 1 <= i < |s| ==> s[i] == s[1..][i - 1];
      r
    else
      s
  }

  /** The dropped run holds no letter or digit. */
  lemma SkipRunAlnums(s: string)
    ensures Alnums(SkipRun(s)) == Alnums(s)
  {
    var r := SkipRun(s);
    var k := |s| - |r|;
    var dropped := s[..k];
    assert s == dropped + r;
    assert forall i :: 0 <= i < k ==> dropped[i] == s[i];
    Seqs.FilterAppend(IsSlugChar, dropped, r);
    Seqs.FilterNone(IsSlugChar, dropped);
  }

  /** `.replace(/[^a-z0-9]+/g, "-")`: each maximal run of other characters
      becomes one dash. The result is made of slug characters and dashes,
      has no two dashes in a row, is empty only for empty input, and starts
      with a dash exactly when the input starts outside `[a-z0-9]`. */
  function Collapse(s: string): (r: string)
    ensures SlugAlphabet(r)
    ensures NoDoubleDash(r)
    ensures r == [] <==> s == []
    ensures r != [] ==> (r[0] == '-' <==> !IsSlugChar(s[0]))
    decreases |s|
  {
    if s == [] then []
    else if IsSlugChar(s[0]) then [s[0]] + Collapse(s[1..])
    else "-" + Collapse(SkipRun(s[1..]))
  }

  /** Collapsing keeps the letters and digits, in order. */
  lemma {:induction false} CollapseAlnums(s: string)
    ensures Alnums(Collapse(s)) == Alnums(s)
    decreases |s|
  {
    if s != [] {
      assert s == [s[0]] + s[1..];
      Seqs.FilterAppend(IsSlugChar, [s[0]], s[1..]);
      if IsSlugChar(s[0]) {
        CollapseAlnums(s[1..]);
        Seqs.FilterAppend(IsSlugChar, [s[0]], Collapse(s[1..]));
      } else {
        var tail := SkipRun(s[1..]);
        CollapseAlnums(tail);
        SkipRunAlnums(s[1..]);
        Seqs.FilterAppend(IsSlugChar, "-", Collapse(tail));
      }
    }
  }

  /** Dropping one leading dash. */
  function DropLeadingDash(t: string): string {
    if t != [] && t[0] == '-' then t[1..] else t
  }

  /** `.replace(/(^-|-$)/g, "")`: one leading and one trailing dash
      removed. */
  function TrimDashes(t: string): string {
    var a := DropLeadingDash(t);
    if a != [] && a[|a| - 1] == '-' then a[..|a| - 1] else a
  }

  /** Trimming the edge dashes of collapsed text yields a canonical slug. */
  lemma TrimDashesSlug(c: string)
    requires SlugAlphabet(c) && NoDoubleDash(c)
    ensures IsSlug(TrimDashes(c))
  {
    var a := DropLeadingDash(c);
    assert TrimDashes(c) == (if a != [] && a[|a| - 1] == '-' then a[..|a| - 1] else a);
    assert SlugAlphabet(a) && NoDoubleDash(a);
    assert a == [] || a[0] != '-';
    if a != [] && a[|a| - 1] == '-' {
      var r := a[..|a| - 1];
      assert SlugAlphabet(r) && NoDoubleDash(r);
      if r != [] {
        assert r[|r| - 1] == a[|a| - 2];
        assert r[0] == a[0];
      }
    }
  }

  /** Trimming dashes keeps the letters and digits. */
  lemma TrimDashesAlnums(c: string)
    ensures Alnums(TrimDashes(c)) == Alnums(c)
  {
    var a := DropLeadingDash(c);
    var r := TrimDashes(c);
    if c != [] && c[0] == '-' {
      assert c == "-" + a;
      Seqs.FilterAppend(IsSlugChar, "-", a);
    }
    if a != [] && a[|a| - 1] == '-' {
      assert a == r + "-";
      Seqs.FilterAppend(IsSlugChar, r, "-");
    }
  }

  /** `toSlug`: always a canonical slug. */
  function ToSlug(s: string): (r: string)
    ensures IsSlug(r)
  {
    var c := Collapse(ExpandAmpersands(ToLower(s)));
    TrimDashesSlug(c);
    TrimDashes(c)
  }

  /** Deleting the dashes of `toSlug(s)` leaves exactly the letters and
      digits of the lower-cased, `&`-expanded input, in order. */
  lemma SlugAlnums(s: string)
    ensures Alnums(ToSlug(s)) == Alnums(ExpandAmpersands(ToLower(s)))
  {
    var c := Collapse(ExpandAmpersands(ToLower(s)));
    TrimDashesAlnums(c);
    CollapseAlnums(ExpandAmpersands(ToLower(s)));
  }

  /** Collapsing text that is already dash-separated changes nothing. */
  lemma {:induction false} CollapseFixpoint(t: string)
    requires SlugAlphabet(t) && NoDoubleDash(t)
    ensures Collapse(t) == t
    decreases |t|
  {
    if t != [] {
      assert SlugAlphabet(t[1..]) && NoDoubleDash(t[1..]);
      if IsSlugChar(t[0]) {
        CollapseFixpoint(t[1..]);
      } else {
        assert SkipRun(t[1..]) == t[1..];
        CollapseFixpoint(t[1..]);
      }
    }
  }

  /** A canonical slug is its own slug. */
  lemma SlugFixpoint(t: string)
    requires IsSlug(t)
    ensures ToSlug(t) == t
  {
    assert forall i :: 0 <= i < |t| ==> !IsUpperAscii(t[i]);
    ToLowerFixpoint(t);
    assert '&' !in t;
    CollapseFixpoint(t);
  }

  /** `toSlug` is idempotent. */
  lemma SlugIdempotent(s: string)
    ensures ToSlug(ToSlug(s)) == ToSlug(s)
  {
    SlugFixpoint(ToSlug(s));
  }

  /** The canonical slugs are exactly the fixpoints of `toSlug`. */
  lemma SlugFixpointIff(t: string)
    ensures IsSlug(t) <==> ToSlug(t) == t
  {
    if IsSlug(t) {
      SlugFixpoint(t);
    }
  }

  /** Every `&` is spelled out as `and`, in place. */
  lemma AmpersandBecomesAnd(a: string, b: string)
    ensures ExpandAmpersands(a + "&" + b) == ExpandAmpersands(a) + "and" + ExpandAmpersands(b)
  {
    ExpandAmpersandsAppend(a + "&", b);
    ExpandAmpersandsAppend(a, "&");
  }

  /** A word of a title: a non-empty run of ASCII letters and digits. */
  predicate Word(w: string) {
    w != [] && forall i :: 0 <= i < |w| ==> IsSlugChar(LowerChar(w[i]))
  }

  /** All characters of `s` are letters or digits. */
  predicate AllSlugChars(s: string) {
    forall i :: 0 <= i < |s| ==> IsSlugChar(s[i])
  }

  lemma {:induction false} LowerWord(w: string)
    requires forall i :: 0 <= i < |w| ==> IsSlugChar(LowerChar(w[i]))
    ensures AllSlugChars(ToLower(w))
  {
    if w != [] {
      LowerWord(w[1..]);
      assert ToLower(w) == [LowerChar(w[0])] + ToLower(w[1..]);
    }
  }

  /** Letters and digits pass through `Collapse` unchanged. */
  lemma {:induction false} CollapseWord(w: string, rest: string)
    requires AllSlugChars(w)
    ensures Collapse(w + rest) == w + Collapse(rest)
    decreases |w|
  {
    if w != [] {
      assert (w + rest)[0] == w[0];
      assert (w + rest)[1..] == w[1..] + rest;
      CollapseWord(w[1..], rest);
      assert w + Collapse(rest) == [w[0]] + (w[1..] + Collapse(rest));
    } else {
      assert w + rest == rest;
    }
  }

  lemma {:induction false} SkipRunPast(g: string, rest: string)
    requires NoAlnum(g)
    requires rest == [] || IsSlugChar(rest[0])
    ensures SkipRun(g + rest) == rest
    decreases |g|
  {
    if g == [] {
      assert g + rest == rest;
    } else {
      assert (g + rest)[1..] == g[1..] + rest;
      SkipRunPast(g[1..], rest);
    }
  }

  /** A run of separators before a word becomes a single dash. */
  lemma CollapseGap(g: string, rest: string)
    requires g != [] && NoAlnum(g)
    requires rest == [] || IsSlugChar(rest[0])
    ensures Collapse(g + rest) == "-" + Collapse(rest)
  {
    assert (g + rest)[1..] == g[1..] + rest;
    SkipRunPast(g[1..], rest);
  }

  lemma Associate(a: string, b: string, c: string)
    ensures a + b + c == a + (b + c)
  {
  }

  /** A word, a separator run, and what follows. */
  lemma CollapseStep(w: string, gap: string, rest: string)
    requires AllSlugChars(w)
    requires gap != [] && NoAlnum(gap)
    requires rest == [] || IsSlugChar(rest[0])
    ensures Collapse(w + gap + rest) == w + "-" + Collapse(rest)
  {
    CollapseWord(w, gap + rest);
    CollapseGap(gap, rest);
    Associate(w, gap, rest);
    Associate(w, "-", Collapse(rest));
  }

  /** `toSlug` through its stages, for text that collapses to something
      without edge dashes. */
  lemma SlugFromStages(s: string, x: string, y: string)
    requires ExpandAmpersands(ToLower(s)) == x
    requires Collapse(x) == y
    requires y != [] && y[0] != '-' && y[|y| - 1] != '-'
    ensures ToSlug(s) == y
  {
    assert DropLeadingDash(y) == y;
    assert TrimDashes(y) == y;
  }

  /** Trimming edge dashes keeps a leading word. */
  lemma TrimDashesKeepsPrefix(w: string, c: string)
    requires w != [] && AllSlugChars(w) && w <= c
    ensures w <= TrimDashes(c)
  {
    assert c[0] == w[0];
    assert DropLeadingDash(c) == c;
    if |c| > |w| {
      assert w <= c[..|c| - 1];
    }
  }

  /** A leading word survives `toSlug`, lower-cased. */
  lemma SlugLeadingWord(w: string, rest: string)
    requires Word(w)
    ensures ToLower(w) <= ToSlug(w + rest)
  {
    var lw, lr := ToLower(w), ToLower(rest);
    LowerWord(w);
    ToLowerAppend(w, rest);
    ExpandAmpersandsAppend(lw, lr);
    assert ExpandAmpersands(lw) == lw by {
      assert '&' !in lw;
    }
    CollapseWord(lw, ExpandAmpersands(lr));
    TrimDashesKeepsPrefix(lw, Collapse(lw + ExpandAmpersands(lr)));
  }

  /** The first two characters of a title that starts with two ASCII
      letters or digits are the first two characters of its slug. */
  lemma SlugHead(s: string)
    requires |s| >= 2 && IsSlugChar(LowerChar(s[0])) && IsSlugChar(LowerChar(s[1]))
    ensures |ToSlug(s)| >= 2 && ToSlug(s)[..2] == [LowerChar(s[0]), LowerChar(s[1])]
  {
    var w := s[..2];
    assert s == w + s[2..];
    SlugLeadingWord(w, s[2..]);
  }

  lemma LowerAround(a: string, sep: string, b: string)
    requires forall i :: 0 <= i < |sep| ==> !IsUpperAscii(sep[i])
    ensures ToLower(a + sep + b) == ToLower(a) + sep + ToLower(b)
  {
    ToLowerAppend(a + sep, b);
    ToLowerAppend(a, sep);
    ToLowerFixpoint(sep);
  }

  lemma SpacedNoAmpersand(la: string, lb: string)
    requires AllSlugChars(la) && AllSlugChars(lb)
    ensures '&' !in la + " " + lb
  {
  }

  lemma CollapseSpaced(la: string, lb: string)
    requires AllSlugChars(la) && AllSlugChars(lb) && lb != []
    ensures Collapse(la + " " + lb) == la + "-" + lb
  {
    CollapseStep(la, " ", lb);
    CollapseFixpoint(lb);
  }

  /** Two words separated by a space become two words joined by a dash. */
  lemma SlugTwoWords(a: string, b: string)
    requires Word(a) && Word(b)
    ensures ToSlug(a + " " + b) == ToLower(a) + "-" + ToLower(b)
  {
    var la, lb := ToLower(a), ToLower(b);
    LowerWord(a);
    LowerWord(b);
    LowerAround(a, " ", b);
    SpacedNoAmpersand(la, lb);
    CollapseSpaced(la, lb);
    SlugFromStages(a + " " + b, la + " " + lb, la + "-" + lb);
  }

  /** The lower case of `a & b‑c` (U+2011 between `b` and `c`). */
  lemma LowerAmpersandHyphen(a: string, b: string, c: string)
    ensures ToLower(a + " & " + b + "\U{2011}" + c)
         == ToLower(a) + " & " + (ToLower(b) + "\U{2011}" + ToLower(c))
  {
    assert a + " & " + b + "\U{2011}" + c == a + " & " + (b + "\U{2011}" + c);
    LowerAround(a, " & ", b + "\U{2011}" + c);
    LowerAround(b, "\U{2011}", c);
  }

  /** An `&` between text without one becomes `and`. */
  lemma ExpandOneAmpersand(pre: string, post: string)
    requires '&' !in pre && '&' !in post
    ensures ExpandAmpersands(pre + "&" + post) == pre + "and" + post
  {
    AmpersandBecomesAnd(pre, post);
  }

  lemma SplitAtAmpersand(la: string, tail: string)
    ensures la + " & " + tail == (la + " ") + "&" + (" " + tail)
    ensures (la + " ") + "and" + (" " + tail) == la + " " + ("and" + " " + tail)
  {
  }

  lemma ExpandAmpersandHyphen(la: string, tail: string)
    requires '&' !in la && '&' !in tail
    ensures ExpandAmpersands(la + " & " + tail) == la + " " + ("and" + " " + tail)
  {
    SplitAtAmpersand(la, tail);
    ExpandOneAmpersand(la + " ", " " + tail);
  }

  lemma CollapseAmpersandHyphen(la: string, lb: string, lc: string)
    requires la != [] && lb != [] && lc != []
    requires AllSlugChars(la) && AllSlugChars(lb) && AllSlugChars(lc)
    ensures Collapse(la + " " + ("and" + " " + (lb + "\U{2011}" + lc)))
         == la + "-and-" + lb + "-" + lc
  {
    var t2 := lb + "\U{2011}" + lc;
    var t1 := "and" + " " + t2;
    assert AllSlugChars("and");
    CollapseFixpoint(lc);
    CollapseStep(lb, "\U{2011}", lc);
    CollapseStep("and", " ", t2);
    CollapseStep(la, " ", t1);
    DashedAmpersand(la, lb, lc);
  }

  lemma DashedAmpersand(la: string, lb: string, lc: string)
    ensures la + "-" + ("and" + "-" + (lb + "-" + lc)) == la + "-and-" + lb + "-" + lc
  {
  }

  lemma AmpersandHyphenTail(lb: string, lc: string)
    requires AllSlugChars(lb) && AllSlugChars(lc)
    ensures '&' !in lb + "\U{2011}" + lc
  {
  }

  /** `a & b‑c` with a non-ASCII hyphen: the ampersand is spelled out and
      both separators, ASCII or not, become dashes. */
  lemma SlugAmpersandHyphen(a: string, b: string, c: string)
    requires Word(a) && Word(b) && Word(c)
    ensures ToSlug(a + " & " + b + "\U{2011}" + c)
         == ToLower(a) + "-and-" + ToLower(b) + "-" + ToLower(c)
  {
    var la, lb, lc := ToLower(a), ToLower(b), ToLower(c);
    LowerWord(a);
    LowerWord(b);
    LowerWord(c);
    var tail := lb + "\U{2011}" + lc;
    AmpersandHyphenTail(lb, lc);
    LowerAmpersandHyphen(a, b, c);
    ExpandAmpersandHyphen(la, tail);
    CollapseAmpersandHyphen(la, lb, lc);
    SlugFromStages(a + " & " + b + "\U{2011}" + c, la + " " + ("and" + " " + tail), la + "-and-" + lb + "-" + lc);
  }

  /** A capitalised word lower-cases by lower-casing its first letter. */
  lemma CapitalisedWord(w: string, head: char, tail: string)
    requires w == [head] + tail && IsUpperAscii(head) && AllSlugChars(tail)
    ensures Word(w)
    ensures ToLower(w) == [LowerChar(head)] + tail
  {
    ToLowerAppend([head], tail);
    ToLowerFixpoint(tail);
    assert forall i :: 1 <= i < |w| ==> w[i] == tail[i - 1];
  }

  /** Two capitalised words separated by a space. */
  lemma SlugTwoCapitalised(v: string, h1: char, t1: string, h2: char, t2: string, r: string)
    requires IsUpperAscii(h1) && AllSlugChars(t1)
    requires IsUpperAscii(h2) && AllSlugChars(t2)
    requires v == [h1] + t1 + " " + ([h2] + t2)
    requires r == [LowerChar(h1)] + t1 + "-" + ([LowerChar(h2)] + t2)
    ensures ToSlug(v) == r
  {
    CapitalisedWord([h1] + t1, h1, t1);
    CapitalisedWord([h2] + t2, h2, t2);
    SlugTwoWords([h1] + t1, [h2] + t2);
  }

  /** `A & B‑c`: capitalised words around the ampersand, a lower-case word
      after the non-ASCII hyphen. */
  lemma SlugAmpersandCapitalised(v: string, h1: char, t1: string, h2: char, t2: string, c: string, r: string)
    requires IsUpperAscii(h1) && AllSlugChars(t1)
    requires IsUpperAscii(h2) && AllSlugChars(t2)
    requires c != [] && AllSlugChars(c)
    requires v == [h1] + t1 + " & " + ([h2] + t2) + "\U{2011}" + c
    requires r == [LowerChar(h1)] + t1 + "-and-" + ([LowerChar(h2)] + t2) + "-" + c
    ensures ToSlug(v) == r
  {
    CapitalisedWord([h1] + t1, h1, t1);
    CapitalisedWord([h2] + t2, h2, t2);
    ToLowerFixpoint(c);
    assert Word(c);
    SlugAmpersandHyphen([h1] + t1, [h2] + t2, c);
  }
}
