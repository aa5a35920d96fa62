/** `slugify` of the results screen (components/ResultsScreen.tsx): lower
    case, each whitespace run to `-`, every character outside `[A-Za-z0-9_-]`
    deleted, runs of `-` collapsed, and `-` stripped from both ends. Each
    regular-expression replacement is one function below, applied in the
    source's order. */
module Slug {
  import opened JsString

  predicate IsSlugChar(c: char) { 'a' <= c <= 'z' || IsDigit(c) || c == '_' || c == '-' }

  predicate NoDoubleHyphen(s: string) {
    forall i :: 0 <= i < |s| - 1 ==> !(s[i] == '-' && s[i + 1] == '-')
  }

  /** What a slug looks like: lower-case letters, digits, `_` and `-` only,
      no `-` at either end and never two `-` in a row. */
  predicate IsSlug(s: string) {
    && (forall i :: 0 <= i < |s| ==> IsSlugChar(s[i]))
    && (s == [] || (s[0] != '-' && s[|s| - 1] != '-'))
    && NoDoubleHyphen(s)
  }

  /** The characters of `\w`, in order: what a slug keeps of the text. */
  function WordChars(s: string): (r: string)
    ensures forall i :: 0 <= i < |r| ==> IsWordChar(r[i])
  {
    if s == [] then []
    else (if IsWordChar(s[0]) then [s[0]] else []) + WordChars(s[1..])
  }

  // ---------------------------------------------------------------------
  // the five replacements
  // ---------------------------------------------------------------------

  /** `.replace(/\s+/g, '-')`: each maximal run of whitespace becomes one
      `-`; the `-` stands where the run's last character stood. */
  function HyphenateWhitespace(s: string): (r: string)
    ensures |r| <= |s|
    ensures forall i :: 0 <= i < |r| ==> !IsWhitespace(r[i])
  {
    if s == [] then []
    else if IsWhitespace(s[0]) && |s| >= 2 && IsWhitespace(s[1]) then HyphenateWhitespace(s[1..])
    else if IsWhitespace(s[0]) then "-" + HyphenateWhitespace(s[1..])
    else [s[0]] + HyphenateWhitespace(s[1..])
  }

  /** `.replace(/[^\w-]+/g, '')`: only `\w` characters and `-` survive, in
      order. */
  function DeleteNonWord(s: string): (r: string)
    ensures |r| <= |s|
    ensures forall i :: 0 <= i < |r| ==> IsWordChar(r[i]) || r[i] == '-'
  {
    if s == [] then []
    else (if IsWordChar(s[0]) || s[0] == '-' then [s[0]] else []) + DeleteNonWord(s[1..])
  }

  /** `.replace(/--+/g, '-')`: every run of `-` becomes a single `-`. The
      first character is kept. */
  function CollapseHyphens(s: string): (r: string)
    ensures |r| <= |s|
    ensures NoDoubleHyphen(r)
    ensures s != [] ==> r != [] && r[0] == s[0]
  {
    if s == [] then []
    else if |s| >= 2 && s[0] == '-' && s[1] == '-' then CollapseHyphens(s[1..])
    else
      var rest := CollapseHyphens(s[1..]);
      var r := [s[0]] + rest;
      assert forall i :: 1 <= i < |r| ==> r[i] == rest[i - 1];
      r
  }

  /** `.replace(/^-+/, '')`: drops the leading `-` characters; what is
      dropped is all `-`, and the rest is a suffix not starting with `-`. */
  function StripLeadingHyphens(s: string): (r: string)
    ensures |r| <= |s|
    ensures forall k :: 0 <= k < |s| - |r| ==> s[k] == '-'
    ensures r == [] || r[0] != '-'
  {
    if s != [] && s[0] == '-' then StripLeadingHyphens(s[1..]) else s
  }

  /** What StripLeadingHyphens keeps is the end of its input. */
  lemma {:induction false} StripLeadingIsSuffix(s: string)
    ensures StripLeadingHyphens(s) == s[|s| - |StripLeadingHyphens(s)|..]
  {
    if s != [] && s[0] == '-' {
      StripLeadingIsSuffix(s[1..]);
      assert s[1..][|s[1..]| - |StripLeadingHyphens(s)|..] == s[|s| - |StripLeadingHyphens(s)|..];
    }
  }

  /** `.replace(/-+$/, '')`: drops the trailing `-` characters; what is
      dropped is all `-`, and the rest is a prefix not ending with `-`. */
  function StripTrailingHyphens(s: string): (r: string)
    ensures |r| <= |s|
    ensures forall k :: |r| <= k < |s| ==> s[k] == '-'
    ensures r == [] || r[|r| - 1] != '-'
  {
    if s != [] && s[|s| - 1] == '-' then StripTrailingHyphens(s[..|s| - 1]) else s
  }

  /** What StripTrailingHyphens keeps is the start of its input. */
  lemma {:induction false} StripTrailingIsPrefix(s: string)
    ensures StripTrailingHyphens(s) == s[..|StripTrailingHyphens(s)|]
  {
    if s != [] && s[|s| - 1] == '-' {
      StripTrailingIsPrefix(s[..|s| - 1]);
      assert s[..|s| - 1][..|StripTrailingHyphens(s)|] == s[..|StripTrailingHyphens(s)|];
    }
  }

  /** `slugify`: every result is in slug form (see IsSlug). */
  function Slugify(text: string): (r: string)
    ensures IsSlug(r)
  {
    var lowered := ToLowerCase(text);
    var spaced := HyphenateWhitespace(lowered);
    var kept := DeleteNonWord(spaced);
    var collapsed := CollapseHyphens(kept);
    var r := StripTrailingHyphens(StripLeadingHyphens(collapsed));
    SlugFormStages(lowered, spaced, kept, collapsed);
    r
  }

  predicate NoUpper(s: string) {
    forall i :: 0 <= i < |s| ==> !IsAsciiUpper(s[i])
  }

  lemma {:induction false} HyphenateNoUpper(s: string)
    requires NoUpper(s)
    ensures NoUpper(HyphenateWhitespace(s))
  {
    if s != [] {
      HyphenateNoUpper(s[1..]);
    }
  }

  lemma {:induction false} DeleteNoUpper(s: string)
    requires NoUpper(s)
    ensures forall i :: 0 <= i < |DeleteNonWord(s)| ==> IsSlugChar(DeleteNonWord(s)[i])
  {
    if s != [] {
      DeleteNoUpper(s[1..]);
    }
  }

  lemma {:induction false} CollapseSlugChars(s: string)
    requires forall i :: 0 <= i < |s| ==> IsSlugChar(s[i])
    ensures forall i :: 0 <= i < |CollapseHyphens(s)| ==> IsSlugChar(CollapseHyphens(s)[i])
  {
    if s != [] {
      CollapseSlugChars(s[1..]);
    }
  }

  lemma SlugFormStages(lowered: string, spaced: string, kept: string, collapsed: string)
    requires NoUpper(lowered)
    requires spaced == HyphenateWhitespace(lowered)
    requires kept == DeleteNonWord(spaced)
    requires collapsed == CollapseHyphens(kept)
    ensures IsSlug(StripTrailingHyphens(StripLeadingHyphens(collapsed)))
  {
    HyphenateNoUpper(lowered);
    DeleteNoUpper(spaced);
    CollapseSlugChars(kept);
    StripKeepsSlugForm(collapsed);
  }

  /** Stripping both ends of a string of slug characters without `--`
      gives a slug. */
  lemma StripKeepsSlugForm(collapsed: string)
    requires forall i :: 0 <= i < |collapsed| ==> IsSlugChar(collapsed[i])
    requires NoDoubleHyphen(collapsed)
    ensures IsSlug(StripTrailingHyphens(StripLeadingHyphens(collapsed)))
  {
    var lead := StripLeadingHyphens(collapsed);
    var d := |collapsed| - |lead|;
    StripLeadingIsSuffix(collapsed);
    var r := StripTrailingHyphens(lead);
    StripTrailingIsPrefix(lead);
    assert forall i :: 0 <= i < |r| ==> r[i] == collapsed[d + i] by {
      assert forall i :: 0 <= i < |lead| ==> lead[i] == collapsed[d + i];
      assert forall i :: 0 <= i < |r| ==> r[i] == lead[i];
    }
    assert NoDoubleHyphen(r) by {
      forall i | 0 <= i < |r| - 1
        ensures !(r[i] == '-' && r[i + 1] == '-')
      {
        assert r[i] == collapsed[d + i] && r[i + 1] == collapsed[d + i + 1];
      }
    }
  }

  // ---------------------------------------------------------------------
  // idempotence
  // ---------------------------------------------------------------------

  lemma {:induction false} LowerOfSlugChars(s: string)
    requires forall i :: 0 <= i < |s| ==> IsSlugChar(s[i])
    ensures ToLowerCase(s) == s
  {
    if s != [] {
      LowerOfSlugChars(s[1..]);
      assert [s[0]] + s[1..] == s;
    }
  }

  lemma {:induction false} HyphenateWithoutWhitespace(s: string)
    requires forall i :: 0 <= i < |s| ==> !IsWhitespace(s[i])
    ensures HyphenateWhitespace(s) == s
  {
    if s != [] {
      HyphenateWithoutWhitespace(s[1..]);
      assert [s[0]] + s[1..] == s;
    }
  }

  lemma {:induction false} DeleteOfWordChars(s: string)
    requires forall i :: 0 <= i < |s| ==> IsWordChar(s[i]) || s[i] == '-'
    ensures DeleteNonWord(s) == s
  {
    if s != [] {
      DeleteOfWordChars(s[1..]);
      assert [s[0]] + s[1..] == s;
    }
  }

  lemma {:induction false} CollapseWithoutDoubles(s: string)
    requires NoDoubleHyphen(s)
    ensures CollapseHyphens(s) == s
  {
    if s != [] {
      CollapseWithoutDoubles(s[1..]);
      assert [s[0]] + s[1..] == s;
    }
  }

  /** A slug is its own slug. */
  lemma SlugOfSlug(s: string)
    requires IsSlug(s)
    ensures Slugify(s) == s
  {
    LowerOfSlugChars(s);
    HyphenateWithoutWhitespace(s);
    DeleteOfWordChars(s);
    CollapseWithoutDoubles(s);
  }

  /** `slugify` is idempotent. */
  lemma SlugifyIdempotent(text: string)
    ensures Slugify(Slugify(text)) == Slugify(text)
  {
    SlugOfSlug(Slugify(text));
  }

  // ---------------------------------------------------------------------
  // what the slug keeps
  // ---------------------------------------------------------------------

  lemma {:induction false} WordCharsAppend(a: string, b: string)
    ensures WordChars(a + b) == WordChars(a) + WordChars(b)
  {
    if a == [] {
      assert a + b == b;
    } else {
      assert (a + b)[1..] == a[1..] + b;
      WordCharsAppend(a[1..], b);
      var h := if IsWordChar(a[0]) then [a[0]] else [];
      assert WordChars(a + b) == h + (WordChars(a[1..]) + WordChars(b));
    }
  }

  lemma {:induction false} HyphenateKeepsWords(s: string)
    ensures WordChars(HyphenateWhitespace(s)) == WordChars(s)
  {
    if s != [] {
      HyphenateKeepsWords(s[1..]);
      if IsWhitespace(s[0]) && |s| >= 2 && IsWhitespace(s[1]) {
      } else if IsWhitespace(s[0]) {
        WordCharsAppend("-", HyphenateWhitespace(s[1..]));
      } else {
        WordCharsAppend([s[0]], HyphenateWhitespace(s[1..]));
      }
    }
  }

  lemma {:induction false} DeleteKeepsWords(s: string)
    ensures WordChars(DeleteNonWord(s)) == WordChars(s)
  {
    if s != [] {
      DeleteKeepsWords(s[1..]);
      var h := if IsWordChar(s[0]) || s[0] == '-' then [s[0]] else [];
      WordCharsAppend(h, DeleteNonWord(s[1..]));
    }
  }

  lemma {:induction false} CollapseKeepsWords(s: string)
    ensures WordChars(CollapseHyphens(s)) == WordChars(s)
  {
    if s != [] {
      CollapseKeepsWords(s[1..]);
      if !(|s| >= 2 && s[0] == '-' && s[1] == '-') {
        WordCharsAppend([s[0]], CollapseHyphens(s[1..]));
      }
    }
  }

  lemma {:induction false} StripLeadingKeepsWords(s: string)
    ensures WordChars(StripLeadingHyphens(s)) == WordChars(s)
  {
    if s != [] && s[0] == '-' {
      StripLeadingKeepsWords(s[1..]);
    }
  }

  lemma {:induction false} StripTrailingKeepsWords(s: string)
    ensures WordChars(StripTrailingHyphens(s)) == WordChars(s)
  {
    if s != [] && s[|s| - 1] == '-' {
      StripTrailingKeepsWords(s[..|s| - 1]);
      assert s == s[..|s| - 1] + "-";
      WordCharsAppend(s[..|s| - 1], "-");
    }
  }

  /** The slug, with its hyphens taken out, is exactly the ASCII letters,
      digits and underscores of the lower-cased text, in their original
      order: nothing else survives and none of them is lost. */
  lemma SlugKeepsWordChars(text: string)
    ensures WordChars(Slugify(text)) == WordChars(ToLowerCase(text))
  {
    var lowered := ToLowerCase(text);
    var spaced := HyphenateWhitespace(lowered);
    var kept := DeleteNonWord(spaced);
    var collapsed := CollapseHyphens(kept);
    HyphenateKeepsWords(lowered);
    DeleteKeepsWords(spaced);
    CollapseKeepsWords(kept);
    StripLeadingKeepsWords(collapsed);
    StripTrailingKeepsWords(StripLeadingHyphens(collapsed));
  }

  /** A slug is empty exactly when the lower-cased text has no letter, digit
      or underscore, so an all-punctuation label gets the empty slug. */
  lemma SlugEmptyIff(text: string)
    ensures Slugify(text) == [] <==> WordChars(ToLowerCase(text)) == []
  {
    var r := Slugify(text);
    SlugKeepsWordChars(text);
    if r != [] {
      assert r[0] != '-' && IsSlugChar(r[0]);
      assert IsWordChar(r[0]);
      WordCharsAppend([r[0]], r[1..]);
      assert [r[0]] + r[1..] == r;
    }
  }

  // ---------------------------------------------------------------------
  // where the hyphens go
  // ---------------------------------------------------------------------

  predicate AllHyphens(s: string) {
    forall i :: 0 <= i < |s| ==> s[i] == '-'
  }

  /** Text that does not end in whitespace shares no whitespace run with
      what follows it, so the two are hyphenated separately. */
  lemma {:induction false} HyphenateAppend(x: string, t: string)
    requires x == [] || !IsWhitespace(x[|x| - 1])
    ensures HyphenateWhitespace(x + t) == HyphenateWhitespace(x) + HyphenateWhitespace(t)
  {
    if x == [] {
      assert x + t == t;
    } else {
      var s := x + t;
      assert s[0] == x[0];
      assert s[1..] == x[1..] + t;
      HyphenateAppend(x[1..], t);
      if |x| >= 2 {
        assert s[1] == x[1];
      }
      var rest := HyphenateWhitespace(x[1..]) + HyphenateWhitespace(t);
      if IsWhitespace(x[0]) && IsWhitespace(x[1]) {
      } else if IsWhitespace(x[0]) {
        assert "-" + rest == ("-" + HyphenateWhitespace(x[1..])) + HyphenateWhitespace(t);
      } else {
        assert [x[0]] + rest == ([x[0]] + HyphenateWhitespace(x[1..])) + HyphenateWhitespace(t);
      }
    }
  }

  /** A whitespace run in front of text that does not start with whitespace
      becomes one `-`. */
  lemma {:induction false} HyphenateLeadingRun(w: string, y: string)
    requires w != [] && AllWhitespace(w)
    requires y == [] || !IsWhitespace(y[0])
    ensures HyphenateWhitespace(w + y) == "-" + HyphenateWhitespace(y)
  {
    var s := w + y;
    assert s[0] == w[0];
    if |w| == 1 {
      assert s[1..] == y;
      if |s| >= 2 {
        assert s[1] == y[0];
      }
    } else {
      assert s[1] == w[1];
      assert s[1..] == w[1..] + y;
      HyphenateLeadingRun(w[1..], y);
    }
  }

  /** Each maximal whitespace run becomes exactly one `-`, and the text on
      either side of it is hyphenated on its own. */
  lemma HyphenateRun(x: string, w: string, y: string)
    requires w != [] && AllWhitespace(w)
    requires x == [] || !IsWhitespace(x[|x| - 1])
    requires y == [] || !IsWhitespace(y[0])
    ensures HyphenateWhitespace(x + w + y) == HyphenateWhitespace(x) + "-" + HyphenateWhitespace(y)
  {
    var hx, hy := HyphenateWhitespace(x), HyphenateWhitespace(y);
    Assoc(x, w, y);
    assert HyphenateWhitespace(w + y) == "-" + hy by {
      HyphenateLeadingRun(w, y);
    }
    assert HyphenateWhitespace(x + (w + y)) == hx + HyphenateWhitespace(w + y) by {
      HyphenateAppend(x, w + y);
    }
    Assoc(hx, "-", hy);
  }

  lemma {:induction false} DeleteAllNonWord(p: string)
    requires forall i :: 0 <= i < |p| ==> !IsWordChar(p[i]) && p[i] != '-'
    ensures DeleteNonWord(p) == []
  {
    if p != [] {
      DeleteAllNonWord(p[1..]);
    }
  }

  /** A run of characters that are neither `\w` nor `-` disappears, leaving
      the text on its two sides next to each other. */
  lemma DeleteRun(x: string, p: string, y: string)
    requires forall i :: 0 <= i < |p| ==> !IsWordChar(p[i]) && p[i] != '-'
    ensures DeleteNonWord(x + p + y) == DeleteNonWord(x) + DeleteNonWord(y)
  {
    var a, b := DeleteNonWord(x), DeleteNonWord(y);
    assert DeleteNonWord(x + p) == a by {
      DeleteAllNonWord(p);
      DeleteAppend(x, p);
      assert a + [] == a;
    }
    DeleteAppend(x + p, y);
  }

  /** Text that does not end in `-` shares no run of `-` with what follows
      it, so the two are collapsed separately. */
  lemma {:induction false} CollapseAppend(x: string, t: string)
    requires x == [] || x[|x| - 1] != '-'
    ensures CollapseHyphens(x + t) == CollapseHyphens(x) + CollapseHyphens(t)
  {
    if x == [] {
      assert x + t == t;
    } else {
      var s := x + t;
      assert s[0] == x[0];
      assert s[1..] == x[1..] + t;
      CollapseAppend(x[1..], t);
      if |x| >= 2 {
        assert s[1] == x[1];
      }
      if !(|x| >= 2 && x[0] == '-' && x[1] == '-') {
        var rest := CollapseHyphens(x[1..]) + CollapseHyphens(t);
        assert [x[0]] + rest == ([x[0]] + CollapseHyphens(x[1..])) + CollapseHyphens(t);
      }
    }
  }

  /** A run of `-` in front of text that does not start with `-` becomes one
      `-`. */
  lemma {:induction false} CollapseLeadingRun(h: string, y: string)
    requires h != [] && AllHyphens(h)
    requires y == [] || y[0] != '-'
    ensures CollapseHyphens(h + y) == "-" + CollapseHyphens(y)
  {
    var s := h + y;
    assert s[0] == '-';
    if |h| == 1 {
      assert s[1..] == y;
      if |s| >= 2 {
        assert s[1] == y[0];
      }
    } else {
      assert s[1] == h[1];
      assert s[1..] == h[1..] + y;
      CollapseLeadingRun(h[1..], y);
    }
  }

  /** Each maximal run of `-` becomes exactly one `-`, and the text on
      either side of it is collapsed on its own. */
  lemma CollapseRun(x: string, h: string, y: string)
    requires h != [] && AllHyphens(h)
    requires x == [] || x[|x| - 1] != '-'
    requires y == [] || y[0] != '-'
    ensures CollapseHyphens(x + h + y) == CollapseHyphens(x) + "-" + CollapseHyphens(y)
  {
    var cx, cy := CollapseHyphens(x), CollapseHyphens(y);
    assert CollapseHyphens(h + y) == "-" + cy by {
      CollapseLeadingRun(h, y);
    }
    assert CollapseHyphens(x + (h + y)) == cx + CollapseHyphens(h + y) by {
      CollapseAppend(x, h + y);
    }
    Assoc(x, h, y);
    Assoc(cx, "-", cy);
  }

  /** Collapsing keeps a last character that is not `-`. */
  lemma {:induction false} CollapseKeepsLast(s: string)
    requires s != [] && s[|s| - 1] != '-'
    ensures CollapseHyphens(s) != [] && CollapseHyphens(s)[|CollapseHyphens(s)| - 1] == s[|s| - 1]
  {
    if |s| >= 2 {
      CollapseKeepsLast(s[1..]);
    }
  }

  /** Stripping the front of text that ends in something other than `-`
      never reaches what follows it. */
  lemma {:induction false} StripLeadingAppend(a: string, b: string)
    requires a != [] && a[|a| - 1] != '-'
    ensures StripLeadingHyphens(a + b) == StripLeadingHyphens(a) + b
  {
    assert (a + b)[0] == a[0];
    if a[0] == '-' {
      assert (a + b)[1..] == a[1..] + b;
      StripLeadingAppend(a[1..], b);
    }
  }

  /** Stripping the front keeps a last character that is not `-`. */
  lemma StripLeadingKeepsLast(a: string)
    requires a != [] && a[|a| - 1] != '-'
    ensures StripLeadingHyphens(a) != []
    ensures StripLeadingHyphens(a)[|StripLeadingHyphens(a)| - 1] == a[|a| - 1]
  {
    StripLeadingIsSuffix(a);
  }

  /** Stripping the end of text that starts with something other than `-`
      never reaches what precedes it. */
  lemma {:induction false} StripTrailingAppend(a: string, b: string)
    requires b != [] && b[0] != '-'
    ensures StripTrailingHyphens(a + b) == a + StripTrailingHyphens(b)
  {
    var s := a + b;
    assert s[|s| - 1] == b[|b| - 1];
    if b[|b| - 1] == '-' {
      var init := b[..|b| - 1];
      assert s[..|s| - 1] == a + init;
      StripTrailingAppend(a, init);
    }
  }

  /** The last three replacements: collapse the runs of `-`, then strip `-`
      from both ends. */
  function Tidy(kept: string): string {
    StripTrailingHyphens(StripLeadingHyphens(CollapseHyphens(kept)))
  }

  /** `slugify` is lowering, hyphenating and deleting, then Tidy. */
  lemma SlugifyIsTidy(text: string)
    ensures Slugify(text) == Tidy(DeleteNonWord(HyphenateWhitespace(ToLowerCase(text))))
  {
  }

  lemma TidyOfHyphens(e: string)
    requires AllHyphens(e)
    ensures Tidy(e) == []
  {
    if e != [] {
      CollapseLeadingRun(e, []);
      assert e + [] == e;
      assert "-"[1..] == [];
    }
  }

  /** `-` after text that does not end in `-` leave Tidy's result alone. */
  lemma TidyDropTrailing(z: string, e: string)
    requires z == [] || z[|z| - 1] != '-'
    requires AllHyphens(e)
    ensures Tidy(z + e) == Tidy(z)
  {
    if e == [] {
      assert z + e == z;
    } else if z == [] {
      assert z + e == e;
      TidyOfHyphens(e);
    } else {
      var c := CollapseHyphens(z);
      assert CollapseHyphens(z + e) == c + "-" by {
        CollapseRun(z, e, []);
        assert z + e + [] == z + e;
        assert c + "-" + CollapseHyphens([]) == c + "-";
      }
      var l := StripLeadingHyphens(c);
      assert StripLeadingHyphens(c + "-") == l + "-" by {
        CollapseKeepsLast(z);
        StripLeadingAppend(c, "-");
      }
      assert StripTrailingHyphens(l + "-") == StripTrailingHyphens(l) by {
        assert (l + "-")[..|l + "-"| - 1] == l;
      }
    }
  }

  /** `-` before text that does not start with `-` leave Tidy's result
      alone. */
  lemma TidyDropLeading(e: string, z: string)
    requires z == [] || z[0] != '-'
    requires AllHyphens(e)
    ensures Tidy(e + z) == Tidy(z)
  {
    if e == [] {
      assert e + z == z;
    } else if z == [] {
      assert e + z == e;
      TidyOfHyphens(e);
    } else {
      CollapseLeadingRun(e, z);
      var c := CollapseHyphens(z);
      assert ("-" + c)[1..] == c;
    }
  }

  /** Splits text into its longest `-`-free-ending prefix and the `-` after
      it. */
  lemma TrailingHyphens(u: string) returns (u1: string, u2: string)
    ensures u == u1 + u2 && AllHyphens(u2)
    ensures u1 == [] || u1[|u1| - 1] != '-'
  {
    u1 := StripTrailingHyphens(u);
    StripTrailingIsPrefix(u);
    u2 := u[|u1|..];
  }

  /** Splits text into the `-` in front of it and the rest. */
  lemma LeadingHyphens(v: string) returns (v1: string, v2: string)
    ensures v == v1 + v2 && AllHyphens(v1)
    ensures v2 == [] || v2[0] != '-'
  {
    v2 := StripLeadingHyphens(v);
    StripLeadingIsSuffix(v);
    v1 := v[..|v| - |v2|];
  }

  /** `-` added at the end do not change Tidy's result. */
  lemma TidyTrailing(u: string, e: string)
    requires AllHyphens(e)
    ensures Tidy(u + e) == Tidy(u)
  {
    var u1, u2 := TrailingHyphens(u);
    assert u + e == u1 + (u2 + e);
    TidyDropTrailing(u1, u2 + e);
    TidyDropTrailing(u1, u2);
  }

  /** `-` added at the front do not change Tidy's result. */
  lemma TidyLeading(e: string, v: string)
    requires AllHyphens(e)
    ensures Tidy(e + v) == Tidy(v)
  {
    var v1, v2 := LeadingHyphens(v);
    assert e + v == (e + v1) + v2;
    TidyDropLeading(e + v1, v2);
    TidyDropLeading(v1, v2);
  }

  /** Two texts that each tidy to something, joined by a run of `-`, tidy
      to their two results joined by one `-`. */
  lemma TidyJoin(u: string, h: string, v: string)
    requires h != [] && AllHyphens(h)
    requires Tidy(u) != [] && Tidy(v) != []
    ensures Tidy(u + h + v) == Tidy(u) + "-" + Tidy(v)
  {
    var u1, u2 := TrailingHyphens(u);
    var v1, v2 := LeadingHyphens(v);
    TidyDropTrailing(u1, u2);
    TidyDropLeading(v1, v2);
    assert u1 != [] && v2 != [];
    var m := u2 + h + v1;
    assert AllHyphens(m) by {
      HyphensConcat(u2, h, v1);
    }
    Regroup(u1, u2, h, v1, v2);
    TidyJoinCore(u1, m, v2);
  }

  lemma HyphensConcat(a: string, b: string, c: string)
    requires AllHyphens(a) && AllHyphens(b) && AllHyphens(c)
    ensures AllHyphens(a + b + c)
  {
  }

  lemma Regroup(a: string, b: string, c: string, d: string, e: string)
    ensures (a + b) + c + (d + e) == a + (b + c + d) + e
  {
  }

  /** Tidy on text that neither ends nor starts in `-`, around a run of `-`. */
  lemma TidyJoinCore(u1: string, m: string, v2: string)
    requires u1 != [] && u1[|u1| - 1] != '-'
    requires v2 != [] && v2[0] != '-'
    requires m != [] && AllHyphens(m)
    ensures Tidy(u1 + m + v2) == Tidy(u1) + "-" + Tidy(v2)
  {
    var cu, cv := CollapseHyphens(u1), CollapseHyphens(v2);
    assert CollapseHyphens(u1 + m + v2) == cu + ("-" + cv) by {
      CollapseRun(u1, m, v2);
      assert cu + "-" + cv == cu + ("-" + cv);
    }
    CollapseKeepsLast(u1);
    var l := StripLeadingHyphens(cu);
    StripLeadingKeepsLast(cu);
    assert StripLeadingHyphens(cu + ("-" + cv)) == (l + "-") + cv by {
      StripLeadingAppend(cu, "-" + cv);
      assert l + ("-" + cv) == (l + "-") + cv;
    }
    StripTrailingAppend(l + "-", cv);
    assert Tidy(u1) == l;
    assert Tidy(v2) == StripTrailingHyphens(cv);
    assert (l + "-") + StripTrailingHyphens(cv) == l + "-" + StripTrailingHyphens(cv);
  }

  /** Where a slug's `-` come from: two texts that each have a non-empty
      slug, joined by any run of whitespace, slug to their two slugs joined
      by exactly one `-`. */
  lemma SlugifyWhitespaceRun(x: string, w: string, y: string)
    requires w != [] && AllWhitespace(w)
    requires Slugify(x) != [] && Slugify(y) != []
    ensures Slugify(x + w + y) == Slugify(x) + "-" + Slugify(y)
  {
    var u, v := SlugOfJoin(x, w, y);
    TidyJoin(u, "-", v);
  }

  /** The slugs of two texts joined by whitespace, and of the joined text,
      as tidied pieces around one `-`. */
  lemma SlugOfJoin(x: string, w: string, y: string) returns (u: string, v: string)
    requires w != [] && AllWhitespace(w)
    ensures Slugify(x + w + y) == Tidy(u + "-" + v)
    ensures Slugify(x) == Tidy(u) && Slugify(y) == Tidy(v)
  {
    var lx, ly := ToLowerCase(x), ToLowerCase(y);
    assert ToLowerCase(x + w + y) == lx + w + ly by {
      LowerAppend(x + w, y);
      LowerAppend(x, w);
      LowerKeeps(w);
    }
    u, v := KeptJoin(lx, w, ly);
    SlugifyIsTidy(x);
    SlugifyIsTidy(y);
    SlugifyIsTidy(x + w + y);
  }

  /** Hyphenating and deleting two texts joined by whitespace gives the two
      sides' results, up to `-` at their ends, joined by one `-`. */
  lemma KeptJoin(lx: string, w: string, ly: string) returns (u: string, v: string)
    requires w != [] && AllWhitespace(w)
    ensures DeleteNonWord(HyphenateWhitespace(lx + w + ly)) == u + "-" + v
    ensures Tidy(DeleteNonWord(HyphenateWhitespace(lx))) == Tidy(u)
    ensures Tidy(DeleteNonWord(HyphenateWhitespace(ly))) == Tidy(v)
  {
    var x1, ex := TrailingWhitespace(lx);
    var ey, y2 := LeadingWhitespace(ly);
    var hx, hy := HyphenateWhitespace(x1), HyphenateWhitespace(y2);
    assert HyphenateWhitespace(lx + w + ly) == hx + "-" + hy by {
      HyphenateJoin(x1, ex, w, ey, y2);
    }
    u, v := DeleteNonWord(hx), DeleteNonWord(hy);
    assert DeleteNonWord(hx + "-" + hy) == u + "-" + v by {
      DeleteJoin(hx, hy);
    }
    KeptEnd(lx, x1, ex, u);
    KeptStart(ly, ey, y2, v);
  }

  /** A text split before its trailing whitespace. */
  lemma TrailingWhitespace(s: string) returns (a: string, e: string)
    ensures s == a + e && AllWhitespace(e)
    ensures a == [] || !IsWhitespace(a[|a| - 1])
  {
    a := TrimEnd(s);
    e := s[|a|..];
  }

  /** A text split after its leading whitespace. */
  lemma LeadingWhitespace(s: string) returns (e: string, b: string)
    ensures s == e + b && AllWhitespace(e)
    ensures b == [] || !IsWhitespace(b[0])
  {
    b := TrimStart(s);
    e := s[..|s| - |b|];
    TrimStartIsSuffix(s);
  }

  lemma HyphenateJoin(x1: string, ex: string, w: string, ey: string, y2: string)
    requires AllWhitespace(ex) && AllWhitespace(ey) && w != [] && AllWhitespace(w)
    requires x1 == [] || !IsWhitespace(x1[|x1| - 1])
    requires y2 == [] || !IsWhitespace(y2[0])
    ensures HyphenateWhitespace((x1 + ex) + w + (ey + y2)) == HyphenateWhitespace(x1) + "-" + HyphenateWhitespace(y2)
  {
    var m := ex + w + ey;
    assert m != [] && AllWhitespace(m) by {
      WhitespaceConcat(ex, w, ey);
    }
    Regroup(x1, ex, w, ey, y2);
    HyphenateRun(x1, m, y2);
  }

  lemma WhitespaceConcat(a: string, b: string, c: string)
    requires AllWhitespace(a) && AllWhitespace(b) && AllWhitespace(c)
    ensures AllWhitespace(a + b + c)
  {
  }

  lemma DeleteJoin(hx: string, hy: string)
    ensures DeleteNonWord(hx + "-" + hy) == DeleteNonWord(hx) + "-" + DeleteNonWord(hy)
  {
    DeleteAppend(hx + "-", hy);
    DeleteAppend(hx, "-");
  }

  /** Trailing whitespace changes a text's hyphenated-and-deleted form only
      by a `-` at its end. */
  lemma KeptEnd(lx: string, x1: string, ex: string, u: string)
    requires lx == x1 + ex && AllWhitespace(ex)
    requires x1 == [] || !IsWhitespace(x1[|x1| - 1])
    requires u == DeleteNonWord(HyphenateWhitespace(x1))
    ensures Tidy(DeleteNonWord(HyphenateWhitespace(lx))) == Tidy(u)
  {
    if ex != [] {
      var hx := HyphenateWhitespace(x1);
      assert HyphenateWhitespace(x1 + ex) == hx + "-" by {
        HyphenateRun(x1, ex, []);
        assert x1 + ex + [] == x1 + ex;
        assert hx + "-" + HyphenateWhitespace([]) == hx + "-";
      }
      assert DeleteNonWord(hx + "-") == u + "-" by {
        DeleteAppend(hx, "-");
      }
      TidyTrailing(u, "-");
    } else {
      assert x1 + ex == x1;
    }
  }

  /** Leading whitespace changes a text's hyphenated-and-deleted form only
      by a `-` at its start. */
  lemma KeptStart(ly: string, ey: string, y2: string, v: string)
    requires ly == ey + y2 && AllWhitespace(ey)
    requires y2 == [] || !IsWhitespace(y2[0])
    requires v == DeleteNonWord(HyphenateWhitespace(y2))
    ensures Tidy(DeleteNonWord(HyphenateWhitespace(ly))) == Tidy(v)
  {
    if ey != [] {
      var hy := HyphenateWhitespace(y2);
      assert HyphenateWhitespace(ey + y2) == "-" + hy by {
        HyphenateLeadingRun(ey, y2);
      }
      assert DeleteNonWord("-" + hy) == "-" + v by {
        DeleteAppend("-", hy);
      }
      TidyLeading("-", v);
    } else {
      assert ey + y2 == y2;
    }
  }

  // ---------------------------------------------------------------------
  // the slug loses information
  // ---------------------------------------------------------------------

  /** Text with no `\w` character (and none of the two non-ASCII letters
      whose lower case is ASCII) lower-cases to text with no `\w` character. */
  lemma {:induction false} LowerOfNonWord(s: string)
    requires forall i :: 0 <= i < |s| ==> !IsWordChar(s[i]) && s[i] != '\U{0130}' && s[i] != '\U{212A}'
    ensures WordChars(ToLowerCase(s)) == []
  {
    if s != [] {
      LowerOfNonWord(s[1..]);
      WordCharsAppend(LowerChar(s[0]), ToLowerCase(s[1..]));
    }
  }

  /** A label made only of punctuation has the empty slug. */
  lemma PunctuationSlugIsEmpty(tableLabel: string)
    requires forall i :: 0 <= i < |tableLabel| ==>
               !IsWordChar(tableLabel[i]) && tableLabel[i] != '\U{0130}' && tableLabel[i] != '\U{212A}'
    ensures Slugify(tableLabel) == []
  {
    LowerOfNonWord(tableLabel);
    SlugEmptyIff(tableLabel);
  }

  /** Text without whitespace, one space, and text without whitespace
      again: the space becomes `-` and nothing else changes. */
  lemma HyphenateOneSpace(x: string, y: string)
    requires forall i :: 0 <= i < |x| ==> !IsWhitespace(x[i])
    requires forall i :: 0 <= i < |y| ==> !IsWhitespace(y[i])
    ensures HyphenateWhitespace(x + (" " + y)) == x + "-" + y
  {
    HyphenateAfterWord(x, " " + y);
    HyphenateSpace(y);
    assert x + ("-" + y) == x + "-" + y;
  }

  /** A whitespace-free start passes through unchanged. */
  lemma {:induction false} HyphenateAfterWord(x: string, t: string)
    requires forall i :: 0 <= i < |x| ==> !IsWhitespace(x[i])
    ensures HyphenateWhitespace(x + t) == x + HyphenateWhitespace(t)
  {
    if x == [] {
      assert x + t == t;
    } else {
      var s := x + t;
      assert s[0] == x[0];
      assert s[1..] == x[1..] + t;
      HyphenateAfterWord(x[1..], t);
      assert x + HyphenateWhitespace(t) == [x[0]] + (x[1..] + HyphenateWhitespace(t));
    }
  }

  /** One space before whitespace-free text becomes `-`. */
  lemma HyphenateSpace(y: string)
    requires forall i :: 0 <= i < |y| ==> !IsWhitespace(y[i])
    ensures HyphenateWhitespace(" " + y) == "-" + y
  {
    var s := " " + y;
    assert s[1..] == y;
    assert |s| < 2 || !IsWhitespace(s[1]) by {
      if |s| >= 2 {
        assert s[1] == y[0];
      }
    }
    HyphenateWithoutWhitespace(y);
  }

  lemma {:induction false} LowerKeeps(s: string)
    requires forall i :: 0 <= i < |s| ==> !IsAsciiUpper(s[i]) && s[i] != '\U{0130}' && s[i] != '\U{212A}'
    ensures ToLowerCase(s) == s
  {
    if s != [] {
      LowerKeeps(s[1..]);
      assert [s[0]] + s[1..] == s;
    }
  }

  lemma {:induction false} DeleteAppend(x: string, y: string)
    ensures DeleteNonWord(x + y) == DeleteNonWord(x) + DeleteNonWord(y)
  {
    if x == [] {
      assert x + y == y;
    } else {
      assert (x + y)[1..] == x[1..] + y;
      DeleteAppend(x[1..], y);
      var h := if IsWordChar(x[0]) || x[0] == '-' then [x[0]] else [];
      assert DeleteNonWord(x + y) == h + (DeleteNonWord(x[1..]) + DeleteNonWord(y));
    }
  }

  predicate LowerAlnum(s: string) {
    forall i :: 0 <= i < |s| ==> 'a' <= s[i] <= 'z' || IsDigit(s[i])
  }

  /** Two non-empty runs of lower-case letters and digits joined by one `-`
      form a slug. */
  lemma HyphenatedIsSlug(x: string, y: string)
    requires x != [] && y != [] && LowerAlnum(x) && LowerAlnum(y)
    ensures IsSlug(x + "-" + y)
  {
    var s := x + "-" + y;
    assert forall i :: 0 <= i < |x| ==> s[i] == x[i];
    assert s[|x|] == '-';
    assert forall i :: |x| < i < |s| ==> s[i] == y[i - |x| - 1];
  }

  /** When the first three stages already give a slug, the last three keep
      it. */
  lemma SlugOfStages(text: string, k: string)
    requires DeleteNonWord(HyphenateWhitespace(ToLowerCase(text))) == k
    requires IsSlug(k)
    ensures Slugify(text) == k
  {
    CollapseWithoutDoubles(k);
  }

  lemma LowerCapitalised(c: char, t: string)
    requires IsAsciiUpper(c)
    requires forall i :: 0 <= i < |t| ==> !IsAsciiUpper(t[i]) && t[i] != '\U{0130}' && t[i] != '\U{212A}'
    ensures ToLowerCase([c] + t) == LowerChar(c) + t
  {
    LowerKeeps(t);
    assert ([c] + t)[1..] == t;
  }

  lemma DeleteDropsHash(d: string)
    ensures DeleteNonWord("#" + d) == DeleteNonWord(d)
  {
    assert ("#" + d)[1..] == d;
  }

  lemma DeleteHash(x: string, d: string)
    requires forall i :: 0 <= i < |x| ==> IsWordChar(x[i]) || x[i] == '-'
    requires forall i :: 0 <= i < |d| ==> IsWordChar(d[i])
    ensures DeleteNonWord(x + ("#" + d)) == x + d
  {
    DeleteDropsHash(d);
    DeleteOfWordChars(d);
    DeleteOfWordChars(x);
    DeleteAppend(x, "#" + d);
  }

  lemma LowerHead(c: char, w: string)
    requires IsAsciiUpper(c) && LowerAlnum(w)
    ensures LowerChar(c) + w != [] && LowerAlnum(LowerChar(c) + w)
  {
    var head := LowerChar(c) + w;
    assert head[0] == (c as int + 32) as char;
    assert forall i :: 1 <= i < |head| ==> head[i] == w[i - 1];
  }

  lemma LowerAlnumJoin(w: string, sep: string, d: string)
    requires LowerAlnum(w) && LowerAlnum(d)
    requires forall i :: 0 <= i < |sep| ==> sep[i] == ' ' || sep[i] == '#'
    ensures forall i :: 0 <= i < |w + sep + d| ==>
              var ch := (w + sep + d)[i];
              !IsAsciiUpper(ch) && ch != '\U{0130}' && ch != '\U{212A}'
  {
    var t := w + sep + d;
    assert forall i :: 0 <= i < |w| ==> t[i] == w[i];
    assert forall i :: |w| <= i < |w| + |sep| ==> t[i] == sep[i - |w|];
    assert forall i :: |w| + |sep| <= i < |t| ==> t[i] == d[i - |w| - |sep|];
  }

  /** A capitalised word, ` #` and a number slug to the word in lower case,
      `-` and the number. */
  lemma CapitalisedHashSlug(c: char, w: string, d: string)
    requires IsAsciiUpper(c) && w != [] && d != [] && LowerAlnum(w) && LowerAlnum(d)
    ensures Slugify([c] + w + " #" + d) == LowerChar(c) + w + "-" + d
  {
    var head := LowerChar(c) + w;
    LowerHead(c, w);
    LowerAlnumJoin(w, " #", d);
    ConcatShapes(c, LowerChar(c), w, d);
    var x := [c] + w + " #" + d;
    LowerCapitalised(c, w + " #" + d);
    var l := ToLowerCase(x);
    assert l == head + (" " + ("#" + d));
    HyphenateOneSpace(head, "#" + d);
    var h := HyphenateWhitespace(l);
    assert h == (head + "-") + ("#" + d);
    DeleteHash(head + "-", d);
    var k := head + "-" + d;
    assert DeleteNonWord(h) == k;
    HyphenatedIsSlug(head, d);
    SlugOfStages(x, k);
  }

  /** A capitalised word, a space and a number slug to the word in lower
      case, `-` and the number. */
  lemma CapitalisedSpaceSlug(c: char, w: string, d: string)
    requires IsAsciiUpper(c) && w != [] && d != [] && LowerAlnum(w) && LowerAlnum(d)
    ensures Slugify([c] + w + " " + d) == LowerChar(c) + w + "-" + d
  {
    var head := LowerChar(c) + w;
    LowerHead(c, w);
    LowerAlnumJoin(w, " ", d);
    ConcatShapes(c, LowerChar(c), w, d);
    var x := [c] + w + " " + d;
    LowerCapitalised(c, w + " " + d);
    var l := ToLowerCase(x);
    assert l == head + (" " + d);
    HyphenateOneSpace(head, d);
    var k := head + "-" + d;
    assert HyphenateWhitespace(l) == k;
    HyphenatedIsSlug(head, d);
    DeleteOfWordChars(k);
    SlugOfStages(x, k);
  }

  /** `slugify` is not injective: "Table #1" and "Table 1" share the slug
      "table-1". */
  lemma SlugCollision(a: string, b: string)
    requires a == "Table #1" && b == "Table 1"
    ensures a != b
    ensures Slugify(a) == "table-1" && Slugify(b) == "table-1"
  {
    var c, w, d := CollisionPieces(a, b);
    CapitalisedHashSlug(c, w, d);
    CapitalisedSpaceSlug(c, w, d);
  }

  // ---------------------------------------------------------------------
  // helpers of the examples above: they only split literal strings into
  // pieces the verifier can take one at a time
  // ---------------------------------------------------------------------

  lemma ConcatShapes(c: char, lc: string, w: string, d: string)
    ensures [c] + w + " #" + d == [c] + (w + " #" + d)
    ensures [c] + w + " " + d == [c] + (w + " " + d)
    ensures lc + (w + " #" + d) == (lc + w) + (" " + ("#" + d))
    ensures lc + (w + " " + d) == (lc + w) + (" " + d)
    ensures (lc + w) + "-" + ("#" + d) == ((lc + w) + "-") + ("#" + d)
    ensures lc + w + "-" + d == (lc + w) + "-" + d
  {
  }

  lemma CollisionPieces(a: string, b: string) returns (c: char, w: string, d: string)
    requires a == "Table #1" && b == "Table 1"
    ensures a != b
    ensures IsAsciiUpper(c) && w != [] && d != [] && LowerAlnum(w) && LowerAlnum(d)
    ensures a == [c] + w + " #" + d && b == [c] + w + " " + d
    ensures LowerChar(c) + w + "-" + d == "table-1"
  {
    assert |a| != |b|;
    c, w, d := a[0], a[1..5], a[7..];
    assert LowerAlnum(w) && LowerAlnum(d);
    assert a == [c] + w + " #" + d;
    assert LowerChar(c) == "t" && w == "able" && d == "1";
    assert "t" + "able" + "-" + "1" == "table-1";
  }
}
