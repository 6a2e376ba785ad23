/** Slug derivation, shared by posts (from the title) and categories (from the name).
    Both services define the same five-step `generateSlug`; the model defines it once. */
module Slugs {
  import opened Text

  /** `toLowerCase` on one character, as far as the result can survive the filter that
      follows: A-Z map to a-z, KELVIN SIGN lowers to `k` and LATIN CAPITAL LETTER I WITH
      DOT ABOVE to `i` (JavaScript appends U+0307, which the filter deletes). Every other
      character is `a-z`, `0-9`, `-` or whitespace, which lowercasing leaves alone, or one
      that the filter deletes in either case, so it is kept as it is. */
  function LowerChar(c: char): char {
    if 'A' <= c <= 'Z' then (c as int - 'A' as int + 'a' as int) as char
    else if c == '\U{212A}' then 'k'
    else if c == '\U{0130}' then 'i'
    else c
  }

  /** Step 1, `.toLowerCase()`, as far as the filter of step 2 can tell: on ASCII it is
      `toLowerCase` exactly; beyond ASCII it differs (it leaves É or Σ as they are, and
      lowers U+0130 to one character where JavaScript gives two), but only in characters
      step 2 deletes, so `StripDisallowed(Lower(s))` is what the first two steps give. */
  function Lower(s: string): (r: string)
    ensures |r| == |s|
    ensures forall i :: 0 <= i < |s| ==> r[i] == LowerChar(s[i])
  {
    if |s| == 0 then [] else [LowerChar(s[0])] + Lower(s[1..])
  }

  /** The characters `/[^a-z0-9\s-]/g` does not match. */
  predicate Kept(c: char) {
    IsLowerLetter(c) || IsDigit(c) || IsSpace(c) || IsHyphen(c)
  }

  /** Step 2: `.replace(/[^a-z0-9\s-]/g, '')`. */
  function StripDisallowed(s: string): (r: string)
    ensures forall i :: 0 <= i < |r| ==> Kept(r[i])
  {
    if |s| == 0 then []
    else (if Kept(s[0]) then [s[0]] else []) + StripDisallowed(s[1..])
  }

  /** Every occurrence of a kept character survives the filter, and nothing else does;
      `StripConcat` adds that the survivors keep their order. */
  lemma {:induction false} StripCounts(s: string)
    ensures forall c :: multiset(StripDisallowed(s))[c] == if Kept(c) then multiset(s)[c] else 0
    decreases |s|
  {
    if |s| > 0 {
      StripCounts(s[1..]);
      assert s == [s[0]] + s[1..];
      var head := if Kept(s[0]) then [s[0]] else [];
      assert StripDisallowed(s) == head + StripDisallowed(s[1..]);
    }
  }

  /** `.replace(/x+/g, '-')` where `p` is the class `x`: every maximal run of characters
      satisfying `p` becomes one hyphen, every other character stays. */
  function ReplaceRuns(s: string, p: char -> bool): string {
    ReplaceRunsAfter(s, p, false)
  }

  /** `ReplaceRuns` on the rest of a string, where `inRun` says whether the character just
      before `s` satisfied `p`, so that its run already produced its hyphen. */
  function ReplaceRunsAfter(s: string, p: char -> bool, inRun: bool): (r: string)
    ensures forall i :: 0 <= i < |r| ==> IsHyphen(r[i]) || !p(r[i])
  {
    if |s| == 0 then []
    else if p(s[0]) then (if inRun then [] else "-") + ReplaceRunsAfter(s[1..], p, true)
    else [s[0]] + ReplaceRunsAfter(s[1..], p, false)
  }

  /** Run replacement keeps every occurrence of every character outside the class other
      than the hyphen; `ReplaceRunsConcat` adds that they keep their order. */
  lemma {:induction false} ReplaceRunsCounts(s: string, p: char -> bool, inRun: bool)
    ensures forall c :: !p(c) && !IsHyphen(c) ==> multiset(ReplaceRunsAfter(s, p, inRun))[c] == multiset(s)[c]
    decreases |s|
  {
    if |s| > 0 {
      ReplaceRunsCounts(s[1..], p, p(s[0]));
      assert s == [s[0]] + s[1..];
      var head := if p(s[0]) then (if inRun then [] else "-") else [s[0]];
      assert ReplaceRunsAfter(s, p, inRun) == head + ReplaceRunsAfter(s[1..], p, p(s[0]));
    }
  }

  /** `ReplaceRuns` introduces no character other than the hyphen: what holds of every
      character of its input holds of every non-hyphen of its output. */
  lemma {:induction false} ReplaceRunsKeeps(s: string, p: char -> bool, inRun: bool, q: char -> bool)
    requires forall i :: 0 <= i < |s| ==> q(s[i])
    ensures HyphenOr(ReplaceRunsAfter(s, p, inRun), q)
  {
    if |s| > 0 {
      ReplaceRunsKeeps(s[1..], p, p(s[0]), q);
      var r := ReplaceRunsAfter(s, p, inRun);
      var rest := ReplaceRunsAfter(s[1..], p, p(s[0]));
      var head := if p(s[0]) then (if inRun then [] else "-") else [s[0]];
      assert r == head + rest;
      assert HyphenOr(head, q);
    }
  }

  /** Every character of `r` is a hyphen or satisfies `q`. */
  predicate HyphenOr(r: string, q: char -> bool) {
    forall i :: 0 <= i < |r| ==> IsHyphen(r[i]) || q(r[i])
  }

  /** `String.prototype.trimEnd`. */
  function TrimEnd(s: string): (r: string)
    ensures |r| <= |s| && r == s[..|r|]
    ensures |r| > 0 ==> !IsSpace(r[|r| - 1])
    ensures forall i :: |r| <= i < |s| ==> IsSpace(s[i])
  {
    if |s| > 0 && IsSpace(s[|s| - 1]) then TrimEnd(s[..|s| - 1]) else s
  }

  /** `r` is `s` from position `k` on, with only whitespace cut off at either end. */
  predicate TrimmedFrom(s: string, r: string, k: nat) {
    && k + |r| <= |s| && r == s[k..k + |r|]
    && (forall i :: 0 <= i < k ==> IsSpace(s[i]))
    && (forall i :: k + |r| <= i < |s| ==> IsSpace(s[i]))
  }

  /** Step 5: `.trim()`: the piece of `s` left once the whitespace at both ends is cut,
      which starts and ends with a character that is not whitespace. */
  function Trim(s: string): (r: string)
    ensures exists k :: TrimmedFrom(s, r, k)
    ensures |r| > 0 ==> !IsSpace(r[0]) && !IsSpace(r[|r| - 1])
  {
    var t := SkipWhile(s, IsSpace);
    var r := TrimEnd(t);
    assert s[|s| - |t|..] == t;
    assert t[..|r|] == r;
    assert TrimmedFrom(s, r, |s| - |t|);
    r
  }

  predicate IsSlugChar(c: char) {
    IsLowerLetter(c) || IsDigit(c) || IsHyphen(c)
  }

  predicate NoDoubleHyphen(s: string) {
    |s| < 2 || ((!IsHyphen(s[0]) || !IsHyphen(s[1])) && NoDoubleHyphen(s[1..]))
  }

  /** A string `generateSlug` can return: lower-case letters, digits and single hyphens. */
  predicate IsSlug(s: string) {
    (forall i :: 0 <= i < |s| ==> IsSlugChar(s[i])) && NoDoubleHyphen(s)
  }

  /** `generateSlug(title)` of posts.service.ts and `generateSlug(name)` of
      categories.service.ts. */
  function GenerateSlug(title: string): (slug: string)
    ensures IsSlug(slug)
  {
    var stripped := StripDisallowed(Lower(title));
    var spaced := ReplaceRuns(stripped, IsSpace);
    var collapsed := ReplaceRuns(spaced, IsHyphen);
    ReplaceRunsKeeps(stripped, IsSpace, false, Kept);
    forall i | 0 <= i < |spaced|
      ensures IsSlugChar(spaced[i])
    {
      assert HyphenOr(spaced, Kept);
      assert IsHyphen(spaced[i]) || !IsSpace(spaced[i]);
    }
    ReplaceRunsKeeps(spaced, IsHyphen, false, IsSlugChar);
    HyphenRunsCollapsed(spaced, false);
    TrimFixesSlug(collapsed);
    Trim(collapsed)
  }

  /** The hyphen pass never leaves two hyphens side by side, and inside a run it does not
      start with one. */
  lemma {:induction false} HyphenRunsCollapsed(s: string, inRun: bool)
    ensures var r := ReplaceRunsAfter(s, IsHyphen, inRun);
      NoDoubleHyphen(r) && (inRun && |r| > 0 ==> !IsHyphen(r[0]))
  {
    if |s| > 0 {
      HyphenRunsCollapsed(s[1..], IsHyphen(s[0]));
      var r := ReplaceRunsAfter(s, IsHyphen, inRun);
      var rest := ReplaceRunsAfter(s[1..], IsHyphen, IsHyphen(s[0]));
      if IsHyphen(s[0]) && inRun {
        assert r == rest;
      } else {
        assert r[1..] == rest;
      }
    }
  }

  /** `trim` changes nothing once no whitespace is left, so the slug keeps any hyphen it
      starts or ends with. */
  lemma TrimFixesSlug(s: string)
    requires forall i :: 0 <= i < |s| ==> IsSlugChar(s[i])
    ensures Trim(s) == s
  {
    if |s| > 0 {
      TrimFixesUnpadded(s);
    }
  }

  /** `trim` only looks at the two ends of a string. */
  lemma TrimFixesUnpadded(s: string)
    requires |s| > 0 && !IsSpace(s[0]) && !IsSpace(s[|s| - 1])
    ensures Trim(s) == s
  {
    assert SkipWhile(s, IsSpace) == s;
  }

  /** The lower-case letters and digits of `s`, in order. */
  function Alphanumerics(s: string): string {
    if |s| == 0 then []
    else (if IsLowerLetter(s[0]) || IsDigit(s[0]) then [s[0]] else []) + Alphanumerics(s[1..])
  }

  lemma {:induction false} LowerFixesSlug(s: string)
    requires forall i :: 0 <= i < |s| ==> IsSlugChar(s[i])
    ensures Lower(s) == s
  {
  }

  lemma {:induction false} StripFixesSlug(s: string)
    requires forall i :: 0 <= i < |s| ==> IsSlugChar(s[i])
    ensures StripDisallowed(s) == s
    decreases |s|
  {
    if |s| > 0 {
      StripFixesSlug(s[1..]);
    }
  }

  lemma {:induction false} ReplaceRunsFixesUnmatched(s: string, p: char -> bool, inRun: bool)
    requires forall i :: 0 <= i < |s| ==> !p(s[i])
    ensures ReplaceRunsAfter(s, p, inRun) == s
  {
    if |s| > 0 {
      ReplaceRunsFixesUnmatched(s[1..], p, false);
    }
  }

  lemma {:induction false} ReplaceHyphenRunsFixesSlug(s: string, inRun: bool)
    requires NoDoubleHyphen(s)
    requires inRun && |s| > 0 ==> !IsHyphen(s[0])
    ensures ReplaceRunsAfter(s, IsHyphen, inRun) == s
  {
    if |s| > 0 {
      ReplaceHyphenRunsFixesSlug(s[1..], IsHyphen(s[0]));
    }
  }

  /** Deriving a slug from a slug gives it back, so `generateSlug` is idempotent. */
  lemma SlugIdempotent(title: string)
    ensures GenerateSlug(GenerateSlug(title)) == GenerateSlug(title)
  {
    var s := GenerateSlug(title);
    LowerFixesSlug(s);
    StripFixesSlug(s);
    ReplaceRunsFixesUnmatched(s, IsSpace, false);
    ReplaceHyphenRunsFixesSlug(s, false);
    TrimFixesSlug(s);
  }

  /** An ASCII letter of either case. */
  predicate IsAsciiLetter(c: char) {
    'A' <= c <= 'Z' || 'a' <= c <= 'z'
  }

  predicate IsWord(w: string) {
    forall i :: 0 <= i < |w| ==> IsAsciiLetter(w[i])
  }

  lemma LowerConcat(x: string, y: string)
    ensures Lower(x + y) == Lower(x) + Lower(y)
  {
  }

  lemma {:induction false} StripConcat(x: string, y: string)
    ensures StripDisallowed(x + y) == StripDisallowed(x) + StripDisallowed(y)
    decreases |x|
  {
    if |x| == 0 {
      assert x + y == y;
    } else {
      assert (x + y)[0] == x[0] && (x + y)[1..] == x[1..] + y;
      StripConcat(x[1..], y);
    }
  }

  /** `ReplaceRuns` works left to right: on a concatenation it continues on the second part
      with the run state the first part ended in. */
  lemma {:induction false} ReplaceRunsConcat(x: string, y: string, p: char -> bool, inRun: bool)
    ensures ReplaceRunsAfter(x + y, p, inRun)
         == ReplaceRunsAfter(x, p, inRun) + ReplaceRunsAfter(y, p, if |x| == 0 then inRun else p(x[|x| - 1]))
    decreases |x|
  {
    if |x| == 0 {
      assert x + y == y;
    } else {
      assert (x + y)[0] == x[0] && (x + y)[1..] == x[1..] + y;
      ReplaceRunsConcat(x[1..], y, p, p(x[0]));
    }
  }

  /** A whole run of characters satisfying `p` becomes one hyphen, or nothing when it
      continues a run that already produced its hyphen. With `ReplaceRunsConcat` and
      `ReplaceRunsFixesUnmatched` this fixes `ReplaceRuns` on every string, cut into its
      maximal runs. */
  lemma {:induction false} ReplaceRunsOfRun(s: string, p: char -> bool, inRun: bool)
    requires |s| > 0 && forall i :: 0 <= i < |s| ==> p(s[i])
    ensures ReplaceRunsAfter(s, p, inRun) == if inRun then [] else "-"
    decreases |s|
  {
    if |s| > 1 {
      ReplaceRunsOfRun(s[1..], p, true);
    }
  }

  /** The characters the slug's two run passes turn into hyphens. */
  predicate IsSeparator(c: char) {
    IsSpace(c) || IsHyphen(c)
  }

  /** The whitespace pass followed by the hyphen pass is one pass over whitespace and
      hyphens together, from any point where a whitespace run is also a hyphen run. */
  lemma {:induction false} SeparatorPasses(s: string, inSpaceRun: bool, inHyphenRun: bool)
    requires inSpaceRun ==> inHyphenRun
    ensures ReplaceRunsAfter(ReplaceRunsAfter(s, IsSpace, inSpaceRun), IsHyphen, inHyphenRun)
         == ReplaceRunsAfter(s, IsSeparator, inHyphenRun)
    decreases |s|
  {
    if |s| > 0 {
      var spaced := ReplaceRunsAfter(s, IsSpace, inSpaceRun);
      if IsSpace(s[0]) {
        var rest := ReplaceRunsAfter(s[1..], IsSpace, true);
        SeparatorPasses(s[1..], true, true);
        var tail := ReplaceRunsAfter(rest, IsHyphen, true);
        assert ReplaceRunsAfter(s, IsSeparator, inHyphenRun) == (if inHyphenRun then [] else "-") + tail;
        if !inSpaceRun {
          assert spaced[0] == '-' && spaced[1..] == rest;
          assert ReplaceRunsAfter(spaced, IsHyphen, inHyphenRun) == (if inHyphenRun then [] else "-") + tail;
        } else {
          assert spaced == rest;
        }
      } else if IsHyphen(s[0]) {
        SeparatorPasses(s[1..], false, true);
        assert spaced[0] == s[0] && spaced[1..] == ReplaceRunsAfter(s[1..], IsSpace, false);
      } else {
        SeparatorPasses(s[1..], false, false);
        assert spaced[0] == s[0] && spaced[1..] == ReplaceRunsAfter(s[1..], IsSpace, false);
      }
    }
  }

  /** The slug is the lower-cased title, stripped of disallowed characters, with each
      maximal run of whitespace and hyphens replaced by a single hyphen. */
  lemma SlugSeparatorRuns(title: string)
    ensures GenerateSlug(title) == ReplaceRuns(StripDisallowed(Lower(title)), IsSeparator)
  {
    TrimIsNoOp(title);
    SeparatorPasses(StripDisallowed(Lower(title)), false, false);
  }

  /** A word lowers to lower-case letters. */
  lemma LowerWordLetters(w: string)
    requires IsWord(w)
    ensures forall i :: 0 <= i < |Lower(w)| ==> IsLowerLetter(Lower(w)[i])
  {
  }

  /** Every step after lowering keeps a lowered word, which `LowerWordLetters` shows to
      be lower-case letters. */
  lemma LoweredWord(w: string, inRun: bool)
    requires IsWord(w)
    ensures StripDisallowed(Lower(w)) == Lower(w)
    ensures ReplaceRunsAfter(Lower(w), IsSpace, inRun) == Lower(w)
    ensures ReplaceRunsAfter(Lower(w), IsHyphen, inRun) == Lower(w)
  {
    LowerWordLetters(w);
    StripFixesSlug(Lower(w));
    ReplaceRunsFixesUnmatched(Lower(w), IsSpace, inRun);
    ReplaceRunsFixesUnmatched(Lower(w), IsHyphen, inRun);
  }

  /** What each step does to the punctuation and spaces of the sentences below. */
  lemma PunctuationSteps()
    ensures Lower(", ") == ", " && Lower("!") == "!" && Lower(" ") == " "
    ensures StripDisallowed(", ") == " " && StripDisallowed("!") == "" && StripDisallowed(" ") == " "
    ensures ReplaceRunsAfter(" ", IsSpace, false) == "-"
    ensures ReplaceRunsAfter("-", IsHyphen, false) == "-"
  {
  }

  /** Lowering then filtering the sentence leaves the lower-cased words around one space. */
  lemma StripSentence(w1: string, w2: string)
    requires IsWord(w1) && IsWord(w2)
    ensures StripDisallowed(Lower(w1 + ", " + w2 + "!")) == Lower(w1) + " " + Lower(w2)
  {
    var l1, l2 := Lower(w1), Lower(w2);
    LoweredWord(w1, false);
    LoweredWord(w2, false);
    PunctuationSteps();
    LowerConcat(w1 + ", " + w2, "!");
    LowerConcat(w1 + ", ", w2);
    LowerConcat(w1, ", ");
    StripConcat(l1 + ", " + l2, "!");
    StripConcat(l1 + ", ", l2);
    StripConcat(l1, ", ");
  }

  /** A single space between two lower-cased words becomes a single hyphen. */
  lemma HyphenateWords(w1: string, w2: string)
    requires IsWord(w1) && IsWord(w2)
    ensures var l1, l2 := Lower(w1), Lower(w2);
      ReplaceRuns(ReplaceRuns(l1 + " " + l2, IsSpace), IsHyphen) == l1 + "-" + l2
  {
    var l1, l2 := Lower(w1), Lower(w2);
    LowerWordLetters(w1);
    LoweredWord(w1, false);
    LoweredWord(w2, true);
    PunctuationSteps();
    ReplaceRunsConcat(l1 + " ", l2, IsSpace, false);
    ReplaceRunsConcat(l1, " ", IsSpace, false);
    ReplaceRunsConcat(l1 + "-", l2, IsHyphen, false);
    ReplaceRunsConcat(l1, "-", IsHyphen, false);
  }

  lemma TrimJoinedWords(w1: string, w2: string)
    requires IsWord(w1) && IsWord(w2)
    ensures var joined := Lower(w1) + "-" + Lower(w2);
      Trim(joined) == joined
  {
    LowerWordLetters(w1);
    LowerWordLetters(w2);
    TrimFixesHyphenJoin(Lower(w1), Lower(w2));
  }

  /** Two strings of slug characters joined by a hyphen are left alone by `trim`. */
  lemma TrimFixesHyphenJoin(a: string, b: string)
    requires forall i :: 0 <= i < |a| ==> IsSlugChar(a[i])
    requires forall i :: 0 <= i < |b| ==> IsSlugChar(b[i])
    ensures Trim(a + "-" + b) == a + "-" + b
  {
    var joined := a + "-" + b;
    forall i | 0 <= i < |joined|
      ensures IsSlugChar(joined[i])
    {
      if i < |a| {
        assert joined[i] == a[i];
      } else if i > |a| {
        assert joined[i] == b[i - |a| - 1];
      }
    }
    TrimFixesSlug(joined);
  }

  /** Two words joined by a comma and a space, followed by an exclamation mark, become the
      lower-cased words joined by one hyphen. */
  lemma CommaSeparatedWords(w1: string, w2: string)
    requires IsWord(w1) && IsWord(w2)
    ensures GenerateSlug(w1 + ", " + w2 + "!") == Lower(w1) + "-" + Lower(w2)
  {
    StripSentence(w1, w2);
    HyphenateWords(w1, w2);
    TrimJoinedWords(w1, w2);
  }

  lemma HelloWorldPieces()
    ensures "Hello" + ", " + "World" + "!" == "Hello, World!"
    ensures IsWord("Hello") && IsWord("World")
    ensures Lower("Hello") + "-" + Lower("World") == "hello-world"
  {
  }

  /** "Hello, World!" becomes "hello-world". */
  lemma HelloWorldSlug()
    ensures GenerateSlug("Hello, World!") == "hello-world"
  {
    HelloWorldPieces();
    CommaSeparatedWords("Hello", "World");
  }

  /** A word with one space on each side becomes the lower-cased word with a hyphen on each
      side: the final `trim` comes too late to remove them. */
  lemma PaddedWord(w: string)
    requires IsWord(w) && |w| > 0
    ensures GenerateSlug(" " + w + " ") == "-" + Lower(w) + "-"
  {
    StripPadded(w);
    HyphenatePadded(w);
    TrimPadded(w);
  }

  lemma StripPadded(w: string)
    requires IsWord(w)
    ensures StripDisallowed(Lower(" " + w + " ")) == " " + Lower(w) + " "
  {
    var l := Lower(w);
    LoweredWord(w, false);
    PunctuationSteps();
    LowerConcat(" " + w, " ");
    LowerConcat(" ", w);
    StripConcat(" " + l, " ");
    StripConcat(" ", l);
  }

  lemma HyphenatePadded(w: string)
    requires IsWord(w) && |w| > 0
    ensures var l := Lower(w);
      ReplaceRuns(ReplaceRuns(" " + l + " ", IsSpace), IsHyphen) == "-" + l + "-"
  {
    var l := Lower(w);
    LowerWordLetters(w);
    LoweredWord(w, true);
    PunctuationSteps();
    assert !IsSpace(l[|l| - 1]) && !IsHyphen(l[|l| - 1]);
    ReplaceRunsConcat(" " + l, " ", IsSpace, false);
    ReplaceRunsConcat(" ", l, IsSpace, false);
    ReplaceRunsConcat("-" + l, "-", IsHyphen, false);
    ReplaceRunsConcat("-", l, IsHyphen, false);
  }

  lemma TrimPadded(w: string)
    requires IsWord(w)
    ensures var padded := "-" + Lower(w) + "-";
      Trim(padded) == padded
  {
    var padded := "-" + Lower(w) + "-";
    assert padded[0] == '-' && padded[|padded| - 1] == '-';
    TrimFixesUnpadded(padded);
  }

  lemma HiPieces()
    ensures " " + "Hi" + " " == " Hi "
    ensures IsWord("Hi")
    ensures "-" + Lower("Hi") + "-" == "-hi-"
  {
  }

  /** `" Hi "` becomes `"-hi-"`. */
  lemma EdgeHyphensKept()
    ensures GenerateSlug(" Hi ") == "-hi-"
  {
    HiPieces();
    PaddedWord("Hi");
  }

  /** The final `trim` never changes anything: whitespace is gone by then. */
  lemma TrimIsNoOp(title: string)
    ensures GenerateSlug(title) == ReplaceRuns(ReplaceRuns(StripDisallowed(Lower(title)), IsSpace), IsHyphen)
  {
    var stripped := StripDisallowed(Lower(title));
    var spaced := ReplaceRuns(stripped, IsSpace);
    ReplaceRunsKeeps(stripped, IsSpace, false, Kept);
    forall i | 0 <= i < |spaced|
      ensures IsSlugChar(spaced[i])
    {
      assert HyphenOr(spaced, Kept);
    }
    ReplaceRunsKeeps(spaced, IsHyphen, false, IsSlugChar);
    TrimFixesSlug(ReplaceRuns(spaced, IsHyphen));
  }

  lemma {:induction false} AlphanumericsConcat(x: string, y: string)
    ensures Alphanumerics(x + y) == Alphanumerics(x) + Alphanumerics(y)
    decreases |x|
  {
    if |x| == 0 {
      assert x + y == y;
    } else {
      assert (x + y)[0] == x[0] && (x + y)[1..] == x[1..] + y;
      AlphanumericsConcat(x[1..], y);
    }
  }

  lemma {:induction false} AlphanumericsOfStrip(s: string)
    ensures Alphanumerics(StripDisallowed(s)) == Alphanumerics(s)
    decreases |s|
  {
    if |s| > 0 {
      var head := if Kept(s[0]) then [s[0]] else [];
      AlphanumericsConcat(head, StripDisallowed(s[1..]));
      AlphanumericsOfStrip(s[1..]);
    }
  }

  lemma {:induction false} AlphanumericsOfReplaceRuns(s: string, p: char -> bool, inRun: bool)
    requires forall c :: p(c) ==> !IsLowerLetter(c) && !IsDigit(c)
    ensures Alphanumerics(ReplaceRunsAfter(s, p, inRun)) == Alphanumerics(s)
    decreases |s|
  {
    if |s| > 0 {
      var head := if p(s[0]) then (if inRun then [] else "-") else [s[0]];
      AlphanumericsConcat(head, ReplaceRunsAfter(s[1..], p, p(s[0])));
      AlphanumericsOfReplaceRuns(s[1..], p, p(s[0]));
    }
  }

  /** The slug keeps exactly the letters and digits of the lower-cased title, in order;
      everything else it holds is hyphens. */
  lemma SlugKeepsAlphanumerics(title: string)
    ensures Alphanumerics(GenerateSlug(title)) == Alphanumerics(Lower(title))
  {
    TrimIsNoOp(title);
    var stripped := StripDisallowed(Lower(title));
    AlphanumericsOfStrip(Lower(title));
    AlphanumericsOfReplaceRuns(stripped, IsSpace, false);
    AlphanumericsOfReplaceRuns(ReplaceRuns(stripped, IsSpace), IsHyphen, false);
  }
}
