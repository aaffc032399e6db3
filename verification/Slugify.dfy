/** URL slugs derived from free text. */
module Slugify {
  import opened Strings
  import opened Digits

  /** `[a-z0-9]` */
  predicate IsWordChar(c: char) {
    'a' <= c <= 'z' || IsDigit(c)
  }

  predicate IsWord(s: string) {
    s != "" && forall c <- s :: IsWordChar(c)
  }

  /** The length of the run of word characters (or of other characters) a text starts with. */
  function RunLength(s: string, ofWord: bool): (n: nat)
    ensures n <= |s|
    ensures forall i :: 0 <= i < n ==> IsWordChar(s[i]) == ofWord
    ensures n < |s| ==> IsWordChar(s[n]) != ofWord
  {
    if s == [] || IsWordChar(s[0]) != ofWord then 0 else 1 + RunLength(s[1..], ofWord)
  }

  /** `replace(/[^a-z0-9]+/g, '-')`, run by run. */
  function HyphenateRuns(s: string): string
    decreases |s|
  {
    if s == "" then ""
    else
      var n := RunLength(s, IsWordChar(s[0]));
      (if IsWordChar(s[0]) then s[..n] else "-") + HyphenateRuns(s[n..])
  }

  /** `replace(/-+$/g, '')` */
  function TrimEndHyphens(s: string): string {
    if s != [] && Last(s) == '-' then TrimEndHyphens(DropLast(s)) else s
  }

  function TrimStartHyphens(s: string): string {
    if s != [] && s[0] == '-' then TrimStartHyphens(s[1..]) else s
  }

  /** The slug before it is cut to length; `folded` is the text without marks, in lower case. */
  function FullSlug(folded: string): string {
    TrimEndHyphens(TrimStartHyphens(HyphenateRuns(folded)))
  }

  /** `fold` stands for Unicode normalisation, mark removal and lower-casing. */
  function Slug(text: string, fold: string -> string, maxLength: nat): string {
    var full := FullSlug(fold(text));
    TrimEndHyphens(if |full| > maxLength then full[..maxLength] else full)
  }

  // ---- What a slug is ----

  /** The maximal runs of word characters, in order. */
  function Words(s: string): (words: seq<string>)
    ensures forall w <- words :: IsWord(w)
    decreases |s|
  {
    if s == [] then []
    else if !IsWordChar(s[0]) then Words(s[1..])
    else
      var n := RunLength(s, true);
      [s[..n]] + Words(s[n..])
  }

  /** A word character, or a hyphen not followed by another. */
  predicate FitsAt(s: string, i: nat)
    requires i < |s|
  {
    IsWordChar(s[i]) || (s[i] == '-' && (i + 1 < |s| ==> s[i + 1] != '-'))
  }

  /** Empty, or word characters with single hyphens strictly between them. */
  predicate IsSlug(s: string) {
    && (s != "" ==> s[0] != '-' && Last(s) != '-')
    && forall i :: 0 <= i < |s| ==> FitsAt(s, i)
  }

  lemma {:induction false} SkipOthers(s: string)
    requires s != "" && !IsWordChar(s[0])
    ensures Words(s) == Words(s[RunLength(s, false)..])
  {
    if RunLength(s, false) > 1 {
      SkipOthers(s[1..]);
      assert s[1..][RunLength(s[1..], false)..] == s[RunLength(s, false)..];
    }
  }

  /** The first word of a text, and the text from its next word on. */
  lemma FirstWord(s: string) returns (word: string, next: string)
    requires s != "" && IsWordChar(s[0])
    ensures |next| < |s| && (next != "" ==> IsWordChar(next[0]))
    ensures Words(s) == [word] + Words(next)
    ensures HyphenateRuns(s) == word + "-" + HyphenateRuns(next) || (next == "" && HyphenateRuns(s) == word)
  {
    var n := RunLength(s, true);
    var rest := s[n..];
    word, next := s[..n], rest;
    assert HyphenateRuns(s) == word + HyphenateRuns(rest);
    if rest != "" {
      SkipOthers(rest);
      next := rest[RunLength(rest, false)..];
      assert HyphenateRuns(rest) == "-" + HyphenateRuns(next);
      assert word + ("-" + HyphenateRuns(next)) == word + "-" + HyphenateRuns(next);
    }
  }

  /** From its first word on, a hyphenated text is its words joined, with at most one hyphen after them. */
  lemma {:induction false} HyphenatedWords(s: string)
    requires s != "" && IsWordChar(s[0])
    ensures Words(s) != []
    ensures HyphenateRuns(s) == Join(Words(s), "-") || HyphenateRuns(s) == Join(Words(s), "-") + "-"
    decreases |s|
  {
    hide HyphenateRuns, Words, Join, RunLength;
    var word, next := FirstWord(s);
    if next == "" {
      NoWords();
      assert Words(s) == [word];
    } else {
      HyphenatedWords(next);
      JoinCons(word, Words(next));
      var joined := Join(Words(next), "-");
      assert word + "-" + (joined + "-") == (word + "-" + joined) + "-";
    }
  }

  lemma NoWords()
    ensures Words("") == [] && HyphenateRuns("") == "" && forall word :: Join([word], "-") == word
  {
  }

  lemma JoinCons(head: string, tail: seq<string>)
    requires tail != []
    ensures Join([head] + tail, "-") == head + "-" + Join(tail, "-")
  {
    assert ([head] + tail)[1..] == tail;
  }

  lemma {:induction false} JoinedWordsAreSlug(words: seq<string>)
    requires forall w <- words :: IsWord(w)
    ensures IsSlug(Join(words, "-"))
    ensures Join(words, "-") == "" <==> words == []
  {
    if words != [] {
      var head := words[0];
      assert IsWord(head) && head[0] in head && Last(head) in head;
      forall i | 0 <= i < |head| ensures IsWordChar(head[i]) { assert head[i] in head; }
      if |words| > 1 {
        assert forall w <- words[1..] :: w in words;
        JoinedWordsAreSlug(words[1..]);
        var tail := Join(words[1..], "-");
        var s := Join(words, "-");
        assert s == head + "-" + tail && Last(s) == Last(tail);
        forall i | 0 <= i < |s|
          ensures FitsAt(s, i)
        {
          if i < |head| {
            assert s[i] == head[i];
          } else if i == |head| {
            assert s[i + 1] == tail[0] && FitsAt(tail, 0);
          } else {
            assert FitsAt(tail, i - |head| - 1) && s[i] == tail[i - |head| - 1];
            assert i + 1 < |s| ==> s[i + 1] == tail[i - |head|];
          }
        }
      }
    }
  }

  lemma {:induction false} TrimmedEnds(s: string)
    requires s != "" ==> s[0] != '-' && Last(s) != '-'
    ensures TrimStartHyphens(s) == s && TrimEndHyphens(s) == s && TrimEndHyphens(s + "-") == s
  {
    assert DropLast(s + "-") == s;
  }

  /** The uncut slug is the text's words joined by hyphens. */
  lemma FullSlugIsJoinedWords(folded: string)
    ensures FullSlug(folded) == Join(Words(folded), "-")
  {
    JoinedWordsAreSlug(Words(folded));
    TrimmedEnds(Join(Words(folded), "-"));
    if folded != "" {
      if IsWordChar(folded[0]) {
        HyphenatedWords(folded);
        StartsWithWord(folded, Join(Words(folded), "-"));
      } else {
        SkipOthers(folded);
        var next := folded[RunLength(folded, false)..];
        if next != "" {
          HyphenatedWords(next);
          StartsWithWord(next, Join(Words(next), "-"));
        }
        assert HyphenateRuns(folded)[1..] == HyphenateRuns(next);
      }
    }
  }

  lemma StartsWithWord(s: string, slug: string)
    requires IsSlug(slug) && slug != ""
    requires HyphenateRuns(s) == slug || HyphenateRuns(s) == slug + "-"
    ensures TrimStartHyphens(HyphenateRuns(s)) == HyphenateRuns(s)
    ensures TrimEndHyphens(HyphenateRuns(s)) == slug
  {
    TrimmedEnds(slug);
    assert HyphenateRuns(s)[0] == slug[0];
  }

  // ---- The same slug in one pass over the characters ----

  datatype PassState = AtStart | InWord | InGap

  /** Letters and digits are kept; a gap between two of them becomes one hyphen, one at an end nothing. */
  function OnePass(s: string, state: PassState): string {
    if s == "" then ""
    else if 'a' <= s[0] <= 'z' || '0' <= s[0] <= '9'
    then (if state == InGap then "-" else "") + ([s[0]] + OnePass(s[1..], InWord))
    else OnePass(s[1..], if state == AtStart then AtStart else InGap)
  }

  lemma {:induction false} PassOverWord(s: string)
    ensures
      var n := RunLength(s, true);
      OnePass(s, InWord) == s[..n] + OnePass(s[n..], InWord)
  {
    if s != "" && IsWordChar(s[0]) {
      PassOverWord(s[1..]);
      var n := RunLength(s, true);
      assert s[1..][n - 1..] == s[n..] && s[..n] == [s[0]] + s[1..][..n - 1];
    }
  }

  lemma PassFirstWord(s: string, state: PassState)
    requires s != "" && IsWordChar(s[0])
    ensures
      var n := RunLength(s, true);
      OnePass(s, state) == (if state == InGap then "-" else "") + (s[..n] + OnePass(s[n..], InWord))
  {
    var n, m := RunLength(s, true), RunLength(s[1..], true);
    PassOverWord(s[1..]);
    assert n == 1 + m && s[1..][m..] == s[n..];
    hide RunLength, OnePass;
    WordAndRest(s, m, OnePass(s[n..], InWord));
  }

  lemma WordAndRest(s: string, m: nat, rest: string)
    requires m + 1 <= |s|
    ensures [s[0]] + (s[1..][..m] + rest) == s[..m + 1] + rest
  {
    assert s[..m + 1] == [s[0]] + s[1..][..m];
  }

  lemma WordsAfterFirst(s: string)
    requires s != "" && IsWordChar(s[0])
    ensures
      var n := RunLength(s, true);
      && |s[n..]| < |s| && Words(s) == [s[..n]] + Words(s[n..])
      && (s[n..] != "" ==> Words(s[n..]) == Words(s[n..][1..]) && !IsWordChar(s[n]))
  {
  }

  lemma PassGap(rest: string)
    requires rest != "" && !IsWordChar(rest[0])
    ensures OnePass(rest, InWord) == OnePass(rest[1..], InGap)
  {
  }

  lemma JoinFirst(word: string, words: seq<string>, passed: string)
    requires passed == (if words != [] then "-" else "") + Join(words, "-")
    ensures Join([word] + words, "-") == word + passed
  {
    if words == [] {
      NoWords();
      assert [word] + words == [word] && word + passed == word;
    } else {
      JoinCons(word, words);
    }
  }

  lemma NothingToPass()
    ensures Words("") == [] && Join([], "-") == "" && forall state :: OnePass("", state) == ""
  {
  }

  lemma {:induction false} PassJoinsWords(s: string, state: PassState)
    requires state != InWord
    ensures OnePass(s, state) == (if state == InGap && Words(s) != [] then "-" else "") + Join(Words(s), "-")
    decreases |s|
  {
    if s != "" {
      if IsWordChar(s[0]) {
        hide OnePass, Words, Join, RunLength;
        var n := RunLength(s, true);
        var rest := s[n..];
        PassFirstWord(s, state);
        WordsAfterFirst(s);
        NothingToPass();
        if rest != "" {
          PassGap(rest);
          PassJoinsWords(rest[1..], InGap);
        }
        JoinFirst(s[..n], Words(rest), OnePass(rest, InWord));
      } else {
        PassJoinsWords(s[1..], state);
      }
    }
  }

  /** The three replacements together are the one pass. */
  lemma FullSlugIsOnePass(folded: string)
    ensures FullSlug(folded) == OnePass(folded, AtStart)
  {
    FullSlugIsJoinedWords(folded);
    PassJoinsWords(folded, AtStart);
  }

  function LettersOf(s: string): string {
    if s == "" then ""
    else (if 'a' <= s[0] <= 'z' || '0' <= s[0] <= '9' then [s[0]] else "") + LettersOf(s[1..])
  }

  lemma LettersStep(c: char, s: string)
    ensures LettersOf([c] + s) == (if 'a' <= c <= 'z' || '0' <= c <= '9' then [c] else "") + LettersOf(s)
  {
    assert ([c] + s)[1..] == s;
  }

  predicate IsSlugText(s: string) {
    forall i :: 0 <= i < |s| ==> 'a' <= s[i] <= 'z' || '0' <= s[i] <= '9' || s[i] == '-'
  }

  lemma LettersOfKept(c: char, rest: string, lead: string)
    requires lead == "" || lead == "-"
    requires 'a' <= c <= 'z' || '0' <= c <= '9'
    ensures LettersOf(lead + ([c] + rest)) == [c] + LettersOf(rest)
    ensures IsSlugText(rest) ==> IsSlugText(lead + ([c] + rest))
  {
    hide LettersOf;
    LettersStep(c, rest);
    if lead == "-" {
      LettersStep('-', [c] + rest);
      assert lead + ([c] + rest) == ['-'] + ([c] + rest);
    } else {
      assert lead + ([c] + rest) == [c] + rest;
    }
  }

  lemma {:induction false} LettersOfPass(s: string, state: PassState)
    ensures LettersOf(OnePass(s, state)) == LettersOf(s) && IsSlugText(OnePass(s, state))
  {
    if s != "" {
      if 'a' <= s[0] <= 'z' || '0' <= s[0] <= '9' {
        LettersOfPass(s[1..], InWord);
        LettersOfKept(s[0], OnePass(s[1..], InWord), if state == InGap then "-" else "");
      } else {
        LettersOfPass(s[1..], if state == AtStart then AtStart else InGap);
        assert "" + LettersOf(s[1..]) == LettersOf(s[1..]);
      }
    }
  }

  /** A slug has letters, digits and hyphens only; uncut, it has every letter and digit of the text in order. */
  lemma SlugKeepsLetters(text: string, fold: string -> string, maxLength: nat)
    ensures IsSlugText(Slug(text, fold, maxLength))
    ensures LettersOf(FullSlug(fold(text))) == LettersOf(fold(text))
  {
    FullSlugIsOnePass(fold(text));
    LettersOfPass(fold(text), AtStart);
    FullSlugIsJoinedWords(fold(text));
    SlugIsLongestFit(text, fold, maxLength);
    var slug, full := Slug(text, fold, maxLength), FullSlug(fold(text));
    assert forall i :: 0 <= i < |slug| ==> slug[i] == full[i];
  }

  // ---- Cutting to length ----

  /** Trimming the end keeps every prefix that does not itself end in a hyphen. */
  lemma {:induction false} TrimKeepsPrefixes(s: string, p: string)
    requires p <= s && (p != "" ==> Last(p) != '-')
    ensures p <= TrimEndHyphens(s) <= s
    ensures TrimEndHyphens(s) != "" ==> Last(TrimEndHyphens(s)) != '-'
  {
    if s != "" && Last(s) == '-' {
      assert p != s;
      assert p <= DropLast(s);
      TrimKeepsPrefixes(DropLast(s), p);
    }
  }

  /** A slug is the longest slug-shaped prefix of the uncut slug that fits the limit. */
  lemma SlugIsLongestFit(text: string, fold: string -> string, maxLength: nat)
    ensures var slug, full := Slug(text, fold, maxLength), Join(Words(fold(text)), "-");
      && IsSlug(slug) && slug <= full && |slug| <= maxLength
      && forall p :: p <= full && |p| <= maxLength && IsSlug(p) ==> p <= slug
  {
    var full := FullSlug(fold(text));
    FullSlugIsJoinedWords(fold(text));
    JoinedWordsAreSlug(Words(fold(text)));
    var cut := if |full| > maxLength then full[..maxLength] else full;
    TrimKeepsPrefixes(cut, "");
    var slug := Slug(text, fold, maxLength);
    assert slug == full[..|slug|];
    forall i | 0 <= i < |slug|
      ensures FitsAt(slug, i)
    {
      assert FitsAt(full, i);
    }
    forall p | p <= full && |p| <= maxLength && IsSlug(p)
      ensures p <= slug
    {
      assert p <= cut;
      TrimKeepsPrefixes(cut, p);
    }
  }

  lemma {:induction false} SlugsAreHyphenated(s: string)
    requires forall i :: 0 <= i < |s| ==> FitsAt(s, i)
    ensures HyphenateRuns(s) == s
    decreases |s|
  {
    if s != "" {
      var n := RunLength(s, IsWordChar(s[0]));
      var rest := s[n..];
      forall i | 0 <= i < |rest|
        ensures FitsAt(rest, i)
      {
        assert FitsAt(s, i + n);
      }
      SlugsAreHyphenated(rest);
      assert FitsAt(s, 0) && (|s| > 1 ==> FitsAt(s, 1));
      assert !IsWordChar(s[0]) ==> n == 1 && s[..n] == "-";
      assert s == s[..n] + rest;
    }
  }

  /** Slugifying a slug again changes nothing, for any folding that leaves slugs alone. */
  lemma SlugIsIdempotent(text: string, fold: string -> string, maxLength: nat)
    requires forall s | IsSlug(s) :: fold(s) == s
    ensures Slug(Slug(text, fold, maxLength), fold, maxLength) == Slug(text, fold, maxLength)
  {
    SlugIsLongestFit(text, fold, maxLength);
    var slug := Slug(text, fold, maxLength);
    SlugsAreHyphenated(slug);
    TrimmedEnds(slug);
  }

  /** A slug is empty exactly when the folded text has no word character at all, or no length is allowed. */
  lemma {:induction false} EmptySlugMeaning(text: string, fold: string -> string, maxLength: nat)
    ensures Slug(text, fold, maxLength) == "" <==> maxLength == 0 || forall c <- fold(text) :: !IsWordChar(c)
  {
    var folded := fold(text);
    var full := Join(Words(folded), "-");
    FullSlugIsJoinedWords(folded);
    JoinedWordsAreSlug(Words(folded));
    NoWordsMeaning(folded);
    SlugIsLongestFit(text, fold, maxLength);
    if maxLength > 0 && full != "" {
      var first := full[..1];
      assert FitsAt(full, 0) && IsWordChar(full[0]);
      assert IsSlug(first) && first <= full;
    }
  }

  lemma {:induction false} NoWordsMeaning(s: string)
    ensures Words(s) == [] <==> forall c <- s :: !IsWordChar(c)
    decreases |s|
  {
    if s != "" {
      assert s[0] in s && forall c <- s[1..] :: c in s;
      assert s == [s[0]] + s[1..];
      NoWordsMeaning(s[1..]);
    }
  }
}
