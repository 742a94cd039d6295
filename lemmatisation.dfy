/**
 * Lemmatisation: text -> map from normal form to number of occurrences.
 * The Russian morphology dictionary is a parameter (`Morphology`); a `None`
 * from one of its functions stands for an exception thrown by the dictionary.
 */
module Lemmatisation {
  import opened Wrappers
  import opened Strings

  /** The three dictionary calls used: getNormalForms, getMorphInfo, checkString. */
  datatype Morphology = Morphology(
    normalForms: string -> Option<seq<string>>,
    morphInfo: string -> Option<seq<string>>,
    checkString: string -> bool)

  /** Morphological classes of function words: interjection, preposition, conjunction. */
  const ParticlesNames: seq<string> := ["МЕЖД", "ПРЕДЛ", "СОЮЗ"]

  // ---------------------------------------------------------------------------
  // Character classes

  /** A character matched by `\s` in a Java regular expression. */
  predicate IsRegexSpace(c: char) {
    c == ' ' || c == '\t' || c == '\n' || c == '\U{000B}' || c == '\U{000C}' || c == '\r'
  }

  /** A character of the class `А-я`: U+0410 to U+044F. */
  predicate IsRussianLetter(c: char) {
    '\U{0410}' <= c <= '\U{044F}'
  }

  /** A lower-case letter `а` to `я` (U+0430 to U+044F); `ё` is not one of them. */
  predicate IsLowerRussianLetter(c: char) {
    '\U{0430}' <= c <= '\U{044F}'
  }

  /** Character.isWhitespace */
  predicate IsJavaWhitespace(c: char) {
    || IsRegexSpace(c)
    || ('\U{001C}' <= c <= '\U{001F}')
    || c == '\U{1680}' || ('\U{2000}' <= c <= '\U{2006}') || ('\U{2008}' <= c <= '\U{200A}')
    || c == '\U{2028}' || c == '\U{2029}' || c == '\U{205F}' || c == '\U{3000}'
  }

  /** String.isBlank */
  predicate IsBlank(s: string) {
    forall c :: c in s ==> IsJavaWhitespace(c)
  }

  // ---------------------------------------------------------------------------
  // splitText: toLowerCase, replaceAll("[^А-я\\s]", ""), trim, split("\\s+")

  /** replaceAll("[^А-я\\s]", ""): keeps letters of the class and `\s` characters, in order. */
  function KeepLettersAndSpaces(s: string): (r: string)
    decreases |s|
  {
    if |s| == 0 then []
    else
      var rest := KeepLettersAndSpaces(s[1..]);
      if IsRussianLetter(s[0]) || IsRegexSpace(s[0]) then [s[0]] + rest else rest
  }

  /** String.trim: drops leading and trailing characters up to U+0020. */
  function Trim(s: string): string {
    TrimEnd(TrimStart(s))
  }

  function TrimStart(s: string): string
    decreases |s|
  {
    if |s| > 0 && s[0] <= ' ' then TrimStart(s[1..]) else s
  }

  function TrimEnd(s: string): string
    decreases |s|
  {
    if |s| > 0 && s[|s| - 1] <= ' ' then TrimEnd(s[..|s| - 1]) else s
  }

  /** The first position at or after `k` holding a `\s` character, or |s|. */
  function NextSpace(s: string, k: nat): (i: nat)
    requires k <= |s|
    ensures k <= i <= |s|
    ensures i < |s| ==> IsRegexSpace(s[i])
    ensures forall j :: k <= j < i ==> !IsRegexSpace(s[j])
    decreases |s| - k
  {
    if k == |s| || IsRegexSpace(s[k]) then k else NextSpace(s, k + 1)
  }

  /** The first position at or after `k` holding a character other than `\s`, or |s|. */
  function NextNonSpace(s: string, k: nat): (i: nat)
    requires k <= |s|
    ensures k <= i <= |s|
    ensures i < |s| ==> !IsRegexSpace(s[i])
    ensures forall j :: k <= j < i ==> IsRegexSpace(s[j])
    decreases |s| - k
  {
    if k == |s| || !IsRegexSpace(s[k]) then k else NextNonSpace(s, k + 1)
  }

  /** The substrings between the runs of `\s`, trailing empty one included. */
  function Pieces(s: string): seq<string>
    decreases |s|
  {
    var i := NextSpace(s, 0);
    if i == |s| then [s]
    else
      var j := NextNonSpace(s, i);
      [s[..i]] + Pieces(s[j..])
  }

  function DropTrailingEmpty(ps: seq<string>): seq<string>
    decreases |ps|
  {
    if |ps| > 0 && ps[|ps| - 1] == "" then DropTrailingEmpty(ps[..|ps| - 1]) else ps
  }

  /** String.split("\\s+"): the whole string when nothing matches, trailing empty strings removed otherwise. */
  function SplitOnSpaces(s: string): seq<string> {
    if forall c :: c in s ==> !IsRegexSpace(c) then [s] else DropTrailingEmpty(Pieces(s))
  }

  /** Lemmatisation.splitText */
  function SplitText(text: string): seq<string> {
    SplitOnSpaces(Trim(Filtered(text)))
  }

  /** The text after lower-casing and deleting every character outside `А-я` and `\s`. */
  function Filtered(text: string): string {
    KeepLettersAndSpaces(Lower(text))
  }

  // ---------------------------------------------------------------------------
  // isNotWord and getLemmas

  /** The loop over ParticlesNames from position k: the first class found decides, by checkString. */
  function ScanParticles(info: string, k: nat, check: bool): bool
    decreases |ParticlesNames| - k
  {
    if k >= |ParticlesNames| then false
    else if Contains(info, ParticlesNames[k]) then check
    else ScanParticles(info, k + 1, check)
  }

  /** Lemmatisation.isNotWord; `None` when getMorphInfo throws. */
  function IsNotWord(morph: Morphology, word: string): Option<bool> {
    match morph.morphInfo(word)
    case None => None
    case Some(info) => Some(ScanParticles(Upper(ListToString(info)), 0, morph.checkString(word)))
  }

  /** The loop body of getLemmas for one token: the normal form counted, or `None` when the token is skipped. */
  function NormalWord(morph: Morphology, word: string): Option<string> {
    if IsBlank(word) then None
    else match IsNotWord(morph, word)
      case None => None
      case Some(notWord) =>
        if notWord then None
        else match morph.normalForms(Lower(word))
          case None => None
          case Some(forms) => if |forms| == 0 then None else Some(forms[0])
  }

  /** Normal forms of the tokens that survive, in token order. */
  function NormalWords(morph: Morphology, words: seq<string>): seq<string>
    decreases |words|
  {
    if |words| == 0 then []
    else
      var rest := NormalWords(morph, words[..|words| - 1]);
      match NormalWord(morph, words[|words| - 1])
      case None => rest
      case Some(w) => rest + [w]
  }

  /** Every word of `ws` mapped to its number of occurrences. */
  function Tally(ws: seq<string>): map<string, nat> {
    map w | w in multiset(ws) :: multiset(ws)[w]
  }

  /** Lemmatisation.getLemmas */
  method GetLemmas(morph: Morphology, text: string) returns (lemmas: map<string, nat>)
    ensures lemmas == Tally(NormalWords(morph, SplitText(text)))
    ensures forall w :: w in lemmas ==> lemmas[w] >= 1
  {
    lemmas := CountLemmas(morph, SplitText(text));
  }

  /** The loop of getLemmas over the tokens of the text. */
  method CountLemmas(morph: Morphology, words: seq<string>) returns (lemmas: map<string, nat>)
    ensures lemmas == Tally(NormalWords(morph, words))
  {
    lemmas := map[];
    var i := 0;
    while i < |words|
      invariant 0 <= i <= |words|
      invariant lemmas == Tally(NormalWords(morph, words[..i]))
    {
      var word := words[i];
      assert words[..i + 1][..i] == words[..i];
      if IsBlank(word) {
      } else {
        var notWord := IsNotWord(morph, word);
        if notWord.None? || notWord.value {
        } else {
          var normalForms := morph.normalForms(Lower(word));
          if normalForms.None? || |normalForms.value| == 0 {
          } else {
            var normalWord := normalForms.value[0];
            TallyAppend(NormalWords(morph, words[..i]), normalWord);
            if normalWord in lemmas {
              lemmas := lemmas[normalWord := lemmas[normalWord] + 1];
            } else {
              lemmas := lemmas[normalWord := 1];
            }
          }
        }
      }
      i := i + 1;
    }
    assert words[..i] == words;
  }

  // ---------------------------------------------------------------------------
  // Properties of the counting

  /** Counting one more word raises its count by one. */
  lemma TallyAppend(ws: seq<string>, w: string)
    ensures Tally(ws + [w]) == Tally(ws)[w := if w in Tally(ws) then Tally(ws)[w] + 1 else 1]
  {
    assert multiset(ws + [w]) == multiset(ws) + multiset{w};
  }

  /** The sum of the values of a map. */
  ghost function SumValues(m: map<string, nat>): nat
    decreases |m|
  {
    if m == map[] then 0
    else
      var k :| k in m;
      m[k] + SumValues(m - {k})
  }

  /** SumValues may start from any key. */
  lemma {:induction false} SumValuesRemove(m: map<string, nat>, x: string)
    requires x in m
    ensures SumValues(m) == m[x] + SumValues(m - {x})
    decreases |m|
  {
    var k :| k in m && SumValues(m) == m[k] + SumValues(m - {k});
    if k != x {
      SumValuesRemove(m - {k}, x);
      SumValuesRemove(m - {x}, k);
      assert m - {k} - {x} == m - {x} - {k};
    }
  }

  /** The counts of a tally add up to the number of words counted. */
  lemma {:induction false} TallySum(ws: seq<string>)
    ensures SumValues(Tally(ws)) == |ws|
    decreases |ws|
  {
    if |ws| > 0 {
      var init, w := ws[..|ws| - 1], ws[|ws| - 1];
      assert ws == init + [w];
      TallySum(init);
      TallyAppend(init, w);
      var t := Tally(init);
      var t' := Tally(ws);
      SumValuesRemove(t', w);
      if w in t {
        SumValuesRemove(t, w);
        assert t' - {w} == t - {w};
      } else {
        assert t' - {w} == t;
      }
    }
  }

  lemma NormalWordsAppend(morph: Morphology, a: seq<string>, b: seq<string>)
    ensures NormalWords(morph, a + b) == NormalWords(morph, a) + NormalWords(morph, b)
    decreases |b|
  {
    if |b| > 0 {
      var b' := b[..|b| - 1];
      assert (a + b)[..|a + b| - 1] == a + b';
      NormalWordsAppend(morph, a, b');
    } else {
      assert a + b == a;
    }
  }

  /** The last token of `ws` at some position `j` of its permutation `vs`, the rest still a permutation. */
  lemma MatchLast(ws: seq<string>, vs: seq<string>) returns (j: int)
    requires multiset(ws) == multiset(vs) && |ws| > 0
    ensures 0 <= j < |vs| && vs[j] == ws[|ws| - 1]
    ensures multiset(ws[..|ws| - 1]) == multiset(vs[..j] + vs[j + 1..])
  {
    var init, w := ws[..|ws| - 1], ws[|ws| - 1];
    assert ws == init + [w];
    assert w in multiset(vs);
    j :| 0 <= j < |vs| && vs[j] == w;
    var rest := vs[..j] + vs[j + 1..];
    assert vs == vs[..j] + [w] + vs[j + 1..];
    assert multiset(vs) == multiset(vs[..j]) + multiset{w} + multiset(vs[j + 1..]);
    assert multiset(rest) == multiset(vs[..j]) + multiset(vs[j + 1..]);
    assert multiset(ws) == multiset(init) + multiset{w};
    assert multiset(init) == multiset(rest) by {
      forall x ensures multiset(init)[x] == multiset(rest)[x] {
        assert multiset(ws)[x] == multiset(vs)[x];
      }
    }
  }

  /** The normal forms of `ws` are those of all but its last token, and then of the last token. */
  lemma NormalWordsSnoc(morph: Morphology, ws: seq<string>)
    requires |ws| > 0
    ensures multiset(NormalWords(morph, ws)) ==
      multiset(NormalWords(morph, ws[..|ws| - 1])) + multiset(NormalWords(morph, [ws[|ws| - 1]]))
  {
    assert ws == ws[..|ws| - 1] + [ws[|ws| - 1]];
    NormalWordsAppend(morph, ws[..|ws| - 1], [ws[|ws| - 1]]);
  }

  /** Taking out the token at `j` takes its normal form out of the multiset. */
  lemma NormalWordsSplit(morph: Morphology, vs: seq<string>, j: int)
    requires 0 <= j < |vs|
    ensures multiset(NormalWords(morph, vs)) ==
      multiset(NormalWords(morph, vs[..j] + vs[j + 1..])) + multiset(NormalWords(morph, [vs[j]]))
  {
    var a, w, b := vs[..j], vs[j], vs[j + 1..];
    assert vs == a + [w] + b;
    NormalWordsAppend(morph, a + [w], b);
    NormalWordsAppend(morph, a, [w]);
    NormalWordsAppend(morph, a, b);
  }

  /** Which tokens survive, and under which normal form, does not depend on their order. */
  lemma {:induction false} NormalWordsPermutation(morph: Morphology, ws: seq<string>, vs: seq<string>)
    requires multiset(ws) == multiset(vs)
    ensures multiset(NormalWords(morph, ws)) == multiset(NormalWords(morph, vs))
    decreases |ws|
  {
    if |ws| > 0 {
      var j := MatchLast(ws, vs);
      NormalWordsPermutation(morph, ws[..|ws| - 1], vs[..j] + vs[j + 1..]);
      NormalWordsSnoc(morph, ws);
      NormalWordsSplit(morph, vs, j);
    } else {
      assert vs == [];
    }
  }

  /** The lemma map of getLemmas depends only on the multiset of tokens. */
  lemma LemmaCountsOrderFree(morph: Morphology, ws: seq<string>, vs: seq<string>)
    requires multiset(ws) == multiset(vs)
    ensures Tally(NormalWords(morph, ws)) == Tally(NormalWords(morph, vs))
  {
    NormalWordsPermutation(morph, ws, vs);
  }

  /** The counts of getLemmas add up to the number of tokens that survive all the checks. */
  lemma LemmaCountsSum(morph: Morphology, text: string)
    ensures SumValues(Tally(NormalWords(morph, SplitText(text)))) == |NormalWords(morph, SplitText(text))|
  {
    TallySum(NormalWords(morph, SplitText(text)));
  }

  /** A token is counted exactly when NormalWord keeps it, under the normal form it gives. */
  lemma {:induction false} NormalWordsMembers(morph: Morphology, words: seq<string>, w: string)
    ensures w in NormalWords(morph, words) <==> exists i :: 0 <= i < |words| && NormalWord(morph, words[i]) == Some(w)
    decreases |words|
  {
    if |words| > 0 {
      var init := words[..|words| - 1];
      NormalWordsMembers(morph, init, w);
      if exists i :: 0 <= i < |words| && NormalWord(morph, words[i]) == Some(w) {
        var i :| 0 <= i < |words| && NormalWord(morph, words[i]) == Some(w);
        if i < |words| - 1 {
          assert init[i] == words[i];
        }
      }
      if w in NormalWords(morph, init) {
        var i :| 0 <= i < |init| && NormalWord(morph, init[i]) == Some(w);
        assert words[i] == init[i];
      }
    }
  }

  /** isNotWord holds exactly when the upper-cased morph info names a function-word class and checkString accepts the word. */
  lemma IsNotWordMeaning(morph: Morphology, word: string)
    ensures morph.morphInfo(word).None? ==> IsNotWord(morph, word) == None
    ensures morph.morphInfo(word).Some? ==>
      IsNotWord(morph, word) == Some(
        (exists k :: 0 <= k < |ParticlesNames| && Contains(Upper(ListToString(morph.morphInfo(word).value)), ParticlesNames[k]))
        && morph.checkString(word))
  {
    if morph.morphInfo(word).Some? {
      ScanParticlesMeaning(Upper(ListToString(morph.morphInfo(word).value)), 0, morph.checkString(word));
    }
  }

  lemma {:induction false} ScanParticlesMeaning(info: string, k: nat, check: bool)
    ensures ScanParticles(info, k, check) ==
      ((exists j :: k <= j < |ParticlesNames| && Contains(info, ParticlesNames[j])) && check)
    decreases |ParticlesNames| - k
  {
    if k < |ParticlesNames| && !Contains(info, ParticlesNames[k]) {
      ScanParticlesMeaning(info, k + 1, check);
    }
  }

  // ---------------------------------------------------------------------------
  // Properties of splitText

  /** The text with every `\s` character removed. */
  function RemoveSpaces(s: string): string
    decreases |s|
  {
    if |s| == 0 then [] else (if IsRegexSpace(s[0]) then [] else [s[0]]) + RemoveSpaces(s[1..])
  }

  function Concat(ps: seq<string>): string
    decreases |ps|
  {
    if |ps| == 0 then [] else ps[0] + Concat(ps[1..])
  }

  /** Every character is a lower-case letter or a `\s` character. */
  ghost predicate LettersAndSpaces(s: string) {
    forall i :: 0 <= i < |s| ==> IsLowerRussianLetter(s[i]) || IsRegexSpace(s[i])
  }

  ghost predicate Letters(s: string) {
    forall i :: 0 <= i < |s| ==> IsLowerRussianLetter(s[i])
  }

  lemma {:induction false} RemoveSpacesAppend(a: string, b: string)
    ensures RemoveSpaces(a + b) == RemoveSpaces(a) + RemoveSpaces(b)
    decreases |a|
  {
    if |a| > 0 {
      assert (a + b)[1..] == a[1..] + b;
      RemoveSpacesAppend(a[1..], b);
    } else {
      assert a + b == b;
    }
  }

  lemma {:induction false} RemoveSpacesOfSpaces(s: string)
    requires forall i :: 0 <= i < |s| ==> IsRegexSpace(s[i])
    ensures RemoveSpaces(s) == []
    decreases |s|
  {
    if |s| > 0 {
      RemoveSpacesOfSpaces(s[1..]);
    }
  }

  lemma {:induction false} RemoveSpacesOfWord(s: string)
    requires forall i :: 0 <= i < |s| ==> !IsRegexSpace(s[i])
    ensures RemoveSpaces(s) == s
    decreases |s|
  {
    if |s| > 0 {
      RemoveSpacesOfWord(s[1..]);
      assert s == [s[0]] + s[1..];
    }
  }

  /** After lower-casing, no character lies in U+0410 to U+042F. */
  lemma LowerHasNoCapitals(text: string)
    ensures forall i :: 0 <= i < |Lower(text)| ==> !('\U{0410}' <= Lower(text)[i] <= '\U{042F}')
  {
  }

  /** Deleting the other characters of a lower-cased text leaves only lower-case letters and `\s`. */
  lemma {:induction false} KeepLettersAndSpacesOfLower(s: string)
    requires forall i :: 0 <= i < |s| ==> !('\U{0410}' <= s[i] <= '\U{042F}')
    ensures LettersAndSpaces(KeepLettersAndSpaces(s))
    decreases |s|
  {
    if |s| > 0 {
      KeepLettersAndSpacesOfLower(s[1..]);
    }
  }

  lemma {:induction false} TrimStartFacts(s: string)
    requires LettersAndSpaces(s)
    ensures LettersAndSpaces(TrimStart(s))
    ensures RemoveSpaces(TrimStart(s)) == RemoveSpaces(s)
    ensures |TrimStart(s)| > 0 ==> IsLowerRussianLetter(TrimStart(s)[0])
    ensures |TrimStart(s)| > 0 ==> TrimStart(s)[|TrimStart(s)| - 1] == s[|s| - 1]
    decreases |s|
  {
    if |s| > 0 && s[0] <= ' ' {
      var rest := s[1..];
      assert LettersAndSpaces(rest) by {
        assert forall i :: 0 <= i < |rest| ==> rest[i] == s[i + 1];
      }
      TrimStartFacts(rest);
      assert TrimStart(s) == TrimStart(rest);
      assert IsRegexSpace(s[0]);
      assert RemoveSpaces(s) == RemoveSpaces(rest);
      assert |rest| > 0 ==> rest[|rest| - 1] == s[|s| - 1];
    } else {
      assert TrimStart(s) == s;
    }
  }

  lemma {:induction false} TrimEndFacts(s: string)
    requires LettersAndSpaces(s)
    ensures LettersAndSpaces(TrimEnd(s))
    ensures RemoveSpaces(TrimEnd(s)) == RemoveSpaces(s)
    ensures |TrimEnd(s)| > 0 ==> IsLowerRussianLetter(TrimEnd(s)[|TrimEnd(s)| - 1])
    ensures |TrimEnd(s)| > 0 ==> TrimEnd(s)[0] == s[0]
    decreases |s|
  {
    if |s| > 0 && s[|s| - 1] <= ' ' {
      var init := s[..|s| - 1];
      TrimEndFacts(init);
      assert s == init + [s[|s| - 1]];
      RemoveSpacesAppend(init, [s[|s| - 1]]);
    }
  }

  /** The pieces hold no `\s`. */
  lemma {:induction false} PiecesHaveNoSpaces(s: string)
    ensures |Pieces(s)| >= 1
    ensures forall k :: 0 <= k < |Pieces(s)| ==> forall i :: 0 <= i < |Pieces(s)[k]| ==> !IsRegexSpace(Pieces(s)[k][i])
    decreases |s|
  {
    var i := NextSpace(s, 0);
    if i < |s| {
      var rest := s[NextNonSpace(s, i)..];
      PiecesHaveNoSpaces(rest);
      assert Pieces(s) == [s[..i]] + Pieces(rest);
    }
  }

  /** Together the pieces are the text without its `\s` characters. */
  lemma {:induction false} PiecesConcat(s: string)
    ensures Concat(Pieces(s)) == RemoveSpaces(s)
    decreases |s|
  {
    var i := NextSpace(s, 0);
    if i == |s| {
      RemoveSpacesOfWord(s);
    } else {
      var j := NextNonSpace(s, i);
      var rest := s[j..];
      PiecesConcat(rest);
      assert Pieces(s) == [s[..i]] + Pieces(rest);
      assert s == s[..i] + s[i..j] + rest;
      RemoveSpacesAppend(s[..i] + s[i..j], rest);
      RemoveSpacesAppend(s[..i], s[i..j]);
      RemoveSpacesOfWord(s[..i]);
      RemoveSpacesOfSpaces(s[i..j]);
    }
  }

  /** Of a text made of letters and `\s`, the pieces are made of letters. */
  lemma {:induction false} PiecesAreLetters(s: string)
    requires LettersAndSpaces(s)
    ensures forall k :: 0 <= k < |Pieces(s)| ==> Letters(Pieces(s)[k])
    decreases |s|
  {
    var i := NextSpace(s, 0);
    if i < |s| {
      var j := NextNonSpace(s, i);
      var rest := s[j..];
      assert LettersAndSpaces(rest) by {
        forall t | 0 <= t < |rest| ensures IsLowerRussianLetter(rest[t]) || IsRegexSpace(rest[t]) {
          assert rest[t] == s[j + t];
        }
      }
      PiecesAreLetters(rest);
      assert Pieces(s) == [s[..i]] + Pieces(rest);
    }
  }

  /** A text that starts and ends outside `\s` has no empty piece. */
  lemma {:induction false} PiecesNonEmpty(s: string)
    requires |s| > 0 && !IsRegexSpace(s[0]) && !IsRegexSpace(s[|s| - 1])
    ensures forall k :: 0 <= k < |Pieces(s)| ==> Pieces(s)[k] != []
    decreases |s|
  {
    var i := NextSpace(s, 0);
    if i < |s| {
      var j := NextNonSpace(s, i);
      var rest := s[j..];
      assert j < |s|;
      assert rest[0] == s[j] && rest[|rest| - 1] == s[|s| - 1];
      PiecesNonEmpty(rest);
      assert Pieces(s) == [s[..i]] + Pieces(rest);
    }
  }

  lemma {:induction false} DropTrailingEmptyOfNonEmpty(ps: seq<string>)
    requires forall k :: 0 <= k < |ps| ==> ps[k] != []
    ensures DropTrailingEmpty(ps) == ps
  {
  }

  /**
   * splitText yields at least one token; every token is made of the letters
   * а to я only; the tokens together are the filtered text without its `\s`
   * characters; and the only token that can be empty is the single "" left
   * when no letter survives.
   */
  lemma SplitTextTokens(text: string)
    ensures |SplitText(text)| >= 1
    ensures forall k :: 0 <= k < |SplitText(text)| ==> Letters(SplitText(text)[k])
    ensures Concat(SplitText(text)) == RemoveSpaces(Filtered(text))
    ensures (exists k :: 0 <= k < |SplitText(text)| && SplitText(text)[k] == []) ==> SplitText(text) == [[]]
    ensures SplitText(text) == [[]] <==> RemoveSpaces(Filtered(text)) == []
  {
    var f := Filtered(text);
    LowerHasNoCapitals(text);
    KeepLettersAndSpacesOfLower(Lower(text));
    TrimStartFacts(f);
    TrimEndFacts(TrimStart(f));
    var t := Trim(f);
    if forall c :: c in t ==> !IsRegexSpace(c) {
      SplitWordTokens(t);
    } else {
      SplitPiecesTokens(t);
    }
  }

  /** A trimmed text without `\s` is its own single token. */
  lemma SplitWordTokens(t: string)
    requires LettersAndSpaces(t)
    requires forall c :: c in t ==> !IsRegexSpace(c)
    ensures SplitOnSpaces(t) == [t] && Letters(t)
    ensures Concat(SplitOnSpaces(t)) == RemoveSpaces(t)
  {
    RemoveSpacesOfWord(t);
    assert Concat([t]) == t;
    assert forall i :: 0 <= i < |t| ==> !IsRegexSpace(t[i]) by {
      forall i | 0 <= i < |t| ensures !IsRegexSpace(t[i]) {
        assert t[i] in t;
      }
    }
  }

  /** A trimmed text holding `\s` splits into its pieces: non-empty words whose concatenation is the text without `\s`. */
  lemma SplitPiecesTokens(t: string)
    requires LettersAndSpaces(t)
    requires |t| > 0 ==> IsLowerRussianLetter(t[0]) && IsLowerRussianLetter(t[|t| - 1])
    requires exists c :: c in t && IsRegexSpace(c)
    ensures SplitOnSpaces(t) == Pieces(t) && |Pieces(t)| >= 1
    ensures forall k :: 0 <= k < |Pieces(t)| ==> Letters(Pieces(t)[k]) && Pieces(t)[k] != []
    ensures Concat(Pieces(t)) == RemoveSpaces(t) && RemoveSpaces(t) != []
  {
    assert |t| > 0;
    PiecesHaveNoSpaces(t);
    PiecesConcat(t);
    PiecesAreLetters(t);
    PiecesNonEmpty(t);
    DropTrailingEmptyOfNonEmpty(Pieces(t));
    var ps := Pieces(t);
    assert Concat(ps) == ps[0] + Concat(ps[1..]);
  }

  /** A text without any letter of `А-я`, a blank one in particular, gives no lemma at all. */
  lemma NoLettersNoLemmas(morph: Morphology, text: string)
    requires forall i :: 0 <= i < |text| ==> !IsRussianLetter(text[i])
    ensures SplitText(text) == [[]]
    ensures Tally(NormalWords(morph, SplitText(text))) == map[]
  {
    NoLettersFiltered(Lower(text));
    SplitTextTokens(text);
    RemoveSpacesOfSpaces(Filtered(text));
    assert NormalWords(morph, [[]]) == [];
    assert multiset(NormalWords(morph, [[]])) == multiset{};
  }

  lemma {:induction false} NoLettersFiltered(s: string)
    requires forall i :: 0 <= i < |s| ==> !IsRussianLetter(s[i])
    ensures forall i :: 0 <= i < |KeepLettersAndSpaces(s)| ==> IsRegexSpace(KeepLettersAndSpaces(s)[i])
    decreases |s|
  {
    if |s| > 0 {
      NoLettersFiltered(s[1..]);
    }
  }
}
