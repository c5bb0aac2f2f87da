/** Chapter titles from transcript sentences (api/chapter_detection.py): truncation at a word, and its clean-up. */
module ChapterTitles {
  import opened Decimals

  const DISPLAY_TITLE_LENGTH := 60
  const MIN_TITLE_LENGTH := 3
  const ELLIPSIS := "..."

  /** `s.rfind(" ")`: the place of the last space, or -1. */
  function LastSpace(s: string): (k: int)
    ensures -1 <= k < |s|
    ensures k >= 0 ==> s[k] == ' '
    ensures forall i :: k < i < |s| ==> s[i] != ' '
  {
    if s == [] then -1
    else if s[|s| - 1] == ' ' then |s| - 1
    else LastSpace(s[..|s| - 1])
  }

  /** Where an over-long text is cut: at its last space, if that lies past the middle. */
  function CutAt(text: string, maxLength: nat): (k: nat)
    requires |text| > maxLength
    ensures k <= maxLength
    ensures k < maxLength ==> text[k] == ' ' && k > maxLength / 2
  {
    var space := LastSpace(text[..maxLength]);
    if space > maxLength / 2 then space else maxLength
  }

  function TruncateAtWordBoundary(text: string, maxLength: nat): string {
    if |text| <= maxLength then text else text[..CutAt(text, maxLength)] + ELLIPSIS
  }

  predicate IsPunctuation(c: char) {
    c in ".!?,;:"
  }

  predicate IsSpace(c: char) {
    c == ' ' || 9 <= c as int <= 13 || 28 <= c as int <= 31
  }

  function StripRun(s: string, drop: char -> bool): (r: string)
    ensures r <= s
    ensures r != [] ==> !drop(r[|r| - 1])
    ensures forall i :: |r| <= i < |s| ==> drop(s[i])
  {
    if s != [] && drop(s[|s| - 1]) then StripRun(s[..|s| - 1], drop) else s
  }

  /** Substituting `[.!?,;:]+$` by nothing; `$` also matches before a final newline. */
  function StripPunctuation(s: string): string {
    if s != [] && s[|s| - 1] == '\n' then StripRun(s[..|s| - 1], IsPunctuation) + "\n" else StripRun(s, IsPunctuation)
  }

  function StripFront(s: string): (r: string)
    ensures |r| <= |s| && r == s[|s| - |r|..]
    ensures r != [] ==> !IsSpace(r[0])
  {
    if s != [] && IsSpace(s[0]) then StripFront(s[1..]) else s
  }

  /** `s.strip()`. */
  function Strip(s: string): string {
    StripFront(StripRun(s, IsSpace))
  }

  // ---------- Words left out at the start ----------

  const FILLERS: seq<string> := ["so", "well", "now", "okay", "alright", "um", "uh", "like"]

  const CONJUNCTIONS: seq<string> := ["and", "but", "or"]

  function Lower(c: char): char {
    if 'A' <= c <= 'Z' then c + 32 as char else c
  }

  /** The text starts with the word, in upper or lower case, and white space. */
  predicate Leads(word: string, s: string) {
    && |word| < |s|
    && (forall i :: 0 <= i < |word| ==> Lower(s[i]) == word[i])
    && IsSpace(s[|word|])
  }

  /** Substituting `^(word|...)\s+` by nothing. */
  function Unled(s: string, words: seq<string>): (r: string)
    ensures |r| <= |s| && r == s[|s| - |r|..]
    decreases words
  {
    if words == [] then s
    else if Leads(words[0], s) then StripFront(s[|words[0]|..])
    else Unled(s, words[1..])
  }

  function UnledTwice(s: string, words: seq<string>, more: seq<string>): (r: string)
    ensures |r| <= |s| && r == s[|s| - |r|..]
  {
    Unled(Unled(s, words), more)
  }

  /** The sentence without a leading filler word and then without a leading conjunction. */
  function Cleaned(sentence: string): string {
    UnledTwice(sentence, FILLERS, CONJUNCTIONS)
  }

  /** The cut and stripped text, or nothing if that is too short. */
  function Heading(text: string): string {
    var title := Strip(StripPunctuation(TruncateAtWordBoundary(text, DISPLAY_TITLE_LENGTH)));
    if |title| < MIN_TITLE_LENGTH then "" else title
  }

  /** The title of a sentence. */
  function Title(sentence: string, number: nat): string {
    var heading := Heading(Cleaned(sentence));
    if heading == "" then "Section " + Str(number) else heading
  }

  /**
    An over-long text keeps a prefix of more than half the length, cut at the last word boundary there is past the
    middle.
    */
  lemma CutsAtTheLastWord(text: string, maxLength: nat, i: nat)
    requires |text| > maxLength
    ensures var k := CutAt(text, maxLength);
            && TruncateAtWordBoundary(text, maxLength) == text[..k] + ELLIPSIS
            && |TruncateAtWordBoundary(text, maxLength)| <= maxLength + 3
            && (k < i < maxLength ==> text[i] != ' ')
            && (k == maxLength && maxLength / 2 < i < maxLength ==> text[i] != ' ')
  {
    var s := text[..maxLength];
    assert i < maxLength ==> s[i] == text[i];
  }

  lemma {:induction false} StripRunOfEllipsis(s: string, dots: string)
    requires forall i :: 0 <= i < |dots| ==> dots[i] == '.'
    ensures StripRun(s + dots, IsPunctuation) == StripRun(s, IsPunctuation)
    decreases |dots|
  {
    if dots == [] {
      assert s + dots == s;
    } else {
      var t := s + dots;
      assert t[..|t| - 1] == s + dots[..|dots| - 1];
      StripRunOfEllipsis(s, dots[..|dots| - 1]);
    }
  }

  /**
    The punctuation clean-up always takes the ellipsis away again: the title of an over-long sentence does not
    show that it was cut.
    */
  lemma EllipsisIsStripped(text: string, maxLength: nat)
    requires |text| > maxLength
    ensures StripPunctuation(TruncateAtWordBoundary(text, maxLength))
         == StripRun(text[..CutAt(text, maxLength)], IsPunctuation)
  {
    var p := text[..CutAt(text, maxLength)];
    var t := p + ELLIPSIS;
    assert t[|t| - 1] == '.';
    StripRunOfEllipsis(p, ELLIPSIS);
  }

  /** What is left of a text before trailing white space and punctuation is a short prefix of it. */
  lemma StrippedTextIsAPrefix(sentence: string)
    ensures var t := StripRun(StripPunctuation(TruncateAtWordBoundary(sentence, DISPLAY_TITLE_LENGTH)), IsSpace);
            t <= sentence && |t| <= DISPLAY_TITLE_LENGTH
  {
    if |sentence| > DISPLAY_TITLE_LENGTH {
      EllipsisIsStripped(sentence, DISPLAY_TITLE_LENGTH);
      hide StripPunctuation, TruncateAtWordBoundary, CutAt, StripRun;
      assert sentence[..CutAt(sentence, DISPLAY_TITLE_LENGTH)] <= sentence;
    } else {
      StrippedIsAPrefix(sentence);
    }
  }

  lemma StrippedIsAPrefix(s: string)
    ensures StripRun(StripPunctuation(s), IsSpace) <= s
  {
    if s != [] && s[|s| - 1] == '\n' {
      var p := StripRun(s[..|s| - 1], IsPunctuation);
      assert StripPunctuation(s) == p + "\n";
      assert (p + "\n")[..|p|] == p;
      hide StripPunctuation, IsPunctuation;
      assert IsSpace('\n');
      assert StripRun(p + "\n", IsSpace) == StripRun(p, IsSpace);
    }
  }

  /** A capital letter has its small one, in the same place from "a" as it is from "A", every other character itself. */
  lemma LowerMeans(c: char)
    ensures 65 <= c as int <= 90 ==> 'a' <= Lower(c) <= 'z' && Lower(c) as int - 'a' as int == c as int - 'A' as int
    ensures !(65 <= c as int <= 90) ==> Lower(c) == c
  {}

  /** White space: the blank, tab, line feed, vertical tab, form feed, carriage return, and the four separators. */
  lemma SpaceMeans(c: char)
    ensures IsSpace(c) <==> c as int in {32, 9, 10, 11, 12, 13, 28, 29, 30, 31}
  {}

  lemma LedByLetters(s: string, word: string)
    requires Leads(word, s) && forall i :: 0 <= i < |word| ==> 'a' <= word[i] <= 'z'
    ensures IsSpace(s[|word|]) && forall i :: 0 <= i < |word| ==> !IsSpace(s[i])
  {
    forall i | 0 <= i < |word|
      ensures !IsSpace(s[i])
    {
      assert Lower(s[i]) == word[i];
    }
  }

  lemma CleanedIsASuffix(sentence: string)
    ensures |Cleaned(sentence)| <= |sentence| && Cleaned(sentence) == sentence[|sentence| - |Cleaned(sentence)|..]
  {
    hide Unled;
  }

  /** At most one word leads a text, so the order of the alternatives does not matter. */
  lemma OneWordLeads(s: string, word: string, other: string)
    requires Leads(word, s) && Leads(other, s)
    requires forall i :: 0 <= i < |word| ==> 'a' <= word[i] <= 'z'
    requires forall i :: 0 <= i < |other| ==> 'a' <= other[i] <= 'z'
    ensures word == other
  {
    LedByLetters(s, word);
    LedByLetters(s, other);
    assert |word| == |other|;
    forall i | 0 <= i < |word|
      ensures word[i] == other[i]
    {
      assert Lower(s[i]) == word[i];
    }
  }

  /** Whichever of the words leads the text is removed with the white space behind it; otherwise nothing is. */
  lemma {:induction false} UnledExactly(s: string, words: seq<string>, word: string)
    requires forall w, i :: w in words && 0 <= i < |w| ==> 'a' <= w[i] <= 'z'
    ensures word in words && Leads(word, s) ==> Unled(s, words) == StripFront(s[|word|..])
    ensures (forall w :: w in words ==> !Leads(w, s)) ==> Unled(s, words) == s
    decreases words
  {
    if words != [] {
      assert words[0] in words;
      if Leads(words[0], s) {
        if word in words && Leads(word, s) {
          OneWordLeads(s, words[0], word);
        }
      } else {
        UnledExactly(s, words[1..], word);
      }
    }
  }

  /** The numbered fallback is taken exactly when fewer than three characters are left. */
  lemma FallbackExactly(sentence: string, number: nat)
    ensures var left := Strip(StripPunctuation(TruncateAtWordBoundary(Cleaned(sentence), 60)));
            Title(sentence, number) == if |left| < 3 then "Section " + Str(number) else left
  {
    hide Strip, StripPunctuation, TruncateAtWordBoundary, Cleaned, Str;
  }

  lemma StripIsAPiece(x: string, text: string)
    requires StripRun(x, IsSpace) <= text
    ensures var t := Strip(x);
            && |t| <= |StripRun(x, IsSpace)|
            && (t != [] ==> !IsSpace(t[0]) && !IsSpace(t[|t| - 1]))
            && exists i, j :: 0 <= i <= j <= |text| && t == text[i..j]
  {
    var p, t := StripRun(x, IsSpace), Strip(x);
    assert t == StripFront(p);
    hide *;
    assert t != [] ==> t[|t| - 1] == p[|p| - 1];
    PieceOfPrefix(text, p, t);
  }

  lemma HeadingBounds(text: string)
    requires Heading(text) != ""
    ensures var t := Heading(text);
            && MIN_TITLE_LENGTH <= |t| <= DISPLAY_TITLE_LENGTH && !IsSpace(t[0]) && !IsSpace(t[|t| - 1])
            && exists i, j :: 0 <= i <= j <= |text| && t == text[i..j]
  {
    hide StripPunctuation, TruncateAtWordBoundary, Strip, StripRun, IsSpace;
    var x := StripPunctuation(TruncateAtWordBoundary(text, DISPLAY_TITLE_LENGTH));
    assert Heading(text) == Strip(x) && |Strip(x)| >= MIN_TITLE_LENGTH;
    hide *;
    StrippedTextIsAPrefix(text);
    StripIsAPiece(x, text);
  }

  lemma PieceOfPrefix(s: string, p: string, t: string)
    requires p <= s && |t| <= |p| && t == p[|p| - |t|..]
    ensures 0 <= |p| - |t| <= |p| <= |s| && t == s[|p| - |t|..|p|]
  {
  }

  /**
    A title is a stripped piece of the sentence of 3 to 60 characters, behind the filler words removed, or the
    numbered fallback.
    */
  lemma TitleBounds(sentence: string, number: nat)
    ensures var t := Title(sentence, number);
            || t == "Section " + Str(number)
            || (3 <= |t| <= 60 && !IsSpace(t[0]) && !IsSpace(t[|t| - 1])
                && exists i, j :: |sentence| - |Cleaned(sentence)| <= i <= j <= |sentence| && t == sentence[i..j])
  {
    var cleaned := Cleaned(sentence);
    CleanedIsASuffix(sentence);
    hide Cleaned, Heading, Str, IsSpace;
    if Heading(cleaned) != "" {
      HeadingBounds(cleaned);
      var t := Heading(cleaned);
      var i, j :| 0 <= i <= j <= |cleaned| && t == cleaned[i..j];
      var skip := |sentence| - |cleaned|;
      assert t == sentence[skip + i..skip + j];
    }
  }
}
