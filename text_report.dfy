/**
 * `processText`: the reply the bot sends for a recognised utterance.
 *
 * The report is "You said: " + text + "." and, when the text is a non-empty
 * string, four count lines, each introduced by a blank line:
 * Word Count, Character Count, Space Count and Vowel Count. Each count is
 * computed here the way the source computes it (split, filter, replace,
 * match), and the lemmas below state what each count is in terms of the
 * characters of the text alone.
 */
module TextReport {
  import opened JsStrings
  import opened Decimal

  /** The value handed to `processText`: a string, or an absent result. */
  datatype JsText = Undefined | Null | Str(s: string)

  /** The text as string concatenation shows it: a string as itself, an
      absent value by a non-empty name, never as nothing. */
  function Show(t: JsText): (shown: string)
    ensures t.Str? ==> shown == t.s
    ensures !t.Str? ==> |shown| > 0
  {
    match t
    case Undefined => "undefined"
    case Null => "null"
    case Str(s) => s
  }

  /** The guard `text && text.length > 0`. */
  predicate HasText(t: JsText) {
    t.Str? && |t.s| > 0
  }

  // ---------------------------------------------------------------------
  // The four counts, as the source computes them

  /** `text.split(' ').filter(x => x).length`: the number of maximal runs
      of non-space characters. */
  function WordCount(text: string): (n: nat)
    ensures n == |WordStarts(text)|
  {
    NonEmptyPiecesAreWords(text);
    |NonEmpty(Split(text, ' '))|
  }

  /** `text.replace(/ /g, '').length`: the characters other than U+0020. */
  function CharacterCount(text: string): (n: nat)
    ensures n == |text| - multiset(text)[' ']
  {
    RemoveAllLength(text, ' ');
    |RemoveAll(text, ' ')|
  }

  /** `text.split(' ').length - 1`: the number of U+0020 characters. */
  function SpaceCount(text: string): (n: nat)
    ensures n == multiset(text)[' ']
  {
    SplitLength(text, ' ');
    |Split(text, ' ')| - 1
  }

  /** The class of the regular expression `/[aeiou]/gi`. */
  const VowelClass := "aeiou"

  /** `m === null ? 0 : m.length` for `m = text.match(/[aeiou]/gi)`: the
      number of characters among a, e, i, o, u in either case. */
  function VowelCount(text: string): (n: nat)
    ensures n == |VowelPositions(text)|
  {
    VowelMatchPositions(text);
    match MatchGlobal(text, VowelClass)
    case None => 0
    case Some(m) => |m|
  }

  /** The four count lines, in the order Word, Character, Space, Vowel. */
  function CountLines(words: nat, characters: nat, spaces: nat, vowels: nat): string {
    "\n\n" + ("Word Count: " + NatToString(words))
    + "\n\n" + ("Character Count: " + NatToString(characters))
    + "\n\n" + ("Space Count: " + NatToString(spaces))
    + "\n\n" + ("Vowel Count: " + NatToString(vowels))
  }

  /** The report for `text`. It always opens with the echo line. */
  function ProcessText(t: JsText): (report: string)
    ensures "You said: " + Show(t) + "." <= report
  {
    var result := "You said: " + Show(t) + ".";
    if HasText(t) then
      result + CountLines(WordCount(t.s), CharacterCount(t.s), SpaceCount(t.s), VowelCount(t.s))
    else
      result
  }

  // ---------------------------------------------------------------------
  // What each count is, stated over the characters of the text

  /** Position `i` begins a word: a non-space after a space or at the start. */
  predicate IsWordStart(s: string, i: int)
    requires 0 <= i < |s|
  {
    s[i] != ' ' && (i == 0 || s[i - 1] == ' ')
  }

  /** The positions at which the maximal runs of non-space characters begin. */
  ghost function WordStarts(s: string): set<int> {
    set i | 0 <= i < |s| && IsWordStart(s, i)
  }

  predicate IsVowel(c: char) {
    c in {'a', 'e', 'i', 'o', 'u', 'A', 'E', 'I', 'O', 'U'}
  }

  ghost function VowelPositions(s: string): set<int> {
    set i | 0 <= i < |s| && IsVowel(s[i])
  }

  /** The number of characters of `s` other than U+0020. */
  ghost function NonSpaces(s: string): nat {
    |multiset(s)[' ' := 0]|
  }

  lemma WordStartsSnoc(s: string)
    requires |s| > 0
    ensures WordStarts(s) == WordStarts(Init(s)) + (if IsWordStart(s, |s| - 1) then {|s| - 1} else {})
  {
    var p := Init(s);
    forall i | 0 <= i < |p| ensures IsWordStart(s, i) == IsWordStart(p, i) {
      assert s[i] == p[i];
      if i > 0 { assert s[i - 1] == p[i - 1]; }
    }
  }

  /** The non-empty pieces of a split on U+0020 are the maximal runs of
      non-space characters, one per word start. */
  lemma {:induction false} NonEmptyPiecesAreWords(text: string)
    ensures |NonEmpty(Split(text, ' '))| == |WordStarts(text)|
  {
    if text == [] {
      assert WordStarts(text) == {};
    } else {
      NonEmptyPiecesAreWords(Init(text));
      NonEmptyPiecesSnoc(text);
      WordStartsSnoc(text);
    }
  }

  /** One more character adds a non-empty piece exactly when it starts a word. */
  lemma NonEmptyPiecesSnoc(text: string)
    requires |text| > 0
    ensures |NonEmpty(Split(text, ' '))|
      == |NonEmpty(Split(Init(text), ' '))| + (if IsWordStart(text, |text| - 1) then 1 else 0)
  {
    var p, c := Init(text), Last(text);
    var before := Split(p, ' ');
    var front, tail := before[..|before| - 1], before[|before| - 1];
    assert before == front + [tail];
    NonEmptySnoc(front, tail);
    if c == ' ' {
      assert Split(text, ' ') == before + [[]];
      NonEmptySnoc(before, []);
    } else {
      assert Split(text, ' ') == front + [tail + [c]];
      assert IsWordStart(text, |text| - 1) <==> tail == [];
      NonEmptySnoc(front, tail + [c]);
    }
  }

  /** Character Count counts every character other than U+0020 with its
      multiplicity; with Space Count it makes up the length. */
  lemma SpacesAndCharacters(text: string)
    ensures CharacterCount(text) == NonSpaces(text)
    ensures CharacterCount(text) + SpaceCount(text) == |text|
  {
    RemoveAllKeepsOthers(text, ' ');
  }

  /** Consecutive, leading and trailing spaces add no words, so there are at
      most one more words than spaces. */
  lemma WordsAtMostSpacesPlusOne(text: string)
    ensures WordCount(text) <= SpaceCount(text) + 1
    ensures WordCount(text) <= multiset(text)[' '] + 1
  {
    SplitLength(text, ' ');
  }

  /** The class `[aeiou]` under the `i` flag matches exactly the ten vowels. */
  lemma VowelClassIgnoringCase(c: char)
    ensures MatchesIgnoringCase(c, VowelClass) <==> IsVowel(c)
  {
    if IsVowel(c) {
      var k := if 'a' <= c <= 'z' then c else (c as int + 32) as char;
      assert k in VowelClass && FoldCase(k) == FoldCase(c);
    }
  }

  /** The positions `[aeiou]` matches under the `i` flag are the vowel positions. */
  lemma VowelMatchPositions(s: string)
    ensures MatchPositions(s, VowelClass) == VowelPositions(s)
  {
    forall i | 0 <= i < |s| {
      VowelClassIgnoringCase(s[i]);
    }
  }

  /** Vowel Count is 0 exactly when the text holds none of the ten vowels. */
  lemma VowelCountZero(text: string)
    ensures VowelCount(text) == 0 <==> forall i :: 0 <= i < |text| ==> !IsVowel(text[i])
  {
    if VowelCount(text) != 0 {
      var i :| i in VowelPositions(text);
    } else {
      forall i | 0 <= i < |text| ensures !IsVowel(text[i]) {
        assert i !in VowelPositions(text);
      }
    }
  }

  lemma {:induction false} MatchesAtMostNonSpaces(s: string)
    ensures |Matches(s, VowelClass)| <= |RemoveAll(s, ' ')|
  {
    if s != [] {
      MatchesAtMostNonSpaces(Init(s));
      VowelClassIgnoringCase(Last(s));
    }
  }

  /** A vowel is never a space, so Vowel Count never exceeds Character Count. */
  lemma VowelsAtMostCharacters(text: string)
    ensures VowelCount(text) <= CharacterCount(text)
  {
    MatchesAtMostNonSpaces(text);
  }

  /** A rendered count holds no line break. */
  lemma DigitsLackNewline(count: nat)
    ensures '\n' !in NatToString(count)
  {
  }

  /** Appending a blank line and a line without breaks adds an empty line
      and that line. */
  lemma SplitBlankLine(before: string, line: string)
    requires '\n' !in line
    ensures Split(before + "\n\n" + line, '\n') == Split(before, '\n') + ["", line]
  {
    var u := before + ['\n'];
    assert before + "\n\n" + line == u + ['\n'] + line;
    SplitAppend(u, '\n', line);
    assert u == before + ['\n'] + [];
    SplitAppend(before, '\n', []);
    var pieces := Split(before, '\n');
    assert pieces + [[]] + [line] == pieces + ["", line];
  }

  /** Four lines, each after a blank line, read line by line. */
  lemma SplitFourLines(a: string, b: string, c: string, d: string)
    requires '\n' !in a && '\n' !in b && '\n' !in c && '\n' !in d
    ensures Split("\n\n" + a + "\n\n" + b + "\n\n" + c + "\n\n" + d, '\n')
      == ["", "", a, "", b, "", c, "", d]
  {
    var u := "\n\n" + a;
    var v := u + "\n\n" + b;
    var w := v + "\n\n" + c;
    calc {
      Split(w + "\n\n" + d, '\n');
      { SplitBlankLine(w, d); }
      Split(w, '\n') + ["", d];
      { SplitBlankLine(v, c); }
      Split(v, '\n') + ["", c] + ["", d];
      { SplitBlankLine(u, b); }
      Split(u, '\n') + ["", b] + ["", c] + ["", d];
      { assert [] + "\n\n" + a == u; SplitBlankLine([], a); }
      Split([], '\n') + ["", a] + ["", b] + ["", c] + ["", d];
      { FourLines(a, b, c, d); }
      ["", "", a, "", b, "", c, "", d];
    }
  }

  lemma FourLines(a: string, b: string, c: string, d: string)
    ensures [[]] + ["", a] + ["", b] + ["", c] + ["", d] == ["", "", a, "", b, "", c, "", d]
  {
  }

  /** Read line by line, the count lines are two empty lines and then each
      `caption count` line after an empty line of its own. */
  lemma CountLinesByLine(words: nat, characters: nat, spaces: nat, vowels: nat)
    ensures Split(CountLines(words, characters, spaces, vowels), '\n') == ["", "",
      "Word Count: " + NatToString(words), "",
      "Character Count: " + NatToString(characters), "",
      "Space Count: " + NatToString(spaces), "",
      "Vowel Count: " + NatToString(vowels)]
  {
    DigitsLackNewline(words);
    DigitsLackNewline(characters);
    DigitsLackNewline(spaces);
    DigitsLackNewline(vowels);
    SplitFourLines("Word Count: " + NatToString(words), "Character Count: " + NatToString(characters),
      "Space Count: " + NatToString(spaces), "Vowel Count: " + NatToString(vowels));
  }

  /** A captioned count line determines its count. */
  lemma CaptionedCountInjective(caption: string, m: nat, n: nat)
    requires caption + NatToString(m) == caption + NatToString(n)
    ensures m == n
  {
    assert NatToString(m) == (caption + NatToString(m))[|caption|..];
    assert NatToString(n) == (caption + NatToString(n))[|caption|..];
    NatToStringInjective(m, n);
  }

  /** The count lines determine the counts: different counts never give the
      same lines. */
  lemma CountLinesInjective(w: nat, c: nat, s: nat, v: nat, w': nat, c': nat, s': nat, v': nat)
    requires CountLines(w, c, s, v) == CountLines(w', c', s', v')
    ensures w == w' && c == c' && s == s' && v == v'
  {
    CountLinesByLine(w, c, s, v);
    CountLinesByLine(w', c', s', v');
    CaptionedCountInjective("Word Count: ", w, w');
    CaptionedCountInjective("Character Count: ", c, c');
    CaptionedCountInjective("Space Count: ", s, s');
    CaptionedCountInjective("Vowel Count: ", v, v');
  }

  // ---------------------------------------------------------------------
  // The report

  /** The whole report, with every count given by its characterisation:
      just the echo line when there is no text, otherwise the echo line and
      the four count lines in the order Word, Character, Space, Vowel. */
  lemma ReportOf(t: JsText)
    ensures !HasText(t) ==> ProcessText(t) == "You said: " + Show(t) + "."
    ensures HasText(t) ==>
      ProcessText(t) == "You said: " + t.s + "."
        + CountLines(|WordStarts(t.s)|, NonSpaces(t.s), multiset(t.s)[' '], |VowelPositions(t.s)|)
  {
    if HasText(t) {
      SpacesAndCharacters(t.s);
    }
  }

  /** The empty string and an absent text get no count lines. */
  lemma ReportWithoutText()
    ensures ProcessText(Str("")) == "You said: ."
    ensures ProcessText(Undefined) == "You said: undefined."
    ensures ProcessText(Null) == "You said: null."
  {
  }
}
