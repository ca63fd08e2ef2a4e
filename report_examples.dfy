/**
 * The worked examples of the text report: the utterances "test" and
 * "hello world", where their words, spaces and vowels are, the reports
 * they produce, and the digits the count lines show.
 */
module ReportExamples {
  import opened Decimal
  import opened TextReport

  /** Where the word, the spaces and the vowels of "test" are. */
  lemma TestPositions(text: string)
    requires text == "test"
    ensures WordStarts(text) == {0} && multiset(text)[' '] == 0 && VowelPositions(text) == {1}
  {
  }

  /** "hello world" has words starting at positions 0 and 6. */
  lemma HelloWorldWords(text: string)
    requires text == "hello world"
    ensures WordStarts(text) == {0, 6} && |WordStarts(text)| == 2
  {
  }

  /** "hello world" has one space, so ten other characters. */
  lemma HelloWorldSpaces(text: string)
    requires text == "hello world"
    ensures multiset(text)[' '] == 1 && NonSpaces(text) == 10
  {
  }

  /** "hello world" has vowels at positions 1, 4 and 7. */
  lemma HelloWorldVowels(text: string)
    requires text == "hello world"
    ensures VowelPositions(text) == {1, 4, 7} && |VowelPositions(text)| == 3
  {
  }

  /** The four counts of "hello world", by their characterisations. */
  lemma HelloWorldCounts(text: string)
    requires text == "hello world"
    ensures |WordStarts(text)| == 2 && NonSpaces(text) == 10
    ensures multiset(text)[' '] == 1 && |VowelPositions(text)| == 3
  {
    HelloWorldWords(text);
    HelloWorldSpaces(text);
    HelloWorldVowels(text);
  }

  /** The report for the utterance "test": 1 word, 4 characters, 0 spaces, 1 vowel. */
  lemma ReportOfTest(text: string)
    requires text == "test"
    ensures WordCount(text) == 1 && CharacterCount(text) == 4 && SpaceCount(text) == 0 && VowelCount(text) == 1
    ensures ProcessText(Str(text)) == "You said: " + text + "." + CountLines(1, 4, 0, 1)
  {
    TestPositions(text);
    SpacesAndCharacters(text);
  }

  /** The report for "hello world": 2 words, 10 characters, 1 space, 3 vowels. */
  lemma ReportOfHelloWorld(text: string)
    requires text == "hello world"
    ensures ProcessText(Str(text)) == "You said: " + text + "." + CountLines(2, 10, 1, 3)
  {
    HelloWorldCounts(text);
    ReportOf(Str(text));
  }

  /** Each count line shows its count in decimal. */
  lemma CountLinesShowDigits()
    ensures CountLines(1, 4, 0, 1) == "\n\n" + ("Word Count: " + "1") + "\n\n" + ("Character Count: " + "4")
      + "\n\n" + ("Space Count: " + "0") + "\n\n" + ("Vowel Count: " + "1")
    ensures CountLines(2, 10, 1, 3) == "\n\n" + ("Word Count: " + "2") + "\n\n" + ("Character Count: " + "10")
      + "\n\n" + ("Space Count: " + "1") + "\n\n" + ("Vowel Count: " + "3")
  {
    assert NatToString(10) == "10";
  }

  /** The whole reply to the utterance "test", line by line. */
  lemma ReplyToTest(text: string)
    requires text == "test"
    ensures ProcessText(Str(text)) == "You said: test." + ("\n\n" + "Word Count: 1"
      + "\n\n" + "Character Count: 4" + "\n\n" + "Space Count: 0" + "\n\n" + "Vowel Count: 1")
  {
    var lines := "\n\n" + ("Word Count: " + "1") + "\n\n" + ("Character Count: " + "4")
      + "\n\n" + ("Space Count: " + "0") + "\n\n" + ("Vowel Count: " + "1");
    calc {
      ProcessText(Str(text));
      { ReportOfTest(text); }
      "You said: " + text + "." + CountLines(1, 4, 0, 1);
      { CountLinesShowDigits(); }
      "You said: " + text + "." + lines;
      { assert "You said: " + text + "." == "You said: test.";
        assert "Word Count: " + "1" == "Word Count: 1";
        assert "Character Count: " + "4" == "Character Count: 4";
        assert "Space Count: " + "0" == "Space Count: 0";
        assert "Vowel Count: " + "1" == "Vowel Count: 1"; }
      "You said: test." + ("\n\n" + "Word Count: 1" + "\n\n" + "Character Count: 4"
        + "\n\n" + "Space Count: 0" + "\n\n" + "Vowel Count: 1");
    }
  }

  /** Only U+0020 separates words and counts as a space: a tab does neither. */
  lemma TabIsNotASeparator(text: string)
    requires text == "a\tb"
    ensures |WordStarts(text)| == 1 && multiset(text)[' '] == 0 && NonSpaces(text) == 3
  {
    assert WordStarts(text) == {0};
  }
}
