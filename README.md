# Speech-to-text bot: text report and message checks

A model, in Dafny, of the logic in `app.js` of a Bot Framework bot. The bot
transcribes an audio attachment and replies with a short text analysis. The
model covers the three pure parts of that bot:

- `processText`: the reply text. It is `"You said: " + text + "."`. When the
  text is a non-empty string, four count lines follow, each after a blank
  line, in this order: Word Count, Character Count, Space Count, Vowel Count.
- `hasAudioAttachment`: whether a message carries audio to transcribe.
- `checkRequiresToken`: whether fetching that audio needs the bot's bearer
  token.

Layout:

- `js_strings.dfy` (module `JsStrings`): the JavaScript built-ins the report
  is built from. This is `split` on one character, `filter(x => x)` on
  strings, `replace(/c/g, '')`, and `match(/[...]/gi)` returning the matches
  or `null`. `Join` is the inverse of `Split`, with a round trip proved in
  both directions. Filtering, removal and matching are each shown to keep
  the order of what they keep.
- `decimal.dfy` (module `Decimal`): how `+` renders a count, in canonical
  decimal. It comes with its reading-back function `Value`, and the two are
  proved inverse.
- `text_report.dfy` (module `TextReport`): the four counts as the source
  computes them, the count lines, and `ProcessText`. The count
  functions' contracts, with a few lemmas, give each count by a reference
  definition stated only over the characters of the text:
  - `WordStarts`: the positions where a run of non-space characters begins.
  - `multiset(text)[' ']`: the number of spaces.
  - `NonSpaces`: the number of other characters.
  - `VowelPositions`: the positions holding one of `aeiouAEIOU`.

  `ReportOf` then states the whole report in terms of those definitions.
  The count lines are also read back line by line, which shows that they
  determine the four counts.
- `report_examples.dfy` (module `ReportExamples`): the reports for `"test"`
  and `"hello world"`, and the fact that a tab neither separates words nor
  counts as a space.
- `messages.dfy` (module `Messages`): the message and attachment records and
  the two predicates.

Two behaviours of the code are easy to miss:

- An absent text is not shown as an empty string. `"You said: " + text + "."`
  with `text` undefined or null gives `"You said: undefined."` or
  `"You said: null."`. The model's input type `JsText` therefore has
  `Undefined`, `Null` and `Str` cases (`TextReport.ReportWithoutText`).
- Words are not split on whitespace in general. The code splits on U+0020
  only, so tabs and newlines neither separate words nor count as spaces
  (`ReportExamples.TabIsNotASeparator`).

## Model

| member | source | states |
|---|---|---|
| `JsStrings.Split` | app.js:117 | `split(' ')` always yields at least one piece and at most one more than the length. The last piece is empty exactly when the string is empty or ends with the separator. |
| `JsStrings.SplitLength` | app.js:123 | A split yields exactly one more piece than the string has separators. |
| `JsStrings.SplitPiecesLackSeparator` | app.js:117 | No piece of a split contains the separator. |
| `JsStrings.JoinSplit` | app.js:117 | Joining the pieces of a split with the separator restores the string. |
| `JsStrings.SplitJoin` | app.js:117 | Splitting separator-free pieces joined by the separator gives back exactly those pieces. |
| `JsStrings.NonEmpty` | app.js:117 | `filter(x => x)` keeps every non-empty piece as often as it occurs, drops every empty one, and never lengthens the list. |
| `JsStrings.NonEmptyAppend` | app.js:117 | Filtering keeps the order: the filter of a concatenation is the concatenation of the filters. |
| `JsStrings.RemoveAll` | app.js:120 | `replace(/ /g, '')` leaves no space and never lengthens the string. |
| `JsStrings.RemoveAllLength` | app.js:120 | The result is shorter than the input by exactly the number of spaces. |
| `JsStrings.RemoveAllKeepsOthers` | app.js:120 | Every other character is kept with its multiplicity. |
| `JsStrings.RemoveAllAppend` | app.js:120 | Removal keeps the order: removing from a concatenation removes from each part in turn. |
| `JsStrings.Matches` | app.js:126 | The global match yields as many matches as there are positions whose character matches the class under the `i` flag. Each match is a one-character string that matches the class. |
| `JsStrings.MatchesOne` | app.js:126 | A single character yields itself, in its own case, as its one match when it matches the class, and no match otherwise. With `MatchesAppend` this fixes every match to be the text's own character. |
| `JsStrings.MatchesAppend` | app.js:126 | Matches come in text order: the matches in a concatenation are those of the first part, then those of the second. |
| `JsStrings.MatchGlobal` | app.js:126-127 | `match` returns `null` exactly when no character matches. Otherwise it returns the non-empty list of matches. |
| `Decimal.NatToString` | app.js:118 | A count is rendered as a canonical numeral: non-empty, digits only, no leading zero. It has one digit exactly when the count is below 10. |
| `Decimal.ValueOfNatToString` | app.js:118 | Reading back a rendered count gives the count. |
| `Decimal.NatToStringOfValue` | app.js:118 | Every canonical numeral is the rendering of the number it denotes. |
| `Decimal.NatToStringInjective` | app.js:118-128 | Different counts render as different strings, so a count line determines its count. |
| `TextReport.Show` | app.js:114 | String concatenation shows a string as itself and an absent text by a non-empty name, so the echo line never drops an absent value. |
| `TextReport.ProcessText` | app.js:113-132 | The report always starts with `"You said: "`, then the text as concatenation shows it, then `"."`. |
| `TextReport.WordCount` | app.js:117 | Word Count is the number of positions where a non-space follows a space or the start, i.e. the number of maximal runs of non-space characters. |
| `TextReport.NonEmptyPiecesAreWords` | app.js:117 | The non-empty pieces of a split on U+0020 are exactly as many as the word starts. |
| `TextReport.CharacterCount` | app.js:120 | Character Count is the length minus the number of U+0020 characters. |
| `TextReport.SpaceCount` | app.js:123 | Space Count is the number of U+0020 characters. |
| `TextReport.SpacesAndCharacters` | app.js:120-123 | Character Count counts every character other than U+0020 with its multiplicity. Character Count and Space Count add up to the length. |
| `TextReport.WordsAtMostSpacesPlusOne` | app.js:117-123 | Word Count is at most Space Count plus one. |
| `TextReport.VowelClassIgnoringCase` | app.js:126 | Under the `i` flag, the class `[aeiou]` matches a character exactly when it is one of `aeiouAEIOU`. |
| `TextReport.VowelMatchPositions` | app.js:126 | The positions that `[aeiou]` matches under the `i` flag are exactly the positions holding one of `aeiouAEIOU`. |
| `TextReport.VowelCount` | app.js:126-127 | Vowel Count is the number of positions holding one of `aeiouAEIOU`. |
| `TextReport.VowelCountZero` | app.js:126-127 | Vowel Count is 0 exactly when no such character occurs. |
| `TextReport.VowelsAtMostCharacters` | app.js:120-127 | Vowel Count never exceeds Character Count. |
| `TextReport.CountLinesByLine` | app.js:118-128 | `CountLines` is the `result +=` chain. Split into lines, the count lines are two empty lines, `Word Count: ` and the count, an empty line, `Character Count: ` and the count, and so on for Space Count and Vowel Count. |
| `TextReport.CountLinesInjective` | app.js:118-128 | The count lines determine the counts: two different quadruples of counts never give the same lines. |
| `TextReport.ReportOf` | app.js:113-132 | The guard `text && text.length > 0` is `HasText`. With no text (undefined, null or empty), the report is exactly the echo line. Otherwise it is the echo line followed by the four count lines, in the order Word, Character, Space, Vowel. Each count is given by its reference definition. |
| `TextReport.ReportWithoutText` | app.js:114-116 | The reports for `""`, undefined and null are `"You said: ."`, `"You said: undefined."` and `"You said: null."`. |
| `ReportExamples.ReportOfTest` | app.js:113-132 | `"test"` has 1 word, 4 characters, 0 spaces and 1 vowel, and its report is the echo line followed by those four count lines. |
| `ReportExamples.ReplyToTest` | app.js:113-132 | The whole reply to `"test"` is `"You said: test."` followed by `"\n\n"` + `"Word Count: 1"`, `"\n\n"` + `"Character Count: 4"`, `"\n\n"` + `"Space Count: 0"` and `"\n\n"` + `"Vowel Count: 1"`. |
| `ReportExamples.HelloWorldCounts` | app.js:117-127 | `"hello world"` has 2 words, 10 characters, 1 space and 3 vowels. |
| `ReportExamples.ReportOfHelloWorld` | app.js:113-132 | The report for `"hello world"` is its echo line followed by the count lines for 2, 10, 1 and 3. |
| `ReportExamples.CountLinesShowDigits` | app.js:118-128 | The count lines of both examples read `Word Count: 1`, `Character Count: 4`, … and `Word Count: 2`, `Character Count: 10`, …. |
| `ReportExamples.TabIsNotASeparator` | app.js:117-123 | In `"a\tb"` the tab neither splits words nor counts as a space: 1 word, 0 spaces, 3 characters. |
| `Messages.HasAudioAttachment` | app.js:83-87 | True exactly when there is at least one attachment and the first one's content type is in the set of audio types, `audio/wav` and `application/octet-stream`. What this means for a message is stated by `NoAttachmentNoAudio`, `OnlyFirstAttachmentDecides`, `LaterAudioIgnored` and `AudioTypeIsExact`. |
| `Messages.CheckRequiresToken` | app.js:109-111 | True exactly when the source is in the set of token channels, `skype` and `msteams`. `TokenSourceIsExact` states which spellings do not qualify. |
| `Messages.NoAttachmentNoAudio` | app.js:84 | A message with no attachments has no audio. |
| `Messages.OnlyFirstAttachmentDecides` | app.js:84-86 | Whatever attachments follow the first one, and whatever the source, the answer depends only on the first attachment's content type. |
| `Messages.LaterAudioIgnored` | app.js:84-86 | An audio attachment after a non-audio first attachment is not detected. |
| `Messages.AudioTypeIsExact` | app.js:85-86 | The content-type comparison is exact: `audio/WAV`, `audio/x-wav` and parameterised forms are not audio. |
| `Messages.TokenSourceIsExact` | app.js:110 | The source comparison is exact and case-sensitive: `Skype`, `MSTeams`, `teams` and other channels need no token. |

## Left out

- `getAudioStreamFromMessage` (app.js:89-107): an HTTP GET through a library, with an asynchronous token request. The request made inside the token callback has its result discarded. The stream actually returned is always the GET at app.js:106 with the attachment's own content type. Whether its headers already hold the token depends on when the token callback runs, and app.js does not show when that is. None of this is computation the model can state.
- Speech-to-text and text-to-speech (app.js:58-65, 69-77): calls to remote services. `speech-service.js` is not part of this model.
- `sendInline` (app.js:153-170): a file read, base64 encoding by a runtime library, and a `data:` URI assembled by a formatting call. All of it is I/O or library code.
- Server and bot setup, and the greeting on `conversationUpdate` (app.js:20-44, 139-150): environment configuration and framework wiring.
- Turn orchestration (app.js:44-78): callback sequencing around the external calls. Its one decision is `HasAudioAttachment`.
- String lengths: JavaScript counts UTF-16 code units, while the model counts Unicode characters. The two differ only for characters outside the Basic Multilingual Plane, which count as two in Character Count.
- `JsStrings.FoldCase` folds only ASCII letters. Folding under the `i` flag without `u` never maps a non-ASCII character onto an ASCII one, so this decides membership in `[aeiou]` exactly as the source does. It is not a full model of case folding.
- Inputs to `processText` other than a string, `undefined` or `null` (numbers, objects). The text comes from the speech service, whose code is not part of this model. Such inputs behave differently: `processText(0)`, for one, gives `"You said: 0."` without count lines.
- Number rendering: `+` on a number of 10^21 or more uses exponent notation. Counts are string lengths and never get that large, so `Decimal.NatToString` renders plain digits only.
