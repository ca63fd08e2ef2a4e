/**
 * The JavaScript string built-ins that the text report is made of, modelled
 * over `seq<char>`:
 *   - `s.split(sep)` for a one-character separator,
 *   - `pieces.filter(x => x)` on strings (a string is truthy iff non-empty),
 *   - `s.replace(/c/g, '')`,
 *   - `s.match(/[...]/gi)` for a class of ASCII letters, which yields the
 *     matched one-character strings in order, or `null` when nothing matches.
 *
 * The string functions recurse on the prefix `s[..|s| - 1]`, so that a
 * position keeps its index from one step to the next.
 */
module JsStrings {

  /** JavaScript's `null` or a value. */
  datatype Option<T> = None | Some(value: T)

  function Last(s: string): char
    requires |s| > 0
  {
    s[|s| - 1]
  }

  function Init(s: string): (p: string)
    requires |s| > 0
    ensures s == p + [Last(s)]
  {
    s[..|s| - 1]
  }

  // ---------------------------------------------------------------------
  // split

  /** `s.split(sep)`: the maximal pieces between occurrences of `sep`.
      The empty string splits into one empty piece. */
  function Split(s: string, sep: char): (pieces: seq<string>)
    ensures 0 < |pieces| <= |s| + 1
    ensures pieces[|pieces| - 1] == [] <==> s == [] || Last(s) == sep
    decreases |s|
  {
    if s == [] then [[]]
    else
      var init := Split(Init(s), sep);
      if Last(s) == sep then init + [[]]
      else init[..|init| - 1] + [init[|init| - 1] + [Last(s)]]
  }

  /** A split has one more piece than the string has separators. */
  lemma {:induction false} SplitLength(s: string, sep: char)
    ensures |Split(s, sep)| == multiset(s)[sep] + 1
  {
    if s != [] {
      SplitLength(Init(s), sep);
      assert multiset(s) == multiset(Init(s)) + multiset{Last(s)};
    }
  }

  /** No piece of a split contains the separator. */
  lemma {:induction false} SplitPiecesLackSeparator(s: string, sep: char)
    ensures forall i :: 0 <= i < |Split(s, sep)| ==> sep !in Split(s, sep)[i]
  {
    if s != [] {
      SplitPiecesLackSeparator(Init(s), sep);
    }
  }

  /** `pieces.join(sep)`, the inverse of `Split`. */
  function Join(pieces: seq<string>, sep: char): string
  {
    if pieces == [] then []
    else if |pieces| == 1 then pieces[0]
    else Join(pieces[..|pieces| - 1], sep) + [sep] + pieces[|pieces| - 1]
  }

  /** Joining one more piece appends a separator and that piece. */
  lemma JoinSnoc(front: seq<string>, piece: string, sep: char)
    requires |front| > 0
    ensures Join(front + [piece], sep) == Join(front, sep) + [sep] + piece
  {
    assert (front + [piece])[..|front|] == front;
  }

  /** Joining the pieces of a split restores the string. */
  lemma {:induction false} JoinSplit(s: string, sep: char)
    ensures Join(Split(s, sep), sep) == s
  {
    if s != [] {
      var p, c := Init(s), Last(s);
      var init := Split(p, sep);
      JoinSplit(p, sep);
      if c == sep {
        assert Split(s, sep) == init + [[]];
        JoinSnoc(init, [], sep);
      } else if |init| == 1 {
        assert Split(s, sep) == [init[0] + [c]];
      } else {
        var front, tail := init[..|init| - 1], init[|init| - 1];
        assert init == front + [tail];
        assert Split(s, sep) == front + [tail + [c]];
        JoinSnoc(front, tail, sep);
        JoinSnoc(front, tail + [c], sep);
      }
    }
  }

  /** A string without the separator splits into itself alone. */
  lemma {:induction false} SplitWithoutSeparator(s: string, sep: char)
    requires sep !in s
    ensures Split(s, sep) == [s]
  {
    if s != [] {
      SplitWithoutSeparator(Init(s), sep);
    }
  }

  /** Appending a separator and a separator-free tail adds one piece. */
  lemma {:induction false} SplitAppend(t: string, sep: char, tail: string)
    requires sep !in tail
    ensures Split(t + [sep] + tail, sep) == Split(t, sep) + [tail]
  {
    var u := t + [sep] + tail;
    if tail == [] {
      assert Init(u) == t && Last(u) == sep;
      assert Split(u, sep) == Split(t, sep) + [[]];
    } else {
      var shorter, c := Init(tail), Last(tail);
      SplitAppend(t, sep, shorter);
      var init := Split(t, sep) + [shorter];
      assert Init(u) == t + [sep] + shorter && Last(u) == c && c != sep;
      assert Split(u, sep) == init[..|init| - 1] + [init[|init| - 1] + [c]];
      assert init[..|init| - 1] == Split(t, sep);
    }
  }

  /** Splitting separator-free pieces joined by the separator gives them back. */
  lemma {:induction false} SplitJoin(pieces: seq<string>, sep: char)
    requires |pieces| > 0
    requires forall i :: 0 <= i < |pieces| ==> sep !in pieces[i]
    ensures Split(Join(pieces, sep), sep) == pieces
  {
    if |pieces| == 1 {
      SplitWithoutSeparator(pieces[0], sep);
    } else {
      var front, last := pieces[..|pieces| - 1], pieces[|pieces| - 1];
      assert pieces == front + [last];
      SplitJoin(front, sep);
      JoinSnoc(front, last, sep);
      SplitAppend(Join(front, sep), sep, last);
    }
  }

  // ---------------------------------------------------------------------
  // filter(x => x)

  /** `pieces.filter(x => x)`: keeps the non-empty strings, in order. */
  function NonEmpty(pieces: seq<string>): (kept: seq<string>)
    ensures |kept| <= |pieces|
    ensures multiset(kept) == multiset(pieces)[[] := 0]
  {
    if pieces == [] then []
    else
      assert pieces == [pieces[0]] + pieces[1..];
      (if pieces[0] != [] then [pieces[0]] else []) + NonEmpty(pieces[1..])
  }

  /** Filtering keeps the order: the filter of a concatenation is the
      concatenation of the filters. */
  lemma {:induction false} NonEmptyAppend(front: seq<string>, back: seq<string>)
    ensures NonEmpty(front + back) == NonEmpty(front) + NonEmpty(back)
  {
    if front != [] {
      assert (front + back)[1..] == front[1..] + back;
      NonEmptyAppend(front[1..], back);
    } else {
      assert front + back == back;
    }
  }

  /** Filtering distributes over appending one more piece. */
  lemma {:induction false} NonEmptySnoc(pieces: seq<string>, p: string)
    ensures |NonEmpty(pieces + [p])| == |NonEmpty(pieces)| + (if p != [] then 1 else 0)
  {
    if pieces == [] {
      assert ([] + [p])[1..] == [];
    } else {
      assert (pieces + [p])[1..] == pieces[1..] + [p];
      NonEmptySnoc(pieces[1..], p);
    }
  }

  // ---------------------------------------------------------------------
  // replace(/c/g, '')

  /** `s.replace(/c/g, '')`: every `c` deleted, everything else kept. */
  function RemoveAll(s: string, c: char): (r: string)
    ensures c !in r
    ensures |r| <= |s|
  {
    if s == [] then []
    else RemoveAll(Init(s), c) + (if Last(s) == c then [] else [Last(s)])
  }

  /** Removing `c` shortens the string by the number of occurrences of `c`. */
  lemma {:induction false} RemoveAllLength(s: string, c: char)
    ensures |RemoveAll(s, c)| == |s| - multiset(s)[c]
  {
    if s != [] {
      RemoveAllLength(Init(s), c);
      assert multiset(s) == multiset(Init(s)) + multiset{Last(s)};
    }
  }

  /** Removing `c` keeps every other character with its multiplicity. */
  lemma {:induction false} RemoveAllKeepsOthers(s: string, c: char)
    ensures multiset(RemoveAll(s, c)) == multiset(s)[c := 0]
  {
    if s != [] {
      var p, x := Init(s), Last(s);
      RemoveAllKeepsOthers(p, c);
      assert multiset(s) == multiset(p) + multiset{x};
      if x != c {
        assert RemoveAll(s, c) == RemoveAll(p, c) + [x];
      }
    }
  }

  lemma RemoveAllSnoc(s: string, x: char, c: char)
    ensures RemoveAll(s + [x], c) == RemoveAll(s, c) + (if x == c then [] else [x])
  {
    assert Init(s + [x]) == s;
  }

  /** Removal keeps the order: removing from a concatenation removes from
      each part. */
  lemma {:induction false} RemoveAllAppend(front: string, back: string, c: char)
    ensures RemoveAll(front + back, c) == RemoveAll(front, c) + RemoveAll(back, c)
  {
    if back == [] {
      assert front + back == front;
    } else {
      var p, x := Init(back), Last(back);
      var a, b, kept := RemoveAll(front, c), RemoveAll(p, c), if x == c then [] else [x];
      calc {
        RemoveAll(front + back, c);
        { assert front + back == (front + p) + [x]; }
        RemoveAll((front + p) + [x], c);
        { RemoveAllSnoc(front + p, x, c); }
        RemoveAll(front + p, c) + kept;
        { RemoveAllAppend(front, p, c); }
        (a + b) + kept;
        a + (b + kept);
        { RemoveAllSnoc(p, x, c); }
        a + RemoveAll(back, c);
      }
    }
  }

  // ---------------------------------------------------------------------
  // match(/[cls]/gi)

  /** Case folding of a `/i` regular expression without the `u` flag, as far
      as it decides a match against ASCII letters: an ASCII lower-case letter
      becomes upper-case; characters outside ASCII never fold onto ASCII, so
      they are left as they are. */
  function FoldCase(c: char): (f: char)
    ensures !('a' <= f <= 'z')
  {
    if 'a' <= c <= 'z' then (c as int - 32) as char else c
  }

  /** `c` matches the character class `[cls]` under the `i` flag, for a
      class of ASCII letters (the only kind `FoldCase` decides exactly). */
  predicate MatchesIgnoringCase(c: char, cls: string) {
    exists k :: k in cls && FoldCase(k) == FoldCase(c)
  }

  /** The positions of `s` holding a character that matches `[cls]`. */
  ghost function MatchPositions(s: string, cls: string): set<int> {
    set i | 0 <= i < |s| && MatchesIgnoringCase(s[i], cls)
  }

  lemma MatchPositionsSnoc(s: string, cls: string)
    requires |s| > 0
    ensures MatchPositions(s, cls) == MatchPositions(Init(s), cls)
      + (if MatchesIgnoringCase(Last(s), cls) then {|s| - 1} else {})
  {
    var p := Init(s);
    forall i | 0 <= i < |p| ensures s[i] == p[i] { }
  }

  /** The successive matches of `/[cls]/g`, each a one-character string:
      one match for every matching position, and nothing else. */
  function Matches(s: string, cls: string): (m: seq<string>)
    ensures |m| == |MatchPositions(s, cls)|
    ensures forall i :: 0 <= i < |m| ==> |m[i]| == 1 && MatchesIgnoringCase(m[i][0], cls)
  {
    if s == [] then
      assert MatchPositions(s, cls) == {};
      []
    else
      MatchPositionsSnoc(s, cls);
      Matches(Init(s), cls) + (if MatchesIgnoringCase(Last(s), cls) then [[Last(s)]] else [])
  }

  lemma MatchesSnoc(s: string, x: char, cls: string)
    ensures Matches(s + [x], cls) == Matches(s, cls) + (if MatchesIgnoringCase(x, cls) then [[x]] else [])
  {
    assert Init(s + [x]) == s;
  }

  /** A single character yields itself as its one match when it matches,
      and nothing otherwise; with `MatchesAppend` this fixes every match. */
  lemma MatchesOne(x: char, cls: string)
    ensures Matches([x], cls) == (if MatchesIgnoringCase(x, cls) then [[x]] else [])
  {
    MatchesSnoc([], x, cls);
    assert [] + [x] == [x];
  }

  /** Matching keeps the order: the matches in a concatenation are those of
      the first part followed by those of the second. */
  lemma {:induction false} MatchesAppend(front: string, back: string, cls: string)
    ensures Matches(front + back, cls) == Matches(front, cls) + Matches(back, cls)
  {
    if back == [] {
      assert front + back == front;
    } else {
      var p, x := Init(back), Last(back);
      var a, b := Matches(front, cls), Matches(p, cls);
      var found := if MatchesIgnoringCase(x, cls) then [[x]] else [];
      calc {
        Matches(front + back, cls);
        { assert front + back == (front + p) + [x]; }
        Matches((front + p) + [x], cls);
        { MatchesSnoc(front + p, x, cls); }
        Matches(front + p, cls) + found;
        { MatchesAppend(front, p, cls); }
        (a + b) + found;
        a + (b + found);
        { MatchesSnoc(p, x, cls); }
        a + Matches(back, cls);
      }
    }
  }

  /** `s.match(/[cls]/gi)`: the matches, or `null` when there are none. */
  function MatchGlobal(s: string, cls: string): (m: Option<seq<string>>)
    ensures m.None? <==> NoneMatch(s, cls)
    ensures m.Some? ==> |m.value| > 0 && m.value == Matches(s, cls)
  {
    var all := Matches(s, cls);
    NoMatches(s, cls);
    if all == [] then None else Some(all)
  }

  /** No character of `s` matches `[cls]`. */
  predicate NoneMatch(s: string, cls: string) {
    forall i :: 0 <= i < |s| ==> !MatchesIgnoringCase(s[i], cls)
  }

  /** There are no matches exactly when no character matches. */
  lemma {:induction false} NoMatches(s: string, cls: string)
    ensures Matches(s, cls) == [] <==> NoneMatch(s, cls)
  {
    if s != [] {
      var p := Init(s);
      NoMatches(p, cls);
      assert Matches(s, cls) == [] <==> Matches(p, cls) == [] && !MatchesIgnoringCase(Last(s), cls);
      assert NoneMatch(s, cls) <==> NoneMatch(p, cls) && !MatchesIgnoringCase(Last(s), cls) by {
        if NoneMatch(p, cls) && !MatchesIgnoringCase(Last(s), cls) {
          forall i | 0 <= i < |s| ensures !MatchesIgnoringCase(s[i], cls) {
            if i < |p| { assert s[i] == p[i]; }
          }
        }
        if NoneMatch(s, cls) {
          forall i | 0 <= i < |p| ensures !MatchesIgnoringCase(p[i], cls) {
            assert s[i] == p[i];
          }
        }
      }
    }
  }
}
