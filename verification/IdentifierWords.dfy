/**
 Splitting an identifier into lower-case words, one character at a time.
 */
module IdentifierWords {
  import opened Text

  predicate IsUpper(c: char) { 'A' <= c <= 'Z' }

  predicate IsLower(c: char) { 'a' <= c <= 'z' }

  predicate IsAlpha(c: char) { IsUpper(c) || IsLower(c) }

  predicate IsAlNum(c: char) { IsAlpha(c) || IsDigit(c) }

  function ToLower(c: char): char {
    if IsUpper(c) then c - 'A' + 'a' else c
  }

  lemma UpperCaseAt(k: nat)
    requires k < 26
    ensures "ABCDEFGHIJKLMNOPQRSTUVWXYZ"[k] == 'A' + k as char
  {
  }

  lemma LowerCaseAt(k: nat)
    requires k < 26
    ensures "abcdefghijklmnopqrstuvwxyz"[k] == 'a' + k as char
  {
  }

  /** The letters, and the lower-case forms of the upper-case ones. */
  lemma UpperCaseLetters(k: nat, c: char)
    requires k < 26
    ensures var upper, lower := "ABCDEFGHIJKLMNOPQRSTUVWXYZ", "abcdefghijklmnopqrstuvwxyz";
      && IsUpper(upper[k]) && IsAlpha(upper[k]) && ToLower(upper[k]) == lower[k]
      && (c !in upper ==> !IsUpper(c) && ToLower(c) == c)
      && (c !in upper && c !in lower ==> !IsAlpha(c))
  {
    UpperCaseAt(k);
    LowerCaseAt(k);
    if IsUpper(c) {
      UpperCaseAt((c - 'A') as int);
    } else if IsLower(c) {
      LowerCaseAt((c - 'a') as int);
    }
  }

  lemma LowerCaseLetters(k: nat, c: char)
    requires k < 26
    ensures var letter := "abcdefghijklmnopqrstuvwxyz"[k]; IsLower(letter) && IsAlpha(letter)
    ensures c !in "abcdefghijklmnopqrstuvwxyz" ==> !IsLower(c)
  {
    LowerCaseAt(k);
    if IsLower(c) {
      LowerCaseAt((c - 'a') as int);
    }
  }

  function Lowered(s: string): (r: string)
    ensures |r| == |s| && forall k | 0 <= k < |s| :: r[k] == ToLower(s[k])
  {
    seq(|s|, k requires 0 <= k < |s| => ToLower(s[k]))
  }

  // ----- words -----

  function LetterRun(s: string): (n: nat)
    ensures n <= |s| && (forall k | 0 <= k < n :: IsLower(s[k])) && (n < |s| ==> !IsLower(s[n]))
  {
    if s != "" && IsLower(s[0]) then 1 + LetterRun(s[1..]) else 0
  }

  function DigitRun(s: string): (n: nat)
    ensures n <= |s| && (forall k | 0 <= k < n :: IsDigit(s[k])) && (n < |s| ==> !IsDigit(s[n]))
  {
    if s != "" && IsDigit(s[0]) then 1 + DigitRun(s[1..]) else 0
  }

  /** The length of the longest word at the start: a letter and its lower-case letters, or digits. */
  function WordLength(s: string): (n: nat)
    ensures n <= |s|
    ensures n > 0 <==> s != "" && IsAlNum(s[0])
  {
    if s == "" then 0
    else if IsAlpha(s[0]) then 1 + LetterRun(s[1..])
    else DigitRun(s)
  }

  /** The words of a text from left to right, each as long as possible. */
  function Words(s: string): seq<string> {
    var n := WordLength(s);
    if s == "" then [] else if n == 0 then Words(s[1..]) else [s[..n]] + Words(s[n..])
  }

  predicate IsWord(w: string) {
    && w != ""
    && ((IsAlpha(w[0]) && forall k | 0 < k < |w| :: IsLower(w[k])) || forall k | 0 <= k < |w| :: IsDigit(w[k]))
  }

  /** The lower-cased words with a space before each one but the first. */
  function Joined(words: seq<string>, started: bool): string {
    if words == [] then ""
    else (if started then " " else "") + Lowered(words[0]) + Joined(words[1..], true)
  }

  // ----- the loop -----

  predicate StartsNewWord(prev: char, c: char) {
    IsUpper(c) || (!IsAlpha(prev) && IsLower(c)) || (!IsDigit(prev) && IsDigit(c))
  }

  /** What one character adds to the result. */
  function Piece(prev: char, started: bool, c: char): string {
    if !IsAlNum(c) then "" else (if StartsNewWord(prev, c) && started then " " else "") + [ToLower(c)]
  }

  function Spelled(prev: char, started: bool, s: string): string
    decreases |s|
  {
    if s == "" then ""
    else Piece(prev, started, s[0]) + Spelled(s[0], started || IsAlNum(s[0]), s[1..])
  }

  lemma SpelledUnfolds(prev: char, started: bool, s: string)
    requires s != ""
    ensures Spelled(prev, started, s) == Piece(prev, started, s[0]) + Spelled(s[0], started || IsAlNum(s[0]), s[1..])
  {
  }

  method ConvertIdentifierNameToWords(name: string) returns (result: string)
    ensures result == Joined(Words(name), false)
  {
    hide Words, Joined, Spelled, IsAlpha, IsDigit, IsLower, IsUpper;
    assert name[0..] == name && "" + Spelled('\0', false, name) == Spelled('\0', false, name);
    result := "";
    var prev := '\0';
    for i := 0 to |name|
      invariant result + Spelled(prev, result != "", name[i..]) == Spelled('\0', false, name)
    {
      var c := name[i];
      assert name[i..][1..] == name[i + 1..];
      SpelledUnfolds(prev, result != "", name[i..]);
      ghost var before, rest := result, Spelled(c, result != "" || IsAlNum(c), name[i + 1..]);
      var startsNewWord := IsUpper(c) || (!IsAlpha(prev) && IsLower(c)) || (!IsDigit(prev) && IsDigit(c));
      ghost var piece := Piece(prev, result != "", c);
      if IsAlNum(c) {
        if startsNewWord && result != "" {
          result := result + " ";
        }
        result := result + [ToLower(c)];
      }
      assert result == before + piece;
      Regroup("", before, piece, rest);
      prev := c;
    }
    SpelledEnds(prev, result != "", name);
    SpelledIsJoined('\0', false, name);
  }

  lemma SpelledEnds(prev: char, started: bool, name: string)
    ensures Spelled(prev, started, "") == ""
    ensures AtBoundary('\0', name)
  {
  }

  /** No letter or digit at the start of s continues a word that ends in prev. */
  predicate AtBoundary(prev: char, s: string) {
    s != "" && IsAlNum(s[0]) ==> StartsNewWord(prev, s[0])
  }

  /** Characters that continue a word are copied without a space. */
  lemma {:induction false} SpelledRun(prev: char, s: string, n: nat)
    requires n <= |s|
    requires
      || (IsAlpha(prev) && forall k | 0 <= k < n :: IsLower(s[k]))
      || (IsDigit(prev) && forall k | 0 <= k < n :: IsDigit(s[k]))
    ensures Spelled(prev, true, s) == Lowered(s[..n]) + Spelled(LastOf(prev, s, n), true, s[n..])
    decreases n
  {
    hide Spelled, Lowered, WordLength;
    if n > 0 {
      SpelledRun(s[0], s[1..], n - 1);
      SpelledWord(prev, true, s, n);
    } else {
      assert s[0..] == s && s[..0] == "" && Lowered("") == "" && "" + Spelled(prev, true, s) == Spelled(prev, true, s);
    }
  }

  /** The character before position n when prev stands before the start. */
  function LastOf(prev: char, s: string, n: nat): char
    requires n <= |s|
  {
    if n == 0 then prev else s[n - 1]
  }

  /** One character, followed by a run that has been spelled. */
  lemma SpelledWord(prev: char, started: bool, s: string, n: nat)
    requires 0 < n <= |s| && IsAlNum(s[0])
    requires Spelled(s[0], true, s[1..]) ==
      Lowered(s[1..][..n - 1]) + Spelled(LastOf(s[0], s[1..], n - 1), true, s[1..][n - 1..])
    ensures Spelled(prev, started, s) ==
      (if StartsNewWord(prev, s[0]) && started then " " else "") + Lowered(s[..n]) + Spelled(s[n - 1], true, s[n..])
  {
    hide *;
    var space := if StartsNewWord(prev, s[0]) && started then " " else "";
    var first, run, rest := [ToLower(s[0])], Lowered(s[1..n]), Spelled(s[n - 1], true, s[n..]);
    LoweredSplits(s, n);
    assert s[1..][..n - 1] == s[1..n] && s[1..][n - 1..] == s[n..];
    assert LastOf(s[0], s[1..], n - 1) == s[n - 1] by { LastOfTail(s, n); }
    SpelledUnfolds(prev, started, s);
    PieceOf(prev, started, s[0]);
    Regroup(space, first, run, rest);
  }

  lemma LastOfTail(s: string, n: nat)
    requires 0 < n <= |s|
    ensures LastOf(s[0], s[1..], n - 1) == s[n - 1]
  {
  }

  lemma PieceOf(prev: char, started: bool, c: char)
    requires IsAlNum(c)
    ensures Piece(prev, started, c) == (if StartsNewWord(prev, c) && started then " " else "") + [ToLower(c)]
  {
  }

  lemma Regroup(a: string, b: string, c: string, d: string)
    ensures (a + b) + (c + d) == a + (b + c) + d
  {
  }

  lemma LoweredSplits(s: string, n: nat)
    requires 0 < n <= |s|
    ensures Lowered(s[..n]) == [ToLower(s[0])] + Lowered(s[1..n])
  {
  }

  lemma FirstWord(s: string)
    requires s != "" && IsAlNum(s[0])
    ensures var n := WordLength(s);
      && n > 0 && Words(s) == [s[..n]] + Words(s[n..]) && IsWord(s[..n]) && forall k | 0 <= k < n :: IsAlNum(s[k])
  {
  }

  lemma SpelledNothing(prev: char, started: bool)
    ensures Spelled(prev, started, "") == Joined(Words(""), started)
  {
  }

  lemma SpelledSkips(prev: char, started: bool, s: string)
    requires s != "" && !IsAlNum(s[0])
    ensures Spelled(prev, started, s) == Spelled(s[0], started, s[1..]) && AtBoundary(s[0], s[1..])
    ensures Words(s) == Words(s[1..])
  {
  }

  lemma JoinedCons(word: string, words: seq<string>, started: bool)
    ensures Joined([word] + words, started) == (if started then " " else "") + Lowered(word) + Joined(words, true)
  {
    hide Lowered;
    assert ([word] + words)[1..] == words;
  }

  /** From a word boundary on, the loop spells the words of the rest. */
  lemma {:induction false} SpelledIsJoined(prev: char, started: bool, s: string)
    requires AtBoundary(prev, s)
    ensures Spelled(prev, started, s) == Joined(Words(s), started)
    decreases |s|
  {
    hide Lowered, Spelled, Joined, Words, WordLength, IsAlNum, IsAlpha, IsDigit, IsLower, IsUpper, StartsNewWord,
      IsWord, LastOf;
    if s == "" {
      SpelledNothing(prev, started);
    } else if IsAlNum(s[0]) {
      var n := WordLength(s);
      FirstWord(s);
      WordEnds(s);
      SpelledRun(s[0], s[1..], n - 1);
      SpelledWord(prev, started, s, n);
      SpelledIsJoined(s[n - 1], true, s[n..]);
      JoinedCons(s[..n], Words(s[n..]), started);
    } else {
      SpelledSkips(prev, started, s);
      SpelledIsJoined(s[0], started, s[1..]);
    }
  }

  lemma WordEnds(s: string)
    requires s != "" && IsAlNum(s[0])
    ensures var n := WordLength(s);
      && AtBoundary(s[n - 1], s[n..])
      && (|| (IsAlpha(s[0]) && forall k | 0 <= k < n - 1 :: IsLower(s[1..][k]))
          || (IsDigit(s[0]) && forall k | 0 <= k < n - 1 :: IsDigit(s[1..][k])))
  {
  }

  /** Which words a text has: its first letter or digit starts the longest word there, and the others are the
      words of what follows it. */
  lemma WordsAreLongest(s: string)
    ensures s == "" ==> Words(s) == []
    ensures s != "" && !IsAlNum(s[0]) ==> Words(s) == Words(s[1..])
    ensures s != "" && IsAlNum(s[0]) ==>
      && Words(s) != [] && Words(s)[0] <= s && IsWord(Words(s)[0]) && Words(s)[1..] == Words(s[|Words(s)[0]|..])
      && forall m | |Words(s)[0]| < m <= |s| :: !IsWord(s[..m])
  {
    if s != "" && IsAlNum(s[0]) {
      var n := WordLength(s);
      FirstWord(s);
      assert Words(s)[0] == s[..n];
      forall m | n < m <= |s| ensures !IsWord(s[..m]) {
        assert s[..m][n] == s[n] && s[..m][0] == s[0];
      }
    }
  }

  lemma NoFirstWord(s: string)
    requires s == "" || !IsAlNum(s[0])
    ensures s == "" ==> Words(s) == [] && OnlyAlNum(s) == ""
    ensures s != "" ==> Words(s) == Words(s[1..]) && OnlyAlNum(s) == OnlyAlNum(s[1..])
  {
  }

  lemma NothingConcatenated()
    ensures Concatenated([]) == ""
  {
  }

  lemma ConcatenatedFirst(word: string, words: seq<string>)
    ensures Concatenated([word] + words) == word + Concatenated(words)
  {
    assert ([word] + words)[1..] == words;
  }

  /** Every word has the form of a word, and together they are the letters and digits of the text. */
  lemma {:induction false} WordsPartitionText(s: string)
    ensures forall k | 0 <= k < |Words(s)| :: IsWord(Words(s)[k])
    ensures Concatenated(Words(s)) == OnlyAlNum(s)
    decreases |s|
  {
    hide *;
    if s == "" {
      NoFirstWord(s);
      NothingConcatenated();
    } else if IsAlNum(s[0]) {
      var n := WordLength(s);
      FirstWord(s);
      WordsPartitionText(s[n..]);
      ConcatenatedFirst(s[..n], Words(s[n..]));
      OnlyAlNumRun(s, n);
    } else {
      NoFirstWord(s);
      WordsPartitionText(s[1..]);
    }
  }

  function Concatenated(words: seq<string>): string {
    if words == [] then "" else words[0] + Concatenated(words[1..])
  }

  function OnlyAlNum(s: string): string {
    if s == "" then "" else (if IsAlNum(s[0]) then [s[0]] else "") + OnlyAlNum(s[1..])
  }

  lemma OnlyAlNumFirst(s: string)
    requires s != "" && IsAlNum(s[0])
    ensures OnlyAlNum(s) == [s[0]] + OnlyAlNum(s[1..])
  {
  }

  lemma {:induction false} OnlyAlNumRun(s: string, n: nat)
    requires n <= |s| && forall k | 0 <= k < n :: IsAlNum(s[k])
    ensures OnlyAlNum(s) == s[..n] + OnlyAlNum(s[n..])
  {
    hide *;
    if n > 0 {
      OnlyAlNumFirst(s);
      OnlyAlNumRun(s[1..], n - 1);
      assert s[1..][..n - 1] == s[1..n] && s[1..][n - 1..] == s[n..];
      assert s[..n] == [s[0]] + s[1..n];
    } else {
      assert s[0..] == s;
    }
  }

  // ----- converting twice -----

  lemma FirstWordRead(w: string, rest: string)
    requires IsWord(w) && (rest == "" || rest[0] == ' ')
    ensures Words(Lowered(w) + rest) == [Lowered(w)] + Words(rest)
  {
    var s := Lowered(w) + rest;
    assert forall k | 0 <= k < |w| :: s[k] == ToLower(w[k]);
    assert |w| < |s| ==> s[|w|] == ' ';
    assert WordLength(s) == |w|;
    assert s[..|w|] == Lowered(w) && s[|w|..] == rest;
  }

  ghost function AllLowered(words: seq<string>): (r: seq<string>)
    ensures |r| == |words| && forall k | 0 <= k < |words| :: r[k] == Lowered(words[k])
  {
    seq(|words|, k requires 0 <= k < |words| => Lowered(words[k]))
  }

  lemma NoWords()
    ensures Words("") == []
  {
  }

  lemma SpaceBefore(s: string)
    ensures Words(" " + s) == Words(s)
  {
  }

  lemma JoinedFirst(words: seq<string>, started: bool)
    requires words != []
    ensures var spelled := Lowered(words[0]) + Joined(words[1..], true);
      Joined(words, started) == if started then " " + spelled else spelled
  {
    hide Lowered;
    var word, rest := Lowered(words[0]), Joined(words[1..], true);
    assert (" " + word) + rest == " " + (word + rest) && ("" + word) + rest == word + rest;
  }

  lemma AllLoweredFirst(words: seq<string>)
    requires words != []
    ensures AllLowered(words) == [Lowered(words[0])] + AllLowered(words[1..])
  {
    hide Lowered;
  }

  lemma {:induction false} WordsOfJoined(words: seq<string>, started: bool)
    requires forall k | 0 <= k < |words| :: IsWord(words[k])
    ensures Words(Joined(words, started)) == AllLowered(words)
    ensures started && words != [] ==> Joined(words, started)[0] == ' '
  {
    hide Words, IsWord, Lowered, AllLowered;
    if words == [] {
      NoWords();
    } else {
      hide Joined;
      var rest := Joined(words[1..], true);
      WordsOfJoined(words[1..], true);
      assert words[1..] == [] ==> rest == "" by { NothingJoined(); }
      FirstWordRead(words[0], rest);
      SpaceBefore(Lowered(words[0]) + rest);
      JoinedFirst(words, started);
      AllLoweredFirst(words);
    }
  }

  lemma NothingJoined()
    ensures Joined([], true) == ""
  {
  }

  lemma {:induction false} JoinedLowered(words: seq<string>, started: bool)
    ensures Joined(AllLowered(words), started) == Joined(words, started)
  {
    if words != [] {
      JoinedLowered(words[1..], true);
      assert AllLowered(words)[1..] == AllLowered(words[1..]);
      assert Lowered(Lowered(words[0])) == Lowered(words[0]);
    }
  }

  /** Converting the result again changes nothing. */
  lemma ConvertIsIdempotent(s: string)
    ensures Joined(Words(Joined(Words(s), false)), false) == Joined(Words(s), false)
  {
    WordsPartitionText(s);
    WordsOfJoined(Words(s), false);
    JoinedLowered(Words(s), false);
  }
}
