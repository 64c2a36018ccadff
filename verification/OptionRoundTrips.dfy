/**
 Command lines and option files written in the documented forms are read back as what they say.
 */
module OptionRoundTrips {
  import opened Options
  import opened Text
  import opened OptionSpecs

  // ----- command lines -----

  /** What may follow the flags in a word of option characters. */
  datatype Tail = Nothing | Attached(k: nat, separators: string, value: string) | Next(k: nat, value: string)

  datatype Item =
    | Plain(text: string)
    | Unknown(text: string)
    | Flag(k: nat)
    | Joined(k: nat, value: string)
    | Separate(k: nat, value: string)
    | Letters(flags: seq<nat>, tail: Tail)

  ghost predicate HasName(c: Config, k: nat, allowed: set<Kind>)
    requires c.Valid()
  {
    k < |c.kinds| && c.kinds[k] in allowed && c.longs[k].Some?
  }

  /** The text is not split into a name and a value: it has no equal sign, or starts with one. */
  ghost predicate Unsplit(text: string) {
    (text != "" && text[0] == '=') || forall j | 0 <= j < |text| :: text[j] != '='
  }

  /** What stands before the first equal sign, when it is not the first character. */
  ghost predicate IsNamePart(text: string, name: string) {
    if Unsplit(text) then name == text
    else
      && name != "" && (forall j | 0 <= j < |name| :: name[j] != '=')
      && exists value: string :: text == name + "=" + value
  }

  /** No option for the command line is declared under the long name. */
  ghost predicate NotDeclared(c: Config, name: string)
    requires c.Valid()
  {
    forall k | 0 <= k < |c.kinds| && c.kinds[k] in {CommonOpt, CommandOpt, CommonFlag, CommandFlag} ::
      c.longs[k] != Some(name)
  }

  ghost predicate HasLetter(c: Config, k: nat, allowed: set<Kind>)
    requires c.Valid()
  {
    k < |c.kinds| && c.kinds[k] in allowed && c.chars[k].Some?
  }

  ghost predicate FlagLetters(c: Config, flags: seq<nat>)
    requires c.Valid()
  {
    forall j | 0 <= j < |flags| :: HasLetter(c, flags[j], COMMAND_FLAGS)
  }

  ghost predicate TailFits(c: Config, tail: Tail)
    requires c.Valid()
  {
    match tail
    case Nothing => true
    case Attached(k, separators, v) =>
      && HasLetter(c, k, COMMAND_OPTS) && separators + v != ""
      && (forall j | 0 <= j < |separators| :: separators[j] == ' ' || separators[j] == '=')
      && (v != "" ==> v[0] != ' ' && v[0] != '=')
    case Next(k, _) => HasLetter(c, k, COMMAND_OPTS) && c.chars[k] != Some('0')
  }

  ghost predicate Fits(c: Config, item: Item)
    requires c.Valid()
  {
    match item
    case Plain(text) => At(text, 0) != '-'
    case Unknown(text) => forall name: string | IsNamePart(text, name) :: NotDeclared(c, name)
    case Flag(k) => HasName(c, k, COMMAND_FLAGS) && Unsplit(c.longs[k].value)
    case Joined(k, _) =>
      && HasName(c, k, COMMAND_OPTS) && c.longs[k].value != ""
      && forall j | 0 <= j < |c.longs[k].value| :: c.longs[k].value[j] != '='
    case Separate(k, _) => HasName(c, k, COMMAND_OPTS) && Unsplit(c.longs[k].value)
    case Letters(flags, tail) =>
      && c.posix && FlagLetters(c, flags) && TailFits(c, tail)
      && LettersWord(c, flags, tail) != "" && LettersWord(c, flags, tail)[0] != '-'
  }

  /** The word of a cluster without its leading dash. */
  ghost function LettersWord(c: Config, flags: seq<nat>, tail: Tail): string
    requires c.Valid() && FlagLetters(c, flags) && TailFits(c, tail)
  {
    if flags != [] then
      [c.chars[flags[0]].value] + LettersWord(c, flags[1..], tail)
    else
      match tail
      case Nothing => ""
      case Attached(k, separators, v) => [c.chars[k].value] + (separators + v)
      case Next(k, _) => [c.chars[k].value]
  }

  ghost function Words(c: Config, item: Item): (r: seq<string>)
    requires c.Valid() && Fits(c, item)
    ensures |r| > 0
  {
    match item
    case Plain(text) => [text]
    case Unknown(text) => ["--" + text]
    case Flag(k) => ["--" + c.longs[k].value]
    case Joined(k, v) => ["--" + c.longs[k].value + "=" + v]
    case Separate(k, v) => ["--" + c.longs[k].value, v]
    case Letters(flags, tail) => ["-" + LettersWord(c, flags, tail)] + if tail.Next? then [tail.value] else []
  }

  ghost function FlagWrites(flags: seq<nat>): seq<Write> {
    if flags == [] then [] else [Write(flags[0], "true")] + FlagWrites(flags[1..])
  }

  ghost function Meaning(item: Item): seq<Write> {
    match item
    case Plain(_) => []
    case Unknown(_) => []
    case Flag(k) => [Write(k, "true")]
    case Joined(k, v) => [Write(k, v)]
    case Separate(k, v) => [Write(k, v)]
    case Letters(flags, tail) => FlagWrites(flags) + if tail.Nothing? then [] else [Write(tail.k, tail.value)]
  }

  ghost function CommandLine(c: Config, items: seq<Item>): seq<string>
    requires c.Valid() && forall item <- items :: Fits(c, item)
  {
    if items == [] then [] else Words(c, items[0]) + CommandLine(c, items[1..])
  }

  ghost function Meanings(items: seq<Item>): seq<Write> {
    if items == [] then [] else Meaning(items[0]) + Meanings(items[1..])
  }

  ghost function Texts(items: seq<Item>): seq<string> {
    if items == [] then []
    else (if items[0].Plain? then [items[0].text] else []) + Texts(items[1..])
  }

  ghost predicate DistinctNames(c: Config) {
    c.Valid() && Distinct(c.longs) && Distinct(c.chars)
  }

  lemma MatchFlag<T(!new)>(names: seq<Option<T>>, kinds: seq<Kind>, k: nat)
    requires |names| == |kinds| && Distinct(names) && k < |names| && names[k].Some? && kinds[k] in COMMAND_FLAGS
    ensures Match(names, kinds, names[k].value) == Outcome(false, [Write(k, TRUE_FLAG)])
  {
  }

  lemma MatchOption<T(!new)>(names: seq<Option<T>>, kinds: seq<Kind>, k: nat, value: string)
    requires |names| == |kinds| && Distinct(names) && k < |names| && names[k].Some? && kinds[k] in COMMAND_OPTS
    ensures Match(names, kinds, names[k].value) == Outcome(true, [])
    ensures WriteTo(names, kinds, names[k].value, value) == [Write(k, value)]
  {
  }

  /** A name that is not split is matched whole. */
  lemma WholeName(c: Config, name: string)
    requires c.Valid() && Unsplit(name)
    ensures var m := Match(c.longs, c.kinds, name);
      ParseGNU(c, name) == Outcome(if m.result then Some(name) else None, m.writes)
  {
  }

  lemma NameAndValue(c: Config, name: string, value: string)
    requires c.Valid() && name != "" && forall j | 0 <= j < |name| :: name[j] != '='
    requires Match(c.longs, c.kinds, name).result
    ensures ParseGNU(c, name + "=" + value) == Outcome(None, WriteTo(c.longs, c.kinds, name, value))
  {
    var arg := name + "=" + value;
    assert FirstAt(arg, '=') == |name| by {
      assert forall j | 0 <= j < |name| :: arg[j] == name[j];
      assert arg[|name|] == '=';
    }
    assert arg[..|name|] == name && arg[|name| + 1..] == value;
  }

  /** Blanks and equal signs before an attached value are no part of it. */
  lemma {:induction false} SeparatorsAreSkipped(separators: string, value: string)
    requires forall j | 0 <= j < |separators| :: separators[j] == ' ' || separators[j] == '='
    requires value != "" ==> value[0] != ' ' && value[0] != '='
    ensures SkipSeparators(separators + value) == value
  {
    if separators == "" {
      assert separators + value == value;
    } else {
      assert (separators + value)[1..] == separators[1..] + value;
      SeparatorsAreSkipped(separators[1..], value);
    }
  }

  /** A cluster of letters sets its flags and then deals with its tail. */
  lemma {:induction false} ClusterReads(c: Config, flags: seq<nat>, tail: Tail)
    requires DistinctNames(c)
    requires FlagLetters(c, flags) && TailFits(c, tail)
    ensures ParsePOSIX(c, LettersWord(c, flags, tail)) == Outcome(
      if tail.Next? then c.chars[tail.k] else None,
      FlagWrites(flags) + if tail.Attached? then [Write(tail.k, tail.value)] else [])
  {
    hide Match, WriteTo;
    var word := LettersWord(c, flags, tail);
    if flags != [] {
      MatchFlag(c.chars, c.kinds, flags[0]);
      ClusterReads(c, flags[1..], tail);
      assert word[1..] == LettersWord(c, flags[1..], tail);
    } else if tail.Attached? {
      MatchOption(c.chars, c.kinds, tail.k, tail.value);
      assert word[1..] == tail.separators + tail.value;
      SeparatorsAreSkipped(tail.separators, tail.value);
    } else if tail.Next? {
      MatchOption(c.chars, c.kinds, tail.k, tail.value);
    }
  }

  lemma NoMatch<T(!new)>(names: seq<Option<T>>, kinds: seq<Kind>, name: T)
    requires |names| == |kinds|
    requires forall k | 0 <= k < |kinds| && kinds[k] in COMMAND_OPTS + COMMAND_FLAGS :: names[k] != Some(name)
    ensures Match(names, kinds, name) == Outcome(false, [])
  {
  }

  /** An option that is not declared writes nothing and takes no value along. */
  lemma UnknownReads(c: Config, text: string)
    requires c.Valid() && forall name: string | IsNamePart(text, name) :: NotDeclared(c, name)
    ensures ParseGNU(c, text) == Outcome(None, [])
  {
    hide Match;
    var at := FirstAt(text, '=');
    if 0 < at < |text| {
      assert text == text[..at] + "=" + text[at + 1..];
      assert IsNamePart(text, text[..at]);
      NoMatch(c.longs, c.kinds, text[..at]);
    } else {
      assert IsNamePart(text, text);
      NoMatch(c.longs, c.kinds, text);
    }
  }

  /** Every item is read as what it means, and only a plain one is positional. */
  lemma ItemReads(c: Config, item: Item, argv: seq<string>, i: nat)
    requires DistinctNames(c) && Fits(c, item)
    requires i + |Words(c, item)| <= |argv| && argv[i..i + |Words(c, item)|] == Words(c, item)
    ensures StepAt(c, argv, i) == ArgStep(Meaning(item), i + |Words(c, item)|, item.Plain?)
  {
    hide Match, WriteTo, ParsePOSIX, ParseGNU, FlagWrites;
    var a := argv[i];
    assert a == argv[i..i + |Words(c, item)|][0];
    match item
    case Plain(_) =>
    case Unknown(text) =>
      assert a[2..] == text;
      UnknownReads(c, text);
    case Flag(k) =>
      assert a[2..] == c.longs[k].value;
      WholeName(c, a[2..]);
      MatchFlag(c.longs, c.kinds, k);
    case Joined(k, v) =>
      assert a[2..] == c.longs[k].value + "=" + v;
      MatchOption(c.longs, c.kinds, k, v);
      NameAndValue(c, c.longs[k].value, v);
    case Separate(k, v) =>
      assert a[2..] == c.longs[k].value;
      assert argv[i + 1] == argv[i..i + 2][1];
      WholeName(c, a[2..]);
      MatchOption(c.longs, c.kinds, k, v);
    case Letters(flags, tail) =>
      assert a[1..] == LettersWord(c, flags, tail);
      ClusterReads(c, flags, tail);
      if tail.Next? {
        assert argv[i + 1] == argv[i..i + 2][1];
        MatchOption(c.chars, c.kinds, tail.k, tail.value);
      }
  }

  /** The arguments at the given positions. */
  ghost function TextsAt(argv: seq<string>, positions: seq<nat>): seq<string> {
    if positions == [] then []
    else (if positions[0] < |argv| then [argv[positions[0]]] else []) + TextsAt(argv, positions[1..])
  }

  /** A command line written item by item is read back as exactly the writes the items mean, and its
      positional arguments are exactly the plain items. */
  lemma {:induction false} CommandLineReadsBack(c: Config, items: seq<Item>, argv: seq<string>, i: nat)
    requires DistinctNames(c) && forall item <- items :: Fits(c, item)
    requires i <= |argv| && argv[i..] == CommandLine(c, items)
    ensures CommandWrites(c, argv, i) == Meanings(items)
    ensures TextsAt(argv, Positional(c, argv, i)) == Texts(items)
  {
    hide Fits, Words, Meaning, StepAt, Distinct, CommandWrites, Positional, Config.Valid;
    ScanUnfolds(c, argv, i);
    if items == [] {
      assert |argv[i..]| == 0;
    } else {
      var item := items[0];
      var words := Words(c, item);
      var next := i + |words|;
      assert item in items && forall other <- items[1..] :: other in items;
      assert argv[i..] == words + CommandLine(c, items[1..]);
      assert |argv[i..]| == |argv| - i;
      assert argv[i..next] == argv[i..][..|words|] == words;
      assert argv[next..] == argv[i..][|words|..];
      ItemReads(c, item, argv, i);
      CommandLineReadsBack(c, items[1..], argv, next);
      PlainWord(c, item);
      TextsOneMore(argv, i, Positional(c, argv, next));
      assert argv[i] == argv[i..next][0];
      assert [] + Positional(c, argv, next) == Positional(c, argv, next);
      assert TextsAt(argv, Positional(c, argv, i)) ==
        (if item.Plain? then [item.text] else []) + TextsAt(argv, Positional(c, argv, next));
    }
  }

  lemma TextsOneMore(argv: seq<string>, p: nat, positions: seq<nat>)
    requires p < |argv|
    ensures TextsAt(argv, [p] + positions) == [argv[p]] + TextsAt(argv, positions)
  {
  }

  lemma PlainWord(c: Config, item: Item)
    requires c.Valid() && Fits(c, item)
    ensures item.Plain? ==> Words(c, item) == [item.text]
  {
  }

  // ----- option files -----

  /** The name an option is written under: its character or its long name. */
  ghost function NameOf(c: Config, k: nat, letter: bool): Option<string>
    requires c.Valid()
  {
    if k >= |c.kinds| then None
    else if !letter then c.longs[k]
    else if c.chars[k].Some? then Some([c.chars[k].value]) else None
  }

  datatype Line =
    | Blank
    | Comment(text: string)
    | FlagLine(k: nat, letter: bool, indent: nat, after: nat)
    | PairLine(k: nat, letter: bool, indent: nat, before: nat, after: nat, value: string, last: nat)

  function Blanks(n: nat): (r: string)
    ensures |r| == n && forall j | 0 <= j < n :: r[j] == ' '
  {
    if n == 0 then "" else Blanks(n - 1) + " "
  }

  ghost predicate Avoids(s: string, c: char) {
    forall j | 0 <= j < |s| :: s[j] != c
  }

  ghost predicate Trimmed(s: string) {
    s != "" && s[0] != ' ' && s[|s| - 1] != ' '
  }

  ghost predicate GoodName(c: Config, k: nat, letter: bool, allowed: set<Kind>)
    requires c.Valid()
  {
    && NameOf(c, k, letter).Some? && c.kinds[k] in allowed
    && var name := NameOf(c, k, letter).value;
      Trimmed(name) && Avoids(name, c.delimiter) && Avoids(name, '\n') && name[0] != '#' && (letter || |name| > 1)
  }

  /** No option is declared under a name that starts with a blank. */
  ghost predicate NoBlankNames(c: Config) {
    && Some(' ') !in c.chars
    && forall k | 0 <= k < |c.longs| && c.longs[k].Some? && c.longs[k].value != "" :: c.longs[k].value[0] != ' '
  }

  /** No long name of an option contains the delimiter. */
  ghost predicate NoDelimiterNames(c: Config) {
    forall k | 0 <= k < |c.longs| && c.longs[k].Some? :: Avoids(c.longs[k].value, c.delimiter)
  }

  /** The line ends in the delimiter, so it is taken for a flag as a whole. */
  ghost predicate EndsInDelimiter(c: Config, value: string, last: nat) {
    last == 0 && value != "" && value[|value| - 1] == c.delimiter
  }

  ghost predicate LineFits(c: Config, line: Line)
    requires c.Valid()
  {
    match line
    case Blank => true
    case Comment(text) => Avoids(text, '\n')
    case FlagLine(k, letter, indent, _) => GoodName(c, k, letter, FILE_FLAGS) && (indent > 0 ==> NoBlankNames(c))
    case PairLine(k, letter, indent, _, _, value, last) =>
      && GoodName(c, k, letter, FILE_OPTS) && (indent > 0 ==> NoBlankNames(c)) && Trimmed(value) && Avoids(value, '\n')
      && (EndsInDelimiter(c, value, last) ==> NoDelimiterNames(c))
  }

  /** A line without its newline. */
  ghost function TextOf(c: Config, line: Line): string
    requires c.Valid() && LineFits(c, line)
  {
    match line
    case Blank => ""
    case Comment(text) => "#" + text
    case FlagLine(k, letter, indent, after) => Blanks(indent) + NameOf(c, k, letter).value + Blanks(after)
    case PairLine(k, letter, indent, before, after, value, last) =>
      Blanks(indent) + NameOf(c, k, letter).value + Blanks(before) + [c.delimiter] +
        (Blanks(after) + value + Blanks(last))
  }

  /** What a line says; an indented name says nothing, nor does a value that ends the line in a delimiter. */
  ghost function LineMeaning(c: Config, line: Line): seq<Write> {
    match line
    case Blank => []
    case Comment(_) => []
    case FlagLine(k, _, indent, _) => if indent == 0 then [Write(k, "true")] else []
    case PairLine(k, _, indent, _, _, value, last) =>
      if indent == 0 && !EndsInDelimiter(c, value, last) then [Write(k, value)] else []
  }

  ghost function FileText(c: Config, lines: seq<Line>): string
    requires c.Valid() && forall j | 0 <= j < |lines| :: LineFits(c, lines[j])
  {
    if lines == [] then "" else TextOf(c, lines[0]) + "\n" + FileText(c, lines[1..])
  }

  ghost function LineMeanings(c: Config, lines: seq<Line>): seq<Write> {
    if lines == [] then [] else LineMeaning(c, lines[0]) + LineMeanings(c, lines[1..])
  }

  lemma {:induction false} TrimEndCuts(s: string, n: nat)
    requires s != "" && s[|s| - 1] != ' '
    ensures TrimEnd(s + Blanks(n)) == s
  {
    var t := s + Blanks(n);
    if n > 0 {
      assert t[..|t| - 1] == s + Blanks(n - 1);
      TrimEndCuts(s, n - 1);
    } else {
      assert t == s;
    }
  }

  lemma TrimsToValue(value: string, after: nat, last: nat)
    requires Trimmed(value)
    ensures TrimStart(TrimEnd(Blanks(after) + value + Blanks(last))) == value
  {
    var s := Blanks(after) + value;
    assert s[|s| - 1] == value[|value| - 1];
    TrimEndCuts(s, last);
    TrimStartSkips(s, after);
  }

  /** A good name is found in the column it belongs to when nothing stands before it, and not otherwise. */
  lemma NameWrites(c: Config, k: nat, letter: bool, indent: nat, blanks: nat, value: string, allowed: set<Kind>)
    requires DistinctNames(c) && GoodName(c, k, letter, allowed) && allowed <= ALL_KINDS
    requires indent > 0 ==> NoBlankNames(c)
    ensures NamedWrite(c, Blanks(indent) + NameOf(c, k, letter).value + Blanks(blanks), value, allowed) ==
      if indent == 0 then [Write(k, value)] else []
  {
    hide NamedWrite, Distinct;
    var name := NameOf(c, k, letter).value;
    if indent == 0 {
      assert Blanks(0) + name == name;
      UnindentedNameWrites(c, k, letter, blanks, value, allowed);
    } else {
      var text := Blanks(indent) + name;
      assert text[|text| - 1] == name[|name| - 1] && (text + Blanks(blanks))[0] == ' ';
      TrimEndCuts(text, blanks);
      IndentedNamesAreIgnored(c, text + Blanks(blanks), value, allowed);
    }
  }

  lemma UnindentedNameWrites(c: Config, k: nat, letter: bool, blanks: nat, value: string, allowed: set<Kind>)
    requires DistinctNames(c) && GoodName(c, k, letter, allowed) && allowed <= ALL_KINDS
    ensures NamedWrite(c, NameOf(c, k, letter).value + Blanks(blanks), value, allowed) == [Write(k, value)]
  {
    var name := NameOf(c, k, letter).value;
    TrimEndCuts(name, blanks);
    assert TrimStart(name) == name;
    if letter {
      FirstIsOwn(c.chars, c.kinds, k, allowed);
      FirstIsOwn(c.chars, c.kinds, k, ALL_KINDS);
    } else {
      FirstIsOwn(c.longs, c.kinds, k, allowed);
      FirstIsOwn(c.longs, c.kinds, k, ALL_KINDS);
    }
  }

  /** Blanks before a name are not removed from the name that is looked up. */
  lemma IndentedNamesAreIgnored(c: Config, text: string, value: string, allowed: set<Kind>)
    requires c.Valid() && text != "" && text[0] == ' ' && TrimEnd(text) != "" && NoBlankNames(c)
    ensures NamedWrite(c, text, value, allowed) == []
  {
  }

  /** A flag line sets its flag exactly when the name is not indented. */
  lemma FlagReads(c: Config, k: nat, letter: bool, indent: nat, after: nat)
    requires DistinctNames(c) && c.delimiter != ' ' && LineFits(c, FlagLine(k, letter, indent, after))
    ensures LineWrites(c, TextOf(c, FlagLine(k, letter, indent, after))) ==
      if indent == 0 then [Write(k, TRUE_FLAG)] else []
  {
    hide NamedWrite, Distinct, NoBlankNames;
    var line := TextOf(c, FlagLine(k, letter, indent, after));
    NameWrites(c, k, letter, indent, after, TRUE_FLAG, FILE_FLAGS);
    assert FirstAt(line, c.delimiter) == |line|;
  }

  /** A line that contains the delimiter names no option as a whole. */
  lemma DelimitedTextIsNoName(c: Config, text: string, k: nat, value: string, allowed: set<Kind>)
    requires c.Valid() && NoDelimiterNames(c) && c.delimiter != ' '
    requires k < |text| - 1 && text[k] == c.delimiter && text[|text| - 1] == c.delimiter && text[0] != c.delimiter
    ensures NamedWrite(c, text, value, allowed) == []
  {
    assert TrimEnd(text) == text;
    LongerThanOne(text, k);
  }

  lemma {:induction false} LongerThanOne(text: string, k: nat)
    requires k < |text| - 1 && text[k] != ' '
    ensures |TrimStart(text)| > 1
  {
    if text[0] == ' ' {
      LongerThanOne(text[1..], k - 1);
    }
  }

  /** What a line with a delimiter in it does. */
  lemma DelimitedLineWrites(c: Config, name: string, text: string)
    requires c.Valid() && name != "" && text != "" && Avoids(name, c.delimiter)
    ensures LineWrites(c, name + [c.delimiter] + text) ==
      if text[|text| - 1] == c.delimiter then NamedWrite(c, name + [c.delimiter] + text, TRUE_FLAG, FILE_FLAGS)
      else NamedWrite(c, name, TrimStart(TrimEnd(text)), FILE_OPTS)
  {
    hide NamedWrite, FirstAt, TrimStart, TrimEnd;
    Splits(name, c.delimiter, text);
  }

  /** A pair line writes its value exactly when the name is not indented and the line does not end in the
      delimiter. */
  lemma PairReads(c: Config, k: nat, letter: bool, indent: nat, before: nat, after: nat, value: string, last: nat)
    requires DistinctNames(c) && c.delimiter != ' '
    requires LineFits(c, PairLine(k, letter, indent, before, after, value, last))
    ensures LineWrites(c, TextOf(c, PairLine(k, letter, indent, before, after, value, last))) ==
      if indent == 0 && !EndsInDelimiter(c, value, last) then [Write(k, value)] else []
  {
    hide NamedWrite, LineWrites, Distinct, FirstAt, TrimStart, TrimEnd, NoBlankNames, NoDelimiterNames;
    var name := Blanks(indent) + NameOf(c, k, letter).value + Blanks(before);
    var text := Blanks(after) + value + Blanks(last);
    assert text[|text| - 1] == if last > 0 then ' ' else value[|value| - 1];
    DelimitedLineWrites(c, name, text);
    if EndsInDelimiter(c, value, last) {
      assert (name + [c.delimiter] + text)[|name|] == c.delimiter;
      DelimitedTextIsNoName(c, name + [c.delimiter] + text, |name|, TRUE_FLAG, FILE_FLAGS);
    } else {
      TrimsToValue(value, after, last);
      NameWrites(c, k, letter, indent, before, value, FILE_OPTS);
    }
  }

  lemma Splits(name: string, delimiter: char, text: string)
    requires name != "" && text != "" && Avoids(name, delimiter)
    ensures var line := name + [delimiter] + text;
      && 0 < FirstAt(line, delimiter) == |name| < |line| && line[|line| - 1] == text[|text| - 1]
      && line[..|name|] == name && line[|name| + 1..] == text
  {
    var line := name + [delimiter] + text;
    assert line[|name|] == delimiter && forall j | 0 <= j < |name| :: line[j] == name[j];
  }

  lemma LineHasNoNewline(c: Config, line: Line)
    requires c.Valid() && c.delimiter != '\n' && LineFits(c, line)
    ensures NoNewline(TextOf(c, line))
  {
  }

  /** Every line, of whatever form, is read as what it means. */
  lemma LineReads(c: Config, line: Line)
    requires DistinctNames(c) && c.delimiter != ' ' && LineFits(c, line)
    ensures var text := TextOf(c, line);
      LineMeaning(c, line) == if text == "" || text[0] == '#' then [] else LineWrites(c, text)
  {
    hide LineWrites, Distinct, NoBlankNames;
    match line
    case Blank =>
    case Comment(_) =>
    case FlagLine(k, letter, indent, after) => FlagReads(c, k, letter, indent, after);
    case PairLine(k, letter, indent, before, after, value, last) =>
      PairReads(c, k, letter, indent, before, after, value, last);
  }

  /** A file written line by line is read back as exactly the writes the lines mean. */
  lemma {:induction false} FileReadsBack(c: Config, lines: seq<Line>)
    requires DistinctNames(c) && c.delimiter != ' ' && c.delimiter != '\n'
    requires forall j | 0 <= j < |lines| :: LineFits(c, lines[j])
    ensures FileWrites(c, FileText(c, lines)) == LineMeanings(c, lines)
  {
    hide LineWrites, FileWrites, Distinct, TextOf, LineFits, LineMeaning, NoNewline;
    var text := FileText(c, lines);
    if lines == [] {
      NoNewlineYet();
      FileEnds(c, text);
    } else {
      var first := TextOf(c, lines[0]);
      var rest := FileText(c, lines[1..]);
      FileReadsBack(c, lines[1..]);
      LineHasNoNewline(c, lines[0]);
      assert text[..|first|] == first && text[|first| + 1..] == rest && text[|first|] == '\n';
      FileUnfolds(c, text, |first|);
      LineReads(c, lines[0]);
    }
  }
}
