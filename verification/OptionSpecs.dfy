/**
 What an option store does, as writes to numbered value slots. Every declaration of an option owns the
 slot with its own number; reading a command line or an option file is a sequence of writes that depends
 on the declarations and on the text, never on the values already stored.
 */
module OptionSpecs {
  import opened Options
  import opened Text

  // ----- declarations -----

  datatype Kind = Unset | CommonOpt | CommandOpt | FileOpt | CommonFlag | CommandFlag | FileFlag

  const COMMAND_OPTS := {CommonOpt, CommandOpt}
  const COMMAND_FLAGS := {CommonFlag, CommandFlag}
  const FILE_OPTS := {CommonOpt, FileOpt}
  const FILE_FLAGS := {CommonFlag, FileFlag}
  const ALL_KINDS := {CommonOpt, CommandOpt, FileOpt, CommonFlag, CommandFlag, FileFlag}

  const TRUE_FLAG := "true"

  /** Declaration k has a long name, a character, or both, and one kind. */
  datatype Config = Config(longs: seq<Option<string>>, chars: seq<Option<char>>, kinds: seq<Kind>, posix: bool,
      delimiter: char)
  {
    ghost predicate Valid() {
      |longs| == |kinds| && |chars| == |kinds| && forall k <- kinds :: k in ALL_KINDS
    }
  }

  /** The first declaration of a name with an allowed kind, or the number of declarations. */
  function First<T(==)>(names: seq<Option<T>>, kinds: seq<Kind>, name: T, allowed: set<Kind>): (i: nat)
    requires |names| == |kinds|
    ensures i <= |names|
    ensures i < |names| ==> names[i] == Some(name) && kinds[i] in allowed
    ensures forall j | 0 <= j < i :: !(names[j] == Some(name) && kinds[j] in allowed)
  {
    if names == [] || (names[0] == Some(name) && kinds[0] in allowed) then 0
    else 1 + First(names[1..], kinds[1..], name, allowed)
  }

  ghost predicate Distinct<T(!new)>(names: seq<Option<T>>) {
    forall i, j | 0 <= i < j < |names| && names[i].Some? :: names[i] != names[j]
  }

  // ----- writes -----

  datatype Write = Write(slot: nat, value: string)

  datatype Outcome<T> = Outcome(result: T, writes: seq<Write>)

  function Apply(values: seq<Option<string>>, writes: seq<Write>): (r: seq<Option<string>>)
    ensures |r| == |values|
  {
    if writes == [] then values
    else
      var before, w := Apply(values, writes[..|writes| - 1]), writes[|writes| - 1];
      if w.slot < |values| then before[w.slot := Some(w.value)] else before
  }

  lemma ApplyNothing(values: seq<Option<string>>)
    ensures Apply(values, []) == values
  {
  }

  function LastWrite(writes: seq<Write>, slot: nat): Option<string> {
    if writes == [] then None
    else if writes[|writes| - 1].slot == slot then Some(writes[|writes| - 1].value)
    else LastWrite(writes[..|writes| - 1], slot)
  }

  lemma {:induction false} ApplyAt(values: seq<Option<string>>, writes: seq<Write>, k: nat)
    requires k < |values|
    ensures Apply(values, writes)[k] == OrElse(LastWrite(writes, k), values[k])
  {
    if writes != [] {
      ApplyAt(values, writes[..|writes| - 1], k);
    }
  }

  lemma {:induction false} LastWriteAppend(a: seq<Write>, b: seq<Write>, slot: nat)
    ensures LastWrite(a + b, slot) == OrElse(LastWrite(b, slot), LastWrite(a, slot))
  {
    if b == [] {
      assert a + b == a;
    } else {
      assert (a + b)[..|a + b| - 1] == a + b[..|b| - 1];
      LastWriteAppend(a, b[..|b| - 1], slot);
    }
  }

  lemma {:induction false} ApplyAppend(values: seq<Option<string>>, a: seq<Write>, b: seq<Write>)
    ensures Apply(values, a + b) == Apply(Apply(values, a), b)
  {
    if b == [] {
      assert a + b == a;
    } else {
      assert (a + b)[..|a + b| - 1] == a + b[..|b| - 1];
      ApplyAppend(values, a, b[..|b| - 1]);
    }
  }

  /** A value goes to the first declaration of the name, whatever its kind. */
  function WriteTo<T(==)>(names: seq<Option<T>>, kinds: seq<Kind>, name: T, value: string): seq<Write>
    requires |names| == |kinds|
  {
    var i := First(names, kinds, name, ALL_KINDS);
    if i == |names| then [] else [Write(i, value)]
  }

  // ----- the command line -----

  function At(s: string, i: nat): char {
    if i < |s| then s[i] else '\0'
  }

  function FirstAt(s: string, c: char): (i: nat)
    ensures i <= |s|
    ensures i < |s| ==> s[i] == c
    ensures forall j | 0 <= j < i :: s[j] != c
  {
    if s == "" || s[0] == c then 0 else 1 + FirstAt(s[1..], c)
  }

  /** Whether a name is an option that takes a value; a flag is set at once. */
  function Match<T(==)>(names: seq<Option<T>>, kinds: seq<Kind>, name: T): (r: Outcome<bool>)
    requires |names| == |kinds|
    ensures r.result ==> r.writes == []
  {
    var i := First(names, kinds, name, COMMAND_OPTS + COMMAND_FLAGS);
    if i == |names| then Outcome(false, [])
    else if kinds[i] in COMMAND_OPTS then Outcome(true, [])
    else Outcome(false, WriteTo(names, kinds, name, TRUE_FLAG))
  }

  /** The option, if any, that waits for the next argument. */
  function ParseGNU(c: Config, arg: string): Outcome<Option<string>>
    requires c.Valid()
  {
    var at := FirstAt(arg, '=');
    if 0 < at < |arg| then
      var m := Match(c.longs, c.kinds, arg[..at]);
      Outcome(None, if m.result then WriteTo(c.longs, c.kinds, arg[..at], arg[at + 1..]) else m.writes)
    else
      var m := Match(c.longs, c.kinds, arg);
      Outcome(if m.result then Some(arg) else None, m.writes)
  }

  function SkipSeparators(s: string): string {
    if s != "" && (s[0] == ' ' || s[0] == '=') then SkipSeparators(s[1..]) else s
  }

  function ParsePOSIX(c: Config, arg: string): Outcome<Option<char>>
    requires c.Valid()
  {
    if arg == "" then Outcome(None, [])
    else
      var m := Match(c.chars, c.kinds, arg[0]);
      if !m.result then
        var rest := ParsePOSIX(c, arg[1..]);
        Outcome(rest.result, m.writes + rest.writes)
      else if |arg| > 1 then
        Outcome(None, WriteTo(c.chars, c.kinds, arg[0], SkipSeparators(arg[1..])))
      else
        Outcome(if arg[0] == '0' then None else Some(arg[0]), [])
  }

  /** The writes of the argument at i, the position after it and its value, and whether it is positional. */
  datatype ArgStep = ArgStep(writes: seq<Write>, next: nat, plain: bool)

  function Awaited<T(==)>(names: seq<Option<T>>, kinds: seq<Kind>, o: Outcome<Option<T>>, argv: seq<string>,
      i: nat): ArgStep
    requires |names| == |kinds|
  {
    if o.result.Some? && i + 1 < |argv| then
      ArgStep(o.writes + WriteTo(names, kinds, o.result.value, argv[i + 1]), i + 2, false)
    else
      ArgStep(o.writes, i + 1, false)
  }

  function StepAt(c: Config, argv: seq<string>, i: nat): (r: ArgStep)
    requires c.Valid() && i < |argv|
    ensures i < r.next <= |argv|
  {
    var a := argv[i];
    if At(a, 0) == '-' && At(a, 1) == '-' then Awaited(c.longs, c.kinds, ParseGNU(c, a[2..]), argv, i)
    else if At(a, 0) == '-' && c.posix then Awaited(c.chars, c.kinds, ParsePOSIX(c, a[1..]), argv, i)
    else if At(a, 0) == '-' then Awaited(c.longs, c.kinds, ParseGNU(c, a[1..]), argv, i)
    else ArgStep([], i + 1, true)
  }

  function CommandWrites(c: Config, argv: seq<string>, i: nat): seq<Write>
    requires c.Valid()
    decreases |argv| - i
  {
    if i >= |argv| then []
    else StepAt(c, argv, i).writes + CommandWrites(c, argv, StepAt(c, argv, i).next)
  }

  /** The positions of the arguments that belong to no option. */
  function Positional(c: Config, argv: seq<string>, i: nat): seq<nat>
    requires c.Valid()
    decreases |argv| - i
  {
    if i >= |argv| then []
    else
      var step := StepAt(c, argv, i);
      (if step.plain then [i] else []) + Positional(c, argv, step.next)
  }

  lemma ScanUnfolds(c: Config, argv: seq<string>, i: nat)
    requires c.Valid()
    ensures i >= |argv| ==> CommandWrites(c, argv, i) == [] && Positional(c, argv, i) == []
    ensures i < |argv| ==> var step := StepAt(c, argv, i);
      && CommandWrites(c, argv, i) == step.writes + CommandWrites(c, argv, step.next)
      && Positional(c, argv, i) == (if step.plain then [i] else []) + Positional(c, argv, step.next)
  {
  }

  function Take<T>(s: seq<T>, n: nat): seq<T> {
    if |s| <= n then s else s[..n]
  }

  lemma {:induction false} PositionalFits(c: Config, argv: seq<string>, i: nat)
    requires c.Valid()
    ensures |Positional(c, argv, i)| <= |argv|
    ensures i <= |argv| ==> |Positional(c, argv, i)| <= |argv| - i
    decreases |argv| - i
  {
    if i < |argv| {
      PositionalFits(c, argv, StepAt(c, argv, i).next);
    }
  }

  lemma TakeAll<T>(s: seq<T>, n: nat)
    requires |s| <= n
    ensures Take(s, n) == s
  {
  }

  // ----- the option file -----

  function TrimEnd(s: string): string {
    if s != "" && s[|s| - 1] == ' ' then TrimEnd(s[..|s| - 1]) else s
  }

  /** A named line writes through the character, when the trimmed name is one character and is declared as
      such, and otherwise through the long name. Blanks before the name are counted but not removed. */
  function NamedWrite(c: Config, text: string, value: string, allowed: set<Kind>): seq<Write>
    requires c.Valid()
  {
    var name := TrimEnd(text);
    if |TrimStart(name)| == 1 && First(c.chars, c.kinds, name[0], allowed) < |c.chars| then
      WriteTo(c.chars, c.kinds, name[0], value)
    else if First(c.longs, c.kinds, name, allowed) < |c.longs| then
      WriteTo(c.longs, c.kinds, name, value)
    else []
  }

  function LineWrites(c: Config, line: string): seq<Write>
    requires c.Valid() && line != ""
  {
    var at := FirstAt(line, c.delimiter);
    if at == 0 || line[|line| - 1] == c.delimiter || at == |line| then
      NamedWrite(c, line, TRUE_FLAG, FILE_FLAGS)
    else
      NamedWrite(c, line[..at], TrimStart(TrimEnd(line[at + 1..])), FILE_OPTS)
  }

  ghost predicate NoNewline(s: string) {
    forall j | 0 <= j < |s| :: s[j] != '\n'
  }

  /** Only lines that end in a newline, are not empty and do not start with the comment sign count. */
  function FileWrites(c: Config, text: string): seq<Write>
    requires c.Valid()
    decreases |text|
  {
    var end := FirstAt(text, '\n');
    if end == |text| then []
    else if end == 0 || text[0] == '#' then FileWrites(c, text[end + 1..])
    else LineWrites(c, text[..end]) + FileWrites(c, text[end + 1..])
  }

  lemma NoNewlineYet()
    ensures NoNewline("")
  {
  }

  lemma NoNewlineGrows(s: string, c: char)
    ensures NoNewline(s) && c != '\n' ==> NoNewline(s + [c])
  {
  }

  lemma FirstAtIs(s: string, c: char, i: nat)
    requires i <= |s| && (i < |s| ==> s[i] == c) && forall j | 0 <= j < i :: s[..i][j] != c
    ensures FirstAt(s, c) == i
  {
    assert forall j | 0 <= j < i :: s[j] == s[..i][j];
  }

  lemma {:induction false} TrimStartSkips(s: string, k: nat)
    requires k <= |s| && (k < |s| ==> s[k] != ' ') && forall j | 0 <= j < k :: s[j] == ' '
    ensures TrimStart(s) == s[k..]
  {
    if k > 0 {
      TrimStartSkips(s[1..], k - 1);
    }
  }

  lemma NotTrimmedAway(s: string)
    requires |TrimStart(s)| > 0
    ensures s != ""
  {
  }

  lemma FileUnfolds(c: Config, text: string, end: nat)
    requires c.Valid() && end < |text| && NoNewline(text[..end]) && text[end] == '\n'
    ensures FileWrites(c, text) ==
      (if end == 0 || text[0] == '#' then [] else LineWrites(c, text[..end])) + FileWrites(c, text[end + 1..])
  {
    hide LineWrites, FirstAt;
    FirstAtIs(text, '\n', end);
  }

  lemma FileEnds(c: Config, text: string)
    requires c.Valid() && NoNewline(text)
    ensures FileWrites(c, text) == []
  {
  }

  /** Text after the last newline is ignored. */
  lemma {:induction false} UnterminatedLineIsIgnored(c: Config, text: string, last: string)
    requires c.Valid() && NoNewline(last) && (text == "" || text[|text| - 1] == '\n')
    ensures FileWrites(c, text + last) == FileWrites(c, text)
    decreases |text|
  {
    hide FileWrites, LineWrites;
    if text == "" {
      assert "" + last == last;
      NoNewlineYet();
      FileEnds(c, "");
      FileEnds(c, last);
    } else {
      var end := FirstAt(text, '\n');
      assert (text + last)[..end] == text[..end] && (text + last)[end + 1..] == text[end + 1..] + last;
      FileUnfolds(c, text, end);
      FileUnfolds(c, text + last, end);
      UnterminatedLineIsIgnored(c, text[end + 1..], last);
    }
  }

  /** With no declarations nothing is ever written. */
  lemma {:induction false} NothingDeclared(values: seq<Option<string>>, writes: seq<Write>)
    requires values == []
    ensures Apply(values, writes) == values
  {
  }

  // ----- looking values up -----

  /** What a name stands for: the value in the slot of its first declaration. */
  function Lookup<T(==)>(names: seq<Option<T>>, kinds: seq<Kind>, name: T, values: seq<Option<string>>): Option<string>
    requires |names| == |kinds| == |values|
  {
    var i := First(names, kinds, name, ALL_KINDS);
    if i < |values| then values[i] else None
  }

  /** With distinct names every declaration is found under its own name. */
  lemma FirstIsOwn<T(!new)>(names: seq<Option<T>>, kinds: seq<Kind>, k: nat, allowed: set<Kind>)
    requires |names| == |kinds| && Distinct(names) && k < |names| && names[k].Some? && kinds[k] in allowed
    ensures First(names, kinds, names[k].value, allowed) == k
  {
  }

  /** The long name and the character of one option always give the same value. */
  lemma NamesShareASlot(c: Config, k: nat, values: seq<Option<string>>)
    requires c.Valid() && Distinct(c.longs) && Distinct(c.chars) && |values| == |c.kinds|
    requires k < |c.kinds| && c.longs[k].Some? && c.chars[k].Some?
    ensures Lookup(c.longs, c.kinds, c.longs[k].value, values) == values[k]
    ensures Lookup(c.chars, c.kinds, c.chars[k].value, values) == values[k]
  {
  }

  // ----- who may write a slot -----

  ghost predicate WritesOnly(c: Config, writes: seq<Write>, allowed: set<Kind>)
    requires c.Valid()
  {
    forall w <- writes :: w.slot < |c.kinds| && c.kinds[w.slot] in allowed
  }

  lemma {:induction false} NoLastWrite(c: Config, writes: seq<Write>, allowed: set<Kind>, k: nat)
    requires c.Valid() && WritesOnly(c, writes, allowed) && k < |c.kinds| && c.kinds[k] !in allowed
    ensures LastWrite(writes, k) == None
  {
    if writes != [] {
      assert writes[|writes| - 1] in writes;
      NoLastWrite(c, writes[..|writes| - 1], allowed, k);
    }
  }

  lemma OwnWriteOnly<T(!new)>(c: Config, names: seq<Option<T>>, name: T, value: string, allowed: set<Kind>)
    requires c.Valid() && |names| == |c.kinds| && Distinct(names) && First(names, c.kinds, name, allowed) < |names|
    ensures WritesOnly(c, WriteTo(names, c.kinds, name, value), allowed)
  {
  }

  /** With distinct names a file writes only to options that files may set. */
  lemma {:induction false} FileWritesFileKinds(c: Config, text: string)
    requires c.Valid() && Distinct(c.longs) && Distinct(c.chars)
    ensures WritesOnly(c, FileWrites(c, text), FILE_OPTS + FILE_FLAGS)
    decreases |text|
  {
    var end := FirstAt(text, '\n');
    if end < |text| {
      FileWritesFileKinds(c, text[end + 1..]);
      if end > 0 && text[0] != '#' {
        LineWritesFileKinds(c, text[..end]);
      }
    }
  }

  lemma LineWritesFileKinds(c: Config, line: string)
    requires c.Valid() && Distinct(c.longs) && Distinct(c.chars) && line != ""
    ensures WritesOnly(c, LineWrites(c, line), FILE_OPTS + FILE_FLAGS)
  {
    forall text, value, allowed | allowed <= FILE_OPTS + FILE_FLAGS
      ensures WritesOnly(c, NamedWrite(c, text, value, allowed), FILE_OPTS + FILE_FLAGS) {
      NamedWriteKinds(c, text, value, allowed);
    }
  }

  lemma NamedWriteKinds(c: Config, text: string, value: string, allowed: set<Kind>)
    requires c.Valid() && Distinct(c.longs) && Distinct(c.chars)
    ensures WritesOnly(c, NamedWrite(c, text, value, allowed), allowed)
  {
    var name := TrimEnd(text);
    if |TrimStart(name)| == 1 && First(c.chars, c.kinds, name[0], allowed) < |c.chars| {
      OwnWriteOnly(c, c.chars, name[0], value, allowed);
    } else if First(c.longs, c.kinds, name, allowed) < |c.longs| {
      OwnWriteOnly(c, c.longs, name, value, allowed);
    }
  }

  // ----- arguments, then a file, then the arguments again -----

  ghost function ArgsFileArgs(c: Config, argv: seq<string>, file: Option<string>): (r: seq<Option<string>>)
    requires c.Valid()
    ensures |r| == |c.kinds|
  {
    var first := Apply(Missing(|c.kinds|), CommandWrites(c, argv, 1));
    var second := Apply(first, if file.Some? then FileWrites(c, file.value) else []);
    Apply(second, CommandWrites(c, argv, 1))
  }

  /** Every slot ends with the last write of the command line, or else with the last write of the file. */
  lemma ArgumentsOverrideFile(c: Config, argv: seq<string>, file: Option<string>, k: nat)
    requires c.Valid() && k < |c.kinds|
    ensures ArgsFileArgs(c, argv, file)[k] ==
      OrElse(LastWrite(CommandWrites(c, argv, 1), k),
        if file.Some? then LastWrite(FileWrites(c, file.value), k) else None)
  {
    var none := Missing(|c.kinds|);
    var fromArgs, fromFile := CommandWrites(c, argv, 1), if file.Some? then FileWrites(c, file.value) else [];
    var first := Apply(none, fromArgs);
    var second := Apply(first, fromFile);
    ApplyAt(none, fromArgs, k);
    ApplyAt(first, fromFile, k);
    ApplyAt(second, fromArgs, k);
  }

  /** What a file says never changes an option that is for the command line only. */
  lemma CommandOptionsIgnoreFile(c: Config, argv: seq<string>, file: Option<string>, k: nat)
    requires c.Valid() && Distinct(c.longs) && Distinct(c.chars)
    requires k < |c.kinds| && c.kinds[k] in {CommandOpt, CommandFlag}
    ensures ArgsFileArgs(c, argv, file)[k] == Apply(Missing(|c.kinds|), CommandWrites(c, argv, 1))[k]
  {
    ArgumentsOverrideFile(c, argv, file, k);
    ApplyAt(Missing(|c.kinds|), CommandWrites(c, argv, 1), k);
    if file.Some? {
      FileWritesFileKinds(c, file.value);
      NoLastWrite(c, FileWrites(c, file.value), FILE_OPTS + FILE_FLAGS, k);
    }
  }
}
