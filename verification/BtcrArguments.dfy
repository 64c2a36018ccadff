/**
 The arguments of createBtcrDid: the command line is read, then the configuration file it names or the one
 in the home directory, then the command line again.
 */
module BtcrArguments {
  import opened Options
  import opened OptionSpecs
  import opened AnyOptions
  import RoundTrips = OptionRoundTrips

  const CONFIG := 6

  const OPTIONS := Config(
    [Some("help"), Some("dryrun"), Some("rpcconnect"), Some("rpcuser"), Some("rpcpassword"), Some("rpcport"),
     Some("config"), Some("txoIndex")],
    [Some('h'), Some('n'), None, None, None, None, None, None],
    [CommonFlag, CommonFlag, CommonOpt, CommonOpt, CommonOpt, CommonOpt, CommandOpt, CommonOpt],
    true, '=')

  lemma OptionsAreDistinct()
    ensures OPTIONS.Valid() && Distinct(OPTIONS.longs) && Distinct(OPTIONS.chars)
  {
  }

  const FLAGS := Config(
    [Some("help"), Some("dryrun"), Some("rpcconnect")],
    [Some('h'), Some('n'), None],
    [CommonFlag, CommonFlag, CommonOpt],
    true, '=')

  method DeclareFlags() returns (opt: AnyOption)
    ensures opt.Valid() && fresh(opt) && fresh(opt.Footprint()) && fresh(opt.values) && fresh(opt.newArgv)
    ensures opt.Declarations() == FLAGS && !opt.isSet && !opt.hasOptions && opt.maxLegalArgs == 0
  {
    hide AnyOption.Apart, AnyOption.TablesApart, AnyOption.TablesHold, AnyOption.LongEntries, AnyOption.CharEntries;
    hide AnyOption.Valid, AnyOption.StoreValid, AnyOption.Footprint;
    opt := new AnyOption(DEFAULT_MAXOPTS, DEFAULT_MAXOPTS);
    opt.SetFileDelimiterChar('=');
    opt.SetPair("help", 'h', CommonFlag);
    assert fresh(opt.Footprint());
    opt.SetPair("dryrun", 'n', CommonFlag);
    assert fresh(opt.Footprint());
    opt.SetLong("rpcconnect", CommonOpt);
  }

  method DeclareOptions() returns (opt: AnyOption)
    ensures opt.Valid() && fresh(opt) && fresh(opt.Footprint()) && fresh(opt.values) && fresh(opt.newArgv)
    ensures opt.Declarations() == OPTIONS && !opt.isSet && !opt.hasOptions && opt.maxLegalArgs == 0
    ensures opt.valueCounter == 8 && opt.Values() == Missing(8)
  {
    hide AnyOption.Apart, AnyOption.TablesApart, AnyOption.TablesHold, AnyOption.LongEntries, AnyOption.CharEntries;
    hide AnyOption.Valid, AnyOption.StoreValid, AnyOption.Footprint;
    hide Declared, OPTIONS, FLAGS;
    OptionsInTurn();
    opt := DeclareFlags();
    opt.SetLong("rpcuser", CommonOpt);
    assert fresh(opt.Footprint());
    opt.SetLong("rpcpassword", CommonOpt);
    assert fresh(opt.Footprint());
    opt.SetLong("rpcport", CommonOpt);
    assert fresh(opt.Footprint());
    opt.SetLong("config", CommandOpt);
    assert fresh(opt.Footprint());
    opt.SetLong("txoIndex", CommonOpt);
    CountDeclared(opt);
  }

  lemma OptionsInTurn()
    ensures OPTIONS == Declared(Declared(Declared(Declared(Declared(FLAGS,
      Some("rpcuser"), None, CommonOpt), Some("rpcpassword"), None, CommonOpt), Some("rpcport"), None, CommonOpt),
      Some("config"), None, CommandOpt), Some("txoIndex"), None, CommonOpt)
  {
  }

  lemma CountDeclared(opt: AnyOption)
    requires opt.Valid() && opt.Declarations() == OPTIONS && !opt.isSet
    ensures opt.valueCounter == 8 && opt.Values() == Missing(8)
  {
  }

  /** The file that the first reading of the arguments leads to. */
  ghost function ConfigFile(argv: seq<string>, home: string, files: map<string, string>): Option<string> {
    OptionsAreDistinct();
    var named := LastWrite(CommandWrites(OPTIONS, argv, 1), CONFIG);
    if named.Some? then Content(files, named.value)
    else if home != "" then Content(files, home + "/.bitcoin/bitcoin.conf")
    else None
  }

  function Content(files: map<string, string>, path: string): Option<string> {
    if path in files then Some(files[path]) else None
  }

  /** Reads the arguments, the file they lead to, and the arguments again. */
  method ReadInputs(argv: seq<string>, home: string, files: map<string, string>) returns (opt: AnyOption, proceed: bool)
    ensures opt.Valid() && opt.Declarations() == OPTIONS
    ensures proceed == (|argv| > 1)
    ensures proceed ==> opt.Values() == ArgsFileArgs(OPTIONS, argv, ConfigFile(argv, home, files))
    ensures proceed ==> opt.argv == argv && opt.PositionalArgs() == Positional(OPTIONS, argv, 1)
  {
    hide AnyOption.Valid, AnyOption.Footprint, AnyOption.Values, AnyOption.PositionalArgs;
    hide CommandWrites, FileWrites, Positional, Take, Apply, LastWrite, Lookup, OPTIONS;
    NamedFile(argv);
    TakesEveryPositional(argv);
    opt := DeclareOptions();
    opt.ProcessCommandArgs(argv);
    if !opt.hasOptions {
      return opt, false;
    }
    var path := opt.GetValue("config");
    var file := None;
    if path.Some? {
      file := Content(files, path.value);
    } else if home != "" {
      file := Content(files, home + "/.bitcoin/bitcoin.conf");
    }
    var _ := opt.ProcessFile(file);
    opt.ProcessCommandArgs(argv);
    return opt, true;
  }

  lemma NamedFile(argv: seq<string>)
    ensures OPTIONS.Valid() && |OPTIONS.kinds| == 8
    ensures Lookup(OPTIONS.longs, OPTIONS.kinds, "config", Apply(Missing(8), CommandWrites(OPTIONS, argv, 1)))
      == LastWrite(CommandWrites(OPTIONS, argv, 1), CONFIG)
  {
    hide CommandWrites, Apply, LastWrite, First;
    OptionsAreDistinct();
    FirstIsOwn(OPTIONS.longs, OPTIONS.kinds, CONFIG, ALL_KINDS);
    ApplyAt(Missing(8), CommandWrites(OPTIONS, argv, 1), CONFIG);
  }

  lemma TakesEveryPositional(argv: seq<string>)
    ensures OPTIONS.Valid()
    ensures Take(Positional(OPTIONS, argv, 1), |argv|) == Positional(OPTIONS, argv, 1)
  {
    hide Positional;
    OptionsAreDistinct();
    PositionalFits(OPTIONS, argv, 1);
  }

  // ----- which file is read -----

  /** The item gives the option config a value. */
  ghost predicate NamesConfig(item: RoundTrips.Item) {
    (item.Joined? || item.Separate?) && item.k == CONFIG
  }

  lemma {:induction false} FlagsLeaveConfig(flags: seq<nat>)
    requires OPTIONS.Valid() && RoundTrips.FlagLetters(OPTIONS, flags)
    ensures LastWrite(RoundTrips.FlagWrites(flags), CONFIG) == None
  {
    if flags != [] {
      FlagsLeaveConfig(flags[1..]);
      LastWriteAppend([Write(flags[0], TRUE_FLAG)], RoundTrips.FlagWrites(flags[1..]), CONFIG);
    }
  }

  lemma ItemLeavesConfig(item: RoundTrips.Item)
    requires OPTIONS.Valid() && RoundTrips.Fits(OPTIONS, item)
    ensures LastWrite(RoundTrips.Meaning(item), CONFIG) == if NamesConfig(item) then Some(item.value) else None
  {
    if item.Letters? {
      FlagsLeaveConfig(item.flags);
      assert RoundTrips.FlagWrites(item.flags) + [] == RoundTrips.FlagWrites(item.flags);
      if !item.tail.Nothing? {
        LastWriteAppend(RoundTrips.FlagWrites(item.flags), [Write(item.tail.k, item.tail.value)], CONFIG);
      }
    }
  }

  /** The last item that names a configuration file decides. */
  lemma {:induction false} LastConfigItem(items: seq<RoundTrips.Item>)
    requires OPTIONS.Valid() && forall item <- items :: RoundTrips.Fits(OPTIONS, item)
    ensures var named := LastWrite(RoundTrips.Meanings(items), CONFIG);
      && (named.None? <==> forall item <- items :: !NamesConfig(item))
      && forall i | 0 <= i < |items| && NamesConfig(items[i]) && forall j | i < j < |items| :: !NamesConfig(items[j]) ::
           named == Some(items[i].value)
  {
    hide NamesConfig, RoundTrips.Fits, RoundTrips.Meaning, LastWrite;
    if items == [] {
      NothingWritten(CONFIG);
    } else {
      LastConfigItem(items[1..]);
      ItemLeavesConfig(items[0]);
      LastWriteAppend(RoundTrips.Meaning(items[0]), RoundTrips.Meanings(items[1..]), CONFIG);
      assert forall item <- items :: item == items[0] || item in items[1..];
      assert forall i | 0 < i < |items| :: items[i] == items[1..][i - 1];
    }
  }

  lemma NothingWritten(slot: nat)
    ensures LastWrite([], slot) == None
  {
  }

  /** The file is the one named last on the command line, and the one in the home directory only when none
      is named. */
  lemma ConfigFileIs(items: seq<RoundTrips.Item>, argv: seq<string>, home: string, files: map<string, string>)
    requires OPTIONS.Valid() && forall item <- items :: RoundTrips.Fits(OPTIONS, item)
    requires |argv| > 0 && argv[1..] == RoundTrips.CommandLine(OPTIONS, items)
    ensures var file := ConfigFile(argv, home, files);
      && ((forall item <- items :: !NamesConfig(item)) ==>
           file == if home == "" then None else Content(files, home + "/.bitcoin/bitcoin.conf"))
      && forall i | 0 <= i < |items| && NamesConfig(items[i]) && forall j | i < j < |items| :: !NamesConfig(items[j]) ::
           file == Content(files, items[i].value)
  {
    hide CommandWrites, LastWrite, NamesConfig, RoundTrips.Meanings, RoundTrips.CommandLine, RoundTrips.Fits, Content;
    LastConfigItem(items);
    WritesOfItems(items, argv);
  }

  lemma WritesOfItems(items: seq<RoundTrips.Item>, argv: seq<string>)
    requires OPTIONS.Valid() && forall item <- items :: RoundTrips.Fits(OPTIONS, item)
    requires |argv| > 0 && argv[1..] == RoundTrips.CommandLine(OPTIONS, items)
    ensures CommandWrites(OPTIONS, argv, 1) == RoundTrips.Meanings(items)
  {
    hide CommandWrites, RoundTrips.Meanings, RoundTrips.CommandLine, RoundTrips.Fits;
    OptionsAreDistinct();
    RoundTrips.CommandLineReadsBack(OPTIONS, items, argv, 1);
  }

  /** Every option ends with what the command line says last, or else with what the file says last. */
  lemma InputsReadBack(items: seq<RoundTrips.Item>, lines: seq<RoundTrips.Line>, argv: seq<string>, k: nat)
    requires OPTIONS.Valid() && forall item <- items :: RoundTrips.Fits(OPTIONS, item)
    requires forall j | 0 <= j < |lines| :: RoundTrips.LineFits(OPTIONS, lines[j])
    requires |argv| > 0 && argv[1..] == RoundTrips.CommandLine(OPTIONS, items) && k < 8
    ensures |OPTIONS.kinds| == 8
    ensures ArgsFileArgs(OPTIONS, argv, Some(RoundTrips.FileText(OPTIONS, lines)))[k] ==
      OrElse(LastWrite(RoundTrips.Meanings(items), k), LastWrite(RoundTrips.LineMeanings(OPTIONS, lines), k))
  {
    hide CommandWrites, FileWrites, LastWrite, ArgsFileArgs, RoundTrips.Meanings, RoundTrips.LineMeanings,
      RoundTrips.CommandLine, RoundTrips.FileText, RoundTrips.Fits, RoundTrips.LineFits;
    OptionsAreDistinct();
    WritesOfItems(items, argv);
    RoundTrips.FileReadsBack(OPTIONS, lines);
    ArgumentsOverrideFile(OPTIONS, argv, Some(RoundTrips.FileText(OPTIONS, lines)), k);
  }

  // ----- the usage text -----

  ghost predicate Says(items: seq<RoundTrips.Item>, words: seq<string>, writes: seq<Write>) {
    && OPTIONS.Valid() && (forall item <- items :: RoundTrips.Fits(OPTIONS, item))
    && RoundTrips.CommandLine(OPTIONS, items) == words && RoundTrips.Meanings(items) == writes
  }

  lemma NothingSaid()
    ensures Says([], [], [])
  {
    OptionsAreDistinct();
  }

  lemma SaysMore(item: RoundTrips.Item, items: seq<RoundTrips.Item>, words: seq<string>, writes: seq<Write>)
    requires Says(items, words, writes) && RoundTrips.Fits(OPTIONS, item)
    ensures Says([item] + items, RoundTrips.Words(OPTIONS, item) + words, RoundTrips.Meaning(item) + writes)
  {
    hide RoundTrips.Fits, RoundTrips.Words, RoundTrips.Meaning;
    assert ([item] + items)[1..] == items;
  }

  lemma SaysOption(k: nat, name: string, dashed: string, value: string, items: seq<RoundTrips.Item>,
                   words: seq<string>, writes: seq<Write>)
    requires Says(items, words, writes) && 2 <= k < 8 && OPTIONS.longs[k] == Some(name) && RoundTrips.Unsplit(name)
    requires dashed == "--" + name
    ensures Says([RoundTrips.Separate(k, value)] + items, [dashed, value] + words, [Write(k, value)] + writes)
  {
    hide Says, RoundTrips.Unsplit;
    OptionsAreDistinct();
    SaysMore(RoundTrips.Separate(k, value), items, words, writes);
  }

  lemma SaysFlag(k: nat, c: char, name: string, dashed: string, items: seq<RoundTrips.Item>, words: seq<string>,
                 writes: seq<Write>)
    requires Says(items, words, writes) && k < 2 && OPTIONS.longs[k] == Some(name) && RoundTrips.Unsplit(name)
    requires OPTIONS.chars[k] == Some(c) && c != '-' && dashed == "--" + name
    ensures Says([RoundTrips.Letters([k], RoundTrips.Nothing)] + ([RoundTrips.Flag(k)] + items),
      [['-', c]] + ([dashed] + words), [Write(k, "true")] + ([Write(k, "true")] + writes))
  {
    hide Says, RoundTrips.Unsplit;
    OptionsAreDistinct();
    SaysMore(RoundTrips.Flag(k), items, words, writes);
    var letters := RoundTrips.Letters([k], RoundTrips.Nothing);
    assert RoundTrips.LettersWord(OPTIONS, [k], RoundTrips.Nothing) == [c];
    assert RoundTrips.FlagWrites([k]) == [Write(k, "true")];
    assert "-" + [c] == ['-', c] && [['-', c]] + [] == [['-', c]];
    assert RoundTrips.Meaning(letters) == [Write(k, "true")] + [] == [Write(k, "true")];
    SaysMore(letters, [RoundTrips.Flag(k)] + items, [dashed] + words, [Write(k, "true")] + writes);
  }

  /** The options of the usage text, each with its value, are understood as the options they are. */
  lemma UsageIsUnderstood(v: seq<string>, argv: seq<string>)
    requires |v| == 6
    requires argv == ["createBtcrDid", "-h", "--help", "--rpcconnect", v[0], "--rpcuser", v[1], "--rpcpassword", v[2],
      "--rpcport", v[3], "--config", v[4], "--txoIndex", v[5], "-n", "--dryrun"]
    ensures OPTIONS.Valid()
    ensures CommandWrites(OPTIONS, argv, 1) == [Write(0, "true"), Write(0, "true"), Write(2, v[0]), Write(3, v[1]),
      Write(4, v[2]), Write(5, v[3]), Write(6, v[4]), Write(7, v[5]), Write(1, "true"), Write(1, "true")]
  {
    hide CommandWrites, Says;
    var items, words, writes := LastOptions(v);
    items, words, writes := FirstOptions(v, items, words, writes);
    assert argv[1..] == words;
    SaidIsWritten(items, words, writes, argv);
  }

  lemma LastOptions(v: seq<string>) returns (items: seq<RoundTrips.Item>, words: seq<string>, writes: seq<Write>)
    requires |v| == 6
    ensures Says(items, words, writes)
    ensures words == ["--rpcport", v[3], "--config", v[4], "--txoIndex", v[5], "-n", "--dryrun"]
    ensures writes == [Write(5, v[3]), Write(6, v[4]), Write(7, v[5]), Write(1, "true"), Write(1, "true")]
  {
    hide Says;
    NothingSaid();
    SaysFlag(1, 'n', "dryrun", "--dryrun", [], [], []);
    items := [RoundTrips.Letters([1], RoundTrips.Nothing)] + ([RoundTrips.Flag(1)] + []);
    words, writes := [['-', 'n']] + (["--dryrun"] + []), [Write(1, "true")] + ([Write(1, "true")] + []);
    SaysOption(7, "txoIndex", "--txoIndex", v[5], items, words, writes);
    items, words, writes :=
      [RoundTrips.Separate(7, v[5])] + items, ["--txoIndex", v[5]] + words, [Write(7, v[5])] + writes;
    SaysOption(6, "config", "--config", v[4], items, words, writes);
    items, words, writes :=
      [RoundTrips.Separate(6, v[4])] + items, ["--config", v[4]] + words, [Write(6, v[4])] + writes;
    SaysOption(5, "rpcport", "--rpcport", v[3], items, words, writes);
    items, words, writes :=
      [RoundTrips.Separate(5, v[3])] + items, ["--rpcport", v[3]] + words, [Write(5, v[3])] + writes;
  }

  lemma FirstOptions(v: seq<string>, items: seq<RoundTrips.Item>, words: seq<string>, writes: seq<Write>)
    returns (items': seq<RoundTrips.Item>, words': seq<string>, writes': seq<Write>)
    requires |v| == 6 && Says(items, words, writes)
    ensures Says(items', words', writes')
    ensures words' ==
      ["-h", "--help", "--rpcconnect", v[0], "--rpcuser", v[1], "--rpcpassword", v[2]] + words
    ensures writes' == [Write(0, "true"), Write(0, "true"), Write(2, v[0]), Write(3, v[1]), Write(4, v[2])] + writes
  {
    hide Says;
    SaysOption(4, "rpcpassword", "--rpcpassword", v[2], items, words, writes);
    items', words', writes' :=
      [RoundTrips.Separate(4, v[2])] + items, ["--rpcpassword", v[2]] + words, [Write(4, v[2])] + writes;
    SaysOption(3, "rpcuser", "--rpcuser", v[1], items', words', writes');
    items', words', writes' :=
      [RoundTrips.Separate(3, v[1])] + items', ["--rpcuser", v[1]] + words', [Write(3, v[1])] + writes';
    SaysOption(2, "rpcconnect", "--rpcconnect", v[0], items', words', writes');
    items', words', writes' :=
      [RoundTrips.Separate(2, v[0])] + items', ["--rpcconnect", v[0]] + words', [Write(2, v[0])] + writes';
    SaysFlag(0, 'h', "help", "--help", items', words', writes');
    items' := [RoundTrips.Letters([0], RoundTrips.Nothing)] + ([RoundTrips.Flag(0)] + items');
    words', writes' := [['-', 'h']] + (["--help"] + words'), [Write(0, "true")] + ([Write(0, "true")] + writes');
  }

  lemma SaidIsWritten(items: seq<RoundTrips.Item>, words: seq<string>, writes: seq<Write>, argv: seq<string>)
    requires Says(items, words, writes) && |argv| > 0 && argv[1..] == words
    ensures OPTIONS.Valid() && CommandWrites(OPTIONS, argv, 1) == writes
  {
    hide CommandWrites, RoundTrips.CommandLine, RoundTrips.Meanings, RoundTrips.Fits;
    WritesOfItems(items, argv);
  }
}
