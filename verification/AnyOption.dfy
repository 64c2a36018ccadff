/**
 The option store: tables of declared options that double when they are full, one array of values, and the
 loops that read a command line and an option file. Every operation is proved against the writes of
 OptionSpecs.
 */
module AnyOptions {
  import opened Options
  import opened Text
  import opened OptionSpecs

  const DEFAULT_MAXOPTS := 10

  datatype Entry<T> = Entry(name: T, kind: Kind, slot: int)

  /** One declaration more; a character counts only while characters are in use. */
  ghost function Declared(c: Config, name: Option<string>, letter: Option<char>, kind: Kind): Config {
    Config(c.longs + [name], c.chars + [if c.posix then letter else None], c.kinds + [kind], c.posix, c.delimiter)
  }

  // ----- tables -----

  function Added<T>(name: Option<T>, kind: Kind, slot: int): seq<Entry<T>> {
    if name.Some? then [Entry(name.value, kind, slot)] else []
  }

  /** The entries of a table: the declarations that have a name in this column, in order. */
  ghost function EntriesOf<T>(names: seq<Option<T>>, kinds: seq<Kind>): (r: seq<Entry<T>>)
    requires |names| == |kinds|
  {
    if names == [] then []
    else
      var n := |names| - 1;
      EntriesOf(names[..n], kinds[..n]) + Added(names[n], kinds[n], n)
  }

  lemma EntriesOfOneMore<T>(names: seq<Option<T>>, kinds: seq<Kind>, name: Option<T>, kind: Kind)
    requires |names| == |kinds|
    ensures EntriesOf(names + [name], kinds + [kind]) ==
      EntriesOf(names, kinds) + Added(name, kind, |names|)
  {
  }

  lemma {:induction false} EntryIsDeclared<T>(names: seq<Option<T>>, kinds: seq<Kind>, k: nat)
    requires |names| == |kinds| && k < |EntriesOf(names, kinds)|
    ensures var e := EntriesOf(names, kinds)[k];
      0 <= e.slot < |names| && names[e.slot] == Some(e.name) && kinds[e.slot] == e.kind
  {
    var n := |names| - 1;
    if k < |EntriesOf(names[..n], kinds[..n])| {
      EntryIsDeclared(names[..n], kinds[..n], k);
    }
  }

  lemma {:induction false} DeclaredHasEntry<T>(names: seq<Option<T>>, kinds: seq<Kind>, i: nat) returns (k: nat)
    requires |names| == |kinds| && i < |names| && names[i].Some?
    ensures k < |EntriesOf(names, kinds)| && EntriesOf(names, kinds)[k] == Entry(names[i].value, kinds[i], i)
  {
    var n := |names| - 1;
    if i < n {
      k := DeclaredHasEntry(names[..n], kinds[..n], i);
    } else {
      k := |EntriesOf(names[..n], kinds[..n])|;
    }
  }

  lemma {:induction false} SlotsIncrease<T>(names: seq<Option<T>>, kinds: seq<Kind>, j: nat, k: nat)
    requires |names| == |kinds| && j < k < |EntriesOf(names, kinds)|
    ensures EntriesOf(names, kinds)[j].slot < EntriesOf(names, kinds)[k].slot
  {
    var n := |names| - 1;
    if k < |EntriesOf(names[..n], kinds[..n])| {
      SlotsIncrease(names[..n], kinds[..n], j, k);
    } else {
      EntryIsDeclared(names[..n], kinds[..n], j);
    }
  }

  /** Position k is the first entry of the name with an allowed kind. */
  ghost predicate IsFirst<T>(entries: seq<Entry<T>>, name: T, allowed: set<Kind>, k: nat) {
    && k <= |entries|
    && (k < |entries| ==> entries[k].name == name && entries[k].kind in allowed)
    && forall j | 0 <= j < k :: !(entries[j].name == name && entries[j].kind in allowed)
  }

  /** The first entry of a table is the first declaration. */
  lemma FirstEntryIsFirst<T>(names: seq<Option<T>>, kinds: seq<Kind>, name: T, allowed: set<Kind>, k: nat)
    requires |names| == |kinds| && IsFirst(EntriesOf(names, kinds), name, allowed, k)
    ensures First(names, kinds, name, allowed) ==
      if k < |EntriesOf(names, kinds)| then EntriesOf(names, kinds)[k].slot else |names|
  {
    hide EntriesOf;
    var entries, i := EntriesOf(names, kinds), First(names, kinds, name, allowed);
    if i < |names| {
      var m := DeclaredHasEntry(names, kinds, i);
      assert k <= m;
      if k < m {
        SlotsIncrease(names, kinds, k, m);
      }
    }
    if k < |entries| {
      EntryIsDeclared(names, kinds, k);
    }
  }

  /** Twice the storage, with the old cells kept and the new ones blank. */
  method Enlarged<T>(a: array<T>, blank: T) returns (b: array<T>)
    ensures fresh(b) && b.Length == 2 * a.Length
    ensures b[..a.Length] == a[..]
    ensures forall k | a.Length <= k < b.Length :: b[k] == blank
  {
    b := new T[2 * a.Length](_ => blank);
    for i := 0 to a.Length
      invariant b[..i] == a[..i]
      invariant forall k | a.Length <= k < b.Length :: b[k] == blank
    {
      b[i] := a[i];
    }
  }

  /** A table of names with their kinds and slots. */
  class OptionTable<T(==)> {
    const blank: Entry<T>
    var capacity: nat
    var cells: array<Entry<T>>
    var count: nat

    ghost function Footprint(): set<object>
      reads this
    {
      {this, cells}
    }

    ghost predicate Valid()
      reads this
    {
      0 < capacity == cells.Length && count <= capacity
    }

    ghost function Entries(): (r: seq<Entry<T>>)
      reads this, cells
      requires Valid()
    {
      cells[..count]
    }

    constructor (capacity: nat, blank: T)
      requires capacity > 0
      ensures Valid() && fresh(this) && fresh(cells) && Entries() == [] && this.capacity == capacity
    {
      var nothing := Entry(blank, Unset, -1);
      this.capacity, this.blank, count := capacity, nothing, 0;
      cells := new Entry<T>[capacity](_ => nothing);
    }

    method DoubleStorage()
      requires Valid()
      modifies this
      ensures Valid() && fresh(cells)
      ensures capacity == 2 * old(capacity) && count == old(count) && Entries() == old(Entries())
    {
      cells := Enlarged(cells, blank);
      assert cells[..capacity][..count] == cells[..count];
      capacity := 2 * capacity;
    }

    method Add(name: T, kind: Kind, slot: int)
      requires Valid()
      modifies Footprint()
      ensures Valid() && (cells == old(cells) || fresh(cells))
      ensures Entries() == old(Entries()) + [Entry(name, kind, slot)]
    {
      if count >= capacity {
        DoubleStorage();
      }
      cells[count] := Entry(name, kind, slot);
      count := count + 1;
    }

    /** Scans for the first entry of the name whose kind is allowed. */
    method Find(name: T, allowed: set<Kind>) returns (k: nat)
      requires Valid()
      ensures IsFirst(Entries(), name, allowed, k)
    {
      k := 0;
      while k < count
        invariant k <= count
        invariant forall j | 0 <= j < k :: !(cells[j].name == name && cells[j].kind in allowed)
      {
        if cells[k].name == name && cells[k].kind in allowed {
          return;
        }
        k := k + 1;
      }
    }
  }

  class AnyOption {
    var longs: OptionTable<string>
    var chars: OptionTable<char>
    var values: array<Option<string>>
    var valueCounter: nat
    var isSet: bool
    var posixStyle: bool
    var delimiter: char
    var argv: seq<string>
    var commandSet: bool
    var hasOptions: bool
    var newArgv: array<nat>
    var newArgc: nat
    var maxLegalArgs: nat

    ghost var longNames: seq<Option<string>>
    ghost var charNames: seq<Option<char>>
    ghost var declared: seq<Kind>

    ghost function Declarations(): Config
      reads this`longNames, this`charNames, this`declared, this`posixStyle, this`delimiter
    {
      Config(longNames, charNames, declared, posixStyle, delimiter)
    }

    ghost function Footprint(): set<object>
      reads this`longs, this`chars, longs, chars
    {
      longs.Footprint() + chars.Footprint()
    }

    ghost predicate TablesApart()
      reads this`longs, this`chars, longs, chars
    {
      longs.Valid() && chars.Valid() && longs.Footprint() !! chars.Footprint() && this !in Footprint()
    }

    ghost predicate Apart()
      reads this`longs, this`chars, this`values, this`newArgv, longs, chars
    {
      TablesApart() && values !in Footprint() && newArgv !in Footprint() && (values as object) != newArgv
    }

    ghost predicate TablesHold(longEntries: seq<Entry<string>>, charEntries: seq<Entry<char>>)
      reads this`longs, this`chars, longs, chars, Footprint()
      requires TablesApart()
    {
      longs.Entries() == longEntries && chars.Entries() == charEntries
    }

    ghost function LongEntries(): seq<Entry<string>>
      reads this`longNames, this`declared
    {
      if |longNames| == |declared| then EntriesOf(longNames, declared) else []
    }

    ghost function CharEntries(): seq<Entry<char>>
      reads this`charNames, this`declared
    {
      if |charNames| == |declared| then EntriesOf(charNames, declared) else []
    }

    ghost predicate StoreValid()
      reads this, newArgv
    {
      && |declared| == valueCounter
      && (isSet ==> values.Length == valueCounter > 0)
      && newArgc <= newArgv.Length
      && forall k | 0 <= k < newArgc :: newArgv[k] < |argv|
    }

    ghost predicate Valid()
      reads this, longs, chars, Footprint(), newArgv
    {
      Apart() && Declarations().Valid() && StoreValid() && TablesHold(LongEntries(), CharEntries())
    }

    /** What declaring options leaves alone. */
    ghost function Arguments(): (array<Option<string>>, array<nat>, seq<string>, bool, nat)
      reads this`values, this`newArgv, this`argv, this`hasOptions, this`maxLegalArgs
    {
      (values, newArgv, argv, hasOptions, maxLegalArgs)
    }

    ghost predicate Untouched(arguments: (array<Option<string>>, array<nat>, seq<string>, bool, nat))
      reads this`isSet, this`values, this`newArgv, this`argv, this`hasOptions, this`maxLegalArgs
    {
      !isSet && Arguments() == arguments
    }

    /** The value slots; before the storage is allocated every one is empty. */
    ghost function Values(): (r: seq<Option<string>>)
      reads this, values
    {
      if isSet then values[..] else Missing(valueCounter)
    }

    constructor (maxOptions: nat, maxCharOptions: nat)
      requires maxOptions > 0 && maxCharOptions > 0
      ensures Valid() && fresh(Footprint()) && fresh(values) && fresh(newArgv)
      ensures Declarations() == Config([], [], [], true, ':') && !isSet && argv == [] && newArgc == 0
      ensures maxLegalArgs == 0 && !hasOptions
    {
      hide EntriesOf, LongEntries, CharEntries;
      longs := new OptionTable<string>(maxOptions, "");
      chars := new OptionTable<char>(maxCharOptions, '0');
      values := new Option<string>[0];
      newArgv := new nat[0];
      valueCounter, isSet, posixStyle, delimiter := 0, false, true, ':';
      argv, commandSet, hasOptions, newArgc, maxLegalArgs := [], false, false, 0, 0;
      longNames, charNames, declared := [], [], [];
      new;
      NothingEntered();
      assert TablesApart();
      assert Apart();
      assert StoreValid();
    }

    lemma NothingEntered()
      requires longNames == [] && charNames == [] && declared == []
      ensures LongEntries() == [] && CharEntries() == []
    {
    }

    // ----- declaring options -----

    method SetFileDelimiterChar(c: char)
      requires Valid()
      modifies this`delimiter
      ensures Valid() && Declarations() == old(Declarations()).(delimiter := c)
    {
      hide LongEntries, CharEntries, TablesHold;
      delimiter := c;
    }

    method NoPOSIX()
      requires Valid()
      modifies this`posixStyle
      ensures Valid() && Declarations() == old(Declarations()).(posix := false)
    {
      hide LongEntries, CharEntries, TablesHold;
      posixStyle := false;
    }

    method AddLong(name: string, kind: Kind, ghost longEntries: seq<Entry<string>>, ghost charEntries: seq<Entry<char>>)
      requires Apart() && StoreValid() && TablesHold(longEntries, charEntries)
      modifies Footprint()
      ensures Apart() && StoreValid() && TablesHold(longEntries + [Entry(name, kind, valueCounter)], charEntries)
      ensures isSet == old(isSet) && Arguments() == old(Arguments())
      ensures forall o <- Footprint() :: o in old(Footprint()) || fresh(o)
      ensures valueCounter == old(valueCounter) && Declarations() == old(Declarations())
    {
      longs.Add(name, kind, valueCounter);
    }

    /** Adds nothing while characters are turned off. */
    method AddChar(c: char, kind: Kind, ghost longEntries: seq<Entry<string>>, ghost charEntries: seq<Entry<char>>)
      requires Apart() && StoreValid() && TablesHold(longEntries, charEntries)
      modifies Footprint()
      ensures Apart() && StoreValid() &&
        TablesHold(longEntries, charEntries + if posixStyle then [Entry(c, kind, valueCounter)] else [])
      ensures isSet == old(isSet) && Arguments() == old(Arguments())
      ensures forall o <- Footprint() :: o in old(Footprint()) || fresh(o)
      ensures valueCounter == old(valueCounter) && Declarations() == old(Declarations())
    {
      if posixStyle {
        chars.Add(c, kind, valueCounter);
      }
    }

    /** Declares an option with a long name only. */
    method SetLong(name: string, kind: Kind)
      requires Valid() && !isSet && kind in ALL_KINDS
      modifies this`valueCounter, this`longNames, this`charNames, this`declared, Footprint()
      ensures Valid() && Untouched(old(Arguments())) && forall o <- Footprint() :: o in old(Footprint()) || fresh(o)
      ensures Declarations() == Declared(old(Declarations()), Some(name), None, kind)
    {
      hide Apart, StoreValid, TablesHold, LongEntries, CharEntries, Footprint;
      ghost var l, k := LongEntries(), CharEntries();
      AddLong(name, kind, l, k);
      assert k + [] == k;
      Declare(Some(name), None, kind);
    }

    /** Declares an option with a character only. */
    method SetChar(c: char, kind: Kind)
      requires Valid() && !isSet && kind in ALL_KINDS
      modifies this`valueCounter, this`longNames, this`charNames, this`declared, Footprint()
      ensures Valid() && Untouched(old(Arguments())) && forall o <- Footprint() :: o in old(Footprint()) || fresh(o)
      ensures Declarations() == Declared(old(Declarations()), None, Some(c), kind)
    {
      hide Apart, StoreValid, TablesHold, LongEntries, CharEntries, Footprint;
      ghost var l, k := LongEntries(), CharEntries();
      AddChar(c, kind, l, k);
      assert l + [] == l && k + [] == k;
      Declare(None, Some(c), kind);
    }

    /** Declares one option under a long name and a character. */
    method SetPair(name: string, c: char, kind: Kind)
      requires Valid() && !isSet && kind in ALL_KINDS
      modifies this`valueCounter, this`longNames, this`charNames, this`declared, Footprint()
      ensures Valid() && Untouched(old(Arguments())) && forall o <- Footprint() :: o in old(Footprint()) || fresh(o)
      ensures Declarations() == Declared(old(Declarations()), Some(name), Some(c), kind)
    {
      hide Apart, StoreValid, TablesHold, LongEntries, CharEntries, Footprint;
      ghost var l, k := LongEntries(), CharEntries();
      AddLong(name, kind, l, k);
      AddChar(c, kind, l + [Entry(name, kind, valueCounter)], k);
      assert k + [] == k;
      Declare(Some(name), Some(c), kind);
    }

    /** Counts a declaration whose entries have been added. */
    method Declare(name: Option<string>, c: Option<char>, kind: Kind)
      requires Apart() && Declarations().Valid() && StoreValid() && !isSet && kind in ALL_KINDS
      requires TablesHold(
        LongEntries() + Added(name, kind, valueCounter),
        CharEntries() + if posixStyle then Added(c, kind, valueCounter) else [])
      modifies this`valueCounter, this`longNames, this`charNames, this`declared
      ensures Valid() && Untouched(old(Arguments()))
      ensures Footprint() == old(Footprint())
      ensures Declarations() == Declared(old(Declarations()), name, c, kind)
    {
      hide EntriesOf, TablesHold, OptionTable.Entries, OptionTable.Valid, OptionTable.Footprint;
      EntriesOfOneMore(longNames, declared, name, kind);
      EntriesOfOneMore(charNames, declared, if posixStyle then c else None, kind);
      valueCounter := valueCounter + 1;
      longNames := longNames + [name];
      charNames := charNames + [if posixStyle then c else None];
      declared := declared + [kind];
    }

    // ----- values -----

    /** Allocates the value slots on first use, if any option is declared. */
    method ValueStoreOK() returns (ok: bool)
      requires Valid()
      modifies this`isSet, this`values
      ensures Valid() && Values() == old(Values())
      ensures ok == isSet == (valueCounter > 0)
      ensures values == old(values) || fresh(values)
    {
      hide LongEntries, CharEntries, EntriesOf;
      if !isSet && valueCounter > 0 {
        values := new Option<string>[valueCounter](_ => None);
        isSet := true;
      }
      return isSet;
    }

    method SetValue(name: string, value: string)
      requires Valid() && isSet
      modifies values
      ensures Valid()
      ensures values[..] == Apply(old(values[..]), WriteTo(longNames, declared, name, value))
    {
      hide EntriesOf, First;
      var k := longs.Find(name, ALL_KINDS);
      FirstEntryIsFirst(longNames, declared, name, ALL_KINDS, k);
      if k < longs.count {
        EntryIsDeclared(longNames, declared, k);
        values[longs.cells[k].slot] := Some(value);
      }
    }

    method SetFlagOn(name: string)
      requires Valid() && isSet
      modifies values
      ensures Valid()
      ensures values[..] == Apply(old(values[..]), WriteTo(longNames, declared, name, TRUE_FLAG))
    {
      SetValue(name, TRUE_FLAG);
    }

    method SetCharValue(c: char, value: string)
      requires Valid() && isSet
      modifies values
      ensures Valid()
      ensures values[..] == Apply(old(values[..]), WriteTo(charNames, declared, c, value))
    {
      hide EntriesOf, First;
      var k := chars.Find(c, ALL_KINDS);
      FirstEntryIsFirst(charNames, declared, c, ALL_KINDS, k);
      if k < chars.count {
        EntryIsDeclared(charNames, declared, k);
        values[chars.cells[k].slot] := Some(value);
      }
    }

    method SetCharFlagOn(c: char)
      requires Valid() && isSet
      modifies values
      ensures Valid()
      ensures values[..] == Apply(old(values[..]), WriteTo(charNames, declared, c, TRUE_FLAG))
    {
      SetCharValue(c, TRUE_FLAG);
    }

    // ----- the command line -----

    /** The position of an option that takes a value, or -1; a flag is set. */
    method MatchOpt(name: string) returns (k: int)
      requires Valid() && isSet
      modifies values
      ensures values[..] == Apply(old(values[..]), Match(longNames, declared, name).writes)
      ensures k >= 0 <==> Match(longNames, declared, name).result
      ensures k >= 0 ==> k < longs.count && longs.cells[k].name == name
    {
      hide WriteTo;
      var j := longs.Find(name, COMMAND_OPTS + COMMAND_FLAGS);
      FirstEntryIsFirst(longNames, declared, name, COMMAND_OPTS + COMMAND_FLAGS, j);
      if j < longs.count {
        EntryIsDeclared(longNames, declared, j);
        if longs.cells[j].kind in COMMAND_OPTS {
          return j;
        }
        SetFlagOn(name);
      }
      return -1;
    }

    method MatchChar(c: char) returns (takesValue: bool)
      requires Valid() && isSet
      modifies values
      ensures values[..] == Apply(old(values[..]), Match(charNames, declared, c).writes)
      ensures takesValue == Match(charNames, declared, c).result
    {
      hide WriteTo;
      var j := chars.Find(c, COMMAND_OPTS + COMMAND_FLAGS);
      FirstEntryIsFirst(charNames, declared, c, COMMAND_OPTS + COMMAND_FLAGS, j);
      if j < chars.count {
        EntryIsDeclared(charNames, declared, j);
        if chars.cells[j].kind in COMMAND_OPTS {
          return true;
        }
        SetCharFlagOn(c);
      }
      return false;
    }

    /** Where the first '=' is, or 0 if there is none. */
    method FindEqualSign(arg: string) returns (splitAt: nat)
      ensures splitAt == if FirstAt(arg, '=') < |arg| then FirstAt(arg, '=') else 0
    {
      splitAt := 0;
      var i := 0;
      while i < |arg|
        invariant i <= |arg|
        invariant splitAt == (if FirstAt(arg, '=') < i then FirstAt(arg, '=') else 0)
        invariant i < |arg| ==> forall j | 0 <= j < i :: arg[j] != '='
      {
        if arg[i] == '=' {
          splitAt := i;
          i := |arg|;
        } else {
          i := i + 1;
        }
      }
    }

    /** The position of an option that waits for the next argument, or -1. */
    method ParseGNU(arg: string) returns (k: int)
      requires Valid() && isSet
      modifies values
      ensures values[..] == Apply(old(values[..]), OptionSpecs.ParseGNU(Declarations(), arg).writes)
      ensures k >= 0 <==> OptionSpecs.ParseGNU(Declarations(), arg).result.Some?
      ensures k >= 0 ==> k < longs.count
      ensures k >= 0 ==> longs.cells[k].name == OptionSpecs.ParseGNU(Declarations(), arg).result.value
    {
      hide Match, WriteTo, StoreValid, TablesHold, LongEntries, CharEntries, Apply, First;
      var splitAt := FindEqualSign(arg);
      if splitAt > 0 {
        var name := arg[..splitAt];
        ApplyNothing(values[..]);
        var m := MatchOpt(name);
        if m >= 0 {
          SetValue(longs.cells[m].name, arg[splitAt + 1..]);
        }
        return -1;
      }
      k := MatchOpt(arg);
    }

    /** The option character that waits for the next argument, or '0'. */
    method ParsePOSIX(arg: string) returns (r: char)
      requires Valid() && isSet
      modifies values
      ensures values[..] == Apply(old(values[..]), OptionSpecs.ParsePOSIX(Declarations(), arg).writes)
      ensures r == match OptionSpecs.ParsePOSIX(Declarations(), arg).result { case Some(c) => c case None => '0' }
      ensures OptionSpecs.ParsePOSIX(Declarations(), arg).result != Some('0')
    {
      hide Match, WriteTo, StoreValid, TablesHold, LongEntries, CharEntries, Apply, First;
      ghost var c, before, done := Declarations(), values[..], [];
      ApplyNothing(before);
      for i := 0 to |arg|
        invariant values[..] == Apply(before, done)
        invariant OptionSpecs.ParsePOSIX(c, arg).writes == done + OptionSpecs.ParsePOSIX(c, arg[i..]).writes
        invariant OptionSpecs.ParsePOSIX(c, arg).result == OptionSpecs.ParsePOSIX(c, arg[i..]).result
      {
        var ch := arg[i];
        assert arg[i..][1..] == arg[i + 1..];
        var takesValue := MatchChar(ch);
        ApplyAppend(before, done, Match(c.chars, c.kinds, ch).writes);
        if takesValue {
          assert done + [] == done;
          if i == |arg| - 1 {
            return ch;
          }
          var j := i + 1;
          while j < |arg| && (arg[j] == ' ' || arg[j] == '=')
            invariant j <= |arg| && SkipSeparators(arg[i + 1..]) == SkipSeparators(arg[j..])
          {
            assert arg[j..][1..] == arg[j + 1..];
            j := j + 1;
          }
          ApplyAppend(before, done, WriteTo(c.chars, c.kinds, ch, arg[j..]));
          SetCharValue(ch, arg[j..]);
          return '0';
        }
        done := done + Match(c.chars, c.kinds, ch).writes;
      }
      assert done + [] == done;
      return '0';
    }

    /** Reads the argument at i, and the next one too when an option waits for it. */
    method ReadArg(i: nat) returns (next: nat, plain: bool)
      requires Valid() && isSet && i < |argv|
      modifies values
      ensures Valid()
      ensures values[..] == Apply(old(values[..]), StepAt(Declarations(), argv, i).writes)
      ensures next == StepAt(Declarations(), argv, i).next && plain == StepAt(Declarations(), argv, i).plain
    {
      hide Match, WriteTo, StoreValid, TablesHold, LongEntries, CharEntries, Apply, First, OptionSpecs.ParseGNU,
        OptionSpecs.ParsePOSIX;
      ghost var before := values[..];
      var a := argv[i];
      next := i + 1;
      if At(a, 0) == '-' && At(a, 1) == '-' {
        next := ReadLong(a[2..], i);
        return next, false;
      }
      if At(a, 0) == '-' {
        if posixStyle {
          next := ReadChars(a[1..], i);
        } else {
          next := ReadLong(a[1..], i);
        }
        return next, false;
      }
      ApplyNothing(before);
      return next, true;
    }

    method ReadLong(arg: string, i: nat) returns (next: nat)
      requires Valid() && isSet && i < |argv|
      modifies values
      ensures values[..] == Apply(old(values[..]),
        Awaited(longNames, declared, OptionSpecs.ParseGNU(Declarations(), arg), argv, i).writes)
      ensures next == Awaited(longNames, declared, OptionSpecs.ParseGNU(Declarations(), arg), argv, i).next
    {
      hide Match, WriteTo, StoreValid, TablesHold, LongEntries, CharEntries, Apply, First, OptionSpecs.ParseGNU;
      ghost var before, o := values[..], OptionSpecs.ParseGNU(Declarations(), arg);
      next := i + 1;
      var matchAt := ParseGNU(arg);
      if matchAt >= 0 && i < |argv| - 1 {
        SetValue(longs.cells[matchAt].name, argv[i + 1]);
        ApplyAppend(before, o.writes, WriteTo(longNames, declared, o.result.value, argv[i + 1]));
        next := i + 2;
      }
    }

    method ReadChars(arg: string, i: nat) returns (next: nat)
      requires Valid() && isSet && i < |argv|
      modifies values
      ensures values[..] == Apply(old(values[..]),
        Awaited(charNames, declared, OptionSpecs.ParsePOSIX(Declarations(), arg), argv, i).writes)
      ensures next == Awaited(charNames, declared, OptionSpecs.ParsePOSIX(Declarations(), arg), argv, i).next
    {
      hide Match, WriteTo, StoreValid, TablesHold, LongEntries, CharEntries, Apply, First, OptionSpecs.ParsePOSIX;
      ghost var before, o := values[..], OptionSpecs.ParsePOSIX(Declarations(), arg);
      next := i + 1;
      var ch := ParsePOSIX(arg);
      if ch != '0' && i < |argv| - 1 {
        SetCharValue(ch, argv[i + 1]);
        ApplyAppend(before, o.writes, WriteTo(charNames, declared, ch, argv[i + 1]));
        next := i + 2;
      }
    }

    /** Forgets the positional arguments of an earlier reading. */
    method ResetArgs()
      requires Valid()
      modifies this`newArgv, this`newArgc, this`maxLegalArgs
      ensures Valid() && fresh(newArgv) && newArgc == 0 && newArgv.Length == maxLegalArgs + 1
      ensures maxLegalArgs == if old(maxLegalArgs) == 0 then |argv| else old(maxLegalArgs)
    {
      hide TablesHold, LongEntries, CharEntries;
      if maxLegalArgs == 0 {
        maxLegalArgs := |argv|;
      }
      newArgc := 0;
      newArgv := new nat[maxLegalArgs + 1];
    }

    /** Records a positional argument while there is room. */
    method RecordArg(i: nat, ghost earlier: seq<nat>)
      requires Valid() && i < |argv| && newArgv.Length == maxLegalArgs + 1
      requires newArgv[..newArgc] == Take(earlier, maxLegalArgs)
      modifies newArgv, this`newArgc
      ensures Valid() && values[..] == old(values[..])
      ensures newArgv[..newArgc] == Take(earlier + [i], maxLegalArgs)
    {
      hide TablesHold, LongEntries, CharEntries;
      assert |Take(earlier, maxLegalArgs)| == newArgc;
      if newArgc < maxLegalArgs {
        newArgv[newArgc] := i;
        newArgc := newArgc + 1;
      }
    }

    /** Reads the arguments into the value slots and keeps the positions of the first legal ones. */
    method ReadCommandArgs()
      requires Valid() && isSet
      modifies values, this`newArgv, this`newArgc, this`maxLegalArgs
      ensures Valid() && fresh(newArgv)
      ensures values[..] == Apply(old(values[..]), CommandWrites(Declarations(), argv, 1))
      ensures maxLegalArgs == if old(maxLegalArgs) == 0 then |argv| else old(maxLegalArgs)
      ensures newArgv[..newArgc] == Take(Positional(Declarations(), argv, 1), maxLegalArgs)
    {
      hide Apart, TablesApart, TablesHold, LongEntries, CharEntries, Config.Valid;
      hide Take, CommandWrites, Positional, StepAt, Apply;
      ResetArgs();
      ghost var c, before, done := Declarations(), values[..], [];
      ghost var all: seq<nat>, legal := [], maxLegalArgs;
      ApplyNothing(before);
      TakeAll(all, maxLegalArgs);
      var i := 1;
      while i < |argv|
        invariant Valid() && fresh(newArgv) && newArgv.Length == maxLegalArgs + 1 && maxLegalArgs == legal
        invariant values[..] == Apply(before, done)
        invariant CommandWrites(c, argv, 1) == done + CommandWrites(c, argv, i)
        invariant Positional(c, argv, 1) == all + Positional(c, argv, i)
        invariant newArgv[..newArgc] == Take(all, maxLegalArgs)
      {
        ghost var step := StepAt(c, argv, i);
        ScanUnfolds(c, argv, i);
        ApplyAppend(before, done, step.writes);
        assert done + (step.writes + CommandWrites(c, argv, step.next)) ==
          (done + step.writes) + CommandWrites(c, argv, step.next);
        var next, plain := ReadArg(i);
        if plain {
          RecordArg(i, all);
          all := all + [i];
        }
        done, i := done + step.writes, next;
      }
      ScanUnfolds(c, argv, i);
      assert done + [] == done && all + [] == all;
    }

    method UseCommandArgs(args: seq<string>)
      requires Valid()
      modifies this`argv, this`commandSet, this`hasOptions, this`newArgc
      ensures Valid() && argv == args && commandSet && newArgc == 0
      ensures hasOptions == (old(hasOptions) || |args| > 1)
      ensures Values() == old(Values()) && Declarations() == old(Declarations())
    {
      hide TablesHold, LongEntries, CharEntries;
      newArgc := 0;
      argv, commandSet := args, true;
      if |args| > 1 {
        hasOptions := true;
      }
    }

    /** Takes up a command line and reads it, forgetting the positional arguments of any earlier one. */
    method ProcessCommandArgs(args: seq<string>)
      requires Valid()
      modifies this`isSet, this`values, values, this`argv, this`commandSet, this`hasOptions
      modifies this`newArgv, this`newArgc, this`maxLegalArgs
      ensures Valid() && argv == args && Declarations() == old(Declarations())
      ensures (values == old(values) || fresh(values)) && (newArgv == old(newArgv) || fresh(newArgv))
      ensures hasOptions == (old(hasOptions) || |args| > 1)
      ensures Values() == Apply(old(Values()), CommandWrites(Declarations(), args, 1))
      ensures valueCounter > 0 ==> PositionalArgs() == Take(Positional(Declarations(), args, 1), maxLegalArgs)
      ensures valueCounter > 0 ==> maxLegalArgs == if old(maxLegalArgs) == 0 then |args| else old(maxLegalArgs)
      ensures isSet == (valueCounter > 0)
    {
      hide Apart, TablesApart, TablesHold, LongEntries, CharEntries, Apply, CommandWrites, Positional, Take;
      var ok := ValueStoreOK();
      UseCommandArgs(args);
      if !ok {
        NothingDeclared(Values(), CommandWrites(Declarations(), args, 1));
        return;
      }
      ReadCommandArgs();
    }

    ghost function PositionalArgs(): seq<nat>
      reads this, longs, chars, Footprint(), newArgv
      requires Valid()
    {
      newArgv[..newArgc]
    }

    // ----- the option file -----

    /** Reads a file, if there is one. */
    method ProcessFile(file: Option<string>) returns (read: bool)
      requires Valid()
      modifies this`isSet, this`values, values
      ensures values == old(values) || fresh(values)
      ensures Valid() && read == (valueCounter > 0 && file.Some?)
      ensures Values() == Apply(old(Values()), if file.Some? then FileWrites(Declarations(), file.value) else [])
    {
      var ok := ValueStoreOK();
      if !ok || file.None? {
        return false;
      }
      ConsumeFile(file.value);
      return true;
    }

    /** Passes on every line that ends in a newline, is not empty and is not a comment. */
    method ConsumeFile(text: string)
      requires Valid() && isSet
      modifies values
      ensures Valid()
      ensures values[..] == Apply(old(values[..]), FileWrites(Declarations(), text))
    {
      hide Apart, TablesApart, TablesHold, LongEntries, CharEntries, Config.Valid, Apply, LineWrites, FileWrites,
        NoNewline;
      ghost var c, before, done, start := Declarations(), values[..], [], 0;
      ApplyNothing(before);
      NoNewlineYet();
      assert text[start..0] == "" && text[start..] == text;
      var line, newline := -1, true;
      for i := 0 to |text|
        invariant Valid()
        invariant values[..] == Apply(before, done)
        invariant start <= i && FileWrites(c, text) == done + FileWrites(c, text[start..])
        invariant newline == (start == i) && NoNewline(text[start..i])
        invariant line == if start < i && text[start] != '#' then start else -1
      {
        NoNewlineGrows(text[start..i], text[i]);
        assert text[start..i + 1] == text[start..i] + [text[i]];
        if text[i] == '\n' {
          assert text[start..][..i - start] == text[start..i] && text[start..][i - start + 1..] == text[i + 1..];
          FileUnfolds(c, text[start..], i - start);
          if line >= 0 {
            ApplyAppend(before, done, LineWrites(c, text[line..i]));
            ProcessLine(text[line..i]);
            done := done + LineWrites(c, text[line..i]);
          }
          start := i + 1;
          assert text[start..i + 1] == "";
          line, newline := -1, true;
        } else if newline {
          newline := false;
          if text[i] != '#' {
            line := i;
          }
        }
      }
      assert text[start..] == text[start..|text|];
      FileEnds(c, text[start..]);
      assert done + [] == done;
    }

    /** A line is a pair when a delimiter stands inside it, and a flag otherwise. */
    method ProcessLine(line: string)
      requires Valid() && isSet && line != ""
      modifies values
      ensures Valid()
      ensures values[..] == Apply(old(values[..]), LineWrites(Declarations(), line))
    {
      hide Apart, TablesApart, TablesHold, LongEntries, CharEntries, Config.Valid, Apply, NamedWrite;
      if line[0] == delimiter || line[|line| - 1] == delimiter {
        JustValue(line);
        return;
      }
      var i := 0;
      while i < |line|
        invariant i <= |line| && forall j | 0 <= j < i :: line[j] != delimiter
      {
        if line[i] == delimiter {
          ValuePair(line[..i], line[i + 1..]);
          return;
        }
        i := i + 1;
      }
      JustValue(line);
    }

    /** Cuts the blanks off the end, and also gives what is left without the blanks at the start. */
    method Chomp(s: string) returns (kept: string, trimmed: string)
      ensures kept == TrimEnd(s) && trimmed == TrimStart(TrimEnd(s))
    {
      var start, end := 0, |s|;
      while start < |s| && s[start] == ' '
        invariant start <= |s| && forall j | 0 <= j < start :: s[j] == ' '
      {
        start := start + 1;
      }
      assert s[..end] == s;
      while end > 0 && s[end - 1] == ' '
        invariant end <= |s| && TrimEnd(s) == TrimEnd(s[..end])
      {
        assert s[..end][..end - 1] == s[..end - 1];
        end := end - 1;
      }
      kept := s[..end];
      trimmed := if start < end then s[start..end] else "";
      TrimStartSkips(kept, if start < end then start else end);
    }

    method ValuePair(name: string, value: string)
      requires Valid() && isSet
      modifies values
      ensures Valid()
      ensures values[..] == Apply(old(values[..]),
        NamedWrite(Declarations(), name, TrimStart(TrimEnd(value)), FILE_OPTS))
    {
      var _, trimmed := Chomp(value);
      SetNamed(name, trimmed, FILE_OPTS);
    }

    method JustValue(name: string)
      requires Valid() && isSet
      modifies values
      ensures Valid()
      ensures values[..] == Apply(old(values[..]), NamedWrite(Declarations(), name, TRUE_FLAG, FILE_FLAGS))
    {
      SetNamed(name, TRUE_FLAG, FILE_FLAGS);
    }

    /** The search that pairs and flags have in common. */
    method SetNamed(text: string, value: string, allowed: set<Kind>)
      requires Valid() && isSet
      modifies values
      ensures Valid()
      ensures values[..] == Apply(old(values[..]), NamedWrite(Declarations(), text, value, allowed))
    {
      hide WriteTo, Apply, First, EntriesOf, StoreValid, LongEntries, CharEntries, TrimStart, TrimEnd;
      ApplyNothing(values[..]);
      var name, trimmed := Chomp(text);
      if |trimmed| == 1 {
        NotTrimmedAway(name);
        var byChar := HasChar(name[0], allowed);
        if byChar {
          SetCharValue(name[0], value);
          return;
        }
      }
      var byName := HasLong(name, allowed);
      if byName {
        SetValue(name, value);
      }
    }

    method HasChar(c: char, allowed: set<Kind>) returns (found: bool)
      requires Valid()
      ensures found == (First(charNames, declared, c, allowed) < |declared|)
    {
      var k := chars.Find(c, allowed);
      FirstEntryIsFirst(charNames, declared, c, allowed, k);
      if k < chars.count {
        EntryIsDeclared(charNames, declared, k);
      }
      return k < chars.count;
    }

    method HasLong(name: string, allowed: set<Kind>) returns (found: bool)
      requires Valid()
      ensures found == (First(longNames, declared, name, allowed) < |declared|)
    {
      var k := longs.Find(name, allowed);
      FirstEntryIsFirst(longNames, declared, name, allowed, k);
      if k < longs.count {
        EntryIsDeclared(longNames, declared, k);
      }
      return k < longs.count;
    }

    // ----- looking values up -----

    method GetValue(name: string) returns (value: Option<string>)
      requires Valid()
      modifies this`isSet, this`values
      ensures Valid() && Values() == old(Values()) && (values == old(values) || fresh(values))
      ensures value == Lookup(longNames, declared, name, Values())
    {
      hide EntriesOf, First;
      var ok := ValueStoreOK();
      var k := longs.Find(name, ALL_KINDS);
      FirstEntryIsFirst(longNames, declared, name, ALL_KINDS, k);
      if !ok || k == longs.count {
        return None;
      }
      EntryIsDeclared(longNames, declared, k);
      return values[longs.cells[k].slot];
    }

    method GetCharValue(c: char) returns (value: Option<string>)
      requires Valid()
      modifies this`isSet, this`values
      ensures Valid() && Values() == old(Values()) && (values == old(values) || fresh(values))
      ensures value == Lookup(charNames, declared, c, Values())
    {
      hide EntriesOf, First;
      var ok := ValueStoreOK();
      var k := chars.Find(c, ALL_KINDS);
      FirstEntryIsFirst(charNames, declared, c, ALL_KINDS, k);
      if !ok || k == chars.count {
        return None;
      }
      EntryIsDeclared(charNames, declared, k);
      return values[chars.cells[k].slot];
    }

    /** A flag is on when its slot holds the word for true, however it got there. */
    method GetFlag(name: string) returns (on: bool)
      requires Valid()
      modifies this`isSet, this`values
      ensures Valid() && Values() == old(Values()) && (values == old(values) || fresh(values))
      ensures on == (Lookup(longNames, declared, name, Values()) == Some(TRUE_FLAG))
    {
      var value := GetValue(name);
      return value == Some(TRUE_FLAG);
    }

    method GetCharFlag(c: char) returns (on: bool)
      requires Valid()
      modifies this`isSet, this`values
      ensures Valid() && Values() == old(Values()) && (values == old(values) || fresh(values))
      ensures on == (Lookup(charNames, declared, c, Values()) == Some(TRUE_FLAG))
    {
      var value := GetCharValue(c);
      return value == Some(TRUE_FLAG);
    }

    /** The positional argument with the given number, if there are that many. */
    method GetArgv(index: nat) returns (arg: Option<string>)
      requires Valid()
      ensures arg == if index < |PositionalArgs()| then Some(argv[PositionalArgs()[index]]) else None
    {
      return if index < newArgc then Some(argv[newArgv[index]]) else None;
    }
  }
}
