/**
 The flags of Google Mock on the command line: recognising them, and removing them from the argument array
 in place.
 */
module GoogleMockFlags {
  import opened Options
  import opened Text

  // ----- one argument -----

  const PREFIX := "--gmock_"
  const CATCH_LEAKED_MOCKS := "catch_leaked_mocks"
  const VERBOSE := "verbose"
  const DEFAULT_MOCK_BEHAVIOR := "default_mock_behavior"

  /** The text after the flag and its equal sign; an optional value may be left out together with the sign. */
  function FlagValue(arg: string, flag: string, optional: bool): Option<string> {
    var name := PREFIX + flag;
    if !(name <= arg) then None
    else if optional && |arg| == |name| then Some("")
    else if |arg| == |name| || arg[|name|] != '=' then None
    else Some(arg[|name| + 1..])
  }

  /** An argument gives a value exactly in the documented forms. */
  lemma FlagValueForms(arg: string, flag: string, optional: bool, value: string)
    ensures FlagValue(arg, flag, optional) == Some(value) <==>
      arg == PREFIX + flag + "=" + value || (optional && value == "" && arg == PREFIX + flag)
  {
  }

  // ----- numbers -----

  predicate IsSpace(c: char) { c == ' ' || '\t' <= c <= '\r' }

  function SkipSpaces(s: string): string {
    if s != "" && IsSpace(s[0]) then SkipSpaces(s[1..]) else s
  }

  /** The whole text as a number, if it is one; the empty text counts as zero. */
  function WholeNumber(s: string): Option<int> {
    var t := SkipSpaces(s);
    var sign := t != "" && (t[0] == '-' || t[0] == '+');
    var digits := if sign then t[1..] else t;
    if s == "" then Some(0)
    else if digits == "" || !IsDigits(digits) then None
    else if sign && t[0] == '-' then Some(0 - Value(digits))
    else Some(Value(digits))
  }

  const INT32_MIN: int := -0x8000_0000
  const INT32_MAX: int := 0x7fff_ffff

  function ParseInt32(s: string): Option<int> {
    var n := WholeNumber(s);
    if n.Some? && INT32_MIN <= n.value <= INT32_MAX then n else None
  }

  function PrintedInt(n: int): string {
    if n < 0 then "-" + Digits(-n) else Digits(n)
  }

  /** Blank, tabs and the characters that end lines or pages. */
  const SPACES := " \t\n\U{000B}\U{000C}\r"

  ghost predicate IsSpaces(s: string) {
    forall k | 0 <= k < |s| :: s[k] in SPACES
  }

  lemma {:induction false} SpacesAreSkipped(spaces: string, s: string)
    requires IsSpaces(spaces) && (s != "" ==> s[0] !in SPACES)
    ensures SkipSpaces(spaces + s) == s
  {
    if spaces == "" {
      assert spaces + s == s;
    } else {
      assert (spaces + s)[1..] == spaces[1..] + s;
      SpacesAreSkipped(spaces[1..], s);
    }
  }

  lemma FirstIsNoSpace(sign: string, digits: string)
    requires sign in {"", "+", "-"} && digits != "" && IsDigits(digits)
    ensures sign + digits != "" && (sign + digits)[0] !in SPACES
  {
    assert (sign + digits)[0] == if sign == "" then digits[0] else sign[0];
  }

  /** Blank space, a sign and digits are read as the number whose decimal places the digits show. */
  lemma NumberIsRead(spaces: string, sign: string, digits: string) returns (n: int)
    requires IsSpaces(spaces) && sign in {"", "+", "-"} && digits != "" && IsDigits(digits)
    ensures n == Value(digits) && ShowsPlaces(digits, n)
    ensures WholeNumber(spaces + sign + digits) == Some(if sign == "-" then 0 - n else n)
  {
    hide Value, ShowsPlaces, IsSpaces, SkipSpaces, IsDigits;
    n := Value(digits);
    ValueShowsPlaces(digits);
    assert spaces + sign + digits == spaces + (sign + digits);
    FirstIsNoSpace(sign, digits);
    SpacesAreSkipped(spaces, sign + digits);
    SignedDigits(sign, digits);
  }

  lemma SignedDigits(sign: string, digits: string)
    requires sign in {"", "+", "-"} && digits != "" && IsDigits(digits)
    ensures var t := sign + digits;
      var signed := t[0] == '-' || t[0] == '+';
      signed == (sign != "") && (if signed then t[1..] else t) == digits && (signed && t[0] == '-' <==> sign == "-")
  {
    if sign == "" {
      assert sign + digits == digits;
    }
  }

  lemma {:induction false} SkippedAreSpaces(s: string) returns (spaces: string)
    ensures s == spaces + SkipSpaces(s) && IsSpaces(spaces)
  {
    if s != "" && IsSpace(s[0]) {
      spaces := SkippedAreSpaces(s[1..]);
      spaces := [s[0]] + spaces;
    } else {
      spaces := "";
    }
  }

  /** Nothing else but the empty text is read as a number. */
  lemma OnlyNumbersAreRead(s: string) returns (spaces: string, sign: string, digits: string)
    requires WholeNumber(s).Some? && s != ""
    ensures IsSpaces(spaces) && sign in {"", "+", "-"} && digits != "" && IsDigits(digits)
    ensures s == spaces + sign + digits
  {
    hide IsSpaces, SkipSpaces, IsDigits, Value;
    spaces := SkippedAreSpaces(s);
    var t := SkipSpaces(s);
    var signed := t != "" && (t[0] == '-' || t[0] == '+');
    sign, digits := if signed then [t[0]] else "", if signed then t[1..] else t;
    assert t == sign + digits;
  }

  /** A printed number is read back exactly when it fits in 32 bits. */
  lemma PrintedIntReadsBack(n: int)
    ensures ParseInt32(PrintedInt(n)) == if -2147483648 <= n <= 2147483647 then Some(n) else None
  {
    hide WholeNumber, Value, Digits;
    var digits, sign := Digits(if n < 0 then -n else n), if n < 0 then "-" else "";
    ValueOfDigits(if n < 0 then -n else n);
    var v := NumberIsRead("", sign, digits);
    assert "" + sign + digits == PrintedInt(n);
  }

  // ----- the flags -----

  datatype Flags = Flags(catchLeakedMocks: bool, verbose: string, defaultMockBehavior: int)

  function CatchValue(arg: string): Option<bool> {
    var v := FlagValue(arg, CATCH_LEAKED_MOCKS, true);
    if v.None? then None
    else Some(!(v.value != "" && (v.value[0] == '0' || v.value[0] == 'f' || v.value[0] == 'F')))
  }

  /** The flag for leaked mocks is turned off exactly by values that start with 0, f or F. */
  lemma CatchValueForms(arg: string)
    ensures
      var name := "--gmock_catch_leaked_mocks";
      var off := name + "=0" <= arg || name + "=f" <= arg || name + "=F" <= arg;
      CatchValue(arg) ==
        if off then Some(false)
        else if arg == name || name + "=" <= arg then Some(true)
        else None
  {
    var name := "--gmock_catch_leaked_mocks";
    assert name == PREFIX + CATCH_LEAKED_MOCKS;
    if name + "=" <= arg {
      StartsWith(arg, name + "=", '0');
      StartsWith(arg, name + "=", 'f');
      StartsWith(arg, name + "=", 'F');
    }
  }

  lemma StartsWith(arg: string, name: string, c: char)
    requires name <= arg
    ensures name + [c] <= arg <==> |arg| > |name| && arg[|name|] == c
  {
  }

  function VerboseValue(arg: string): Option<string> {
    FlagValue(arg, VERBOSE, false)
  }

  function BehaviorValue(arg: string): Option<int> {
    var v := FlagValue(arg, DEFAULT_MOCK_BEHAVIOR, true);
    if v.None? then None else ParseInt32(v.value)
  }

  lemma VerboseValueForms(arg: string, value: string)
    ensures VerboseValue(arg) == Some(value) <==> arg == "--gmock_verbose=" + value
  {
    assert "--gmock_verbose" == PREFIX + VERBOSE;
    FlagValueForms(arg, VERBOSE, false, value);
  }

  /** The default behaviour without a value is zero; with a value it is that number, if it is one. */
  lemma BareBehaviorIsZero(value: string)
    ensures BehaviorValue("--gmock_default_mock_behavior") == Some(0)
    ensures BehaviorValue("--gmock_default_mock_behavior=" + value) == ParseInt32(value)
  {
    hide WholeNumber;
    EmptyIsZero();
    var name := "--gmock_default_mock_behavior";
    assert name == PREFIX + DEFAULT_MOCK_BEHAVIOR && name + "=" + value == "--gmock_default_mock_behavior=" + value;
    FlagValueForms(name, DEFAULT_MOCK_BEHAVIOR, true, "");
    FlagValueForms(name + "=" + value, DEFAULT_MOCK_BEHAVIOR, true, value);
  }

  lemma EmptyIsZero()
    ensures WholeNumber("") == Some(0)
  {
  }

  predicate Recognised(arg: string) {
    CatchValue(arg).Some? || VerboseValue(arg).Some? || BehaviorValue(arg).Some?
  }

  /** No argument is two flags at once, so the order in which they are tried does not matter. */
  lemma FlagsExclude(arg: string)
    ensures CatchValue(arg).Some? ==> VerboseValue(arg).None? && BehaviorValue(arg).None?
    ensures VerboseValue(arg).Some? ==> BehaviorValue(arg).None?
  {
    var i := |PREFIX|;
    assert (PREFIX + CATCH_LEAKED_MOCKS)[i] == 'c';
    assert (PREFIX + VERBOSE)[i] == 'v';
    assert (PREFIX + DEFAULT_MOCK_BEHAVIOR)[i] == 'd';
  }

  /** The last value among the arguments, for any way of reading one. */
  function LastValue<T>(read: string -> Option<T>, args: seq<string>): Option<T> {
    if args == [] then None
    else if read(args[|args| - 1]).Some? then read(args[|args| - 1])
    else LastValue(read, args[..|args| - 1])
  }

  /** The flags after the arguments: each one has its last value. */
  function FlagsAfter(f: Flags, args: seq<string>): Flags {
    Flags(
      GetOr(LastValue(CatchValue, args), f.catchLeakedMocks),
      GetOr(LastValue(VerboseValue, args), f.verbose),
      GetOr(LastValue(BehaviorValue, args), f.defaultMockBehavior))
  }

  // ----- the argument array -----

  /** The arguments that are not recognised, in order. */
  function Unrecognised(args: seq<string>): (r: seq<string>)
    ensures |r| <= |args|
    ensures forall a <- r :: !Recognised(a)
  {
    if args == [] then []
    else
      var a := args[|args| - 1];
      Unrecognised(args[..|args| - 1]) + if Recognised(a) then [] else [a]
  }

  /** The program name always stays. */
  function Kept(args: seq<string>): (r: seq<string>)
    ensures |r| <= |args|
  {
    if args == [] then [] else [args[0]] + Unrecognised(args[1..])
  }

  function Pointers(args: seq<string>): (r: seq<Option<string>>)
    ensures |r| == |args| && forall k | 0 <= k < |args| :: r[k] == Some(args[k])
  {
    seq(|args|, k requires 0 <= k < |args| => Some(args[k]))
  }

  /** An argument array: the arguments kept so far, those still to come, nulls, and what lies beyond. */
  ghost function Cells(kept: seq<string>, coming: seq<string>, nulls: nat,
      beyond: seq<Option<string>>)
    : (r: seq<Option<string>>)
    ensures |r| == |kept| + |coming| + nulls + |beyond|
  {
    Pointers(kept + coming) + Missing(nulls) + beyond
  }

  /** Keeping the next argument moves nothing. */
  lemma NextIsKept(kept: seq<string>, coming: seq<string>, nulls: nat, beyond: seq<Option<string>>)
    requires coming != []
    ensures Cells(kept, coming, nulls, beyond) == Cells(kept + [coming[0]], coming[1..], nulls, beyond)
    ensures Cells(kept, coming, nulls, beyond)[|kept|] == Some(coming[0])
  {
  }

  /** Cell i is overwritten by what follows it, up to and including the cell at n. */
  function Shifted<T>(s: seq<T>, i: nat, n: nat): seq<T>
    requires i <= n < |s|
  {
    s[..i] + s[i + 1..n + 1] + s[n..]
  }

  /** Shifting the next argument out leaves one more null. */
  lemma NextIsRemoved(kept: seq<string>, coming: seq<string>, nulls: nat, beyond: seq<Option<string>>)
    requires coming != [] && nulls > 0
    ensures Shifted(Cells(kept, coming, nulls, beyond), |kept|, |kept| + |coming|) ==
      Cells(kept, coming[1..], nulls + 1, beyond)
  {
  }

  class GoogleMock {
    var catchLeakedMocks: bool
    var verbose: string
    var defaultMockBehavior: int

    function Values(): Flags
      reads this
    {
      Flags(catchLeakedMocks, verbose, defaultMockBehavior)
    }

    constructor ()
      ensures Values() == Flags(true, "warning", 1)
    {
      catchLeakedMocks, verbose, defaultMockBehavior := true, "warning", 1;
    }

    method ParseBoolFlag(arg: string) returns (ok: bool)
      modifies this`catchLeakedMocks
      ensures ok == CatchValue(arg).Some?
      ensures catchLeakedMocks == GetOr(CatchValue(arg), old(catchLeakedMocks))
    {
      var v := FlagValue(arg, CATCH_LEAKED_MOCKS, true);
      if v.None? {
        return false;
      }
      catchLeakedMocks := !(v.value != "" && (v.value[0] == '0' || v.value[0] == 'f' || v.value[0] == 'F'));
      return true;
    }

    method ParseStringFlag(arg: string) returns (ok: bool)
      modifies this`verbose
      ensures ok == VerboseValue(arg).Some?
      ensures verbose == GetOr(VerboseValue(arg), old(verbose))
    {
      var v := FlagValue(arg, VERBOSE, false);
      if v.None? {
        return false;
      }
      verbose := v.value;
      return true;
    }

    method ParseIntFlag(arg: string) returns (ok: bool)
      modifies this`defaultMockBehavior
      ensures ok == BehaviorValue(arg).Some?
      ensures defaultMockBehavior == GetOr(BehaviorValue(arg), old(defaultMockBehavior))
    {
      var v := FlagValue(arg, DEFAULT_MOCK_BEHAVIOR, true);
      if v.None? {
        return false;
      }
      var n := ParseInt32(v.value);
      if n.Some? {
        defaultMockBehavior := n.value;
      }
      return n.Some?;
    }

    /** Tries the three flags in turn and stops at the first that takes the argument. */
    method TakeFlag(arg: string) returns (ok: bool)
      modifies this
      ensures ok == Recognised(arg)
      ensures Values() == FlagsAfter(old(Values()), [arg])
    {
      hide CatchValue, VerboseValue, BehaviorValue;
      FlagsExclude(arg);
      OneArgument(Values(), arg);
      ok := ParseBoolFlag(arg);
      if !ok {
        ok := ParseStringFlag(arg);
      }
      if !ok {
        ok := ParseIntFlag(arg);
      }
    }

    /** Leaves the unrecognised arguments, closed up, with nulls after them. */
    method Init(argv: array<Option<string>>, argc: nat, ghost args: seq<string>, ghost beyond: seq<Option<string>>)
      returns (count: nat)
      requires argc == |args| && argv[..] == Cells([], args, 1, beyond)
      modifies this, argv
      ensures count == |Kept(args)|
      ensures argv[..] == Cells(Kept(args), [], 1 + argc - count, beyond)
      ensures Values() == FlagsAfter(old(Values()), if args == [] then [] else args[1..])
    {
      hide Recognised, FlagsAfter, Unrecognised, Kept, Cells, Shifted;
      KeptFirst(Values(), args);
      count := argc;
      if argc == 0 {
        return;
      }
      ghost var kept, p := [args[0]], 1;
      NextIsKept([], args, 1, beyond);
      assert [] + [args[0]] == kept;
      var i := 1;
      while i != count
        invariant 1 <= i <= count <= argc && p == i + argc - count && i == |kept|
        invariant kept == Kept(args[..p]) && Values() == FlagsAfter(old(Values()), args[1..p])
        invariant argv[..] == Cells(kept, args[p..], 1 + argc - count, beyond)
        decreases count - i
      {
        NextIsKept(kept, args[p..], 1 + argc - count, beyond);
        NextIsRemoved(kept, args[p..], 1 + argc - count, beyond);
        OneMore(old(Values()), args, p);
        assert argv[..][i] == Some(args[p]);
        var arg := argv[i].value;
        var ok := TakeFlag(arg);
        p := p + 1;
        if ok {
          ShiftLeft(argv, i, count);
          count := count - 1;
        } else {
          kept := kept + [arg];
          i := i + 1;
        }
      }
      assert args[..argc] == args && args[argc..] == [];
    }
  }

  /** Moves the cells from i + 1 to n one place to the left. */
  method ShiftLeft<T>(argv: array<T>, i: nat, n: nat)
    requires i <= n < argv.Length
    modifies argv
    ensures argv[..] == Shifted(old(argv[..]), i, n)
  {
    var j := i;
    while j != n
      invariant i <= j <= n
      invariant forall k | 0 <= k < argv.Length :: argv[k] == old(argv[if i <= k < j then k + 1 else k])
    {
      argv[j] := argv[j + 1];
      j := j + 1;
    }
  }

  lemma KeptFirst(f: Flags, args: seq<string>)
    ensures Kept([]) == [] && FlagsAfter(f, []) == f
    ensures args != [] ==> Kept(args[..1]) == [args[0]] && FlagsAfter(f, args[1..1]) == f
  {
  }

  lemma OneMore(f: Flags, args: seq<string>, p: nat)
    requires 0 < p < |args|
    ensures Kept(args[..p + 1]) == Kept(args[..p]) + if Recognised(args[p]) then [] else [args[p]]
    ensures FlagsAfter(f, args[1..p + 1]) == FlagsAfter(FlagsAfter(f, args[1..p]), [args[p]])
  {
    hide CatchValue, VerboseValue, BehaviorValue, Recognised;
    var earlier, arg := args[1..p], args[p];
    assert args[..p + 1][1..] == earlier + [arg] && args[..p][1..] == earlier && args[1..p + 1] == earlier + [arg];
    assert (earlier + [arg])[..|earlier|] == earlier;
    OneArgument(FlagsAfter(f, earlier), arg);
  }

  /** A second call finds nothing more to remove and sets no flag. */
  lemma InitIsIdempotent(f: Flags, args: seq<string>)
    requires args != []
    ensures Kept(Kept(args)) == Kept(args) && FlagsAfter(f, Kept(args)[1..]) == f
  {
    hide Recognised;
    var rest := Unrecognised(args[1..]);
    assert Kept(args)[1..] == rest;
    NothingToRemove(f, rest);
  }

  lemma NothingToRemove(f: Flags, args: seq<string>)
    requires forall a <- args :: !Recognised(a)
    ensures Unrecognised(args) == args && FlagsAfter(f, args) == f
  {
    hide CatchValue, VerboseValue, BehaviorValue, LastValue;
    AllAreKept(args);
    NoValue(CatchValue, args);
    NoValue(VerboseValue, args);
    NoValue(BehaviorValue, args);
  }

  lemma {:induction false} AllAreKept(args: seq<string>)
    requires forall a <- args :: !Recognised(a)
    ensures Unrecognised(args) == args
  {
    hide Recognised;
    if args != [] {
      assert args[|args| - 1] in args && args == args[..|args| - 1] + [args[|args| - 1]];
      AllAreKept(args[..|args| - 1]);
    }
  }

  lemma {:induction false} NoValue<T>(read: string -> Option<T>, args: seq<string>)
    requires forall a <- args :: read(a).None?
    ensures LastValue(read, args) == None
  {
    if args != [] {
      assert args[|args| - 1] in args;
      NoValue(read, args[..|args| - 1]);
    }
  }

  lemma OneArgument(f: Flags, arg: string)
    ensures FlagsAfter(f, [arg]) == Flags(
      GetOr(CatchValue(arg), f.catchLeakedMocks), GetOr(VerboseValue(arg), f.verbose),
      GetOr(BehaviorValue(arg), f.defaultMockBehavior))
  {
    hide CatchValue, VerboseValue, BehaviorValue;
    OneValue(CatchValue, arg);
    OneValue(VerboseValue, arg);
    OneValue(BehaviorValue, arg);
  }

  lemma OneValue<T>(read: string -> Option<T>, arg: string)
    ensures LastValue(read, [arg]) == read(arg)
  {
  }
}
