/** The command-line option registry `SE_Options`: options are declared
    with `AddOption`, then `ParseArgs` reads the program arguments, marks
    the options it meets and collects their arguments. The registry is a
    value here; every operation that changes it returns the new registry. */
module Options {
  import opened Optional
  import Paths

  type NonEmptyString = s: string | |s| > 0 witness "-"

  /** The prefix that marks an option on the command line. */
  const OPT_PREFIX: NonEmptyString

  /** Options of the graphics library that may be given on the same
      command line; they are not reported as unknown. */
  const OSG_ARGS: seq<string> := [
    "--clear-color", "--screen", "--window", "--borderless-window", "--SingleThreaded",
    "--CullDrawThreadPerContext", "--SingleThreaded", "--DrawThreadPerContext",
    "--CullThreadPerCameraDrawThreadPerContext", "--lodScale"]

  /** `SE_Option`: its name (without the prefix), description, the name of
      its argument (empty when it takes none), the default argument (empty
      when there is none), whether it was given, and the arguments
      collected for it. */
  datatype Opt = Opt(name: string, desc: string, arg: string, defaultValue: string,
                     isSet: bool, argValues: seq<string>)

  /** `SE_Options`. */
  datatype Registry = Registry(appName: string, options: seq<Opt>,
                               originalArgs: seq<string>, unknownArgs: seq<string>)

  /** The source's `int`. */
  type int32 = x: int | -0x8000_0000 <= x < 0x8000_0000

  predicate StartsWith(s: string, prefix: string) {
    prefix <= s
  }

  /** Two options declared alike: everything but the parse state agrees. */
  predicate SameDecl(a: Opt, b: Opt) {
    a.name == b.name && a.desc == b.desc && a.arg == b.arg && a.defaultValue == b.defaultValue
  }

  /** `AddOption`: a new, unset option at the end of the list. The source's
      three-argument overload has no default. */
  function AddOption(reg: Registry, name: string, desc: string, arg: string, defaultValue: string): (r: Registry)
    ensures |r.options| == |reg.options| + 1 && r.options[..|reg.options|] == reg.options
    ensures var o := r.options[|reg.options|];
            o.name == name && o.desc == desc && o.arg == arg && o.defaultValue == defaultValue
            && !o.isSet && o.argValues == []
    ensures r.appName == reg.appName && r.originalArgs == reg.originalArgs && r.unknownArgs == reg.unknownArgs
  {
    reg.(options := reg.options + [Opt(name, desc, arg, defaultValue, false, [])])
  }

  /** `GetOption`: the index of the first option with the given name, or
      `None` for the null pointer. */
  function GetOption(options: seq<Opt>, name: string): (r: Option<nat>)
    ensures r.Some? ==> r.value < |options| && options[r.value].name == name
    ensures r.Some? ==> forall j :: 0 <= j < r.value ==> options[j].name != name
    ensures r.None? <==> forall j :: 0 <= j < |options| ==> options[j].name != name
  {
    if |options| == 0 then None
    else if options[0].name == name then Some(0)
    else
      match GetOption(options[1..], name)
      case None => None
      case Some(k) => Some(k + 1)
  }

  /** Lookup depends only on the declarations, not on the parse state. */
  lemma {:induction false} GetOptionSameDecl(a: seq<Opt>, b: seq<Opt>, name: string)
    requires |a| == |b| && forall k :: 0 <= k < |a| ==> SameDecl(a[k], b[k])
    ensures GetOption(a, name) == GetOption(b, name)
    decreases |a|
  {
    if |a| > 0 && a[0].name != name {
      GetOptionSameDecl(a[1..], b[1..], name);
    }
  }

  /** A second option of the same name is never found: the first one
      shadows it. */
  lemma AddedOptionFound(reg: Registry, name: string, desc: string, arg: string, defaultValue: string)
    ensures var r := AddOption(reg, name, desc, arg, defaultValue);
            GetOption(r.options, name) ==
              if GetOption(reg.options, name).Some? then GetOption(reg.options, name)
              else Some(|reg.options|)
  {
    var r := AddOption(reg, name, desc, arg, defaultValue);
    var g := GetOption(r.options, name);
    if g.Some? && g.value < |reg.options| {
      assert reg.options[g.value] == r.options[g.value];
    }
    var h := GetOption(reg.options, name);
    if h.Some? {
      assert r.options[h.value] == reg.options[h.value];
    }
  }

  /** `GetOptionSet`: whether the named option exists and was given. */
  function GetOptionSet(reg: Registry, name: string): (r: bool)
    ensures r <==> exists k :: 0 <= k < |reg.options| && reg.options[k].name == name && reg.options[k].isSet
                                 && forall j :: 0 <= j < k ==> reg.options[j].name != name
  {
    match GetOption(reg.options, name)
    case None => false
    case Some(k) => reg.options[k].isSet
  }

  /** `IsOptionArgumentSet`: the source dereferences the lookup without a
      check, so the option must exist. */
  function IsOptionArgumentSet(reg: Registry, name: string): (r: bool)
    requires GetOption(reg.options, name).Some?
    ensures r == GetOptionSet(reg, name)
  {
    reg.options[GetOption(reg.options, name).value].isSet
  }

  /** The index as the source compares it: cast to a 32-bit unsigned
      value, so a negative index becomes a huge one. */
  function Unsigned(index: int32): (r: nat)
    ensures 0 <= index ==> r == index
    ensures index < 0 ==> r == index + 0x1_0000_0000 && r >= 0x8000_0000
  {
    index % 0x1_0000_0000
  }

  /** `GetOptionArg`: the `index`-th argument collected for the named
      option, or empty when the option is unknown, takes no argument, or
      has no such argument. A non-empty result is one of the option's
      arguments; a negative index wraps to a huge one, so it finds nothing
      in any list of realistic length. */
  function GetOptionArg(reg: Registry, name: string, index: int32): (r: string)
    ensures r != "" ==> GetOption(reg.options, name).Some?
                        && reg.options[GetOption(reg.options, name).value].arg != ""
                        && Unsigned(index) < |reg.options[GetOption(reg.options, name).value].argValues|
                        && r == reg.options[GetOption(reg.options, name).value].argValues[Unsigned(index)]
    ensures forall k :: (GetOption(reg.options, name) == Some(k) && reg.options[k].arg != ""
                         && 0 <= index < |reg.options[k].argValues|) ==> r == reg.options[k].argValues[index]
    ensures index < 0 && r != "" ==> GetOption(reg.options, name).Some?
                                     && |reg.options[GetOption(reg.options, name).value].argValues| > 0x8000_0000
  {
    match GetOption(reg.options, name)
    case None => ""
    case Some(k) =>
      var o := reg.options[k];
      if o.arg != "" && Unsigned(index) < |o.argValues| then o.argValues[Unsigned(index)] else ""
  }

  /** `ChangeOptionArg`: replaces the `index`-th argument of the named
      option and returns 0, or returns -1 and changes nothing when the
      option is unknown or has no such argument. */
  function ChangeOptionArg(reg: Registry, name: string, newValue: string, index: int32): (r: (int, Registry))
    ensures r.0 == -1 <==> GetOption(reg.options, name).None? || index < 0
                           || index >= |reg.options[GetOption(reg.options, name).value].argValues|
    ensures r.0 == -1 ==> r.1 == reg
    ensures r.0 != -1 ==> r.0 == 0
    ensures r.0 == 0 ==>
              var k := GetOption(reg.options, name).value;
              r.1 == reg.(options := reg.options[k := reg.options[k].(argValues := reg.options[k].argValues[index := newValue])])
  {
    match GetOption(reg.options, name)
    case None => (-1, reg)
    case Some(k) =>
      var o := reg.options[k];
      if index < 0 || index >= |o.argValues| then (-1, reg)
      else (0, reg.(options := reg.options[k := o.(argValues := o.argValues[index := newValue])]))
  }

  /** A changed argument reads back as the new value when the option takes
      an argument, and the option's other arguments and every other option
      are as they were. */
  lemma ChangeThenGet(reg: Registry, name: string, newValue: string, index: int32, other: int32)
    requires ChangeOptionArg(reg, name, newValue, index).0 == 0
    ensures var r := ChangeOptionArg(reg, name, newValue, index).1;
            var k := GetOption(reg.options, name).value;
            GetOption(r.options, name) == Some(k)
            && (reg.options[k].arg != "" ==> GetOptionArg(r, name, index) == newValue)
            && (Unsigned(other) != index ==> GetOptionArg(r, name, other) == GetOptionArg(reg, name, other))
  {
    var r := ChangeOptionArg(reg, name, newValue, index).1;
    var k := GetOption(reg.options, name).value;
    GetOptionSameDecl(reg.options, r.options, name);
  }

  /** `IsInOriginalArgs`: whether the exact string was among the program
      arguments. */
  function IsInOriginalArgs(reg: Registry, arg: string): (r: bool)
    ensures r <==> exists k :: 0 <= k < |reg.originalArgs| && reg.originalArgs[k] == arg
  {
    arg in reg.originalArgs
  }

  /** `HasUnknownArgs`. */
  function HasUnknownArgs(reg: Registry): (r: bool)
    ensures r <==> |reg.unknownArgs| > 0
  {
    reg.unknownArgs != []
  }

  /** `Reset`: every option and every recorded argument is dropped. The
      source leaves the list of unknown arguments and the program name as
      they were. */
  function Reset(reg: Registry): (r: Registry)
    ensures forall name :: GetOption(r.options, name).None?
    ensures forall arg :: !IsInOriginalArgs(r, arg)
    ensures r.unknownArgs == reg.unknownArgs && r.appName == reg.appName
  {
    Registry(reg.appName, [], [], reg.unknownArgs)
  }

  /** The result of `ParseArgs`: its return value and the registry. */
  datatype Parsed = Parsed(code: int, reg: Registry)

  /** Replaces option `k`. */
  function SetOpt(reg: Registry, k: nat, o: Opt): Registry
    requires k < |reg.options|
  {
    reg.(options := reg.options[k := o])
  }

  /** A value an option may have collected while the arguments from
      position `i` on were parsed: its non-empty default, or a later
      argument that does not start with `--`. */
  ghost predicate Supplied(argv: seq<string>, i: nat, v: string, o: Opt) {
    (v == o.defaultValue && v != "")
    || exists j :: i < j < |argv| && argv[j] == v && !StartsWith(v, "--")
  }

  /** The declarations are kept, and every option's arguments only grow,
      by supplied values. */
  ghost predicate OptionsEvolved(before: seq<Opt>, after: seq<Opt>, argv: seq<string>, i: nat) {
    |before| == |after|
    && forall k :: 0 <= k < |before| ==>
         SameDecl(before[k], after[k]) && before[k].argValues <= after[k].argValues
         && forall n :: |before[k].argValues| <= n < |after[k].argValues| ==>
              Supplied(argv, i, after[k].argValues[n], before[k])
  }

  /** An argument that carries the prefix, names no option, and is no
      graphics-library option. */
  predicate UnknownToken(options: seq<Opt>, a: string) {
    StartsWith(a, OPT_PREFIX) && GetOption(options, a[|OPT_PREFIX|..]).None? && a !in OSG_ARGS
  }

  /** An argument that carries the prefix and names option `k`. */
  predicate Names(options: seq<Opt>, a: string, k: nat) {
    StartsWith(a, OPT_PREFIX) && GetOption(options, a[|OPT_PREFIX|..]) == Some(k)
  }

  /** No value follows position `i`: it is the last argument, or the next
      one starts with `--`. */
  predicate NoNextValue(argv: seq<string>, i: nat)
    requires i < |argv|
  {
    i + 1 == |argv| || StartsWith(argv[i + 1], "--")
  }

  /** A token reported as unknown: such an argument at or after
      position `i`. */
  ghost predicate Unknown(options: seq<Opt>, argv: seq<string>, i: nat, u: string) {
    UnknownToken(options, u) && exists j :: i <= j < |argv| && argv[j] == u
  }

  ghost predicate UnknownsEvolved(before: Registry, after: Registry, argv: seq<string>, i: nat) {
    before.unknownArgs <= after.unknownArgs
    && forall n :: |before.unknownArgs| <= n < |after.unknownArgs| ==>
         Unknown(before.options, argv, i, after.unknownArgs[n])
  }

  /** The named option exists, takes an argument and has no default. */
  predicate NeedsArgument(options: seq<Opt>, name: string) {
    match GetOption(options, name)
    case None => false
    case Some(k) => options[k].arg != "" && options[k].defaultValue == ""
  }

  /** Some argument at or after position `i` names an option that needs
      an argument. */
  ghost predicate MayMissArgument(options: seq<Opt>, argv: seq<string>, i: nat) {
    exists j :: i <= j < |argv| && StartsWith(argv[j], OPT_PREFIX) && NeedsArgument(options, argv[j][|OPT_PREFIX|..])
  }

  /** What one parsing step may do: everything but the options and the
      unknown list is kept, those evolve as described above, and the
      result becomes -1 only for an option that needs an argument. */
  ghost predicate Evolved(before: Parsed, after: Parsed, argv: seq<string>, i: nat) {
    after.reg.appName == before.reg.appName && after.reg.originalArgs == before.reg.originalArgs
    && OptionsEvolved(before.reg.options, after.reg.options, argv, i)
    && UnknownsEvolved(before.reg, after.reg, argv, i)
    && (after.code == before.code || (after.code == -1 && MayMissArgument(before.reg.options, argv, i)))
  }

  /** The state of the argument loop: the position and the partial result. */
  datatype Cursor = Cursor(pos: nat, parsed: Parsed)

  /** One pass of the argument loop of `ParseArgs` at position `i`. A
      token without the prefix is skipped. A prefixed token that names no
      option is recorded as unknown unless it is a graphics-library option.
      A named option is marked as given; when it takes an argument, the
      next token is taken unless there is none or it starts with `--`;
      failing that the default is taken; failing that the option is marked
      as not given and the result becomes -1. */
  function Step(p: Parsed, argv: seq<string>, i: nat): (r: Cursor)
    requires 1 <= i < |argv|
    ensures r.pos == i + 1 || r.pos == i + 2
    ensures r.pos <= |argv|
    ensures Evolved(p, r.parsed, argv, i)
    ensures |r.parsed.reg.options| == |p.reg.options|
    ensures forall k: nat :: k < |p.reg.options| && !Names(p.reg.options, argv[i], k) ==>
              r.parsed.reg.options[k] == p.reg.options[k]
    ensures forall k: nat :: Names(p.reg.options, argv[i], k) ==>
              var o := p.reg.options[k];
              var missing := o.arg != "" && o.defaultValue == "" && NoNextValue(argv, i);
              && (r.parsed.reg.options[k].isSet <==> !missing)
              && (r.pos == i + 2 <==> o.arg != "" && !NoNextValue(argv, i))
              && (missing ==> r.parsed.code == -1)
              && (!missing ==> r.parsed.code == p.code)
    ensures (forall k: nat :: !Names(p.reg.options, argv[i], k)) ==> r.pos == i + 1 && r.parsed.code == p.code
    ensures UnknownToken(p.reg.options, argv[i]) ==> r.parsed.reg.unknownArgs == p.reg.unknownArgs + [argv[i]]
    ensures !UnknownToken(p.reg.options, argv[i]) ==> r.parsed.reg.unknownArgs == p.reg.unknownArgs
  {
    var reg := p.reg;
    var arg := argv[i];
    if !StartsWith(arg, OPT_PREFIX) then Cursor(i + 1, p)
    else
      match GetOption(reg.options, arg[|OPT_PREFIX|..])
      case None =>
        if arg in OSG_ARGS then Cursor(i + 1, p)
        else Cursor(i + 1, Parsed(p.code, reg.(unknownArgs := reg.unknownArgs + [arg])))
      case Some(k) =>
        var o := reg.options[k];
        if o.arg == "" then
          Cursor(i + 1, Parsed(p.code, SetOpt(reg, k, o.(isSet := true))))
        else if i < |argv| - 1 && !StartsWith(argv[i + 1], "--") then
          Cursor(i + 2, Parsed(p.code, SetOpt(reg, k, o.(isSet := true, argValues := o.argValues + [argv[i + 1]]))))
        else if o.defaultValue != "" then
          Cursor(i + 1, Parsed(p.code, SetOpt(reg, k, o.(isSet := true, argValues := o.argValues + [o.defaultValue]))))
        else
          Cursor(i + 1, Parsed(-1, SetOpt(reg, k, o.(isSet := false))))
  }

  /** The argument loop from position `i` to the end. */
  function ParseFrom(p: Parsed, argv: seq<string>, i: nat): (r: Parsed)
    requires 1 <= i <= |argv|
    ensures Evolved(p, r, argv, i)
    decreases |argv| - i
  {
    if i == |argv| then
      EvolvedRefl(p, argv, i);
      p
    else
      var c := Step(p, argv, i);
      var r := ParseFrom(c.parsed, argv, c.pos);
      EvolvedTrans(p, c.parsed, r, argv, i, c.pos);
      r
  }

  lemma EvolvedRefl(p: Parsed, argv: seq<string>, i: nat)
    ensures Evolved(p, p, argv, i)
  {
  }

  /** Two stretches of parsing make one. */
  lemma EvolvedTrans(a: Parsed, b: Parsed, c: Parsed, argv: seq<string>, i: nat, i': nat)
    requires i <= i'
    requires Evolved(a, b, argv, i) && Evolved(b, c, argv, i')
    ensures Evolved(a, c, argv, i)
  {
    var A, B, C := a.reg.options, b.reg.options, c.reg.options;
    forall k | 0 <= k < |A|
      ensures SameDecl(A[k], C[k]) && A[k].argValues <= C[k].argValues
      ensures forall n :: |A[k].argValues| <= n < |C[k].argValues| ==> Supplied(argv, i, C[k].argValues[n], A[k])
    {
      forall n | |A[k].argValues| <= n < |C[k].argValues|
        ensures Supplied(argv, i, C[k].argValues[n], A[k])
      {
        if n < |B[k].argValues| {
          assert C[k].argValues[n] == B[k].argValues[n];
        } else {
          assert Supplied(argv, i', C[k].argValues[n], B[k]);
        }
      }
    }
    assert OptionsEvolved(A, C, argv, i);
    forall name ensures GetOption(A, name) == GetOption(B, name) {
      GetOptionSameDecl(A, B, name);
    }
    forall n | |a.reg.unknownArgs| <= n < |c.reg.unknownArgs|
      ensures Unknown(A, argv, i, c.reg.unknownArgs[n])
    {
      if n < |b.reg.unknownArgs| {
        assert c.reg.unknownArgs[n] == b.reg.unknownArgs[n];
      } else {
        assert Unknown(B, argv, i', c.reg.unknownArgs[n]);
      }
    }
    if c.code != b.code {
      var j :| i' <= j < |argv| && StartsWith(argv[j], OPT_PREFIX) && NeedsArgument(B, argv[j][|OPT_PREFIX|..]);
      assert NeedsArgument(A, argv[j][|OPT_PREFIX|..]);
    }
  }

  /** `ParseArgs`: the program name is the first argument without
      directory and extension, every argument is appended to the recorded
      ones, and the rest are parsed from the second on. The declarations
      are kept; the options collect only supplied values; only prefixed
      arguments that name no option are reported as unknown; and the
      result is 0, or -1 when an option that needs an argument was met.
      The source reads the first argument unconditionally. */
  function ParseArgs(reg: Registry, argv: seq<string>): (r: Parsed)
    requires |argv| >= 1 && |argv[0]| < Paths.SIZE_T_MODULUS
    ensures r.reg.appName == Paths.FileNameWithoutExtOf(argv[0])
    ensures r.reg.originalArgs == reg.originalArgs + argv
    ensures OptionsEvolved(reg.options, r.reg.options, argv, 1)
    ensures UnknownsEvolved(reg, r.reg, argv, 1)
    ensures r.code == 0 || (r.code == -1 && MayMissArgument(reg.options, argv, 1))
  {
    var start := reg.(appName := Paths.FileNameWithoutExtOf(argv[0]), originalArgs := reg.originalArgs + argv);
    ParseFrom(Parsed(0, start), argv, 1)
  }

  /** Whenever the loop meets an option that takes an argument and the
      next token does not start with `--`, that token becomes the option's
      next argument. */
  lemma TakesNextArgument(p: Parsed, argv: seq<string>, i: nat, k: nat)
    requires 1 <= i && i + 1 < |argv|
    requires StartsWith(argv[i], OPT_PREFIX) && GetOption(p.reg.options, argv[i][|OPT_PREFIX|..]) == Some(k)
    requires p.reg.options[k].arg != "" && !StartsWith(argv[i + 1], "--")
    ensures var r := ParseFrom(p, argv, i).reg.options;
            |r| == |p.reg.options| && |r[k].argValues| > |p.reg.options[k].argValues|
            && r[k].argValues[|p.reg.options[k].argValues|] == argv[i + 1]
  {
  }

  /** Without such a token the default is taken, when there is one. */
  lemma TakesDefault(p: Parsed, argv: seq<string>, i: nat, k: nat)
    requires 1 <= i < |argv|
    requires StartsWith(argv[i], OPT_PREFIX) && GetOption(p.reg.options, argv[i][|OPT_PREFIX|..]) == Some(k)
    requires p.reg.options[k].arg != "" && p.reg.options[k].defaultValue != ""
    requires i + 1 == |argv| || StartsWith(argv[i + 1], "--")
    ensures var r := ParseFrom(p, argv, i).reg.options;
            |r| == |p.reg.options| && |r[k].argValues| > |p.reg.options[k].argValues|
            && r[k].argValues[|p.reg.options[k].argValues|] == p.reg.options[k].defaultValue
  {
  }

  /** Without either, parsing fails: the result is -1, and the option is
      marked as not given. It stays so unless a later argument names it
      again. */
  lemma MissingArgumentFails(p: Parsed, argv: seq<string>, i: nat, k: nat)
    requires 1 <= i < |argv|
    requires StartsWith(argv[i], OPT_PREFIX) && GetOption(p.reg.options, argv[i][|OPT_PREFIX|..]) == Some(k)
    requires p.reg.options[k].arg != "" && p.reg.options[k].defaultValue == ""
    requires i + 1 == |argv| || StartsWith(argv[i + 1], "--")
    ensures ParseFrom(p, argv, i).code == -1
    ensures !Step(p, argv, i).parsed.reg.options[k].isSet
    ensures (forall j :: i < j < |argv| ==> !Names(p.reg.options, argv[j], k)) ==> !ParseFrom(p, argv, i).reg.options[k].isSet
  {
    var c := Step(p, argv, i);
    if forall j :: i < j < |argv| ==> !Names(p.reg.options, argv[j], k) {
      SameLookup(p.reg.options, c.parsed.reg.options);
      ParseKeepsOption(c.parsed, argv, c.pos, k);
    }
  }

  /** Parsing keeps the declarations, so every name finds the same option. */
  lemma SameLookup(a: seq<Opt>, b: seq<Opt>)
    requires |a| == |b| && forall k :: 0 <= k < |a| ==> SameDecl(a[k], b[k])
    ensures forall name :: GetOption(a, name) == GetOption(b, name)
  {
    forall name ensures GetOption(a, name) == GetOption(b, name) {
      GetOptionSameDecl(a, b, name);
    }
  }

  /** An option that no argument from position `i` on names comes out of
      the loop as it went in. */
  lemma {:induction false} ParseKeepsOption(p: Parsed, argv: seq<string>, i: nat, k: nat)
    requires 1 <= i <= |argv| && k < |p.reg.options|
    requires forall j :: i <= j < |argv| ==> !Names(p.reg.options, argv[j], k)
    ensures ParseFrom(p, argv, i).reg.options[k] == p.reg.options[k]
    decreases |argv| - i
  {
    if i < |argv| {
      var c := Step(p, argv, i);
      SameLookup(p.reg.options, c.parsed.reg.options);
      ParseKeepsOption(c.parsed, argv, c.pos, k);
    }
  }

  /** An option that cannot miss its argument: it takes none, or it has a
      default. */
  predicate CannotFail(o: Opt) {
    o.arg == "" || o.defaultValue != ""
  }

  /** Such an option, once marked as given, stays marked. */
  lemma {:induction false} SetStaysSet(p: Parsed, argv: seq<string>, i: nat, k: nat)
    requires 1 <= i <= |argv| && k < |p.reg.options|
    requires p.reg.options[k].isSet && CannotFail(p.reg.options[k])
    ensures ParseFrom(p, argv, i).reg.options[k].isSet
    decreases |argv| - i
  {
    if i < |argv| {
      var c := Step(p, argv, i);
      SetStaysSet(c.parsed, argv, c.pos, k);
    }
  }

  /** An argument that names such an option marks it as given for good:
      `GetOptionSet` reports it after the loop. */
  lemma NamedOptionSet(p: Parsed, argv: seq<string>, i: nat, k: nat)
    requires 1 <= i < |argv|
    requires Names(p.reg.options, argv[i], k) && CannotFail(p.reg.options[k])
    ensures ParseFrom(p, argv, i).reg.options[k].isSet
    ensures GetOptionSet(ParseFrom(p, argv, i).reg, argv[i][|OPT_PREFIX|..])
  {
    var c := Step(p, argv, i);
    SetStaysSet(c.parsed, argv, c.pos, k);
    var r := ParseFrom(p, argv, i).reg;
    GetOptionSameDecl(p.reg.options, r.options, argv[i][|OPT_PREFIX|..]);
  }

  /** An unknown argument at a position the loop visits is reported, and
      `HasUnknownArgs` holds afterwards. */
  lemma UnknownReported(p: Parsed, argv: seq<string>, i: nat)
    requires 1 <= i < |argv| && UnknownToken(p.reg.options, argv[i])
    ensures argv[i] in ParseFrom(p, argv, i).reg.unknownArgs
    ensures HasUnknownArgs(ParseFrom(p, argv, i).reg)
  {
    var c := Step(p, argv, i);
    var r := ParseFrom(c.parsed, argv, c.pos);
    assert r.reg.unknownArgs[|p.reg.unknownArgs|] == argv[i];
  }

  /** `HasUnknownArgs` after `ParseArgs`: it holds when it held before or
      the first argument after the program name is unknown, and it holds
      only when it held before or some argument is unknown. */
  lemma UnknownArgsAfterParse(reg: Registry, argv: seq<string>)
    requires |argv| >= 1 && |argv[0]| < Paths.SIZE_T_MODULUS
    ensures HasUnknownArgs(reg) ==> HasUnknownArgs(ParseArgs(reg, argv).reg)
    ensures |argv| > 1 && UnknownToken(reg.options, argv[1]) ==> HasUnknownArgs(ParseArgs(reg, argv).reg)
    ensures HasUnknownArgs(ParseArgs(reg, argv).reg) ==>
              HasUnknownArgs(reg) || exists j :: 1 <= j < |argv| && UnknownToken(reg.options, argv[j])
  {
    var r := ParseArgs(reg, argv).reg;
    if |argv| > 1 && UnknownToken(reg.options, argv[1]) {
      var start := reg.(appName := Paths.FileNameWithoutExtOf(argv[0]), originalArgs := reg.originalArgs + argv);
      UnknownReported(Parsed(0, start), argv, 1);
    }
    if HasUnknownArgs(r) && !HasUnknownArgs(reg) {
      assert Unknown(reg.options, argv, 1, r.unknownArgs[0]);
    }
  }

  /** After parsing, `IsInOriginalArgs` still finds what it found before,
      and it finds every program argument. */
  lemma AllArgumentsRecorded(reg: Registry, argv: seq<string>, a: string)
    requires |argv| >= 1 && |argv[0]| < Paths.SIZE_T_MODULUS
    requires IsInOriginalArgs(reg, a) || a in argv
    ensures IsInOriginalArgs(ParseArgs(reg, argv).reg, a)
  {
    InConcat(reg.originalArgs, argv, a);
  }

  /** After parsing, `IsInOriginalArgs` finds nothing else. */
  lemma OnlyRecordedArgumentsFound(reg: Registry, argv: seq<string>, a: string)
    requires |argv| >= 1 && |argv[0]| < Paths.SIZE_T_MODULUS
    requires IsInOriginalArgs(ParseArgs(reg, argv).reg, a)
    ensures IsInOriginalArgs(reg, a) || a in argv
  {
    InConcat(reg.originalArgs, argv, a);
  }

  lemma InConcat(s: seq<string>, t: seq<string>, a: string)
    ensures a in s + t <==> a in s || a in t
  {
  }


  /** When every option that takes an argument has a default, parsing
      cannot fail. */
  lemma DefaultsNeverFail(reg: Registry, argv: seq<string>)
    requires |argv| >= 1 && |argv[0]| < Paths.SIZE_T_MODULUS
    requires forall k :: 0 <= k < |reg.options| && reg.options[k].arg != "" ==> reg.options[k].defaultValue != ""
    ensures ParseArgs(reg, argv).code == 0
  {
  }

  /** Arguments without the prefix are never reported as unknown. */
  lemma UnprefixedNeverUnknown(reg: Registry, argv: seq<string>)
    requires |argv| >= 1 && |argv[0]| < Paths.SIZE_T_MODULUS
    requires forall j :: 1 <= j < |argv| ==> !StartsWith(argv[j], OPT_PREFIX)
    ensures ParseArgs(reg, argv).reg.unknownArgs == reg.unknownArgs
  {
    var r := ParseArgs(reg, argv).reg;
    var n := |reg.unknownArgs|;
    assert n < |r.unknownArgs| ==> !Unknown(reg.options, argv, 1, r.unknownArgs[n]);
  }
}
