/**
 UnityGetCommandLineOptions of `libs/unity/unity_fixture.c`: the option loop, the decimal
 reader behind `-r`, and the command line that expresses a given set of options.
 */
module UnityOptions {
  import opened Wrappers
  import opened Arithmetic
  import opened UnityPrint

  const UINT_LIMIT := 0x1_0000_0000  // unsigned int

  /* The fields of struct UNITY_FIXTURE_T. */
  datatype Options = Options(verbose: bool, silent: bool, dryRun: bool,
                             groupFilter: Option<string>, group: Option<string>,
                             nameFilter: Option<string>, name: Option<string>,
                             repeatCount: nat)

  const DEFAULTS := Options(false, false, false, None, None, None, None, 1)

  //////////////////////////////////////////////////////////////////////////////
  // Reading a number
  //////////////////////////////////////////////////////////////////////////////

  predicate StartsWithDigit(s: string) {
    s != "" && IsDigit(s[0])
  }

  /* The longest prefix of digits. */
  function DigitPrefix(s: string): (p: string)
    ensures AllDigits(p) && p <= s
    ensures |p| < |s| ==> !IsDigit(s[|p|])
  {
    if s == "" || !IsDigit(s[0]) then "" else [s[0]] + DigitPrefix(s[1..])
  }

  lemma {:induction false} DigitPrefixIsLongest(s: string, n: nat)
    requires n <= |s| && AllDigits(s[..n])
    requires n < |s| ==> !IsDigit(s[n])
    ensures DigitPrefix(s) == s[..n]
  {
    var p := DigitPrefix(s);
    assert p == s[..|p|];
    assert forall k :: 0 <= k < n ==> s[k] == s[..n][k];
  }

  /* The digit loop of -r: every multiplication and addition wraps at 2^32. */
  method ReadRepeatCount(arg: string) returns (count: nat)
    ensures count == Value(DigitPrefix(arg)) % UINT_LIMIT
  {
    count := 0;
    var digit := 0;
    while digit < |arg| && '0' <= arg[digit] <= '9'
      invariant 0 <= digit <= |arg| && AllDigits(arg[..digit])
      invariant count == Value(arg[..digit]) % UINT_LIMIT
    {
      ghost var before := arg[..digit];
      WrapDigit(Value(before), DigitValue(arg[digit]));
      ValueSnoc(before, DigitValue(arg[digit]));
      assert arg[..digit + 1] == before + [Digit(DigitValue(arg[digit]))];
      count := (count * 10) % UINT_LIMIT;
      count := (count + (arg[digit] as int - '0' as int)) % UINT_LIMIT;
      digit := digit + 1;
    }
    DigitPrefixIsLongest(arg, digit);
  }

  /* The quotients of the three remainders add up to a quotient of the whole. */
  lemma WrapDigit(v: nat, d: nat)
    ensures ((v % UINT_LIMIT * 10) % UINT_LIMIT + d) % UINT_LIMIT == (10 * v + d) % UINT_LIMIT
  {
    var q, r := v / UINT_LIMIT, v % UINT_LIMIT;
    var k, s := (r * 10) / UINT_LIMIT, (r * 10) % UINT_LIMIT;
    var l, t := (s + d) / UINT_LIMIT, (s + d) % UINT_LIMIT;
    assert 10 * v + d == (10 * q + k + l) * UINT_LIMIT + t;
    DivModUnique(10 * v + d, 10 * q + k + l, t, UINT_LIMIT);
  }

  /* Printing a number and reading it back: exact below 2^32, and its low 32 bits always. */
  lemma PrintedNumberReadBack(n: nat, rest: string)
    requires !StartsWithDigit(rest)
    ensures Value(DigitPrefix(Decimal(n) + rest)) % UINT_LIMIT == n % UINT_LIMIT
    ensures n < UINT_LIMIT ==> Value(DigitPrefix(Decimal(n) + rest)) % UINT_LIMIT == n
  {
    hide Decimal, DigitPrefix, UnityPrint.Value;
    var s := Decimal(n) + rest;
    assert s[..|Decimal(n)|] == Decimal(n);
    DigitPrefixIsLongest(s, |Decimal(n)|);
    DecimalDenotes(n);
  }

  //////////////////////////////////////////////////////////////////////////////
  // The option loop
  //////////////////////////////////////////////////////////////////////////////

  /* argv without the program name; an empty argv has none. */
  function Arguments(argv: seq<string>): seq<string> {
    if argv == [] then [] else argv[1..]
  }

  /* What the remaining arguments make of the options, and the function's result: 0 to run
     the tests, 1 for -h and for an option whose value is missing. */
  function Parsed(o: Options, args: seq<string>): (Options, int)
    decreases |args|
  {
    if args == [] then (o, 0)
    else
      var a, rest := args[0], args[1..];
      if a == "-h" || a == "--help" then (o, 1)
      else if a == "-v" then Parsed(o.(verbose := true), rest)
      else if a == "-s" then Parsed(o.(silent := true), rest)
      else if a == "-d" then Parsed(o.(dryRun := true), rest)
      else if TakesName(a) then
        if rest == [] then (o, 1) else Parsed(WithName(o, a, rest[0]), rest[1..])
      else if a == "-r" then
        if rest != [] && StartsWithDigit(rest[0])
        then Parsed(o.(repeatCount := Value(DigitPrefix(rest[0])) % UINT_LIMIT), rest[1..])
        else Parsed(o.(repeatCount := 2), rest)
      else Parsed(o, rest)
  }

  predicate TakesName(a: string) {
    a == "-g" || a == "-G" || a == "-n" || a == "-N"
  }

  function WithName(o: Options, a: string, value: string): Options {
    if a == "-g" then o.(groupFilter := Some(value))
    else if a == "-G" then o.(group := Some(value))
    else if a == "-n" then o.(nameFilter := Some(value))
    else o.(name := Some(value))
  }

  /* What the loop does without any argument, and what each argument does, by its letters. */
  lemma NoArguments(argv: seq<string>)
    ensures |argv| <= 1 ==>
              Parsed(DEFAULTS, Arguments(argv)) == (Options(false, false, false, None, None, None, None, 1), 0)
  {
  }

  lemma FirstArgument(o: Options, a: string, rest: seq<string>)
    ensures a == "-h" || a == "--help" ==> Parsed(o, [a] + rest) == (o, 1)
    ensures a == "-v" ==> Parsed(o, [a] + rest) == Parsed(o.(verbose := true), rest)
    ensures a == "-s" ==> Parsed(o, [a] + rest) == Parsed(o.(silent := true), rest)
    ensures a == "-d" ==> Parsed(o, [a] + rest) == Parsed(o.(dryRun := true), rest)
    ensures a !in ["-h", "--help", "-v", "-s", "-d", "-g", "-G", "-n", "-N", "-r"] ==>
              Parsed(o, [a] + rest) == Parsed(o, rest)
  {
    assert ([a] + rest)[1..] == rest;
  }

  lemma NamedArgument(o: Options, x: string, rest: seq<string>)
    ensures Parsed(o, ["-g", x] + rest) == Parsed(o.(groupFilter := Some(x)), rest)
    ensures Parsed(o, ["-G", x] + rest) == Parsed(o.(group := Some(x)), rest)
    ensures Parsed(o, ["-n", x] + rest) == Parsed(o.(nameFilter := Some(x)), rest)
    ensures Parsed(o, ["-N", x] + rest) == Parsed(o.(name := Some(x)), rest)
  {
    hide Parsed;
    NameAndValue(o, "-g", x, rest);
    NameAndValue(o, "-G", x, rest);
    NameAndValue(o, "-n", x, rest);
    NameAndValue(o, "-N", x, rest);
  }

  lemma NameMissing(o: Options, a: string)
    requires a in ["-g", "-G", "-n", "-N"]
    ensures Parsed(o, [a]) == (o, 1)
  {
    assert [a][1..] == [];
  }

  lemma NameAndValue(o: Options, a: string, x: string, rest: seq<string>)
    requires TakesName(a)
    ensures Parsed(o, [a, x] + rest) == Parsed(WithName(o, a, x), rest)
  {
    assert ([a, x] + rest)[1..][1..] == rest;
  }

  /* -r repeats twice, unless a number follows. */
  lemma RepeatArgument(o: Options, rest: seq<string>)
    ensures rest == [] || rest[0] == "" || !('0' <= rest[0][0] <= '9') ==>
              Parsed(o, ["-r"] + rest) == Parsed(o.(repeatCount := 2), rest)
    ensures rest != [] && rest[0] != "" && '0' <= rest[0][0] <= '9' ==>
              Parsed(o, ["-r"] + rest)
              == Parsed(o.(repeatCount := Value(DigitPrefix(rest[0])) % 0x1_0000_0000), rest[1..])
  {
    hide Value, DigitPrefix;
    assert (["-r"] + rest)[1..] == rest;
  }

  //////////////////////////////////////////////////////////////////////////////
  // Every set of options has a command line
  //////////////////////////////////////////////////////////////////////////////

  function Flag(on: bool, a: string): seq<string> {
    if on then [a] else []
  }

  function Named(value: Option<string>, a: string): seq<string> {
    if value.Some? then [a, value.value] else []
  }

  function Rendered(o: Options): seq<string> {
    Flag(o.verbose, "-v") + (Flag(o.silent, "-s") + (Flag(o.dryRun, "-d")
    + (Named(o.groupFilter, "-g") + (Named(o.group, "-G") + (Named(o.nameFilter, "-n") + (Named(o.name, "-N")
    + ["-r", Decimal(o.repeatCount)]))))))
  }

  lemma ParsedNamed(o: Options, value: Option<string>, a: string, rest: seq<string>)
    requires TakesName(a)
    ensures Parsed(o, Named(value, a) + rest) == Parsed(if value.Some? then WithName(o, a, value.value) else o, rest)
  {
    if value.Some? {
      var args := [a, value.value] + rest;
      assert args[1..][1..] == rest;
    } else {
      assert [] + rest == rest;
    }
  }

  lemma ParsedFlag(o: Options, on: bool, a: string, rest: seq<string>)
    requires a == "-v" || a == "-s" || a == "-d"
    ensures Parsed(o, Flag(on, a) + rest)
         == Parsed(if !on then o
                   else if a == "-v" then o.(verbose := true)
                   else if a == "-s" then o.(silent := true) else o.(dryRun := true), rest)
  {
    if on {
      assert ([a] + rest)[1..] == rest;
    } else {
      assert [] + rest == rest;
    }
  }

  /* A printed number given to -r sets RepeatCount to its low 32 bits. */
  lemma ParsedRepeat(o: Options, n: nat)
    ensures Parsed(o, ["-r", Decimal(n)]) == (o.(repeatCount := n % UINT_LIMIT), 0)
  {
    var args := ["-r", Decimal(n)];
    assert args[1..] == [Decimal(n)] && args[1..][1..] == [];
    assert Decimal(n) + "" == Decimal(n);
    PrintedNumberReadBack(n, "");
  }

  /* Parsing the rendered options gives them back, for all names, even such as look like
     options themselves, and for all repeat counts of an unsigned int. */
  lemma RenderedOptionsReadBack(o: Options)
    requires o.repeatCount < UINT_LIMIT
    ensures Parsed(DEFAULTS, Rendered(o)) == (o, 0)
  {
    hide Parsed, Flag, Named, Decimal;
    var r := ["-r", Decimal(o.repeatCount)];
    var n4 := Named(o.name, "-N") + r;
    var n3 := Named(o.nameFilter, "-n") + n4;
    var n2 := Named(o.group, "-G") + n3;
    var n1 := Named(o.groupFilter, "-g") + n2;
    var f3 := Flag(o.dryRun, "-d") + n1;
    var f2 := Flag(o.silent, "-s") + f3;
    ParsedFlag(DEFAULTS, o.verbose, "-v", f2);
    var o1 := DEFAULTS.(verbose := o.verbose);
    ParsedFlag(o1, o.silent, "-s", f3);
    var o2 := o1.(silent := o.silent);
    ParsedFlag(o2, o.dryRun, "-d", n1);
    var o3 := o2.(dryRun := o.dryRun);
    ParsedNamed(o3, o.groupFilter, "-g", n2);
    var o4 := o3.(groupFilter := o.groupFilter);
    ParsedNamed(o4, o.group, "-G", n3);
    var o5 := o4.(group := o.group);
    ParsedNamed(o5, o.nameFilter, "-n", n4);
    var o6 := o5.(nameFilter := o.nameFilter);
    ParsedNamed(o6, o.name, "-N", r);
    ParsedRepeat(o6.(name := o.name), o.repeatCount);
  }
}
