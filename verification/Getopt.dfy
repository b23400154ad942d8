/**
 The argument permutation of src/getopt/getopt.c: `exchange` and `_getopt_internal` for short
 options, `--` and the PERMUTE order. Strings have no NUL characters; the pointer `nextchar`
 is the text it points to, empty for NULL.
 */
module Getopt {
  import opened Collections

  /** One call's result: the option character and optarg. */
  datatype Result = Result(c: char, optarg: Option<string>)

  // ---- exchange

  /** s with its segments [bottom, middle) and [middle, top) exchanged. */
  function Exchanged<T>(s: seq<T>, bottom: nat, middle: nat, top: nat): (r: seq<T>)
    requires bottom <= middle <= top <= |s|
    ensures |r| == |s|
  {
    s[..bottom] + s[middle..top] + s[bottom..middle] + s[top..]
  }

  /** s with len elements from i and from j swapped. */
  function SwappedBlocks<T>(s: seq<T>, i: nat, j: nat, len: nat): (r: seq<T>)
    requires i + len <= j && j + len <= |s|
    ensures |r| == |s|
  {
    s[..i] + s[j..j + len] + s[i + len..j] + s[i..i + len] + s[j + len..]
  }

  method SwapBlocks<T>(argv: array<T>, i: nat, j: nat, len: nat)
    requires i + len <= j && j + len <= argv.Length
    modifies argv
    ensures argv[..] == SwappedBlocks(old(argv[..]), i, j, len)
  {
    for k := 0 to len
      invariant forall p :: 0 <= p < argv.Length ==>
                  argv[p] == if i <= p < i + k then old(argv[j + p - i])
                             else if j <= p < j + k then old(argv[i + p - j]) else old(argv[p])
    {
      var tem := argv[i + k];
      argv[i + k] := argv[j + k];
      argv[j + k] := tem;
    }
  }

  /** Moving the shorter bottom segment into its final place leaves a smaller exchange. */
  lemma BottomShorter<T>(s: seq<T>, bottom: nat, middle: nat, top: nat)
    requires bottom <= middle <= top <= |s| && top - middle > middle - bottom
    ensures var len := middle - bottom;
            Exchanged(SwappedBlocks(s, bottom, top - len, len), bottom, middle, top - len) ==
            Exchanged(s, bottom, middle, top)
  {
    var t := top - (middle - bottom);
    var r := SwappedBlocks(s, bottom, t, middle - bottom);
    assert r[..bottom] == s[..bottom] && r[middle..t] == s[middle..t] && r[bottom..middle] == s[t..top];
    assert r[t..] == s[bottom..middle] + s[top..];
    assert s[middle..top] == s[middle..t] + s[t..top];
    assert Exchanged(r, bottom, middle, t) == r[..bottom] + r[middle..t] + r[bottom..middle] + r[t..];
    hide SwappedBlocks;
    Regroup(s[..bottom], s[middle..t], s[t..top], s[bottom..middle], s[top..]);
  }

  lemma Regroup<T>(a: seq<T>, b: seq<T>, c: seq<T>, d: seq<T>, e: seq<T>)
    ensures a + b + c + (d + e) == a + (b + c) + d + e
  {
    Reassociate(a, b, c);
    Reassociate(a + b + c, d, e);
  }

  lemma TopShorter<T>(s: seq<T>, bottom: nat, middle: nat, top: nat)
    requires bottom <= middle <= top <= |s| && top - middle <= middle - bottom
    ensures var len := top - middle;
            Exchanged(SwappedBlocks(s, bottom, middle, len), bottom + len, middle, top) ==
            Exchanged(s, bottom, middle, top)
  {
    var b := bottom + (top - middle);
    var r := SwappedBlocks(s, bottom, middle, top - middle);
    assert r[..b] == s[..bottom] + s[middle..top] && r[middle..top] == s[bottom..b] && r[b..middle] == s[b..middle];
    assert r[top..] == s[top..];
    assert s[bottom..middle] == s[bottom..b] + s[b..middle];
  }

  lemma NothingLeft<T>(s: seq<T>, bottom: nat, middle: nat, top: nat)
    requires bottom <= middle <= top <= |s| && (middle == bottom || top == middle)
    ensures Exchanged(s, bottom, middle, top) == s
  {
  }

  /** The loop of exchange: an exact rotation of two adjacent segments, in place. */
  method ExchangeSegments<T>(argv: array<T>, first: nat, last: nat, optind: nat)
    requires first <= last <= optind <= argv.Length
    modifies argv
    ensures argv[..] == Exchanged(old(argv[..]), first, last, optind)
  {
    hide Exchanged, SwappedBlocks;
    var bottom, middle, top := first, last, optind;
    while top > middle && middle > bottom
      invariant first <= bottom <= middle <= top <= optind
      invariant Exchanged(argv[..], bottom, middle, top) == Exchanged(old(argv[..]), first, last, optind)
      decreases top - bottom
    {
      if top - middle > middle - bottom {
        BottomShorter(argv[..], bottom, middle, top);
        var len := middle - bottom;
        SwapBlocks(argv, bottom, top - len, len);
        top := top - len;
      } else {
        TopShorter(argv[..], bottom, middle, top);
        var len := top - middle;
        SwapBlocks(argv, bottom, middle, len);
        bottom := bottom + len;
      }
    }
    NothingLeft(argv[..], bottom, middle, top);
  }

  // ---- what an argument vector means

  datatype ArgumentKind = Unknown | NoArgument | Argument | OptionalArgument

  /** Position of c in optstring from i on, or its length. */
  function IndexFrom(optstring: string, c: char, i: nat): (r: nat)
    requires i <= |optstring|
    ensures i <= r <= |optstring| && (r < |optstring| ==> optstring[r] == c)
    ensures forall j :: i <= j < r ==> optstring[j] != c
    decreases |optstring| - i
  {
    if i == |optstring| || optstring[i] == c then i else IndexFrom(optstring, c, i + 1)
  }

  predicate ColonAt(optstring: string, i: nat) {
    i < |optstring| && optstring[i] == ':'
  }

  function KindOf(optstring: string, c: char): ArgumentKind {
    var i := IndexFrom(optstring, c, 0);
    if i == |optstring| || c == ':' then Unknown
    else if !ColonAt(optstring, i + 1) then NoArgument
    else if !ColonAt(optstring, i + 2) then Argument
    else OptionalArgument
  }

  predicate NonOption(s: string) {
    s == "" || s[0] != '-' || |s| == 1
  }

  /** The results of all calls, the elements that are options or their arguments, and the others. */
  datatype Parsed = Parsed(results: seq<Result>, options: seq<string>, operands: seq<string>)

  function MissingArgument(optstring: string): Result {
    Result(if ColonAt(optstring, 0) then ':' else '?', None)
  }

  /** The rest of the arguments from element i on, in their original order. */
  function ParseFrom(optstring: string, args: seq<string>, i: nat): Parsed
    requires i <= |args|
    decreases |args| - i, 0
  {
    if i == |args| then Parsed([], [], [])
    else if NonOption(args[i]) then
      var p := ParseFrom(optstring, args, i + 1);
      p.(operands := [args[i]] + p.operands)
    else if args[i] == "--" then Parsed([], ["--"], args[i + 1..])
    else
      var p := ParseElement(optstring, args, i, args[i][1..]);
      p.(options := [args[i]] + p.options)
  }

  /** The rest from the option characters `rest` of element i on; its options leave out element i. */
  function ParseElement(optstring: string, args: seq<string>, i: nat, rest: string): Parsed
    requires i < |args|
    decreases |args| - i - 1, |rest| + 1
  {
    if rest == "" then ParseFrom(optstring, args, i + 1)
    else
      var c, tail := rest[0], rest[1..];
      match KindOf(optstring, c)
      case Unknown => WithResult(Result('?', None), ParseElement(optstring, args, i, tail))
      case NoArgument => WithResult(Result(c, None), ParseElement(optstring, args, i, tail))
      case OptionalArgument =>
        WithResult(Result(c, if tail == "" then None else Some(tail)), ParseFrom(optstring, args, i + 1))
      case Argument =>
        if tail != "" then WithResult(Result(c, Some(tail)), ParseFrom(optstring, args, i + 1))
        else if i + 1 == |args| then WithResult(MissingArgument(optstring), ParseFrom(optstring, args, i + 1))
        else
          var p := ParseFrom(optstring, args, i + 2);
          WithResult(Result(c, Some(args[i + 1])), p.(options := [args[i + 1]] + p.options))
  }

  function WithResult(r: Result, p: Parsed): Parsed {
    p.(results := [r] + p.results)
  }

  // ---- the parse by the text of optstring

  /** The first occurrence of an option character other than a colon. */
  predicate FirstAt(optstring: string, c: char, k: nat) {
    k < |optstring| && optstring[k] == c && c != ':' && forall j :: 0 <= j < k ==> optstring[j] != c
  }

  predicate OneColon(optstring: string, k: nat) {
    k + 1 < |optstring| && optstring[k + 1] == ':' && (k + 2 == |optstring| || optstring[k + 2] != ':')
  }

  predicate TwoColons(optstring: string, k: nat) {
    k + 2 < |optstring| && optstring[k + 1] == ':' && optstring[k + 2] == ':'
  }

  lemma KindAt(optstring: string, c: char, k: nat)
    requires FirstAt(optstring, c, k)
    ensures KindOf(optstring, c) == if OneColon(optstring, k) then Argument
                                    else if TwoColons(optstring, k) then OptionalArgument else NoArgument
  {
    assert IndexFrom(optstring, c, 0) == k;
  }

  /** Empty elements, those not starting with `-`, and `-` itself are operands; `--` ends the options. */
  lemma OperandElement(optstring: string, args: seq<string>, i: nat)
    requires i < |args|
    ensures args[i] == "" || args[i][0] != '-' || args[i] == "-" ==>
              var next := ParseFrom(optstring, args, i + 1);
              ParseFrom(optstring, args, i) == Parsed(next.results, next.options, [args[i]] + next.operands)
    ensures args[i] == "--" ==> ParseFrom(optstring, args, i) == Parsed([], ["--"], args[i + 1..])
  {
  }

  /**
   The element `-c`: with one colon after the first c in optstring it takes the next element as
   its argument, with two colons or none it takes nothing.
   */
  lemma OptionElement(optstring: string, args: seq<string>, i: nat, c: char, k: nat)
    requires i < |args| && args[i] == ['-', c] && c != '-' && FirstAt(optstring, c, k)
    ensures var p, next := ParseFrom(optstring, args, i), ParseFrom(optstring, args, i + 1);
            if !OneColon(optstring, k) then
              p == Parsed([Result(c, None)] + next.results, [args[i]] + next.options, next.operands)
            else if i + 1 == |args| then
              p == Parsed([Result(if optstring[0] == ':' then ':' else '?', None)], [args[i]], [])
            else
              var later := ParseFrom(optstring, args, i + 2);
              p == Parsed([Result(c, Some(args[i + 1]))] + later.results, [args[i], args[i + 1]] + later.options,
                          later.operands)
  {
    KindAt(optstring, c, k);
    var rest := args[i][1..];
    assert rest[0] == c && rest[1..] == "" && args[i] != "--";
    assert !NonOption(args[i]);
    assert ParseElement(optstring, args, i, "") == ParseFrom(optstring, args, i + 1);
    if OneColon(optstring, k) && i + 1 < |args| {
      assert [args[i], args[i + 1]] == [args[i]] + [args[i + 1]];
    }
  }

  /** The option character c with text behind it: the text is its argument exactly with a colon after the first c. */
  lemma OptionWithText(optstring: string, args: seq<string>, i: nat, c: char, text: string, k: nat)
    requires i < |args| && text != "" && FirstAt(optstring, c, k)
    ensures var p := ParseElement(optstring, args, i, [c] + text);
            if OneColon(optstring, k) || TwoColons(optstring, k) then
              var next := ParseFrom(optstring, args, i + 1);
              p == Parsed([Result(c, Some(text))] + next.results, next.options, next.operands)
            else
              var next := ParseElement(optstring, args, i, text);
              p == Parsed([Result(c, None)] + next.results, next.options, next.operands)
  {
    KindAt(optstring, c, k);
    assert ([c] + text)[1..] == text;
  }

  /** A colon, or a character that is not in optstring. */
  lemma UnknownOption(optstring: string, args: seq<string>, i: nat, c: char, text: string)
    requires i < |args| && (c == ':' || c !in optstring)
    ensures var p, next := ParseElement(optstring, args, i, [c] + text), ParseElement(optstring, args, i, text);
            p == Parsed([Result('?', None)] + next.results, next.options, next.operands)
  {
    assert ([c] + text)[1..] == text;
  }

  /** An option character that stands for itself and leaves what follows alone. */
  ghost predicate IsFlag(optstring: string, c: char) {
    exists k :: FirstAt(optstring, c, k) && !OneColon(optstring, k) && !TwoColons(optstring, k)
  }

  /** One that needs an argument. */
  ghost predicate NeedsArgument(optstring: string, c: char) {
    exists k :: FirstAt(optstring, c, k) && OneColon(optstring, k)
  }

  lemma KindMeans(optstring: string, c: char)
    ensures KindOf(optstring, c) == Unknown <==> c == ':' || c !in optstring
    ensures KindOf(optstring, c) == NoArgument <==> IsFlag(optstring, c)
    ensures KindOf(optstring, c) == Argument <==> NeedsArgument(optstring, c)
  {
    var k := IndexFrom(optstring, c, 0);
    if k < |optstring| && c != ':' {
      assert FirstAt(optstring, c, k);
    }
    forall k | FirstAt(optstring, c, k)
      ensures KindOf(optstring, c) == if OneColon(optstring, k) then Argument
                                      else if TwoColons(optstring, k) then OptionalArgument else NoArgument
    {
      KindAt(optstring, c, k);
    }
  }

  /** Flags in one element are returned one by one, those that are unknown as `?`. */
  lemma {:induction false} FlagsInOneElement(optstring: string, args: seq<string>, i: nat, rest: string)
    requires i < |args|
    requires forall j :: 0 <= j < |rest| ==> IsFlag(optstring, rest[j]) || rest[j] == ':' || rest[j] !in optstring
    ensures var p, next := ParseElement(optstring, args, i, rest), ParseFrom(optstring, args, i + 1);
            && p.options == next.options && p.operands == next.operands
            && p.results ==
               seq(|rest|, j requires 0 <= j < |rest| =>
                     Result(if IsFlag(optstring, rest[j]) then rest[j] else '?', None)) + next.results
  {
    if rest != "" {
      KindMeans(optstring, rest[0]);
      FlagsInOneElement(optstring, args, i, rest[1..]);
    }
  }

  /** The default order, and no `W;` for long options. */
  predicate PermuteOrder(optstring: string) {
    && (optstring == "" || (optstring[0] != '-' && optstring[0] != '+'))
    && forall i :: 0 <= i < |optstring| - 1 ==> !(optstring[i] == 'W' && optstring[i + 1] == ';')
  }

  // ---- the state of getopt

  class Scanner {
    const argv: array<string>
    const optstring: string
    var optind: nat
    var firstNonopt: nat
    var lastNonopt: nat
    var nextchar: string

    /** The state of the first call, for the default PERMUTE order. */
    constructor (argv: array<string>, optstring: string)
      requires argv.Length >= 1 && PermuteOrder(optstring)
      ensures this.argv == argv && this.optstring == optstring && Scanning(argv[..], [])
    {
      this.argv, this.optstring := argv, optstring;
      optind, firstNonopt, lastNonopt, nextchar := 1, 1, 1, "";
      new;
      assert argv[1..1] + argv[1..1] == [];
    }

    ghost predicate Ordered()
      reads this
    {
      1 <= firstNonopt <= lastNonopt <= optind <= argv.Length
    }

    /** Options and their arguments already passed, in order. */
    ghost function OptionsDone(): seq<string>
      requires Ordered()
      reads this, argv
    {
      argv[1..firstNonopt] + argv[lastNonopt..optind]
    }

    /** What is still to be parsed. */
    ghost function Rest(args: seq<string>): Parsed
      requires optind <= |args|
      reads this
    {
      if nextchar == "" then ParseFrom(optstring, args, optind)
      else if optind < |args| then
        var p := ParseElement(optstring, args, optind, nextchar);
        p.(options := [args[optind]] + p.options)
      else Parsed([], [], [])
    }

    /**
     Between calls, with `results` returned so far for the original arguments: the skipped
     non-options lie between the options, everything in order, the rest untouched.
     */
    ghost predicate Scanning(args: seq<string>, results: seq<Result>)
      reads this, argv
    {
      && Ordered() && |args| == argv.Length
      && (nextchar != "" ==> optind < argv.Length)
      && argv[0] == args[0] && argv[optind..] == args[optind..]
      && var all := ParseFrom(optstring, args, 1);
         && OptionsDone() + Rest(args).options == all.options
         && argv[firstNonopt..lastNonopt] + Rest(args).operands == all.operands
         && results + Rest(args).results == all.results
    }

    /** After the last call: a stable partition, with optind at the first non-option. */
    ghost predicate Finished(args: seq<string>, results: seq<Result>)
      reads this, argv
    {
      && |args| >= 1
      && var all := ParseFrom(optstring, args, 1);
      && argv[..] == [args[0]] + all.options + all.operands
      && optind == 1 + |all.options|
      && results == all.results
    }

    /** Between the exchange and the next option element: options first, then all non-options so far. */
    ghost predicate Gathered(args: seq<string>, results: seq<Result>)
      reads this, argv
    {
      && 1 <= firstNonopt <= optind <= argv.Length && |args| == argv.Length
      && argv[0] == args[0] && argv[optind..] == args[optind..]
      && var all := ParseFrom(optstring, args, 1);
         var rest := ParseFrom(optstring, args, optind);
         && argv[1..firstNonopt] + rest.options == all.options
         && argv[firstNonopt..optind] + rest.operands == all.operands
         && results + rest.results == all.results
    }

    /** Exchanges the skipped non-options with the options that followed them. */
    method Exchange()
      requires Ordered()
      modifies argv, `firstNonopt, `lastNonopt
      ensures argv[..] == Exchanged(old(argv[..]), old(firstNonopt), old(lastNonopt), optind)
      ensures firstNonopt == old(firstNonopt) + (optind - old(lastNonopt)) && lastNonopt == optind
    {
      ExchangeSegments(argv, firstNonopt, lastNonopt, optind);
      firstNonopt := firstNonopt + (optind - lastNonopt);
      lastNonopt := optind;
    }

    method Gather(ghost args: seq<string>, ghost results: seq<Result>)
      requires Scanning(args, results) && nextchar == ""
      modifies argv, `firstNonopt, `lastNonopt
      ensures Gathered(args, results)
    {
      hide ParseFrom;
      if firstNonopt != lastNonopt && lastNonopt != optind {
        ghost var s, f, l := argv[..], firstNonopt, lastNonopt;
        Exchange();
        ExchangedParts(s, f, l, optind);
      } else if lastNonopt != optind {
        firstNonopt := optind;
      }
    }

    /** Skips non-options and extends their range. */
    method SkipNonOptions(ghost args: seq<string>, ghost results: seq<Result>)
      requires Gathered(args, results)
      modifies `optind, `lastNonopt
      ensures Gathered(args, results) && lastNonopt == optind
      ensures optind < argv.Length ==> !NonOption(argv[optind])
    {
      while optind < argv.Length && NonOption(argv[optind])
        invariant Gathered(args, results)
        decreases argv.Length - optind
      {
        SkipOne(args, results);
        optind := optind + 1;
      }
      lastNonopt := optind;
    }

    lemma SkipOne(args: seq<string>, results: seq<Result>)
      requires Gathered(args, results) && optind < argv.Length && NonOption(argv[optind])
      ensures var all := ParseFrom(optstring, args, 1);
              var rest := ParseFrom(optstring, args, optind + 1);
              && argv[optind] == args[optind] && argv[optind + 1..] == args[optind + 1..]
              && argv[1..firstNonopt] + rest.options == all.options
              && argv[firstNonopt..optind + 1] + rest.operands == all.operands
              && results + rest.results == all.results
    {
      assert argv[optind..][0] == args[optind..][0];
      assert argv[optind + 1..] == argv[optind..][1..];
      assert argv[firstNonopt..optind + 1] == argv[firstNonopt..optind] + [argv[optind]];
    }

    /** `--` ends the options: it is exchanged like one, and the rest skipped. */
    method TakeDashes(ghost args: seq<string>, ghost results: seq<Result>)
      requires Gathered(args, results) && lastNonopt == optind < argv.Length && argv[optind] == "--"
      modifies this, argv
      ensures Gathered(args, results) && lastNonopt == optind == argv.Length && nextchar == old(nextchar)
    {
      hide Exchanged, ParseFrom;
      ghost var f, i, s := firstNonopt, optind, argv[..];
      optind := optind + 1;
      if firstNonopt != lastNonopt && lastNonopt != optind {
        Exchange();
        ExchangedParts(s, f, i, i + 1);
      } else if firstNonopt == lastNonopt {
        firstNonopt := optind;
      }
      assert argv[1..f + 1] == s[1..f] + ["--"] && argv[f + 1..i + 1] == s[f..i];
      assert argv[i + 1..] == s[i..][1..] == args[i + 1..];
      lastNonopt := argv.Length;
      optind := argv.Length;
      AfterDashes(args, results, s, f, i);
    }

    lemma AfterDashes(args: seq<string>, results: seq<Result>, s: seq<string>, f: nat, i: nat)
      requires 1 <= f <= i < |s| == argv.Length == |args| && firstNonopt == f + 1 && optind == argv.Length
      requires argv[0] == args[0] && s[i..] == args[i..] && s[i] == "--"
      requires var all, rest := ParseFrom(optstring, args, 1), ParseFrom(optstring, args, i);
               && s[1..f] + rest.options == all.options && s[f..i] + rest.operands == all.operands
               && results + rest.results == all.results
      requires argv[1..f + 1] == s[1..f] + ["--"] && argv[f + 1..i + 1] == s[f..i] && argv[i + 1..] == args[i + 1..]
      ensures Gathered(args, results)
    {
      DashesLast(args, s, i);
      assert argv[f + 1..] == argv[f + 1..i + 1] + argv[i + 1..];
    }

    lemma DashesLast(args: seq<string>, s: seq<string>, i: nat)
      requires i < |s| == |args| && s[i..] == args[i..] && s[i] == "--"
      ensures ParseFrom(optstring, args, i) == Parsed([], ["--"], args[i + 1..])
      ensures ParseFrom(optstring, args, |args|) == Parsed([], [], [])
      ensures s[i + 1..] == args[i + 1..]
    {
      assert s[i..][0] == args[i..][0];
      assert s[i + 1..] == s[i..][1..] == args[i..][1..] == args[i + 1..];
    }

    /** Advances to the next element; `done` when all have been passed. */
    method Advance(ghost args: seq<string>, ghost results: seq<Result>) returns (done: bool)
      requires Scanning(args, results) && nextchar == ""
      modifies this, argv
      ensures done ==> Finished(args, results)
      ensures !done ==> Scanning(args, results) && nextchar != ""
    {
      Gather(args, results);
      SkipNonOptions(args, results);
      if optind != argv.Length && argv[optind] == "--" {
        TakeDashes(args, results);
      }
      if optind == argv.Length {
        AllPassed(args, results);
        if firstNonopt != lastNonopt { optind := firstNonopt; }
        return true;
      }
      hide ParseElement, ParseFrom;
      StartElement(args, results);
      nextchar := argv[optind][1..];
      return false;
    }

    /** The next element is an option: nothing of it has been parsed yet. */
    lemma StartElement(args: seq<string>, results: seq<Result>)
      requires Gathered(args, results) && optind < |args| && lastNonopt == optind
      requires !NonOption(argv[optind]) && argv[optind] != "--"
      ensures argv[lastNonopt..optind] == [] && argv[1..firstNonopt] + [] == argv[1..firstNonopt]
      ensures var p := ParseElement(optstring, args, optind, argv[optind][1..]);
              ParseFrom(optstring, args, optind) == p.(options := [args[optind]] + p.options)
    {
      assert argv[optind..][0] == args[optind..][0];
    }

    lemma AllPassed(args: seq<string>, results: seq<Result>)
      requires Gathered(args, results) && optind == argv.Length
      ensures var all := ParseFrom(optstring, args, 1);
              argv[..] == [args[0]] + all.options + all.operands && firstNonopt == 1 + |all.options| &&
              results == all.results
    {
      assert argv[..] == [argv[0]] + argv[1..firstNonopt] + argv[firstNonopt..];
    }

    /** The next option character of the current element. */
    method DecodeOption(ghost args: seq<string>) returns (r: Result)
      requires Ordered() && |args| == argv.Length && optind < |args| && argv[optind..] == args[optind..] &&
               nextchar != ""
      modifies `optind, `nextchar
      ensures old(optind) <= optind <= old(optind) + 2 && optind <= |args| &&
              (optind == old(optind) <==> nextchar != "")
      ensures var i := old(optind);
              var rest := if optind == i then ParseElement(optstring, args, i, nextchar)
                          else ParseFrom(optstring, args, optind);
              ParseElement(optstring, args, i, old(nextchar))
              == WithResult(r, if optind == i + 2 then rest.(options := [args[i + 1]] + rest.options) else rest)
    {
      ghost var i := optind;
      var c := nextchar[0];
      nextchar := nextchar[1..];
      var kind := KindOf(optstring, c);
      if nextchar == "" { optind := optind + 1; }
      if kind == Unknown {
        r := Result('?', None);
      } else if kind == NoArgument {
        r := Result(c, None);
      } else if kind == OptionalArgument {
        if nextchar != "" {
          r := Result(c, Some(nextchar));
          optind := optind + 1;
        } else {
          r := Result(c, None);
        }
        nextchar := "";
      } else {
        if nextchar != "" {
          r := Result(c, Some(nextchar));
          optind := optind + 1;
        } else if optind == argv.Length {
          r := MissingArgument(optstring);
        } else {
          OneMore(args, optind);
          r := Result(c, Some(argv[optind]));
          optind := optind + 1;
        }
        nextchar := "";
      }
    }

    method TakeOption(ghost args: seq<string>, ghost results: seq<Result>) returns (r: Result)
      requires Scanning(args, results) && nextchar != ""
      modifies `optind, `nextchar
      ensures Scanning(args, results + [r])
    {
      hide ParseFrom, ParseElement;
      ghost var i, before, done := optind, Rest(args), argv[1..firstNonopt];
      OneMore(args, i);
      r := DecodeOption(args);
      ghost var after := Rest(args);
      assert results + ([r] + after.results) == (results + [r]) + after.results;
      if optind == i + 1 {
        Shifted(done, argv[lastNonopt..i], args[i], after.options);
      } else if optind == i + 2 {
        OneMore(args, i + 1);
        Shifted(done, argv[lastNonopt..i], args[i], [args[i + 1]] + after.options);
        Shifted(done, argv[lastNonopt..i + 1], args[i + 1], after.options);
      }
    }

    lemma OneMore(args: seq<string>, i: nat)
      requires 1 <= lastNonopt <= i < argv.Length == |args| && exists k :: 0 <= k <= i && argv[k..] == args[k..]
      ensures argv[i] == args[i] && argv[i + 1..] == args[i + 1..]
      ensures argv[lastNonopt..i + 1] == argv[lastNonopt..i] + [args[i]]
    {
      var k :| 0 <= k <= i && argv[k..] == args[k..];
      assert argv[i] == argv[k..][i - k] == args[k..][i - k];
      assert argv[i + 1..] == argv[k..][i + 1 - k..];
      assert args[i + 1..] == args[k..][i + 1 - k..];
    }

    /** One call of getopt; None stands for -1. */
    method Next(ghost args: seq<string>, ghost results: seq<Result>) returns (r: Option<Result>)
      requires Scanning(args, results)
      modifies this, argv
      ensures r.Some? ==> Scanning(args, results + [r.value])
      ensures r.None? ==> Finished(args, results)
    {
      if nextchar == "" {
        var done := Advance(args, results);
        if done { return None; }
      }
      var result := TakeOption(args, results);
      return Some(result);
    }
  }

  /**
   Calling getopt until it returns -1 reorders argv into the options with their arguments and
   then the non-options, each in their original order, with optind at the first non-option;
   the results are those of the original order.
   */
  method GetoptAll(argv: array<string>, optstring: string) returns (results: seq<Result>, optind: nat)
    requires argv.Length >= 1 && PermuteOrder(optstring)
    modifies argv
    ensures var args := old(argv[..]);
            var all := ParseFrom(optstring, args, 1);
            && argv[..] == [args[0]] + all.options + all.operands
            && optind == 1 + |all.options|
            && results == all.results
  {
    ghost var args := argv[..];
    var scanner := new Scanner(argv, optstring);
    results := [];
    var r := scanner.Next(args, results);
    while r.Some?
      invariant r.Some? ==> scanner.Scanning(args, results + [r.value])
      invariant r.None? ==> scanner.Finished(args, results)
      invariant scanner.argv == argv && scanner.optstring == optstring && fresh(scanner)
      decreases |ParseFrom(optstring, args, 1).results| - |results|
    {
      results := results + [r.value];
      r := scanner.Next(args, results);
    }
    optind := scanner.optind;
  }

  // ---- the parse is a stable partition

  /** Which elements from i on belong to options. */
  function OptionMarks(optstring: string, args: seq<string>, i: nat): (marks: seq<bool>)
    requires i <= |args|
    ensures |marks| == |args| - i
    decreases |args| - i
  {
    if i == |args| then []
    else if NonOption(args[i]) then [false] + OptionMarks(optstring, args, i + 1)
    else if args[i] == "--" then [true] + seq(|args| - i - 1, _ => false)
    else if i + 1 < |args| && WantsNext(optstring, args[i][1..]) then [true, true] + OptionMarks(optstring, args, i + 2)
    else [true] + OptionMarks(optstring, args, i + 1)
  }

  /** The option characters end with one whose required argument is the next element. */
  predicate WantsNext(optstring: string, rest: string) {
    if rest == "" then false
    else
      match KindOf(optstring, rest[0])
      case Unknown => WantsNext(optstring, rest[1..])
      case NoArgument => WantsNext(optstring, rest[1..])
      case OptionalArgument => false
      case Argument => |rest| == 1
  }

  /** The next element is taken exactly by a last character that needs it, behind none that takes the rest. */
  lemma {:induction false} WantsNextExactly(optstring: string, rest: string)
    ensures WantsNext(optstring, rest) <==>
            && rest != "" && NeedsArgument(optstring, rest[|rest| - 1])
            && forall j :: 0 <= j < |rest| - 1 ==>
                 IsFlag(optstring, rest[j]) || rest[j] == ':' || rest[j] !in optstring
  {
    if rest != "" {
      KindMeans(optstring, rest[0]);
      WantsNextExactly(optstring, rest[1..]);
      hide KindOf, IsFlag, NeedsArgument;
      var tail := rest[1..];
      assert forall j :: 0 <= j < |tail| ==> tail[j] == rest[j + 1];
      if |rest| > 1 {
        assert forall j :: 1 <= j < |rest| ==> rest[j] == tail[j - 1];
      }
    }
  }

  /** The elements of s marked with `kind`, in order. */
  function Select<T>(s: seq<T>, marks: seq<bool>, kind: bool): (r: seq<T>)
    requires |s| == |marks|
  {
    if s == [] then [] else (if marks[0] == kind then [s[0]] else []) + Select(s[1..], marks[1..], kind)
  }

  lemma {:induction false} SelectNone<T>(s: seq<T>)
    ensures var none := seq(|s|, _ => false); Select(s, none, true) == [] && Select(s, none, false) == s
  {
    if s != [] {
      SelectNone(s[1..]);
      assert seq(|s|, _ => false)[1..] == seq(|s| - 1, _ => false);
    }
  }

  lemma {:induction false} ElementParse(optstring: string, args: seq<string>, i: nat, rest: string)
    requires i < |args|
    ensures var p := ParseElement(optstring, args, i, rest);
            if i + 1 < |args| && WantsNext(optstring, rest) then
              var q := ParseFrom(optstring, args, i + 2);
              p.options == [args[i + 1]] + q.options && p.operands == q.operands
            else
              var q := ParseFrom(optstring, args, i + 1); p.options == q.options && p.operands == q.operands
    decreases |rest|
  {
    if rest != "" { ElementParse(optstring, args, i, rest[1..]); }
  }

  /** Options and non-options are the marked and the unmarked elements, each in their original order. */
  lemma {:induction false} ParseIsStablePartition(optstring: string, args: seq<string>, i: nat)
    requires i <= |args|
    ensures var p, marks := ParseFrom(optstring, args, i), OptionMarks(optstring, args, i);
            p.options == Select(args[i..], marks, true) && p.operands == Select(args[i..], marks, false)
    decreases |args| - i
  {
    if i < |args| {
      var marks := OptionMarks(optstring, args, i);
      assert args[i..][1..] == args[i + 1..];
      if NonOption(args[i]) {
        ParseIsStablePartition(optstring, args, i + 1);
        assert marks[1..] == OptionMarks(optstring, args, i + 1);
      } else if args[i] == "--" {
        SelectNone(args[i + 1..]);
        assert marks[1..] == seq(|args| - i - 1, _ => false);
      } else {
        ElementParse(optstring, args, i, args[i][1..]);
        if i + 1 < |args| && WantsNext(optstring, args[i][1..]) {
          ParseIsStablePartition(optstring, args, i + 2);
          assert marks[1..][1..] == OptionMarks(optstring, args, i + 2);
          assert args[i + 1..][1..] == args[i + 2..];
        } else {
          ParseIsStablePartition(optstring, args, i + 1);
          assert marks[1..] == OptionMarks(optstring, args, i + 1);
        }
      }
    }
  }

  /** Nothing is lost: both selections together are a permutation of the elements. */
  lemma {:induction false} SelectionsArePermutation<T>(s: seq<T>, marks: seq<bool>)
    requires |s| == |marks|
    ensures multiset(Select(s, marks, true) + Select(s, marks, false)) == multiset(s)
  {
    if s != [] {
      SelectionsArePermutation(s[1..], marks[1..]);
      assert s == [s[0]] + s[1..];
    }
  }

  lemma Shifted<T>(x: seq<T>, y: seq<T>, a: T, p: seq<T>)
    ensures (x + (y + [a])) + p == (x + y) + ([a] + p)
  {
  }

  lemma ExchangedParts<T>(s: seq<T>, f: nat, l: nat, t: nat)
    requires 1 <= f <= l <= t <= |s|
    ensures var r := Exchanged(s, f, l, t);
            && r[0] == s[0] && r[1..f + (t - l)] == s[1..f] + s[l..t] && r[f + (t - l)..t] == s[f..l]
            && r[t..] == s[t..]
  {
  }
}
