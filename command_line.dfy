/**
 * The argument loop of `main` in macshift.cpp and the display of the chosen
 * address.
 *
 * The loop reads the arguments after the program name from left to right.
 * Its state is the adapter name, whether a MAC address mode has been chosen,
 * and the new MAC address; the address starts as the random address that
 * `main` generates before it parses anything. The empty address means
 * "restore the original address". `-a` consumes the argument after it.
 * The first error or `-h` ends the loop.
 */
module CommandLine {
  import opened MacAddress

  datatype ParseError =
    | MoreThanOneMode          // "Command-line arguments contain more than one MAC address mode"
    | MissingMacArgument       // "Missing MAC address argument"
    | InvalidMacArgument       // "Invalid MAC address, must match pattern /[0-9a-fA-F]{12}/"
    | UnrecognizedFlag         // "Unrecognized command-line flag"
    | MoreThanOneAdapterName   // "Command-line arguments contain more than network adapter name"

  /** What parsing decides: an error message, the help screen with failure status, or the two values. */
  datatype ParseOutcome =
    | Failed(error: ParseError)
    | ShowHelp
    | Parsed(adapter: string, newMac: string)

  datatype ParseState = ParseState(adapter: string, modeSet: bool, newMac: string)

  /** What one pass of the loop body does at index `i`. */
  datatype Step = Continue(next: nat, state: ParseState) | Stop(outcome: ParseOutcome)

  /** `arg.find("-") == 0`: the argument starts with a dash (the empty argument does not). */
  predicate IsFlag(arg: string) {
    |arg| > 0 && arg[0] == '-'
  }

  predicate IsModeFlag(arg: string) {
    arg == "-d" || arg == "-r" || arg == "-a"
  }

  function Initial(randomMac: string): ParseState {
    ParseState("", false, randomMac)
  }

  /** The loop body at index `i`; a continuing step moves on by one, or by two after `-a`. */
  function StepAt(args: seq<string>, i: nat, st: ParseState): (r: Step)
    requires i < |args|
    ensures r.Continue? ==> i < r.next <= |args|
    ensures r.Continue? && args[i] == "-a" ==> r.next == i + 2
    ensures r.Continue? && args[i] != "-a" ==> r.next == i + 1
  {
    var arg := args[i];
    if IsFlag(arg) then
      if arg == "-h" then Stop(ShowHelp)
      else if IsModeFlag(arg) then
        if st.modeSet then Stop(Failed(MoreThanOneMode))
        else if arg == "-d" then Continue(i + 1, st.(modeSet := true, newMac := ""))
        else if arg == "-r" then Continue(i + 1, st.(modeSet := true))
        else if |args| - i <= 1 then Stop(Failed(MissingMacArgument))
        else if !ValidMac(args[i + 1]) then Stop(Failed(InvalidMacArgument))
        else Continue(i + 2, st.(modeSet := true, newMac := args[i + 1]))
      else Stop(Failed(UnrecognizedFlag))
    else if st.adapter != "" then Stop(Failed(MoreThanOneAdapterName))
    else Continue(i + 1, st.(adapter := arg))
  }

  /** After the loop: an empty adapter name shows the help screen. */
  function Finish(st: ParseState): ParseOutcome {
    if st.adapter == "" then ShowHelp else Parsed(st.adapter, st.newMac)
  }

  /** The rest of the parse from index `i` in state `st`. */
  function RunFrom(args: seq<string>, i: nat, st: ParseState): ParseOutcome
    decreases |args| - i
  {
    if i >= |args| then Finish(st)
    else match StepAt(args, i, st)
      case Stop(o) => o
      case Continue(k, s) => RunFrom(args, k, s)
  }

  /** The outcome of parsing `args` (the arguments after the program name). */
  function Parse(args: seq<string>, randomMac: string): ParseOutcome {
    RunFrom(args, 0, Initial(randomMac))
  }

  /** Runs the loop from `i` until it stops or reaches index `j` or beyond. */
  function RunUntil(args: seq<string>, i: nat, st: ParseState, j: nat): Step
    decreases |args| - i
  {
    if i >= j || i >= |args| then Continue(i, st)
    else match StepAt(args, i, st)
      case Stop(o) => Stop(o)
      case Continue(k, s) => RunUntil(args, k, s, j)
  }

  /** The loop, started on `args`, arrives at index `j` in state `st` without having stopped. */
  predicate Reaches(args: seq<string>, randomMac: string, j: nat, st: ParseState) {
    RunUntil(args, 0, Initial(randomMac), j) == Continue(j, st)
  }

  /**
   * The argument loop of `main`, with `randomMac` the address generated
   * before it. `return` stands for the early exits: `return EXIT_FAILURE`
   * after `-h`, and the `invalid_argument` exceptions caught after the loop.
   */
  method ParseArgs(args: seq<string>, randomMac: string) returns (out: ParseOutcome)
    ensures out == Parse(args, randomMac)
  {
    var adapter := "";
    var isMacModeSet := false;
    var newMac := randomMac;
    var i := 0;
    while i < |args|
      invariant i <= |args|
      invariant RunFrom(args, i, ParseState(adapter, isMacModeSet, newMac)) == Parse(args, randomMac)
    {
      ghost var before := ParseState(adapter, isMacModeSet, newMac);
      ghost var at := i;
      var arg := args[i];
      if IsFlag(arg) {
        if arg == "-h" {
          return ShowHelp;
        } else if arg == "-d" || arg == "-r" || arg == "-a" {
          if isMacModeSet {
            return Failed(MoreThanOneMode);
          }
          isMacModeSet := true;
          if arg == "-d" {
            newMac := "";
          } else if arg == "-r" {
            // newMac already holds the random address
          } else {
            if |args| - i <= 1 {
              return Failed(MissingMacArgument);
            }
            i := i + 1;
            var val := args[i];
            var ok := IsValidMac(val);
            if !ok {
              return Failed(InvalidMacArgument);
            }
            newMac := val;
          }
        } else {
          return Failed(UnrecognizedFlag);
        }
      } else {
        if adapter != "" {
          return Failed(MoreThanOneAdapterName);
        }
        adapter := arg;
      }
      i := i + 1;
      assert StepAt(args, at, before) == Continue(i, ParseState(adapter, isMacModeSet, newMac));
    }
    if adapter == "" {
      return ShowHelp;
    }
    return Parsed(adapter, newMac);
  }

  // ---------------------------------------------------------------------
  // Running to an index, then on
  // ---------------------------------------------------------------------

  lemma {:induction false} RunUntilThenFrom(args: seq<string>, i: nat, st: ParseState, j: nat, s': ParseState)
    requires RunUntil(args, i, st, j) == Continue(j, s')
    ensures RunFrom(args, i, st) == RunFrom(args, j, s')
    decreases |args| - i
  {
    if i >= j || i >= |args| {
    } else {
      match StepAt(args, i, st)
      case Stop(o) =>
      case Continue(k, s) =>
        RunUntilThenFrom(args, k, s, j, s');
    }
  }

  lemma {:induction false} RunUntilExtend(args: seq<string>, i: nat, st: ParseState, j: nat, s: ParseState, k: nat, s2: ParseState)
    requires RunUntil(args, i, st, j) == Continue(j, s)
    requires j < |args| && StepAt(args, j, s) == Continue(k, s2)
    ensures RunUntil(args, i, st, k) == Continue(k, s2)
    decreases |args| - i
  {
    if i >= j || i >= |args| {
      assert i == j;
      assert RunUntil(args, k, s2, k) == Continue(k, s2);
    } else {
      match StepAt(args, i, st)
      case Stop(o) =>
      case Continue(k', s') =>
        RunUntilExtend(args, k', s', j, s, k, s2);
    }
  }

  /** Once the loop reaches index `j` in state `st`, the parse is decided from there on. */
  lemma ReachedDecides(args: seq<string>, randomMac: string, j: nat, st: ParseState)
    requires Reaches(args, randomMac, j, st)
    ensures Parse(args, randomMac) == RunFrom(args, j, st)
  {
    RunUntilThenFrom(args, 0, Initial(randomMac), j, st);
  }

  /** Reaching an index and taking one more step reaches the next index. */
  lemma ReachesNext(args: seq<string>, randomMac: string, j: nat, st: ParseState)
    requires Reaches(args, randomMac, j, st) && j < |args|
    requires StepAt(args, j, st).Continue?
    ensures Reaches(args, randomMac, StepAt(args, j, st).next, StepAt(args, j, st).state)
  {
    var step := StepAt(args, j, st);
    RunUntilExtend(args, 0, Initial(randomMac), j, st, step.next, step.state);
  }

  /** The loop starts at index 0 in the initial state: the base case for applying the lemmas below from the start. */
  lemma StartReached(args: seq<string>, randomMac: string)
    ensures Reaches(args, randomMac, 0, Initial(randomMac))
  {
  }

  // ---------------------------------------------------------------------
  // What each argument does when the loop reaches it
  // ---------------------------------------------------------------------

  /** `-h` stops parsing with the help screen and failure status. */
  lemma HelpFlagStops(args: seq<string>, randomMac: string, j: nat, st: ParseState)
    requires Reaches(args, randomMac, j, st) && j < |args| && args[j] == "-h"
    ensures Parse(args, randomMac) == ShowHelp
  {
    ReachedDecides(args, randomMac, j, st);
  }

  /** A second `-d`, `-r` or `-a` is the "more than one MAC address mode" error. */
  lemma SecondModeRejected(args: seq<string>, randomMac: string, j: nat, st: ParseState)
    requires Reaches(args, randomMac, j, st) && j < |args|
    requires st.modeSet && IsModeFlag(args[j])
    ensures Parse(args, randomMac) == Failed(MoreThanOneMode)
  {
    ReachedDecides(args, randomMac, j, st);
  }

  /** `-a` as the last argument is the "Missing MAC address argument" error. */
  lemma MissingMacRejected(args: seq<string>, randomMac: string, st: ParseState)
    requires |args| > 0 && Reaches(args, randomMac, |args| - 1, st)
    requires !st.modeSet && args[|args| - 1] == "-a"
    ensures Parse(args, randomMac) == Failed(MissingMacArgument)
  {
    ReachedDecides(args, randomMac, |args| - 1, st);
  }

  /** `-a` followed by an argument that fails the validator is the "Invalid MAC address" error. */
  lemma InvalidMacRejected(args: seq<string>, randomMac: string, j: nat, st: ParseState)
    requires j + 1 < |args| && Reaches(args, randomMac, j, st)
    requires !st.modeSet && args[j] == "-a" && !ValidMac(args[j + 1])
    ensures Parse(args, randomMac) == Failed(InvalidMacArgument)
  {
    ReachedDecides(args, randomMac, j, st);
  }

  /**
   * `-a` followed by a valid address takes that argument as the new address,
   * exactly as written, and skips it: parsing goes on after it with the
   * adapter name unchanged.
   */
  lemma ExplicitMacTaken(args: seq<string>, randomMac: string, j: nat, st: ParseState)
    requires j + 1 < |args| && Reaches(args, randomMac, j, st)
    requires !st.modeSet && args[j] == "-a" && ValidMac(args[j + 1])
    ensures Reaches(args, randomMac, j + 2, ParseState(st.adapter, true, args[j + 1]))
  {
    ReachesNext(args, randomMac, j, st);
  }

  /** `-d` sets the new address to the empty restore value. */
  lemma DeleteModeTaken(args: seq<string>, randomMac: string, j: nat, st: ParseState)
    requires j < |args| && Reaches(args, randomMac, j, st)
    requires !st.modeSet && args[j] == "-d"
    ensures Reaches(args, randomMac, j + 1, ParseState(st.adapter, true, ""))
  {
    ReachesNext(args, randomMac, j, st);
  }

  /** `-r` only records that a mode was chosen; the address stays as it was. */
  lemma RandomModeTaken(args: seq<string>, randomMac: string, j: nat, st: ParseState)
    requires j < |args| && Reaches(args, randomMac, j, st)
    requires !st.modeSet && args[j] == "-r"
    ensures Reaches(args, randomMac, j + 1, st.(modeSet := true))
  {
    ReachesNext(args, randomMac, j, st);
  }

  /** Any other argument starting with a dash (`--help` among them) is the "Unrecognized command-line flag" error. */
  lemma UnknownFlagRejected(args: seq<string>, randomMac: string, j: nat, st: ParseState)
    requires j < |args| && Reaches(args, randomMac, j, st)
    requires IsFlag(args[j]) && args[j] != "-h" && !IsModeFlag(args[j])
    ensures Parse(args, randomMac) == Failed(UnrecognizedFlag)
  {
    ReachedDecides(args, randomMac, j, st);
  }

  /** A positional argument while the adapter name is already set is an error. */
  lemma SecondAdapterRejected(args: seq<string>, randomMac: string, j: nat, st: ParseState)
    requires j < |args| && Reaches(args, randomMac, j, st)
    requires !IsFlag(args[j]) && st.adapter != ""
    ensures Parse(args, randomMac) == Failed(MoreThanOneAdapterName)
  {
    ReachedDecides(args, randomMac, j, st);
  }

  /**
   * A positional argument while the adapter name is empty becomes the name;
   * an empty argument therefore leaves it empty, and a later positional
   * argument replaces it without error.
   */
  lemma AdapterTaken(args: seq<string>, randomMac: string, j: nat, st: ParseState)
    requires j < |args| && Reaches(args, randomMac, j, st)
    requires !IsFlag(args[j]) && st.adapter == ""
    ensures Reaches(args, randomMac, j + 1, st.(adapter := args[j]))
  {
    ReachesNext(args, randomMac, j, st);
  }

  /** At the end of the arguments an empty adapter name gives help; otherwise the two values. */
  lemma EndDecides(args: seq<string>, randomMac: string, st: ParseState)
    requires Reaches(args, randomMac, |args|, st)
    ensures st.adapter == "" ==> Parse(args, randomMac) == ShowHelp
    ensures st.adapter != "" ==> Parse(args, randomMac) == Parsed(st.adapter, st.newMac)
  {
    ReachedDecides(args, randomMac, |args|, st);
  }

  // ---------------------------------------------------------------------
  // What a successful parse implies about the whole argument list
  // ---------------------------------------------------------------------

  /** No argument consumed by `-a` starts with a dash, because a valid address does not. */
  lemma ValidMacIsNotFlag(s: string)
    requires ValidMac(s)
    ensures !IsFlag(s)
  {
    assert IsHexChar(s[0]);
  }

  lemma {:induction false} ParsedFromShape(args: seq<string>, i: nat, st: ParseState)
    requires RunFrom(args, i, st).Parsed?
    ensures forall k :: i <= k < |args| && IsFlag(args[k]) ==> IsModeFlag(args[k])
    ensures forall k1, k2 :: i <= k1 < |args| && i <= k2 < |args| && IsModeFlag(args[k1]) && IsModeFlag(args[k2]) ==> k1 == k2
    ensures st.modeSet ==> forall k :: i <= k < |args| ==> !IsModeFlag(args[k])
    decreases |args| - i
  {
    if i < |args| {
      match StepAt(args, i, st)
      case Stop(o) =>
      case Continue(n, s) =>
        ParsedFromShape(args, n, s);
        if n == i + 2 {
          ValidMacIsNotFlag(args[i + 1]);
        }
    }
  }

  /**
   * A parse that succeeds saw no `-h`, no unrecognised flag and at most one
   * of `-d`, `-r`, `-a`; its adapter name is one of the arguments, is not
   * empty and does not start with a dash.
   */
  lemma ParsedShape(args: seq<string>, randomMac: string)
    requires Parse(args, randomMac).Parsed?
    ensures forall k :: 0 <= k < |args| ==> args[k] != "-h"
    ensures forall k :: 0 <= k < |args| && IsFlag(args[k]) ==> IsModeFlag(args[k])
    ensures forall k1, k2 :: 0 <= k1 < |args| && 0 <= k2 < |args| && IsModeFlag(args[k1]) && IsModeFlag(args[k2]) ==> k1 == k2
    ensures Parse(args, randomMac).adapter != ""
    ensures Parse(args, randomMac).adapter in args && !IsFlag(Parse(args, randomMac).adapter)
  {
    ParsedFromShape(args, 0, Initial(randomMac));
    forall k | 0 <= k < |args| ensures args[k] != "-h" {
      if args[k] == "-h" {
        assert IsFlag(args[k]);
      }
    }
    ParsedAdapterFrom(args, 0, Initial(randomMac));
  }

  lemma {:induction false} ParsedAdapterFrom(args: seq<string>, i: nat, st: ParseState)
    requires RunFrom(args, i, st).Parsed?
    requires st.adapter != "" ==> st.adapter in args && !IsFlag(st.adapter)
    ensures RunFrom(args, i, st).adapter != ""
    ensures RunFrom(args, i, st).adapter in args && !IsFlag(RunFrom(args, i, st).adapter)
    decreases |args| - i
  {
    if i < |args| {
      match StepAt(args, i, st)
      case Stop(o) =>
      case Continue(n, s) =>
        ParsedAdapterFrom(args, n, s);
    }
  }

  lemma {:induction false} NoModeKeepsRandomFrom(args: seq<string>, randomMac: string, i: nat, st: ParseState)
    requires RunFrom(args, i, st).Parsed?
    requires st.newMac == randomMac
    requires forall k :: i <= k < |args| ==> args[k] != "-d" && args[k] != "-a"
    ensures RunFrom(args, i, st).newMac == randomMac
    decreases |args| - i
  {
    if i < |args| {
      match StepAt(args, i, st)
      case Stop(o) =>
      case Continue(n, s) =>
        NoModeKeepsRandomFrom(args, randomMac, n, s);
    }
  }

  /** Without `-d` and `-a` (with `-r` or no mode flag at all) the address is the pre-generated random one. */
  lemma RandomByDefault(args: seq<string>, randomMac: string)
    requires Parse(args, randomMac).Parsed?
    requires forall k :: 0 <= k < |args| ==> args[k] != "-d" && args[k] != "-a"
    ensures Parse(args, randomMac).newMac == randomMac
  {
    NoModeKeepsRandomFrom(args, randomMac, 0, Initial(randomMac));
  }

  lemma {:induction false} DeleteFrom(args: seq<string>, i: nat, st: ParseState)
    requires RunFrom(args, i, st).Parsed?
    requires (st.modeSet && st.newMac == "") || (exists k :: i <= k < |args| && args[k] == "-d")
    ensures RunFrom(args, i, st).newMac == ""
    decreases |args| - i
  {
    if i < |args| {
      match StepAt(args, i, st)
      case Stop(o) =>
      case Continue(n, s) =>
        if n == i + 2 {
          assert ValidMac(args[i + 1]);
          ValidMacIsNotFlag(args[i + 1]);
        }
        if !(st.modeSet && st.newMac == "") && args[i] != "-d" {
          var k :| i <= k < |args| && args[k] == "-d";
          assert n <= k;
        }
        DeleteFrom(args, n, s);
    }
  }

  /** With `-d` anywhere in a successful parse, the address is the restore value "". */
  lemma DeleteModeRestores(args: seq<string>, randomMac: string, k: nat)
    requires Parse(args, randomMac).Parsed?
    requires k < |args| && args[k] == "-d"
    ensures Parse(args, randomMac).newMac == ""
  {
    DeleteFrom(args, 0, Initial(randomMac));
  }

  lemma {:induction false} ExplicitFrom(args: seq<string>, i: nat, st: ParseState, k: nat)
    requires RunFrom(args, i, st).Parsed?
    requires i <= k < |args| && args[k] == "-a"
    ensures k + 1 < |args| && ValidMac(args[k + 1])
    ensures RunFrom(args, i, st).newMac == args[k + 1]
    decreases |args| - i
  {
    match StepAt(args, i, st)
    case Stop(o) =>
    case Continue(n, s) =>
      if i == k {
        ParsedFromShape(args, n, s);
        assert s.modeSet && s.newMac == args[k + 1];
        KeepsModeFrom(args, n, s);
      } else {
        if n == i + 2 {
          ValidMacIsNotFlag(args[i + 1]);
        }
        ExplicitFrom(args, n, s, k);
      }
  }

  lemma {:induction false} KeepsModeFrom(args: seq<string>, i: nat, st: ParseState)
    requires RunFrom(args, i, st).Parsed?
    requires st.modeSet
    ensures RunFrom(args, i, st).newMac == st.newMac
    decreases |args| - i
  {
    if i < |args| {
      match StepAt(args, i, st)
      case Stop(o) =>
      case Continue(n, s) =>
        KeepsModeFrom(args, n, s);
    }
  }

  /** With `-a` at index `k` in a successful parse, the address is the argument after it, case preserved. */
  lemma ExplicitMacUsed(args: seq<string>, randomMac: string, k: nat)
    requires Parse(args, randomMac).Parsed?
    requires k < |args| && args[k] == "-a"
    ensures k + 1 < |args| && ValidMac(args[k + 1])
    ensures Parse(args, randomMac).newMac == args[k + 1]
  {
    ExplicitFrom(args, 0, Initial(randomMac), k);
  }

  /** A parsed address is the random one, the restore value, or a valid explicit address. */
  lemma ParsedMacForms(args: seq<string>, randomMac: string)
    requires Parse(args, randomMac).Parsed?
    ensures var m := Parse(args, randomMac).newMac;
      m == randomMac || m == "" || ValidMac(m)
  {
    if k :| 0 <= k < |args| && args[k] == "-a" {
      ExplicitMacUsed(args, randomMac, k);
    } else if k :| 0 <= k < |args| && args[k] == "-d" {
      DeleteModeRestores(args, randomMac, k);
    } else {
      RandomByDefault(args, randomMac);
    }
  }

  /** Concrete argument lists showing the loop's quirks. */
  lemma ParseExamples(randomMac: string)
    // `--help` is not `-h`: it is an unrecognised flag
    ensures Parse(["Wi-Fi", "--help"], randomMac) == Failed(UnrecognizedFlag)
    // an empty positional argument leaves the name empty, so a later one replaces it
    ensures Parse(["", "Ethernet"], randomMac) == Parsed("Ethernet", randomMac)
    // the explicit address is kept as written, letter case included
    ensures Parse(["Ethernet", "-a", "02abcDEF9876"], randomMac) == Parsed("Ethernet", "02abcDEF9876")
    ensures Parse(["Ethernet", "-d"], randomMac) == Parsed("Ethernet", "")
    ensures Parse(["-r", "Wi-Fi", "-d"], randomMac) == Failed(MoreThanOneMode)
    // the first error or `-h` decides
    ensures Parse(["Wi-Fi", "-h", "-x"], randomMac) == ShowHelp
    ensures Parse(["-x", "-h"], randomMac) == Failed(UnrecognizedFlag)
    ensures Parse(["Wi-Fi", "-a"], randomMac) == Failed(MissingMacArgument)
    ensures Parse(["Wi-Fi", "-a", "02ABCDEF987"], randomMac) == Failed(InvalidMacArgument)
    ensures Parse([], randomMac) == ShowHelp
    ensures Parse(["-r"], randomMac) == ShowHelp
  {
    assert IsHexChar('c') && IsHexChar('D');
    assert ValidMac("02abcDEF9876");
    var quirk := ["", "Ethernet"];
    assert StepAt(quirk, 0, Initial(randomMac)) == Continue(1, Initial(randomMac));
    assert RunFrom(quirk, 1, Initial(randomMac)) == Parsed("Ethernet", randomMac);
  }

  // ---------------------------------------------------------------------
  // Display of the chosen address
  // ---------------------------------------------------------------------

  /**
   * `text` is how the new address is shown: `(restore)` for the empty
   * address, otherwise the 12 characters in pairs with `-` between the
   * pairs. The 12 characters and 5 dashes fill all 17 positions.
   */
  predicate Displays(newMac: string, text: string) {
    && (newMac == "" ==> text == "(restore)")
    && (newMac != "" ==>
          && |newMac| == 12 && |text| == 17
          && (forall j :: 0 <= j < 12 ==> text[j + j / 2] == newMac[j])
          && (forall g :: 1 <= g < 6 ==> text[3 * g - 1] == '-'))
  }

  /** There is only one way to show an address. */
  lemma DisplayUnique(newMac: string, t1: string, t2: string)
    requires Displays(newMac, t1) && Displays(newMac, t2)
    ensures t1 == t2
  {
    if newMac != "" {
      forall i | 0 <= i < 17 ensures t1[i] == t2[i] {
        var g, r := i / 3, i % 3;
        if r == 2 {
          assert t1[3 * (g + 1) - 1] == t2[3 * (g + 1) - 1];
        } else {
          var j := 2 * g + r;
          assert 0 <= j < 12 && j + j / 2 == i;
          assert t1[j + j / 2] == newMac[j] == t2[j + j / 2];
        }
      }
    }
  }

  /**
   * The text `main` prints after "New MAC address: ": "(restore)" for the
   * empty address, otherwise the twelve characters in pairs joined by dashes.
   * The address is always empty or 12 characters long here (ParsedMacForms).
   */
  method ShowNewMac(newMac: string) returns (text: string)
    requires newMac == "" || |newMac| == 12
    ensures Displays(newMac, text)
  {
    if newMac == "" {
      return "(restore)";
    }
    text := "";
    var i := 0;
    while i < 12
      invariant 0 <= i <= 12 && i % 2 == 0
      invariant |text| == if i == 0 then 0 else i + i / 2 - 1
      invariant forall j :: 0 <= j < i ==> text[j + j / 2] == newMac[j]
      invariant forall g :: 1 <= g < i / 2 ==> text[3 * g - 1] == '-'
    {
      if i > 0 {
        text := text + "-";
      }
      text := text + newMac[i..i + 2];
      i := i + 2;
    }
  }
}
