/** The command-line scan `parseArgs` (tweet-screenshot.js lines 46-81).

    Arguments are read left to right. `-h`/`--help` ends the scan with the usage text
    (exit status 0); `--no-border` clears the border; `-o`/`--output` takes the next
    argument verbatim as the output file name, and ends the scan with an error (exit
    status 1) when there is none or it is empty; everything else is positional, and the
    first positional is the URL. With no positional the URL is asked for on the console,
    which this model records as "no URL yet". */
module CliArgs {
  import opened Wrappers

  predicate IsHelpFlag(arg: string) {
    arg == "-h" || arg == "--help"
  }

  const NoBorderFlag: string := "--no-border"

  predicate IsOutputFlag(arg: string) {
    arg == "-o" || arg == "--output"
  }

  /** The one error `parseArgs` reports: "--output requires a filename". */
  datatype ArgsError = MissingOutputFile

  /** How `parseArgs` ends: `process.exit(0)` after the usage text, `process.exit(1)`
      after an error, or returning its result. `url == None` means the URL is still to be
      asked for on the console. */
  datatype ArgsOutcome =
    | Help
    | Error(err: ArgsError)
    | Ok(border: bool, output: Option<string>, url: Option<string>)

  /** The variables the loop updates: `result.border`, `result.output`, `positional`. */
  datatype ScanState = ScanState(border: bool, output: Option<string>, positional: seq<string>)

  const Initial: ScanState := ScanState(true, None, [])

  function Finish(st: ScanState): ArgsOutcome {
    Ok(st.border, st.output, if |st.positional| >= 1 then Some(st.positional[0]) else None)
  }

  /** The scan from index `i` on, in state `st`. */
  function Scan(args: seq<string>, i: nat, st: ScanState): ArgsOutcome
    requires i <= |args|
    decreases |args| - i
  {
    if i == |args| then Finish(st)
    else if IsHelpFlag(args[i]) then Help
    else if args[i] == NoBorderFlag then Scan(args, i + 1, st.(border := false))
    else if IsOutputFlag(args[i]) then
      if i + 1 == |args| || args[i + 1] == "" then Error(MissingOutputFile)
      else Scan(args, i + 2, st.(output := Some(args[i + 1])))
    else Scan(args, i + 1, st.(positional := st.positional + [args[i]]))
  }

  function Parse(args: seq<string>): ArgsOutcome {
    Scan(args, 0, Initial)
  }

  /** `parseArgs(args)` up to the console prompt. */
  method ParseArgs(args: seq<string>) returns (r: ArgsOutcome)
    ensures r == Parse(args)
  {
    var border, output, positional := true, None, [];
    var i := 0;
    while i < |args|
      invariant i <= |args|
      invariant Scan(args, i, ScanState(border, output, positional)) == Parse(args)
    {
      var arg := args[i];
      if IsHelpFlag(arg) {
        return Help;
      } else if arg == NoBorderFlag {
        border := false;
      } else if IsOutputFlag(arg) {
        i := i + 1;
        if i == |args| || args[i] == "" {
          return Error(MissingOutputFile);
        }
        output := Some(args[i]);
      } else {
        positional := positional + [arg];
      }
      i := i + 1;
    }
    var url := if |positional| >= 1 then Some(positional[0]) else None;
    r := Ok(border, output, url);
  }

  // ---------------------------------------------------------------------------
  // Which argument plays which part, stated position by position.

  /** `args[k]` is the file name of the output flag just before it, so the scan
      steps over it (`args[++i]`). Defined for `k == |args|` too. */
  predicate IsOperand(args: seq<string>, k: nat)
    requires k <= |args|
    decreases k
  {
    k > 0 && IsOutputFlag(args[k - 1]) && !IsOperand(args, k - 1)
  }

  /** The scan looks at `args[k]` as an argument of its own (if it gets that far). */
  predicate Scanned(args: seq<string>, k: nat) {
    k < |args| && !IsOperand(args, k)
  }

  /** The output flag at `k` has no usable file name after it. */
  predicate MissingOperand(args: seq<string>, k: nat)
    requires k < |args|
  {
    k + 1 == |args| || args[k + 1] == ""
  }

  /** The scan ends at `k` if it gets there: a help flag or a dangling output flag. */
  predicate StopsAt(args: seq<string>, k: nat) {
    && Scanned(args, k)
    && (IsHelpFlag(args[k]) || (IsOutputFlag(args[k]) && MissingOperand(args, k)))
  }

  predicate SetsOutput(args: seq<string>, k: nat) {
    Scanned(args, k) && IsOutputFlag(args[k])
  }

  predicate IsPositional(args: seq<string>, k: nat) {
    && Scanned(args, k)
    && !IsHelpFlag(args[k])
    && args[k] != NoBorderFlag
    && !IsOutputFlag(args[k])
  }

  /** Index `i` is where the scan looks next: not the file name of an output flag. */
  predicate Boundary(args: seq<string>, i: nat) {
    i <= |args| && !IsOperand(args, i)
  }

  lemma StepBoundary(args: seq<string>, i: nat)
    requires Boundary(args, i) && i < |args| && !StopsAt(args, i)
    ensures IsOutputFlag(args[i]) ==> i + 2 <= |args| && IsOperand(args, i + 1) && Boundary(args, i + 2)
    ensures !IsOutputFlag(args[i]) ==> Boundary(args, i + 1)
  {
    if IsOutputFlag(args[i]) {
      assert IsOperand(args, i + 1);
      assert !IsOperand(args, i + 2);
    } else {
      assert !IsOperand(args, i + 1);
    }
  }

  lemma {:induction false} ScanStops(args: seq<string>, i: nat, st: ScanState)
    requires Boundary(args, i)
    ensures Scan(args, i, st).Ok? <==> forall k: nat :: i <= k ==> !StopsAt(args, k)
    ensures Scan(args, i, st).Help? <==>
      exists k: nat :: i <= k && StopsAt(args, k) && IsHelpFlag(args[k]) && forall j: nat :: i <= j < k ==> !StopsAt(args, j)
    ensures Scan(args, i, st).Error? <==>
      exists k: nat :: i <= k && StopsAt(args, k) && IsOutputFlag(args[k]) && forall j: nat :: i <= j < k ==> !StopsAt(args, j)
    decreases |args| - i
  {
    if i == |args| {
    } else if StopsAt(args, i) {
      assert IsHelpFlag(args[i]) || IsOutputFlag(args[i]);
    } else {
      StepBoundary(args, i);
      var next := if IsOutputFlag(args[i]) then i + 2 else i + 1;
      assert forall j: nat :: i <= j < next ==> !StopsAt(args, j);
      if args[i] == NoBorderFlag {
        ScanStops(args, next, st.(border := false));
      } else if IsOutputFlag(args[i]) {
        ScanStops(args, next, st.(output := Some(args[i + 1])));
      } else {
        ScanStops(args, next, st.(positional := st.positional + [args[i]]));
      }
    }
  }

  lemma {:induction false} ScanBorder(args: seq<string>, i: nat, st: ScanState)
    requires Boundary(args, i) && Scan(args, i, st).Ok?
    ensures Scan(args, i, st).border <==>
      st.border && forall k: nat :: i <= k && Scanned(args, k) ==> args[k] != NoBorderFlag
    decreases |args| - i
  {
    if i < |args| {
      StepBoundary(args, i);
      if args[i] == NoBorderFlag {
        ScanBorder(args, i + 1, st.(border := false));
      } else if IsOutputFlag(args[i]) {
        ScanBorder(args, i + 2, st.(output := Some(args[i + 1])));
      } else {
        ScanBorder(args, i + 1, st.(positional := st.positional + [args[i]]));
      }
    }
  }

  lemma {:induction false} ScanOutput(args: seq<string>, i: nat, st: ScanState)
    requires Boundary(args, i) && Scan(args, i, st).Ok?
    ensures (forall k: nat :: i <= k ==> !SetsOutput(args, k)) ==> Scan(args, i, st).output == st.output
    ensures (exists k: nat :: i <= k && SetsOutput(args, k)) ==>
      exists k: nat :: && i <= k && SetsOutput(args, k) && k + 1 < |args|
                  && Scan(args, i, st).output == Some(args[k + 1])
                  && forall j: nat :: k < j ==> !SetsOutput(args, j)
    decreases |args| - i
  {
    if i < |args| {
      StepBoundary(args, i);
      if args[i] == NoBorderFlag {
        ScanOutput(args, i + 1, st.(border := false));
      } else if IsOutputFlag(args[i]) {
        ScanOutput(args, i + 2, st.(output := Some(args[i + 1])));
        assert SetsOutput(args, i) && !SetsOutput(args, i + 1);
        if !exists k: nat :: i + 2 <= k && SetsOutput(args, k) {
          assert forall j: nat :: i < j ==> !SetsOutput(args, j);
        }
      } else {
        ScanOutput(args, i + 1, st.(positional := st.positional + [args[i]]));
      }
    }
  }

  lemma {:induction false} ScanUrl(args: seq<string>, i: nat, st: ScanState)
    requires Boundary(args, i) && Scan(args, i, st).Ok?
    ensures st.positional != [] ==> Scan(args, i, st).url == Some(st.positional[0])
    ensures st.positional == [] ==>
      (Scan(args, i, st).url.None? <==> forall k: nat :: i <= k ==> !IsPositional(args, k))
    ensures st.positional == [] && Scan(args, i, st).url.Some? ==>
      exists k: nat :: && i <= k && IsPositional(args, k) && Scan(args, i, st).url == Some(args[k])
                       && forall j: nat :: i <= j < k ==> !IsPositional(args, j)
    decreases |args| - i
  {
    if i < |args| {
      StepBoundary(args, i);
      var url := Scan(args, i, st).url;
      if args[i] == NoBorderFlag || IsOutputFlag(args[i]) {
        var next := if IsOutputFlag(args[i]) then i + 2 else i + 1;
        var st' := if IsOutputFlag(args[i]) then st.(output := Some(args[i + 1])) else st.(border := false);
        assert Scan(args, i, st) == Scan(args, next, st');
        ScanUrl(args, next, st');
        assert forall j: nat :: i <= j < next ==> !IsPositional(args, j);
        if st.positional == [] && url.Some? {
          var k: nat :| && next <= k && IsPositional(args, k) && url == Some(args[k])
                        && forall j: nat :: next <= j < k ==> !IsPositional(args, j);
          assert forall j: nat :: i <= j < k ==> !IsPositional(args, j);
        }
      } else {
        ScanUrl(args, i + 1, st.(positional := st.positional + [args[i]]));
        assert IsPositional(args, i);
      }
    }
  }

  // ---------------------------------------------------------------------------
  // What `parseArgs` promises, for the whole argument list.

  /** The scan ends early exactly at the first stopping argument: with the usage text if
      it is a help flag, with the missing-file-name error if it is an output flag. */
  lemma ParseOutcome(args: seq<string>)
    ensures Parse(args).Ok? <==> forall k: nat :: !StopsAt(args, k)
    ensures Parse(args) == Help <==>
      exists k: nat :: StopsAt(args, k) && IsHelpFlag(args[k]) && forall j: nat :: j < k ==> !StopsAt(args, j)
    ensures Parse(args) == Error(MissingOutputFile) <==>
      exists k: nat :: StopsAt(args, k) && IsOutputFlag(args[k]) && forall j: nat :: j < k ==> !StopsAt(args, j)
  {
    ScanStops(args, 0, Initial);
  }

  /** The border stays on unless `--no-border` is among the scanned arguments. */
  lemma ParseBorder(args: seq<string>)
    requires Parse(args).Ok?
    ensures Parse(args).border <==> forall k: nat :: Scanned(args, k) ==> args[k] != NoBorderFlag
  {
    ScanBorder(args, 0, Initial);
  }

  /** The output name is the (non-empty) argument after the last output flag, if any. */
  lemma ParseOutput(args: seq<string>)
    requires Parse(args).Ok?
    ensures Parse(args).output.None? <==> forall k: nat :: !SetsOutput(args, k)
    ensures Parse(args).output.Some? ==>
      exists k: nat :: && SetsOutput(args, k) && k + 1 < |args| && IsOperand(args, k + 1)
                  && Parse(args).output == Some(args[k + 1]) && args[k + 1] != ""
                  && forall j: nat :: k < j ==> !SetsOutput(args, j)
  {
    ScanOutput(args, 0, Initial);
    ScanStops(args, 0, Initial);
    if Parse(args).output.Some? {
      var k: nat :| && SetsOutput(args, k) && k + 1 < |args|
               && Parse(args).output == Some(args[k + 1])
               && forall j: nat :: k < j ==> !SetsOutput(args, j);
      assert !StopsAt(args, k);
      assert IsOperand(args, k + 1);
    }
  }

  /** The URL is the first positional argument; with none it must be asked for. */
  lemma ParseUrl(args: seq<string>)
    requires Parse(args).Ok?
    ensures Parse(args).url.None? <==> forall k: nat :: !IsPositional(args, k)
    ensures Parse(args).url.Some? ==>
      exists k: nat :: && IsPositional(args, k) && Parse(args).url == Some(args[k])
                  && forall j: nat :: j < k ==> !IsPositional(args, j)
  {
    ScanUrl(args, 0, Initial);
  }

  lemma {:induction false} ScanHelpIsFinal(args: seq<string>, rest: seq<string>, i: nat, st: ScanState)
    requires i <= |args| && Scan(args, i, st) == Help
    ensures Scan(args + rest, i, st) == Help
    decreases |args| - i
  {
    var all := args + rest;
    assert all[i] == args[i];
    if IsHelpFlag(args[i]) {
    } else if args[i] == NoBorderFlag {
      ScanHelpIsFinal(args, rest, i + 1, st.(border := false));
    } else if IsOutputFlag(args[i]) {
      assert all[i + 1] == args[i + 1];
      ScanHelpIsFinal(args, rest, i + 2, st.(output := Some(args[i + 1])));
    } else {
      ScanHelpIsFinal(args, rest, i + 1, st.(positional := st.positional + [args[i]]));
    }
  }

  /** A help flag reached by the scan ends it, whatever follows. */
  lemma HelpIsFinal(args: seq<string>, rest: seq<string>)
    requires Parse(args) == Help
    ensures Parse(args + rest) == Help
  {
    ScanHelpIsFinal(args, rest, 0, Initial);
  }

  /** The file name after `-o` is taken as it is, even when it looks like a flag. */
  lemma OutputNamedLikeHelpFlag()
    ensures Parse(["-o", "-h"]) == Ok(true, Some("-h"), None)
    ensures Parse(["--output", "--no-border", "https://x.com/u/status/1"])
         == Ok(true, Some("--no-border"), Some("https://x.com/u/status/1"))
  {
  }
}
