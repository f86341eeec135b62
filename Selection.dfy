/** The interactive choice of operations at the start of `main` in main0.c:
    commands toggle four flags until "confirm". Console input is a sequence
    of tokens, one per `scanf("%s")`. */
module Selection {

  /** The four flags of `main`; C's 0 and 1 become false and true. */
  datatype OperationSet = OperationSet(greyscale: bool, sepia: bool, hflip: bool, vflip: bool)

  /** All flags cleared, as `main` starts. */
  const NoOperations := OperationSet(false, false, false, false)

  /** The commands the loop recognises. */
  const Commands: set<string> := {"gs", "sp", "hf", "vf"}

  /** Greyscale and sepia are never both selected. */
  predicate Exclusive(ops: OperationSet)
  {
    !(ops.greyscale && ops.sepia)
  }

  /** The effect of one command on the flags. */
  function Step(ops: OperationSet, cmd: string): (r: OperationSet)
    ensures Exclusive(ops) ==> Exclusive(r)
    ensures cmd == "gs" || cmd == "sp" ==> Exclusive(r)
    ensures cmd == "gs" ==> r.greyscale != ops.greyscale
    ensures cmd == "sp" ==> r.sepia != ops.sepia
    ensures cmd == "gs" ==> r.sepia == (ops.sepia && !r.greyscale)
    ensures cmd == "sp" ==> r.greyscale == (ops.greyscale && !r.sepia)
    ensures cmd != "gs" && cmd != "sp" ==> r.greyscale == ops.greyscale && r.sepia == ops.sepia
    ensures r.hflip != ops.hflip <==> cmd == "hf"
    ensures r.vflip != ops.vflip <==> cmd == "vf"
    ensures cmd !in Commands ==> r == ops
  {
    if cmd == "gs" then
      var g := !ops.greyscale;
      ops.(greyscale := g, sepia := if g then false else ops.sepia)
    else if cmd == "sp" then
      var s := !ops.sepia;
      ops.(sepia := s, greyscale := if s then false else ops.greyscale)
    else if cmd == "hf" then ops.(hflip := !ops.hflip)
    else if cmd == "vf" then ops.(vflip := !ops.vflip)
    else ops
  }

  /** The flags after reading `cmds` from state `ops`: every command up to
      the first "confirm" (or the end of input) is applied in order. */
  function Selected(ops: OperationSet, cmds: seq<string>): OperationSet
    decreases |cmds|
  {
    if |cmds| == 0 || cmds[0] == "confirm" then ops
    else Selected(Step(ops, cmds[0]), cmds[1..])
  }

  /** Whatever the commands, greyscale and sepia are never both chosen. */
  lemma {:induction false} SelectedExclusive(ops: OperationSet, cmds: seq<string>)
    requires Exclusive(ops)
    ensures Exclusive(Selected(ops, cmds))
    decreases |cmds|
  {
    if |cmds| > 0 && cmds[0] != "confirm" {
      SelectedExclusive(Step(ops, cmds[0]), cmds[1..]);
    }
  }

  /** Nothing after the first "confirm" has any effect. */
  lemma {:induction false} SelectedStopsAtConfirm(ops: OperationSet, before: seq<string>, after: seq<string>)
    requires "confirm" !in before
    ensures Selected(ops, before + ["confirm"] + after) == Selected(ops, before)
    decreases |before|
  {
    if |before| > 0 {
      assert (before + ["confirm"] + after)[1..] == before[1..] + ["confirm"] + after;
      SelectedStopsAtConfirm(Step(ops, before[0]), before[1..], after);
    }
  }

  /** How often `cmd` occurs before the first "confirm". */
  function CountBeforeConfirm(cmd: string, cmds: seq<string>): nat
    decreases |cmds|
  {
    if |cmds| == 0 || cmds[0] == "confirm" then 0
    else (if cmds[0] == cmd then 1 else 0) + CountBeforeConfirm(cmd, cmds[1..])
  }

  /** The flip flags toggle once per "hf" or "vf": they end up set exactly
      when they started set and were toggled an even number of times, or
      started clear and were toggled an odd number of times. */
  lemma {:induction false} SelectedFlipParity(ops: OperationSet, cmds: seq<string>)
    ensures Selected(ops, cmds).hflip == (ops.hflip != (CountBeforeConfirm("hf", cmds) % 2 == 1))
    ensures Selected(ops, cmds).vflip == (ops.vflip != (CountBeforeConfirm("vf", cmds) % 2 == 1))
    decreases |cmds|
  {
    if |cmds| > 0 && cmds[0] != "confirm" {
      SelectedFlipParity(Step(ops, cmds[0]), cmds[1..]);
    }
  }

  /** The selection loop of `main`: reads commands until "confirm" or the
      end of input, toggling the flags; an unknown command changes nothing. */
  method SelectOperations(tokens: seq<string>) returns (ops: OperationSet)
    ensures ops == Selected(NoOperations, tokens)
    ensures Exclusive(ops)
  {
    var greyscale, hflip, vflip, sepia := false, false, false, false;
    var i := 0;
    while i < |tokens| && tokens[i] != "confirm"
      invariant 0 <= i <= |tokens|
      invariant Selected(OperationSet(greyscale, sepia, hflip, vflip), tokens[i..])
             == Selected(NoOperations, tokens)
      invariant !(greyscale && sepia)
    {
      var input := tokens[i];
      if input == "gs" {
        greyscale := !greyscale;
        if greyscale { sepia := false; }
      } else if input == "sp" {
        sepia := !sepia;
        if sepia { greyscale := false; }
      } else if input == "hf" {
        hflip := !hflip;
      } else if input == "vf" {
        vflip := !vflip;
      }
      assert tokens[i..][1..] == tokens[i + 1..];
      i := i + 1;
    }
    ops := OperationSet(greyscale, sepia, hflip, vflip);
  }

  // ---------------------------------------------------------------------
  // The loop guard and the end of input
  // ---------------------------------------------------------------------

  /** What `scanf` returns when the input ends before a token is read. */
  const EOF: int := -1

  /** The loop guard as written: the loop goes on while the return value
      of `scanf` is non-zero and the token is not "confirm", so any non-zero
      return, EOF included, counts as a token read. */
  predicate KeepsReadingAsWritten(scanned: int, input: string)
  {
    scanned != 0 && input != "confirm"
  }

  /** At the end of input `scanf` returns EOF and leaves the previous token
      in `input`; the guard as written stays true, so the loop applies that
      token again and again and never ends. */
  lemma EndOfInputKeepsLoopingAsWritten(last: string)
    requires last != "confirm"
    ensures KeepsReadingAsWritten(EOF, last)
  {
  }

  /** The flags after the loop body has run `k` more times on the token
      `last` left in `input`, as happens once the input has ended. */
  function RepeatLast(ops: OperationSet, last: string, k: nat): OperationSet
    decreases k
  {
    if k == 0 then ops else Step(RepeatLast(ops, last, k - 1), last)
  }

  /** After the end of input with "hf" as the last token, every further pass
      toggles the horizontal flip again: the flags never settle. */
  lemma {:induction false} EndOfInputTogglesForever(ops: OperationSet, k: nat)
    ensures RepeatLast(ops, "hf", k).hflip == (ops.hflip != (k % 2 == 1))
    ensures RepeatLast(ops, "hf", k + 1) != RepeatLast(ops, "hf", k)
    decreases k
  {
    if k > 0 {
      EndOfInputTogglesForever(ops, k - 1);
    }
  }

  /** The guard as intended: go on only while a token was read and it is
      not "confirm". `SelectOperations` implements this guard by stopping at
      the end of its token sequence. */
  predicate KeepsReading(scanned: int, input: string)
  {
    scanned == 1 && input != "confirm"
  }

  /** With the intended guard the end of input ends the loop. */
  lemma EndOfInputStops(last: string)
    ensures !KeepsReading(EOF, last)
    ensures KeepsReading(1, last) == KeepsReadingAsWritten(1, last)
  {
  }
}
