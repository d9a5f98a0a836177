/** The Polish-notation calculator (calculators/polish_calculator.go,
    `PolishCalculator`): the token slice is reversed in place, then a stack
    machine pushes every token that parses as a value and, for every other
    token, takes two operands off the stack and pushes the operator's result.

    The value parser, the operator and the stack's `dequeue` are not part of
    this model; they are parameters: `parse` classifies a token, `calculate`
    applies an operator and may fail, and `dequeue` removes one element,
    returning it and a stack one shorter. */
module Polish {
  import opened Wrappers

  /** The four ways the calculator fails. */
  datatype PolishError<E> =
    | NotEnoughArguments
    | IndexOutOfBounds
    | MultipleFinalValues
    | Operator(cause: E)

  /** What the calculator demands of `dequeue`: on a nonempty stack it is
      defined and leaves a stack one element shorter. */
  ghost predicate DequeueShrinks<V(!new)>(dequeue: seq<V> --> (V, seq<V>))
  {
    forall s: seq<V> {:trigger dequeue.requires(s)} :: |s| >= 1 ==>
      dequeue.requires(s) && |dequeue(s).1| == |s| - 1
  }

  /** `s` in reverse order. */
  function Reversed<T>(s: seq<T>): (r: seq<T>)
    ensures |r| == |s|
    ensures forall i :: 0 <= i < |s| ==> r[i] == s[|s| - 1 - i]
  {
    if s == [] then [] else [s[|s| - 1]] + Reversed(s[..|s| - 1])
  }

  /** Reversing twice gives the tokens back. */
  lemma ReversedInvolution<T>(s: seq<T>)
    ensures Reversed(Reversed(s)) == s
  {
    assert forall i :: 0 <= i < |s| ==> Reversed(Reversed(s))[i] == s[i];
  }

  /** The state of the stack machine: running with a stack, or stopped by
      an error that no later token can undo. */
  datatype Machine<V, E> = Running(stack: seq<V>) | Failed(error: PolishError<E>)

  /** One token: a value is appended; an operator removes `operand2`, then
      `operand1`, and appends `calculate(operand1, operand2, token)`; an
      operator met with fewer than two stacked values fails. */
  function Step<V(!new), E>(m: Machine<V, E>, token: string, parse: string -> Option<V>,
                      calculate: (V, V, string) -> Result<V, E>, dequeue: seq<V> --> (V, seq<V>))
    : Machine<V, E>
    requires DequeueShrinks(dequeue)
  {
    match m
    case Failed(_) => m
    case Running(stack) =>
      match parse(token)
      case Some(v) => Running(stack + [v])
      case None =>
        if |stack| > 1 then
          var (operand2, rest) := dequeue(stack);
          var (operand1, remaining) := dequeue(rest);
          match calculate(operand1, operand2, token)
          case Ok(result) => Running(remaining + [result])
          case Err(e) => Failed(Operator(e))
        else Failed(IndexOutOfBounds)
  }

  /** The machine after the tokens, in order, from an empty stack. */
  function Run<V(!new), E>(tokens: seq<string>, parse: string -> Option<V>,
                     calculate: (V, V, string) -> Result<V, E>, dequeue: seq<V> --> (V, seq<V>))
    : Machine<V, E>
    requires DequeueShrinks(dequeue)
  {
    if tokens == [] then Running([])
    else Step(Run(tokens[..|tokens| - 1], parse, calculate, dequeue), tokens[|tokens| - 1], parse, calculate, dequeue)
  }

  /** What `PolishCalculator(args)` returns: the arguments are read in
      reverse; fewer than three fail at once; otherwise the machine's error,
      or the single value left on the stack. */
  function Evaluate<V(!new), E>(args: seq<string>, parse: string -> Option<V>,
                          calculate: (V, V, string) -> Result<V, E>, dequeue: seq<V> --> (V, seq<V>))
    : Result<V, PolishError<E>>
    requires DequeueShrinks(dequeue)
  {
    var tokens := Reversed(args);
    if |tokens| <= 2 then Err(NotEnoughArguments)
    else
      match Run(tokens, parse, calculate, dequeue)
      case Failed(e) => Err(e)
      case Running(stack) => if |stack| != 1 then Err(MultipleFinalValues) else Ok(stack[0])
  }

  /** Values minus operators among the tokens: the stack height they leave. */
  function Balance<V>(tokens: seq<string>, parse: string -> Option<V>): int
  {
    if tokens == [] then 0
    else Balance(tokens[..|tokens| - 1], parse) + (if parse(tokens[|tokens| - 1]).Some? then 1 else -1)
  }

  /** Every operator among the tokens finds at least two values stacked
      before it. */
  ghost predicate NoUnderflow<V>(tokens: seq<string>, parse: string -> Option<V>)
  {
    forall k :: 0 <= k < |tokens| && parse(tokens[k]).None? ==> Balance(tokens[..k], parse) >= 2
  }

  /** Stack accounting: a value token grows the stack by one, an operator
      that succeeds shrinks it by one. */
  lemma StepHeight<V(!new), E>(stack: seq<V>, token: string, parse: string -> Option<V>,
                         calculate: (V, V, string) -> Result<V, E>, dequeue: seq<V> --> (V, seq<V>))
    requires DequeueShrinks(dequeue)
    ensures parse(token).Some? ==> Step(Running(stack), token, parse, calculate, dequeue) == Running(stack + [parse(token).value])
    ensures parse(token).None? && Step(Running(stack), token, parse, calculate, dequeue).Running? ==>
      |stack| >= 2 && |Step(Running(stack), token, parse, calculate, dequeue).stack| == |stack| - 1
  {
    if parse(token).None? && |stack| > 1 {
      assert |dequeue(stack).1| == |stack| - 1;
      assert |dequeue(dequeue(stack).1).1| == |stack| - 2;
    }
  }

  /** While the machine runs, its stack holds exactly `Balance` values, and
      every operator so far found at least two of them. */
  lemma {:induction false} RunHeight<V(!new), E>(tokens: seq<string>, parse: string -> Option<V>,
                                          calculate: (V, V, string) -> Result<V, E>,
                                          dequeue: seq<V> --> (V, seq<V>))
    requires DequeueShrinks(dequeue)
    ensures Run(tokens, parse, calculate, dequeue).Running? ==>
      |Run(tokens, parse, calculate, dequeue).stack| == Balance(tokens, parse) && NoUnderflow(tokens, parse)
  {
    if tokens != [] {
      var prefix := tokens[..|tokens| - 1];
      RunHeight(prefix, parse, calculate, dequeue);
      var m := Run(prefix, parse, calculate, dequeue);
      if m.Running? {
        StepHeight(m.stack, tokens[|tokens| - 1], parse, calculate, dequeue);
      }
      if Run(tokens, parse, calculate, dequeue).Running? {
        PrefixNoUnderflow(tokens, parse);
      }
    }
  }

  /** `NoUnderflow` of nonempty tokens: of all but the last, and of the last. */
  lemma PrefixNoUnderflow<V>(tokens: seq<string>, parse: string -> Option<V>)
    requires tokens != []
    ensures NoUnderflow(tokens, parse) <==>
      NoUnderflow(tokens[..|tokens| - 1], parse)
      && (parse(tokens[|tokens| - 1]).None? ==> Balance(tokens[..|tokens| - 1], parse) >= 2)
  {
    var prefix := tokens[..|tokens| - 1];
    assert forall k :: 0 <= k < |prefix| ==> prefix[k] == tokens[k] && prefix[..k] == tokens[..k];
  }

  /** Once an error stops the machine, no later token is processed. */
  lemma {:induction false} RunStopsAtError<V(!new), E>(tokens: seq<string>, more: seq<string>, parse: string -> Option<V>,
                                                calculate: (V, V, string) -> Result<V, E>,
                                                dequeue: seq<V> --> (V, seq<V>))
    requires DequeueShrinks(dequeue)
    requires Run(tokens, parse, calculate, dequeue).Failed?
    ensures Run(tokens + more, parse, calculate, dequeue) == Run(tokens, parse, calculate, dequeue)
    decreases |more|
  {
    if more != [] {
      var shorter := more[..|more| - 1];
      RunStopsAtError(tokens, shorter, parse, calculate, dequeue);
      var all := tokens + more;
      assert all[..|all| - 1] == tokens + shorter;
      assert Run(all, parse, calculate, dequeue)
        == Step(Run(tokens + shorter, parse, calculate, dequeue), all[|all| - 1], parse, calculate, dequeue);
    } else {
      assert tokens + more == tokens;
    }
  }

  /** The machine never fails for want of arguments: that error comes only
      from the length check before it starts. */
  lemma {:induction false} RunNeverShort<V(!new), E>(tokens: seq<string>, parse: string -> Option<V>,
                                              calculate: (V, V, string) -> Result<V, E>,
                                              dequeue: seq<V> --> (V, seq<V>))
    requires DequeueShrinks(dequeue)
    ensures Run(tokens, parse, calculate, dequeue) != Failed(NotEnoughArguments)
    ensures Run(tokens, parse, calculate, dequeue) != Failed(MultipleFinalValues)
  {
    if tokens != [] {
      RunNeverShort(tokens[..|tokens| - 1], parse, calculate, dequeue);
    }
  }

  /** "Not Enough Arguments" is returned exactly for fewer than three
      arguments. */
  lemma NotEnoughArgumentsExactly<V(!new), E>(args: seq<string>, parse: string -> Option<V>,
                                        calculate: (V, V, string) -> Result<V, E>,
                                        dequeue: seq<V> --> (V, seq<V>))
    requires DequeueShrinks(dequeue)
    ensures Evaluate(args, parse, calculate, dequeue) == Err(NotEnoughArguments) <==> |args| <= 2
  {
    RunNeverShort(Reversed(args), parse, calculate, dequeue);
  }

  /** After at least one token the running stack is never empty, so
      "Multiple Final Values" means two or more values are left. */
  lemma {:induction false} RunStackNonEmpty<V(!new), E>(tokens: seq<string>, parse: string -> Option<V>,
                                                 calculate: (V, V, string) -> Result<V, E>,
                                                 dequeue: seq<V> --> (V, seq<V>))
    requires DequeueShrinks(dequeue)
    requires tokens != [] && Run(tokens, parse, calculate, dequeue).Running?
    ensures |Run(tokens, parse, calculate, dequeue).stack| >= 1
  {
    var m := Run(tokens[..|tokens| - 1], parse, calculate, dequeue);
    StepHeight(m.stack, tokens[|tokens| - 1], parse, calculate, dequeue);
  }

  /** For an operator that never fails, the machine runs to the end exactly
      when no operator underflows, and otherwise stops with
      "IndexOutOfBoundsException". */
  lemma {:induction false} UnderflowExactly<V(!new), E>(tokens: seq<string>, parse: string -> Option<V>,
                                                 calculate: (V, V, string) -> Result<V, E>,
                                                 dequeue: seq<V> --> (V, seq<V>))
    requires DequeueShrinks(dequeue)
    requires forall a, b, t :: calculate(a, b, t).Ok?
    ensures Run(tokens, parse, calculate, dequeue).Running? <==> NoUnderflow(tokens, parse)
    ensures !NoUnderflow(tokens, parse) ==> Run(tokens, parse, calculate, dequeue) == Failed(IndexOutOfBounds)
  {
    if tokens != [] {
      var prefix := tokens[..|tokens| - 1];
      UnderflowExactly(prefix, parse, calculate, dequeue);
      RunHeight(prefix, parse, calculate, dequeue);
      PrefixNoUnderflow(tokens, parse);
      var m := Run(prefix, parse, calculate, dequeue);
      if m.Running? {
        StepHeight(m.stack, tokens[|tokens| - 1], parse, calculate, dequeue);
      }
    }
  }

  /** The `dequeue` that removes the first element of the stack. */
  function Front<V>(s: seq<V>): (p: (V, seq<V>))
    requires |s| >= 1
    ensures [p.0] + p.1 == s
  {
    (s[0], s[1..])
  }

  /** `Front` removes one element. */
  lemma FrontShrinks<V(!new)>()
    ensures DequeueShrinks(Front<V>)
  {
    forall s: seq<V> | |s| >= 1
      ensures Front<V>.requires(s) && |Front(s).1| == |s| - 1
    {
      assert |[Front(s).0] + Front(s).1| == |s|;
    }
  }

  /** With `dequeue` removing the first element, the calculator reads its
      arguments in Polish (prefix) order: `[op, x, y]` applies `op` to `x`
      and `y`, in that order. */
  lemma PrefixOrder<V(!new), E>(op: string, x: string, y: string, parse: string -> Option<V>,
                          calculate: (V, V, string) -> Result<V, E>)
    requires parse(op).None? && parse(x).Some? && parse(y).Some?
    ensures DequeueShrinks(Front<V>)
    ensures Evaluate([op, x, y], parse, calculate, Front) ==
      match calculate(parse(x).value, parse(y).value, op)
      case Ok(v) => Ok(v)
      case Err(e) => Err(Operator(e))
  {
    FrontShrinks<V>();
    var tokens := Reversed([op, x, y]);
    assert tokens == [y, x, op];
    assert tokens[..2] == [y, x] && [y, x][..1] == [y] && [y][..0] == [];
    var vx, vy := parse(x).value, parse(y).value;
    assert Run([y], parse, calculate, Front) == Running([vy]);
    assert Run([y, x], parse, calculate, Front) == Running([vy, vx]);
    assert Front([vy, vx]) == (vy, [vx]) && Front([vx]) == (vx, []);
  }

  /** The first loop of `PolishCalculator`: swaps `args[left]` and
      `args[right]` while the two indices have not met. */
  method ReverseArguments(args: array<string>)
    modifies args
    ensures args[..] == Reversed(old(args[..]))
  {
    var left, right := 0, args.Length - 1;
    while left < right
      invariant 0 <= left && left + right == args.Length - 1 && left <= right + 1
      invariant forall k :: 0 <= k < left ==>
        args[k] == old(args[args.Length - 1 - k]) && args[args.Length - 1 - k] == old(args[k])
      invariant forall k :: left <= k <= right ==> args[k] == old(args[k])
    {
      args[left], args[right] := args[right], args[left];
      left, right := left + 1, right - 1;
    }
  }

  /** A machine stopped after token `i` stays stopped to the end. */
  lemma RunStopped<V(!new), E>(tokens: seq<string>, i: nat, e: PolishError<E>, parse: string -> Option<V>,
                               calculate: (V, V, string) -> Result<V, E>, dequeue: seq<V> --> (V, seq<V>))
    requires DequeueShrinks(dequeue) && i < |tokens|
    requires Run(tokens[..i + 1], parse, calculate, dequeue) == Failed(e)
    ensures Run(tokens, parse, calculate, dequeue) == Failed(e)
  {
    var done, rest := tokens[..i + 1], tokens[i + 1..];
    assert done + rest == tokens;
    RunStopsAtError(done, rest, parse, calculate, dequeue);
  }

  /** Once the machine has stopped at token `i` of the reversed arguments,
      the calculator's outcome is that error. */
  lemma EvaluateStopped<V(!new), E>(args: seq<string>, i: nat, e: PolishError<E>, parse: string -> Option<V>,
                                    calculate: (V, V, string) -> Result<V, E>, dequeue: seq<V> --> (V, seq<V>))
    requires DequeueShrinks(dequeue) && 2 < |args| && i < |args|
    requires Run(Reversed(args)[..i + 1], parse, calculate, dequeue) == Failed(e)
    ensures Evaluate(args, parse, calculate, dequeue) == Err(e)
  {
    RunStopped(Reversed(args), i, e, parse, calculate, dequeue);
  }

  /** `PolishCalculator`: reverses `args` in place, then evaluates the
      reversed tokens on the stack machine, returning early on the first
      error. */
  method PolishCalculator<V(!new), E>(args: array<string>, parse: string -> Option<V>,
                                calculate: (V, V, string) -> Result<V, E>,
                                dequeue: seq<V> --> (V, seq<V>))
    returns (r: Result<V, PolishError<E>>)
    requires DequeueShrinks(dequeue)
    modifies args
    ensures args[..] == Reversed(old(args[..]))
    ensures r == Evaluate(old(args[..]), parse, calculate, dequeue)
  {
    ReverseArguments(args);

    var stack: seq<V> := [];
    if args.Length <= 2 {
      return Err(NotEnoughArguments);
    }

    ghost var tokens := args[..];
    for i := 0 to args.Length
      invariant args[..] == tokens
      invariant Run(tokens[..i], parse, calculate, dequeue) == Running(stack)
    {
      var argument := args[i];
      assert tokens[..i + 1][..i] == tokens[..i];
      ghost var next := Step(Running(stack), argument, parse, calculate, dequeue);
      assert Run(tokens[..i + 1], parse, calculate, dequeue) == next;
      var parsed := parse(argument);
      if parsed.Some? {
        stack := stack + [parsed.value];
        continue;
      }

      if |stack| > 1 {
        var operand1, operand2;
        operand2, stack := dequeue(stack).0, dequeue(stack).1;
        operand1, stack := dequeue(stack).0, dequeue(stack).1;

        var result := calculate(operand1, operand2, argument);

        if result.Err? {
          EvaluateStopped(old(args[..]), i, Operator(result.error), parse, calculate, dequeue);
          return Err(Operator(result.error));
        }

        stack := stack + [result.value];
      } else {
        EvaluateStopped(old(args[..]), i, IndexOutOfBounds, parse, calculate, dequeue);
        return Err(IndexOutOfBounds);
      }
    }
    assert tokens[..args.Length] == tokens;

    if |stack| != 1 {
      return Err(MultipleFinalValues);
    }

    return Ok(stack[0]);
  }
}
