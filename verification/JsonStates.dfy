/** The JSON token machine (json_base.c, json_state_machine.c): a pushdown automaton over token kinds. */
module JsonStates {

  datatype Kind =
    | Invalid
    | ObjectOpen | ObjectClose | ArrayOpen | ArrayClose
    | True | False | Null
    | ValueSeparator | StringDelimiter | KvSeparator | Bom
    | Whitespace | EscapeSequence
    | UnicodeCharacter | EscapedUnicodeCharcode
    | Number
  {
    /** The kind as a symbol of a frequency table. */
    function Symbol(): (s: nat)
      ensures s <= 16
    {
      match this
      case Invalid => 0
      case ObjectOpen => 1
      case ObjectClose => 2
      case ArrayOpen => 3
      case ArrayClose => 4
      case True => 5
      case False => 6
      case Null => 7
      case ValueSeparator => 8
      case StringDelimiter => 9
      case KvSeparator => 10
      case Bom => 11
      case Whitespace => 12
      case EscapeSequence => 13
      case UnicodeCharacter => 14
      case EscapedUnicodeCharcode => 15
      case Number => 16
    }

    predicate IsScalar() {
      Number? || True? || False? || Null?
    }

    /** A part of a string between its delimiters. */
    predicate IsCharacter() {
      UnicodeCharacter? || EscapeSequence? || EscapedUnicodeCharcode?
    }
  }

  const KINDS: seq<Kind> :=
    [Invalid, ObjectOpen, ObjectClose, ArrayOpen, ArrayClose, True, False, Null, ValueSeparator, StringDelimiter,
     KvSeparator, Bom, Whitespace, EscapeSequence, UnicodeCharacter, EscapedUnicodeCharcode, Number]

  function KindOf(symbol: nat): (k: Kind)
    requires symbol <= 16
    ensures k.Symbol() == symbol
  {
    KINDS[symbol]
  }

  lemma KindOfSymbol(k: Kind)
    ensures KindOf(k.Symbol()) == k
  {
  }

  datatype State =
    | Root | Start | Value
    | ObjectStart | ObjectContinue | ObjectKvSeparator | ObjectKeyStart
    | ArrayStart | ArrayContinue
    | InString | ObjectKey
  {
    function Index(): (i: nat)
      ensures i <= 10
    {
      match this
      case Root => 0
      case Start => 1
      case Value => 2
      case ObjectStart => 3
      case ObjectContinue => 4
      case ObjectKvSeparator => 5
      case ObjectKeyStart => 6
      case ArrayStart => 7
      case ArrayContinue => 8
      case InString => 9
      case ObjectKey => 10
    }

    predicate IsString() {
      InString? || ObjectKey?
    }
  }

  const MAX_STACK: nat := 512

  /** Bottom first. */
  type Stack = seq<State>

  function Top(stack: Stack): State
    requires stack != []
  {
    stack[|stack| - 1]
  }

  function Below(stack: Stack): Stack
    requires stack != []
  {
    stack[..|stack| - 1]
  }

  function ReplaceTop(stack: Stack, state: State): Stack
    requires stack != []
  {
    Below(stack) + [state]
  }

  datatype Outcome = Outcome(ok: bool, stack: Stack)

  function Push(stack: Stack, capacity: nat, state: State): Outcome {
    if |stack| == capacity then Outcome(false, stack) else Outcome(true, stack + [state])
  }

  /** A value that starts takes the place of a cell that was waiting for it. */
  function ValueBase(stack: Stack): Stack
    requires stack != []
  {
    if Top(stack).Value? then Below(stack) else stack
  }

  function AfterValue(stack: Stack): Stack
    requires stack != []
  {
    if Top(stack).ArrayStart? then ReplaceTop(stack, ArrayContinue)
    else if Top(stack).ObjectStart? then ReplaceTop(stack, ObjectContinue)
    else stack
  }

  function TryStartValue(stack: Stack, capacity: nat, kind: Kind): Outcome
    requires |stack| >= 2
  {
    match kind
    case StringDelimiter => Push(ValueBase(stack), capacity, InString)
    case ObjectOpen => Push(ValueBase(stack), capacity, ObjectStart)
    case ArrayOpen => Push(ValueBase(stack), capacity, ArrayStart)
    case Whitespace => Outcome(true, stack)
    case Number | True | False | Null => Outcome(true, AfterValue(ValueBase(stack)))
    case _ => Outcome(false, stack)
  }

  /** ROOT lies at the bottom and nowhere else. */
  predicate Rooted(stack: Stack) {
    stack != [] && stack[0].Root? && forall i | 1 <= i < |stack| :: !stack[i].Root?
  }

  /** One token: whether it is accepted, and the new stack. */
  function Step(stack: Stack, capacity: nat, kind: Kind): Outcome
    requires Rooted(stack)
  {
    match Top(stack)
    case Start =>
      var replaced := ReplaceTop(stack, Value);
      if kind.Bom? then Outcome(true, replaced) else TryStartValue(replaced, capacity, kind)
    case Value => TryStartValue(stack, capacity, kind)
    case InString =>
      if kind.StringDelimiter? then Outcome(true, AfterValue(Below(stack))) else Outcome(kind.IsCharacter(), stack)
    case ObjectKey =>
      if kind.StringDelimiter? then Outcome(true, ReplaceTop(stack, ObjectKvSeparator))
        else Outcome(kind.IsCharacter(), stack)
    case ArrayStart =>
      if kind.ArrayClose? then Outcome(true, AfterValue(Below(stack))) else TryStartValue(stack, capacity, kind)
    case ArrayContinue =>
      if kind.ArrayClose? then Outcome(true, AfterValue(Below(stack)))
      else if kind.ValueSeparator? then Push(stack, capacity, Value)
      else Outcome(kind.Whitespace?, stack)
    case ObjectStart =>
      if kind.ObjectClose? then Outcome(true, AfterValue(Below(stack)))
      else if kind.StringDelimiter? then Push(stack, capacity, ObjectKey)
      else Outcome(kind.Whitespace?, stack)
    case ObjectContinue =>
      if kind.ObjectClose? then Outcome(true, AfterValue(Below(stack)))
      else if kind.ValueSeparator? then Push(stack, capacity, ObjectKeyStart)
      else Outcome(kind.Whitespace?, stack)
    case ObjectKeyStart =>
      if kind.StringDelimiter? then Outcome(true, ReplaceTop(stack, ObjectKey)) else Outcome(kind.Whitespace?, stack)
    case ObjectKvSeparator =>
      if kind.KvSeparator? then Outcome(true, ReplaceTop(stack, Value)) else Outcome(kind.Whitespace?, stack)
    case Root => Outcome(kind.Whitespace?, stack)
  }

  const INITIAL_STACK: Stack := [Root, Start]

  /** What every reachable stack satisfies. */
  predicate Sound(stack: Stack, capacity: nat) {
    && Rooted(stack) && |stack| <= capacity
    && forall i | 0 <= i < |stack| && stack[i].ObjectContinue? :: i < capacity - 1
  }

  lemma PopSound(stack: Stack, capacity: nat)
    requires Sound(stack, capacity) && |stack| >= 2
    ensures Sound(AfterValue(Below(stack)), capacity)
  {
    var b := Below(stack);
    assert forall i | 0 <= i < |b| :: b[i] == stack[i];
  }

  lemma ReplaceSound(stack: Stack, capacity: nat, state: State)
    requires Sound(stack, capacity) && |stack| >= 2 && !state.Root? && !state.ObjectContinue?
    ensures Sound(ReplaceTop(stack, state), capacity)
  {
  }

  lemma PushSound(stack: Stack, capacity: nat, state: State)
    requires Sound(stack, capacity) && !state.Root? && !state.ObjectContinue?
    ensures Sound(Push(stack, capacity, state).stack, capacity)
  {
  }

  /** A value cell is popped before its value is pushed, so that push cannot fail. */
  lemma StartValueSound(stack: Stack, capacity: nat, kind: Kind)
    requires Sound(stack, capacity) && (Top(stack).Value? || Top(stack).ArrayStart?)
    ensures var r := TryStartValue(stack, capacity, kind);
            Sound(r.stack, capacity) && (!r.ok ==> r.stack == stack)
  {
    if Top(stack).Value? {
      PopSound(stack, capacity);
      assert Sound(Below(stack), capacity);
    } else if kind.IsScalar() {
      ReplaceSound(stack, capacity, ArrayContinue);
    }
    PushSound(ValueBase(stack), capacity, InString);
    PushSound(ValueBase(stack), capacity, ObjectStart);
    PushSound(ValueBase(stack), capacity, ArrayStart);
  }

  /** Every token keeps the stack rooted, within its capacity, and with room above each OBJECT_CONTINUE cell;
      a rejected token changes nothing, except that a START cell has become a VALUE cell. */
  lemma StepSound(stack: Stack, capacity: nat, kind: Kind)
    requires Sound(stack, capacity)
    ensures var r := Step(stack, capacity, kind);
            && Sound(r.stack, capacity)
            && (!r.ok ==> r.stack == if Top(stack).Start? then ReplaceTop(stack, Value) else stack)
  {
    hide Sound, AfterValue, TryStartValue;
    RootAlone(stack, capacity);
    if !Top(stack).Root? {
      PopSound(stack, capacity);
      ReplaceSound(stack, capacity, Value);
      ReplaceSound(stack, capacity, ObjectKvSeparator);
      ReplaceSound(stack, capacity, ObjectKey);
      PushSound(stack, capacity, Value);
      PushSound(stack, capacity, ObjectKey);
      PushSound(stack, capacity, ObjectKeyStart);
      if Top(stack).Start? {
        StartValueSound(ReplaceTop(stack, Value), capacity, kind);
      } else if Top(stack).Value? || Top(stack).ArrayStart? {
        StartValueSound(stack, capacity, kind);
      }
    }
  }

  lemma RootAlone(stack: Stack, capacity: nat)
    requires Sound(stack, capacity)
    ensures stack != [] && (Top(stack).Root? <==> |stack| == 1)
  {
  }

  /** The push asserted for a comma inside an object always succeeds. */
  lemma CommaPushSucceeds(stack: Stack, capacity: nat)
    requires Sound(stack, capacity) && Top(stack).ObjectContinue?
    ensures Step(stack, capacity, ValueSeparator) == Outcome(true, stack + [ObjectKeyStart])
  {
  }

  /** A START cell that a refused token has turned into VALUE answers every kind as before, except the byte-order
      mark, which it then refuses. */
  lemma StartLikeValueExactly(stack: Stack, capacity: nat, kind: Kind)
    requires Rooted(stack) && Top(stack).Start?
    ensures Rooted(ReplaceTop(stack, Value))
    ensures Step(stack, capacity, kind) == Step(ReplaceTop(stack, Value), capacity, kind) <==> !kind.Bom?
    ensures Step(stack, capacity, Bom).ok && !Step(ReplaceTop(stack, Value), capacity, Bom).ok
  {
  }

  /** A first token that is refused does that to the stack. */
  lemma RefusedFirst(capacity: nat, kind: Kind)
    requires capacity >= 2 && !Step(INITIAL_STACK, capacity, kind).ok
    ensures Step(INITIAL_STACK, capacity, kind).stack == ReplaceTop(INITIAL_STACK, Value) == [Root, Value]
  {
    assert ReplaceTop(INITIAL_STACK, Value) == [Root, Value];
  }

  // ---------------------------------------------------------------- runs

  /** The stack after all the tokens, or nothing if one of them is rejected. */
  datatype RunResult = Rejected | Reached(stack: Stack)

  function Run(stack: Stack, capacity: nat, kinds: seq<Kind>): (r: RunResult)
    requires Sound(stack, capacity)
    ensures r.Reached? ==> Sound(r.stack, capacity)
    decreases |kinds|
  {
    if kinds == [] then Reached(stack)
    else
      StepSound(stack, capacity, kinds[0]);
      var next := Step(stack, capacity, kinds[0]);
      if next.ok then Run(next.stack, capacity, kinds[1..]) else Rejected
  }

  /** Complete: everything was read and only ROOT is left. */
  predicate Accepts(capacity: nat, kinds: seq<Kind>)
    requires capacity >= 2
  {
    Run(INITIAL_STACK, capacity, kinds) == Reached([Root])
  }

  // ---------------------------------------------------------------- the object

  class JsonStateMachine {
    const cells: array<State>
    var count: nat

    ghost predicate Valid()
      reads this, cells
    {
      2 <= cells.Length && count <= cells.Length && Sound(View(), cells.Length)
    }

    ghost function View(): Stack
      reads this, cells
    {
      if count <= cells.Length then cells[..count] else []
    }

    constructor (capacity: nat)
      requires capacity >= 2
      ensures Valid() && fresh(cells) && View() == INITIAL_STACK && cells.Length == capacity
    {
      cells := new State[capacity](_ => Root);
      count := 2;
      new;
      cells[1] := Start;
      assert cells[..2] == INITIAL_STACK;
    }

    method Reset()
      requires Valid()
      modifies this, cells
      ensures Valid() && View() == INITIAL_STACK
    {
      cells[0], cells[1] := Root, Start;
      count := 2;
      assert cells[..2] == INITIAL_STACK;
    }

    function CurrentState(): (s: State)
      requires Valid()
      reads this, cells
      ensures s == Top(View())
    {
      cells[count - 1]
    }

    method ReplaceTopState(state: State)
      requires 0 < count <= cells.Length
      modifies cells
      ensures View() == ReplaceTop(old(View()), state)
    {
      cells[count - 1] := state;
    }

    method PopState()
      requires 0 < count <= cells.Length
      modifies this`count
      ensures count == old(count) - 1 && View() == Below(old(View()))
    {
      count := count - 1;
    }

    method PushState(state: State) returns (ok: bool)
      requires count <= cells.Length
      modifies this`count, cells
      ensures count <= cells.Length && Outcome(ok, View()) == Push(old(View()), cells.Length, state)
    {
      if count == cells.Length {
        return false;
      }
      cells[count] := state;
      count := count + 1;
      return true;
    }

    method PushValueState(state: State) returns (ok: bool)
      requires 0 < count <= cells.Length
      modifies this`count, cells
      ensures count <= cells.Length && Outcome(ok, View()) == Push(ValueBase(old(View())), cells.Length, state)
    {
      if cells[count - 1].Value? {
        PopState();
      }
      ok := PushState(state);
    }

    method UpdateTopAfterValue()
      requires 0 < count <= cells.Length
      modifies cells
      ensures View() == AfterValue(old(View()))
    {
      if cells[count - 1].ArrayStart? {
        ReplaceTopState(ArrayContinue);
      } else if cells[count - 1].ObjectStart? {
        ReplaceTopState(ObjectContinue);
      }
    }

    method PopAfterValue()
      requires 2 <= count <= cells.Length
      modifies this`count, cells
      ensures 0 < count <= cells.Length && View() == AfterValue(Below(old(View())))
    {
      PopState();
      UpdateTopAfterValue();
    }

    method TryStartValueToken(kind: Kind) returns (ok: bool)
      requires 2 <= count <= cells.Length
      modifies this`count, cells
      ensures count <= cells.Length && Outcome(ok, View()) == TryStartValue(old(View()), cells.Length, kind)
    {
      match kind {
        case StringDelimiter =>
          ok := PushValueState(InString);
        case ObjectOpen =>
          ok := PushValueState(ObjectStart);
        case ArrayOpen =>
          ok := PushValueState(ArrayStart);
        case Whitespace =>
          ok := true;
        case Number | True | False | Null =>
          if cells[count - 1].Value? {
            PopState();
          }
          UpdateTopAfterValue();
          ok := true;
        case _ =>
          ok := false;
      }
    }

    method ProcessToken(kind: Kind) returns (ok: bool)
      requires Valid()
      modifies this`count, cells
      ensures Valid() && Outcome(ok, View()) == Step(old(View()), cells.Length, kind)
    {
      StepSound(View(), cells.Length, kind);
      var state := CurrentState();
      match state {
        case Start =>
          ReplaceTopState(Value);
          if kind.Bom? {
            ok := true;
          } else {
            // as if the token had come in this state
            ok := TryStartValueToken(kind);
          }
        case Value =>
          ok := TryStartValueToken(kind);
        case InString =>
          if kind.StringDelimiter? {
            PopAfterValue();
            ok := true;
          } else {
            ok := kind.IsCharacter();
          }
        case ObjectKey =>
          if kind.StringDelimiter? {
            ReplaceTopState(ObjectKvSeparator);
            ok := true;
          } else {
            ok := kind.IsCharacter();
          }
        case ArrayStart =>
          if kind.ArrayClose? {
            PopAfterValue();
            ok := true;
          } else {
            ok := TryStartValueToken(kind);
          }
        case ArrayContinue =>
          if kind.ArrayClose? {
            PopAfterValue();
            ok := true;
          } else if kind.ValueSeparator? {
            ok := PushState(Value);
          } else {
            ok := kind.Whitespace?;
          }
        case ObjectStart =>
          if kind.ObjectClose? {
            PopAfterValue();
            ok := true;
          } else if kind.StringDelimiter? {
            ok := PushState(ObjectKey);
          } else {
            ok := kind.Whitespace?;
          }
        case ObjectContinue =>
          if kind.ObjectClose? {
            PopAfterValue();
            ok := true;
          } else if kind.ValueSeparator? {
            ok := PushState(ObjectKeyStart);
            CommaPushSucceeds(old(View()), cells.Length);
            assert ok;
          } else {
            ok := kind.Whitespace?;
          }
        case ObjectKeyStart =>
          if kind.StringDelimiter? {
            ReplaceTopState(ObjectKey);
            ok := true;
          } else {
            ok := kind.Whitespace?;
          }
        case ObjectKvSeparator =>
          if kind.KvSeparator? {
            ReplaceTopState(Value);
            ok := true;
          } else {
            ok := kind.Whitespace?;
          }
        case Root =>
          ok := kind.Whitespace?;
      }
    }
  }
}
