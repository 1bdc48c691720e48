/*
 * The flat instruction vocabulary the parser emits, include/mmml/parse.hpp,
 * and `ast_instruction_type_name` from src/main/cpp/parse.cpp.
 */
module Instructions {
  import opened Options

  /** `AST_Instruction_Type`, in declaration order. */
  datatype InstructionType =
    | Skip
    | Escape
    | Text
    | ArgumentName
    | ArgumentEqual
    | ArgumentComma
    | PushDocument
    | PopDocument
    | PushDirective
    | PopDirective
    | PushArguments
    | PopArguments
    | PushArgument
    | PopArgument
    | PushBlock
    | PopBlock

  /** The underlying value of each enumerator. */
  function Underlying(t: InstructionType): (u: nat)
    ensures u < 16
  {
    match t
    case Skip => 0
    case Escape => 1
    case Text => 2
    case ArgumentName => 3
    case ArgumentEqual => 4
    case ArgumentComma => 5
    case PushDocument => 6
    case PopDocument => 7
    case PushDirective => 8
    case PopDirective => 9
    case PushArguments => 10
    case PopArguments => 11
    case PushArgument => 12
    case PopArgument => 13
    case PushBlock => 14
    case PopBlock => 15
  }

  lemma UnderlyingInjective(a: InstructionType, b: InstructionType)
    ensures Underlying(a) == Underlying(b) <==> a == b
  {
  }

  /** `ast_instruction_type_has_operand`. */
  predicate HasOperand(t: InstructionType)
  {
    !(t in {PopDocument, PopDirective, PopArguments, PopArgument, PopBlock, ArgumentComma, ArgumentEqual})
  }

  predicate IsPop(t: InstructionType)
  {
    t in {PopDocument, PopDirective, PopArguments, PopArgument, PopBlock}
  }

  predicate IsPush(t: InstructionType)
  {
    t in {PushDocument, PushDirective, PushArguments, PushArgument, PushBlock}
  }

  /** The operand carries information for every kind except the pops and
    * the two punctuation kinds. */
  lemma HasOperandCases(t: InstructionType)
    ensures !HasOperand(t) <==> IsPop(t) || t == ArgumentComma || t == ArgumentEqual
    ensures IsPush(t) ==> HasOperand(t)
    ensures t in {Skip, Escape, Text, ArgumentName} ==> HasOperand(t)
  {
  }

  /** `AST_Instruction`: a type and an operand `n` (0 by default). */
  datatype Instruction = Instruction(kind: InstructionType, n: nat)

  /** The defaulted `operator<=>`: by type (its underlying value), then by
    * operand; negative, zero or positive. */
  function Compare(a: Instruction, b: Instruction): int
  {
    if Underlying(a.kind) < Underlying(b.kind) then -1
    else if Underlying(a.kind) > Underlying(b.kind) then 1
    else if a.n < b.n then -1
    else if a.n > b.n then 1
    else 0
  }

  /** The comparison is a strong ordering: equality is identity, it is
    * antisymmetric and transitive. */
  lemma CompareIsStrongOrdering(a: Instruction, b: Instruction, c: Instruction)
    ensures Compare(a, b) == 0 <==> a == b
    ensures Compare(a, b) == -Compare(b, a)
    ensures Compare(a, b) < 0 && Compare(b, c) < 0 ==> Compare(a, c) < 0
    ensures Compare(a, b) < 0 <==>
      Underlying(a.kind) < Underlying(b.kind) || (a.kind == b.kind && a.n < b.n)
  {
    UnderlyingInjective(a.kind, b.kind);
  }

  /** How many source bytes an instruction advances over, from the comment
    * on each enumerator: `skip`, `escape`, `text`, `argument_name` and
    * `push_directive` advance by their operand; `argument_equal`,
    * `argument_comma`, `push_arguments`, `pop_arguments`, `push_block` and
    * `pop_block` advance past one character; the others advance by none. */
  function Advance(i: Instruction): nat
  {
    match i.kind
    case Skip => i.n
    case Escape => i.n
    case Text => i.n
    case ArgumentName => i.n
    case PushDirective => i.n
    case ArgumentEqual => 1
    case ArgumentComma => 1
    case PushArguments => 1
    case PopArguments => 1
    case PushBlock => 1
    case PopBlock => 1
    case _ => 0
  }

  /** The total advance of a stream. */
  function Width(s: seq<Instruction>): nat
  {
    if s == [] then 0 else Width(s[..|s| - 1]) + Advance(s[|s| - 1])
  }

  lemma {:induction false} WidthConcat(a: seq<Instruction>, b: seq<Instruction>)
    ensures Width(a + b) == Width(a) + Width(b)
    decreases |b|
  {
    if b == [] {
      assert a + b == a;
    } else {
      WidthConcat(a, b[..|b| - 1]);
      assert (a + b)[..|a + b| - 1] == a + b[..|b| - 1];
    }
  }

  // ---------------------------------------------------------------------
  // Nesting of `push_*` and `pop_*`.

  /** The pop kind that closes a push kind. */
  function Closer(t: InstructionType): InstructionType
    requires IsPush(t)
  {
    match t
    case PushDocument => PopDocument
    case PushDirective => PopDirective
    case PushArguments => PopArguments
    case PushArgument => PopArgument
    case PushBlock => PopBlock
  }

  /** Runs a stream against a stack of open push kinds: a push opens, a pop
    * must close the innermost open push of its own kind, and anything else
    * leaves the stack alone.  `None` means a pop did not match. */
  function Nest(stack: seq<InstructionType>, s: seq<Instruction>): Option<seq<InstructionType>>
    decreases |s|
  {
    if s == [] then Some(stack)
    else
      var t := s[0].kind;
      if IsPush(t) then Nest(stack + [t], s[1..])
      else if IsPop(t) then
        if stack != [] && IsPush(stack[|stack| - 1]) && Closer(stack[|stack| - 1]) == t
        then Nest(stack[..|stack| - 1], s[1..])
        else None
      else Nest(stack, s[1..])
  }

  /** Every pop closes a matching push of the same stream and nothing stays
    * open. */
  predicate Balanced(s: seq<Instruction>)
  {
    Nest([], s) == Some([])
  }

  /** A stream that nests from an empty stack nests the same way on top of
    * any stack. */
  lemma {:induction false} NestOnTop(base: seq<InstructionType>, stack: seq<InstructionType>, s: seq<Instruction>)
    requires Nest(stack, s).Some?
    ensures Nest(base + stack, s) == Some(base + Nest(stack, s).value)
    decreases |s|
  {
    if s != [] {
      var t := s[0].kind;
      if IsPush(t) {
        assert base + stack + [t] == base + (stack + [t]);
        NestOnTop(base, stack + [t], s[1..]);
      } else if IsPop(t) {
        assert (base + stack)[..|base + stack| - 1] == base + stack[..|stack| - 1];
        NestOnTop(base, stack[..|stack| - 1], s[1..]);
      } else {
        NestOnTop(base, stack, s[1..]);
      }
    }
  }

  lemma {:induction false} NestConcat(stack: seq<InstructionType>, a: seq<Instruction>, b: seq<Instruction>)
    requires Nest(stack, a).Some?
    ensures Nest(stack, a + b) == Nest(Nest(stack, a).value, b)
    decreases |a|
  {
    if a == [] {
      assert a + b == b;
    } else {
      assert (a + b)[0] == a[0] && (a + b)[1..] == a[1..] + b;
      var t := a[0].kind;
      if IsPush(t) {
        NestConcat(stack + [t], a[1..], b);
      } else if IsPop(t) {
        NestConcat(stack[..|stack| - 1], a[1..], b);
      } else {
        NestConcat(stack, a[1..], b);
      }
    }
  }

  lemma BalancedConcat(a: seq<Instruction>, b: seq<Instruction>)
    requires Balanced(a) && Balanced(b)
    ensures Balanced(a + b)
  {
    NestConcat([], a, b);
  }

  lemma BalancedWrap(t: InstructionType, n: nat, body: seq<Instruction>)
    requires IsPush(t) && Balanced(body)
    ensures Balanced([Instruction(t, n)] + body + [Instruction(Closer(t), 0)])
  {
    var close := [Instruction(Closer(t), 0)];
    var s := [Instruction(t, n)] + body + close;
    assert s[0].kind == t;
    assert s[1..] == body + close;
    assert Nest([], s) == Nest([t], body + close);
    NestOnTop([t], [], body);
    assert [t] + [] == [t];
    assert Nest([t], body) == Some([t]);
    NestConcat([t], body, close);
    assert Nest([t], close) == Nest([], []);
  }

  /** A single instruction that neither pushes nor pops is balanced. */
  lemma BalancedLeaf(i: Instruction)
    requires !IsPush(i.kind) && !IsPop(i.kind)
    ensures Balanced([i])
  {
    assert [i][1..] == [];
  }

  lemma BalancedEmpty()
    ensures Balanced([])
  {
  }

  // ---------------------------------------------------------------------
  // `ast_instruction_type_name`.

  /** `ast_instruction_type_name` as written: its switch has no case for
    * `argument_equal` and `argument_comma`, which reach the
    * unreachable-assertion (`None` here). */
  function TypeNameAsWritten(t: InstructionType): (r: Option<string>)
    ensures r.None? <==> t == ArgumentEqual || t == ArgumentComma
  {
    match t
    case Skip => Some("skip")
    case Escape => Some("escape")
    case Text => Some("text")
    case ArgumentName => Some("argument_name")
    case PushDocument => Some("push_document")
    case PopDocument => Some("pop_document")
    case PushDirective => Some("push_directive")
    case PopDirective => Some("pop_directive")
    case PushArguments => Some("push_arguments")
    case PopArguments => Some("pop_arguments")
    case PushArgument => Some("push_argument")
    case PopArgument => Some("pop_argument")
    case PushBlock => Some("push_block")
    case PopBlock => Some("pop_block")
    case _ => None
  }

  /** The two enumerators the switch misses. */
  lemma TypeNameAsWrittenMisses()
    ensures TypeNameAsWritten(ArgumentEqual) == None
    ensures TypeNameAsWritten(ArgumentComma) == None
    ensures forall t :: TypeNameAsWritten(t).None? <==> t in {ArgumentEqual, ArgumentComma}
  {
  }

  /** `ast_instruction_type_name` with a case for every enumerator: the
    * enumerator's own spelling. */
  function TypeName(t: InstructionType): (name: string)
    ensures TypeNameAsWritten(t).Some? ==> name == TypeNameAsWritten(t).value
  {
    match t
    case ArgumentEqual => "argument_equal"
    case ArgumentComma => "argument_comma"
    case _ => TypeNameAsWritten(t).value
  }

  /** Every enumerator gets a name, and no two share one. */
  lemma TypeNameInjective(a: InstructionType, b: InstructionType)
    ensures TypeName(a) == TypeName(b) ==> a == b
  {
  }
}
