/** Specs as trees: literal text and conditional braces. Reading the printed text of a tree does
    what evaluating the tree does. */
module SpecTrees {
  import opened SpecScans

  datatype Spec = Nothing | Literal(c: char, rest: Spec) | Braced(choices: Choices, rest: Spec)

  /** %{S:X}, %{S:X; others} and %{S:X; :D}. S is a disjunction of tests. */
  datatype Choices =
    | Only(tests: seq<Test>, body: Spec)
    | More(tests: seq<Test>, body: Spec, others: Choices)
    | Else(tests: seq<Test>, body: Spec, otherwise: Spec)

  // ---------------------------------------------------------------------------------------
  // Printing.

  function Mark(kind: Kind): string {
    match kind case Plain => "" case Suffix => "." case SpecType => ","
  }

  function PrintTest(t: Test): string {
      (if t.negated then "!" else "")
    + Mark(t.kind)
    + t.name
    + (if t.starred then "*" else "")
  }

  function PrintTests(tests: seq<Test>): string {
    if tests == [] then ""
    else if |tests| == 1 then PrintTest(tests[0])
    else PrintTest(tests[0]) + "|" + PrintTests(tests[1..])
  }

  function Print(spec: Spec): string {
    match spec
    case Nothing => ""
    case Literal(c, rest) => [c] + Print(rest)
    case Braced(choices, rest) => "%{" + PrintChoices(choices) + "}" + Print(rest)
  }

  function PrintChoices(choices: Choices): string {
    match choices
    case Only(tests, body) => PrintTests(tests) + ":" + Print(body)
    case More(tests, body, others) => PrintTests(tests) + ":" + Print(body) + ";" + PrintChoices(others)
    case Else(tests, body, otherwise) => PrintTests(tests) + ":" + Print(body) + ";:" + Print(otherwise)
  }

  // ---------------------------------------------------------------------------------------
  // Evaluating.

  /** A body loses the white space at its end. */
  function WithoutEnd(spec: Spec): Spec {
    match spec
    case Nothing => Nothing
    case Literal(c, rest) =>
      var r := WithoutEnd(rest);
      if r == Nothing && White(c) then Nothing else Literal(c, r)
    case Braced(choices, rest) => Braced(choices, WithoutEnd(rest))
  }

  function Size(spec: Spec): nat {
    match spec
    case Nothing => 0
    case Literal(_, rest) => 1 + Size(rest)
    case Braced(choices, rest) => 1 + SizeOf(choices) + Size(rest)
  }

  function SizeOf(choices: Choices): nat {
    match choices
    case Only(_, body) => 1 + Size(body)
    case More(_, body, others) => 1 + Size(body) + SizeOf(others)
    case Else(_, body, otherwise) => 1 + Size(body) + Size(otherwise)
  }

  lemma {:induction false} WithoutEndShrinks(spec: Spec)
    ensures Size(WithoutEnd(spec)) <= Size(spec)
  {
    match spec
    case Nothing =>
    case Literal(_, rest) => WithoutEndShrinks(rest);
    case Braced(_, rest) => WithoutEndShrinks(rest);
  }

  ghost predicate Any(env: Env, tests: seq<Test>) {
    exists i :: 0 <= i < |tests| && tests[i].name != "" && Holds(env, tests[i]) != tests[i].negated
  }

  ghost function Eval(env: Env, spec: Spec, st: State): State
    decreases Size(spec), 0
  {
    match spec
    case Nothing => st
    case Literal(c, rest) => Eval(env, rest, if White(c) then EndArg(st) else Grow(c, st))
    case Braced(choices, rest) => Eval(env, rest, EvalChoices(env, choices, st))
  }

  /** Only the first choice that holds contributes; failing that, the default. */
  ghost function EvalChoices(env: Env, choices: Choices, st: State): State
    decreases SizeOf(choices), 1
  {
    WithoutEndShrinks(choices.body);
    if Any(env, choices.tests) then Eval(env, WithoutEnd(choices.body), st) else
      match choices
      case Only(_, _) => st
      case More(_, _, others) => EvalChoices(env, others, st)
      case Else(_, _, otherwise) => WithoutEndShrinks(otherwise); Eval(env, WithoutEnd(otherwise), st)
  }

  // ---------------------------------------------------------------------------------------
  // The specs of this kind.

  predicate PlainText(c: char) {
    c !in "{};%\\|\n\0"
  }

  predicate ProperTest(t: Test) {
    && t.name != ""
    && (forall i :: 0 <= i < |t.name| ==> AtomChar(t.name[i]))
    && (t.kind == Plain ==> t.name[0] != '.' && t.name[0] != ',')
    && (t.starred ==> t.kind == Plain && |t.name| >= 2)
  }

  predicate ProperTests(tests: seq<Test>) {
    tests != [] && forall i :: 0 <= i < |tests| ==> ProperTest(tests[i])
  }

  predicate Proper(spec: Spec) {
    match spec
    case Nothing => true
    case Literal(c, rest) => PlainText(c) && Proper(rest)
    case Braced(choices, rest) => ProperChoices(choices) && Proper(rest)
  }

  predicate ProperChoices(choices: Choices) {
    ProperTests(choices.tests) && Proper(choices.body) &&
    match choices
    case Only(_, _) => true
    case More(_, _, others) => ProperChoices(others)
    case Else(_, _, otherwise) => Proper(otherwise)
  }

  // ---------------------------------------------------------------------------------------
  // Reading tests back.

  lemma {:induction false} AtomLengthOf(name: string, rest: string)
    requires forall i :: 0 <= i < |name| ==> AtomChar(name[i])
    requires rest == "" || !AtomChar(rest[0])
    ensures AtomLength(name + rest) == |name|
  {
    if name == "" {
      assert name + rest == rest;
    } else {
      assert (name + rest)[1..] == name[1..] + rest;
      AtomLengthOf(name[1..], rest);
    }
  }

  lemma ReadsName(t: Test, rest: string)
    requires ProperTest(t) && rest != "" && rest[0] in "|:"
    ensures ReadName(t.name + (if t.starred then "*" else "") + rest, t.negated, t.kind) == Atom(t, rest)
  {
    var star := if t.starred then "*" else "";
    var p := t.name + star + rest;
    assert p == t.name + (star + rest);
    AtomLengthOf(t.name, star + rest);
    assert p[..|t.name|] == t.name;
    assert p[|t.name|..] == star + rest;
    assert t.starred ==> (star + rest)[1..] == rest;
    assert !t.starred ==> star + rest == rest;
    hide AtomLength, AtomChar;
  }

  lemma ReadsMarked(t: Test, p: string, rest: string)
    requires ProperTest(t) && p != "" && p[0] == t.name[0] && ReadName(p, t.negated, t.kind) == Atom(t, rest)
    ensures ReadMarked(Mark(t.kind) + p, t.negated) == Atom(t, rest)
  {
    hide ReadName;
    assert AtomChar(t.name[0]);
    assert ("." + p)[1..] == p && ("," + p)[1..] == p && "" + p == p;
  }

  lemma ReadsSign(marked: string, negated: bool)
    requires marked != "" && !White(marked[0]) && marked[0] != '!'
    ensures ReadAtom((if negated then "!" else "") + marked) == ReadMarked(marked, negated)
  {
    hide ReadMarked;
    assert ("!" + marked)[1..] == marked && "" + marked == marked;
    assert SkipWhite(marked) == marked;
  }

  lemma ReadsTest(t: Test, rest: string)
    requires ProperTest(t) && rest != "" && rest[0] in "|:"
    ensures ReadAtom(PrintTest(t) + rest) == Atom(t, rest)
  {
    hide *;
    var p := t.name + (if t.starred then "*" else "") + rest;
    MarkedStart(t, p);
    ReadsName(t, rest);
    ReadsMarked(t, p, rest);
    ReadsSign(Mark(t.kind) + p, t.negated);
    PrintedTest(t, rest);
  }

  lemma PrintedTest(t: Test, rest: string)
    ensures PrintTest(t) + rest ==
            (if t.negated then "!" else "") + (Mark(t.kind) + (t.name + (if t.starred then "*" else "") + rest))
  {
    hide Mark;
  }

  lemma MarkedStart(t: Test, p: string)
    requires ProperTest(t) && p != "" && (t.name != "" ==> p[0] == t.name[0])
    ensures t.name != ""
    ensures Mark(t.kind) + p != "" && !White((Mark(t.kind) + p)[0]) && (Mark(t.kind) + p)[0] != '!'
  {
    assert AtomChar(t.name[0]);
  }
}
