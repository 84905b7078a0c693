/** Reading the printed text of a spec tree builds the arguments that evaluating the tree does. */
module SpecMeanings {
  import opened SwitchLiveness
  import opened SpecScans
  import opened SpecTrees

  // ---------------------------------------------------------------------------------------
  // Finding the end of a body.

  function Prepended(text: string, r: BodyRead): BodyRead {
    match r
    case NoEnd => NoEnd
    case Body(t, rest, subst) => Body(text + t, rest, subst)
  }

  /** The search passes `text`, from one level of nesting to another. */
  ghost predicate Passes(text: string, from: nat, to: nat)
    requires from > 0 && to > 0
  {
    forall rest :: FindEnd(text + rest, from) == Prepended(text, FindEnd(rest, to))
  }

  lemma PassesBoth(a: string, b: string, from: nat, between: nat, to: nat)
    requires from > 0 && between > 0 && to > 0
    requires Passes(a, from, between) && Passes(b, between, to)
    ensures Passes(a + b, from, to)
  {
    hide FindEnd;
    forall rest
      ensures FindEnd(a + b + rest, from) == Prepended(a + b, FindEnd(rest, to))
    {
      assert a + b + rest == a + (b + rest);
      PrependedTwice(a, b, FindEnd(rest, to));
    }
  }

  lemma PrependedNothing(r: BodyRead)
    ensures Prepended("", r) == r
  {
    if r.Body? {
      assert "" + r.text == r.text;
    }
  }

  lemma PrependedTwice(a: string, b: string, r: BodyRead)
    ensures Prepended(a, Prepended(b, r)) == Prepended(a + b, r)
  {
    if r.Body? {
      assert a + (b + r.text) == a + b + r.text;
    }
  }

  lemma PassesNothing(level: nat)
    requires level > 0
    ensures Passes("", level, level)
  {
    forall rest
      ensures FindEnd("" + rest, level) == Prepended("", FindEnd(rest, level))
    {
      assert "" + rest == rest;
      PrependedNothing(FindEnd(rest, level));
    }
  }

  /** A character that does not change the nesting. */
  predicate Flat(c: char, level: nat) {
    c !in "{}%\0" && (c == ';' ==> level > 1)
  }

  lemma CharStep(c: char, rest: string, level: nat)
    requires level > 0 && c != '\0' && (c == '}' || c == ';' ==> level > 1)
    requires c == '%' && rest != "" && level == 1 ==> rest[0] != '*'
    ensures FindEnd([c] + rest, level) ==
            Prepended([c], FindEnd(rest, if c == '{' then level + 1 else if c == '}' then level - 1 else level))
  {
    assert ([c] + rest)[1..] == rest;
  }

  lemma PassesChar(c: char, level: nat)
    requires level > 0 && Flat(c, level)
    ensures Passes([c], level, level)
  {
    hide FindEnd, Prepended;
    forall rest
      ensures FindEnd([c] + rest, level) == Prepended([c], FindEnd(rest, level))
    {
      CharStep(c, rest, level);
    }
  }

  lemma PassesOpening(level: nat)
    requires level > 0
    ensures Passes("%{", level, level + 1)
  {
    hide FindEnd, Prepended;
    forall rest
      ensures FindEnd("%{" + rest, level) == Prepended("%{", FindEnd(rest, level + 1))
    {
      CharStep('%', "{" + rest, level);
      CharStep('{', rest, level);
      PrependedTwice("%", "{", FindEnd(rest, level + 1));
      assert "%" + "{" == "%{" && "%" + ("{" + rest) == "%{" + rest;
    }
  }

  lemma PassesClosing(level: nat)
    requires level > 0
    ensures Passes("}", level + 1, level)
  {
    hide FindEnd, Prepended;
    forall rest
      ensures FindEnd("}" + rest, level + 1) == Prepended("}", FindEnd(rest, level))
    {
      CharStep('}', rest, level + 1);
    }
  }

  lemma {:induction false} PassesFlat(s: string, level: nat)
    requires level > 0 && forall i :: 0 <= i < |s| ==> Flat(s[i], level)
    ensures Passes(s, level, level)
  {
    hide Passes;
    if s == "" {
      PassesNothing(level);
    } else {
      PassesChar(s[0], level);
      PassesFlat(s[1..], level);
      PassesBoth([s[0]], s[1..], level, level, level);
      assert [s[0]] + s[1..] == s;
    }
  }

  lemma AtomCharIsFlat(c: char, level: nat)
    requires AtomChar(c)
    ensures Flat(c, level)
  {
  }

  lemma PassesTest(t: Test, level: nat)
    requires level > 0 && ProperTest(t)
    ensures Passes(PrintTest(t), level, level)
  {
    hide Passes, AtomChar, Flat;
    forall i | 0 <= i < |t.name|
      ensures Flat(t.name[i], level)
    {
      AtomCharIsFlat(t.name[i], level);
    }
    var sign, star := if t.negated then "!" else "", if t.starred then "*" else "";
    PassesMarks(t, level);
    PassesFlat(t.name, level);
    PassesBoth(sign, Mark(t.kind), level, level, level);
    PassesBoth(sign + Mark(t.kind), t.name, level, level, level);
    PassesBoth(sign + Mark(t.kind) + t.name, star, level, level, level);
  }

  lemma PassesMarks(t: Test, level: nat)
    requires level > 0
    ensures Passes(if t.negated then "!" else "", level, level)
    ensures Passes(Mark(t.kind), level, level)
    ensures Passes(if t.starred then "*" else "", level, level)
  {
    hide Passes;
    PassesFlat(if t.negated then "!" else "", level);
    PassesFlat(Mark(t.kind), level);
    PassesFlat(if t.starred then "*" else "", level);
  }

  lemma {:induction false} PassesTests(tests: seq<Test>, level: nat)
    requires level > 0 && ProperTests(tests)
    ensures Passes(PrintTests(tests), level, level)
  {
    hide Passes, PrintTest, ProperTest;
    PassesTest(tests[0], level);
    if |tests| > 1 {
      PassesTests(tests[1..], level);
      PassesChar('|', level);
      PassesBoth(PrintTest(tests[0]), "|", level, level, level);
      PassesBoth(PrintTest(tests[0]) + "|", PrintTests(tests[1..]), level, level, level);
    }
  }

  lemma {:induction false} PassesSpec(spec: Spec, level: nat)
    requires level > 0 && Proper(spec)
    ensures Passes(Print(spec), level, level)
    decreases spec
  {
    hide Passes;
    match spec
    case Nothing =>
      PassesNothing(level);
    case Literal(c, rest) =>
      PassesChar(c, level);
      PassesSpec(rest, level);
      PassesBoth([c], Print(rest), level, level, level);
    case Braced(choices, rest) =>
      PassesOpening(level);
      PassesChoices(choices, level + 1);
      PassesBoth("%{", PrintChoices(choices), level, level + 1, level + 1);
      PassesClosing(level);
      PassesBoth("%{" + PrintChoices(choices), "}", level, level + 1, level);
      PassesSpec(rest, level);
      PassesBoth("%{" + PrintChoices(choices) + "}", Print(rest), level, level, level);
  }

  lemma {:induction false} PassesChoices(choices: Choices, level: nat)
    requires level > 1 && ProperChoices(choices)
    ensures Passes(PrintChoices(choices), level, level)
    decreases choices
  {
    hide Passes, PrintTests;
    var tests, body := PrintTests(choices.tests), Print(choices.body);
    PassesTests(choices.tests, level);
    PassesChar(':', level);
    PassesBoth(tests, ":", level, level, level);
    PassesSpec(choices.body, level);
    PassesBoth(tests + ":", body, level, level, level);
    match choices
    case Only(_, _) =>
    case More(_, _, others) =>
      PassesChar(';', level);
      PassesBoth(tests + ":" + body, ";", level, level, level);
      PassesChoices(others, level);
      PassesBoth(tests + ":" + body + ";", PrintChoices(others), level, level, level);
    case Else(_, _, otherwise) =>
      PassesFlat(";:", level);
      PassesBoth(tests + ":" + body, ";:", level, level, level);
      PassesSpec(otherwise, level);
      PassesBoth(tests + ":" + body + ";:", Print(otherwise), level, level, level);
  }

  /** The body of a choice ends where its tree does. */
  lemma FindsEnd(body: Spec, rest: string)
    requires Proper(body) && rest != "" && rest[0] in "};"
    ensures FindEnd(Print(body) + rest, 1) == Body(Print(body), rest, false)
  {
    PassesSpec(body, 1);
    assert FindEnd(rest, 1) == Body("", rest, false);
    assert Print(body) + "" == Print(body);
  }

  // ---------------------------------------------------------------------------------------
  // Trimming.

  lemma {:induction false} TrimmedJoin(a: string, s: string)
    ensures Trimmed(a + s) == if Trimmed(s) == "" then Trimmed(a) else a + Trimmed(s)
    decreases |s|
  {
    if s == "" {
      assert a + s == a;
    } else {
      var last := s[|s| - 1];
      assert (a + s)[..|a + s| - 1] == a + s[..|s| - 1];
      if White(last) {
        TrimmedJoin(a, s[..|s| - 1]);
      }
    }
  }

  lemma {:induction false} TrimsTree(spec: Spec)
    ensures Trimmed(Print(spec)) == Print(WithoutEnd(spec))
    ensures Print(WithoutEnd(spec)) == "" <==> WithoutEnd(spec) == Nothing
    ensures Proper(spec) ==> Proper(WithoutEnd(spec))
  {
    match spec
    case Nothing =>
    case Literal(c, rest) =>
      TrimsTree(rest);
      TrimmedJoin([c], Print(rest));
      assert [c][..0] == "";
    case Braced(choices, rest) =>
      TrimsTree(rest);
      var braces := "%{" + PrintChoices(choices) + "}";
      TrimmedJoin(braces, Print(rest));
      assert Trimmed(braces) == braces;
      assert braces + "" == braces;
  }

  // ---------------------------------------------------------------------------------------
  // Reading a disjunction.

  ghost function AfterTests(env: Env, tests: seq<Test>, ch: Choice): Choice {
    if tests == [] || !ProperTest(tests[0]) then ch
    else AfterTests(env, tests[1..], Tested(env, tests[0], ':', ch).value)
  }

  lemma {:induction false} AfterTestsIs(env: Env, tests: seq<Test>, ch: Choice)
    requires ProperTests(tests) && !ch.mustBeLast
    ensures var after := AfterTests(env, tests, ch);
            && !after.mustBeLast && after.nWay == ch.nWay && after.nWayMatched == ch.nWayMatched
            && after.matched == (ch.matched || (!ch.nWayMatched && Any(env, tests)))
    decreases |tests|
  {
    var t := tests[0];
    var next := Tested(env, t, ':', ch).value;
    assert Any(env, tests) <==> Holds(env, t) != t.negated || Any(env, tests[1..]) by {
    }
    if |tests| > 1 {
      AfterTestsIs(env, tests[1..], next);
    } else {
      assert AfterTests(env, tests[1..], next) == next;
    }
    hide Any, Holds;
  }

  lemma ReadsOneTest(env: Env, t: Test, rest: string, ch: Choice, st: State)
    requires ProperTest(t) && !ch.mustBeLast && rest != "" && rest[0] in "|:"
    ensures Tested(env, t, ':', ch).Some?
    ensures var after := Tested(env, t, ':', ch).value;
            Braces(env, PrintTest(t) + rest, ch, st) ==
            if rest[0] == '|' then Braces(env, rest[1..], after, st) else BraceBody(env, rest[1..], after, st)
  {
    ReadsTest(t, rest);
    hide ReadAtom, PrintTest, Holds, AtomChar, BraceBody;
    assert Tested(env, t, rest[0], ch) == Tested(env, t, ':', ch);
  }

  lemma {:induction false} ReadsTests(env: Env, tests: seq<Test>, rest: string, ch: Choice, st: State)
    requires ProperTests(tests) && !ch.mustBeLast
    ensures Braces(env, PrintTests(tests) + (":" + rest), ch, st)
            == BraceBody(env, rest, AfterTests(env, tests, ch), st)
    decreases |tests|
  {
    hide Braces, BraceBody, PrintTest, PrintTests, Tested, AfterTests, ProperTest, Decided;
    var t := tests[0];
    AfterOne(env, t, ch);
    AfterTestsStep(env, tests, ch);
    TestsSplit(tests, rest);
    var next := Tested(env, t, ':', ch).value;
    if |tests| == 1 {
      ReadsOneTest(env, t, ":" + rest, ch, st);
      AfterNothing(env, next);
    } else {
      ReadsOneTest(env, t, "|" + (PrintTests(tests[1..]) + (":" + rest)), ch, st);
      ReadsTests(env, tests[1..], rest, next, st);
    }
  }

  lemma TestsSplit(tests: seq<Test>, rest: string)
    requires tests != []
    ensures (":" + rest)[1..] == rest
    ensures |tests| == 1 ==> tests[1..] == [] && PrintTests(tests) + (":" + rest) == PrintTest(tests[0]) + (":" + rest)
    ensures var more := PrintTests(tests[1..]) + (":" + rest);
            && ("|" + more)[1..] == more
            && (|tests| > 1 ==> PrintTests(tests) + (":" + rest) == PrintTest(tests[0]) + ("|" + more))
  {
    hide PrintTest;
    if |tests| > 1 {
      Regrouped(PrintTest(tests[0]), "|", PrintTests(tests[1..]), ":" + rest);
    }
  }

  lemma Regrouped(a: string, b: string, c: string, d: string)
    ensures a + b + c + d == a + (b + (c + d))
  {
  }

  lemma AfterNothing(env: Env, ch: Choice)
    ensures AfterTests(env, [], ch) == ch
  {
  }

  lemma AfterTestsStep(env: Env, tests: seq<Test>, ch: Choice)
    requires ProperTests(tests) && Decided(tests[0]) && Tested(env, tests[0], ':', ch).Some?
    ensures AfterTests(env, tests, ch) == AfterTests(env, tests[1..], Tested(env, tests[0], ':', ch).value)
  {
    hide Tested, ProperTest, Decided;
  }

  lemma AfterOne(env: Env, t: Test, ch: Choice)
    requires ProperTest(t) && !ch.mustBeLast
    ensures Decided(t) && Tested(env, t, ':', ch).Some? && !Tested(env, t, ':', ch).value.mustBeLast
  {
  }

  predicate AllStarred(tests: seq<Test>) {
    forall i :: 0 <= i < |tests| ==> tests[i].starred
  }

  lemma {:induction false} StarsLeft(env: Env, tests: seq<Test>, ch: Choice)
    requires ProperTests(tests) && !ch.mustBeLast
    ensures AfterTests(env, tests, ch).starred <==> ch.starred && AllStarred(tests)
    decreases |tests|
  {
    hide Holds, ProperTest;
    AfterOne(env, tests[0], ch);
    AfterTestsStep(env, tests, ch);
    StarOf(env, tests[0], ch);
    var next := Tested(env, tests[0], ':', ch).value;
    if |tests| > 1 {
      StarsLeft(env, tests[1..], next);
      assert forall i :: 0 < i < |tests| ==> tests[i] == tests[1..][i - 1];
    } else {
      AfterNothing(env, next);
    }
    hide Tested;
  }

  lemma StarOf(env: Env, t: Test, ch: Choice)
    requires ProperTest(t) && Decided(t) && Tested(env, t, ':', ch).Some?
    ensures Tested(env, t, ':', ch).value.starred <==> ch.starred && t.starred
  {
    hide Holds;
  }

  /** A body that names the rest of the switch with %* is an error unless every test has a star. Such a
      body is outside this model when it is chosen, and passed over when it is not. */
  lemma SubstitutionNeedsStars(env: Env, tests: seq<Test>, body: string, more: string, st: State)
    requires ProperTests(tests) && FindEnd(body + "}" + more, 1) == Body(body, "}" + more, true)
    ensures var r := Braces(env, PrintTests(tests) + (":" + (body + "}" + more)), FIRST, st);
            if !AllStarred(tests) then r == Failed(Fatal)
            else r == if Any(env, tests) then Failed(Unmodelled) else Closed(more, st)
  {
    hide Braces, PrintTests, Any, Holds, ProperTest, AfterTests, FindEnd;
    ReadsTests(env, tests, body + "}" + more, FIRST, st);
    StarsLeft(env, tests, FIRST);
    AfterTestsIs(env, tests, FIRST);
  }

  // ---------------------------------------------------------------------------------------
  // Reading a whole spec.

  /** A body read, when it ends at `rest`. */
  lemma {:induction false} ReadsBody(env: Env, body: Spec, rest: string, ch: Choice, st: State)
    requires Proper(body) && rest != "" && rest[0] in "};"
    ensures var after := if ch.matched && !ch.nWayMatched then Eval(env, WithoutEnd(body), st) else st;
            BraceBody(env, Print(body) + rest, ch, st) ==
            if rest[0] == ';' then
              Braces(env, rest[1..], ch.Next(), after)
            else Closed(rest[1..], after)
    decreases Size(body), 2
  {
    hide Braces, Eval, Print, FindEnd, Trimmed, WithoutEnd, Proper, Scan;
    FindsEnd(body, rest);
    if ch.matched && !ch.nWayMatched {
      TrimsTree(body);
      WithoutEndShrinks(body);
      ReadsSpec(env, WithoutEnd(body), "", st);
      assert Print(WithoutEnd(body)) + "" == Print(WithoutEnd(body));
      ScanNothing(env, Eval(env, WithoutEnd(body), st));
    }
  }

  lemma ScanNothing(env: Env, st: State)
    ensures Scan(env, "", st) == Done(st)
  {
  }

  lemma {:induction false} ReadsChoices(env: Env, choices: Choices, rest: string, ch: Choice, st: State)
    requires ProperChoices(choices) && !ch.mustBeLast && !ch.matched
    ensures Braces(env, PrintChoices(choices) + "}" + rest, ch, st) ==
            Closed(rest, if ch.nWayMatched then st else EvalChoices(env, choices, st))
    decreases SizeOf(choices), 0
  {
    hide Braces, BraceBody, Eval, EvalChoices, Any, ProperTests, PrintTests, PrintChoices, Print, AfterTests, Tail;
    var body, tail := Print(choices.body), Tail(choices, rest);
    ChoicesSplit(choices, rest);
    ReadsTests(env, choices.tests, body + tail, ch, st);
    var first := AfterTests(env, choices.tests, ch);
    AfterTestsIs(env, choices.tests, ch);
    ReadsBody(env, choices.body, tail, first, st);
    EvalChoicesIs(env, choices, st);
    var next := first.Next();
    var after := if first.matched && !first.nWayMatched then Eval(env, WithoutEnd(choices.body), st) else st;
    match choices
    case Only(_, _) =>
    case More(_, _, others) =>
      ReadsChoices(env, others, rest, next, after);
    case Else(_, _, otherwise) =>
      ReadsDefault(env, otherwise, rest, next, after);
  }

  /** What comes after the body of the first clause. */
  function Tail(choices: Choices, rest: string): string {
    match choices
    case Only(_, _) => "}" + rest
    case More(_, _, others) => ";" + (PrintChoices(others) + "}" + rest)
    case Else(_, _, otherwise) => ";" + (":" + (Print(otherwise) + ("}" + rest)))
  }

  lemma ChoicesSplit(choices: Choices, rest: string)
    ensures var tail := Tail(choices, rest);
            && PrintChoices(choices) + "}" + rest == PrintTests(choices.tests) + (":" + (Print(choices.body) + tail))
            && tail != "" && tail[0] == (if choices.Only? then '}' else ';')
            && tail[1..] == match choices
                            case Only(_, _) => rest
                            case More(_, _, others) => PrintChoices(others) + "}" + rest
                            case Else(_, _, otherwise) => ":" + (Print(otherwise) + ("}" + rest))
  {
    hide Print, PrintTests;
    var tests, body := PrintTests(choices.tests), Print(choices.body);
    match choices
    case Only(_, _) => Regrouped(tests, ":", body, "}" + rest);
    case More(_, _, others) => JoinedMore(tests, body, PrintChoices(others), rest);
    case Else(_, _, otherwise) => JoinedElse(tests, body, Print(otherwise), rest);
  }

  lemma JoinedMore(tests: string, body: string, others: string, rest: string)
    ensures tests + ":" + body + ";" + others + "}" + rest == tests + (":" + (body + (";" + (others + "}" + rest))))
  {
  }

  lemma JoinedElse(tests: string, body: string, otherwise: string, rest: string)
    ensures tests + ":" + body + ";:" + otherwise + "}" + rest
            == tests + (":" + (body + (";" + (":" + (otherwise + ("}" + rest))))))
  {
  }

  lemma EvalChoicesIs(env: Env, choices: Choices, st: State)
    ensures EvalChoices(env, choices, st) ==
            if Any(env, choices.tests) then Eval(env, WithoutEnd(choices.body), st) else
              if choices.Only? then st
              else if choices.More? then EvalChoices(env, choices.others, st)
              else Eval(env, WithoutEnd(choices.otherwise), st)
  {
    hide Any, Eval;
  }

  /** The default of an n-way choice. */
  lemma {:induction false} ReadsDefault(env: Env, otherwise: Spec, rest: string, ch: Choice, st: State)
    requires Proper(otherwise) && !ch.mustBeLast && !ch.matched && ch.nWay
    ensures Braces(env, ":" + (Print(otherwise) + ("}" + rest)), ch, st) ==
            Closed(rest, if ch.nWayMatched then st else Eval(env, WithoutEnd(otherwise), st))
    decreases Size(otherwise), 3
  {
    var p := Print(otherwise) + ("}" + rest);
    ReadsEmptyTest(p);
    var after := ch.(disjunct := true, mustBeLast := true, matched := !ch.nWayMatched, starred := false);
    assert (":" + p)[1..] == p;
    ReadsBody(env, otherwise, "}" + rest, after, st);
    assert ("}" + rest)[1..] == rest;
    hide ReadAtom, BraceBody, Print, Eval, WithoutEnd, Proper;
  }

  lemma ReadsEmptyTest(p: string)
    ensures ReadAtom(":" + p) == Atom(Test(false, Plain, "", false), ":" + p)
  {
    assert (":" + p)[0..] == ":" + p;
  }

  /** Reading printed text evaluates the tree and goes on behind it. */
  lemma {:induction false} ReadsSpec(env: Env, spec: Spec, rest: string, st: State)
    requires Proper(spec)
    ensures Scan(env, Print(spec) + rest, st) == Scan(env, rest, Eval(env, spec, st))
    decreases Size(spec), 1
  {
    hide Scan, Braces, EvalChoices, PrintChoices, ProperChoices, PlainText;
    match spec
    case Nothing =>
      assert Print(spec) + rest == rest;
    case Literal(c, more) =>
      ReadsLiteral(env, c, Print(more) + rest, st);
      ReadsSpec(env, more, rest, if White(c) then EndArg(st) else Grow(c, st));
      assert Print(spec) + rest == [c] + (Print(more) + rest);
    case Braced(choices, more) =>
      ReadsChoices(env, choices, Print(more) + rest, FIRST, st);
      ReadsSpec(env, more, rest, EvalChoices(env, choices, st));
      ReadsBraced(env, PrintChoices(choices) + "}" + (Print(more) + rest), st);
      assert Print(spec) + rest == "%{" + (PrintChoices(choices) + "}" + (Print(more) + rest));
  }

  lemma ReadsLiteral(env: Env, c: char, rest: string, st: State)
    requires PlainText(c)
    ensures Scan(env, [c] + rest, st) == Scan(env, rest, if White(c) then EndArg(st) else Grow(c, st))
  {
    hide Braces;
    assert ([c] + rest)[1..] == rest;
  }

  lemma ReadsBraced(env: Env, p: string, st: State)
    ensures Scan(env, "%{" + p, st) ==
            match Braces(env, p, FIRST, st) case Failed(why) => why case Closed(rest, after) => Scan(env, rest, after)
  {
    hide Braces;
    assert ("%{" + p)[2..] == p;
  }

  /** The printed text of a spec builds the arguments that the tree means. */
  lemma PrintedSpecMeans(env: Env, spec: Spec, st: State)
    requires Proper(spec)
    ensures Scan(env, Print(spec), st) == Done(Eval(env, spec, st))
  {
    ReadsSpec(env, spec, "", st);
    assert Print(spec) + "" == Print(spec);
    ScanNothing(env, Eval(env, spec, st));
    hide Scan, Eval, Print;
  }

  // ---------------------------------------------------------------------------------------
  // Concretely.

  const KNOWN_TESTS: seq<Test> := [Test(true, Suffix, "c", false), Test(false, Plain, "mx", true)]

  const KNOWN_CHOICES: Choices := Else(KNOWN_TESTS, Literal('b', Nothing), Literal(' ', Nothing))

  /** A tree of most kinds of node, and its text. */
  lemma KnownSpec()
    ensures Proper(Braced(KNOWN_CHOICES, Nothing))
    ensures Print(Braced(KNOWN_CHOICES, Nothing)) == "%{!.c|mx*:b;: }"
  {
    hide PrintChoices, ProperChoices, KNOWN_CHOICES;
    KnownChoices();
    assert "%{" + "!.c|mx*:b;: " + "}" + "" == "%{!.c|mx*:b;: }";
  }

  lemma KnownChoices()
    ensures ProperChoices(KNOWN_CHOICES) && PrintChoices(KNOWN_CHOICES) == "!.c|mx*:b;: "
  {
    hide ProperTests, PrintTests;
    KnownTests();
    OneLetter('b');
    OneLetter(' ');
    hide Print, Proper;
    assert "!.c|mx*" + ":" + "b" + ";:" + " " == "!.c|mx*:b;: ";
  }

  lemma OneLetter(c: char)
    ensures Print(Literal(c, Nothing)) == [c] && (Proper(Literal(c, Nothing)) <==> PlainText(c))
  {
  }

  lemma KnownTests()
    ensures ProperTests(KNOWN_TESTS) && PrintTests(KNOWN_TESTS) == "!.c|mx*"
  {
    var tests := KNOWN_TESTS;
    assert tests[1..] == [tests[1]];
    assert PrintTest(tests[0]) == "!.c" && PrintTest(tests[1]) == "mx*";
    hide PrintTest;
  }
}
