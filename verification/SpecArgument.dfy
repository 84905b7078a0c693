/** The arguments that a spec adds up to: the words of its text, once the choices are made. */
module SpecArguments {
  import opened SwitchLiveness
  import opened SpecScans
  import opened SpecTrees
  import opened SpecMeanings
  import opened Wrappers

  // ---------------------------------------------------------------------------------------
  // Words.

  /** The words, from places `at` on, are the longest runs of `p` without white space: they hold none,
      there is some between any two, and they leave out nothing else. */
  ghost predicate Runs(p: string, words: seq<string>, at: seq<nat>) {
    && |at| == |words|
    && (forall i :: 0 <= i < |words| ==> RunAt(p, words[i], at[i]))
    && (forall i, j :: 0 <= i < j < |words| ==> at[i] + |words[i]| < at[j])
    && (forall k :: 0 <= k < |p| && !White(p[k]) ==> InWord(words, at, k))
  }

  ghost predicate InWord(words: seq<string>, at: seq<nat>, k: nat)
    requires |at| == |words|
  {
    exists i :: 0 <= i < |words| && at[i] <= k < at[i] + |words[i]|
  }

  predicate RunAt(p: string, word: string, at: nat) {
    && word != "" && at + |word| <= |p|
    && forall k :: 0 <= k < |word| ==> word[k] == p[at + k] && !White(word[k])
  }

  /** The words of a text. */
  ghost predicate AreWords(p: string, words: seq<string>) {
    exists at :: Runs(p, words, at)
  }

  /** The arguments of a state, finished or not. */
  function Arguments(st: State): seq<string> {
    st.args + if st.going then [st.current] else []
  }

  /** Text without anything special. */
  predicate Plain(p: string) {
    forall k :: 0 <= k < |p| ==> PlainText(p[k])
  }

  /** The state has split `p`. */
  ghost predicate HasSplit(p: string, st: State, at: seq<nat>) {
    var words := Arguments(st);
    && Runs(p, words, at) && |at| == |words|
    && (if st.going then at[|at| - 1] + |st.current| == |p|
        else st.current == "" && (words != [] ==> at[|at| - 1] + |words[|words| - 1]| < |p|))
  }

  lemma RunsWhite(p: string, words: seq<string>, at: seq<nat>, c: char)
    requires Runs(p, words, at) && White(c)
    ensures Runs(p + [c], words, at)
  {
    hide White;
    forall i | 0 <= i < |words|
      ensures RunAt(p + [c], words[i], at[i])
    {
      assert RunAt(p, words[i], at[i]);
    }
  }

  lemma RunsOn(p: string, words: seq<string>, at: seq<nat>, c: char)
    requires Runs(p, words, at) && !White(c) && words != [] && at[|at| - 1] + |words[|words| - 1]| == |p|
    ensures Runs(p + [c], words[..|words| - 1] + [words[|words| - 1] + [c]], at)
  {
    hide White;
    var n := |words| - 1;
    var more := words[..n] + [words[n] + [c]];
    forall i | 0 <= i <= n
      ensures RunAt(p + [c], more[i], at[i])
    {
      assert RunAt(p, words[i], at[i]);
    }
    forall k | 0 <= k < |p| + 1 && !White((p + [c])[k])
      ensures InWord(more, at, k)
    {
      if k < |p| {
        assert InWord(words, at, k);
        var i :| 0 <= i < |words| && at[i] <= k < at[i] + |words[i]|;
        assert at[i] <= k < at[i] + |more[i]|;
      } else {
        assert at[n] <= k < at[n] + |more[n]|;
      }
    }
  }

  lemma RunsNew(p: string, words: seq<string>, at: seq<nat>, c: char)
    requires Runs(p, words, at) && !White(c)
    requires words != [] ==> at[|at| - 1] + |words[|words| - 1]| < |p|
    ensures Runs(p + [c], words + [[c]], at + [|p|])
  {
    hide White;
    var n := |words|;
    var more, places := words + [[c]], at + [|p|];
    forall i | 0 <= i <= n
      ensures RunAt(p + [c], more[i], places[i])
    {
      assert i < n ==> RunAt(p, words[i], at[i]);
    }
    hide RunAt, InWord;
    forall i | 0 <= i < n
      ensures at[i] + |words[i]| < |p|
    {
      assert i < n - 1 ==> at[i] + |words[i]| < at[n - 1];
    }
    forall k | 0 <= k < |p| + 1 && !White((p + [c])[k])
      ensures InWord(more, places, k)
    {
      StillInWord(words, at, [c], |p|, k);
    }
  }

  lemma StillInWord(words: seq<string>, at: seq<nat>, word: string, place: nat, k: nat)
    requires |at| == |words| && (InWord(words, at, k) || place <= k < place + |word|)
    ensures InWord(words + [word], at + [place], k)
  {
    if i :| 0 <= i < |words| && at[i] <= k < at[i] + |words[i]| {
      assert (at + [place])[i] <= k < (at + [place])[i] + |(words + [word])[i]|;
    } else {
      var n := |words|;
      assert (at + [place])[n] <= k < (at + [place])[n] + |(words + [word])[n]|;
    }
  }

  /** One more character. */
  lemma SplitStep(p: string, st: State, at: seq<nat>, c: char) returns (after: seq<nat>)
    requires HasSplit(p, st, at)
    ensures HasSplit(p + [c], if White(c) then EndArg(st) else Grow(c, st), after)
  {
    hide White, Runs;
    after := at;
    SameSize(p, Arguments(st), at);
    if White(c) {
      RunsWhite(p, Arguments(st), at, c);
      assert Arguments(EndArg(st)) == Arguments(st);
    } else if st.going {
      RunsOn(p, Arguments(st), at, c);
      assert Arguments(Grow(c, st)) == Arguments(st)[..|Arguments(st)| - 1] + [st.current + [c]];
    } else {
      RunsNew(p, Arguments(st), at, c);
      after := at + [|p|];
      assert st.current + [c] == [c];
      assert Arguments(Grow(c, st)) == Arguments(st) + [[c]];
    }
  }

  lemma SameSize(p: string, words: seq<string>, at: seq<nat>)
    requires Runs(p, words, at)
    ensures |at| == |words|
  {
  }

  /** A text has only one sequence of words. */
  lemma {:induction false} WordsAreUnique(p: string, a: seq<string>, at: seq<nat>, b: seq<string>, bt: seq<nat>)
    requires Runs(p, a, at) && Runs(p, b, bt)
    ensures a == b && at == bt
    decreases |p|
  {
    hide Runs, White;
    if p == "" {
      NoWords(a, at);
      NoWords(b, bt);
    } else {
      var a', at' := Shorter(p, a, at);
      var b', bt' := Shorter(p, b, bt);
      WordsAreUnique(p[..|p| - 1], a', at', b', bt');
    }
  }

  lemma NoWords(words: seq<string>, at: seq<nat>)
    requires Runs("", words, at)
    ensures words == [] && at == []
  {
    hide Runs, RunAt;
    SameSize("", words, at);
    if words != [] {
      NothingRuns(words[0], at[0]);
      FirstRuns("", words, at);
    }
  }

  lemma NothingRuns(word: string, at: nat)
    ensures !RunAt("", word, at)
  {
  }

  lemma FirstRuns(p: string, words: seq<string>, at: seq<nat>)
    requires Runs(p, words, at) && words != []
    ensures |at| > 0 && RunAt(p, words[0], at[0])
  {
  }

  /** The words of a text without its last character. */
  lemma Shorter(p: string, words: seq<string>, at: seq<nat>) returns (less: seq<string>, places: seq<nat>)
    requires Runs(p, words, at) && p != ""
    ensures var q, c := p[..|p| - 1], p[|p| - 1];
            && Runs(q, less, places)
            && if White(c) then words == less && at == places
               else if q == "" || White(q[|q| - 1]) then words == less + [[c]] && at == places + [|q|]
               else less != [] && words == less[..|less| - 1] + [less[|less| - 1] + [c]] && at == places
  {
    hide White, Runs;
    if White(p[|p| - 1]) {
      less, places := words, at;
      NotLast(p, words, at);
    } else {
      SameSize(p, words, at);
      LastWord(p, words, at);
      var n := |words| - 1;
      var k := |words[n]| - 1;
      assert words == words[..n] + [words[n]] && at == at[..n] + [at[n]];
      if k == 0 {
        less, places := words[..n], at[..n];
        LastDropped(p, words, at);
      } else {
        less, places := words[..n] + [words[n][..k]], at;
        LastCut(p, words, at);
      }
    }
  }

  /** The last word, when no white space is behind it. */
  lemma LastWord(p: string, words: seq<string>, at: seq<nat>)
    requires Runs(p, words, at) && p != "" && !White(p[|p| - 1])
    ensures words != [] && |words| == |at|
    ensures var word := words[|words| - 1];
            && word != "" && at[|at| - 1] + |word| == |p| && word == word[..|word| - 1] + [p[|p| - 1]]
            && (|word| > 1 ==> !White(p[|p| - 2]))
  {
    hide White, Runs;
    SameSize(p, words, at);
    BeforeEnd(p, words, at, |p| - 1);
    RunsAt(p, words, at, |words| - 1);
    EndOfWord(p, words[|words| - 1], at[|words| - 1]);
  }

  lemma RunsAt(p: string, words: seq<string>, at: seq<nat>, i: nat)
    requires Runs(p, words, at) && i < |words|
    ensures RunAt(p, words[i], at[i])
  {
  }

  lemma EndOfWord(p: string, word: string, at: nat)
    requires RunAt(p, word, at)
    ensures word == word[..|word| - 1] + [p[at + |word| - 1]]
    ensures |word| > 1 ==> !White(p[at + |word| - 2])
  {
    hide White;
    var k := |word| - 1;
    assert word[k] == p[at + k];
    assert k > 0 ==> word[k - 1] == p[at + (k - 1)];
  }

  lemma NotLast(p: string, words: seq<string>, at: seq<nat>)
    requires Runs(p, words, at) && p != "" && White(p[|p| - 1])
    ensures Runs(p[..|p| - 1], words, at)
  {
    hide White, RunAt;
    forall i | 0 <= i < |words|
      ensures RunAt(p[..|p| - 1], words[i], at[i])
    {
      RunCut(p, words[i], at[i]);
    }
  }

  lemma RunCut(p: string, word: string, at: nat)
    requires RunAt(p, word, at)
    ensures at + |word| < |p| ==> RunAt(p[..|p| - 1], word, at)
    ensures at + |word| == |p| && |word| > 1 ==> RunAt(p[..|p| - 1], word[..|word| - 1], at)
    ensures White(p[|p| - 1]) ==> RunAt(p[..|p| - 1], word, at)
  {
    hide White;
    var k := |word| - 1;
    assert word[k] == p[at + k];
  }

  lemma LastDropped(p: string, words: seq<string>, at: seq<nat>)
    requires Runs(p, words, at) && words != [] && |words[|words| - 1]| == 1 && at[|at| - 1] + 1 == |p|
    ensures var q, n := p[..|p| - 1], |words| - 1;
            Runs(q, words[..n], at[..n]) && (q == "" || White(q[|q| - 1]))
  {
    hide White;
    var q, n := p[..|p| - 1], |words| - 1;
    forall i | 0 <= i < n
      ensures RunAt(q, words[i], at[i])
    {
      assert RunAt(p, words[i], at[i]);
    }
    hide RunAt;
    forall k | 0 <= k < |q| && !White(q[k])
      ensures InWord(words[..n], at[..n], k) && k < |q| - 1
    {
      assert InWord(words, at, k);
      var i :| 0 <= i < |words| && at[i] <= k < at[i] + |words[i]|;
      assert words[..n][i] == words[i] && at[..n][i] == at[i];
    }
  }

  lemma LastCut(p: string, words: seq<string>, at: seq<nat>)
    requires Runs(p, words, at) && words != []
    requires |words[|words| - 1]| > 1 && at[|at| - 1] + |words[|words| - 1]| == |p|
    ensures var n := |words| - 1;
            Runs(p[..|p| - 1], words[..n] + [words[n][..|words[n]| - 1]], at)
  {
    hide White, RunAt;
    var q, n := p[..|p| - 1], |words| - 1;
    var less := words[..n] + [words[n][..|words[n]| - 1]];
    forall i | 0 <= i <= n
      ensures RunAt(q, less[i], at[i])
    {
      RunCut(p, words[i], at[i]);
    }
    forall k | 0 <= k < |q| && !White(q[k])
      ensures InWord(less, at, k)
    {
      assert InWord(words, at, k);
      var i :| 0 <= i < |words| && at[i] <= k < at[i] + |words[i]|;
      assert at[i] <= k < at[i] + |less[i]|;
    }
  }

  // ---------------------------------------------------------------------------------------
  // Text without choices.

  lemma Empty(st: State)
    requires st == State([], "", false)
    ensures HasSplit("", st, [])
  {
  }

  /** Scanning plain text behind `before` goes on splitting. */
  lemma {:induction false} SplitsFrom(env: Env, before: string, p: string, st: State,
                                      at: seq<nat>) returns (after: State, places: seq<nat>)
    requires Plain(p) && HasSplit(before, st, at)
    ensures Scan(env, p, st) == Done(after) && HasSplit(before + p, after, places)
    decreases |p|
  {
    hide HasSplit, EndArg, Grow, PlainText, White;
    if p == "" {
      after, places := st, at;
      assert before + p == before;
    } else {
      var next := SplitStep(before, st, at, p[0]);
      PlainStep(env, p, st);
      after, places := SplitsFrom(env, before + [p[0]], p[1..],
                                  if White(p[0]) then EndArg(st) else Grow(p[0], st), next);
      assert before + [p[0]] + p[1..] == before + p;
    }
  }

  lemma PlainStep(env: Env, p: string, st: State)
    requires p != "" && Plain(p)
    ensures Plain(p[1..]) && Scan(env, p, st) == Scan(env, p[1..], if White(p[0]) then EndArg(st) else Grow(p[0], st))
  {
    hide Braces;
  }

  /** Plain text adds up to its words, the last of them still going if no white space ends it. */
  lemma PlainWords(env: Env, p: string) returns (st: State)
    requires Plain(p)
    ensures Scan(env, p, State([], "", false)) == Done(st) && AreWords(p, Arguments(st))
    ensures if p != "" && !White(p[|p| - 1]) then st.going else st == State(st.args, "", false)
  {
    hide Scan, PlainText;
    Empty(State([], "", false));
    var at;
    st, at := SplitsFrom(env, "", p, State([], "", false), []);
    assert "" + p == p;
    GoingIs(p, st, at);
  }

  lemma GoingIs(p: string, st: State, at: seq<nat>)
    requires HasSplit(p, st, at)
    ensures if p != "" && !White(p[|p| - 1]) then st.going else st == State(st.args, "", false)
  {
    hide Runs, White;
    if st.going {
      LastLetter(p, Arguments(st), at);
    } else if p != "" {
      BeforeEnd(p, Arguments(st), at, |p| - 1);
    }
  }

  lemma LastLetter(p: string, words: seq<string>, at: seq<nat>)
    requires Runs(p, words, at) && words != [] && at[|at| - 1] + |words[|words| - 1]| == |p|
    ensures p != "" && !White(p[|p| - 1])
  {
    hide White;
    var n := |words| - 1;
    assert RunAt(p, words[n], at[n]);
    assert words[n][|words[n]| - 1] == p[at[n] + (|words[n]| - 1)];
  }

  lemma BeforeEnd(p: string, words: seq<string>, at: seq<nat>, k: nat)
    requires Runs(p, words, at) && k < |p|
    ensures White(p[k]) || (words != [] && k < at[|at| - 1] + |words[|words| - 1]|)
  {
    hide RunAt, White;
    if !White(p[k]) {
      assert InWord(words, at, k);
      var i :| 0 <= i < |words| && at[i] <= k < at[i] + |words[i]|;
      assert i < |words| - 1 ==> at[i] + |words[i]| < at[|words| - 1];
    }
  }

  // ---------------------------------------------------------------------------------------
  // Text with choices.

  /** The text of a spec tree once the choices are made. */
  ghost function Chosen(env: Env, spec: Spec): string
    decreases Size(spec), 0
  {
    match spec
    case Nothing => ""
    case Literal(c, rest) => [c] + Chosen(env, rest)
    case Braced(choices, rest) => ChosenOf(env, choices) + Chosen(env, rest)
  }

  ghost function ChosenOf(env: Env, choices: Choices): string
    decreases SizeOf(choices), 1
  {
    WithoutEndShrinks(choices.body);
    if Any(env, choices.tests) then Chosen(env, WithoutEnd(choices.body)) else
      match choices
      case Only(_, _) => ""
      case More(_, _, others) => ChosenOf(env, others)
      case Else(_, _, otherwise) => WithoutEndShrinks(otherwise); Chosen(env, WithoutEnd(otherwise))
  }

  /** Evaluating a tree is scanning its chosen text, which is plain. */
  lemma {:induction false} EvalIsChosen(env: Env, spec: Spec, rest: string, st: State)
    requires Proper(spec)
    ensures Plain(Chosen(env, spec))
    ensures Scan(env, Chosen(env, spec) + rest, st) == Scan(env, rest, Eval(env, spec, st))
    decreases Size(spec), 0
  {
    hide Scan, PlainText, White, EndArg, Grow, ProperChoices, ChosenOf, EvalChoices;
    match spec
    case Nothing =>
      assert "" + rest == rest;
    case Literal(c, more) =>
      var text := Chosen(env, more) + rest;
      assert Chosen(env, spec) + rest == [c] + text;
      ReadsLiteral(env, c, text, st);
      EvalIsChosen(env, more, rest, if White(c) then EndArg(st) else Grow(c, st));
    case Braced(choices, more) =>
      var text := Chosen(env, more) + rest;
      assert Chosen(env, spec) + rest == ChosenOf(env, choices) + text;
      EvalIsChosenOf(env, choices, text, st);
      EvalIsChosen(env, more, rest, EvalChoices(env, choices, st));
  }

  lemma {:induction false} EvalIsChosenOf(env: Env, choices: Choices, rest: string, st: State)
    requires ProperChoices(choices)
    ensures Plain(ChosenOf(env, choices))
    ensures Scan(env, ChosenOf(env, choices) + rest, st) == Scan(env, rest, EvalChoices(env, choices, st))
    decreases SizeOf(choices), 1
  {
    hide Scan, PlainText, White, Any, Proper, Chosen, Eval;
    if Any(env, choices.tests) {
      BodyIsChosen(env, choices.body, rest, st);
    } else {
      match choices
      case Only(_, _) =>
        assert "" + rest == rest;
      case More(_, _, others) =>
        EvalIsChosenOf(env, others, rest, st);
      case Else(_, _, otherwise) =>
        BodyIsChosen(env, otherwise, rest, st);
    }
  }

  lemma {:induction false} BodyIsChosen(env: Env, body: Spec, rest: string, st: State)
    requires Proper(body)
    ensures Plain(Chosen(env, WithoutEnd(body)))
    ensures Scan(env, Chosen(env, WithoutEnd(body)) + rest, st) == Scan(env, rest, Eval(env, WithoutEnd(body), st))
    decreases Size(body), 1
  {
    WithoutEndShrinks(body);
    TrimsTree(body);
    EvalIsChosen(env, WithoutEnd(body), rest, st);
    hide *;
  }

  /** The printed text of a spec adds up to the words of its chosen text. */
  lemma SpecWords(env: Env, spec: Spec) returns (st: State)
    requires Proper(spec)
    ensures Scan(env, Print(spec), State([], "", false)) == Done(st)
    ensures AreWords(Chosen(env, spec), Arguments(st))
    ensures st == State(st.args, st.current, true) || st == State(st.args, "", false)
  {
    hide *;
    var start := State([], "", false);
    PrintedSpecMeans(env, spec, start);
    EvalIsChosen(env, spec, "", start);
    ScanNothing(env, Eval(env, spec, start));
    assert Chosen(env, spec) + "" == Chosen(env, spec);
    st := PlainWords(env, Chosen(env, spec));
  }

  // ---------------------------------------------------------------------------------------
  // What a scan starts with is kept.

  /** The finished arguments stay as they are, and the text of the next one is only added to. */
  predicate Kept(st: State, after: State) {
    && st.args <= after.args
    && st.current <= (if |after.args| > |st.args| then after.args[|st.args|] else after.current)
    && (st.going ==> after.going || |after.args| > |st.args|)
  }

  lemma KeptTwice(a: State, b: State, c: State)
    requires Kept(a, b) && Kept(b, c)
    ensures Kept(a, c)
  {
  }

  lemma KeptByStep(st: State, c: char)
    ensures Kept(st, st) && Kept(st, EndArg(st)) && Kept(st, Grow(c, st)) && Kept(st, Grow(c, EndArg(st)))
    ensures Kept(st, st.(current := st.current + [c]))
  {
    if st.going {
      KeptTwice(st, EndArg(st), Grow(c, EndArg(st)));
    }
  }

  /** Whatever the text, with choices or without. */
  lemma {:induction false} ScanKeeps(env: Env, p: string, st: State)
    ensures Scan(env, p, st).Done? ==> Kept(st, Scan(env, p, st).state)
    decreases |p|, 0
  {
    hide Braces, Kept, EndArg, Grow;
    if p != "" {
      KeptByStep(st, p[0]);
      KeptByStep(st, '%');
      if White(p[0]) {
        ScanKeepsFrom(env, p[1..], st, EndArg(st));
      } else if p[0] == '|' {
        ScanKeepsFrom(env, p[1..], st, Grow('|', EndArg(st)));
      } else if p[0] == '%' && |p| > 1 && p[1] == '%' {
        ScanKeepsFrom(env, p[2..], st, st.(current := st.current + "%"));
      } else if p[0] == '%' && |p| > 1 && p[1] == '{' {
        BracesKeep(env, p[2..], FIRST, st);
        var r := Braces(env, p[2..], FIRST, st);
        if r.Closed? {
          ScanKeepsFrom(env, r.rest, st, r.state);
        }
      } else if p[0] == '\\' && |p| > 1 {
        KeptByStep(st, p[1]);
        ScanKeepsFrom(env, p[2..], st, Grow(p[1], st));
      } else if p[0] != '%' && p[0] != '\\' {
        ScanKeepsFrom(env, p[1..], st, Grow(p[0], st));
      }
    } else {
      KeptByStep(st, ' ');
    }
  }

  lemma {:induction false} ScanKeepsFrom(env: Env, p: string, st: State, next: State)
    requires Kept(st, next)
    ensures Scan(env, p, next).Done? ==> Kept(st, Scan(env, p, next).state)
    decreases |p|, 1
  {
    hide Scan, Kept;
    ScanKeeps(env, p, next);
    if Scan(env, p, next).Done? {
      KeptTwice(st, next, Scan(env, p, next).state);
    }
  }

  lemma {:induction false} BracesKeep(env: Env, p: string, ch: Choice, st: State)
    ensures match Braces(env, p, ch, st) case Failed(why) => !why.Done? case Closed(_, after) => Kept(st, after)
    decreases |p|, 0
  {
    hide Kept, BraceBody, ReadAtom, Tested;
    var atom := ReadAtom(p);
    if atom.Atom? && Head(atom.next) in "|:" && Decided(atom.test) {
      var after := Tested(env, atom.test, atom.next[0], ch);
      if after.Some? {
        BracesKeep(env, atom.next[1..], after.value, st);
        BodyKeeps(env, atom.next[1..], after.value, st);
      }
    }
  }

  lemma {:induction false} BodyKeeps(env: Env, p: string, ch: Choice, st: State)
    ensures match BraceBody(env, p, ch, st) case Failed(why) => !why.Done? case Closed(_, after) => Kept(st, after)
    decreases |p|, 1
  {
    hide Kept, Braces, Scan, FindEnd, Trimmed;
    var found := FindEnd(p, 1);
    KeptByStep(st, ' ');
    if found.Body? {
      var done := if ch.matched && !ch.nWayMatched then Scan(env, Trimmed(found.text), st) else Done(st);
      ScanKeeps(env, Trimmed(found.text), st);
      if done.Done? {
        BracesKeep(env, found.rest[1..], ch.Next(), done.state);
        var next := Braces(env, found.rest[1..], ch.Next(), done.state);
        if next.Closed? {
          KeptTwice(st, done.state, next.state);
        }
      }
    }
  }

  /** Concretely: a bar begins an argument, a backslash makes a blank part of one, and %% is a percent
      sign in an argument but begins none, so that it waits for what follows. */
  lemma Specials(env: Env)
    ensures Scan(env, "a|b", State([], "", false)) == Done(State(["a"], "|b", true))
    ensures Scan(env, "a\\ b", State([], "", false)) == Done(State([], "a b", true))
    ensures Scan(env, "a%%b", State([], "", false)) == Done(State([], "a%b", true))
    ensures Scan(env, "%% a", State([], "", false)) == Done(State([], "%a", true))
  {
    hide Scan;
    var start, a := State([], "", false), State([], "a", true);
    SpecialSteps(env, "b", a);
    assert "a" + "|b" == "a|b" && "a" + "\\ b" == "a\\ b" && "a" + "%%b" == "a%%b";
    Begins(env, "|b", start, a);
    Begins(env, "\\ b", start, a);
    Begins(env, "%%b", start, a);
    assert EndArg(a) == State(["a"], "", false) && "" + ['|'] == "|" && "|" + "b" == "|b";
    LastLetterRead(env, 'b', State(["a"], "|", true));
    assert "a" + [' '] == "a " && "a " + "b" == "a b" && "\\ " + "b" == "\\ b";
    LastLetterRead(env, 'b', State([], "a ", true));
    assert "a" + "%" == "a%" && "a%" + "b" == "a%b" && "%%" + "b" == "%%b";
    LastLetterRead(env, 'b', State([], "a%", true));
    Waits(env);
  }

  lemma Begins(env: Env, rest: string, start: State, a: State)
    requires start == State([], "", false) && a == State([], "a", true)
    ensures Scan(env, "a" + rest, start) == Scan(env, rest, a)
  {
    hide Scan;
    ReadsLiteral(env, 'a', rest, start);
    assert "" + ['a'] == "a" && ['a'] + rest == "a" + rest;
  }

  lemma Waits(env: Env)
    ensures Scan(env, "%% a", State([], "", false)) == Done(State([], "%a", true))
  {
    hide Scan;
    SpecialSteps(env, " a", State([], "", false));
    assert "%%" + " a" == "%% a" && "" + "%" == "%" && [' '] + "a" == " a" && "%" + "a" == "%a";
    ReadsLiteral(env, ' ', "a", State([], "%", false));
    LastLetterRead(env, 'a', State([], "%", false));
  }

  lemma SpecialSteps(env: Env, rest: string, st: State)
    ensures Scan(env, "|" + rest, st) == Scan(env, rest, Grow('|', EndArg(st)))
    ensures Scan(env, "\\ " + rest, st) == Scan(env, rest, Grow(' ', st))
    ensures Scan(env, "%%" + rest, st) == Scan(env, rest, st.(current := st.current + "%"))
  {
    hide Braces, Grow, EndArg;
    assert ("|" + rest)[1..] == rest && ("\\ " + rest)[2..] == rest && ("%%" + rest)[2..] == rest;
  }

  lemma LastLetterRead(env: Env, c: char, st: State)
    requires PlainText(c) && !White(c)
    ensures Scan(env, [c], st) == Done(State(st.args, st.current + [c], true))
  {
    hide Scan;
    assert [c] == [c] + "";
    ReadsLiteral(env, c, "", st);
    ScanNothing(env, Grow(c, st));
  }
}
