/** The spec language of the GCC driver, read character by character: do_spec_1, handle_braces
    and process_brace_body. A pointer into a spec is the text from there on. */
module SpecScans {
  import opened SwitchLiveness
  import opened Wrappers

  /** What specs ask about: the switches of the command line, the suffix of the input file, and
      the suffix that its compiler is registered under. */
  datatype Env = Env(switches: seq<Switch>, inputSuffix: Option<string>, compilerSuffix: Option<string>)

  /** The finished arguments, the text of the next one, and whether there is a next one. */
  datatype State = State(args: seq<string>, current: string, going: bool)

  /** Unmodelled: the spec uses a construct that is not part of this model. */
  datatype Outcome = Done(state: State) | Fatal | Unmodelled

  datatype BraceOutcome = Closed(rest: string, state: State) | Failed(why: Outcome)

  function EndArg(st: State): State {
    if st.going then State(st.args + [st.current], "", false) else st
  }

  function Grow(c: char, st: State): State {
    st.(current := st.current + [c], going := true)
  }

  predicate White(c: char) {
    c == ' ' || c == '\t'
  }

  // ---------------------------------------------------------------------------------------
  // Atoms.

  datatype Kind = Plain | Suffix | SpecType

  datatype Test = Test(negated: bool, kind: Kind, name: string, starred: bool)

  datatype AtomRead = Atom(test: Test, next: string) | SpecFunction

  predicate AtomChar(c: char) {
    'a' <= c <= 'z' || 'A' <= c <= 'Z' || '0' <= c <= '9' || c in "_-+=,.@"
  }

  /** Blanks and tabs are white space, and a newline is not; an atom goes on up to a mark, a brace or
      white space. */
  lemma CharactersAre(c: char)
    ensures White(c) <==> c in " \t"
    ensures c in "*:|&;{}%!/\\ \t\n\0<>()" ==> !AtomChar(c)
    ensures AtomChar('a') && AtomChar('z') && AtomChar('A') && AtomChar('Z') && AtomChar('0') && AtomChar('9')
    ensures AtomChar('_') && AtomChar('-') && AtomChar('+') && AtomChar('=') && AtomChar(',') && AtomChar('.')
    ensures AtomChar('@')
  {
  }

  function SkipWhite(p: string): (r: string)
    ensures |r| <= |p|
  {
    if p != "" && White(p[0]) then SkipWhite(p[1..]) else p
  }

  /** How long the atom at `p` is. */
  function AtomLength(p: string): (n: nat)
    ensures n <= |p|
  {
    if p != "" && AtomChar(p[0]) then 1 + AtomLength(p[1..]) else 0
  }

  function Head(p: string): char {
    if p == "" then '\0' else p[0]
  }

  function ReadAtom(p: string): (r: AtomRead)
    ensures r.Atom? ==> |r.next| <= |p|
  {
    var p1 := SkipWhite(p);
    if Head(p1) == '!' then ReadMarked(SkipWhite(p1[1..]), true) else ReadMarked(p1, false)
  }

  function ReadMarked(p: string, negated: bool): (r: AtomRead)
    ensures r.Atom? ==> |r.next| <= |p|
  {
    if |p| >= 2 && p[0] == '%' && p[1] == ':' then SpecFunction
    else if Head(p) == '.' then ReadName(p[1..], negated, Suffix)
    else if Head(p) == ',' then ReadName(p[1..], negated, SpecType)
    else ReadName(p, negated, Plain)
  }

  function ReadName(p: string, negated: bool, kind: Kind): (r: AtomRead)
    ensures r.Atom? && |r.next| <= |p|
  {
    var n := AtomLength(p);
    var starred := Head(p[n..]) == '*';
    Atom(Test(negated, kind, p[..n], starred), SkipWhite(if starred then p[n..][1..] else p[n..]))
  }

  /** A plain starred atom of one letter may be answered from memory or not: see MemoryAgrees. */
  predicate Decided(t: Test) {
    t.kind == Plain && t.starred ==> |t.name| >= 2
  }

  ghost predicate Holds(env: Env, t: Test)
    requires t.name != ""
  {
    match t.kind
    case Plain => Matches(env.switches, t.name, t.starred)
    case Suffix => env.inputSuffix == Some(t.name)
    case SpecType =>
      env.compilerSuffix.Some? && env.compilerSuffix.value != "" && env.compilerSuffix.value[1..] == t.name
  }

  // ---------------------------------------------------------------------------------------
  // Braces.

  /** Where handle_braces is between two atoms. */
  datatype Choice = Choice(mustBeLast: bool, disjunct: bool, matched: bool, starred: bool, nWay: bool,
                           nWayMatched: bool)
  {
    /** What is kept from one clause of an n-way choice to the next. */
    function Next(): Choice {
      this.(nWay := true, nWayMatched := nWayMatched || matched, matched := false, starred := true)
    }
  }

  const FIRST := Choice(false, false, false, true, false, false)

  datatype BodyRead = Body(text: string, rest: string, subst: bool) | NoEnd

  /** The text up to the brace or semicolon that ends it, past nested braces. */
  function FindEnd(p: string, level: nat): (r: BodyRead)
    requires level > 0
    ensures r.Body? ==> p == r.text + r.rest && r.rest != "" && r.rest[0] in "};"
  {
    if p == "" || p[0] == '\0' then NoEnd
    else if (p[0] == '}' || p[0] == ';') && level == 1 then Body("", p, false)
    else
      var inner := if p[0] == '{' then level + 1 else if p[0] == '}' then level - 1 else level;
      match FindEnd(p[1..], inner)
      case NoEnd => NoEnd
      case Body(text, rest, subst) =>
        Body([p[0]] + text, rest, subst || (p[0] == '%' && |p| >= 2 && p[1] == '*' && level == 1))
  }

  function Trimmed(s: string): (r: string)
    ensures |r| <= |s|
  {
    if s != "" && White(s[|s| - 1]) then Trimmed(s[..|s| - 1]) else s
  }

  /** The atom just read, before `|` or `:`. None if it is not allowed there. */
  ghost function Tested(env: Env, t: Test, delimiter: char, ch: Choice): Option<Choice>
    requires Decided(t)
  {
    if t.name == "" then
      if !ch.nWay || ch.matched || delimiter == '|' || t.negated || t.kind != Plain || t.starred then None
      else Some(ch.(disjunct := true, mustBeLast := true, matched := !ch.nWayMatched, starred := false))
    else if t.kind != Plain && t.starred then None
    else
      Some(ch.(disjunct := true,
               starred := ch.starred && t.starred,
               matched := ch.matched || (!ch.nWayMatched && Holds(env, t) != t.negated)))
  }

  ghost function Braces(env: Env, p: string, ch: Choice, st: State): (r: BraceOutcome)
    ensures r.Closed? ==> |r.rest| < |p|
    decreases |p|
  {
    if ch.mustBeLast then Failed(Fatal) else
      match ReadAtom(p)
      case SpecFunction => Failed(Unmodelled)
      case Atom(t, next) =>
        if Head(next) == '&' || Head(next) == '}' then
          if ch.disjunct || ch.nWay || t.negated || t.kind != Plain || t.name == "" then Failed(Fatal)
          else Failed(Unmodelled)
        else if Head(next) != '|' && Head(next) != ':' then Failed(Fatal)
        else if !Decided(t) then Failed(Unmodelled)
        else
          match Tested(env, t, next[0], ch)
          case None => Failed(Fatal)
          case Some(after) =>
            if next[0] == '|' then Braces(env, next[1..], after, st) else BraceBody(env, next[1..], after, st)
  }

  ghost function BraceBody(env: Env, p: string, ch: Choice, st: State): (r: BraceOutcome)
    ensures r.Closed? ==> |r.rest| < |p|
    decreases |p|
  {
    match FindEnd(p, 1)
    case NoEnd => Failed(Fatal)
    case Body(text, rest, subst) =>
      if subst && !ch.starred then Failed(Fatal)
      else
        var chosen := ch.matched && !ch.nWayMatched;
        if chosen && subst then Failed(Unmodelled)
        else
          match if chosen then Scan(env, Trimmed(text), st) else Done(st)
          case Done(after) =>
            if rest[0] == ';' then
              Braces(env, rest[1..], ch.Next(), after)
            else Closed(rest[1..], after)
          case why => Failed(why)
  }

  // ---------------------------------------------------------------------------------------
  // Text.

  ghost function Scan(env: Env, p: string, st: State): Outcome
    decreases |p|
  {
    if p == "" || p[0] == '\0' then Done(st)
    else if White(p[0]) then Scan(env, p[1..], EndArg(st))
    else if p[0] == '\n' then Unmodelled
    else if p[0] == '|' then Scan(env, p[1..], Grow('|', EndArg(st)))
    else if p[0] == '%' then
      if |p| == 1 || p[1] == '\0' then Fatal
      else if p[1] == '{' then
        match Braces(env, p[2..], FIRST, st)
        case Failed(why) => why
        case Closed(rest, after) => Scan(env, rest, after)
      else if p[1] == '%' then Scan(env, p[2..], st.(current := st.current + "%"))
      else Unmodelled
    else if p[0] == '\\' then
      if |p| == 1 || p[1] == '\0' then Unmodelled else Scan(env, p[2..], Grow(p[1], st))
    else Scan(env, p[1..], Grow(p[0], st))
  }
}
