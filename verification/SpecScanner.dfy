/** do_spec_1, handle_braces and process_brace_body as they run: a position in the text, and
    variables changed along the way. */
module SpecScanners {
  import opened SwitchLiveness
  import opened SpecScans
  import opened SpecTrees
  import opened SpecArguments
  import opened Wrappers

  datatype Status = Finished | Invalid | OutOfModel

  ghost function Result(status: Status, st: State): Outcome {
    match status
    case Finished => Done(st)
    case Invalid => Fatal
    case OutOfModel => Unmodelled
  }

  ghost function BraceResult(status: Status, rest: string, st: State): BraceOutcome {
    if status == Finished then Closed(rest, st) else Failed(Result(status, st))
  }

  lemma Tail(s: string, p: nat)
    requires p < |s|
    ensures s[p..] != "" && s[p..][0] == s[p] && s[p..][1..] == s[p + 1..]
    ensures p + 1 < |s| ==> |s[p..]| >= 2 && s[p..][1] == s[p + 1] && s[p..][2..] == s[p + 2..]
  {
  }

  // ---------------------------------------------------------------------------------------
  // Atoms.

  method PassWhite(spec: string, p: nat) returns (q: nat)
    requires p <= |spec|
    ensures p <= q <= |spec| && spec[q..] == SkipWhite(spec[p..])
  {
    q := p;
    while q < |spec| && (spec[q] == ' ' || spec[q] == '\t')
      invariant p <= q <= |spec| && SkipWhite(spec[q..]) == SkipWhite(spec[p..])
    {
      Tail(spec, q);
      q := q + 1;
    }
  }

  method PassAtom(spec: string, p: nat) returns (q: nat)
    requires p <= |spec|
    ensures p <= q <= |spec| && q - p == AtomLength(spec[p..])
  {
    q := p;
    while q < |spec| && AtomChar(spec[q])
      invariant p <= q <= |spec| && q - p + AtomLength(spec[q..]) == AtomLength(spec[p..])
    {
      Tail(spec, q);
      q := q + 1;
    }
  }

  method TakeName(spec: string, p: nat, negated: bool, kind: Kind) returns (atom: AtomRead, q: nat)
    requires p <= |spec|
    ensures p <= q <= |spec| && atom == ReadName(spec[p..], negated, kind) && atom.next == spec[q..]
  {
    hide AtomLength, SkipWhite;
    var end := PassAtom(spec, p);
    Slices(spec, p, end);
    q := end;
    var starred := q < |spec| && spec[q] == '*';
    if starred {
      Tail(spec, q);
      q := q + 1;
    }
    q := PassWhite(spec, q);
    atom := Atom(Test(negated, kind, spec[p..end], starred), spec[q..]);
  }

  lemma Slices(s: string, p: nat, q: nat)
    requires p <= q <= |s|
    ensures s[p..][..q - p] == s[p..q] && s[p..][q - p..] == s[q..]
    ensures Head(s[q..]) == if q < |s| then s[q] else '\0'
  {
  }

  method TakeMarked(spec: string, p: nat, negated: bool) returns (atom: AtomRead, q: nat)
    requires p <= |spec|
    ensures p <= q <= |spec| && atom == ReadMarked(spec[p..], negated)
    ensures atom.Atom? ==> atom.next == spec[q..]
  {
    hide ReadName;
    if p < |spec| {
      Tail(spec, p);
    }
    if p + 1 < |spec| && spec[p] == '%' && spec[p + 1] == ':' {
      return SpecFunction, p;
    }
    if p < |spec| && spec[p] == '.' {
      atom, q := TakeName(spec, p + 1, negated, Suffix);
    } else if p < |spec| && spec[p] == ',' {
      atom, q := TakeName(spec, p + 1, negated, SpecType);
    } else {
      atom, q := TakeName(spec, p, negated, Plain);
    }
  }

  method TakeAtom(spec: string, p: nat) returns (atom: AtomRead, q: nat)
    requires p <= |spec|
    ensures p <= q <= |spec| && atom == ReadAtom(spec[p..])
    ensures atom.Atom? ==> atom.next == spec[q..]
  {
    hide ReadMarked, SkipWhite;
    q := PassWhite(spec, p);
    Slices(spec, q, q);
    if q < |spec| && spec[q] == '!' {
      Tail(spec, q);
      q := PassWhite(spec, q + 1);
      atom, q := TakeMarked(spec, q, true);
    } else {
      atom, q := TakeMarked(spec, q, false);
    }
  }

  // ---------------------------------------------------------------------------------------
  // Bodies.

  function Extended(text: string, subst: bool, r: BodyRead): BodyRead {
    match r
    case NoEnd => NoEnd
    case Body(t, rest, s) => Body(text + t, rest, subst || s)
  }

  lemma FindStep(spec: string, start: nat, p: nat, level: nat, subst: bool)
    requires start <= p < |spec| && level > 0 && spec[p] != '\0'
    ensures var inner := if spec[p] == '{' then level + 1 else if spec[p] == '}' then level - 1 else level;
            var marked := spec[p] == '%' && p + 1 < |spec| && spec[p + 1] == '*' && level == 1;
            !((spec[p] == '}' || spec[p] == ';') && level == 1) ==>
              Extended(spec[start..p], subst, FindEnd(spec[p..], level)) ==
              Extended(spec[start..p + 1], subst || marked, FindEnd(spec[p + 1..], inner))
  {
    Tail(spec, p);
    assert spec[start..p + 1] == spec[start..p] + [spec[p]];
    if !((spec[p] == '}' || spec[p] == ';') && level == 1) {
      var inner := if spec[p] == '{' then level + 1 else if spec[p] == '}' then level - 1 else level;
      var r := FindEnd(spec[p + 1..], inner);
      if r.Body? {
        assert spec[start..p] + ([spec[p]] + r.text) == spec[start..p + 1] + r.text;
      }
    }
  }

  lemma FindStop(spec: string, start: nat, p: nat, level: nat, subst: bool)
    requires start <= p <= |spec| && level > 0
    ensures p == |spec| || spec[p] == '\0' ==> Extended(spec[start..p], subst, FindEnd(spec[p..], level)) == NoEnd
    ensures p < |spec| && (spec[p] == '}' || spec[p] == ';') && level == 1 ==>
              Extended(spec[start..p], subst, FindEnd(spec[p..], level)) == Body(spec[start..p], spec[p..], subst)
  {
    if p < |spec| {
      Tail(spec, p);
    }
  }

  lemma FindStart(spec: string, start: nat)
    requires start <= |spec|
    ensures Extended(spec[start..start], false, FindEnd(spec[start..], 1)) == FindEnd(spec[start..], 1)
  {
    var r := FindEnd(spec[start..], 1);
    if r.Body? {
      assert spec[start..start] + r.text == r.text;
    }
  }

  /** The position of the brace or semicolon that ends the body at `start`, and whether the body
      holds %*. */
  method LocateEnd(spec: string, start: nat) returns (found: bool, end: nat, subst: bool)
    requires start <= |spec|
    ensures !found ==> FindEnd(spec[start..], 1) == NoEnd
    ensures found ==> start <= end < |spec| && FindEnd(spec[start..], 1) == Body(spec[start..end], spec[end..], subst)
  {
    hide FindEnd, Extended;
    var p, level := start, 1;
    subst := false;
    FindStart(spec, start);
    while true
      invariant start <= p <= |spec| && level > 0
      invariant Extended(spec[start..p], subst, FindEnd(spec[p..], level)) == FindEnd(spec[start..], 1)
      decreases |spec| - p
    {
      FindStop(spec, start, p, level, subst);
      if p < |spec| && spec[p] != '\0' {
        FindStep(spec, start, p, level, subst);
      }
      if p < |spec| && spec[p] == '{' {
        level := level + 1;
      } else if p < |spec| && spec[p] == '}' {
        if level == 1 {
          return true, p, subst;
        }
        level := level - 1;
      } else if p < |spec| && spec[p] == ';' && level == 1 {
        return true, p, subst;
      } else if p + 1 < |spec| && spec[p] == '%' && spec[p + 1] == '*' && level == 1 {
        subst := true;
      } else if p == |spec| || spec[p] == '\0' {
        return false, p, subst;
      }
      p := p + 1;
    }
  }

  /** Where the body from `start` to `end` ends without its trailing white space. A colon is
      before it. */
  method TrimEnd(spec: string, start: nat, end: nat) returns (e: nat)
    requires 0 < start <= end <= |spec| && spec[start - 1] == ':'
    ensures start <= e <= end && spec[start..e] == Trimmed(spec[start..end])
  {
    e := end;
    while spec[e - 1] == ' ' || spec[e - 1] == '\t'
      invariant start <= e <= end && Trimmed(spec[start..e]) == Trimmed(spec[start..end])
      decreases e
    {
      assert spec[start..e][..e - start - 1] == spec[start..e - 1];
      e := e - 1;
    }
  }

  // ---------------------------------------------------------------------------------------
  // The scanner.

  lemma BracesIs(env: Env, p: string, ch: Choice, st: State)
    ensures var a := ReadAtom(p);
            Braces(env, p, ch, st) ==
            if ch.mustBeLast then Failed(Fatal)
            else if a.SpecFunction? then Failed(Unmodelled)
            else if Head(a.next) == '&' || Head(a.next) == '}' then
              if ch.disjunct || ch.nWay || a.test.negated || a.test.kind != Plain || a.test.name == "" then
                Failed(Fatal)
              else Failed(Unmodelled)
            else if Head(a.next) != '|' && Head(a.next) != ':' then Failed(Fatal)
            else if !Decided(a.test) then Failed(Unmodelled)
            else
              var after := Tested(env, a.test, a.next[0], ch);
              if after == None then Failed(Fatal)
              else if a.next[0] == '|' then Braces(env, a.next[1..], after.value, st)
              else BraceBody(env, a.next[1..], after.value, st)
  {
    hide ReadAtom, Tested, BraceBody, Decided;
  }

  lemma BodyIs(env: Env, p: string, ch: Choice, st: State)
    ensures var b, chosen := FindEnd(p, 1), ch.matched && !ch.nWayMatched;
            BraceBody(env, p, ch, st) ==
            if b == NoEnd || (b.subst && !ch.starred) then Failed(Fatal)
            else if chosen && b.subst then Failed(Unmodelled)
            else
              var done := if chosen then Scan(env, Trimmed(b.text), st) else Done(st);
              if !done.Done? then Failed(done)
              else if b.rest[0] == ';' then
                Braces(env, b.rest[1..], ch.Next(), done.state)
              else Closed(b.rest[1..], done.state)
  {
    hide FindEnd, Trimmed, Scan, Braces;
  }

  lemma ScanIs(env: Env, p: string, st: State)
    ensures Scan(env, p, st) ==
            if p == "" || p[0] == '\0' then Done(st)
            else if White(p[0]) then Scan(env, p[1..], EndArg(st))
            else if p[0] == '\n' then Unmodelled
            else if p[0] == '|' then Scan(env, p[1..], Grow('|', EndArg(st)))
            else if p[0] == '%' then
              if |p| == 1 || p[1] == '\0' then Fatal
              else if p[1] == '{' then
                var braces := Braces(env, p[2..], FIRST, st);
                if braces.Failed? then braces.why else Scan(env, braces.rest, braces.state)
              else if p[1] == '%' then Scan(env, p[2..], st.(current := st.current + "%"))
              else Unmodelled
            else if p[0] == '\\' then
              if |p| == 1 || p[1] == '\0' then Unmodelled else Scan(env, p[2..], Grow(p[1], st))
            else Scan(env, p[1..], Grow(p[0], st))
  {
    hide Braces;
  }

  class SpecScanner {
    var argbuf: seq<string>
    var obstack: string
    var argGoing: bool
    const table: SwitchTable
    const inputSuffix: Option<string>
    const compilerSuffix: Option<string>

    constructor (table: SwitchTable, inputSuffix: Option<string>, compilerSuffix: Option<string>)
      ensures this.table == table && this.inputSuffix == inputSuffix && this.compilerSuffix == compilerSuffix
      ensures Now() == State([], "", false)
    {
      this.table, this.inputSuffix, this.compilerSuffix := table, inputSuffix, compilerSuffix;
      argbuf, obstack, argGoing := [], "", false;
    }

    function Now(): State
      reads this
    {
      State(argbuf, obstack, argGoing)
    }

    /** What the scan asks about. Looking a switch up does not change it. */
    ghost function Asked(): Env
      reads table, table.switches
    {
      Env(Given(table.switches[..]), inputSuffix, compilerSuffix)
    }

    ghost predicate Valid()
      reads table, table.switches
    {
      AllRemembered(table.switches[..])
    }

    method EndGoingArg()
      modifies this
      ensures Now() == EndArg(old(Now()))
    {
      if argGoing {
        argbuf := argbuf + [obstack];
        obstack := "";
        argGoing := false;
      }
    }

    method Grow1(c: char)
      modifies this
      ensures Now() == Grow(c, old(Now()))
    {
      obstack := obstack + [c];
      argGoing := true;
    }

    method AtomMatches(t: Test) returns (matched: bool)
      requires Valid() && t.name != "" && Decided(t)
      modifies table.switches
      ensures Valid() && Asked() == old(Asked())
      ensures matched == Holds(Asked(), t)
    {
      hide AllRemembered, Matches;
      match t.kind
      case Suffix =>
        matched := inputSuffix == Some(t.name);
      case SpecType =>
        matched := compilerSuffix.Some? && compilerSuffix.value != "" && compilerSuffix.value[1..] == t.name;
      case Plain =>
        matched := table.SwitchMatches(t.name, t.starred);
    }

    /** The part of handle_braces between reading an atom and looking at what is behind it. */
    method TestAtom(t: Test, delimiter: char, ch: Choice) returns (ok: bool, after: Choice)
      requires Valid() && Decided(t)
      modifies table.switches
      ensures Valid() && Asked() == old(Asked())
      ensures Tested(Asked(), t, delimiter, ch) == if ok then Some(after) else None
    {
      hide Holds, AllRemembered;
      after := ch.(disjunct := true);
      if t.name == "" {
        if !ch.nWay || ch.matched || delimiter == '|' || t.negated || t.kind != Plain || t.starred {
          return false, after;
        }
        after := after.(mustBeLast := true);
        after := after.(matched := !ch.nWayMatched);
        after := after.(starred := false);
      } else {
        if t.kind != Plain && t.starred {
          return false, after;
        }
        if !t.starred {
          after := after.(starred := false);
        }
        if !ch.matched && !ch.nWayMatched {
          var matched := AtomMatches(t);
          if matched != t.negated {
            after := after.(matched := true);
          }
        }
      }
      return true, after;
    }

    /** Finds the body at `p`, and runs it if it was chosen. Returns where its closing brace or
        semicolon is. */
    method ProcessBraceBody(spec: string, p: nat, starred: bool, chosen: bool) returns (status: Status, q: nat)
      requires Valid() && 0 < p <= |spec| && spec[p - 1] == ':'
      modifies this, table.switches
      ensures Valid() && Asked() == old(Asked())
      ensures status == Finished ==> p <= q < |spec| && spec[q] in "};"
      ensures match FindEnd(spec[p..], 1)
              case NoEnd => status == Invalid
              case Body(text, rest, subst) =>
                if subst && !starred then status == Invalid
                else if chosen && subst then status == OutOfModel
                else if chosen then
                  Result(status, Now()) == Scan(Asked(), Trimmed(text), old(Now()))
                  && (status == Finished ==> spec[q..] == rest)
                else status == Finished && Now() == old(Now()) && spec[q..] == rest
      decreases |spec|, 1, 0
    {
      hide FindEnd, Trimmed, Scan, AllRemembered;
      var found, end, subst := LocateEnd(spec, p);
      if !found {
        return Invalid, p;
      }
      var e := TrimEnd(spec, p, end);
      if subst && !starred {
        return Invalid, p;
      }
      if chosen {
        if subst {
          return OutOfModel, p;
        }
        status := DoSpec1(spec[p..e]);
        if status != Finished {
          return status, p;
        }
      }
      return Finished, end;
    }

    /** `p` is just inside the opening brace; `q` is one past the closing one. */
    method HandleBraces(spec: string, p: nat) returns (status: Status, q: nat)
      requires Valid() && p <= |spec|
      modifies this, table.switches
      ensures Valid() && Asked() == old(Asked())
      ensures status == Finished ==> p < q <= |spec|
      ensures BraceResult(status, if status == Finished then spec[q..] else "", Now())
              == Braces(Asked(), spec[p..], FIRST, old(Now()))
      decreases |spec|, 2
    {
      hide Braces, BraceBody, AllRemembered, ReadAtom, Scan, Tested, FindEnd;
      var ch := FIRST;
      ghost var env, start := Asked(), Now();
      q := p;
      while true
        invariant Valid() && Asked() == env && p <= q <= |spec|
        invariant Braces(env, spec[q..], ch, Now()) == Braces(env, spec[p..], FIRST, start)
        decreases |spec| - q
      {
        ghost var at, before := q, Now();
        if ch.mustBeLast {
          BracesIs(env, spec[at..], ch, before);
          return Invalid, q;
        }
        var atom;
        atom, q := TakeAtom(spec, q);
        Slices(spec, q, q);
        BracesIs(env, spec[at..], ch, before);
        if atom.SpecFunction? {
          return OutOfModel, q;
        }
        if q < |spec| && (spec[q] == '&' || spec[q] == '}') {
          var t := atom.test;
          if ch.disjunct || ch.nWay || t.negated || t.kind != Plain || t.name == "" {
            return Invalid, q;
          }
          return OutOfModel, q;
        }
        if q == |spec| || (spec[q] != '|' && spec[q] != ':') {
          return Invalid, q;
        }
        if !Decided(atom.test) {
          return OutOfModel, q;
        }
        Tail(spec, q);
        var ok, after := TestAtom(atom.test, spec[q], ch);
        if !ok {
          return Invalid, q;
        }
        ch := after;
        if spec[q] == ':' {
          var closed;
          status, q, closed, ch := AfterColon(spec, q + 1, ch);
          if status != Finished || closed {
            return status, q;
          }
        } else {
          q := q + 1;
        }
      }
    }

    /** The rest of handle_braces's loop once a disjunction has been read: the body, and what is
        forgotten before the next choice. */
    method AfterColon(spec: string, p: nat, ch: Choice) returns (status: Status, q: nat, closed: bool, after: Choice)
      requires Valid() && 0 < p <= |spec| && spec[p - 1] == ':'
      modifies this, table.switches
      ensures Valid() && Asked() == old(Asked())
      ensures status == Finished ==> p < q <= |spec|
      ensures BraceBody(Asked(), spec[p..], ch, old(Now())) ==
              if status != Finished then Failed(Result(status, Now()))
              else if closed then Closed(spec[q..], Now())
              else Braces(Asked(), spec[q..], after, Now())
      decreases |spec|, 1, 1
    {
      hide Braces, BraceBody, AllRemembered, Scan, FindEnd;
      BodyIs(Asked(), spec[p..], ch, Now());
      closed, after := false, ch;
      status, q := ProcessBraceBody(spec, p, ch.starred, ch.matched && !ch.nWayMatched);
      if status == Finished {
        Tail(spec, q);
        if spec[q] == '}' {
          closed := true;
        } else {
          after := ch.Next();
        }
        q := q + 1;
      }
    }

    /** do_spec_2: the arguments of a whole spec. For the printed text of a tree they are the words of
        its chosen text, if nothing is left over from before. */
    method DoSpec2(spec: string, ghost tree: Spec) returns (status: Status)
      requires Valid()
      modifies this, table.switches
      ensures Valid() && Asked() == old(Asked()) && !argGoing
      ensures var r := Scan(Asked(), spec, State([], old(obstack), false));
              if r.Done? then status == Finished && argbuf == Arguments(r.state) else status != Finished
      ensures Proper(tree) && spec == Print(tree) && old(obstack) == "" ==>
                status == Finished && obstack == "" && AreWords(Chosen(Asked(), tree), argbuf)
    {
      hide Scan, AllRemembered, Proper, Print, Chosen, AreWords;
      argbuf := [];
      argGoing := false;
      status := DoSpec1(spec);
      if Proper(tree) && spec == Print(tree) && old(obstack) == "" {
        ghost var st := SpecWords(Asked(), tree);
      }
      EndGoingArg();
    }

    /** Reads `spec`, adding to the arguments. */
    method DoSpec1(spec: string) returns (status: Status)
      requires Valid()
      modifies this, table.switches
      ensures Valid() && Asked() == old(Asked())
      ensures Result(status, Now()) == Scan(Asked(), spec, old(Now()))
      decreases |spec|, 3
    {
      var p := 0;
      ghost var env, start := Asked(), Now();
      assert spec[0..] == spec;
      hide Scan, Braces, AllRemembered;
      while p < |spec| && spec[p] != '\0'
        invariant Valid() && Asked() == env && p <= |spec|
        invariant Scan(env, spec[p..], Now()) == Scan(env, spec, start)
        decreases |spec| - p
      {
        Tail(spec, p);
        ScanIs(env, spec[p..], Now());
        var c := spec[p];
        p := p + 1;
        if c == '\n' {
          return OutOfModel;
        } else if c == '|' {
          EndGoingArg();
          Grow1('|');
        } else if c == '\t' || c == ' ' {
          EndGoingArg();
        } else if c == '%' {
          if p == |spec| || spec[p] == '\0' {
            return Invalid;
          }
          c := spec[p];
          p := p + 1;
          if c == '{' {
            status, p := HandleBraces(spec, p);
            if status != Finished {
              return status;
            }
          } else if c == '%' {
            obstack := obstack + "%";
          } else {
            return OutOfModel;
          }
        } else if c == '\\' {
          if p == |spec| || spec[p] == '\0' {
            return OutOfModel;
          }
          Grow1(spec[p]);
          p := p + 1;
        } else {
          Grow1(c);
        }
      }
      ScanIs(env, spec[p..], Now());
      if p < |spec| {
        Tail(spec, p);
      }
      return Finished;
    }
  }
}
