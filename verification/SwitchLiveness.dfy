/** Which command-line switches of the GCC driver are still in force: check_live_switch with its
    memory, and switch_matches. */
module SwitchLiveness {
  import opened Wrappers

  /** The bits of live_cond. */
  datatype Flag = Live | False | Ignore | IgnorePermanently | KeepForGcc

  /** A switch as it was given: -part1, and separate arguments. */
  datatype Switch = Switch(part1: string, args: Option<seq<string>>)

  /** With what the driver notes about it. */
  datatype SwitchStr = SwitchStr(given: Switch, liveCond: set<Flag>, known: bool, validated: bool)

  predicate StartsWith(s: string, prefix: string) {
    |prefix| <= |s| && s[..|prefix|] == prefix
  }

  const NO := "no-"

  predicate HasPolarity(letter: char) {
    letter in "Wfmg"
  }

  /** W, f, m and g are the letters that have a negative form, and no others: -O, -D and -I do not. */
  lemma PolarLetters()
    ensures HasPolarity('W') && HasPolarity('f') && HasPolarity('m') && HasPolarity('g')
    ensures !HasPolarity('O') && !HasPolarity('D') && !HasPolarity('I')
    ensures forall c :: HasPolarity(c) ==> c == 'W' || c == 'f' || c == 'm' || c == 'g'
    ensures Obsoletes("fno-pic", "fpic") && Obsoletes("fpic", "fno-pic") && !Obsoletes("fno-PIC", "fpic")
    ensures Obsoletes("O2", "O") && !Obsoletes("Dno-x", "Dx") && !Obsoletes("mno-pic", "fpic")
  {
    assert "fpic"[1..] == "pic" && "fno-pic"[1..] == "no-pic" && "fno-pic"[4..] == "pic" && "fno-PIC"[1..] == "no-PIC";
    assert "no-pic" == NO + "pic" && "no-PIC" != NO + "pic";
  }

  /** Whether a later switch makes `name` obsolete. */
  predicate Obsoletes(later: string, name: string) {
    if name == "" || later == "" then false
    else if name[0] == 'O' then later[0] == 'O'
    else if HasPolarity(name[0]) then
      later[0] == name[0] &&
      if StartsWith(name[1..], NO) then later[1..] == name[4..] else later[1..] == NO + name[1..]
    else false
  }

  ghost predicate LiveNow(parts: seq<string>, i: nat)
    requires i < |parts|
  {
    forall j :: i < j < |parts| ==> !Obsoletes(parts[j], parts[i])
  }

  // ---------------------------------------------------------------------------------------
  // What liveness means.

  function Positive(letter: char, base: string): string {
    [letter] + base
  }

  function Negative(letter: char, base: string): string {
    [letter] + NO + base
  }

  /** The two polarities obsolete one another, and nothing else does, exactly when the base name
      does not itself begin with no-. */
  lemma PolaritiesOppose(letter: char, base: string)
    requires HasPolarity(letter)
    ensures Obsoletes(Positive(letter, base), Negative(letter, base))
    ensures Obsoletes(Negative(letter, base), Positive(letter, base)) <==> !StartsWith(base, NO)
    ensures forall later :: Obsoletes(later, Negative(letter, base)) <==> later == Positive(letter, base)
    ensures !StartsWith(base, NO) ==>
              forall later :: Obsoletes(later, Positive(letter, base)) <==> later == Negative(letter, base)
  {
    var p, q := Positive(letter, base), Negative(letter, base);
    assert p[1..] == base && q[1..] == NO + base && q[4..] == base;
    assert StartsWith(q[1..], NO);
    forall later
      ensures Obsoletes(later, q) <==> later == p
    {
      if later != "" {
        assert later == [later[0]] + later[1..];
      }
    }
    if !StartsWith(base, NO) {
      forall later
        ensures Obsoletes(later, p) <==> later == q
      {
        if later != "" {
          assert later == [later[0]] + later[1..];
          assert q == [letter] + (NO + base);
        }
      }
    } else {
      assert |p[4..]| < |q[1..]|;
    }
  }

  /** Concretely, for the base name no-x: -fno-x and -fno-no-x are live together. */
  lemma BothLive()
    ensures Positive('f', "no-x") == "fno-x" && Negative('f', "no-x") == "fno-no-x"
    ensures LiveNow(["fno-x", "fno-no-x"], 0) && LiveNow(["fno-x", "fno-no-x"], 1)
  {
    assert "fno-no-x"[1..] == "no-no-x" && "fno-x"[4..] == "x";
  }

  /** Of the switches of one letter and one base name, exactly those after the last one of the
      other polarity are live. */
  lemma FamilyLive(parts: seq<string>, letter: char, base: string, i: nat)
    requires HasPolarity(letter) && !StartsWith(base, NO)
    requires i < |parts| && parts[i] in {Positive(letter, base), Negative(letter, base)}
    ensures LiveNow(parts, i) <==>
            forall j :: i < j < |parts| && parts[j] in {Positive(letter, base), Negative(letter, base)} ==>
              parts[j] == parts[i]
  {
    PolaritiesOppose(letter, base);
    assert Positive(letter, base) != Negative(letter, base) by {
      assert |Negative(letter, base)| > |Positive(letter, base)|;
    }
    hide Obsoletes, Positive, Negative;
  }

  /** So the two polarities are never live together. */
  lemma NeverBoth(parts: seq<string>, letter: char, base: string, i: nat, j: nat)
    requires HasPolarity(letter) && !StartsWith(base, NO)
    requires i < |parts| && parts[i] == Positive(letter, base)
    requires j < |parts| && parts[j] == Negative(letter, base)
    ensures !(LiveNow(parts, i) && LiveNow(parts, j))
  {
    PolaritiesOppose(letter, base);
    assert |Negative(letter, base)| > |Positive(letter, base)|;
    hide Positive, Negative;
    assert Obsoletes(parts[i], parts[j]) && Obsoletes(parts[j], parts[i]);
  }

  /** Only the last -O is live. */
  lemma LastOptimisation(parts: seq<string>, i: nat)
    requires i < |parts| && StartsWith(parts[i], "O")
    ensures LiveNow(parts, i) <==> forall j :: i < j < |parts| ==> !StartsWith(parts[j], "O")
  {
    forall j | i < j < |parts|
      ensures Obsoletes(parts[j], parts[i]) <==> StartsWith(parts[j], "O")
    {
    }
  }

  // ---------------------------------------------------------------------------------------
  // The memory.

  /** What check_live_switch answers. `prefix` is how much of the name a starred spec gave, or
      -1. */
  ghost predicate Verdict(liveCond: set<Flag>, live: bool, prefix: int) {
    if liveCond != {} then Live in liveCond && False !in liveCond && IgnorePermanently !in liveCond
    else 0 <= prefix <= 1 || live
  }

  /** What is remembered of a switch is right, and no %< has been applied to it. */
  ghost predicate Remembered(liveCond: set<Flag>, live: bool) {
    liveCond == {} || liveCond == {if live then Live else False}
  }

  /** An answer from memory is the answer that looking again would give; only for specs of at
      most one letter and a star does it matter whether the switch was looked up before. */
  lemma MemoryAgrees(liveCond: set<Flag>, live: bool, prefix: int)
    requires Remembered(liveCond, live)
    ensures Verdict(liveCond, live, prefix) == Verdict({}, live, prefix) <==>
            (0 <= prefix <= 1 ==> live || liveCond == {})
    ensures !(0 <= prefix <= 1) ==> Verdict(liveCond, live, prefix) == live
  {
    if liveCond == {False} {
      assert False in liveCond;
    }
  }

  // ---------------------------------------------------------------------------------------
  // The table of switches.

  function Parts(given: seq<Switch>): (parts: seq<string>)
    ensures |parts| == |given|
    ensures forall i :: 0 <= i < |given| ==> parts[i] == given[i].part1
  {
    seq(|given|, i requires 0 <= i < |given| => given[i].part1)
  }

  function Given(switches: seq<SwitchStr>): (given: seq<Switch>)
    ensures |given| == |switches|
    ensures forall i :: 0 <= i < |switches| ==> given[i] == switches[i].given
  {
    seq(|switches|, i requires 0 <= i < |switches| => switches[i].given)
  }

  /** The switch is named by the atom. */
  predicate NamedBy(s: Switch, atom: string, starred: bool) {
    StartsWith(s.part1, atom) && (starred || |s.part1| == |atom|)
  }

  /** An atom names the switch that is spelled like it; with a star, all that begin so. */
  lemma NamedIs(s: Switch, atom: string)
    ensures NamedBy(s, atom, false) <==> s.part1 == atom
    ensures NamedBy(s, atom, true) <==> exists rest :: s.part1 == atom + rest
  {
    if StartsWith(s.part1, atom) {
      assert s.part1 == atom + s.part1[|atom|..];
    }
  }

  /** -D and -U may have the name of the macro in a separate argument. */
  predicate SeparatelyNamedBy(s: Switch, atom: string, starred: bool)
    requires atom != ""
  {
    && s.args.Some? && s.args.value != []
    && s.part1 != "" && s.part1[0] in "DU" && s.part1[0] == atom[0]
    && StartsWith(s.args.value[0], atom[1..])
    && (starred || (|s.part1| == 1 && |s.args.value[0]| == |atom| - 1))
  }

  /** Letter and argument, written together, are the atom. */
  lemma SeparatelyNamedIs(s: Switch, atom: string)
    requires atom != ""
    ensures SeparatelyNamedBy(s, atom, false) <==>
            && s.args.Some? && s.args.value != [] && (s.part1 == "D" || s.part1 == "U")
            && s.part1 + s.args.value[0] == atom
    ensures SeparatelyNamedBy(s, atom, true) <==>
            && s.args.Some? && s.args.value != [] && (StartsWith(s.part1, "D") || StartsWith(s.part1, "U"))
            && StartsWith([s.part1[0]] + s.args.value[0], atom)
  {
    if s.args.Some? && s.args.value != [] && s.part1 != "" {
      var both := [s.part1[0]] + s.args.value[0];
      assert atom == [atom[0]] + atom[1..];
      assert both[1..] == s.args.value[0];
      assert StartsWith(both, atom) ==> both[..|atom|][1..] == s.args.value[0][..|atom| - 1];
      assert s.part1[0] == atom[0] && StartsWith(s.args.value[0], atom[1..]) ==> both[..|atom|] == atom;
    }
  }

  ghost predicate Hit(given: seq<Switch>, i: nat, atom: string, starred: bool)
    requires i < |given| && atom != ""
  {
    (NamedBy(given[i], atom, starred) && LiveNow(Parts(given), i)) || SeparatelyNamedBy(given[i], atom, starred)
  }

  /** A live switch matches the atom. */
  ghost predicate Matches(given: seq<Switch>, atom: string, starred: bool)
    requires atom != ""
  {
    exists i :: 0 <= i < |given| && Hit(given, i, atom, starred)
  }

  ghost predicate LiveAt(switches: seq<SwitchStr>, i: nat)
    requires i < |switches|
  {
    LiveNow(Parts(Given(switches)), i)
  }

  ghost predicate AllRemembered(switches: seq<SwitchStr>) {
    forall i :: 0 <= i < |switches| ==> Remembered(switches[i].liveCond, LiveAt(switches, i))
  }

  /** What looking a switch up leaves behind. */
  ghost function LookedUp(s: SwitchStr, live: bool, prefix: int): SwitchStr {
    if s.liveCond != {} || 0 <= prefix <= 1 then s
    else if live then s.(liveCond := {Live})
    else s.(liveCond := {False}, validated := s.validated || s.known || StartsWith(s.given.part1, "O"))
  }

  class SwitchTable {
    var switches: array<SwitchStr>

    constructor (switches: array<SwitchStr>)
      ensures this.switches == switches
    {
      this.switches := switches;
    }

    /** Is a later switch, from `switchnum` on, one that makes it obsolete? */
    method IsObsolete(switchnum: nat) returns (obsolete: bool)
      requires switchnum < switches.Length
      ensures obsolete <==> !LiveAt(switches[..], switchnum)
    {
      var name := switches[switchnum].given.part1;
      if name == "" {
        return false;
      }
      var i := switchnum + 1;
      if name[0] == 'O' {
        while i < switches.Length
          invariant switchnum < i <= switches.Length
          invariant forall j :: switchnum < j < i ==> !Obsoletes(switches[j].given.part1, name)
        {
          if switches[i].given.part1 != "" && switches[i].given.part1[0] == 'O' {
            return true;
          }
          i := i + 1;
        }
      } else if name[0] == 'W' || name[0] == 'f' || name[0] == 'm' || name[0] == 'g' {
        if StartsWith(name[1..], NO) {
          while i < switches.Length
            invariant switchnum < i <= switches.Length
            invariant forall j :: switchnum < j < i ==> !Obsoletes(switches[j].given.part1, name)
          {
            if switches[i].given.part1 != "" && switches[i].given.part1[0] == name[0]
               && switches[i].given.part1[1..] == name[4..] {
              return true;
            }
            i := i + 1;
          }
        } else {
          while i < switches.Length
            invariant switchnum < i <= switches.Length
            invariant forall j :: switchnum < j < i ==> !Obsoletes(switches[j].given.part1, name)
          {
            var later := switches[i].given.part1;
            if |later| >= 4 && later[0] == name[0] && later[1] == 'n' && later[2] == 'o' && later[3] == '-'
               && later[4..] == name[1..] {
              return true;
            }
            i := i + 1;
          }
        }
      }
      return false;
    }

    method CheckLiveSwitch(switchnum: nat, prefix: int) returns (live: bool)
      requires switchnum < switches.Length
      modifies switches
      ensures var was := old(switches[..]);
              && live == Verdict(was[switchnum].liveCond, LiveAt(was, switchnum), prefix)
              && switches[..] == was[switchnum := LookedUp(was[switchnum], LiveAt(was, switchnum), prefix)]
    {
      var s := switches[switchnum];
      if s.liveCond != {} {
        return Live in s.liveCond && False !in s.liveCond && IgnorePermanently !in s.liveCond;
      }
      if prefix >= 0 && prefix <= 1 {
        return true;
      }
      var obsolete := IsObsolete(switchnum);
      hide LiveAt;
      if obsolete {
        if StartsWith(s.given.part1, "O") || s.known {
          s := s.(validated := true);
        }
        switches[switchnum] := s.(liveCond := {False});
        return false;
      }
      assert s.liveCond + {Live} == {Live};
      switches[switchnum] := s.(liveCond := s.liveCond + {Live});
      return true;
    }

    /** Does a live switch match the atom? Leaves the table as it was, but for what it remembers. */
    method SwitchMatches(atom: string, starred: bool) returns (found: bool)
      requires atom != "" && AllRemembered(switches[..])
      modifies switches
      ensures AllRemembered(switches[..]) && Given(switches[..]) == Given(old(switches[..]))
      ensures !starred || |atom| >= 2 ==> found == Matches(Given(old(switches[..])), atom, starred)
    {
      hide *;
      ghost var given := Given(switches[..]);
      var prefix := if starred then |atom| else -1;
      var i := 0;
      while i < switches.Length
        invariant 0 <= i <= switches.Length
        invariant AllRemembered(switches[..]) && Given(switches[..]) == given
        invariant !starred || |atom| >= 2 ==> forall j :: 0 <= j < i ==> !Hit(given, j, atom, starred)
      {
        HitIs(switches[..], i, atom, starred);
        if NamedBy(switches[i].given, atom, starred) {
          LookupKeeps(switches[..], i, prefix);
          var live := CheckLiveSwitch(i, prefix);
          if live {
            FoundOne(given, i, atom, starred);
            return true;
          }
        }
        if SeparatelyNamedBy(switches[i].given, atom, starred) {
          LookupKeeps(switches[..], i, if starred then 1 else -1);
          SeparateIsLive(switches[..], i, atom, starred);
          var live := CheckLiveSwitch(i, if starred then 1 else -1);
          FoundOne(given, i, atom, starred);
          return live;
        }
        i := i + 1;
      }
      FoundNone(given, atom, starred);
      return false;
    }
  }

  lemma HitIs(switches: seq<SwitchStr>, i: nat, atom: string, starred: bool)
    requires i < |switches| && atom != ""
    ensures Hit(Given(switches), i, atom, starred) <==>
            (NamedBy(switches[i].given, atom, starred) && LiveAt(switches, i))
            || SeparatelyNamedBy(switches[i].given, atom, starred)
  {
    hide NamedBy, SeparatelyNamedBy, LiveNow;
  }

  /** Looking a switch up keeps the memory right. */
  lemma LookupKeeps(switches: seq<SwitchStr>, i: nat, prefix: int)
    requires AllRemembered(switches) && i < |switches|
    ensures var live := LiveAt(switches, i);
            var after := switches[i := LookedUp(switches[i], live, prefix)];
            && Given(after) == Given(switches) && AllRemembered(after)
            && (!(0 <= prefix <= 1) ==> Verdict(switches[i].liveCond, live, prefix) == live)
            && (live ==> Verdict(switches[i].liveCond, live, prefix))
  {
    hide LiveNow;
    var live := LiveAt(switches, i);
    var after := switches[i := LookedUp(switches[i], live, prefix)];
    assert Given(after) == Given(switches);
    MemoryAgrees(switches[i].liveCond, live, prefix);
  }

  /** Nothing makes -D or -U obsolete. */
  lemma SeparateIsLive(switches: seq<SwitchStr>, i: nat, atom: string, starred: bool)
    requires i < |switches| && atom != "" && SeparatelyNamedBy(switches[i].given, atom, starred)
    ensures LiveAt(switches, i)
  {
  }

  lemma FoundOne(given: seq<Switch>, i: nat, atom: string, starred: bool)
    requires i < |given| && atom != ""
    ensures Hit(given, i, atom, starred) ==> Matches(given, atom, starred)
  {
  }

  lemma FoundNone(given: seq<Switch>, atom: string, starred: bool)
    requires atom != ""
    ensures (forall j :: 0 <= j < |given| ==> !Hit(given, j, atom, starred)) ==> !Matches(given, atom, starred)
  {
  }

  /** Concretely: -ffoo -fno-foo, the first asked about exactly and then through f*. Asked the other
      way round, it is live for f*. */
  method MemoryMatters() returns (afterwards: bool, atFirst: bool)
    ensures !afterwards && atFirst
  {
    var positive := SwitchStr(Switch("ffoo", None), {}, true, false);
    var negative := SwitchStr(Switch("fno-foo", None), {}, true, false);
    var switches := new SwitchStr[] [positive, negative];
    assert "fno-foo"[1..] == NO + "ffoo"[1..];
    assert "ffoo"[1..] == "foo" && "foo"[0] == 'f' && !StartsWith("foo", NO);
    assert Obsoletes("fno-foo", "ffoo");
    var table := new SwitchTable(switches);
    atFirst := table.CheckLiveSwitch(0, 1);
    assert table.switches[..] == [positive, negative];
    assert Obsoletes(Parts(Given([positive, negative]))[1], Parts(Given([positive, negative]))[0]);
    var exactly := table.CheckLiveSwitch(0, -1);
    assert False in table.switches[0].liveCond;
    afterwards := table.CheckLiveSwitch(0, 1);
  }
}
