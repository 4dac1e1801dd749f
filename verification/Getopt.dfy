/** getopt_internal of win_getopt.h: the scan over the argument vector and the permutation it ends in. */
module Getopt {
  import opened BlockExchange
  import opened Sequences

  // What an element of the vector was found to be: an option (or a cluster of them, or "--"), an argument
  // an option took, or neither.
  datatype Role = Opt | Arg | Operand

  // A C string that starts without '-' is no option; a lone "-" is one only if the option string lists it.
  predicate IsOperand(arg: string, options: string) {
    arg == "" || arg[0] != '-' || (arg == "-" && '-' !in options)
  }

  // The elements whose role is Operand, or those whose role is not, in order.
  function Picked(s: seq<string>, roles: seq<Role>, operands: bool): (r: seq<string>)
    requires |s| == |roles|
    ensures |r| <= |s|
  {
    if s == [] then [] else
      var rest := Picked(s[..|s| - 1], roles[..|s| - 1], operands);
      if roles[|s| - 1].Operand? == operands then rest + [s[|s| - 1]] else rest
  }

  lemma PickedMore(s: seq<string>, roles: seq<Role>, x: string, role: Role)
    requires |s| == |roles|
    ensures Picked(s + [x], roles + [role], true) == (if role.Operand? then Picked(s, roles, true) + [x] else Picked(s, roles, true))
    ensures Picked(s + [x], roles + [role], false) == (if role.Operand? then Picked(s, roles, false) else Picked(s, roles, false) + [x])
  {
    assert (s + [x])[..|s|] == s && (roles + [role])[..|s|] == roles;
  }

  // Nothing is lost: the two parts have all elements between them.
  lemma {:induction false} PickedAll(s: seq<string>, roles: seq<Role>)
    requires |s| == |roles|
    ensures multiset(Picked(s, roles, true)) + multiset(Picked(s, roles, false)) == multiset(s)
    ensures |Picked(s, roles, true)| + |Picked(s, roles, false)| == |s|
  {
    if s != [] {
      hide Picked;
      var n := |s| - 1;
      var before, r, x := s[..n], roles[..n], s[n];
      assert s == before + [x] && roles == r + [roles[n]];
      PickedAll(before, r);
      PickedMore(before, r, x, roles[n]);
      OneMore(Picked(before, r, true), Picked(before, r, false), before, x);
    }
  }

  lemma OneMore(a: seq<string>, b: seq<string>, c: seq<string>, x: string)
    requires multiset(a) + multiset(b) == multiset(c) && |a| + |b| == |c|
    ensures multiset(a + [x]) + multiset(b) == multiset(c + [x]) == multiset(a) + multiset(b + [x])
  {
  }

  // An operand looks like one, an option does not, and an argument follows an option or its argument.
  predicate RoleFits(s: seq<string>, roles: seq<Role>, options: string, i: nat)
    requires i < |s| == |roles|
  {
    match roles[i]
    case Operand => IsOperand(s[i], options)
    case Opt => !IsOperand(s[i], options)
    case Arg => i > 0 && !roles[i - 1].Operand?
  }

  predicate RolesFit(s: seq<string>, roles: seq<Role>, options: string)
    requires |s| == |roles|
  {
    forall i | 0 <= i < |s| :: RoleFits(s, roles, options, i)
  }

  lemma RolesFitMore(s: seq<string>, roles: seq<Role>, options: string, x: string, role: Role)
    requires |s| == |roles| && RolesFit(s, roles, options)
    requires RoleFits(s + [x], roles + [role], options, |s|)
    ensures RolesFit(s + [x], roles + [role], options)
  {
    forall i | 0 <= i < |s| + 1 ensures RoleFits(s + [x], roles + [role], options, i) {
      assert i < |s| ==> RoleFits(s, roles, options, i);
    }
  }

  // The vector part-way: before `first` as given, then options, the operands put off after k options, and
  // what is not looked at yet.
  predicate Layout(argv: seq<string>, orig: seq<string>, first: nat, opts: seq<string>, operands: seq<string>, k: nat) {
    && first <= |orig| && k <= |opts| && first + |opts| + |operands| <= |orig|
    && argv == orig[..first] + opts[..k] + operands + opts[k..] + orig[first + |opts| + |operands|..]
  }

  lemma LayoutStarts(orig: seq<string>, first: nat)
    requires first <= |orig|
    ensures Layout(orig, orig, first, [], [], 0)
  {
  }

  lemma LayoutNext(argv: seq<string>, orig: seq<string>, first: nat, opts: seq<string>, operands: seq<string>, k: nat)
    requires Layout(argv, orig, first, opts, operands, k) && first + |opts| + |operands| < |orig|
    ensures |argv| == |orig|
    ensures var at := first + |opts| + |operands|; argv[at] == orig[at]
  {
  }

  // One more option is passed over.
  lemma LayoutOption(argv: seq<string>, orig: seq<string>, first: nat, opts: seq<string>, operands: seq<string>, k: nat)
    requires Layout(argv, orig, first, opts, operands, k) && first + |opts| + |operands| < |orig|
    ensures Layout(argv, orig, first, opts + [orig[first + |opts| + |operands|]], operands, k)
    ensures operands == [] ==> Layout(argv, orig, first, opts + [orig[first + |opts| + |operands|]], operands, |opts| + 1)
  {
    var at := first + |opts| + |operands|;
    var more := opts + [orig[at]];
    assert more[..k] == opts[..k] && more[k..] == opts[k..] + [orig[at]];
    assert orig[at..] == [orig[at]] + orig[at + 1..];
    if operands == [] {
      assert opts[..k] + opts[k..] == opts && more[..|opts| + 1] == more && more[|opts| + 1..] == [];
    }
  }

  // One more operand is passed over, when no option was since the last.
  lemma LayoutOperand(argv: seq<string>, orig: seq<string>, first: nat, opts: seq<string>, operands: seq<string>)
    requires Layout(argv, orig, first, opts, operands, |opts|) && first + |opts| + |operands| < |orig|
    ensures Layout(argv, orig, first, opts, operands + [orig[first + |opts| + |operands|]], |opts|)
  {
    var at := first + |opts| + |operands|;
    assert orig[at..] == [orig[at]] + orig[at + 1..];
  }

  lemma FiveParts(a: seq<string>, b: seq<string>, c: seq<string>, d: seq<string>, e: seq<string>)
    ensures var s, i := a + b + c + d + e, |a| + |b|;
      && s[..i] == a + b && s[i..i + |c|] == c && s[i + |c|..i + |c| + |d|] == d && s[i + |c| + |d|..] == e
  {
  }

  lemma Regroup(a: seq<string>, b: seq<string>, d: seq<string>, c: seq<string>, e: seq<string>)
    ensures a + b + d + c + e == a + (b + d) + c + [] + e
  {
  }

  // The permutation: all options come first.
  lemma LayoutExchanged(argv: seq<string>, orig: seq<string>, first: nat, opts: seq<string>, operands: seq<string>, k: nat)
    requires Layout(argv, orig, first, opts, operands, k)
    ensures var start, at := first + k, first + |opts| + |operands|;
      && at <= |argv| && Layout(Exchanged(argv, start, start + |operands|, at), orig, first, opts, operands, |opts|)
  {
    var start, at := first + k, first + |opts| + |operands|;
    var end := start + |operands|;
    FiveParts(orig[..first], opts[..k], operands, opts[k..], orig[at..]);
    assert opts[..k] + opts[k..] == opts && opts[..|opts|] == opts && opts[|opts|..] == [];
    Regroup(orig[..first], opts[..k], opts[k..], operands, orig[at..]);
  }

  // The stable partition of the elements looked at: options with their arguments, then operands.
  predicate Partitioned(orig: seq<string>, first: nat, roles: seq<Role>, options: string, now: seq<string>, optind: nat) {
    && first + |roles| <= |orig|
    && var seen := orig[first..first + |roles|];
       && RolesFit(seen, roles, options)
       && now == orig[..first] + Picked(seen, roles, false) + Picked(seen, roles, true) + orig[first + |roles|..]
       && optind == first + |Picked(seen, roles, false)|
  }

  // What becomes of operands: moved to the end, returned one by one, or the end of the scan.
  datatype Mode = Permute | InOrder | StopAtOperand

  // A leading '-' or '+' of the option string, or POSIXLY_CORRECT, chooses.
  function ModeOf(optstring: string, posixlyCorrect: bool): Mode {
    if optstring != "" && optstring[0] == '-' then InOrder
    else if posixlyCorrect || (optstring != "" && optstring[0] == '+') then StopAtOperand
    else Permute
  }

  function OptionsOf(optstring: string): string {
    if optstring != "" && (optstring[0] == '+' || optstring[0] == '-') then optstring[1..] else optstring
  }

  // Where the scan stands once `place` needed a new element.
  datatype Scan = AtOption | AtEnd | AtOperand(arg: string) | AtStop

  // What getopt_internal returns: the three ways it gives -1, a bad letter, a letter without its argument,
  // a letter with its argument if it takes one, what comes of a long option, or an operand in order.
  datatype Argument = NoArgument | Given(value: string)
  datatype Outcome =
    | End | Dash | Stop
    | Bad(letter: char) | Missing(letter: char) | Letter(letter: char, argument: Argument) | LongOption(result: LongResult)
    | InOrderOperand(arg: string)

  // One entry of the table with its argument if it has one, or what is wrong with the name or the argument.
  datatype LongResult =
    | Chosen(index: nat, argument: Argument) | UnknownName | AmbiguousName
    | UnwantedArgument(index: nat) | LacksArgument(index: nat)

  // What the table says of a text: it knows nothing like it, or what it is, perhaps with the next element as argument.
  datatype LongAnswer = NoMatch | Match(takesNext: bool, result: LongResult)

  predicate Stops(r: Outcome) {
    r.End? || r.Dash? || r.Stop?
  }

  // strchr, and the character after a place in a C string.
  function IndexOf(s: string, c: char): (i: nat)
    requires c in s
    ensures i < |s| && s[i] == c && c !in s[..i]
  {
    if s[0] == c then 0 else IndexOf(s[1..], c) + 1
  }

  function CharAt(s: string, i: nat): char {
    if i < |s| then s[i] else '\0'
  }

  // ---------- What the elements say ----------

  // The long options of a call, if it has any: whether they may start with one '-', and what parse_long_options
  // makes of a text, which may be a cluster of letters as well.
  datatype Table = NoTable | Table(longOnly: bool, answer: (string, bool) -> LongAnswer)

  // What a whole scan makes of elements: the roles of those it passes over, what its calls give back before the last,
  // and whether it is cut short, that is, ends with -1 on the last letter of a cluster.
  datatype Reading = Reading(roles: seq<Role>, outcomes: seq<Outcome>, cut: bool)

  function Ahead(roles: seq<Role>, r: Reading): Reading {
    r.(roles := roles + r.roles)
  }

  function Then(o: Outcome, r: Reading): Reading {
    r.(outcomes := [o] + r.outcomes)
  }

  lemma AheadMore(roles: seq<Role>, more: seq<Role>, r: Reading)
    ensures Ahead(roles + more, r) == Ahead(roles, Ahead(more, r))
  {
    Concat(roles, more, r.roles);
  }

  // "--" ends the scan.
  function ReadAll(rest: seq<string>, options: string, table: Table): Reading
    decreases |rest|, 1, 0, 0
  {
    if rest == [] then Reading([], [], false)
    else if IsOperand(rest[0], options) then Ahead([Operand], ReadAll(rest[1..], options, table))
    else if rest[0] == "--" then Reading([Opt], [], false)
    else ReadCluster(if rest[0] == "-" then "-" else rest[0][1..], rest, options, table)
  }

  // From inside the first element, with its letters from `place` on to come.
  function ReadCluster(place: string, rest: seq<string>, options: string, table: Table): Reading
    requires rest != []
    decreases |rest|, 0, |place|, 1
  {
    if place == "" then Ahead([Opt], ReadAll(rest[1..], options, table))
    else if IsLong(place, rest[0], options, table)
    then
      var takesNext := NextTaken(table.answer(LongText(place), ShortToo(place, options)));
      Then(OptionOutcome(place, rest, options, table), ReadBehind(PassRoles(rest, takesNext), rest, options, table))
    else ReadLetter(place, rest, options, table)
  }

  // With some elements passed over.
  function ReadBehind(roles: seq<Role>, rest: seq<string>, options: string, table: Table): Reading
    requires 0 < |roles| <= |rest|
    decreases |rest|, 0, 0, 0
  {
    Ahead(roles, ReadAll(rest[|roles|..], options, table))
  }

  // One letter: the end of a cut-short scan, no option, -W, or an option with an argument or without.
  function ReadLetter(place: string, rest: seq<string>, options: string, table: Table): Reading
    requires rest != [] && place != ""
    decreases |rest|, 0, |place|, 0
  {
    var c := place[0];
    if place == "-" && '-' !in options then Reading([], [], true)
    else
      var i := if c in options then IndexOf(options, c) else 0;
      Then(LetterOutcome(place, rest, options, table),
        if !IsLetter(place, options) then ReadCluster(place[1..], rest, options, table)
        else if table.Table? && c == 'W' && CharAt(options, i + 1) == ';'
        then ReadBehind(LongWRoles(place[1..], rest, table), rest, options, table)
        else if CharAt(options, i + 1) != ':' then ReadCluster(place[1..], rest, options, table)
        else ReadBehind(PassRoles(rest, place[1..] == "" && CharAt(options, i + 2) != ':'), rest, options, table))
  }

  // The option string lists it, and it may stand in a cluster.
  predicate IsLetter(place: string, options: string)
    requires place != ""
  {
    place[0] != ':' && (place[0] != '-' || place == "-") && place[0] in options
  }

  // What is handed to parse_long_options, and whether it could be letters as well.
  function LongText(place: string): string {
    if place != "" && place[0] == '-' then place[1..] else place
  }

  predicate ShortToo(place: string, options: string) {
    place != "" && place[0] != '-' && place[0] != ':' && place[0] in options
  }

  // What is left of the element is taken for a long option, known or not.
  predicate IsLong(place: string, arg: string, options: string, table: Table)
    requires place != ""
  {
    && table.Table? && arg != "-" && (place[0] == '-' || table.longOnly)
    && (!ShortToo(place, options) || table.answer(LongText(place), true).Match?)
  }

  predicate NextTaken(a: LongAnswer) {
    a.Match? && a.takesNext
  }

  // What parse_long_options gives back, with these elements behind the text.
  function LongOutcome(a: LongAnswer, behind: seq<string>): Outcome {
    match a
    case NoMatch => LongOption(UnknownName)
    case Match(takesNext, result) =>
      if !(takesNext && result.Chosen?) then LongOption(result)
      else LongOption(if behind == [] then LacksArgument(result.index) else Chosen(result.index, Given(behind[0])))
  }

  // -W: the text is the rest of the cluster or the next element.
  function LongWOutcome(attached: string, rest: seq<string>, table: Table): Outcome
    requires rest != [] && table.Table?
  {
    if attached != "" then LongOutcome(table.answer(attached, false), rest[1..])
    else if |rest| < 2 then Missing('W')
    else LongOutcome(table.answer(rest[1], false), rest[2..])
  }

  // The option, and the next element if that is its argument.
  function PassRoles(rest: seq<string>, takesNext: bool): (roles: seq<Role>)
    requires rest != []
    ensures 0 < |roles| <= |rest|
  {
    if takesNext && |rest| > 1 then [Opt, Arg] else [Opt]
  }

  // -W: its argument is the rest of the cluster or the next element, and may take one element more.
  function LongWRoles(attached: string, rest: seq<string>, table: Table): (roles: seq<Role>)
    requires rest != [] && table.Table?
    ensures 0 < |roles| <= |rest|
  {
    if attached != "" then PassRoles(rest, NextTaken(table.answer(attached, false)))
    else if |rest| > 2 && NextTaken(table.answer(rest[1], false)) then [Opt, Arg, Arg]
    else PassRoles(rest, true)
  }

  lemma ReadListed(place: string, rest: seq<string>, options: string, table: Table)
    requires rest != [] && place != "" && IsLetter(place, options)
    ensures var i, more := IndexOf(options, place[0]), place[1..];
      ReadLetter(place, rest, options, table) ==
        Then(LetterOutcome(place, rest, options, table),
          if table.Table? && place[0] == 'W' && CharAt(options, i + 1) == ';'
          then ReadBehind(LongWRoles(more, rest, table), rest, options, table)
          else if CharAt(options, i + 1) != ':' then ReadCluster(more, rest, options, table)
          else ReadBehind(PassRoles(rest, more == "" && CharAt(options, i + 2) != ':'), rest, options, table))
  {
    hide ReadCluster, ReadBehind, LongWRoles, PassRoles, IndexOf, CharAt, LetterOutcome;
  }

  lemma OutcomeListed(place: string, rest: seq<string>, options: string, table: Table)
    requires rest != [] && place != "" && IsLetter(place, options)
    ensures var c := place[0]; var i := IndexOf(options, c);
      LetterOutcome(place, rest, options, table) ==
        if table.Table? && c == 'W' && CharAt(options, i + 1) == ';'
        then LongWOutcome(place[1..], rest, table)
        else if CharAt(options, i + 1) != ':' then Letter(c, NoArgument)
        else ArgumentOutcome(c, place[1..], rest, CharAt(options, i + 2) == ':')
  {
    hide IndexOf, CharAt, ArgumentOutcome, LongWOutcome;
  }

  lemma ReadAllStep(rest: seq<string>, options: string, table: Table)
    ensures rest == [] ==> ReadAll(rest, options, table) == Reading([], [], false)
    ensures rest != [] && IsOperand(rest[0], options) ==>
      ReadAll(rest, options, table) == Ahead([Operand], ReadAll(rest[1..], options, table))
    ensures rest != [] && rest[0] == "--" ==> ReadAll(rest, options, table) == Reading([Opt], [], false)
    ensures rest != [] && !IsOperand(rest[0], options) && rest[0] != "--" ==>
      ReadAll(rest, options, table) == ReadCluster(if rest[0] == "-" then "-" else rest[0][1..], rest, options, table)
  {
    hide ReadCluster;
  }

  // What one call gives back for a letter.
  function LetterOutcome(place: string, rest: seq<string>, options: string, table: Table): Outcome
    requires rest != [] && place != ""
  {
    var c := place[0];
    if place == "-" && '-' !in options then Dash
    else if !IsLetter(place, options) then Bad(c)
    else
      var i := IndexOf(options, c);
      if table.Table? && c == 'W' && CharAt(options, i + 1) == ';'
      then LongWOutcome(place[1..], rest, table)
      else if CharAt(options, i + 1) != ':' then Letter(c, NoArgument)
      else ArgumentOutcome(c, place[1..], rest, CharAt(options, i + 2) == ':')
  }

  function ArgumentOutcome(c: char, attached: string, rest: seq<string>, optional: bool): Outcome {
    if attached != "" then Letter(c, Given(attached))
    else if optional then Letter(c, NoArgument)
    else if |rest| > 1 then Letter(c, Given(rest[1])) else Missing(c)
  }

  function OptionOutcome(place: string, rest: seq<string>, options: string, table: Table): Outcome
    requires rest != [] && place != ""
  {
    if IsLong(place, rest[0], options, table)
    then LongOutcome(table.answer(LongText(place), ShortToo(place, options)), rest[1..])
    else LetterOutcome(place, rest, options, table)
  }

  // And what it gives back for elements that are not looked at yet.
  function OutcomeOf(rest: seq<string>, options: string, mode: Mode, table: Table): Outcome {
    if rest == [] then End
    else if IsOperand(rest[0], options) then
      match mode
      case Permute => OutcomeOf(rest[1..], options, mode, table)
      case InOrder => InOrderOperand(rest[0])
      case StopAtOperand => Stop
    else if rest[0] == "--" then End
    else OptionOutcome(if rest[0] == "-" then "-" else rest[0][1..], rest, options, table)
  }

  lemma OutcomeStep(rest: seq<string>, options: string, mode: Mode, table: Table)
    ensures rest == [] || rest[0] == "--" ==> OutcomeOf(rest, options, mode, table) == End
    ensures rest != [] && IsOperand(rest[0], options) ==>
      OutcomeOf(rest, options, mode, table) == match mode
        case Permute => OutcomeOf(rest[1..], options, mode, table) case InOrder => InOrderOperand(rest[0]) case StopAtOperand => Stop
    ensures rest != [] && !IsOperand(rest[0], options) && rest[0] != "--" ==>
      OutcomeOf(rest, options, mode, table) == OptionOutcome(if rest[0] == "-" then "-" else rest[0][1..], rest, options, table)
  {
    hide OptionOutcome;
  }

  // The scan ends behind the last element, or behind the first "--" that it takes for an option.
  predicate Complete(s: seq<string>, roles: seq<Role>) {
    |roles| == |s| || (0 < |roles| <= |s| && roles[|roles| - 1] == Opt && s[|roles| - 1] == "--")
  }

  lemma CompleteMore(s: seq<string>, roles: seq<Role>, more: seq<Role>)
    requires |roles| <= |s| && Complete(s[|roles|..], more)
    ensures Complete(s, roles + more)
  {
    if more != [] && |more| <= |s| - |roles| {
      assert (roles + more)[|roles + more| - 1] == more[|more| - 1];
    }
  }

  // A scan that is not cut short looks at everything.
  lemma {:induction false} ReadsComplete(rest: seq<string>, options: string, table: Table)
    ensures var r := ReadAll(rest, options, table); if r.cut then |r.roles| < |rest| else Complete(rest, r.roles)
    decreases |rest|, 1, 0, 0
  {
    hide ReadCluster, Complete;
    ReadAllStep(rest, options, table);
    AllOrUpTo(rest);
    if rest != [] && IsOperand(rest[0], options) {
      ReadsComplete(rest[1..], options, table);
      if !ReadAll(rest[1..], options, table).cut {
        CompleteMore(rest, [Operand], ReadAll(rest[1..], options, table).roles);
      }
    } else if rest != [] && rest[0] != "--" {
      ClusterComplete(if rest[0] == "-" then "-" else rest[0][1..], rest, options, table);
    }
  }

  lemma AllOrUpTo(s: seq<string>)
    ensures s == [] ==> Complete(s, [])
    ensures s != [] && s[0] == "--" ==> Complete(s, [Opt])
  {
  }

  lemma {:induction false} ClusterComplete(place: string, rest: seq<string>, options: string, table: Table)
    requires rest != []
    ensures var r := ReadCluster(place, rest, options, table); if r.cut then |r.roles| < |rest| else Complete(rest, r.roles)
    decreases |rest|, 0, |place|, 1
  {
    hide ReadAll, ReadLetter, Complete, ShortToo, LongText;
    if place == "" {
      BehindComplete([Opt], rest, options, table);
    } else if IsLong(place, rest[0], options, table) {
      BehindComplete(PassRoles(rest, NextTaken(table.answer(LongText(place), ShortToo(place, options)))), rest, options, table);
    } else {
      LetterComplete(place, rest, options, table);
    }
  }

  lemma {:induction false} LetterComplete(place: string, rest: seq<string>, options: string, table: Table)
    requires rest != [] && place != ""
    ensures var r := ReadLetter(place, rest, options, table); if r.cut then |r.roles| < |rest| else Complete(rest, r.roles)
    decreases |rest|, 0, |place|, 0
  {
    hide ReadAll, ReadCluster, ReadBehind, Complete, IndexOf;
    if !(place == "-" && '-' !in options) {
      if !IsLetter(place, options) {
        ClusterComplete(place[1..], rest, options, table);
      } else {
        var i := IndexOf(options, place[0]);
        if table.Table? && place[0] == 'W' && CharAt(options, i + 1) == ';' {
          BehindComplete(LongWRoles(place[1..], rest, table), rest, options, table);
        } else if CharAt(options, i + 1) != ':' {
          ClusterComplete(place[1..], rest, options, table);
        } else {
          BehindComplete(PassRoles(rest, place[1..] == "" && CharAt(options, i + 2) != ':'), rest, options, table);
        }
      }
    }
  }

  lemma {:induction false} BehindComplete(roles: seq<Role>, rest: seq<string>, options: string, table: Table)
    requires 0 < |roles| <= |rest|
    ensures var r := ReadBehind(roles, rest, options, table); if r.cut then |r.roles| < |rest| else Complete(rest, r.roles)
    decreases |rest|, 0, 0, 0
  {
    hide ReadAll, Complete;
    ReadsComplete(rest[|roles|..], options, table);
    if !ReadAll(rest[|roles|..], options, table).cut {
      CompleteMore(rest, roles, ReadAll(rest[|roles|..], options, table).roles);
    }
  }

  // ---------- When a scan is cut short ----------

  predicate CutShort(rest: seq<string>, options: string, table: Table) {
    ReadAll(rest, options, table).cut
  }

  // An element that starts with '-', ends with another one and has letters in between.
  predicate EndsInDash(arg: string) {
    |arg| >= 3 && arg[0] == '-' && arg[|arg| - 1] == '-'
  }

  // A cut-short scan has no long options and an option string without '-', and meets an element of that form.
  lemma {:induction false} CutShortNeeds(rest: seq<string>, options: string, table: Table)
    requires CutShort(rest, options, table)
    ensures table.NoTable? && '-' !in options && exists i | 0 <= i < |rest| :: EndsInDash(rest[i])
    decreases |rest|, 1, 0, 0
  {
    hide ReadCluster;
    ReadAllStep(rest, options, table);
    if IsOperand(rest[0], options) {
      CutShortNeeds(rest[1..], options, table);
      Later(rest, 1);
    } else {
      var place := if rest[0] == "-" then "-" else rest[0][1..];
      ClusterNeeds(place, rest, options, table);
      if place[|place| - 1] == '-' && !(exists i | 0 <= i < |rest[1..]| :: EndsInDash(rest[1..][i])) {
        assert EndsInDash(rest[0]);
      } else {
        Later(rest, 1);
      }
    }
  }

  lemma Later(rest: seq<string>, k: nat)
    requires k <= |rest|
    ensures (exists i | 0 <= i < |rest[k..]| :: EndsInDash(rest[k..][i])) ==> exists i | 0 <= i < |rest| :: EndsInDash(rest[i])
    ensures 0 < k && (exists i | 0 <= i < |rest[k..]| :: EndsInDash(rest[k..][i])) ==> exists i | 0 <= i < |rest[1..]| :: EndsInDash(rest[1..][i])
  {
    if i :| 0 <= i < |rest[k..]| && EndsInDash(rest[k..][i]) {
      assert rest[k..][i] == rest[k + i];
      assert EndsInDash(rest[k + i]);
      if 0 < k {
        assert rest[1..][k - 1 + i] == rest[k + i];
        assert EndsInDash(rest[1..][k - 1 + i]);
      }
    }
  }

  lemma {:induction false} ClusterNeeds(place: string, rest: seq<string>, options: string, table: Table)
    requires rest != [] && ReadCluster(place, rest, options, table).cut
    requires !IsOperand(rest[0], options) && (rest[0] == "-" ==> place == "-" || place == "")
    ensures table.NoTable? && '-' !in options
    ensures (place != "" && place[|place| - 1] == '-') || exists i | 0 <= i < |rest[1..]| :: EndsInDash(rest[1..][i])
    decreases |rest|, 0, |place|, 1
  {
    hide ReadAll, ReadLetter, ShortToo, LongText;
    if place == "" {
      BehindNeeds([Opt], rest, options, table);
    } else if IsLong(place, rest[0], options, table) {
      BehindNeeds(PassRoles(rest, NextTaken(table.answer(LongText(place), ShortToo(place, options)))), rest, options, table);
    } else {
      LetterNeeds(place, rest, options, table);
    }
  }

  lemma {:induction false} LetterNeeds(place: string, rest: seq<string>, options: string, table: Table)
    requires rest != [] && place != "" && ReadLetter(place, rest, options, table).cut && !IsLong(place, rest[0], options, table)
    requires !IsOperand(rest[0], options) && (rest[0] == "-" ==> place == "-")
    ensures table.NoTable? && '-' !in options
    ensures place[|place| - 1] == '-' || exists i | 0 <= i < |rest[1..]| :: EndsInDash(rest[1..][i])
    decreases |rest|, 0, |place|, 0
  {
    hide ReadAll, ReadCluster, ReadBehind, IndexOf;
    if !(place == "-" && '-' !in options) {
      if !IsLetter(place, options) {
        ClusterNeeds(place[1..], rest, options, table);
      } else {
        var i := IndexOf(options, place[0]);
        if table.Table? && place[0] == 'W' && CharAt(options, i + 1) == ';' {
          BehindNeeds(LongWRoles(place[1..], rest, table), rest, options, table);
        } else if CharAt(options, i + 1) != ':' {
          ClusterNeeds(place[1..], rest, options, table);
        } else {
          BehindNeeds(PassRoles(rest, place[1..] == "" && CharAt(options, i + 2) != ':'), rest, options, table);
        }
      }
    }
  }

  lemma {:induction false} BehindNeeds(roles: seq<Role>, rest: seq<string>, options: string, table: Table)
    requires 0 < |roles| <= |rest| && ReadBehind(roles, rest, options, table).cut
    ensures table.NoTable? && '-' !in options && exists i | 0 <= i < |rest[1..]| :: EndsInDash(rest[1..][i])
    decreases |rest|, 0, 0, 0
  {
    CutShortNeeds(rest[|roles|..], options, table);
    Later(rest, |roles|);
  }

  const CUT_ARGS: seq<string> := ["p", "x", "-a-"]

  // With the option 'a' alone, the vector "p", "x", "-a-" is cut short.
  lemma CutShortWitness()
    ensures CutShort(CUT_ARGS[1..], "a", NoTable)
  {
    var place := "-a-"[1..];
    assert CUT_ARGS[1..] == ["x", "-a-"] && ["x", "-a-"][1..] == ["-a-"];
    assert place == ['a', '-'] && place[1..] == "-";
    assert ReadLetter("-", ["-a-"], "a", NoTable).cut;
    assert ReadCluster("-", ["-a-"], "a", NoTable).cut;
    assert ReadLetter(place, ["-a-"], "a", NoTable).cut;
    assert ReadCluster(place, ["-a-"], "a", NoTable).cut;
    assert ReadAll(["-a-"], "a", NoTable).cut;
  }

  // In that vector the operand stands before the option, whatever part of it counts as looked at.
  lemma NotPartitioned(seen: seq<Role>)
    ensures !Partitioned(CUT_ARGS, 1, seen, "a", CUT_ARGS, 2)
  {
    if Partitioned(CUT_ARGS, 1, seen, "a", CUT_ARGS, 2) {
      var s := CUT_ARGS[1..1 + |seen|];
      assert seen != [] ==> RoleFits(s, seen, "a", 0);
      PickedBehind(s, seen);
    }
  }

  // At most one of two elements is an option if the first is an operand, and then it is the second.
  lemma PickedBehind(s: seq<string>, roles: seq<Role>)
    requires |s| == |roles| <= 2 && (s != [] ==> roles[0].Operand?)
    ensures Picked(s, roles, false) == if |s| == 2 && !roles[1].Operand? then [s[1]] else []
  {
    assert s != [] ==> s[..1] == [s[0]] && s[..1][..0] == [] && roles[..1] == [Operand] && roles[..1][..0] == [];
  }

  // The scan over one argument vector, between two resets; the static variables of the source are fields.
  class ArgScanner {
    const options: string
    const mode: Mode
    const argv: array<string>
    var optind: nat
    var nonoptStart: int
    var nonoptEnd: int
    var place: string
    // The vector when the scan began at `first`, and the roles of the elements passed over since.
    ghost var orig: seq<string>
    ghost var first: nat
    ghost var roles: seq<Role>

    ghost predicate Sized()
      reads this, argv
    {
      |orig| == argv.Length && first + |roles| == optind <= argv.Length
    }

    ghost function Seen(): (s: seq<string>)
      requires Sized()
      reads this, argv
      ensures |s| == |roles|
    {
      orig[first..optind]
    }

    ghost function Opts(): seq<string>
      requires Sized()
      reads this, argv
    {
      Picked(Seen(), roles, false)
    }

    ghost function Operands(): seq<string>
      requires Sized()
      reads this, argv
    {
      Picked(Seen(), roles, true)
    }

    // How many options stand before the operands.
    ghost function Before(): int
      requires Sized()
      reads this, argv
    {
      if nonoptEnd == -1 then |Opts()| else nonoptStart - first
    }

    // The two indices frame the operands put off, and -1 stands for none.
    ghost predicate Bookkeeping()
      requires Sized()
      reads this, argv
    {
      && (nonoptStart == -1 <==> Operands() == [])
      && (nonoptStart == -1 ==> nonoptEnd == -1)
      && (nonoptStart != -1 ==> mode == Permute && first <= nonoptStart && nonoptStart == first + Before())
      && (nonoptEnd != -1 ==> nonoptEnd == nonoptStart + |Operands()| <= optind)
      && 0 <= Before() <= |Opts()|
      && Layout(argv[..], orig, first, Opts(), Operands(), Before())
    }

    ghost predicate OnOption()
      reads this, argv
    {
      optind < argv.Length && !IsOperand(argv[optind], options) && argv[optind] != "--"
    }

    // What the elements that are not passed over yet say.
    ghost function WillRead(table: Table): Reading
      requires optind <= argv.Length && (place != "" ==> optind < argv.Length)
      reads this, argv
    {
      if place == "" then ReadAll(argv[optind..], options, table) else ReadCluster(place, argv[optind..], options, table)
    }

    // What the elements since the start of the scan say: those passed over, and the others.
    ghost function Outlook(table: Table): Reading
      requires optind <= argv.Length && (place != "" ==> optind < argv.Length)
      reads this, argv
    {
      Ahead(roles, WillRead(table))
    }

    // A permutation is due only after an option was passed over, so that its blocks are not empty.
    ghost predicate Valid()
      reads this, argv
    {
      && Sized() && RolesFit(Seen(), roles, options) && Bookkeeping()
      && (place != "" ==> OnOption() && (nonoptStart != -1 ==> nonoptEnd != -1) && |place| <= |argv[optind]|)
      && (nonoptEnd == optind ==> OnOption())
    }

    // The first call: optind 0 stands for a reset, after which the scan is at the first argument.
    constructor (args: array<string>, optstring: string, posixlyCorrect: bool)
      requires args.Length > 0
      ensures Valid() && argv == args && optind == 1 == first && roles == [] && orig == args[..]
      ensures mode == ModeOf(optstring, posixlyCorrect) && options == OptionsOf(optstring)
    {
      options := OptionsOf(optstring);
      mode := ModeOf(optstring, posixlyCorrect);
      argv := args;
      optind, nonoptStart, nonoptEnd, place := 1, -1, -1, "";
      orig, first, roles := args[..], 1, [];
      new;
      LayoutStarts(orig, first);
    }

    // The operands put off move behind the options since: the two calls of permute_args in mid-scan and at
    // its end have two blocks that are not empty.
    method PermutePutOff()
      requires Sized() && Bookkeeping() && nonoptEnd != -1 && nonoptEnd < optind
      modifies argv, this`nonoptStart, this`nonoptEnd
      ensures Sized() && Bookkeeping() && nonoptEnd == -1 && nonoptStart == optind - |Operands()|
      ensures Opts() == old(Opts()) && Operands() == old(Operands())
      ensures forall i | optind <= i < argv.Length :: argv[i] == old(argv[i])
    {
      hide Picked, Layout, Exchanged;
      ghost var was, opts, operands := argv[..], Opts(), Operands();
      LayoutExchanged(was, orig, first, opts, operands, Before());
      LayoutSize(was, orig, first, opts, operands, Before(), Seen(), roles);
      PermuteArgs(argv, nonoptStart, nonoptEnd, optind);
      KeptBehind(was, nonoptStart, nonoptEnd, optind);
      forall i | optind <= i < argv.Length ensures argv[i] == was[i] {
        assert argv[i] == argv[..][i];
      }
      assert Opts() == opts && Operands() == operands;
      nonoptStart := optind - (nonoptEnd - nonoptStart);
      nonoptEnd := -1;
    }

    // An option, or an argument of one, is passed over.
    method PassOption(role: Role)
      requires Sized() && RolesFit(Seen(), roles, options) && Bookkeeping() && optind < argv.Length
      requires !role.Operand? && (nonoptStart != -1 ==> nonoptEnd != -1)
      requires role.Opt? ==> !IsOperand(argv[optind], options)
      requires role.Arg? ==> roles != [] && !roles[|roles| - 1].Operand?
      modifies this`optind, this`roles
      ensures Sized() && RolesFit(Seen(), roles, options) && Bookkeeping()
      ensures optind == old(optind) + 1 && roles == old(roles) + [role]
    {
      hide Picked, Layout, RolesFit;
      ghost var was, opts, operands, seen, k := argv[..], Opts(), Operands(), Seen(), Before();
      ghost var x := orig[optind];
      SliceMore(orig, first, optind);
      LayoutSize(was, orig, first, opts, operands, k, seen, roles);
      LayoutNext(was, orig, first, opts, operands, k);
      assert argv[optind] == was[optind];
      LayoutOption(was, orig, first, opts, operands, k);
      PickedMore(seen, roles, x, role);
      RolesFitMore(seen, roles, options, x, role);
      optind := optind + 1;
      roles := roles + [role];
    }

    // An operand is put off.
    method PassOperand()
      requires Valid() && place == "" && mode == Permute && optind < argv.Length && IsOperand(argv[optind], options)
      modifies argv, this`optind, this`roles, this`nonoptStart, this`nonoptEnd
      ensures Valid()
      ensures optind == old(optind) + 1 && roles == old(roles) + [Operand]
      ensures forall i | optind <= i < argv.Length :: argv[i] == old(argv[i])
    {
      hide Picked, Layout, RolesFit;
      ghost var x := argv[optind];
      LayoutSize(argv[..], orig, first, Opts(), Operands(), Before(), Seen(), roles);
      if nonoptStart == -1 {
        nonoptStart := optind;
      } else if nonoptEnd != -1 {
        PermutePutOff();
      }
      assert argv[optind] == x;
      PutOff();
    }

    // The rest of it: the operands put off so far end here.
    method PutOff()
      requires Sized() && RolesFit(Seen(), roles, options) && mode == Permute && nonoptEnd == -1
      requires optind < argv.Length && IsOperand(argv[optind], options)
      requires 0 <= nonoptStart == optind - |Operands()| && nonoptStart == first + |Opts()|
      requires Layout(argv[..], orig, first, Opts(), Operands(), |Opts()|)
      modifies this`optind, this`roles
      ensures Sized() && RolesFit(Seen(), roles, options) && Bookkeeping() && nonoptStart != -1
      ensures optind == old(optind) + 1 && roles == old(roles) + [Operand]
    {
      hide Picked, Layout, RolesFit;
      ghost var was, opts, operands, seen := argv[..], Opts(), Operands(), Seen();
      ghost var x := orig[optind];
      SliceMore(orig, first, optind);
      LayoutSize(was, orig, first, opts, operands, |opts|, seen, roles);
      LayoutNext(was, orig, first, opts, operands, |opts|);
      assert argv[optind] == was[optind];
      LayoutOperand(was, orig, first, opts, operands);
      PickedMore(seen, roles, x, Operand);
      RolesFitMore(seen, roles, options, x, Operand);
      optind := optind + 1;
      roles := roles + [Operand];
    }

    // The end of the scan: the last permutation if one is due, then a fresh start.
    method Finish()
      requires Sized() && RolesFit(Seen(), roles, options) && Bookkeeping() && place == "" && nonoptEnd != optind
      modifies argv, this
      ensures Valid() && nonoptStart == nonoptEnd == -1 && place == ""
      ensures Partitioned(old(orig), old(first), old(roles), options, argv[..], optind)
    {
      hide Picked, Layout, RolesFit;
      ghost var seen := Seen();
      LayoutSize(argv[..], orig, first, Opts(), Operands(), Before(), seen, roles);
      if nonoptEnd != -1 {
        var putOff := nonoptEnd - nonoptStart;
        PermutePutOff();
        LayoutDone(argv[..], orig, first, Opts(), Operands());
        optind := optind - putOff;
      } else {
        LayoutDone(argv[..], orig, first, Opts(), Operands());
        if nonoptStart != -1 {
          optind := nonoptStart;
        }
      }
      Restart();
    }

    // Forgets what was scanned, as the source does by setting both indices to -1.
    method Restart()
      requires optind <= argv.Length && place == ""
      modifies this`nonoptStart, this`nonoptEnd, this`orig, this`first, this`roles
      ensures Valid() && nonoptStart == nonoptEnd == -1
      ensures orig == argv[..] && first == optind && roles == []
    {
      nonoptStart, nonoptEnd := -1, -1;
      orig, first, roles := argv[..], optind, [];
      LayoutStarts(orig, first);
    }

    // What the next call gives back.
    ghost function Coming(table: Table): Outcome
      requires optind <= argv.Length && (place != "" ==> optind < argv.Length)
      reads this, argv
    {
      if place == "" then OutcomeOf(argv[optind..], options, mode, table) else OptionOutcome(place, argv[optind..], options, table)
    }

    // The elements are looked at from `optind` on until one is an option or the scan ends.
    method Advance(ghost table: Table) returns (s: Scan, ghost seen: seq<Role>)
      requires Valid() && place == ""
      modifies argv, this
      ensures Valid() && old(roles) <= seen && (s.AtOption? <==> place != "")
      ensures s.AtOption? || s.AtStop? ==> orig == old(orig) && first == old(first) && roles == seen && optind >= old(optind)
      ensures s.AtOption? ==> place == if argv[optind] == "-" then "-" else argv[optind][1..]
      ensures s.AtOption? && optind == old(optind) ==> argv[optind] == old(argv[..])[optind]
      ensures s.AtEnd? ==> Partitioned(old(orig), old(first), seen, options, argv[..], optind)
      ensures s.AtOperand? ==> mode.InOrder? && argv[..] == old(argv[..]) && optind == old(optind) + 1 && s.arg == argv[optind - 1]
      ensures s.AtStop? ==> mode.StopAtOperand? && argv[..] == old(argv[..]) && optind == old(optind)
      ensures s.AtStop? ==> optind < argv.Length && IsOperand(argv[optind], options)
      ensures s.AtEnd? ==> old(Outlook(table)) == Reading(seen, [], false)
      ensures s.AtOption? ==> Outlook(table) == old(Outlook(table))
      ensures match s
        case AtOption => Coming(table) == old(Coming(table))
        case AtEnd => old(Coming(table)) == End
        case AtOperand(arg) => old(Coming(table)) == InOrderOperand(arg)
        case AtStop => old(Coming(table)) == Stop
      ensures s.AtOperand? ==> roles == [] && old(WillRead(table)) == Ahead([Operand], WillRead(table))
    {
      hide Picked, Layout, RolesFit, Partitioned, ReadAll, ReadCluster, OutcomeOf, OptionOutcome;
      while true
        invariant Valid() && place == "" && orig == old(orig) && first == old(first) && old(roles) <= roles
        invariant optind >= old(optind) && (optind == old(optind) ==> argv[..] == old(argv[..]))
        invariant mode != Permute ==> optind == old(optind)
        invariant Coming(table) == old(Coming(table))
        invariant Outlook(table) == old(Outlook(table)) && (mode != Permute ==> roles == old(roles))
        decreases argv.Length - optind
      {
        seen := roles;
        ghost var rest := argv[optind..];
        ReadAllStep(rest, options, table);
        OutcomeStep(rest, options, mode, table);
        if optind >= argv.Length {
          assert rest == [] && roles + [] == roles;
          Finish();
          return AtEnd, seen;
        }
        if IsOperand(argv[optind], options) {
          if mode.InOrder? {
            var arg := argv[optind];
            optind := optind + 1;
            assert argv[optind..] == rest[1..];
            Restart();
            return AtOperand(arg), seen;
          }
          if mode.StopAtOperand? {
            return AtStop, seen;
          }
          PassOperand();
          assert argv[optind..] == rest[1..];
          AheadMore(seen, [Operand], WillRead(table));
        } else {
          s, seen := EnterOption(table);
          return;
        }
      }
    }

    // The element is an option, or the "--" that ends the scan.
    method EnterOption(ghost table: Table) returns (s: Scan, ghost seen: seq<Role>)
      requires Valid() && place == "" && optind < argv.Length && !IsOperand(argv[optind], options)
      modifies argv, this
      ensures Valid() && old(roles) <= seen && (s.AtOption? || s.AtEnd?) && (s.AtOption? <==> place != "")
      ensures s.AtOption? ==> orig == old(orig) && first == old(first) && roles == old(roles) == seen && optind == old(optind)
      ensures s.AtOption? ==> argv[..] == old(argv[..]) && place == if argv[optind] == "-" then "-" else argv[optind][1..]
      ensures s.AtEnd? ==> Partitioned(old(orig), old(first), seen, options, argv[..], optind)
      ensures s.AtEnd? ==> old(Outlook(table)) == Reading(seen, [], false)
      ensures s.AtOption? ==> Outlook(table) == old(Outlook(table)) && Coming(table) == old(Coming(table))
      ensures s.AtEnd? ==> old(Coming(table)) == End
    {
      hide Picked, Layout, RolesFit, Partitioned, ReadAll, ReadCluster, OutcomeOf, OptionOutcome;
      OutcomeStep(argv[optind..], options, mode, table);
      ReadAllStep(argv[optind..], options, table);
      EndOperands();
      if argv[optind] == "--" {
        PassOption(Opt);
        seen := roles;
        Finish();
        return AtEnd, seen;
      }
      place := if argv[optind] == "-" then "-" else argv[optind][1..];
      return AtOption, roles;
    }

    // An option ends the operands put off before it.
    method EndOperands()
      requires Valid() && place == "" && optind < argv.Length && !IsOperand(argv[optind], options)
      modifies this`nonoptEnd
      ensures Sized() && RolesFit(Seen(), roles, options) && Bookkeeping() && (nonoptStart != -1 ==> nonoptEnd != -1)
    {
      hide Picked, Layout, RolesFit;
      LayoutSize(argv[..], orig, first, Opts(), Operands(), Before(), Seen(), roles);
      if nonoptStart != -1 && nonoptEnd == -1 {
        nonoptEnd := optind;
      }
    }

    // Inside an option: the operands put off, if any, end before it.
    ghost predicate Inside()
      reads this, argv
    {
      && Sized() && RolesFit(Seen(), roles, options) && Bookkeeping() && OnOption()
      && (nonoptStart != -1 ==> nonoptEnd != -1)
    }

    // The option is done, and with it perhaps the next element, as its argument.
    method PassOptionWith(takesNext: bool)
      requires Inside() && place == ""
      modifies this`optind, this`roles
      ensures Valid() && roles == old(roles) + PassRoles(argv[old(optind)..], takesNext)
      ensures optind == old(optind) + |PassRoles(argv[old(optind)..], takesNext)|
    {
      hide Picked, Layout, RolesFit;
      PassOption(Opt);
      if takesNext && optind < argv.Length {
        PassOption(Arg);
      }
    }

    // With some elements passed over, the others say what was ahead.
    lemma Behind(was: seq<Role>, rest: seq<string>, more: seq<Role>, table: Table)
      requires optind <= argv.Length && place == "" && roles == was + more && 0 < |more| <= |rest| && argv[optind..] == rest[|more|..]
      ensures Outlook(table) == Ahead(was, ReadBehind(more, rest, options, table))
    {
      hide ReadAll;
      AheadMore(was, more, WillRead(table));
    }

    // One letter of the cluster at `place`; the table matters for -W alone. It gives -1 from inside a cluster,
    // with the scan where it was, exactly on a '-' that ends the cluster and is no option.
    method TakeLetter(table: Table) returns (r: Outcome)
      requires Inside() && place != "" && |place| <= |argv[optind]|
      modifies this`optind, this`roles, this`place
      ensures Valid() && old(roles) <= roles && !r.End? && !r.Stop? && !r.InOrderOperand?
      ensures r.Dash? <==> old(place) == "-" && '-' !in options
      ensures r.Dash? ==> optind == old(optind) && roles == old(roles)
      ensures r.Dash? || optind > old(optind) || (optind == old(optind) && roles == old(roles) && 0 < |place| < |old(place)|)
      ensures r == LetterOutcome(old(place), argv[old(optind)..], options, table)
      ensures r.Dash? ==> ReadLetter(old(place), argv[old(optind)..], options, table) == Reading([], [], true)
      ensures !r.Dash? ==> Then(r, Outlook(table)) == Ahead(old(roles), ReadLetter(old(place), argv[old(optind)..], options, table))
    {
      hide Picked, Layout, RolesFit, IndexOf, ReadAll, ReadCluster, ReadBehind, LongWRoles, PassRoles;
      var c := place[0];
      ghost var text := place;
      place := place[1..];
      if c == ':' || (c == '-' && place != "") || c !in options {
        if c == '-' && place == "" {
          return Dash;
        }
        EndLetter(table);
        return Bad(c);
      }
      r := TakeListed(c, table, text);
    }

    // A letter that the option string lists, once `place` is behind it.
    method TakeListed(c: char, table: Table, ghost text: string) returns (r: Outcome)
      requires Inside() && text == [c] + place && |text| <= |argv[optind]| && IsLetter(text, options)
      modifies this`optind, this`roles, this`place
      ensures Valid() && old(roles) <= roles && r == LetterOutcome(text, argv[old(optind)..], options, table)
      ensures optind > old(optind) || (optind == old(optind) && roles == old(roles) && place == old(place) != "")
      ensures Then(r, Outlook(table)) == Ahead(old(roles), ReadLetter(text, argv[old(optind)..], options, table))
    {
      hide Picked, Layout, RolesFit, IndexOf, ReadAll, ReadCluster, ReadLetter, ReadBehind, LongWRoles, PassRoles,
        LetterOutcome, ArgumentOutcome, IsLetter, CharAt;
      ghost var rest, was := argv[optind..], roles;
      assert text[1..] == place;
      ReadListed(text, rest, options, table);
      OutcomeListed(text, rest, options, table);
      var i := IndexOf(options, c);
      if table.Table? && c == 'W' && CharAt(options, i + 1) == ';' {
        ghost var more := LongWRoles(place, rest, table);
        r := TakeLongW(table);
        assert argv[optind..] == rest[|more|..];
        Behind(was, rest, more, table);
      } else if CharAt(options, i + 1) != ':' {
        EndLetter(table);
        r := Letter(c, NoArgument);
      } else {
        var optional := CharAt(options, i + 2) == ':';
        ghost var more := PassRoles(rest, place == "" && !optional);
        r := TakeArgument(c, optional);
        assert argv[optind..] == rest[|more|..];
        Behind(was, rest, more, table);
      }
    }

    // Behind a letter without an argument: the next letter, or the next element.
    method EndLetter(ghost table: Table)
      requires Inside() && |place| < |argv[optind]|
      modifies this`optind, this`roles
      ensures Valid() && old(roles) <= roles
      ensures if place == "" then optind == old(optind) + 1 else optind == old(optind) && roles == old(roles)
      ensures Outlook(table) == Ahead(old(roles), ReadCluster(place, argv[old(optind)..], options, table))
    {
      hide Picked, Layout, RolesFit, ReadAll;
      ghost var rest, was := argv[optind..], roles;
      if place == "" {
        PassOptionWith(false);
        assert argv[optind..] == rest[1..];
        AheadMore(was, [Opt], WillRead(table));
      }
    }

    // The argument of an option letter: the rest of the cluster, or if that is empty the next element, unless
    // the argument is optional.
    method TakeArgument(c: char, optional: bool) returns (r: Outcome)
      requires Inside()
      modifies this`optind, this`roles, this`place
      ensures Valid() && place == ""
      ensures var more := PassRoles(argv[old(optind)..], old(place) == "" && !optional);
        roles == old(roles) + more && optind == old(optind) + |more|
      ensures r == ArgumentOutcome(c, old(place), argv[old(optind)..], optional)
    {
      hide Picked, Layout, RolesFit;
      if place != "" {
        r := Letter(c, Given(place));
        place := "";
        PassOptionWith(false);
      } else if optional {
        PassOptionWith(false);
        r := Letter(c, NoArgument);
      } else {
        var last := optind + 1 >= argv.Length;
        r := if last then Missing(c) else Letter(c, Given(argv[optind + 1]));
        PassOptionWith(true);
      }
    }

    // What comes of a long option, with the elements from here on behind it.
    method TellLong(answer: LongAnswer, behind: nat) returns (r: Outcome)
      requires behind <= argv.Length
      ensures r == LongOutcome(answer, argv[behind..])
    {
      if answer.NoMatch? {
        r := LongOption(UnknownName);
      } else if !(answer.takesNext && answer.result.Chosen?) {
        r := LongOption(answer.result);
      } else if behind >= argv.Length {
        r := LongOption(LacksArgument(answer.result.index));
      } else {
        r := LongOption(Chosen(answer.result.index, Given(argv[behind])));
      }
    }

    // -W long-option, after the letter.
    method TakeLongW(table: Table) returns (r: Outcome)
      requires Inside() && table.Table?
      modifies this`optind, this`roles, this`place
      ensures Valid() && place == ""
      ensures r == LongWOutcome(old(place), argv[old(optind)..], table)
      ensures var more := LongWRoles(old(place), argv[old(optind)..], table);
        roles == old(roles) + more && optind == old(optind) + |more|
    {
      hide Picked, Layout, RolesFit, LongOutcome;
      var attached := place;
      ghost var rest := argv[optind..];
      place := "";
      if attached == "" && optind + 1 >= argv.Length {
        PassOptionWith(false);
        return Missing('W');
      }
      if attached != "" {
        var answer := table.answer(attached, false);
        assert argv[optind + 1..] == rest[1..];
        r := TellLong(answer, optind + 1);
        PassOptionWith(NextTaken(answer));
      } else {
        var answer := table.answer(argv[optind + 1], false);
        assert argv[optind + 2..] == rest[2..];
        r := TellLong(answer, optind + 2);
        PassThree(NextTaken(answer));
      }
    }

    // -W, its argument, and perhaps one element more.
    method PassThree(takesNext: bool)
      requires Inside() && place == "" && optind + 1 < argv.Length
      modifies this`optind, this`roles
      ensures var more := if takesNext && old(optind) + 2 < argv.Length then [Opt, Arg, Arg] else [Opt, Arg];
        roles == old(roles) + more && optind == old(optind) + |more|
      ensures Valid()
    {
      hide Picked, Layout, RolesFit;
      PassOption(Opt);
      PassOption(Arg);
      if takesNext && optind < argv.Length {
        PassOption(Arg);
      }
    }

    // How much is left to look at: elements, then letters of the cluster.
    ghost function Letters(): nat
      reads this, argv
    {
      if place != "" then |place| else if optind < argv.Length then |argv[optind]| + 1 else 0
    }

    // getopt_internal
    method Next(table: Table) returns (r: Outcome, ghost seen: seq<Role>)
      requires Valid()
      modifies argv, this
      ensures Valid() && old(roles) <= seen
      ensures r.End? ==> Partitioned(old(orig), old(first), seen, options, argv[..], optind)
      ensures !r.End? && !r.InOrderOperand? ==> orig == old(orig) && first == old(first) && roles == seen
      ensures !Stops(r) ==> optind > old(optind) || (optind == old(optind) && Letters() < old(Letters()))
      ensures r.InOrderOperand? ==> mode.InOrder? && argv[..] == old(argv[..]) && r.arg == old(argv[..])[old(optind)]
      ensures r.Stop? ==> mode.StopAtOperand? && optind < argv.Length && IsOperand(argv[optind], options)
      ensures r == old(Coming(table))
      ensures r.Dash? <==> table.NoTable? && old(place) == "-" && '-' !in options
      ensures r.Dash? ==> OnOption()
      ensures r.End? || r.Dash? ==> old(Outlook(table)) == Reading(seen, [], r.Dash?)
      ensures !Stops(r) && !r.InOrderOperand? ==> Then(r, Outlook(table)) == old(Outlook(table))
      ensures r.InOrderOperand? ==> roles == [] && old(WillRead(table)) == Ahead([Operand], WillRead(table))
    {
      hide Picked, Layout, RolesFit, Partitioned, ReadAll, ReadCluster, OutcomeOf, OptionOutcome;
      seen := roles;
      if place == "" {
        var s;
        s, seen := Advance(table);
        match s {
          case AtEnd => return End, seen;
          case AtOperand(arg) => return InOrderOperand(arg), seen;
          case AtStop => return Stop, seen;
          case AtOption =>
        }
      }
      r := TakeOption(table);
      seen := roles;
    }

    // The second half: a long option, or one letter.
    method TakeOption(table: Table) returns (r: Outcome)
      requires Valid() && place != ""
      modifies this`optind, this`roles, this`place
      ensures Valid() && old(roles) <= roles && !r.End? && !r.Stop? && !r.InOrderOperand?
      ensures !r.Dash? ==> optind > old(optind) || (optind == old(optind) && 0 < |place| < |old(place)|)
      ensures r.Dash? <==> table.NoTable? && old(place) == "-" && '-' !in options
      ensures r == OptionOutcome(old(place), argv[old(optind)..], options, table)
      ensures r.Dash? ==> OnOption() && roles == old(roles)
      ensures old(Outlook(table)) == if r.Dash? then Reading(roles, [], true) else Then(r, Outlook(table))
    {
      hide Picked, Layout, RolesFit, ReadAll, ReadLetter, ReadBehind, PassRoles, LetterOutcome, LongOutcome;
      ghost var rest, was := argv[optind..], roles;
      if table.Table? && argv[optind] != "-" && (place[0] == '-' || table.longOnly) {
        var shortToo := ShortToo(place, options);
        var answer := table.answer(LongText(place), shortToo);
        if answer.Match? || !shortToo {
          r := TakeLong(answer, table);
          return;
        }
      }
      assert !IsLong(place, rest[0], options, table);
      r := TakeLetter(table);
      assert was + [] == was;
    }

    // The element is a long option, known or not.
    method TakeLong(answer: LongAnswer, ghost table: Table) returns (r: Outcome)
      requires Valid() && place != "" && IsLong(place, argv[optind], options, table)
      requires answer == table.answer(LongText(place), ShortToo(place, options))
      modifies this`optind, this`roles, this`place
      ensures Valid() && old(roles) <= roles && optind > old(optind) && place == "" && !r.Dash? && r.LongOption?
      ensures r == OptionOutcome(old(place), argv[old(optind)..], options, table)
      ensures old(Outlook(table)) == Then(r, Outlook(table))
    {
      hide Picked, Layout, RolesFit, ReadAll, ReadLetter, ReadBehind, PassRoles, LetterOutcome, IsLong, LongOutcome;
      ghost var rest, was := argv[optind..], roles;
      ghost var more := PassRoles(rest, NextTaken(answer));
      assert argv[optind + 1..] == rest[1..];
      r := TellLong(answer, optind + 1);
      place := "";
      PassOptionWith(NextTaken(answer));
      assert argv[optind..] == rest[|more|..];
      Behind(was, rest, more, table);
      TellsLong(answer, rest[1..]);
    }

    static lemma TellsLong(answer: LongAnswer, behind: seq<string>)
      ensures LongOutcome(answer, behind).LongOption?
    {
    }

    // The loop of a caller that wants operands permuted, from a fresh start. The elements say what becomes of
    // them: unless it is cut short inside a cluster, the scan looks at all of them, up to the first "--" that is an
    // option, and leaves the vector partitioned with `optind` at the first operand.
    method ScanAll(table: Table) returns (r: Outcome, outcomes: seq<Outcome>, ghost seen: seq<Role>)
      requires Valid() && mode.Permute? && roles == [] && place == ""
      modifies argv, this
      ensures Valid() && (r.End? || r.Dash?)
      ensures ReadAll(old(argv[optind..]), options, table) == Reading(seen, outcomes, r.Dash?)
      ensures r.Dash? ==> orig == old(orig) && first == old(first) && roles == seen && OnOption()
      ensures r.End? ==> Partitioned(old(orig), old(first), seen, options, argv[..], optind)
      ensures r.End? ==> Complete(old(argv[optind..]), seen)
    {
      hide Picked, Layout, RolesFit, Partitioned, ReadAll, ReadCluster, Complete;
      ghost var rest := argv[optind..];
      ReadsComplete(rest, options, table);
      assert [] + ReadAll(rest, options, table).roles == ReadAll(rest, options, table).roles;
      outcomes := [];
      while true
        invariant Valid() && orig == old(orig) && first == old(first)
        invariant Outlook(table).(outcomes := outcomes + Outlook(table).outcomes) == ReadAll(rest, options, table)
        decreases argv.Length - optind, Letters()
      {
        r, seen := Next(table);
        if Stops(r) {
          assert outcomes + [] == outcomes;
          return;
        }
        Concat(outcomes, [r], Outlook(table).outcomes);
        outcomes := outcomes + [r];
      }
    }
  }

  // A scan that is cut short: the option is found where it is, and the operand is still in front of it.
  method ScanCutShort() returns (scanner: ArgScanner)
    ensures scanner.argv[..] == CUT_ARGS && scanner.optind == 2
    ensures forall roles: seq<Role> :: !Partitioned(CUT_ARGS, 1, roles, "a", scanner.argv[..], scanner.optind)
  {
    hide Picked, Layout, Partitioned;
    var args := new string[]["p", "x", "-a-"];
    scanner := new ArgScanner(args, "a", false);
    CutShortWitness();
    assert args[..] == CUT_ARGS && args[1..] == CUT_ARGS[1..];
    var r, outcomes, seen := scanner.ScanAll(NoTable);
    OperandKept(scanner.argv[..], scanner.optind, scanner.roles, scanner.Before());
    forall roles: seq<Role> ensures !Partitioned(CUT_ARGS, 1, roles, "a", scanner.argv[..], scanner.optind) {
      NotPartitioned(roles);
    }
  }

  lemma OperandKept(argv: seq<string>, optind: nat, roles: seq<Role>, k: int)
    requires 1 + |roles| == optind < 3 && RolesFit(CUT_ARGS[1..optind], roles, "a")
    requires var s := CUT_ARGS[1..optind];
      0 <= k <= |Picked(s, roles, false)| && Layout(argv, CUT_ARGS, 1, Picked(s, roles, false), Picked(s, roles, true), k)
    requires optind < |argv| && !IsOperand(argv[optind], "a")
    ensures argv == CUT_ARGS && optind == 2
  {
    var s := CUT_ARGS[1..optind];
    if optind == 2 {
      assert s == ["x"] && RoleFits(s, roles, "a", 0);
      assert s[..0] == [] && roles[..0] == [];
      assert Picked(s, roles, true) == ["x"] && Picked(s, roles, false) == [];
    }
  }

  lemma SliceMore(s: seq<string>, i: nat, j: nat)
    requires i <= j < |s|
    ensures s[i..j + 1] == s[i..j] + [s[j]]
  {
  }

  lemma LayoutDone(argv: seq<string>, orig: seq<string>, first: nat, opts: seq<string>, operands: seq<string>)
    requires Layout(argv, orig, first, opts, operands, |opts|)
    ensures argv == orig[..first] + opts + operands + orig[first + |opts| + |operands|..]
  {
    assert opts[..|opts|] == opts && opts[|opts|..] == [];
  }

  lemma KeptBehind(was: seq<string>, start: nat, middle: nat, end: nat)
    requires start <= middle <= end <= |was|
    ensures |Exchanged(was, start, middle, end)| == |was|
    ensures forall i | end <= i < |was| :: Exchanged(was, start, middle, end)[i] == was[i]
  {
  }

  lemma LayoutSize(argv: seq<string>, orig: seq<string>, first: nat, opts: seq<string>, operands: seq<string>, k: nat,
                   s: seq<string>, roles: seq<Role>)
    requires Layout(argv, orig, first, opts, operands, k) && |s| == |roles|
    requires opts == Picked(s, roles, false) && operands == Picked(s, roles, true)
    ensures |argv| == |orig| && |opts| + |operands| == |s|
  {
    PickedAll(s, roles);
  }
}
