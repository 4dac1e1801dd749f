/** Options and operands written out in the ways the documentation of getopt allows are read back as what they are. */
module GetoptPrinted {
  import opened Getopt
  import Longs = LongOptions
  import opened Sequences

  // What a letter takes, and the option string that says so: nothing, ':' or "::" behind it.
  datatype Takes = Nothing | Required | Optional
  datatype Declared = Declared(letter: char, takes: Takes)

  function Mark(t: Takes): string {
    match t
    case Nothing => ""
    case Required => ":"
    case Optional => "::"
  }

  function OptionString(ds: seq<Declared>): string {
    if ds == [] then "" else [ds[0].letter] + Mark(ds[0].takes) + OptionString(ds[1..])
  }

  // Any characters but the mark and the dash may be letters.
  predicate Letters(ds: seq<Declared>) {
    forall i | 0 <= i < |ds| :: ds[i].letter != ':' && ds[i].letter != '-'
  }

  // The first declaration of a letter counts.
  predicate Lists(ds: seq<Declared>, c: char) {
    ds != [] && (ds[0].letter == c || Lists(ds[1..], c))
  }

  function TakesOf(ds: seq<Declared>, c: char): Takes
    requires Lists(ds, c)
  {
    if ds[0].letter == c then ds[0].takes else TakesOf(ds[1..], c)
  }

  // How the option string answers the questions of the scan.
  ghost predicate Answers(options: string, c: char, t: Takes)
  {
    && c in options
    && var i := IndexOf(options, c);
       && (CharAt(options, i + 1) == ':' <==> !t.Nothing?)
       && (!t.Nothing? ==> (CharAt(options, i + 2) == ':' <==> t.Optional?))
  }

  lemma {:induction false} Found(ds: seq<Declared>, c: char)
    requires Letters(ds) && c != ':'
    ensures c in OptionString(ds) <==> Lists(ds, c)
    ensures Lists(ds, c) ==> Answers(OptionString(ds), c, TakesOf(ds, c))
  {
    hide Answers, IndexOf, CharAt;
    if ds != [] {
      var head, rest := [ds[0].letter] + Mark(ds[0].takes), OptionString(ds[1..]);
      Found(ds[1..], c);
      if ds[0].letter == c {
        FoundFirst(ds);
      } else if Lists(ds[1..], c) {
        FoundBehind(head, rest, c, TakesOf(ds[1..], c));
      }
    }
  }

  lemma FoundFirst(ds: seq<Declared>)
    requires Letters(ds) && ds != []
    ensures Answers(OptionString(ds), ds[0].letter, ds[0].takes)
  {
    hide OptionString;
    var head, rest := [ds[0].letter] + Mark(ds[0].takes), OptionString(ds[1..]);
    NextLetter(ds[1..]);
    assert OptionString(ds) == head + rest by { Unfolds(ds); }
    assert IndexOf(head + rest, ds[0].letter) == 0;
  }

  lemma Unfolds(ds: seq<Declared>)
    requires ds != []
    ensures OptionString(ds) == [ds[0].letter] + Mark(ds[0].takes) + OptionString(ds[1..])
  {
  }

  lemma FoundBehind(head: string, rest: string, c: char, t: Takes)
    requires c !in head && Answers(rest, c, t)
    ensures Answers(head + rest, c, t)
  {
    IndexBehind(head, rest, c);
  }

  lemma {:induction false} NoChar(ds: seq<Declared>, c: char)
    requires c != ':' && forall i | 0 <= i < |ds| :: ds[i].letter != c
    ensures c !in OptionString(ds)
  {
    if ds != [] {
      NoChar(ds[1..], c);
    }
  }

  lemma NextLetter(ds: seq<Declared>)
    requires Letters(ds)
    ensures CharAt(OptionString(ds), 0) != ':'
  {
  }

  lemma {:induction false} IndexBehind(s: string, t: string, c: char)
    requires c !in s && c in t
    ensures IndexOf(s + t, c) == |s| + IndexOf(t, c)
  {
    if s == "" {
      assert s + t == t;
    } else {
      assert (s + t)[1..] == s[1..] + t;
      IndexBehind(s[1..], t, c);
    }
  }

  // An element: letters that take nothing, with at most one behind them that takes or may take a value, which is
  // attached or in the next element; a long option by a name for it, with its value behind an '=' or in the next
  // element; a name for none or for several; or an operand.
  datatype Last = NoLast | Attached(letter: char, value: string) | Apart(letter: char, value: string)
                | Bare(letter: char) | Lacking(letter: char)
  datatype Value = NoValue | Equals(value: string) | Behind(value: string) | Unwanted(value: string) | LacksValue
  datatype Element = Cluster(flags: string, last: Last) | Named(name: string, index: nat, value: Value)
                   | Unnamed(text: string, several: bool) | Word(text: string)

  function LastText(last: Last): string {
    match last
    case NoLast => ""
    case Attached(c, value) => [c] + value
    case _ => [last.letter]
  }

  function NamedText(name: string, value: Value): string {
    if value.Equals? || value.Unwanted? then name + "=" + value.value else name
  }

  function Text(e: Element): seq<string> {
    match e
    case Cluster(flags, Apart(c, value)) => ["-" + flags + [c], value]
    case Cluster(flags, last) => ["-" + flags + LastText(last)]
    case Named(name, _, Behind(value)) => ["--" + name, value]
    case Named(name, _, value) => ["--" + NamedText(name, value)]
    case Unnamed(text, _) => ["--" + text]
    case Word(text) => [text]
  }

  function Texts(es: seq<Element>): seq<string> {
    if es == [] then [] else Text(es[0]) + Texts(es[1..])
  }

  predicate FlagsFit(flags: string, ds: seq<Declared>) {
    forall i | 0 <= i < |flags| :: flags[i] != ':' && flags[i] != '-' && (Lists(ds, flags[i]) ==> TakesOf(ds, flags[i]).Nothing?)
  }

  predicate LastFits(last: Last, ds: seq<Declared>) {
    match last
    case NoLast => false
    case Attached(c, value) => Lists(ds, c) && !TakesOf(ds, c).Nothing? && value != ""
    case Bare(c) => Lists(ds, c) && TakesOf(ds, c).Optional?
    case Apart(c, _) => Lists(ds, c) && TakesOf(ds, c).Required?
    case Lacking(c) => Lists(ds, c) && TakesOf(ds, c).Required?
  }

  // Only an option that must have a value can have it apart, and then whatever it looks like; only one that need not
  // have it can go without. A name is one that the table has for that option, in full or as a true abbreviation.
  ghost predicate Permitted(e: Element, ds: seq<Declared>, longs: seq<Longs.LongOption>) {
    match e
    case Named(name, index, value) =>
      && name != "" && '=' !in name && Longs.Finds(longs, name, false, Longs.Known(index))
      && (match longs[index].hasArg
          case NoArg => value.NoValue? || value.Unwanted?
          case RequiredArg => value.Equals? || value.Behind? || value.LacksValue?
          case OptionalArg => value.NoValue? || value.Equals?)
    case Unnamed(text, several) =>
      text != "" && longs != [] && Longs.Finds(longs, Longs.NameOf(text), false, if several then Longs.Ambiguous else Longs.Unknown)
    case Cluster(flags, last) => (flags != "" || !last.NoLast?) && FlagsFit(flags, ds) && (last.NoLast? || LastFits(last, ds))
    case Word(text) => text == "" || text[0] != '-' || text == "-"
  }

  predicate Lacks(e: Element) {
    (e.Cluster? && e.last.Lacking?) || (e.Named? && e.value.LacksValue?)
  }

  // A value can only be lacking at the end of the vector.
  ghost predicate Written(es: seq<Element>, ending: seq<string>, ds: seq<Declared>, longs: seq<Longs.LongOption>) {
    && (ending != [] ==> ending[0] == "--")
    && (forall i | 0 <= i < |es| :: Permitted(es[i], ds, longs))
    && (forall i | 0 <= i < |es| && Lacks(es[i]) :: i == |es| - 1 && ending == [])
  }

  // What is to be read: the letters in order, each with its value if it has one, and bad ones where they stand.
  function Said(e: Element, ds: seq<Declared>): seq<Outcome> {
    match e
    case Cluster(flags, last) => SaidFlags(flags, ds) + SaidLast(last)
    case Named(_, index, value) => [LongOption(SaidLong(index, value))]
    case Unnamed(_, several) => [LongOption(if several then AmbiguousName else UnknownName)]
    case Word(_) => []
  }

  function SaidFlags(flags: string, ds: seq<Declared>): seq<Outcome> {
    if flags == "" then []
    else [if Lists(ds, flags[0]) then Letter(flags[0], NoArgument) else Bad(flags[0])] + SaidFlags(flags[1..], ds)
  }

  function SaidLast(last: Last): seq<Outcome> {
    match last
    case NoLast => []
    case Attached(c, value) => [Letter(c, Given(value))]
    case Apart(c, value) => [Letter(c, Given(value))]
    case Bare(c) => [Letter(c, NoArgument)]
    case Lacking(c) => [Missing(c)]
  }

  function SaidLong(index: nat, value: Value): LongResult {
    match value
    case NoValue => Chosen(index, NoArgument)
    case Equals(v) => Chosen(index, Given(v))
    case Behind(v) => Chosen(index, Given(v))
    case Unwanted(_) => UnwantedArgument(index)
    case LacksValue => LacksArgument(index)
  }

  function SaidAll(es: seq<Element>, ds: seq<Declared>): seq<Outcome> {
    if es == [] then [] else Said(es[0], ds) + SaidAll(es[1..], ds)
  }

  function RolesOf(e: Element): seq<Role> {
    match e
    case Cluster(_, Apart(_, _)) => [Opt, Arg]
    case Cluster(_, _) => [Opt]
    case Named(_, _, value) => if value.Behind? then [Opt, Arg] else [Opt]
    case Unnamed(_, _) => [Opt]
    case Word(_) => [Operand]
  }

  function AllRoles(es: seq<Element>): seq<Role> {
    if es == [] then [] else RolesOf(es[0]) + AllRoles(es[1..])
  }

  // ---------- Reading them back ----------

  // No long options, or some that need two dashes and are not named by -W.
  ghost predicate Plain(ds: seq<Declared>, table: Table) {
    && Letters(ds)
    && (table.Table? ==> !table.longOnly && forall i | 0 <= i < |ds| :: ds[i].letter != ';')
  }

  // The table of these long options; getopt itself has none.
  ghost predicate TableFor(table: Table, longs: seq<Longs.LongOption>) {
    if table.NoTable? then longs == [] else forall text, shortToo :: table.answer(text, shortToo) == Longs.AnswerOf(longs, text, shortToo)
  }

  function Prefixed(roles: seq<Role>, outcomes: seq<Outcome>, r: Reading): Reading {
    Reading(roles + r.roles, outcomes + r.outcomes, r.cut)
  }

  // A letter of a cluster is not a long option.
  lemma JustLetter(c: char, more: string, rest: seq<string>, ds: seq<Declared>, table: Table)
    requires Plain(ds, table) && rest != [] && c != '-'
    ensures Letters(ds)
    ensures var options, place := OptionString(ds), [c] + more;
      && ReadCluster(place, rest, options, table) == ReadLetter(place, rest, options, table)
      && (table.Table? && c in options ==> CharAt(options, IndexOf(options, c) + 1) != ';')
  {
    if table.Table? {
      NoChar(ds, ';');
    }
  }

  lemma OneFlag(c: char, more: string, rest: seq<string>, ds: seq<Declared>, table: Table)
    requires Plain(ds, table) && rest != [] && c != ':' && c != '-' && (Lists(ds, c) ==> TakesOf(ds, c).Nothing?)
    ensures var options := OptionString(ds);
      ReadCluster([c] + more, rest, options, table) ==
        Then(if Lists(ds, c) then Letter(c, NoArgument) else Bad(c), ReadCluster(more, rest, options, table))
  {
    hide OptionString, ReadCluster, IndexOf, Plain, CharAt, ReadBehind, LongWRoles, PassRoles;
    JustLetter(c, more, rest, ds, table);
    Found(ds, c);
    var place := [c] + more;
    assert place[0] == c && place[1..] == more && place != "-";
    if Lists(ds, c) {
      assert CharAt(OptionString(ds), IndexOf(OptionString(ds), c) + 1) != ':';
    }
  }

  // Where the value is, and what is passed over for it.
  predicate StandsFirst(last: Last, rest: seq<string>) {
    && rest != [] && (last.Apart? ==> |rest| > 1 && rest[1] == last.value) && (last.Lacking? ==> |rest| == 1)
  }

  lemma BehindIs(roles: seq<Role>, rest: seq<string>, options: string, table: Table)
    requires 0 < |roles| <= |rest|
    ensures ReadBehind(roles, rest, options, table) == Ahead(roles, ReadAll(rest[|roles|..], options, table))
  {
    hide ReadAll;
  }

  lemma LastLetter(last: Last, rest: seq<string>, ds: seq<Declared>, table: Table)
    requires Plain(ds, table) && StandsFirst(last, rest) && LastFits(last, ds)
    ensures var options, roles := OptionString(ds), RolesOf(Cluster("", last));
      |roles| <= |rest|
      && ReadCluster(LastText(last), rest, options, table) == Prefixed(roles, SaidLast(last), ReadAll(rest[|roles|..], options, table))
  {
    hide OptionString, ReadCluster, ReadAll, ReadLetter, ReadBehind, LetterOutcome, IndexOf, Plain, CharAt, LongWRoles;
    var options, c := OptionString(ds), last.letter;
    var more := if last.Attached? then last.value else "";
    ListedLetter(ds, c, table);
    JustLetter(c, more, rest, ds, table);
    Found(ds, c);
    var place := [c] + more;
    assert LastText(last) == place && place[1..] == more && IsLetter(place, options);
    ReadListed(place, rest, options, table);
    OutcomeListed(place, rest, options, table);
    var takesNext := more == "" && CharAt(options, IndexOf(options, c) + 2) != ':';
    BehindIs(PassRoles(rest, takesNext), rest, options, table);
    assert PassRoles(rest, takesNext) == RolesOf(Cluster("", last));
  }

  lemma {:induction false} ListedLetter(ds: seq<Declared>, c: char, table: Table)
    requires Plain(ds, table) && Lists(ds, c)
    ensures c != ':' && c != '-'
  {
    if ds[0].letter != c {
      ListedLetter(ds[1..], c, table);
    }
  }

  // The flags in front, one after the other.
  lemma {:induction false} FlagsRead(flags: string, more: string, rest: seq<string>, ds: seq<Declared>, table: Table)
    requires Plain(ds, table) && rest != []
    requires FlagsFit(flags, ds)
    ensures var options := OptionString(ds);
      ReadCluster(flags + more, rest, options, table) == Prefixed([], SaidFlags(flags, ds), ReadCluster(more, rest, options, table))
  {
    hide ReadCluster, OptionString, Plain;
    var r := ReadCluster(more, rest, OptionString(ds), table);
    if flags == "" {
      assert flags + more == more && [] + r.roles == r.roles && [] + r.outcomes == r.outcomes;
    } else {
      FlagsRead(flags[1..], more, rest, ds, table);
      assert flags + more == [flags[0]] + (flags[1..] + more);
      OneFlag(flags[0], flags[1..] + more, rest, ds, table);
      Concat([SaidFlags(flags, ds)[0]], SaidFlags(flags[1..], ds), r.outcomes);
    }
  }

  // One cluster, with the value behind it if that is apart.
  lemma ClusterRead(flags: string, last: Last, rest: seq<string>, ds: seq<Declared>, table: Table)
    requires Plain(ds, table) && StandsFirst(last, rest) && FlagsFit(flags, ds) && (last.NoLast? || LastFits(last, ds))
    ensures var options, e := OptionString(ds), Cluster(flags, last);
      |RolesOf(e)| <= |rest|
      && ReadCluster(flags + LastText(last), rest, options, table) ==
           Prefixed(RolesOf(e), Said(e, ds), ReadAll(rest[|RolesOf(e)|..], options, table))
  {
    hide ReadCluster, ReadAll, OptionString, Plain, SaidFlags;
    FlagsRead(flags, LastText(last), rest, ds, table);
    if last.NoLast? {
      assert ReadCluster("", rest, OptionString(ds), table) == Ahead([Opt], ReadAll(rest[1..], OptionString(ds), table)) by {
        EmptyCluster(rest, OptionString(ds), table);
      }
      assert SaidFlags(flags, ds) + [] == SaidFlags(flags, ds);
    } else {
      LastLetter(last, rest, ds, table);
      var r := ReadAll(rest[|RolesOf(Cluster("", last))|..], OptionString(ds), table);
      Concat(SaidFlags(flags, ds), SaidLast(last), r.outcomes);
    }
  }

  lemma EmptyCluster(rest: seq<string>, options: string, table: Table)
    requires rest != []
    ensures ReadCluster("", rest, options, table) == Ahead([Opt], ReadAll(rest[1..], options, table))
  {
    hide ReadAll, ReadLetter;
  }

  // A named option, with the value behind it if that is apart, or a wrong name.
  lemma NamedRead(e: Element, more: seq<string>, ds: seq<Declared>, longs: seq<Longs.LongOption>, table: Table)
    requires TableFor(table, longs) && Permitted(e, ds, longs) && (e.Named? || e.Unnamed?) && (Lacks(e) ==> more == [])
    ensures var options, rest := OptionString(ds), Text(e) + more;
      ReadAll(rest, options, table) == Prefixed(RolesOf(e), Said(e, ds), ReadAll(more, options, table))
  {
    hide ReadAll, ReadCluster, ReadBehind, OptionString, Longs.Finds, Longs.AnswerOf, Text, IsOperand, LongText, ShortToo;
    var options, rest := OptionString(ds), Text(e) + more;
    var text := if e.Named? then NamedText(e.name, e.value) else e.text;
    NamedShape(e, text, more, options);
    ReadAllStep(rest, options, table);
    if e.Named? {
      NamedAnswer(e, text, ds, longs);
      InTable(longs, e.name, e.index);
    } else {
      UnnamedAnswer(text, e.several, longs);
    }
    DashRead("-" + text, rest, options, table);
    var roles := RolesOf(e);
    assert ReadBehind(roles, rest, options, table) == Ahead(roles, ReadAll(more, options, table)) by {
      BehindIs(roles, rest, options, table);
    }
  }

  lemma NamedShape(e: Element, text: string, more: seq<string>, options: string)
    requires (e.Named? && e.name != "" && text == NamedText(e.name, e.value)) || (e.Unnamed? && e.text != "" && text == e.text)
    ensures var rest, place := Text(e) + more, "-" + text;
      && rest != [] && rest[0][1..] == place && |place| > 1 && rest[0] != "--" && rest[0] != "-" && !IsOperand(rest[0], options)
      && LongText(place) == text && !ShortToo(place, options)
      && rest[|RolesOf(e)|..] == more && rest[1..] == if e.Named? && e.value.Behind? then [e.value.value] + more else more
  {
    assert (Text(e) + more)[0] == "--" + text && text != "";
    assert ("--" + text)[1..] == "-" + text && ("-" + text)[1..] == text;
  }

  // What the table says of it.
  lemma NamedAnswer(e: Element, text: string, ds: seq<Declared>, longs: seq<Longs.LongOption>)
    requires e.Named? && Permitted(e, ds, longs) && text == NamedText(e.name, e.value)
    ensures Longs.AnswerOf(longs, text, false) ==
      if e.value.Behind? || e.value.LacksValue? then Match(true, Chosen(e.index, NoArgument))
      else Match(false, SaidLong(e.index, e.value))
  {
    hide Longs.Finds;
    var name := e.name;
    assert text[..|name|] == name;
    FindIs(text, '=', |name|);
    InTable(longs, name, e.index);
    Longs.FindsOne(longs, name, false, Longs.Known(e.index), Longs.FoundOf(longs, name, false));
    if e.value.Equals? {
      assert text[|name| + 1..] == e.value.value;
    }
  }

  lemma UnnamedAnswer(text: string, several: bool, longs: seq<Longs.LongOption>)
    requires Longs.Finds(longs, Longs.NameOf(text), false, if several then Longs.Ambiguous else Longs.Unknown)
    ensures Longs.AnswerOf(longs, text, false) == if several then Match(false, AmbiguousName) else NoMatch
  {
    hide Longs.Finds;
    var f := if several then Longs.Ambiguous else Longs.Unknown;
    Longs.FindsOne(longs, Longs.NameOf(text), false, f, Longs.FoundOf(longs, Longs.NameOf(text), false));
  }

  lemma InTable(longs: seq<Longs.LongOption>, name: string, index: nat)
    requires Longs.Finds(longs, name, false, Longs.Known(index))
    ensures index < |longs|
  {
  }

  lemma DashRead(place: string, rest: seq<string>, options: string, table: Table)
    requires rest != [] && |place| > 1 && place[0] == '-' && table.Table? && rest[0] != "-"
    ensures var answer := table.answer(LongText(place), ShortToo(place, options));
      ReadCluster(place, rest, options, table) ==
        Then(LongOutcome(answer, rest[1..]), ReadBehind(PassRoles(rest, NextTaken(answer)), rest, options, table))
  {
    hide ReadLetter, ReadBehind, LongOutcome;
  }

  // One element, whatever follows.
  lemma ElementRead(e: Element, more: seq<string>, ds: seq<Declared>, longs: seq<Longs.LongOption>, table: Table)
    requires Plain(ds, table) && TableFor(table, longs) && Permitted(e, ds, longs)
    requires Lacks(e) ==> more == []
    ensures ReadAll(Text(e) + more, OptionString(ds), table) ==
      Prefixed(RolesOf(e), Said(e, ds), ReadAll(more, OptionString(ds), table))
  {
    hide ReadCluster, ReadAll, OptionString, Plain, SaidFlags;
    var options, rest := OptionString(ds), Text(e) + more;
    ReadAllStep(rest, options, table);
    if e.Word? {
      assert '-' !in options by { NoDashes(ds, table); }
      assert rest[1..] == more;
      assert [] + ReadAll(more, options, table).outcomes == ReadAll(more, options, table).outcomes;
    } else if e.Named? || e.Unnamed? {
      NamedRead(e, more, ds, longs, table);
    } else {
      ClusterLooks(e.flags, e.last, ds, table);
      assert rest[0] == "-" + e.flags + LastText(e.last) && rest[0][1..] == e.flags + LastText(e.last);
      ClusterRead(e.flags, e.last, rest, ds, table);
      assert rest[|RolesOf(e)|..] == more;
    }
  }

  lemma NoDashes(ds: seq<Declared>, table: Table)
    requires Plain(ds, table)
    ensures '-' !in OptionString(ds)
  {
    NoChar(ds, '-');
  }

  // A cluster looks like an option, and not like "-" or "--".
  lemma ClusterLooks(flags: string, last: Last, ds: seq<Declared>, table: Table)
    requires Plain(ds, table) && (flags != "" || !last.NoLast?) && FlagsFit(flags, ds) && (last.NoLast? || LastFits(last, ds))
    ensures var text := "-" + flags + LastText(last);
      text[0] == '-' && |text| > 1 && text != "-" && text != "--" && !IsOperand(text, OptionString(ds))
  {
    hide OptionString, Plain;
    var text := "-" + flags + LastText(last);
    assert text[1] != '-' by {
      if flags == "" {
        assert text[1] == last.letter;
        ListedLetter(ds, last.letter, table);
      } else {
        assert text[1] == flags[0];
      }
    }
  }

  // Any list of elements is read back: every letter with its value, in order, and every element as what it is.
  lemma {:induction false} PrintedRead(es: seq<Element>, ending: seq<string>, ds: seq<Declared>, longs: seq<Longs.LongOption>,
                                       table: Table)
    requires Plain(ds, table) && TableFor(table, longs) && Written(es, ending, ds, longs)
    ensures ReadAll(Texts(es) + ending, OptionString(ds), table) ==
      Reading(AllRoles(es) + (if ending == [] then [] else [Opt]), SaidAll(es, ds), false)
  {
    hide ReadAll, OptionString, Plain, TableFor, Text, RolesOf, Said, Permitted;
    if es == [] {
      assert [] + ending == ending;
      ReadAllStep(ending, OptionString(ds), table);
      NoOperand(ending, OptionString(ds));
    } else {
      var more := Texts(es[1..]) + ending;
      PrintedRead(es[1..], ending, ds, longs, table);
      Concat(Text(es[0]), Texts(es[1..]), ending);
      if Lacks(es[0]) {
        assert es[1..] == [] && more == [];
      }
      ElementRead(es[0], more, ds, longs, table);
      Concat(RolesOf(es[0]), AllRoles(es[1..]), if ending == [] then [] else [Opt]);
    }
  }

  lemma NoOperand(ending: seq<string>, options: string)
    requires ending != [] ==> ending[0] == "--"
    ensures ending != [] ==> !IsOperand(ending[0], options)
  {
  }

  // Every letter can be written with every value it may have: none, any for one that must have a value, and any but
  // the empty one for one that need not.
  lemma Writable(c: char, argument: Argument, ds: seq<Declared>, table: Table) returns (e: Element)
    requires Plain(ds, table) && Lists(ds, c)
    requires match TakesOf(ds, c)
      case Nothing => argument.NoArgument?
      case Required => argument.Given?
      case Optional => argument != Given("")
    ensures e.Cluster? && Permitted(e, ds, []) && Said(e, ds) == [Letter(c, argument)] && !e.last.Lacking?
  {
    ListedLetter(ds, c, table);
    e := match TakesOf(ds, c)
      case Nothing => Cluster([c], NoLast)
      case Required => Cluster("", Apart(c, argument.value))
      case Optional => Cluster("", if argument.NoArgument? then Bare(c) else Attached(c, argument.value));
    if TakesOf(ds, c).Nothing? {
      assert SaidFlags([c], ds) == [Letter(c, NoArgument)] + SaidFlags([c][1..], ds);
    }
  }

  // ---------- Where the operands end up ----------

  function Words(es: seq<Element>): seq<string> {
    if es == [] then [] else (if es[0].Word? then [es[0].text] else []) + Words(es[1..])
  }

  function OptionTexts(es: seq<Element>): seq<string> {
    if es == [] then [] else (if es[0].Word? then [] else Text(es[0])) + OptionTexts(es[1..])
  }

  lemma {:induction false} PickedConcat(s: seq<string>, roles: seq<Role>, t: seq<string>, more: seq<Role>)
    requires |s| == |roles| && |t| == |more|
    ensures Picked(s + t, roles + more, true) == Picked(s, roles, true) + Picked(t, more, true)
    ensures Picked(s + t, roles + more, false) == Picked(s, roles, false) + Picked(t, more, false)
  {
    hide Picked;
    if t == [] {
      PickedNone();
      assert s + t == s && roles + more == roles;
    } else {
      var n := |t| - 1;
      PickedConcat(s, roles, t[..n], more[..n]);
      assert t == t[..n] + [t[n]] && more == more[..n] + [more[n]];
      assert s + t == (s + t[..n]) + [t[n]] && roles + more == (roles + more[..n]) + [more[n]];
      PickedMore(s + t[..n], roles + more[..n], t[n], more[n]);
      PickedMore(t[..n], more[..n], t[n], more[n]);
    }
  }

  lemma PickedNone()
    ensures Picked([], [], true) == [] && Picked([], [], false) == []
  {
  }

  lemma PickedOne(e: Element)
    ensures |Text(e)| == |RolesOf(e)|
    ensures Picked(Text(e), RolesOf(e), true) == if e.Word? then [e.text] else []
    ensures Picked(Text(e), RolesOf(e), false) == if e.Word? then [] else Text(e)
  {
    hide Picked;
    var s, roles := Text(e), RolesOf(e);
    PickedNone();
    PickedMore([], [], s[0], roles[0]);
    assert [] + [s[0]] == [s[0]] && [] + [roles[0]] == [roles[0]];
    if |s| == 2 {
      PickedMore([s[0]], [roles[0]], s[1], roles[1]);
      assert s == [s[0]] + [s[1]] && roles == [roles[0]] + [roles[1]];
    } else {
      assert s == [s[0]] && roles == [roles[0]];
    }
  }

  lemma {:induction false} PickedElements(es: seq<Element>)
    ensures |Texts(es)| == |AllRoles(es)|
    ensures Picked(Texts(es), AllRoles(es), true) == Words(es)
    ensures Picked(Texts(es), AllRoles(es), false) == OptionTexts(es)
  {
    hide Picked, Text, RolesOf;
    if es == [] {
      PickedNone();
    } else {
      PickedOne(es[0]);
      PickedElements(es[1..]);
      PickedConcat(Text(es[0]), RolesOf(es[0]), Texts(es[1..]), AllRoles(es[1..]));
    }
  }

  // A caller that takes all options, from a fresh start: what it gets is what was written, letter by letter, and the
  // vector has all options with their values in front and all operands behind them, both in order.
  method TakeAll(scanner: ArgScanner, table: Table, ghost es: seq<Element>, ghost ending: seq<string>,
                 ghost ds: seq<Declared>, ghost longs: seq<Longs.LongOption>)
    returns (outcomes: seq<Outcome>)
    requires scanner.Valid() && scanner.mode.Permute? && scanner.roles == [] && scanner.place == ""
    requires Plain(ds, table) && TableFor(table, longs) && Written(es, ending, ds, longs)
    requires scanner.options == OptionString(ds) && scanner.argv[scanner.optind..] == Texts(es) + ending
    modifies scanner, scanner.argv
    ensures scanner.Valid() && outcomes == SaidAll(es, ds)
    ensures var taken := OptionTexts(es) + if ending == [] then [] else ["--"];
      && scanner.argv[..] == old(scanner.argv[..scanner.optind]) + taken + Words(es) + (if ending == [] then [] else ending[1..])
      && scanner.optind == old(scanner.optind) + |taken|
  {
    hide ReadAll, Partitioned, Complete, Plain, TableFor, OptionString, Texts, Words, OptionTexts, SaidAll, AllRoles, Layout, Picked;
    ghost var was, at := scanner.argv[..], scanner.optind;
    PrintedRead(es, ending, ds, longs, table);
    PickedNone();
    FreshLayout(was, scanner.orig, at);
    var r;
    ghost var seen;
    r, outcomes, seen := scanner.ScanAll(table);
    InPlace(was, at, seen, es, ending, ds, scanner.options, scanner.argv[..], scanner.optind);
  }

  lemma FreshLayout(argv: seq<string>, orig: seq<string>, first: nat)
    ensures Layout(argv, orig, first, [], [], 0) ==> argv == orig
  {
  }

  lemma InPlace(orig: seq<string>, first: nat, roles: seq<Role>, es: seq<Element>, ending: seq<string>, ds: seq<Declared>,
                options: string, now: seq<string>, optind: nat)
    requires first <= |orig| && orig[first..] == Texts(es) + ending && (ending != [] ==> ending[0] == "--")
    requires roles == AllRoles(es) + if ending == [] then [] else [Opt]
    requires Partitioned(orig, first, roles, options, now, optind)
    ensures var taken := OptionTexts(es) + if ending == [] then [] else ["--"];
      && now == orig[..first] + taken + Words(es) + (if ending == [] then [] else ending[1..])
      && optind == first + |taken|
  {
    hide Texts, AllRoles, Words, OptionTexts, RolesFit, Picked;
    PickedElements(es);
    PickedNone();
    PickedMore(Texts(es), AllRoles(es), "--", Opt);
    var seen, n := orig[first..first + |roles|], |Texts(es)|;
    assert orig[first..][..|roles|] == seen && orig[first..][|roles|..] == orig[first + |roles|..];
    if ending == [] {
      assert seen == Texts(es) && roles == AllRoles(es) && orig[first + |roles|..] == [];
      assert OptionTexts(es) + [] == OptionTexts(es);
    } else {
      assert (Texts(es) + ending)[..n + 1] == Texts(es) + ["--"] && (Texts(es) + ending)[n + 1..] == ending[1..];
    }
  }
}
