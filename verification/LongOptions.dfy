/** parse_long_options of win_getopt.h: which long option a text stands for, in full or by an abbreviation. */
module LongOptions {
  import opened Getopt
  import opened Sequences

  datatype HasArg = NoArg | RequiredArg | OptionalArg

  // struct option; `flag` tells the addresses of the flags apart.
  datatype LongOption = LongOption(name: string, hasArg: HasArg, flag: int, val: int)

  // IDENTICAL_INTERPRETATION
  predicate Identical(o: LongOption, o2: LongOption) {
    o.hasArg == o2.hasArg && o.flag == o2.flag && o.val == o2.val
  }

  // What stands before an '='.
  function NameOf(text: string): string {
    text[..Find(text, '=')]
  }

  predicate HasEqual(text: string) {
    Find(text, '=') < |text|
  }

  // An abbreviation of the option; a single letter that could be a short option is none.
  predicate Abbreviates(name: string, o: LongOption, shortToo: bool) {
    StartsWith(o.name, name) && !(shortToo && |name| == 1)
  }

  datatype Found = Unknown | Ambiguous | Known(index: nat)

  predicate NoneExact(longs: seq<LongOption>, name: string) {
    forall i | 0 <= i < |longs| :: longs[i].name != name
  }

  predicate NoneAbbreviated(longs: seq<LongOption>, name: string, shortToo: bool) {
    forall i | 0 <= i < |longs| :: !Abbreviates(name, longs[i], shortToo)
  }

  // All options the name abbreviates mean the same as this one.
  predicate AllLike(longs: seq<LongOption>, name: string, shortToo: bool, o: LongOption) {
    forall i | 0 <= i < |longs| :: Abbreviates(name, longs[i], shortToo) ==> Identical(longs[i], o)
  }

  // The first option with the name in full, if there is one. Otherwise the first that it abbreviates, if all those
  // mean the same.
  ghost predicate Finds(longs: seq<LongOption>, name: string, shortToo: bool, f: Found) {
    match f
    case Known(i) =>
      && i < |longs|
      && (|| (longs[i].name == name && NoneExact(longs[..i], name))
          || (&& NoneExact(longs, name) && Abbreviates(name, longs[i], shortToo)
              && NoneAbbreviated(longs[..i], name, shortToo) && AllLike(longs, name, shortToo, longs[i])))
    case Ambiguous =>
      && NoneExact(longs, name)
      && exists i, j | 0 <= i < j < |longs| ::
           && Abbreviates(name, longs[i], shortToo) && Abbreviates(name, longs[j], shortToo)
           && NoneAbbreviated(longs[..i], name, shortToo) && !Identical(longs[j], longs[i])
    case Unknown => NoneExact(longs, name) && NoneAbbreviated(longs, name, shortToo)
  }

  // There is only one answer.
  lemma FindsOne(longs: seq<LongOption>, name: string, shortToo: bool, f: Found, f2: Found)
    requires Finds(longs, name, shortToo, f) && Finds(longs, name, shortToo, f2)
    ensures f == f2
  {
    hide Abbreviates, Identical;
  }

  function FirstExact(longs: seq<LongOption>, name: string): (i: nat)
    ensures i <= |longs| && NoneExact(longs[..i], name) && (i < |longs| ==> longs[i].name == name)
  {
    if longs == [] || longs[0].name == name then 0 else FirstExact(longs[1..], name) + 1
  }

  function FirstAbbreviated(longs: seq<LongOption>, name: string, shortToo: bool): (i: nat)
    ensures i <= |longs| && NoneAbbreviated(longs[..i], name, shortToo)
    ensures i < |longs| ==> Abbreviates(name, longs[i], shortToo)
  {
    if longs == [] || Abbreviates(name, longs[0], shortToo) then 0 else FirstAbbreviated(longs[1..], name, shortToo) + 1
  }

  function FoundOf(longs: seq<LongOption>, name: string, shortToo: bool): (f: Found)
    ensures Finds(longs, name, shortToo, f)
  {
    hide Abbreviates, Identical;
    var e, i := FirstExact(longs, name), FirstAbbreviated(longs, name, shortToo);
    assert longs[..|longs|] == longs;
    if e < |longs| then Known(e)
    else if i == |longs| then Unknown
    else if AllLike(longs, name, shortToo, longs[i]) then Known(i)
    else
      Unlike(longs, name, shortToo, i);
      Ambiguous
  }

  lemma Unlike(longs: seq<LongOption>, name: string, shortToo: bool, i: nat)
    requires i < |longs| && NoneExact(longs, name) && Abbreviates(name, longs[i], shortToo)
    requires NoneAbbreviated(longs[..i], name, shortToo) && !AllLike(longs, name, shortToo, longs[i])
    ensures Finds(longs, name, shortToo, Ambiguous)
  {
    hide Abbreviates;
    var j :| 0 <= j < |longs| && Abbreviates(name, longs[j], shortToo) && !Identical(longs[j], longs[i]);
  }

  // What the scan learns of it: no match; or which option it is and its argument, which is behind an '=' or, for an
  // option that must have one, in the next element; or that the name or the argument is wrong.
  function AnswerOf(longs: seq<LongOption>, text: string, shortToo: bool): LongAnswer {
    match FoundOf(longs, NameOf(text), shortToo)
    case Unknown => NoMatch
    case Ambiguous => Match(false, AmbiguousName)
    case Known(i) =>
      if longs[i].hasArg.NoArg? && HasEqual(text) then Match(false, UnwantedArgument(i))
      else if HasEqual(text) then Match(false, Chosen(i, Given(text[Find(text, '=') + 1..])))
      else Match(longs[i].hasArg.RequiredArg?, Chosen(i, NoArgument))
  }

  // The table that getopt_long and getopt_long_only hand to the scan.
  function TableOf(longs: seq<LongOption>, longOnly: bool): Table {
    Table(longOnly, (text, shortToo) => AnswerOf(longs, text, shortToo))
  }

  // The search for '='.
  method SplitAtEqual(text: string) returns (length: nat)
    ensures length == Find(text, '=')
  {
    length := 0;
    while length < |text| && text[length] != '='
      invariant length <= |text| && '=' !in text[..length]
    {
      length := length + 1;
    }
    FindIs(text, '=', length);
  }

  // parse_long_options: one pass, which a name in full ends.
  method ParseLongOptions(longs: seq<LongOption>, text: string, shortToo: bool) returns (f: Found, answer: LongAnswer)
    ensures f == FoundOf(longs, NameOf(text), shortToo) && answer == AnswerOf(longs, text, shortToo)
  {
    hide Abbreviates, Identical, FoundOf;
    var length := SplitAtEqual(text);
    var name := text[..length];
    var first, ambiguous := -1, false;
    var i := 0;
    while i < |longs|
      invariant i <= |longs| && NoneExact(longs[..i], name)
      invariant -1 <= first < i && (first == -1 ==> !ambiguous && NoneAbbreviated(longs[..i], name, shortToo))
      invariant first != -1 ==> Abbreviates(name, longs[first], shortToo) && NoneAbbreviated(longs[..first], name, shortToo)
      invariant first != -1 && !ambiguous ==> AllLike(longs[..i], name, shortToo, longs[first])
      invariant ambiguous ==> exists j | first < j < i :: Abbreviates(name, longs[j], shortToo) && !Identical(longs[j], longs[first])
    {
      if longs[i].name == name {
        first, ambiguous := i, false;
        break;
      }
      if Abbreviates(name, longs[i], shortToo) {
        if first == -1 {
          first := i;
          Same(longs[i]);
        } else if !Identical(longs[i], longs[first]) {
          ambiguous := true;
        }
      }
      i := i + 1;
    }
    assert longs[..|longs|] == longs;
    f := if ambiguous then Ambiguous else if first == -1 then Unknown else Known(first);
    assert Finds(longs, name, shortToo, f);
    FindsOne(longs, name, shortToo, f, FoundOf(longs, name, shortToo));
    if ambiguous {
      answer := Match(false, AmbiguousName);
    } else if first == -1 {
      answer := NoMatch;
    } else if longs[first].hasArg.NoArg? && length < |text| {
      answer := Match(false, UnwantedArgument(first));
    } else if length < |text| {
      answer := Match(false, Chosen(first, Given(text[length + 1..])));
    } else {
      answer := Match(longs[first].hasArg.RequiredArg?, Chosen(first, NoArgument));
    }
  }

  lemma Same(o: LongOption)
    ensures Identical(o, o)
  {
  }

  // A name in full is found whatever it abbreviates, with an argument behind an '=' or without.
  lemma FullNames(longs: seq<LongOption>, i: nat, argument: string, shortToo: bool)
    requires i < |longs| && NoneExact(longs[..i], longs[i].name) && '=' !in longs[i].name
    ensures FoundOf(longs, NameOf(longs[i].name), shortToo) == Known(i)
    ensures FoundOf(longs, NameOf(longs[i].name + "=" + argument), shortToo) == Known(i)
  {
    var name := longs[i].name;
    var s := name + "=" + argument;
    assert name[..|name|] == name && s[..|name|] == name;
    FindIs(name, '=', |name|);
    FindIs(s, '=', |name|);
    FindsOne(longs, name, shortToo, Known(i), FoundOf(longs, name, shortToo));
  }

  // A true abbreviation is found exactly if all options it abbreviates mean the same.
  lemma Abbreviations(longs: seq<LongOption>, name: string, shortToo: bool)
    requires NoneExact(longs, name) && !NoneAbbreviated(longs, name, shortToo)
    ensures FoundOf(longs, name, shortToo).Known? <==>
      forall i, j | 0 <= i < j < |longs| && Abbreviates(name, longs[i], shortToo) && Abbreviates(name, longs[j], shortToo) ::
        Identical(longs[i], longs[j])
  {
    hide Abbreviates;
    var f := FoundOf(longs, name, shortToo);
    assert !f.Unknown?;
  }

  // getopt_long and getopt_long_only, called until they are done: the elements and the table say what becomes of
  // each, all of them are looked at up to the first "--" that is an option, and no cluster cuts the scan short.
  method ScanLong(scanner: ArgScanner, longs: seq<LongOption>, longOnly: bool)
    returns (outcomes: seq<Outcome>, ghost seen: seq<Role>)
    requires scanner.Valid() && scanner.mode.Permute? && scanner.roles == [] && scanner.place == ""
    modifies scanner, scanner.argv
    ensures scanner.Valid()
    ensures ReadAll(old(scanner.argv[scanner.optind..]), scanner.options, TableOf(longs, longOnly)) == Reading(seen, outcomes, false)
    ensures Complete(old(scanner.argv[scanner.optind..]), seen)
    ensures Partitioned(old(scanner.orig), old(scanner.first), seen, scanner.options, scanner.argv[..], scanner.optind)
  {
    hide ReadAll, Complete, Partitioned, AnswerOf;
    ghost var rest := scanner.argv[scanner.optind..];
    var table := TableOf(longs, longOnly);
    if CutShort(rest, scanner.options, table) {
      CutShortNeeds(rest, scanner.options, table);
    }
    var r;
    r, outcomes, seen := scanner.ScanAll(table);
  }
}
