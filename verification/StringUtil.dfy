/** split and replace of StringUtil.cpp, over bytes. */
module StringUtil {
  import opened Sequences

  type Byte = b: nat | b < 256
  type Text = seq<Byte>

  // string.find from a position on.
  method FindFrom(s: Text, c: Byte, pos: nat) returns (i: nat)
    requires pos <= |s|
    ensures i == pos + Find(s[pos..], c)
  {
    i := pos;
    while i < |s| && s[i] != c
      invariant pos <= i <= |s| && c !in s[pos..i]
    {
      i := i + 1;
    }
    assert s[pos..][..i - pos] == s[pos..i];
    FindIs(s[pos..], c, i - pos);
  }

  // ---------- split ----------

  // The pieces of a text that is split even if it is empty.
  function Pieces(s: Text, c: Byte): (ps: seq<Text>)
    ensures |ps| > 0
    decreases |s|
  {
    var i := Find(s, c);
    if i == |s| then [s] else [s[..i]] + Pieces(s[i + 1..], c)
  }

  // An empty text has no pieces.
  function Split(s: Text, c: Byte): seq<Text> {
    if s == [] then [] else Pieces(s, c)
  }

  function Join(ps: seq<Text>, c: Byte): Text {
    if ps == [] then [] else if |ps| == 1 then ps[0] else ps[0] + [c] + Join(ps[1..], c)
  }

  method SplitText(input: Text, splitChar: Byte) returns (result: seq<Text>)
    ensures result == Split(input, splitChar)
  {
    if input == [] {
      return [];
    }
    hide Find, Pieces;
    result := [];
    var pos: nat := 0;
    var newPos := FindFrom(input, splitChar, pos);
    assert input[0..] == input && [] + Pieces(input, splitChar) == Pieces(input, splitChar);
    while newPos < |input|
      invariant pos <= newPos <= |input| && newPos == pos + Find(input[pos..], splitChar)
      invariant result + Pieces(input[pos..], splitChar) == Pieces(input, splitChar)
      decreases |input| - pos
    {
      var piece := input[pos..newPos];
      NextPiece(input, splitChar, pos);
      Concat(result, [piece], Pieces(input[newPos + 1..], splitChar));
      result := result + [piece];
      pos := newPos + 1;
      newPos := FindFrom(input, splitChar, pos);
    }
    NextPiece(input, splitChar, pos);
    result := result + [input[pos..]];
  }

  lemma NextPiece(s: Text, c: Byte, pos: nat)
    requires pos <= |s|
    ensures var next := pos + Find(s[pos..], c);
      next <= |s| && Pieces(s[pos..], c) == if next == |s| then [s[pos..]] else [s[pos..next]] + Pieces(s[next + 1..], c)
  {
    var rest, i := s[pos..], Find(s[pos..], c);
    assert rest[..i] == s[pos..pos + i] && (i < |rest| ==> rest[i + 1..] == s[pos + i + 1..]);
  }

  predicate NoneHas(ps: seq<Text>, c: Byte) {
    forall p | p in ps :: c !in p
  }

  // Joining undoes splitting.
  lemma {:induction false} JoinPieces(s: Text, c: Byte)
    ensures Join(Pieces(s, c), c) == s && NoneHas(Pieces(s, c), c)
    decreases |s|
  {
    var i := Find(s, c);
    if i == |s| {
      assert s[..i] == s;
    } else {
      JoinPieces(s[i + 1..], c);
      assert s == s[..i] + [c] + s[i + 1..];
      assert ([s[..i]] + Pieces(s[i + 1..], c))[1..] == Pieces(s[i + 1..], c);
    }
  }

  // And splitting undoes joining, when no piece holds the separator.
  lemma {:induction false} PiecesJoin(ps: seq<Text>, c: Byte)
    requires ps != [] && NoneHas(ps, c)
    ensures Pieces(Join(ps, c), c) == ps
  {
    assert c !in ps[0];
    var s := Join(ps, c);
    if |ps| == 1 {
      assert s[..|s|] == s;
      FindIs(s, c, |s|);
      assert ps == [ps[0]];
    } else {
      assert s == ps[0] + ([c] + Join(ps[1..], c));
      assert s[..|ps[0]|] == ps[0] && s[|ps[0]|] == c && s[|ps[0]| + 1..] == Join(ps[1..], c);
      FindIs(s, c, |ps[0]|);
      PiecesJoin(ps[1..], c);
      assert ps == [ps[0]] + ps[1..];
    }
  }

  lemma {:induction false} JoinEmpty(ps: seq<Text>, c: Byte)
    ensures Join(ps, c) == [] <==> ps == [] || ps == [[]]
  {
    if |ps| >= 2 {
      assert |Join(ps, c)| >= 1;
    }
  }

  // With split it is the same except for one list: a single empty piece is lost.
  lemma SplitJoin(ps: seq<Text>, c: Byte)
    requires NoneHas(ps, c)
    ensures Split(Join(ps, c), c) == ps <==> ps != [[]]
    ensures ps == [[]] ==> Split(Join(ps, c), c) == []
  {
    hide Pieces, Join;
    JoinEmpty(ps, c);
    if ps != [] && ps != [[]] {
      PiecesJoin(ps, c);
    }
  }

  // ---------- replace ----------

  // One pass from left to right: what was put in is not looked at again.
  function Replaced(s: Text, find: Text, with: Text): Text
    requires find != []
    decreases |s|
  {
    if s == [] then []
    else if StartsWith(s, find) then with + Replaced(s[|find|..], find, with)
    else [s[0]] + Replaced(s[1..], find, with)
  }

  // string.find for a text.
  method FindTextFrom(s: Text, t: Text, pos: nat) returns (found: bool, i: nat)
    requires pos <= |s| && t != []
    ensures pos <= i <= |s| && (forall k | pos <= k < i :: !StartsWith(s[k..], t))
    ensures if found then StartsWith(s[i..], t) else i == |s|
  {
    i := pos;
    while i < |s|
      invariant pos <= i <= |s| && forall k | pos <= k < i :: !StartsWith(s[k..], t)
    {
      if i + |t| <= |s| && s[i..i + |t|] == t {
        assert s[i..][..|t|] == t;
        return true, i;
      }
      assert !StartsWith(s[i..], t) by {
        assert |t| <= |s[i..]| ==> s[i..][..|t|] == s[i..i + |t|];
      }
      i := i + 1;
    }
    found := false;
  }

  lemma {:induction false} SkipTo(a: Text, b: Text, find: Text, with: Text)
    requires find != [] && forall k | 0 <= k < |a| :: !StartsWith(a[k..] + b, find)
    ensures Replaced(a + b, find, with) == a + Replaced(b, find, with)
  {
    hide StartsWith;
    if a == [] {
      assert [] + b == b;
    } else {
      assert a[0..] == a && !StartsWith(a + b, find);
      forall k | 0 <= k < |a[1..]| ensures !StartsWith(a[1..][k..] + b, find) {
        assert a[1..][k..] == a[k + 1..];
      }
      SkipTo(a[1..], b, find, with);
      assert (a + b)[1..] == a[1..] + b && [a[0]] + a[1..] == a;
      Concat([a[0]], a[1..], Replaced(b, find, with));
    }
  }

  // replace: it ends, even when the replacement holds what is looked for, because each turn leaves less text
  // behind the position.
  method ReplaceText(s: Text, find: Text, with: Text) returns (text: Text)
    ensures text == if find == [] then s else Replaced(s, find, with)
  {
    text := s;
    if find == [] {
      return;
    }
    hide Replaced, StartsWith;
    var pos: nat := 0;
    assert text[..0] + Replaced(text[0..], find, with) == Replaced(s, find, with) by { Whole(text, find, with); }
    while true
      invariant pos <= |text| && text[..pos] + Replaced(text[pos..], find, with) == Replaced(s, find, with)
      decreases |text| - pos
    {
      var found, i := FindTextFrom(text, find, pos);
      if !found {
        LastTurn(text, pos, find, with);
        return;
      }
      Turn(text, pos, i, find, with);
      var rest := text[i + |find|..];
      text := text[..i] + with + rest;
      pos := i + |with|;
      assert text[pos..] == rest;
    }
  }

  // What one turn does when it finds something at i, and what is true when it does not.
  lemma Turn(text: Text, pos: nat, i: nat, find: Text, with: Text)
    requires find != [] && pos <= i <= |text| && (forall k | pos <= k < i :: !StartsWith(text[k..], find))
    requires StartsWith(text[i..], find)
    ensures i + |find| <= |text|
    ensures text[..pos] + Replaced(text[pos..], find, with) == text[..i] + with + Replaced(text[i + |find|..], find, with)
  {
    hide Replaced, StartsWith;
    var between, rest := text[pos..i], text[i..];
    Split3(text, pos, i);
    MatchFits(rest, find);
    assert rest[|find|..] == text[i + |find|..];
    forall k | 0 <= k < |between| ensures !StartsWith(between[k..] + rest, find) {
      assert between[k..] + rest == text[pos + k..];
    }
    OneReplaced(text[..pos], between, rest, find, with);
  }

  lemma LastTurn(text: Text, pos: nat, find: Text, with: Text)
    requires find != [] && pos <= |text| && (forall k | pos <= k < |text| :: !StartsWith(text[k..], find))
    ensures text[..pos] + Replaced(text[pos..], find, with) == text
  {
    hide Replaced, StartsWith;
    var between := text[pos..];
    forall k | 0 <= k < |between| ensures !StartsWith(between[k..] + [], find) {
      assert between[k..] + [] == text[pos + k..];
    }
    NoneReplaced(text[..pos], between, find, with);
  }

  lemma Split3(s: Text, pos: nat, i: nat)
    requires pos <= i <= |s|
    ensures s[pos..] == s[pos..i] + s[i..] && s[..pos] + s[pos..i] == s[..i] && s == s[..i] + s[i..]
  {
  }

  lemma MatchFits(s: Text, find: Text)
    requires StartsWith(s, find)
    ensures |find| <= |s|
  {
  }

  lemma Whole(s: Text, find: Text, with: Text)
    requires find != []
    ensures s[..0] + Replaced(s[0..], find, with) == Replaced(s, find, with)
  {
    assert s[0..] == s;
  }

  // The text before the position, up to the match, and from the match on.
  lemma OneReplaced(before: Text, between: Text, rest: Text, find: Text, with: Text)
    requires find != [] && StartsWith(rest, find) && forall k | 0 <= k < |between| :: !StartsWith(between[k..] + rest, find)
    ensures before + Replaced(between + rest, find, with)
         == before + between + with + Replaced(rest[|find|..], find, with)
  {
    hide Replaced, StartsWith;
    MatchFits(rest, find);
    var more := Replaced(rest[|find|..], find, with);
    SkipTo(between, rest, find, with);
    AtMatch(rest, find, with);
    ConcatAll(before, between, with, more);
  }

  lemma NoneReplaced(before: Text, between: Text, find: Text, with: Text)
    requires find != [] && forall k | 0 <= k < |between| :: !StartsWith(between[k..] + [], find)
    ensures before + Replaced(between, find, with) == before + between
  {
    hide Replaced, StartsWith;
    SkipTo(between, [], find, with);
    AtEnd(find, with);
    assert between + [] == between;
  }

  lemma AtMatch(s: Text, find: Text, with: Text)
    requires find != [] && StartsWith(s, find)
    ensures Replaced(s, find, with) == with + Replaced(s[|find|..], find, with)
  {
  }

  lemma AtEnd(find: Text, with: Text)
    requires find != []
    ensures Replaced([], find, with) == []
  {
  }
}
