/** Facts about sequences that several modules use. */
module Sequences {

  // Where an element first stands, or the length of the sequence.
  function Find<T(==)>(s: seq<T>, x: T): (i: nat)
    ensures i <= |s| && (i < |s| ==> s[i] == x) && x !in s[..i]
  {
    if s == [] || s[0] == x then 0 else Find(s[1..], x) + 1
  }

  lemma {:induction false} FindIs<T>(s: seq<T>, x: T, k: nat)
    requires k <= |s| && x !in s[..k] && (k < |s| ==> s[k] == x)
    ensures Find(s, x) == k
  {
    if k > 0 {
      assert s[0] in s[..k] && s[1..][..k - 1] == s[..k][1..];
      FindIs(s[1..], x, k - 1);
    }
  }

  lemma Concat<T>(a: seq<T>, b: seq<T>, c: seq<T>)
    ensures (a + b) + c == a + (b + c)
  {
  }

  lemma ConcatAll<T>(a: seq<T>, b: seq<T>, c: seq<T>, d: seq<T>)
    ensures a + (b + (c + d)) == a + b + c + d
  {
  }

  predicate StartsWith<T(==)>(s: seq<T>, t: seq<T>) {
    |t| <= |s| && s[..|t|] == t
  }

  // Pieces put together.
  function Joined<T>(pieces: seq<seq<T>>): seq<T> {
    if pieces == [] then [] else Joined(pieces[..|pieces| - 1]) + pieces[|pieces| - 1]
  }

  lemma JoinedAppend<T>(pieces: seq<seq<T>>, x: seq<T>)
    ensures Joined(pieces + [x]) == Joined(pieces) + x
  {
    assert (pieces + [x])[..|pieces|] == pieces;
  }

  lemma {:induction false} JoinedFirst<T>(pieces: seq<seq<T>>)
    requires pieces != []
    ensures Joined(pieces) == pieces[0] + Joined(pieces[1..])
  {
    var n := |pieces| - 1;
    if n > 0 {
      JoinedFirst(pieces[..n]);
      assert pieces[..n][1..] == pieces[1..][..n - 1];
      Concat(pieces[0], Joined(pieces[1..][..n - 1]), pieces[n]);
    }
  }

  lemma JoinedNext<T>(pieces: seq<seq<T>>, i: nat)
    requires i < |pieces|
    ensures Joined(pieces[..i + 1]) == Joined(pieces[..i]) + pieces[i]
  {
    assert pieces[..i + 1][..i] == pieces[..i];
  }

  lemma {:induction false} JoinedPrefix<T>(pieces: seq<seq<T>>, i: nat) returns (rest: seq<T>)
    requires i <= |pieces|
    ensures Joined(pieces) == Joined(pieces[..i]) + rest
    decreases |pieces| - i
  {
    if i == |pieces| {
      assert pieces[..i] == pieces;
      rest := [];
    } else {
      var more := JoinedPrefix(pieces, i + 1);
      JoinedNext(pieces, i);
      rest := pieces[i] + more;
      Concat(Joined(pieces[..i]), pieces[i], more);
    }
  }
}
