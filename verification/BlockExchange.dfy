/** permute_args of win_getopt.h: two adjacent blocks of an array exchanged in place, cycle by cycle. */
module BlockExchange {
  import opened Euclid

  // Two blocks of g * p and g * q elements, where p and q have no common factor: w * q + u * (p + q) == 1.
  datatype Blocks = Blocks(g: nat, p: nat, q: nat, w: int, u: int) {
    predicate Valid() {
      g > 0 && p > 0 && q > 0 && w * q + u * (p + q) == 1
    }

    // The length of a cycle.
    function Len(): nat {
      p + q
    }

    // Within cycle i, the step-th place visited is i + g * Turn(step); the start is place p.
    function Turn(step: int): (t: nat)
      requires Valid()
      ensures t < Len()
    {
      (p + step * q) % Len()
    }

    // The step that visits a place.
    function Rank(t: int): (step: nat)
      requires Valid()
      ensures step < Len()
    {
      (w * (t - p)) % Len()
    }
  }

  // Every place of a cycle is visited at exactly one step of a round.
  lemma TurnOfRank(b: Blocks, t: nat)
    requires b.Valid() && t < b.Len()
    ensures b.Turn(b.Rank(t)) == t
  {
    var n, step, d := b.Len(), b.Rank(t), b.w * (t - b.p) / b.Len();
    assert b.w * (t - b.p) == d * n + step;
    RoundTrip(b.p, b.q, b.w, b.u, n, t - b.p, step, d);
    Reduce(b.p + step * b.q, -(b.u * (t - b.p)) - d * b.q, t, n);
  }

  lemma RoundTrip(p: int, q: int, w: int, u: int, n: int, x: int, step: int, d: int)
    requires w * q + u * n == 1 && w * x == d * n + step
    ensures p + step * q == (-(u * x) - d * q) * n + (x + p)
  {
    assert step * q == w * x * q - d * n * q;
    assert w * x * q == x * (w * q) == x * (1 - u * n) == x - x * u * n;
    assert (-(u * x) - d * q) * n == -(u * x) * n - d * q * n;
  }

  lemma RankOfTurn(b: Blocks, step: nat)
    requires b.Valid() && step < b.Len()
    ensures b.Rank(b.Turn(step)) == step
  {
    var n, t, d := b.Len(), b.Turn(step), (b.p + step * b.q) / b.Len();
    assert b.p + step * b.q == d * n + t;
    RoundTripBack(b.p, b.q, b.w, b.u, n, t, step, d);
    Reduce(b.w * (t - b.p), -(b.u * step) - b.w * d, step, n);
  }

  lemma RoundTripBack(p: int, q: int, w: int, u: int, n: int, t: int, step: int, d: int)
    requires w * q + u * n == 1 && p + step * q == d * n + t
    ensures w * (t - p) == (-(u * step) - w * d) * n + step
  {
    assert t - p == step * q - d * n;
    assert w * (step * q - d * n) == step * (w * q) - w * d * n;
    assert step * (w * q) == step * (1 - u * n) == step - step * u * n;
    assert (-(u * step) - w * d) * n == -(u * step) * n - w * d * n;
  }

  // The next place is found by one comparison, as in the loop of the source.
  lemma NextTurn(b: Blocks, step: nat)
    requires b.Valid()
    ensures b.Turn(step + 1) == if b.Turn(step) >= b.p then b.Turn(step) - b.p else b.Turn(step) + b.q
  {
    var n, t, d := b.Len(), b.Turn(step), (b.p + step * b.q) / b.Len();
    assert b.p + step * b.q == d * n + t;
    Distribute(step, 1, b.q);
    if t >= b.p {
      Distribute(d, 1, n);
      Reduce(b.p + (step + 1) * b.q, d + 1, t - b.p, n);
    } else {
      Reduce(b.p + (step + 1) * b.q, d, t + b.q, n);
    }
  }

  // A round starts at p and ends where it started.
  lemma FullTurn(b: Blocks)
    requires b.Valid()
    ensures b.Turn(0) == b.p && b.Turn(b.Len()) == b.p && b.Rank(b.p) == 0
  {
    Reduce(b.p, 0, b.p, b.Len());
    Reduce(b.p + b.Len() * b.q, b.q, b.p, b.Len());
    Reduce(b.w * 0, 0, 0, b.Len());
  }

  // ---------- Where each element comes from ----------

  // Places are offsets from the start of the first block; cycle i holds the places with remainder i by g.
  function Place(b: Blocks, i: nat, t: nat): nat {
    NotNegative(b.g, t);
    i + b.g * t
  }

  lemma NotNegative(a: nat, b: nat)
    ensures a * b >= 0
  {
  }

  lemma PlaceParts(b: Blocks, i: nat, t: nat)
    requires b.Valid() && i < b.g
    ensures Place(b, i, t) % b.g == i && Place(b, i, t) / b.g == t
    ensures t < b.Len() ==> Place(b, i, t) < b.g * b.Len()
    ensures Place(b, i, t) >= b.g * b.p <==> t >= b.p
    ensures Place(b, i, t) < b.g * b.q <==> t < b.q
  {
    Reduce(i + b.g * t, t, i, b.g);
    InBlock(b.g, i, t, b.Len());
    InBlock(b.g, i, t, b.p);
    InBlock(b.g, i, t, b.q);
  }

  lemma InBlock(g: nat, i: nat, t: nat, n: nat)
    requires i < g
    ensures i + g * t < g * n <==> t < n
  {
    Distribute(n - t, t, g);
    Magnitude(n - t, g);
  }

  lemma PartsOf(b: Blocks, x: nat)
    requires b.Valid() && x < b.g * b.Len()
    ensures x / b.g < b.Len() && Place(b, x % b.g, x / b.g) == x
  {
    InBlock(b.g, x % b.g, x / b.g, b.Len());
  }

  // The exchange: what is at x afterwards was at Source(x).
  function Source(b: Blocks, x: nat): int {
    if x < b.g * b.q then x + b.g * b.p else x - b.g * b.q
  }

  // The step whose element is at step k of the current cycle after j moves: the start serves as the spare slot.
  function Carried(n: nat, k: nat, j: nat): nat
    requires k < n
  {
    if k == 0 then (if j < n then j else n - 1) else if k <= j then k - 1 else k
  }

  // Where the element now at x was at first, after i cycles and j moves of the next.
  function Origin(b: Blocks, i: nat, j: nat, x: nat): int
    requires b.Valid() && x < b.g * b.Len()
  {
    var c := x % b.g;
    if c < i then Source(b, x)
    else if c > i then x
    else Place(b, i, b.Turn(Carried(b.Len(), b.Rank(x / b.g), j)))
  }

  lemma OriginStarts(b: Blocks, i: nat, x: nat)
    requires b.Valid() && x < b.g * b.Len() && x % b.g == i
    ensures Origin(b, i, 0, x) == x
  {
    PartsOf(b, x);
    TurnOfRank(b, x / b.g);
  }

  lemma SourceOfPlace(b: Blocks, i: nat, t: nat)
    requires b.Valid() && i < b.g
    ensures Source(b, Place(b, i, t)) == if t < b.q then Place(b, i, t + b.p) else Place(b, i, t - b.q)
  {
    InBlock(b.g, i, t, b.q);
    if t < b.q {
      Distribute(t, b.p, b.g);
    } else {
      Distribute(t - b.q, b.q, b.g);
    }
  }

  // The step before the one that visits place t is at the place the element for t comes from.
  lemma StepBefore(b: Blocks, t: nat)
    requires b.Valid() && t < b.Len()
    ensures b.Turn(Carried(b.Len(), b.Rank(t), b.Len())) == if t < b.q then t + b.p else t - b.q
  {
    hide Blocks.Turn, Blocks.Rank;
    TurnOfRank(b, t);
    FullTurn(b);
    NextTurn(b, Carried(b.Len(), b.Rank(t), b.Len()));
  }

  // After a full round the cycle is done.
  lemma OriginEnds(b: Blocks, i: nat, x: nat)
    requires b.Valid() && x < b.g * b.Len() && x % b.g == i
    ensures Origin(b, i, b.Len(), x) == Source(b, x)
  {
    hide Place, Source, Blocks.Turn, Blocks.Rank, Carried, Blocks.Valid;
    PartsOf(b, x);
    StepBefore(b, x / b.g);
    SourceOfPlace(b, i, x / b.g);
  }

  lemma CycleDone(b: Blocks, i: nat, x: nat)
    requires b.Valid() && x < b.g * b.Len() && i < b.g
    ensures Origin(b, i, b.Len(), x) == Origin(b, i + 1, 0, x)
  {
    if x % b.g == i {
      OriginEnds(b, i, x);
    } else if x % b.g == i + 1 {
      OriginStarts(b, i + 1, x);
    }
  }

  // One move in terms of the steps of the cycle.
  lemma CarriedSwaps(b: Blocks, j: nat, t: nat)
    requires b.Valid() && j < b.Len() && t < b.Len()
    ensures var n, next := b.Len(), b.Turn(j + 1);
      Carried(n, b.Rank(t), j + 1) ==
        if t == b.p then Carried(n, b.Rank(next), j)
        else if t == next then Carried(n, b.Rank(b.p), j)
        else Carried(n, b.Rank(t), j)
  {
    hide Blocks.Turn, Blocks.Rank;
    FullTurn(b);
    if j + 1 < b.Len() {
      RankOfTurn(b, j + 1);
    }
    TurnOfRank(b, t);
  }

  lemma OriginAt(b: Blocks, i: nat, j: nat, t: nat)
    requires b.Valid() && i < b.g && t < b.Len()
    ensures Place(b, i, t) < b.g * b.Len() && Place(b, i, t) % b.g == i
    ensures Origin(b, i, j, Place(b, i, t)) == Place(b, i, b.Turn(Carried(b.Len(), b.Rank(t), j)))
  {
    hide Place, Source, Blocks.Turn, Blocks.Rank, Carried, Blocks.Valid;
    PlaceParts(b, i, t);
  }

  lemma OriginElse(b: Blocks, i: nat, j: nat, k: nat, x: nat)
    requires b.Valid() && x < b.g * b.Len() && x % b.g != i
    ensures Origin(b, i, j, x) == Origin(b, i, k, x)
  {
    hide Place, Source, Blocks.Turn, Blocks.Rank, Carried, Blocks.Valid;
  }

  lemma SamePlace(b: Blocks, i: nat, t: nat, t2: nat)
    requires b.Valid() && i < b.g
    ensures Place(b, i, t) == Place(b, i, t2) <==> t == t2
  {
    hide Place;
    PlaceParts(b, i, t);
    PlaceParts(b, i, t2);
  }

  // One move of the loop swaps the element at the place it visits with the one at the start of the cycle.
  lemma MoveSwaps(b: Blocks, i: nat, j: nat, x: nat)
    requires b.Valid() && x < b.g * b.Len() && i < b.g && j < b.Len()
    ensures var start, pos := Place(b, i, b.p), Place(b, i, b.Turn(j + 1));
      && start < b.g * b.Len() && pos < b.g * b.Len()
      && Origin(b, i, j + 1, x) ==
         if x == start then Origin(b, i, j, pos) else if x == pos then Origin(b, i, j, start) else Origin(b, i, j, x)
  {
    hide Place, Source, Blocks.Turn, Blocks.Rank, Carried, Origin;
    OriginAt(b, i, j, b.p);
    OriginAt(b, i, j, b.Turn(j + 1));
    if x % b.g == i {
      PartsOf(b, x);
      var t := x / b.g;
      SamePlace(b, i, t, b.p);
      SamePlace(b, i, t, b.Turn(j + 1));
      OriginAt(b, i, j, t);
      OriginAt(b, i, j + 1, t);
      CarriedSwaps(b, j, t);
    } else {
      OriginElse(b, i, j, j + 1, x);
    }
  }

  // ---------- permute_args ----------

  lemma BlocksOf(m: nat, n: nat) returns (b: Blocks)
    requires m > 0 && n > 0
    ensures b.Valid() && b.g == Gcd(m, n) && b.g * b.p == m && b.g * b.q == n
    ensures b.g * b.Len() == m + n && (m + n) / b.g == b.Len()
  {
    var g := Gcd(m, n);
    GcdDivides(m, n);
    Exact(m, g);
    Exact(n, g);
    var u, v := Bezout(m, n);
    var p, q := m / g, n / g;
    b := Blocks(g, p, q, v - u, u);
    Coprime(g, p, q, u, v);
    Distribute(p, q, g);
    Reduce(m + n, p + q, 0, g);
    assert p > 0 && q > 0;
  }

  lemma Coprime(g: int, p: int, q: int, u: int, v: int)
    requires g > 0 && u * (p * g) + v * (q * g) == g
    ensures (v - u) * q + u * (p + q) == 1
  {
    CommonFactor(u, p * g, p, v, q * g, q, g);
    SameQuotient(u * p + v * q, 0, 1, 0, g);
    assert (v - u) * q + u * (p + q) == u * p + v * q;
  }

  ghost predicate FromOrigin<T>(b: Blocks, first: nat, was: seq<T>, now: seq<T>, i: nat, j: nat, x: nat)
    requires b.Valid() && |was| == |now| && x < b.g * b.Len() && first + b.g * b.Len() <= |was|
  {
    0 <= first + Origin(b, i, j, x) < |was| && now[first + x] == was[first + Origin(b, i, j, x)]
  }

  // After i cycles and j moves of the next: every element is where Origin says, none outside is touched.
  ghost predicate Moved<T>(b: Blocks, first: nat, was: seq<T>, now: seq<T>, i: nat, j: nat) {
    && b.Valid() && |was| == |now| && first + b.g * b.Len() <= |was|
    && (forall x | 0 <= x < b.g * b.Len() :: FromOrigin(b, first, was, now, i, j, x))
    && (forall k | 0 <= k < |was| && !(first <= k < first + b.g * b.Len()) :: now[k] == was[k])
  }

  lemma NotMoved<T>(b: Blocks, first: nat, was: seq<T>)
    requires b.Valid() && first + b.g * b.Len() <= |was|
    ensures Moved(b, first, was, was, 0, 0)
  {
    hide Origin;
    forall x | 0 <= x < b.g * b.Len() ensures FromOrigin(b, first, was, was, 0, 0, x) {
      UntouchedYet(b, x);
    }
  }

  lemma UntouchedYet(b: Blocks, x: nat)
    requires b.Valid() && x < b.g * b.Len()
    ensures Origin(b, 0, 0, x) == x
  {
    if x % b.g == 0 {
      OriginStarts(b, 0, x);
    }
  }

  lemma NextCycle<T>(b: Blocks, first: nat, was: seq<T>, now: seq<T>, i: nat)
    requires Moved(b, first, was, now, i, b.Len()) && i < b.g
    ensures Moved(b, first, was, now, i + 1, 0)
  {
    hide Origin, Blocks.Valid;
    var i2 := i + 1;
    forall x | 0 <= x < b.g * b.Len() ensures FromOrigin(b, first, was, now, i2, 0, x) {
      assert FromOrigin(b, first, was, now, i, b.Len(), x);
      CycleDone(b, i, x);
    }
  }

  // A swap of the slots at the start of the cycle and at the place visited next.
  lemma NextMove<T>(b: Blocks, first: nat, was: seq<T>, now: seq<T>, next: seq<T>, i: nat, j: nat, start: nat, pos: nat)
    requires Moved(b, first, was, now, i, j) && i < b.g && j < b.Len()
    requires start == Place(b, i, b.p) && pos == Place(b, i, b.Turn(j + 1))
    requires first + start < |now| && first + pos < |now|
    requires next == now[first + pos := now[first + start]][first + start := now[first + pos]]
    ensures Moved(b, first, was, next, i, j + 1)
  {
    hide Origin, Blocks.Valid, Place, Blocks.Turn;
    MoveSwaps(b, i, j, 0);
    var j2 := j + 1;
    forall x | 0 <= x < b.g * b.Len() ensures FromOrigin(b, first, was, next, i, j2, x) {
      assert FromOrigin(b, first, was, now, i, j, x);
      assert FromOrigin(b, first, was, now, i, j, start) && FromOrigin(b, first, was, now, i, j, pos);
      MoveSwaps(b, i, j, x);
    }
  }

  // The blocks [first, middle) and [middle, end) exchanged.
  function Exchanged<T>(a: seq<T>, first: nat, middle: nat, end: nat): seq<T>
    requires first <= middle <= end <= |a|
  {
    a[..first] + a[middle..end] + a[first..middle] + a[end..]
  }

  lemma ExchangedAt<T>(a: seq<T>, first: nat, m: nat, n: nat, k: nat)
    requires first + m + n <= |a| && k < |a|
    ensures var e := Exchanged(a, first, first + m, first + m + n);
      |e| == |a| && e[k] == if !(first <= k < first + m + n) then a[k] else if k < first + n then a[k + m] else a[k - n]
  {
  }

  // After all cycles every element comes from where the exchange takes it.
  lemma AllFrom(b: Blocks, x: nat)
    requires b.Valid() && x < b.g * b.Len()
    ensures Origin(b, b.g, 0, x) == Source(b, x)
  {
    hide Place, Source, Blocks.Turn, Blocks.Rank, Carried, Blocks.Len;
    Remainder(x, b.g);
  }

  lemma Remainder(x: nat, g: nat)
    requires g > 0
    ensures x % g < g
  {
  }

  lemma MovedAt<T>(b: Blocks, first: nat, was: seq<T>, now: seq<T>, m: nat, n: nat, k: nat)
    requires Moved(b, first, was, now, b.g, 0) && k < |was|
    requires m == b.g * b.p && n == b.g * b.q && m + n == b.g * b.Len()
    ensures now[k] == if !(first <= k < first + m + n) then was[k] else if k < first + n then was[k + m] else was[k - n]
  {
    hide Origin, Blocks.Valid, Blocks.Len;
    if first <= k < first + m + n {
      assert FromOrigin(b, first, was, now, b.g, 0, k - first);
      AllFrom(b, k - first);
    }
  }

  lemma AllMoved<T>(b: Blocks, first: nat, was: seq<T>, now: seq<T>)
    requires Moved(b, first, was, now, b.g, 0)
    ensures first + b.g * b.p + b.g * b.q == first + b.g * b.Len() <= |was|
    ensures now == Exchanged(was, first, first + b.g * b.p, first + b.g * b.Len())
  {
    hide Origin, Exchanged, FromOrigin, Blocks.Valid;
    Distribute(b.p, b.q, b.g);
    NotNegative(b.g, b.p);
    NotNegative(b.g, b.q);
    var m, n := b.g * b.p, b.g * b.q;
    var e := Exchanged(was, first, first + m, first + m + n);
    ExchangedSize(was, first, m, n);
    forall k | 0 <= k < |was| ensures now[k] == e[k] {
      ExchangedAt(was, first, m, n, k);
      MovedAt(b, first, was, now, m, n, k);
    }
  }

  lemma ExchangedSize<T>(a: seq<T>, first: nat, m: nat, n: nat)
    requires first + m + n <= |a|
    ensures |Exchanged(a, first, first + m, first + m + n)| == |a|
  {
  }

  // The place after one move of the loop.
  lemma NextPlace(b: Blocks, i: nat, j: nat)
    requires b.Valid() && i < b.g
    ensures var x := Place(b, i, b.Turn(j));
      Place(b, i, b.Turn(j + 1)) == if x >= b.g * b.p then x - b.g * b.p else x + b.g * b.q
    ensures Place(b, i, b.Turn(j + 1)) < b.g * b.Len()
  {
    hide Place, Blocks.Turn, Blocks.Valid;
    var t := b.Turn(j);
    NextTurn(b, j);
    PlaceParts(b, i, t);
    PlaceParts(b, i, b.Turn(j + 1));
    if t >= b.p {
      Shifted(b, i, t - b.p, b.p);
    } else {
      Shifted(b, i, t, b.q);
    }
  }

  lemma Shifted(b: Blocks, i: nat, t: nat, d: nat)
    ensures Place(b, i, t + d) == Place(b, i, t) + b.g * d
  {
    Distribute(t, d, b.g);
  }

  // permute_args. It is called with two blocks that are not empty; on an empty one gcd would divide by 0.
  method PermuteArgs<T>(a: array<T>, nonoptStart: nat, nonoptEnd: nat, optEnd: nat)
    requires nonoptStart < nonoptEnd < optEnd <= a.Length
    modifies a
    ensures a[..] == Exchanged(old(a[..]), nonoptStart, nonoptEnd, optEnd)
  {
    hide Moved, Place, Blocks.Turn, Exchanged;
    var nnonopts := nonoptEnd - nonoptStart;
    var nopts := optEnd - nonoptEnd;
    var ncycle := ComputeGcd(nnonopts, nopts);
    var cyclelen := (optEnd - nonoptStart) / ncycle;
    ghost var b := BlocksOf(nnonopts, nopts);
    ghost var was := a[..];
    NotMoved(b, nonoptStart, was);
    var i := 0;
    while i < ncycle
      invariant i <= ncycle && Moved(b, nonoptStart, was, a[..], i, 0)
    {
      OneCycle(a, b, was, nonoptStart, nonoptEnd, nnonopts, nopts, i, cyclelen);
      NextCycle(b, nonoptStart, was, a[..], i);
      i := i + 1;
    }
    AllMoved(b, nonoptStart, was, a[..]);
  }

  // The inner loop.
  method OneCycle<T>(a: array<T>, ghost b: Blocks, ghost was: seq<T>, nonoptStart: nat, nonoptEnd: nat,
                     nnonopts: nat, nopts: nat, i: nat, cyclelen: nat)
    requires b.Valid() && nnonopts == b.g * b.p && nopts == b.g * b.q && cyclelen == b.Len() && i < b.g
    requires nonoptEnd == nonoptStart + nnonopts && nonoptStart + b.g * b.Len() <= a.Length
    requires Moved(b, nonoptStart, was, a[..], i, 0)
    modifies a
    ensures Moved(b, nonoptStart, was, a[..], i, b.Len())
  {
    hide Moved, Place, Blocks.Turn, Blocks.Valid;
    var cstart := nonoptEnd + i;
    var pos := cstart;
    StartPlace(b, i);
    var j := 0;
    while j < cyclelen
      invariant j <= cyclelen && pos == nonoptStart + Place(b, i, b.Turn(j)) && cstart == nonoptStart + Place(b, i, b.p)
      invariant Moved(b, nonoptStart, was, a[..], i, j)
    {
      NextPlace(b, i, j);
      if pos >= nonoptEnd {
        pos := pos - nnonopts;
      } else {
        pos := pos + nopts;
      }
      ghost var now := a[..];
      var swap := a[pos];
      a[pos] := a[cstart];
      a[cstart] := swap;
      NextMove(b, nonoptStart, was, now, a[..], i, j, cstart - nonoptStart, pos - nonoptStart);
      j := j + 1;
    }
  }

  lemma StartPlace(b: Blocks, i: nat)
    requires b.Valid() && i < b.g
    ensures Place(b, i, b.Turn(0)) == Place(b, i, b.p) == b.g * b.p + i && Place(b, i, b.p) < b.g * b.Len()
  {
    FullTurn(b);
    PlaceParts(b, i, b.p);
  }
}
