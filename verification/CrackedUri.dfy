/** CrackedUri.cpp: a URI taken apart into path segments and query parameters. */
module CrackedUri {
  import opened Sequences
  import opened StringUtil

  const PERCENT: Byte := 37
  const AMPERSAND: Byte := 38
  const PLUS: Byte := 43
  const SLASH: Byte := 47
  const EQUALS: Byte := 61
  const QUESTION: Byte := 63
  const SPACE: Byte := 32

  datatype Error = Malformed | Truncated | BadDigit | TooManyEquals
  datatype Result<T> = Ok(value: T) | Err(error: Error)

  // ---------- Escapes ----------

  // isxdigit
  predicate IsHex(c: Byte) {
    48 <= c <= 57 || 65 <= c <= 70 || 97 <= c <= 102
  }

  // fromHex
  function FromHex(c: Byte): (d: nat)
    requires IsHex(c)
    ensures d < 16
  {
    var lower := if 65 <= c <= 90 then c + 32 else c;
    if lower <= 57 then lower - 48 else lower - 97 + 10
  }

  // Each escape stands for one byte; everything else stands for itself.
  function Decoded(s: Text): Result<Text>
    decreases |s|
  {
    if s == [] then Ok([])
    else if s[0] != PERCENT then Prefixed(s[0], Decoded(s[1..]))
    else if |s| < 2 then Err(Truncated)
    else if |s| < 3 || !IsHex(s[1]) || !IsHex(s[2]) then Err(BadDigit)
    else Prefixed(FromHex(s[1]) * 16 + FromHex(s[2]), Decoded(s[3..]))
  }

  function Prefixed(b: Byte, r: Result<Text>): Result<Text> {
    if r.Ok? then Ok([b] + r.value) else r
  }

  function Spaced(s: Text): (r: Text)
    ensures |r| == |s|
  {
    seq(|s|, i requires 0 <= i < |s| => if s[i] == PLUS then SPACE else s[i])
  }

  lemma {:induction false} PlusReplaced(s: Text)
    ensures Replaced(s, [PLUS], [SPACE]) == Spaced(s)
    decreases |s|
  {
    if s != [] {
      PlusReplaced(s[1..]);
      assert s[..1] == [s[0]];
      assert Spaced(s) == [Spaced(s)[0]] + Spaced(s[1..]);
    }
  }

  // What one text stands for in a URI.
  function Unescaped(s: Text): Result<Text> {
    Decoded(Spaced(s))
  }

  // unescape. The text is rewritten in place; what was decoded is left behind the position. A '%' with one
  // more character is a bad digit, since the byte after the end of a string is 0.
  method Unescape(s: Text) returns (r: Result<Text>)
    ensures r == Unescaped(s)
  {
    hide Decoded, Find;
    PlusReplaced(s);
    var uri := ReplaceText(s, [PLUS], [SPACE]);
    var pos: nat := 0;
    Starts(uri);
    while pos < |uri|
      invariant pos <= |uri| && Before(uri[..pos], Decoded(uri[pos..])) == Unescaped(s)
      decreases |uri| - pos
    {
      var next := FindFrom(uri, PERCENT, pos);
      SkipPlain(uri[pos..], next - pos);
      assert uri[pos..][..next - pos] == uri[pos..next] && uri[pos..][next - pos..] == uri[next..];
      assert uri[..pos] + uri[pos..next] == uri[..next];
      Regroup(uri[..pos], uri[pos..next], Decoded(uri[next..]));
      pos := next;
      if pos == |uri| {
        break;
      }
      Escape(uri[pos..]);
      if pos + 2 > |uri| {
        return Err(Truncated);
      }
      if !IsHex(uri[pos + 1]) || pos + 2 == |uri| || !IsHex(uri[pos + 2]) {
        return Err(BadDigit);
      }
      var hex: Byte := FromHex(uri[pos + 1]) * 16 + FromHex(uri[pos + 2]);
      ghost var was := uri;
      Regroup(uri[..pos], [hex], Decoded(uri[pos + 3..]));
      uri := uri[..pos] + [hex] + uri[pos + 3..];
      pos := pos + 1;
      assert uri[..pos] == was[..pos - 1] + [hex] && uri[pos..] == was[pos + 2..];
    }
    Starts([]);
    assert uri[pos..] == [] && uri[..pos] == uri && uri + [] == uri;
    r := Ok(uri);
  }

  // Bytes already decoded, before a result.
  function Before(a: Text, r: Result<Text>): Result<Text> {
    if r.Ok? then Ok(a + r.value) else r
  }

  lemma Regroup(a: Text, b: Text, r: Result<Text>)
    ensures Before(a, Before(b, r)) == Before(a + b, r)
  {
    if r.Ok? {
      Concat(a, b, r.value);
    }
  }

  lemma Starts(s: Text)
    ensures Before(s[..0], Decoded(s[0..])) == Decoded(s) && Decoded([]) == Ok([])
  {
    assert s[0..] == s;
    if Decoded(s).Ok? {
      assert s[..0] + Decoded(s).value == Decoded(s).value;
    }
  }

  lemma {:induction false} SkipPlain(s: Text, k: nat)
    requires k <= |s| && PERCENT !in s[..k]
    ensures Decoded(s) == Before(s[..k], Decoded(s[k..]))
  {
    if k == 0 {
      Starts(s);
    } else {
      assert s[0] in s[..k] && s[1..][..k - 1] == s[..k][1..] && s[1..][k - 1..] == s[k..];
      SkipPlain(s[1..], k - 1);
      assert [s[0]] + s[1..][..k - 1] == s[..k];
      Regroup([s[0]], s[1..][..k - 1], Decoded(s[k..]));
    }
  }

  lemma Escape(s: Text)
    requires s != [] && s[0] == PERCENT
    ensures |s| < 2 ==> Decoded(s) == Err(Truncated)
    ensures |s| >= 2 && (|s| < 3 || !IsHex(s[1]) || !IsHex(s[2])) ==> Decoded(s) == Err(BadDigit)
    ensures |s| >= 3 && IsHex(s[1]) && IsHex(s[2]) ==>
      Decoded(s) == Before([FromHex(s[1]) * 16 + FromHex(s[2])], Decoded(s[3..]))
  {
  }

  // ---------- Taking a URI apart ----------

  datatype Uri = Uri(path: seq<Text>, params: multiset<(Text, Text)>)

  // std::transform: in order, up to the first that throws.
  function UnescapedAll(ps: seq<Text>): Result<seq<Text>> {
    if ps == [] then Ok([])
    else
      var first := Unescaped(ps[0]);
      if first.Err? then Err(first.error)
      else
        var rest := UnescapedAll(ps[1..]);
        if rest.Ok? then Ok([first.value] + rest.value) else rest
  }

  function Parameter(piece: Text): Result<(Text, Text)>
    requires piece != []
  {
    var parts := UnescapedAll(Split(piece, EQUALS));
    if parts.Err? then Err(parts.error)
    else if |parts.value| == 1 then Ok((parts.value[0], []))
    else if |parts.value| == 2 then Ok((parts.value[0], parts.value[1]))
    else Err(TooManyEquals)
  }

  function Parameters(pieces: seq<Text>): Result<multiset<(Text, Text)>> {
    if pieces == [] then Ok(multiset{})
    else if pieces[0] == [] then Parameters(pieces[1..])
    else
      var p := Parameter(pieces[0]);
      if p.Err? then Err(p.error)
      else
        var rest := Parameters(pieces[1..]);
        if rest.Ok? then Ok(multiset{p.value} + rest.value) else rest
  }

  function PathText(uri: Text): Text
    requires uri != []
  {
    uri[1..if Find(uri, QUESTION) == 0 then 1 else Find(uri, QUESTION)]
  }

  function QueryText(uri: Text): Text {
    if Find(uri, QUESTION) == |uri| then [] else uri[Find(uri, QUESTION) + 1..]
  }

  function Cracked(uri: Text): Result<Uri> {
    if uri == [] || uri[0] != SLASH then Err(Malformed)
    else
      var path := UnescapedAll(Split(PathText(uri), SLASH));
      if path.Err? then Err(path.error)
      else
        var params := Parameters(Split(QueryText(uri), AMPERSAND));
        if params.Err? then Err(params.error) else Ok(Uri(path.value, params.value))
  }

  method UnescapeAll(ps: seq<Text>) returns (r: Result<seq<Text>>)
    ensures r == UnescapedAll(ps)
  {
    hide Unescaped;
    var done: seq<Text> := [];
    assert ps[0..] == ps;
    AfterAll([], UnescapedAll(ps));
    for i := 0 to |ps|
      invariant After(done, UnescapedAll(ps[i..])) == UnescapedAll(ps)
    {
      assert ps[i..][0] == ps[i] && ps[i..][1..] == ps[i + 1..];
      var text := Unescape(ps[i]);
      if text.Err? {
        return Err(text.error);
      }
      AfterOne(done, text.value, UnescapedAll(ps[i + 1..]));
      done := done + [text.value];
    }
    r := Ok(done);
    assert done + [] == done;
  }

  function After(a: seq<Text>, r: Result<seq<Text>>): Result<seq<Text>> {
    if r.Ok? then Ok(a + r.value) else r
  }

  lemma AfterAll(a: seq<Text>, r: Result<seq<Text>>)
    requires a == []
    ensures After(a, r) == r
  {
    if r.Ok? {
      assert a + r.value == r.value;
    }
  }

  lemma AfterOne(a: seq<Text>, text: Text, r: Result<seq<Text>>)
    ensures After(a, After([text], r)) == After(a + [text], r)
  {
    if r.Ok? {
      Concat(a, [text], r.value);
    }
  }

  method TakeParameter(piece: Text) returns (r: Result<(Text, Text)>)
    requires piece != []
    ensures r == Parameter(piece)
  {
    hide UnescapedAll, Split;
    var split := SplitText(piece, EQUALS);
    var parts := UnescapeAll(split);
    if parts.Err? {
      return Err(parts.error);
    }
    if |parts.value| == 1 {
      r := Ok((parts.value[0], []));
    } else if |parts.value| == 2 {
      r := Ok((parts.value[0], parts.value[1]));
    } else {
      r := Err(TooManyEquals);
    }
  }

  method TakeParameters(pieces: seq<Text>) returns (r: Result<multiset<(Text, Text)>>)
    ensures r == Parameters(pieces)
  {
    hide Parameter;
    var params: multiset<(Text, Text)> := multiset{};
    assert pieces[0..] == pieces;
    assert Plus(params, Parameters(pieces)) == Parameters(pieces) by { NoneMore(Parameters(pieces)); }
    for i := 0 to |pieces|
      invariant Plus(params, Parameters(pieces[i..])) == Parameters(pieces)
    {
      assert pieces[i..][0] == pieces[i] && pieces[i..][1..] == pieces[i + 1..];
      if pieces[i] == [] {
        continue;
      }
      var p := TakeParameter(pieces[i]);
      if p.Err? {
        return Err(p.error);
      }
      OneMore(params, p.value, Parameters(pieces[i + 1..]));
      params := params + multiset{p.value};
    }
    assert pieces[|pieces|..] == [];
    assert params + multiset{} == params;
    r := Ok(params);
  }

  function Plus(a: multiset<(Text, Text)>, r: Result<multiset<(Text, Text)>>): Result<multiset<(Text, Text)>> {
    if r.Ok? then Ok(a + r.value) else r
  }

  lemma NoneMore(r: Result<multiset<(Text, Text)>>)
    ensures Plus(multiset{}, r) == r
  {
    if r.Ok? {
      assert multiset{} + r.value == r.value;
    }
  }

  lemma OneMore(a: multiset<(Text, Text)>, p: (Text, Text), r: Result<multiset<(Text, Text)>>)
    ensures Plus(a, Plus(multiset{p}, r)) == Plus(a + multiset{p}, r)
  {
    if r.Ok? {
      assert a + (multiset{p} + r.value) == (a + multiset{p}) + r.value;
    }
  }

  // The constructor; an exception is an error result.
  method Crack(uri: Text) returns (r: Result<Uri>)
    ensures r == Cracked(uri)
  {
    hide UnescapedAll, Parameters, Split;
    if uri == [] || uri[0] != SLASH {
      return Err(Malformed);
    }
    var endOfPath := FindFrom(uri, QUESTION, 0);
    assert uri[0..] == uri;
    var path, remainder: Text := uri[1..], [];
    if endOfPath < |uri| {
      path := uri[1..endOfPath];
      remainder := uri[endOfPath + 1..];
    } else {
      assert uri[1..|uri|] == uri[1..];
    }
    var pieces := SplitText(path, SLASH);
    var segments := UnescapeAll(pieces);
    if segments.Err? {
      return Err(segments.error);
    }
    var splitRemainder := SplitText(remainder, AMPERSAND);
    var params := TakeParameters(splitRemainder);
    if params.Err? {
      return Err(params.error);
    }
    r := Ok(Uri(segments.value, params.value));
  }

  // ---------- Printing, and round trips ----------

  // What separates the parts of a URI, and so must be escaped inside them.
  predicate Reserved(c: Byte) {
    c == PERCENT || c == PLUS || c == SLASH || c == QUESTION || c == AMPERSAND || c == EQUALS
  }

  // e is a text as it may stand in a URI: a byte that is not reserved as itself, a space as '+', any byte
  // as '%' and two hexadecimal digits of either case.
  predicate Escapes(e: Text, s: Text)
    decreases |s|
  {
    if s == [] then e == []
    else if e == [] then false
    else if e[0] == PLUS then s[0] == SPACE && Escapes(e[1..], s[1..])
    else if e[0] == PERCENT then
      && |e| >= 3 && IsHex(e[1]) && IsHex(e[2]) && FromHex(e[1]) * 16 + FromHex(e[2]) == s[0]
      && Escapes(e[3..], s[1..])
    else !Reserved(e[0]) && e[0] == s[0] && Escapes(e[1..], s[1..])
  }

  lemma {:induction false} EscapesDecode(e: Text, s: Text)
    requires Escapes(e, s)
    ensures Unescaped(e) == Ok(s)
    decreases |s|
  {
    if s == [] {
      assert Spaced(e) == [];
    } else {
      var k := if e[0] == PERCENT then 3 else 1;
      EscapesDecode(e[k..], s[1..]);
      assert Spaced(e)[k..] == Spaced(e[k..]);
      assert [s[0]] + s[1..] == s;
    }
  }

  // No separator shows in an escaped text.
  lemma {:induction false} EscapesHide(e: Text, s: Text)
    requires Escapes(e, s)
    ensures SLASH !in e && QUESTION !in e && AMPERSAND !in e && EQUALS !in e
    decreases |s|
  {
    if s != [] {
      var k := if e[0] == PERCENT then 3 else 1;
      EscapesHide(e[k..], s[1..]);
      assert e == e[..k] + e[k..];
    }
  }

  function HexDigit(d: nat): Byte
    requires d < 16
  {
    if d < 10 then 48 + d else 55 + d
  }

  function EscapeAll(s: Text): Text {
    if s == [] then [] else [PERCENT, HexDigit(s[0] / 16), HexDigit(s[0] % 16)] + EscapeAll(s[1..])
  }

  // Every text has an escaped form.
  lemma {:induction false} EscapeAllEscapes(s: Text)
    ensures Escapes(EscapeAll(s), s)
  {
    if s != [] {
      EscapeAllEscapes(s[1..]);
      assert EscapeAll(s)[3..] == EscapeAll(s[1..]);
    }
  }

  predicate AllEscape(es: seq<Text>, ss: seq<Text>) {
    |es| == |ss| && forall i | 0 <= i < |es| :: Escapes(es[i], ss[i])
  }

  // A parameter as it may be written: name=value, or the name alone if there is no value and it is not empty.
  datatype ParamText = Named(name: Text, value: Text) | Lone(name: Text)

  function TextOf(q: ParamText): Text {
    match q
    case Named(name, value) => name + [EQUALS] + value
    case Lone(name) => name
  }

  predicate Prints(q: ParamText, p: (Text, Text)) {
    match q
    case Named(name, value) => Escapes(name, p.0) && Escapes(value, p.1)
    case Lone(name) => p.1 == [] && p.0 != [] && Escapes(name, p.0)
  }

  predicate AllPrint(qs: seq<ParamText>, ps: seq<(Text, Text)>) {
    |qs| == |ps| && forall i | 0 <= i < |qs| :: Prints(qs[i], ps[i])
  }

  function Texts(qs: seq<ParamText>): seq<Text> {
    if qs == [] then [] else [TextOf(qs[0])] + Texts(qs[1..])
  }

  // The whole URI; the query may be left out when there are no parameters.
  predicate PrintsUri(uri: Text, segments: seq<Text>, params: seq<(Text, Text)>, es: seq<Text>, qs: seq<ParamText>) {
    && AllEscape(es, segments) && AllPrint(qs, params)
    && (uri == [SLASH] + Join(es, SLASH) + [QUESTION] + Join(Texts(qs), AMPERSAND)
        || (params == [] && uri == [SLASH] + Join(es, SLASH)))
  }

  lemma {:induction false} UnescapedAllOf(es: seq<Text>, ss: seq<Text>)
    requires AllEscape(es, ss)
    ensures UnescapedAll(es) == Ok(ss) && NoneHas(es, SLASH) && NoneHas(es, QUESTION) && NoneHas(es, EQUALS) && NoneHas(es, AMPERSAND)
  {
    hide Escapes, Unescaped;
    if es != [] {
      EscapesDecode(es[0], ss[0]);
      EscapesHide(es[0], ss[0]);
      UnescapedAllOf(es[1..], ss[1..]);
      assert es == [es[0]] + es[1..] && [ss[0]] + ss[1..] == ss;
    }
  }

  lemma EscapesNone(e: Text, s: Text)
    requires Escapes(e, s)
    ensures e == [] <==> s == []
  {
  }

  // A printed parameter is read back, and is told from its neighbours.
  lemma ParameterOf(q: ParamText, p: (Text, Text))
    requires Prints(q, p)
    ensures TextOf(q) != [] && AMPERSAND !in TextOf(q) && Parameter(TextOf(q)) == Ok(p)
  {
    hide Escapes, UnescapedAll, Pieces;
    match q
    case Named(name, value) =>
      assert Join([value], EQUALS) == value && [name, value][1..] == [value];
      UnescapedAllOf([name, value], [p.0, p.1]);
      EscapesHide(name, p.0);
      EscapesHide(value, p.1);
      PiecesJoin([name, value], EQUALS);
    case Lone(name) =>
      UnescapedAllOf([name], [p.0]);
      EscapesHide(name, p.0);
      EscapesNone(name, p.0);
      PiecesJoin([name], EQUALS);
  }

  lemma {:induction false} ParametersOf(qs: seq<ParamText>, ps: seq<(Text, Text)>)
    requires AllPrint(qs, ps)
    ensures Parameters(Texts(qs)) == Ok(multiset(ps)) && NoneHas(Texts(qs), AMPERSAND) && [] !in Texts(qs)
  {
    hide Prints, Parameter, TextOf;
    if qs != [] {
      ParameterOf(qs[0], ps[0]);
      ParametersOf(qs[1..], ps[1..]);
      assert Texts(qs)[1..] == Texts(qs[1..]);
      FirstAndRest(ps);
    } else {
      assert multiset(ps) == multiset{};
    }
  }

  lemma FirstAndRest(ps: seq<(Text, Text)>)
    requires ps != []
    ensures multiset{ps[0]} + multiset(ps[1..]) == multiset(ps)
  {
    assert ps == [ps[0]] + ps[1..];
  }

  lemma {:induction false} JoinHides(ps: seq<Text>, c: Byte, x: Byte)
    requires NoneHas(ps, x) && x != c
    ensures x !in Join(ps, c)
  {
    if |ps| >= 2 {
      JoinHides(ps[1..], c, x);
      assert ps[0] in ps;
    } else if |ps| == 1 {
      assert ps[0] in ps;
    }
  }

  // Where the path ends.
  lemma PartsOf(path: Text, query: Text)
    requires QUESTION !in path
    ensures var uri := [SLASH] + path + [QUESTION] + query;
      PathText(uri) == path && QueryText(uri) == query
    ensures var uri := [SLASH] + path;
      PathText(uri) == path && QueryText(uri) == []
  {
    var full, short := [SLASH] + path + [QUESTION] + query, [SLASH] + path;
    assert full[..|path| + 1] == short && short[..|short|] == short;
    FindIs(full, QUESTION, |path| + 1);
    FindIs(short, QUESTION, |short|);
  }

  // A list of segments and a list of parameters, printed with any escapes, are read back as they were; of the
  // parameters, the order is not kept. The one list of segments that is lost is a single empty segment.
  lemma RoundTrip(uri: Text, segments: seq<Text>, params: seq<(Text, Text)>, es: seq<Text>, qs: seq<ParamText>)
    requires PrintsUri(uri, segments, params, es, qs)
    ensures Cracked(uri) == Ok(Uri(segments, multiset(params))) <==> segments != [[]]
    ensures segments == [[]] ==> Cracked(uri) == Ok(Uri([], multiset(params)))
  {
    hide Escapes, UnescapedAll, Pieces, Parameters, Prints, Join, PathText, QueryText;
    UnescapedAllOf(es, segments);
    ParametersOf(qs, params);
    JoinHides(es, SLASH, QUESTION);
    PartsOf(Join(es, SLASH), Join(Texts(qs), AMPERSAND));
    SplitJoin(es, SLASH);
    SplitJoin(Texts(qs), AMPERSAND);
    SingleEmpty(es, segments);
    Empties(qs, params);
    assert Texts(qs) != [[]] by {
      assert [] !in Texts(qs);
    }
  }

  lemma SingleEmpty(es: seq<Text>, segments: seq<Text>)
    requires AllEscape(es, segments)
    ensures es == [[]] <==> segments == [[]]
  {
    if |es| == 1 {
      EscapesNone(es[0], segments[0]);
    }
  }

  lemma Empties(qs: seq<ParamText>, params: seq<(Text, Text)>)
    requires AllPrint(qs, params)
    ensures params == [] ==> Texts(qs) == []
    ensures UnescapedAll([]) == Ok([]) && Parameters([]) == Ok(multiset{})
  {
  }

  // Any lists can be printed.
  lemma Printable(s: Text, p: (Text, Text))
    ensures Escapes(EscapeAll(s), s) && Prints(Named(EscapeAll(p.0), EscapeAll(p.1)), p)
  {
    EscapeAllEscapes(s);
    EscapeAllEscapes(p.0);
    EscapeAllEscapes(p.1);
  }

  // ---------- shift ----------

  // shift: a copy without its first segment.
  function Shift(u: Uri): Uri {
    u.(path := if |u.path| > 1 then u.path[1..] else [[]])
  }

  function Shifted(u: Uri, n: nat): Uri {
    if n == 0 then u else Shift(Shifted(u, n - 1))
  }

  // After n shifts the first n segments are gone; once there is none left the path is a single empty segment
  // for ever.
  lemma {:induction false} ShiftedPath(u: Uri, n: nat)
    ensures Shifted(u, n).params == u.params
    ensures n < |u.path| ==> Shifted(u, n).path == u.path[n..]
    ensures n >= |u.path| && n > 0 ==> Shifted(u, n).path == [[]]
  {
    if n > 0 {
      ShiftedPath(u, n - 1);
      assert n <= |u.path| ==> u.path[n - 1..][1..] == u.path[n..];
    }
  }

  // A shifted path is never empty. One that was not shifted is, exactly if nothing stands between the first slash
  // and the query.
  lemma NoSegments(uri: Text)
    ensures Cracked(uri).Ok? ==> (Cracked(uri).value.path == [] <==> PathText(uri) == [])
  {
    hide Parameters, Pieces;
    if Cracked(uri).Ok? {
      SameLength(Split(PathText(uri), SLASH));
    }
  }

  lemma ShiftedNotEmpty(u: Uri, n: nat)
    requires n > 0
    ensures Shifted(u, n).path != []
  {
    ShiftedPath(u, n);
  }

  // ---------- What a URI means when it is not a printed one ----------

  // A URI is refused for its form exactly when it does not start with a slash.
  lemma Refused(uri: Text)
    ensures Cracked(uri) == Err(Malformed) <==> uri == [] || uri[0] != SLASH
  {
    hide Parameter, UnescapedAll, Parameters;
    if uri != [] && uri[0] == SLASH {
      NeverMalformedAll(Split(PathText(uri), SLASH));
      NeverMalformedParameters(Split(QueryText(uri), AMPERSAND));
    }
  }

  // A parameter is refused for its form exactly when '=' stands in it more than once.
  lemma RefusedParameter(piece: Text)
    requires piece != [] && UnescapedAll(Split(piece, EQUALS)).Ok?
    ensures Parameter(piece) == Err(TooManyEquals) <==> |Split(piece, EQUALS)| > 2
  {
    hide Pieces, UnescapedAll;
    SameLength(Split(piece, EQUALS));
  }

  lemma {:induction false} NeverMalformed(s: Text)
    ensures Decoded(s) != Err(Malformed) && Decoded(s) != Err(TooManyEquals)
    decreases |s|
  {
    if |s| >= 1 {
      NeverMalformed(s[1..]);
    }
    if |s| >= 3 {
      NeverMalformed(s[3..]);
    }
  }

  lemma {:induction false} NeverMalformedAll(ps: seq<Text>)
    ensures UnescapedAll(ps) != Err(Malformed) && UnescapedAll(ps) != Err(TooManyEquals)
  {
    hide Decoded;
    if ps != [] {
      NeverMalformed(Spaced(ps[0]));
      NeverMalformedAll(ps[1..]);
    }
  }

  lemma {:induction false} NeverMalformedParameters(pieces: seq<Text>)
    ensures Parameters(pieces) != Err(Malformed)
  {
    hide UnescapedAll;
    if pieces != [] {
      NeverMalformedParameters(pieces[1..]);
      if pieces[0] != [] {
        NeverMalformedAll(Split(pieces[0], EQUALS));
      }
    }
  }

  lemma {:induction false} SameLength(ps: seq<Text>)
    ensures UnescapedAll(ps).Ok? ==> |UnescapedAll(ps).value| == |ps|
  {
    hide Unescaped;
    if ps != [] {
      SameLength(ps[1..]);
    }
  }
}
