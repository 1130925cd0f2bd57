/** What the annotator's regular expressions match, said by the shape of the text rather than by a way to scan it. */
module SwaggerPatterns {
  import opened Common
  import opened SwaggerText
  import opened SwaggerBlock

  // ---------------------------------------------------------------- \s*\n

  /** `s` is white space, a line feed, and `rest`, and no later line feed would do. */
  ghost predicate IsBreak(s: string, space: string, rest: string) {
    s == space + "\n" + rest && AllSpace(space) && LastBreak(rest).None?
  }

  lemma BreakShape(s: string, rest: string)
    ensures LastBreak(s) == Some(rest) <==> exists space :: IsBreak(s, space, rest)
  {
    if LastBreak(s) == Some(rest) {
      var space := BreakParts(s, rest);
    }
    if exists space :: IsBreak(s, space, rest) {
      var space :| IsBreak(s, space, rest);
      SpaceThenBreak(space, rest);
    }
  }

  lemma {:induction false} BreakParts(s: string, rest: string) returns (space: string)
    requires LastBreak(s) == Some(rest)
    ensures IsBreak(s, space, rest)
  {
    if LastBreak(s[1..]).Some? {
      var inner := BreakParts(s[1..], rest);
      space := [s[0]] + inner;
      assert s == [s[0]] + s[1..];
    } else {
      space := "";
      assert s == "\n" + s[1..];
    }
  }

  lemma {:induction false} SpaceThenBreak(space: string, rest: string)
    requires AllSpace(space) && LastBreak(rest).None?
    ensures LastBreak(space + "\n" + rest) == Some(rest)
  {
    var s := space + "\n" + rest;
    if space == "" {
      assert s[1..] == rest;
    } else {
      assert s[1..] == space[1..] + "\n" + rest;
      assert space[0] in space;
      assert forall c :: c in space[1..] ==> c in space;
      SpaceThenBreak(space[1..], rest);
    }
  }

  // ---------------------------------------------------------------- /\*\*\s*\n\s*\*\s*@openapi

  /** White space with a line feed, or any white space once one was seen, then a star, then `rest`. */
  ghost predicate IsSkipped(s: string, broken: bool, space: string, rest: string) {
    s == space + "*" + rest && AllSpace(space) && (broken || '\n' in space)
  }

  lemma {:induction false} SkipBreakParts(s: string, broken: bool) returns (space: string)
    requires SkipBreak(s, broken).Some?
    ensures IsSkipped(s, broken, space, SkipBreak(s, broken).value)
  {
    var c, t := s[0], s[1..];
    assert s == [c] + t;
    if IsSpace(c) {
      var inner := SkipBreakParts(t, broken || c == '\n');
      space := [c] + inner;
      hide SkipBreak, IsSpace;
      assert space[0] == c && forall x :: x in inner ==> x in space;
    } else {
      space := "";
    }
  }

  lemma {:induction false} SkipBreakFinds(s: string, broken: bool, space: string, rest: string)
    requires IsSkipped(s, broken, space, rest)
    ensures SkipBreak(s, broken) == Some(rest)
  {
    if space == "" {
      assert s[1..] == rest;
    } else {
      assert s[1..] == space[1..] + "*" + rest;
      assert space[0] in space && s[0] == space[0];
      assert forall c :: c in space[1..] ==> c in space;
      assert space == [space[0]] + space[1..];
      SkipBreakFinds(s[1..], broken || s[0] == '\n', space[1..], rest);
    }
  }

  lemma {:induction false} SkipTagParts(s: string) returns (space: string)
    requires SkipTag(s).Some?
    ensures s == space + "@openapi" + SkipTag(s).value && AllSpace(space)
  {
    if s != "" && IsSpace(s[0]) {
      var inner := SkipTagParts(s[1..]);
      space := [s[0]] + inner;
      assert s == [s[0]] + s[1..];
    } else {
      space := "";
      assert s[..8] == "@openapi";
      assert s == s[..8] + s[8..];
    }
  }

  lemma {:induction false} SkipTagFinds(space: string, rest: string)
    requires AllSpace(space)
    ensures SkipTag(space + "@openapi" + rest) == Some(rest)
  {
    var s := space + "@openapi" + rest;
    if space == "" {
      assert s[8..] == rest && s[..8] == "@openapi" && s[0] == '@';
    } else {
      assert s[1..] == space[1..] + "@openapi" + rest;
      assert space[0] in space && s[0] == space[0];
      assert forall c :: c in space[1..] ==> c in space;
      SkipTagFinds(space[1..], rest);
    }
  }

  ghost predicate IsOpener(s: string, a: string, b: string, rest: string) {
    s == "/**" + a + "*" + b + "@openapi" + rest && AllSpace(a) && '\n' in a && AllSpace(b)
  }

  /** The opener of an annotation, as its pattern has it. */
  lemma OpenerShape(s: string, rest: string)
    ensures AfterOpener(s) == Some(rest) <==> exists a, b :: IsOpener(s, a, b, rest)
  {
    hide SkipBreak, SkipTag, AllSpace;
    if AfterOpener(s) == Some(rest) {
      var a := SkipBreakParts(s[3..], false);
      var b := SkipTagParts(SkipBreak(s[3..], false).value);
      assert s == "/**" + s[3..];
      assert IsOpener(s, a, b, rest);
    }
    if exists a, b :: IsOpener(s, a, b, rest) {
      var a, b :| IsOpener(s, a, b, rest);
      assert s[..3] == "/**" && s[3..] == a + "*" + (b + "@openapi" + rest);
      SkipBreakFinds(s[3..], false, a, b + "@openapi" + rest);
      SkipTagFinds(b, rest);
    }
  }

  // ---------------------------------------------------------------- [\s\S]*?\*/\s*\n

  /** A closer and the line feed after it stand at position `k` of `s`. */
  predicate ClosesAt(s: string, k: nat) {
    k + 2 <= |s| && s[k] == '*' && s[k + 1] == '/' && LastBreak(s[k + 2..]).Some?
  }

  ghost predicate ClosesFirstAt(s: string, k: nat) {
    ClosesAt(s, k) && forall j: nat :: j < k ==> !ClosesAt(s, j)
  }

  lemma ClosesBehind(s: string, k: nat)
    requires s != ""
    ensures ClosesAt(s[1..], k) <==> ClosesAt(s, k + 1)
    ensures k + 2 <= |s[1..]| ==> s[1..][k + 2..] == s[k + 3..]
  {
    hide LastBreak;
    if k + 2 <= |s[1..]| { assert s[1..][k + 2..] == s[k + 3..]; }
  }

  lemma ClosesHere(s: string)
    ensures ClosesAt(s, 0) <==> "*/" <= s && LastBreak(s[2..]).Some?
  {
    hide LastBreak;
  }

  /** The scan finds the first closer, if there is one. */
  lemma {:induction false} CloserFound(s: string) returns (k: nat)
    ensures AfterCloser(s).Some? ==> ClosesFirstAt(s, k) && AfterCloser(s) == LastBreak(s[k + 2..])
    ensures AfterCloser(s).None? ==> forall j: nat :: !ClosesAt(s, j)
    decreases |s|
  {
    hide LastBreak, ClosesAt;
    k := 0;
    ClosesHere(s);
    if s == "" {
      assert forall j: nat :: !ClosesAt(s, j) by { NothingCloses(); }
    } else if !ClosesAt(s, 0) {
      var l := CloserFound(s[1..]);
      k := l + 1;
      forall j: nat
        ensures ClosesAt(s, j) <==> 0 < j && ClosesAt(s[1..], j - 1)
      {
        if 0 < j { ClosesBehind(s, j - 1); }
      }
      if AfterCloser(s).Some? {
        ClosesBehind(s, l);
        ClosesInside(s[1..], l);
      }
    }
  }

  lemma NothingCloses()
    ensures forall j: nat :: !ClosesAt("", j)
  {
  }

  lemma ClosesInside(s: string, k: nat)
    requires ClosesAt(s, k)
    ensures k + 2 <= |s|
  {
  }

  /** The rest of an annotation goes to the first closer that ends a line, and no further. */
  lemma CloserShape(s: string, rest: string)
    ensures AfterCloser(s) == Some(rest) <==>
        exists k: nat :: ClosesFirstAt(s, k) && LastBreak(s[k + 2..]) == Some(rest)
    ensures AfterCloser(s).None? <==> forall k: nat :: !ClosesAt(s, k)
  {
    hide AfterCloser, LastBreak;
    var l := CloserFound(s);
    forall k: nat | ClosesFirstAt(s, k) && ClosesFirstAt(s, l)
      ensures k == l
    {
    }
  }

  // ------------------------------------------------------------- router\.(get|post|put|patch|delete)\(\s*['"](.*?)['"]

  ghost predicate IsRoute(s: string, route: Route, space: string, q: char, r: char, rest: string) {
    && s == "router." + Lower(route.verb) + "(" + space + [q] + route.path + [r] + rest
    && AllSpace(space) && IsQuote(q) && IsQuote(r)
    && forall c :: c in route.path ==> !IsQuote(c) && !IsLineTerminator(c)
  }

  lemma {:induction false} QuoteParts(s: string) returns (r: char, rest: string)
    requires UntilQuote(s).Some?
    ensures s == UntilQuote(s).value + [r] + rest && IsQuote(r)
    ensures forall c :: c in UntilQuote(s).value ==> !IsQuote(c) && !IsLineTerminator(c)
  {
    assert s == [s[0]] + s[1..];
    if IsQuote(s[0]) {
      r, rest := s[0], s[1..];
    } else {
      r, rest := QuoteParts(s[1..]);
    }
  }

  lemma {:induction false} QuoteFinds(path: string, r: char, rest: string)
    requires IsQuote(r) && forall c :: c in path ==> !IsQuote(c) && !IsLineTerminator(c)
    ensures UntilQuote(path + [r] + rest) == Some(path)
  {
    var s := path + [r] + rest;
    if path == "" {
      assert s[0] == r;
    } else {
      assert s[1..] == path[1..] + [r] + rest;
      assert path == [path[0]] + path[1..];
      assert path[0] in path && s[0] == path[0];
      assert forall c :: c in path[1..] ==> c in path;
      QuoteFinds(path[1..], r, rest);
    }
  }

  lemma {:induction false} SpaceParts(s: string) returns (space: string)
    ensures s == space + SkipSpaces(s) && AllSpace(space)
  {
    hide IsSpace;
    if s != "" && IsSpace(s[0]) {
      var inner := SpaceParts(s[1..]);
      space := [s[0]] + inner;
      assert s == [s[0]] + s[1..];
      assert SkipSpaces(s) == SkipSpaces(s[1..]);
      hide SkipSpaces;
      Associates([s[0]], inner, SkipSpaces(s[1..]));
    } else {
      space := "";
    }
  }

  lemma {:induction false} SpaceEnds(space: string, rest: string)
    requires AllSpace(space) && (rest == "" || !IsSpace(rest[0]))
    ensures SkipSpaces(space + rest) == rest
  {
    if space == "" {
      assert space + rest == rest;
    } else {
      assert (space + rest)[1..] == space[1..] + rest;
      assert space[0] in space;
      assert forall c :: c in space[1..] ==> c in space;
      SpaceEnds(space[1..], rest);
    }
  }

  lemma VerbShape(s: string, v: Verb)
    ensures VerbAt(s) == Some(v) <==> Lower(v) + "(" <= s
  {
    if Lower(v) + "(" <= s {
      assert |s| > 1 && s[0] == Lower(v)[0] && s[1] == (Lower(v) + "(")[1];
    }
  }

  /** The steps of the scan for a route. */
  lemma RouteScan(s: string)
    requires RouteAt(s).Some?
    ensures var route := RouteAt(s).value;
            var head := "router." + Lower(route.verb) + "(";
            && head <= s
            && var quoted := SkipSpaces(s[|head|..]);
               quoted != "" && IsQuote(quoted[0]) && UntilQuote(quoted[1..]) == Some(route.path)
  {
    hide UntilQuote, SkipSpaces, VerbAt;
    var route := RouteAt(s).value;
    var head := "router." + Lower(route.verb) + "(";
    VerbShape(s[7..], route.verb);
    hide Lower;
    assert s[..7] == "router.";
    assert s[7..][..|Lower(route.verb)| + 1] == Lower(route.verb) + "(";
    assert s[..|head|] == s[..7] + s[7..][..|Lower(route.verb)| + 1];
  }

  lemma Assemble(head: string, space: string, quoted: string, q: char, path: string, r: char, rest: string)
    requires quoted != "" && quoted[0] == q && quoted[1..] == path + [r] + rest
    ensures head + (space + quoted) == head + space + [q] + path + [r] + rest
  {
    assert quoted == [q] + (path + [r] + rest);
  }

  lemma RouteParts(s: string) returns (space: string, q: char, r: char, rest: string)
    requires RouteAt(s).Some?
    ensures IsRoute(s, RouteAt(s).value, space, q, r, rest)
  {
    var route := RouteAt(s).value;
    var head := "router." + Lower(route.verb) + "(";
    RouteScan(s);
    hide UntilQuote, SkipSpaces, VerbAt, RouteAt, Lower;
    var after := s[|head|..];
    assert s == head + after;
    space := SpaceParts(after);
    var quoted := SkipSpaces(after);
    q := quoted[0];
    r, rest := QuoteParts(quoted[1..]);
    Assemble(head, space, quoted, q, route.path, r, rest);
  }

  lemma Behind(a: string, b: string, c: string, s: string)
    requires s == a + b + c
    ensures a <= s && b <= s[|a|..] && s[|a|..][|b|..] == c && s[|a| + |b|..] == c
  {
    assert s[|a|..] == b + c;
  }

  lemma RouteFinds(s: string, route: Route, space: string, q: char, r: char, rest: string)
    requires IsRoute(s, route, space, q, r, rest)
    ensures RouteAt(s) == Some(route)
  {
    hide UntilQuote, SkipSpaces, VerbAt, Lower;
    var verb, quoted := Lower(route.verb) + "(", [q] + (route.path + [r] + rest);
    assert quoted[1..] == route.path + [r] + rest;
    Assemble("router." + Lower(route.verb) + "(", space, quoted, q, route.path, r, rest);
    Behind("router.", verb, space + quoted, s);
    VerbShape(s[7..], route.verb);
    SpaceEnds(space, quoted);
    QuoteFinds(route.path, r, rest);
  }

  /** The route at the start of a text, as its pattern has it. */
  lemma RouteShape(s: string, route: Route)
    ensures RouteAt(s) == Some(route) <==> exists space, q, r, rest :: IsRoute(s, route, space, q, r, rest)
  {
    hide IsRoute, RouteAt;
    if RouteAt(s) == Some(route) {
      var space, q, r, rest := RouteParts(s);
    }
    if exists space, q, r, rest :: IsRoute(s, route, space, q, r, rest) {
      var space, q, r, rest :| IsRoute(s, route, space, q, r, rest);
      RouteFinds(s, route, space, q, r, rest);
    }
  }

  /** The route's pattern matches at position `k` of the line, and matches nowhere before. */
  ghost predicate MatchesFirst(line: string, route: Route, k: nat) {
    k <= |line| && RouteAt(line[k..]) == Some(route) && forall j: nat :: j < k ==> RouteAt(line[j..]).None?
  }

  lemma MatchAtStart(line: string, route: Route, k: nat)
    ensures MatchesFirst(line, route, 0) <==> RouteAt(line) == Some(route)
    ensures MatchesFirst(line, route, k) && RouteAt(line).Some? ==> k == 0
  {
    hide RouteAt;
    assert line[0..] == line;
  }

  lemma MatchBehind(line: string, route: Route, k: nat)
    requires line != "" && RouteAt(line).None?
    ensures MatchesFirst(line, route, k + 1) <==> MatchesFirst(line[1..], route, k)
  {
    hide RouteAt;
    assert line[0..] == line;
    forall j: nat | j <= |line[1..]|
      ensures line[1..][j..] == line[j + 1..]
    {
    }
    if MatchesFirst(line[1..], route, k) {
      forall j: nat | j < k + 1
        ensures RouteAt(line[j..]).None?
      {
        assert j > 0 ==> line[1..][j - 1..] == line[j..];
      }
    }
    if MatchesFirst(line, route, k + 1) {
      forall j: nat | j < k
        ensures RouteAt(line[1..][j..]).None?
      {
        assert line[1..][j..] == line[j + 1..];
      }
    }
  }

  /** The route of a line is the leftmost one. */
  lemma {:induction false} LeftmostRoute(line: string, route: Route)
    ensures RouteIn(line) == Some(route) <==> exists k: nat :: MatchesFirst(line, route, k)
  {
    hide RouteAt, MatchesFirst;
    MatchAtStart(line, route, 0);
    if line == "" {
      NoRouteInNothing(route);
    } else if RouteAt(line).None? {
      LeftmostRoute(line[1..], route);
      if k: nat :| MatchesFirst(line[1..], route, k) { MatchBehind(line, route, k); }
      if k: nat :| MatchesFirst(line, route, k) && 0 < k { MatchBehind(line, route, k - 1); }
    } else if k: nat :| MatchesFirst(line, route, k) {
      MatchAtStart(line, route, k);
    }
  }

  lemma NoRouteInNothing(route: Route)
    ensures forall k: nat :: !MatchesFirst("", route, k)
  {
  }

  // ---------------------------------------------------------------- :name becomes {name} becomes a parameter

  /** The names behind colons and those in braces. */
  function PathNames(s: string): seq<string>
    decreases |s|
  {
    if s == "" then []
    else
      var w := Word(s[1..]);
      if s[0] == ':' && w != "" then [w] + PathNames(s[1 + |w|..])
      else if s[0] == '{' && w != "" && |w| + 1 < |s| && s[|w| + 1] == '}' then [w] + PathNames(s[|w| + 2..])
      else PathNames(s[1..])
  }

  lemma {:induction false} WordStops(w: string, t: string)
    requires (forall c :: c in w ==> IsWord(c)) && (t == "" || !IsWord(t[0]))
    ensures Word(w + t) == w
  {
    if w == "" {
      assert w + t == t;
    } else {
      assert (w + t)[1..] == w[1..] + t;
      assert w[0] in w;
      assert forall c :: c in w[1..] ==> c in w;
      WordStops(w[1..], t);
    }
  }

  /** A name in braces is found, and a character outside of them is passed over. */
  lemma BracedName(w: string, t: string)
    requires w != "" && forall c :: c in w ==> IsWord(c)
    ensures PathParams("{" + w + "}" + t) == [w] + PathParams(t)
  {
    var b := "{" + w + "}" + t;
    assert b[1..] == w + ("}" + t);
    WordStops(w, "}" + t);
    assert b[|w| + 1] == '}' && b[|w| + 2..] == t;
  }

  lemma OtherCharacter(c: char, t: string)
    requires c != '{'
    ensures PathParams([c] + t) == PathParams(t)
  {
    assert ([c] + t)[1..] == t;
  }

  lemma WordAhead(c: char, t: string)
    requires IsWord(c)
    ensures Word([c] + t) == [c] + Word(t)
  {
    assert ([c] + t)[1..] == t;
  }

  lemma BracesAhead(c: char, t: string)
    requires IsWord(c)
    ensures Braces([c] + t) == [c] + Braces(t)
  {
    assert ([c] + t)[1..] == t;
  }

  lemma NoWord(s: string)
    requires s == "" || !IsWord(s[0])
    ensures Word(s) == "" && Word(Braces(s)) == ""
    ensures (Braces(s) != "" && Braces(s)[0] == '}') <==> (s != "" && s[0] == '}')
  {
  }

  lemma Ahead<T>(c: T, v: seq<T>, t: seq<T>)
    requires v <= t
    ensures [c] + v <= [c] + t && ([c] + t)[|[c] + v|..] == t[|v|..]
    ensures |v| < |t| ==> ([c] + t)[|[c] + v|] == t[|v|]
  {
  }

  /**
   * Putting braces around names keeps the word at the start of a text, and what follows it closes a brace as before.
   */
  lemma {:induction false} BracesKeepWord(s: string)
    ensures var w, b := Word(s), Braces(s);
            && Word(b) == w && w <= s && w <= b
            && b[|w|..] == Braces(s[|w|..])
            && ((|w| < |b| && b[|w|] == '}') <==> (|w| < |s| && s[|w|] == '}'))
    decreases |s|
  {
    hide Word, Braces, IsWord;
    if s == "" || !IsWord(s[0]) {
      NoWord(s);
      assert Braces(s)[0..] == Braces(s) && s[0..] == s;
    } else {
      var c, t, v := s[0], s[1..], Word(s[1..]);
      BracesKeepWord(t);
      assert s == [c] + t;
      BracesAhead(c, t);
      WordAhead(c, t);
      WordAhead(c, Braces(t));
      Ahead(c, v, t);
      Ahead(c, v, Braces(t));
    }
  }

  /** The parameters printed are the names behind colons and those in braces, in order. */
  lemma {:induction false} ParamsArePathNames(s: string)
    ensures PathParams(Braces(s)) == PathNames(s)
    decreases |s|
  {
    hide PathParams;
    if s == "" {
      assert PathParams("") == [] by { NoParams(); }
    } else {
      var w, t := Word(s[1..]), s[1..];
      BracesKeepWord(t);
      if s[0] == ':' && w != "" {
        ParamsArePathNames(s[1 + |w|..]);
        BracedName(w, Braces(s[1 + |w|..]));
      } else if s[0] == '{' {
        BraceAhead(s);
        ParamsArePathNames(t);
        if |w| + 2 <= |s| { ParamsArePathNames(s[|w| + 2..]); }
      } else {
        ParamsArePathNames(t);
        OtherCharacter(s[0], Braces(t));
      }
    }
  }

  lemma BraceScan(b: string)
    ensures var w := Word(b);
            PathParams(['{'] + b) ==
              if w != "" && |w| < |b| && b[|w|] == '}' then [w] + PathParams(b[|w| + 1..]) else PathParams(b)
  {
    var s := ['{'] + b;
    assert s[1..] == b;
    if |Word(b)| < |b| { assert s[|Word(b)| + 1] == b[|Word(b)|] && s[|Word(b)| + 2..] == b[|Word(b)| + 1..]; }
    hide Word;
  }

  lemma BraceStays(t: string)
    requires var w := Word(t); |w| < |t| && t[|w|] == '}'
    ensures var w := Word(t); |w| < |Braces(t)| && Braces(t)[|w| + 1..] == Braces(t[|w| + 1..])
  {
    BracesKeepWord(t);
    var w := Word(t);
    var rest := t[|w|..];
    assert rest[0] == '}' && rest[1..] == t[|w| + 1..];
    hide Word;
    assert Braces(rest) == ['}'] + Braces(rest[1..]);
    hide Braces;
    assert Braces(t)[|w|..][1..] == Braces(t)[|w| + 1..];
  }

  /** An opening brace of the text's own. */
  lemma BraceAhead(s: string)
    requires s != "" && s[0] == '{'
    ensures var w := Word(s[1..]);
            PathParams(Braces(s)) ==
              if w != "" && |w| + 1 < |s| && s[|w| + 1] == '}' then [w] + PathParams(Braces(s[|w| + 2..]))
              else PathParams(Braces(s[1..]))
  {
    var t := s[1..];
    var w := Word(t);
    assert Braces(s) == ['{'] + Braces(t);
    BracesKeepWord(t);
    BraceScan(Braces(t));
    hide Braces, Word, PathParams;
    if |w| < |t| {
      assert t[|w|] == s[|w| + 1] && t[|w| + 1..] == s[|w| + 2..];
      if t[|w|] == '}' { BraceStays(t); }
    }
  }

  lemma NoParams()
    ensures PathParams("") == []
  {
  }
}
