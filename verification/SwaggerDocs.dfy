/** What a printed block says about its route, line by line, without naming the functions that print it. */
module SwaggerDocs {
  import opened Common
  import opened SwaggerText
  import opened SwaggerBlock
  import opened SwaggerPatterns

  // ---------------------------------------------------------------- the path line

  /** Where the route is served: the mount followed by the route's path, or the mount alone for the root path. */
  function Served(mount: string, path: string): string {
    if path == "/" then mount else mount + path
  }

  /** `{name}` becomes `:name` again. */
  function Unbraced(s: string): string
    decreases |s|
  {
    if s == "" then ""
    else
      var w := if s[0] == '{' then Word(s[1..]) else "";
      if w != "" && |w| + 1 < |s| && s[|w| + 1] == '}' then ":" + w + Unbraced(s[|w| + 2..])
      else [s[0]] + Unbraced(s[1..])
  }

  /** No name stands behind a colon. */
  ghost predicate NoColonNames(s: string) {
    forall k: nat :: k + 1 < |s| && s[k] == ':' ==> !IsWord(s[k + 1])
  }

  lemma UnbracedName(w: string, t: string)
    requires w != "" && forall c :: c in w ==> IsWord(c)
    ensures Unbraced("{" + w + "}" + t) == ":" + w + Unbraced(t)
  {
    var b := "{" + w + "}" + t;
    assert b[1..] == w + ("}" + t);
    WordStops(w, "}" + t);
    assert b[|w| + 1] == '}' && b[|w| + 2..] == t;
  }

  lemma UnbracedOther(c: char, t: string)
    requires c != '{'
    ensures Unbraced([c] + t) == [c] + Unbraced(t)
  {
    assert ([c] + t)[1..] == t;
  }

  lemma {:induction false} UnbracedWord(w: string, t: string)
    requires forall c :: c in w ==> IsWord(c)
    ensures Unbraced(w + t) == w + Unbraced(t)
  {
    hide Unbraced;
    if w == "" {
      assert w + t == t;
    } else {
      assert w + t == [w[0]] + (w[1..] + t);
      assert w[0] in w;
      assert forall c :: c in w[1..] ==> c in w;
      UnbracedWord(w[1..], t);
      UnbracedOther(w[0], w[1..] + t);
    }
  }

  lemma UnbracedBrace(b: string)
    ensures var w := Word(b);
            Unbraced(['{'] + b) ==
              if w != "" && |w| < |b| && b[|w|] == '}' then ":" + w + Unbraced(b[|w| + 1..]) else "{" + Unbraced(b)
  {
    var s := ['{'] + b;
    assert s[1..] == b;
    if |Word(b)| < |b| { assert s[|Word(b)| + 1] == b[|Word(b)|] && s[|Word(b)| + 2..] == b[|Word(b)| + 1..]; }
    hide Word;
  }

  /** An opening brace of the text's own. */
  lemma UnbracedOwnBrace(t: string)
    ensures var w := Word(t);
            Unbraced(Braces(['{'] + t)) ==
              if w != "" && |w| < |t| && t[|w|] == '}' then ":" + w + Unbraced(Braces(t[|w| + 1..]))
              else "{" + Unbraced(Braces(t))
  {
    var w, s := Word(t), ['{'] + t;
    assert s[1..] == t && Braces(s) == ['{'] + Braces(t);
    BracesKeepWord(t);
    UnbracedBrace(Braces(t));
    hide Braces, Word, Unbraced;
    if |w| < |t| && t[|w|] == '}' { BraceStays(t); }
  }

  /** Putting names in braces can be undone. */
  lemma {:induction false} UnbracedBraces(s: string)
    ensures Unbraced(Braces(s)) == Unbraced(s)
    decreases |s|
  {
    hide Unbraced, IsWord;
    if s == "" {
    } else {
      var c, t, w := s[0], s[1..], Word(s[1..]);
      assert s == [c] + t;
      if c == ':' && w != "" {
        var rest := s[1 + |w|..];
        UnbracedBraces(rest);
        UnbracedName(w, Braces(rest));
        assert t == w + rest by { assert t[..|w|] == w; }
        UnbracedOther(c, t);
        UnbracedWord(w, rest);
      } else if c == '{' {
        UnbracedBraces(t);
        UnbracedBrace(t);
        UnbracedOwnBrace(t);
        if |w| < |t| { UnbracedBraces(t[|w| + 1..]); }
      } else {
        UnbracedBraces(t);
        UnbracedOther(c, Braces(t));
        UnbracedOther(c, t);
      }
    }
  }

  lemma {:induction false} UnbracedPlain(s: string)
    requires '{' !in s
    ensures Unbraced(s) == s
  {
    if s == "" {
    } else {
      assert s == [s[0]] + s[1..];
      UnbracedPlain(s[1..]);
      UnbracedOther(s[0], s[1..]);
    }
  }

  lemma ColonNamesAhead(a: string, b: string)
    requires NoColonNames(a) && NoColonNames(b) && a != "" && (a[|a| - 1] == ':' ==> b == "" || !IsWord(b[0]))
    ensures NoColonNames(a + b)
  {
    hide IsWord;
    var s := a + b;
    forall k: nat | k + 1 < |s| && s[k] == ':'
      ensures !IsWord(s[k + 1])
    {
      if |a| <= k { assert s[k] == b[k - |a|] && s[k + 1] == b[k - |a| + 1]; }
    }
  }

  lemma {:induction false} BracesLeaveNoNames(s: string)
    ensures NoColonNames(Braces(s))
    decreases |s|
  {
    if s == "" {
    } else {
      var w := Word(s[1..]);
      if s[0] == ':' && w != "" {
        BracesLeaveNoNames(s[1 + |w|..]);
        assert ':' !in w;
        ColonNamesAhead("{" + w + "}", Braces(s[1 + |w|..]));
      } else {
        BracesLeaveNoNames(s[1..]);
        if s[0] == ':' { NoWordFirst(s[1..]); }
        ColonNamesAhead([s[0]], Braces(s[1..]));
      }
    }
  }

  lemma NoWordFirst(s: string)
    requires Word(s) == ""
    ensures Braces(s) == "" || !IsWord(Braces(s)[0])
  {
    BracesKeepWord(s);
  }

  /**
   * The path line holds the place where the route is served, with a name in braces wherever it had one behind a colon.
   */
  ghost predicate IsPathLine(l: string, served: string) {
    exists p: string ::
      l == " * " + p + ":" && NoColonNames(p) && Unbraced(p) == Unbraced(served) && PathParams(p) == PathNames(served)
  }

  /** Without braces of its own, the place can be read off the line. */
  lemma PathLineReads(l: string, served: string)
    requires IsPathLine(l, served) && '{' !in served
    ensures |l| >= 4 && Unbraced(l[3..|l| - 1]) == served
  {
    var p :| l == " * " + p + ":" && Unbraced(p) == Unbraced(served);
    assert l[3..|l| - 1] == p;
    UnbracedPlain(served);
  }

  /** Routes of one mount that are served at different places have different path lines. */
  lemma DifferentRoutesDiffer(l: string, m: string, mount: string, path: string, other: string)
    requires IsPathLine(l, Served(mount, path)) && IsPathLine(m, Served(mount, other))
    requires '{' !in mount && '{' !in path && '{' !in other
    requires path != other && {path, other} != {"", "/"}
    ensures l != m
  {
    PathLineReads(l, Served(mount, path));
    PathLineReads(m, Served(mount, other));
    var here, there := if path == "/" then "" else path, if other == "/" then "" else other;
    assert here != there;
    assert Served(mount, path)[|mount|..] == here && Served(mount, other)[|mount|..] == there;
  }

  lemma PathLineIs(mount: string, route: Route)
    ensures IsPathLine(" * " + FullPath(mount, route.path) + ":", Served(mount, route.path))
  {
    var served := mount + if route.path == "/" then "" else route.path;
    assert served == Served(mount, route.path);
    UnbracedBraces(served);
    BracesLeaveNoNames(served);
    ParamsArePathNames(served);
    hide Unbraced, Braces, PathParams, PathNames, NoColonNames;
    assert FullPath(mount, route.path) == Braces(served);
  }

  // ---------------------------------------------------------------- the tag, and what a line mentions

  predicate AllSlashes(s: string) {
    forall c :: c in s ==> c == '/'
  }

  /** The last segment that is not empty, if there is one. */
  ghost predicate IsTag(mount: string, tag: string) {
    if AllSlashes(mount) then tag == "default"
    else
      && tag != "" && '/' !in tag
      && exists before: string, after: string ::
           mount == before + tag + after && AllSlashes(after) && (before == "" || before[|before| - 1] == '/')
  }

  lemma {:induction false} SegmentParts(s: string) returns (before: string)
    ensures s == before + AfterLastSlash(s) && '/' !in AfterLastSlash(s)
    ensures before == "" || before[|before| - 1] == '/'
  {
    if s == "" || s[|s| - 1] == '/' {
      before := s;
    } else {
      before := SegmentParts(s[..|s| - 1]);
      assert s == s[..|s| - 1] + [s[|s| - 1]];
    }
  }

  lemma {:induction false} LastSegmentParts(s: string) returns (before: string, after: string)
    ensures s == before + LastSegment(s) + after && AllSlashes(after) && '/' !in LastSegment(s)
    ensures before == "" || before[|before| - 1] == '/'
    ensures LastSegment(s) == "" <==> AllSlashes(s)
  {
    if s != "" && s[|s| - 1] == '/' {
      var shorter := s[..|s| - 1];
      assert s == shorter + "/";
      var end;
      before, end := LastSegmentParts(shorter);
      after := end + "/";
      assert forall c :: c in s <==> c in shorter || c == '/';
    } else {
      before := SegmentParts(s);
      after := "";
      if s != "" { assert s[|s| - 1] in s; }
    }
  }

  lemma TagIs(mount: string)
    ensures IsTag(mount, Tag(mount))
  {
    var before, after := LastSegmentParts(mount);
  }

  ghost predicate Mentions(line: string, part: string) {
    exists k: nat :: k <= |line| && part <= line[k..]
  }

  lemma {:induction false} ContainsIs(line: string, part: string)
    ensures Contains(line, part) <==> Mentions(line, part)
  {
    assert line[0..] == line;
    if line != "" {
      ContainsIs(line[1..], part);
      if k: nat :| k <= |line[1..]| && part <= line[1..][k..] { assert line[1..][k..] == line[k + 1..]; }
      if k: nat :| k <= |line| && part <= line[k..] && 0 < k { assert line[1..][k - 1..] == line[k..]; }
    }
  }

  // ---------------------------------------------------------------- a block

  /** The same letters, each as a capital. */
  predicate IsCapital(capital: string, small: string) {
    |capital| == |small| && forall i :: 0 <= i < |small| ==> capital[i] as int == small[i] as int - 32
  }

  /** The lines are the texts, each behind its star. */
  ghost predicate Stars(lines: seq<string>, texts: seq<string>) {
    |lines| == |texts| && forall i :: 0 <= i < |lines| ==> lines[i] == " *" + texts[i]
  }

  /** A list is documented with paging. */
  ghost predicate IsPaged(route: Route, line: string) {
    route.verb.Get? && (Mentions(line, ".list") || Mentions(line, "listMine") || Mentions(line, "listAll"))
  }

  ghost predicate IsTagLine(l: string, mount: string) {
    exists tag :: IsTag(mount, tag) && l == " *     tags: [" + tag + "]"
  }

  ghost predicate IsSummary(l: string, route: Route) {
    exists capital ::
      && IsCapital(capital, Lower(route.verb))
      && l == " *     summary: " + capital + " " + if route.path == "/" then "index" else route.path
  }

  ghost predicate IsHead(lines: seq<string>, mount: string, route: Route) {
    && |lines| == 6
    && lines[0] == "/**" && lines[1] == " * @openapi"
    && IsPathLine(lines[2], Served(mount, route.path))
    && lines[3] == " *   " + Lower(route.verb) + ":"
    && IsTagLine(lines[4], mount)
    && IsSummary(lines[5], route)
  }

  ghost predicate IsPathParameter(lines: seq<string>, name: string) {
    Stars(lines, ["       - in: path", "         name: " + name, "         required: true", "         schema:",
                  "           type: string"])
  }

  ghost predicate IsPaging(lines: seq<string>) {
    Stars(lines, ["       - in: query", "         name: page", "         schema:", "           type: integer",
                  "       - in: query", "         name: size", "         schema:", "           type: integer"])
  }

  ghost predicate IsError(lines: seq<string>, code: string) {
    Stars(lines, ["       " + code + ":", "         $ref: " + "'#/components/responses/" + code + "'"])
  }

  ghost predicate AreResponses(lines: seq<string>) {
    && |lines| == 13
    && Stars(lines[..3], ["     responses:", "       200:", "         description: Success"])
    && IsError(lines[3..5], "400") && IsError(lines[5..7], "401") && IsError(lines[7..9], "403")
    && IsError(lines[9..11], "404") && IsError(lines[11..], "500")
  }

  /** What stands below the head: security, parameters, paging, responses. */
  ghost predicate AreDetails(lines: seq<string>, names: seq<string>, paged: bool) {
    var first := if names == [] && !paged then 2 else 3;
    var pages := first + 5 * |names|;
    var responses := pages + if paged then 8 else 0;
    && |lines| == responses + 13
    && Stars(lines[..2], ["     security:", "       - bearerAuth: []"])
    && (first == 3 ==> lines[2] == " *" + "     parameters:")
    && (forall k :: 0 <= k < |names| ==> IsPathParameter(lines[first + 5 * k..first + 5 * k + 5], names[k]))
    && (paged ==> IsPaging(lines[pages..responses]))
    && AreResponses(lines[responses..])
  }

  /** A comment that documents the route of a line. */
  ghost predicate Documents(block: seq<string>, mount: string, route: Route, line: string) {
    && |block| > 6 && block[|block| - 1] == " */"
    && IsHead(block[..6], mount, route)
    && AreDetails(block[6..|block| - 1], PathNames(Served(mount, route.path)), IsPaged(route, line))
  }

  lemma {:induction false} StarIs(texts: seq<string>)
    ensures Stars(Star(texts), texts)
  {
    if texts == [] {
    } else {
      StarIs(texts[1..]);
    }
  }

  lemma StarsSlice(lines: seq<string>, texts: seq<string>, i: nat, j: nat)
    requires Stars(lines, texts) && i <= j <= |lines|
    ensures Stars(lines[i..j], texts[i..j])
  {
  }

  lemma {:induction false} ParamTextsAt(names: seq<string>, k: nat)
    ensures |ParamTexts(names)| == 5 * |names|
    ensures k < |names| ==> ParamTexts(names)[5 * k..5 * k + 5] == ParamLines(names[k])
  {
    hide ParamLines;
    if names == [] {
    } else {
      var here, rest := ParamLines(names[0]), ParamTexts(names[1..]);
      assert |here| == 5 by { FiveLines(names[0]); }
      ParamTextsAt(names[1..], if k == 0 then 0 else k - 1);
      hide ParamTexts;
      if k == 0 {
        assert (here + rest)[..5] == here;
      } else if k < |names| {
        assert (here + rest)[5 * k..5 * k + 5] == rest[5 * (k - 1)..5 * (k - 1) + 5];
      }
    }
  }

  lemma FiveLines(name: string)
    ensures |ParamLines(name)| == 5
  {
  }

  lemma TagLineIs(mount: string)
    ensures IsTagLine(" *     tags: [" + Tag(mount) + "]", mount)
  {
    TagIs(mount);
    hide IsTag, Tag;
  }

  lemma SummaryIs(route: Route)
    ensures IsSummary(Summary(route), route)
  {
    assert IsCapital(Upper(route.verb), Lower(route.verb));
    hide IsCapital, Upper, Lower;
  }

  lemma HeadIs(mount: string, route: Route)
    ensures IsHead(["/**", " * @openapi"] + HeadLines(mount, route) + [Summary(route)], mount, route)
  {
    PathLineIs(mount, route);
    TagLineIs(mount);
    SummaryIs(route);
    hide IsPathLine, IsTagLine, IsSummary, FullPath, Tag, Lower, Summary;
  }

  lemma TwoLines(code: string)
    ensures |ErrorTexts(code)| == 2
  {
  }

  lemma ResponsesAre(lines: seq<string>)
    requires Stars(lines, ResponseTexts())
    ensures AreResponses(lines)
  {
    var success := ["     responses:", "       200:", "         description: Success"];
    var bad, unknown, denied, missing, broken :=
      ErrorTexts("400"), ErrorTexts("401"), ErrorTexts("403"), ErrorTexts("404"), ErrorTexts("500");
    TwoLines("400");
    TwoLines("401");
    TwoLines("403");
    TwoLines("404");
    TwoLines("500");
    var texts := ResponseTexts();
    assert texts == success + bad + unknown + denied + missing + broken && |success| == 3;
    hide ResponseTexts, Stars;
    assert texts[..3] == success && texts[3..5] == bad && texts[5..7] == unknown && texts[7..9] == denied;
    assert texts[9..11] == missing && texts[11..] == broken;
    LengthOfStars(lines, texts);
    StarsSlice(lines, texts, 0, 3);
    StarsSlice(lines, texts, 3, 5);
    StarsSlice(lines, texts, 5, 7);
    StarsSlice(lines, texts, 7, 9);
    StarsSlice(lines, texts, 9, 11);
    StarsSlice(lines, texts, 11, 13);
    ErrorIs(lines[3..5], "400");
    ErrorIs(lines[5..7], "401");
    ErrorIs(lines[7..9], "403");
    ErrorIs(lines[9..11], "404");
    ErrorIs(lines[11..], "500");
    hide IsError, ErrorTexts;
  }

  lemma LengthOfStars(lines: seq<string>, texts: seq<string>)
    requires Stars(lines, texts)
    ensures |lines| == |texts|
  {
  }

  lemma ErrorIs(lines: seq<string>, code: string)
    ensures Stars(lines, ErrorTexts(code)) ==> IsError(lines, code)
  {
    hide Stars;
  }

  lemma PagingIs(lines: seq<string>, alone: bool)
    requires Stars(lines, PageTexts(alone))
    ensures |lines| == if alone then 9 else 8
    ensures alone ==> lines[0] == " *" + "     parameters:"
    ensures IsPaging(if alone then lines[1..] else lines)
  {
    if alone {
      StarsSlice(lines, PageTexts(alone), 1, 9);
      assert PageTexts(alone)[1..9] == PageTexts(false);
      assert lines[1..9] == lines[1..];
    }
  }

  lemma ParameterIs(lines: seq<string>, name: string)
    ensures Stars(lines, ParamLines(name)) ==> IsPathParameter(lines, name)
  {
    hide Stars;
  }

  lemma ParameterAt(lines: seq<string>, names: seq<string>, k: nat)
    requires Stars(lines, ParamTexts(names)) && k < |names|
    ensures |lines| == 5 * |names| && IsPathParameter(lines[5 * k..5 * k + 5], names[k])
  {
    hide *;
    LengthOfStars(lines, ParamTexts(names));
    ParamTextsAt(names, k);
    var i := 5 * k;
    StarsSlice(lines, ParamTexts(names), i, i + 5);
    ParameterIs(lines[i..i + 5], names[k]);
  }

  lemma ParametersAre(lines: seq<string>, names: seq<string>)
    requires Stars(lines, ParamTexts(names))
    ensures |lines| == 5 * |names|
    ensures forall k :: 0 <= k < |names| ==> IsPathParameter(lines[5 * k..5 * k + 5], names[k])
  {
    hide *;
    LengthOfStars(lines, ParamTexts(names));
    ParamTextsAt(names, 0);
    forall k | 0 <= k < |names|
      ensures IsPathParameter(lines[5 * k..5 * k + 5], names[k])
    {
      ParameterAt(lines, names, k);
    }
  }

  /** Security, parameters, paging, responses, one after another. */
  lemma DetailsTogether(secure: seq<string>, params: seq<string>, paging: seq<string>, responses: seq<string>,
                        names: seq<string>, paged: bool)
    requires Stars(secure, ["     security:", "       - bearerAuth: []"])
    requires names == [] ==> params == []
    requires names != [] ==>
               && |params| == 1 + 5 * |names| && params[0] == " *" + "     parameters:"
               && forall k :: 0 <= k < |names| ==> IsPathParameter(params[1..][5 * k..5 * k + 5], names[k])
    requires !paged ==> paging == []
    requires paged ==>
               && |paging| == (if names == [] then 9 else 8)
               && (names == [] ==> paging[0] == " *" + "     parameters:")
               && IsPaging(if names == [] then paging[1..] else paging)
    requires AreResponses(responses)
    ensures AreDetails(secure + params + paging + responses, names, paged)
  {
    hide IsPathParameter, IsPaging, IsError;
    var lines := secure + params + paging + responses;
    assert |secure| == 2 && |responses| == 13;
    hide Stars, AreResponses;
    assert lines[..2] == secure;
    var first := if names == [] && !paged then 2 else 3;
    var pages := first + 5 * |names|;
    var rest := pages + if paged then 8 else 0;
    assert lines[rest..] == responses;
    if paged { assert lines[pages..rest] == if names == [] then paging[1..] else paging; }
    forall k | 0 <= k < |names|
      ensures IsPathParameter(lines[first + 5 * k..first + 5 * k + 5], names[k])
    {
      assert lines[first + 5 * k..first + 5 * k + 5] == params[1..][5 * k..5 * k + 5];
    }
  }

  lemma {:induction false} StarAppends(a: seq<string>, b: seq<string>)
    ensures Star(a + b) == Star(a) + Star(b)
  {
    if a == [] {
      assert a + b == b;
    } else {
      StarAppends(a[1..], b);
      assert (a + b)[1..] == a[1..] + b;
    }
  }

  lemma PagedIs(route: Route, line: string)
    ensures IsList(route, line) <==> IsPaged(route, line)
  {
    ContainsIs(line, ".list");
    ContainsIs(line, "listMine");
    ContainsIs(line, "listAll");
  }

  lemma DetailsAre(mount: string, route: Route, line: string)
    ensures AreDetails(TailLines(mount, route, line), PathNames(Served(mount, route.path)), IsPaged(route, line))
  {
    var served, names := Served(mount, route.path), PathParams(FullPath(mount, route.path));
    assert names == PathNames(served) by {
      assert served == mount + if route.path == "/" then "" else route.path;
      ParamsArePathNames(served);
    }
    PagedIs(route, line);
    var paged := IsPaged(route, line);
    hide FullPath, PathParams, PathNames, IsPaged, IsList, Mentions, Contains;
    var secure := ["     security:", "       - bearerAuth: []"];
    var params := if names == [] then [] else ["     parameters:"] + ParamTexts(names);
    var paging := if paged then PageTexts(names == []) else [];
    assert TailTexts(mount, route, line) == secure + params + paging + ResponseTexts();
    hide TailTexts, PageTexts, ResponseTexts, AreResponses, IsPaging, IsPathParameter, AreDetails, ParamTexts;
    StarAppends(secure + params + paging, ResponseTexts());
    StarAppends(secure + params, paging);
    StarAppends(secure, params);
    StarIs(secure);
    StarIs(ResponseTexts());
    ResponsesAre(Star(ResponseTexts()));
    if names != [] {
      StarAppends(["     parameters:"], ParamTexts(names));
      StarIs(ParamTexts(names));
      ParametersAre(Star(ParamTexts(names)), names);
      OneStar("     parameters:");
      assert Star(params)[1..] == Star(ParamTexts(names));
    }
    if paged {
      StarIs(PageTexts(names == []));
      PagingIs(Star(PageTexts(names == [])), names == []);
    }
    DetailsTogether(Star(secure), Star(params), Star(paging), Star(ResponseTexts()), names, paged);
  }

  lemma OneStar(text: string)
    ensures Star([text]) == [" *" + text]
  {
    assert Star([text][1..]) == [];
  }

  /** A printed block documents its route. */
  lemma BlockDocuments(mount: string, route: Route, line: string)
    ensures Documents(Block(mount, route, line), mount, route, line)
  {
    HeadIs(mount, route);
    DetailsAre(mount, route, line);
    hide IsHead, AreDetails, TailLines, IsPaged, PathNames, Served, Summary;
    var head := ["/**", " * @openapi"] + HeadLines(mount, route) + [Summary(route)];
    var tail := TailLines(mount, route, line);
    assert |head| == 6;
    hide HeadLines;
    var block := Block(mount, route, line);
    assert block == head + tail + [" */"];
    assert block[..6] == head && block[6..|block| - 1] == tail;
  }
}
