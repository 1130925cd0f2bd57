/** Routes found in a line, and the comment block the annotator prints above a route. */
module SwaggerBlock {
  import opened Common
  import opened SwaggerText

  datatype Verb = Get | Post | Put | Patch | Delete

  datatype Route = Route(verb: Verb, path: string)

  function Lower(v: Verb): string {
    match v
    case Get => "get"
    case Post => "post"
    case Put => "put"
    case Patch => "patch"
    case Delete => "delete"
  }

  function Upper(v: Verb): string {
    match v
    case Get => "GET"
    case Post => "POST"
    case Put => "PUT"
    case Patch => "PATCH"
    case Delete => "DELETE"
  }

  // ----------------------------------------------------------- /router\.(get|post|put|patch|delete)\(\s*['"](.*?)['"]/

  predicate IsQuote(c: char) {
    c == '\'' || c == '"'
  }

  /** The characters `.` does not match. */
  predicate IsLineTerminator(c: char) {
    c == '\n' || c == '\r' || c as int == 0x2028 || c as int == 0x2029
  }

  /** The text before the first quote, if no line ends before it. */
  function UntilQuote(s: string): (text: Option<string>)
    ensures text.Some? ==> forall c :: c in text.value ==> c in s
  {
    if s == "" then None
    else if IsQuote(s[0]) then Some("")
    else if IsLineTerminator(s[0]) || UntilQuote(s[1..]).None? then None
    else Some([s[0]] + UntilQuote(s[1..]).value)
  }

  function SkipSpaces(s: string): (rest: string)
    ensures forall c :: c in rest ==> c in s
  {
    if s != "" && IsSpace(s[0]) then SkipSpaces(s[1..]) else s
  }

  function VerbAt(s: string): Option<Verb> {
    if "get(" <= s then Some(Get)
    else if "post(" <= s then Some(Post)
    else if "put(" <= s then Some(Put)
    else if "patch(" <= s then Some(Patch)
    else if "delete(" <= s then Some(Delete)
    else None
  }

  /** The route that starts at the first character of `s`. */
  function RouteAt(s: string): (route: Option<Route>)
    ensures route.Some? ==> s != "" && s[0] == 'r' && forall c :: c in route.value.path ==> c in s
  {
    if !("router." <= s) || VerbAt(s[7..]).None? then None
    else
      var verb := VerbAt(s[7..]).value;
      var rest := SkipSpaces(s[8 + |Lower(verb)|..]);
      assert forall c :: c in s[8 + |Lower(verb)|..] ==> c in s;
      if rest == "" || !IsQuote(rest[0]) || UntilQuote(rest[1..]).None? then None
      else Some(Route(verb, UntilQuote(rest[1..]).value))
  }

  /** The first route in a line. */
  function RouteIn(line: string): (route: Option<Route>)
    ensures route.Some? ==> forall c :: c in route.value.path ==> c in line
  {
    if line == "" then None
    else if RouteAt(line).Some? then RouteAt(line)
    else RouteIn(line[1..])
  }

  function Contains(s: string, part: string): bool {
    part <= s || (s != "" && Contains(s[1..], part))
  }

  // ---------------------------------------------------------------- the pieces of a block

  /** `\w`. */
  predicate IsWord(c: char) {
    'a' <= c <= 'z' || 'A' <= c <= 'Z' || '0' <= c <= '9' || c == '_'
  }

  predicate IsName(w: string) {
    w != "" && forall c :: c in w ==> IsWord(c)
  }

  function Word(s: string): (w: string)
    ensures w <= s && forall c :: c in w ==> IsWord(c)
  {
    if s != "" && IsWord(s[0]) then [s[0]] + Word(s[1..]) else ""
  }

  /** `:name` becomes `{name}`. */
  function Braces(s: string): string
    decreases |s|
  {
    if s == "" then ""
    else if s[0] == ':' && Word(s[1..]) != "" then
      var w := Word(s[1..]);
      "{" + w + "}" + Braces(s[1 + |w|..])
    else [s[0]] + Braces(s[1..])
  }

  /** The names in `{name}`. */
  function PathParams(s: string): (names: seq<string>)
    ensures forall w :: w in names ==> IsName(w)
    decreases |s|
  {
    if s == "" then []
    else
      var w := if s[0] == '{' then Word(s[1..]) else "";
      if w != "" && |w| + 1 < |s| && s[|w| + 1] == '}' then [w] + PathParams(s[|w| + 2..]) else PathParams(s[1..])
  }

  /** The text after the last slash. */
  function AfterLastSlash(s: string): (t: string)
    ensures forall c :: c in t ==> c in s
  {
    if s == "" || s[|s| - 1] == '/' then "" else AfterLastSlash(s[..|s| - 1]) + [s[|s| - 1]]
  }

  /** The last segment that is not empty. */
  function LastSegment(s: string): (t: string)
    ensures forall c :: c in t ==> c in s
  {
    if s != "" && s[|s| - 1] == '/' then LastSegment(s[..|s| - 1]) else AfterLastSlash(s)
  }

  function Tag(mount: string): string {
    if LastSegment(mount) == "" then "default" else LastSegment(mount)
  }

  function FullPath(mount: string, path: string): string {
    Braces(mount + if path == "/" then "" else path)
  }

  function ParamLines(name: string): seq<string> {
    ["       - in: path", "         name: " + name, "         required: true", "         schema:",
     "           type: string"]
  }

  function ParamTexts(names: seq<string>): seq<string> {
    if names == [] then [] else ParamLines(names[0]) + ParamTexts(names[1..])
  }

  /** A list endpoint gets paging parameters. */
  predicate IsList(route: Route, line: string) {
    route.verb == Get && (Contains(line, ".list") || Contains(line, "listMine") || Contains(line, "listAll"))
  }

  function PageTexts(alone: bool): seq<string> {
    (if alone then ["     parameters:"] else []) +
    ["       - in: query", "         name: page", "         schema:", "           type: integer",
     "       - in: query", "         name: size", "         schema:", "           type: integer"]
  }

  function ErrorTexts(code: string): seq<string> {
    ["       " + code + ":", "         $ref: " + "'#/components/responses/" + code + "'"]
  }

  function ResponseTexts(): seq<string> {
    ["     responses:", "       200:", "         description: Success"] +
    ErrorTexts("400") + ErrorTexts("401") + ErrorTexts("403") + ErrorTexts("404") + ErrorTexts("500")
  }

  /** The lines of a comment, each behind its star. */
  function Star(texts: seq<string>): seq<string> {
    if texts == [] then [] else [" *" + texts[0]] + Star(texts[1..])
  }

  function HeadLines(mount: string, route: Route): seq<string> {
    [" * " + FullPath(mount, route.path) + ":", " *   " + Lower(route.verb) + ":", " *     tags: [" + Tag(mount) + "]"]
  }

  function SummaryStart(verb: Verb): string {
    " *     summary: " + Upper(verb) + " "
  }

  function Summary(route: Route): string {
    SummaryStart(route.verb) + if route.path == "/" then "index" else route.path
  }

  function TailTexts(mount: string, route: Route, line: string): seq<string> {
    var names := PathParams(FullPath(mount, route.path));
    ["     security:", "       - bearerAuth: []"] +
    (if names == [] then [] else ["     parameters:"] + ParamTexts(names)) +
    (if IsList(route, line) then PageTexts(names == []) else []) +
    ResponseTexts()
  }

  /** Everything between the summary and the end of the comment. */
  function TailLines(mount: string, route: Route, line: string): seq<string> {
    Star(TailTexts(mount, route, line))
  }

  function Block(mount: string, route: Route, line: string): seq<string> {
    ["/**", " * @openapi"] + HeadLines(mount, route) + [Summary(route)] + TailLines(mount, route, line) + [" */"]
  }

  // ---------------------------------------------------------------- the strip pass takes a printed block out again

  /** A line of a block that cannot end the comment early. */
  predicate Safe(l: string) {
    '\n' !in l && !EndsWithCloser(l)
  }

  /** Ends in a character that no comment closer or white space ends in. */
  predicate Plain(l: string) {
    '\n' !in l && l != "" && !IsSpace(l[|l| - 1]) && l[|l| - 1] != '/'
  }

  lemma PlainIsSafe(lines: seq<string>)
    requires forall l :: l in lines ==> Plain(l)
    ensures forall l :: l in lines ==> Safe(l)
  {
    forall l | l in lines
      ensures Safe(l)
    {
      EndsPlainly(l);
    }
  }

  predicate IsClean(c: char) {
    c != '\n' && c != '*' && c != '@' && c != '('
  }

  /** Text below the summary: no star, no tag, no call, and an end that is no slash and no white space. */
  predicate Calm(t: string) {
    && t != "" && !IsSpace(t[|t| - 1]) && t[|t| - 1] != '/'
    && forall c :: c in t ==> IsClean(c)
  }

  lemma CalmTogether(a: seq<string>, b: seq<string>)
    requires (forall t :: t in a ==> Calm(t)) && forall t :: t in b ==> Calm(t)
    ensures forall t :: t in a + b ==> Calm(t)
  {
    hide Calm;
  }

  predicate Clean(s: string) {
    forall c :: c in s ==> IsClean(c)
  }

  lemma CalmAround(start: string, code: string, end: string)
    requires Clean(start) && Clean(code) && Calm(end)
    ensures Calm(start + code + end)
  {
    assert (start + code + end)[|start + code + end| - 1] == end[|end| - 1];
  }

  lemma ReferenceIsClean()
    ensures Clean("'#/components/responses/")
  {
  }

  lemma ErrorTextsAreCalm(code: string)
    requires Clean(code)
    ensures forall t :: t in ErrorTexts(code) ==> Calm(t)
  {
    var indented, reference, path := "       ", "         $ref: ", "'#/components/responses/";
    assert Clean(indented) && Clean(reference) && Calm(":") && Calm("'");
    ReferenceIsClean();
    assert Clean(reference + path);
    hide Calm, Clean;
    CalmAround(indented, code, ":");
    CalmAround(reference + path, code, "'");
  }

  lemma SuccessTextsAreCalm()
    ensures forall t :: t in ["     responses:", "       200:", "         description: Success"] ==> Calm(t)
  {
  }

  lemma ResponseTextsAreCalm()
    ensures forall t :: t in ResponseTexts() ==> Calm(t)
  {
    hide Calm, ErrorTexts;
    var success := ["     responses:", "       200:", "         description: Success"];
    var bad, unknown, denied, missing, broken :=
      ErrorTexts("400"), ErrorTexts("401"), ErrorTexts("403"), ErrorTexts("404"), ErrorTexts("500");
    SuccessTextsAreCalm();
    ErrorTextsAreCalm("400");
    ErrorTextsAreCalm("401");
    ErrorTextsAreCalm("403");
    ErrorTextsAreCalm("404");
    ErrorTextsAreCalm("500");
    CalmTogether(success, bad);
    CalmTogether(success + bad, unknown);
    CalmTogether(success + bad + unknown, denied);
    CalmTogether(success + bad + unknown + denied, missing);
    CalmTogether(success + bad + unknown + denied + missing, broken);
  }

  lemma PageTextsAreCalm(alone: bool)
    ensures forall t :: t in PageTexts(alone) ==> Calm(t)
  {
  }

  lemma NameIsCalm(w: string)
    requires IsName(w)
    ensures Calm("         name: " + w)
  {
    assert w[|w| - 1] in w;
  }

  lemma ParamIsCalm(w: string)
    requires IsName(w)
    ensures forall t :: t in ParamLines(w) ==> Calm(t)
  {
    NameIsCalm(w);
  }

  lemma {:induction false} ParamTextsAreCalm(names: seq<string>)
    requires forall w :: w in names ==> IsName(w)
    ensures forall t :: t in ParamTexts(names) ==> Calm(t)
  {
    hide Calm, ParamLines, IsName;
    if names == [] {
    } else {
      ParamTextsAreCalm(names[1..]);
      ParamIsCalm(names[0]);
      CalmTogether(ParamLines(names[0]), ParamTexts(names[1..]));
    }
  }

  lemma SecurityTextsAreCalm()
    ensures Calm("     security:") && Calm("       - bearerAuth: []")
  {
  }

  lemma ParametersTextIsCalm()
    ensures Calm("     parameters:")
  {
  }

  lemma TailTextsAreCalm(mount: string, route: Route, line: string)
    ensures forall t :: t in TailTexts(mount, route, line) ==> Calm(t)
  {
    hide Calm, ResponseTexts, PageTexts, ParamTexts, PathParams, FullPath, IsList;
    var names := PathParams(FullPath(mount, route.path));
    SecurityTextsAreCalm();
    ParametersTextIsCalm();
    ResponseTextsAreCalm();
    PageTextsAreCalm(names == []);
    ParamTextsAreCalm(names);
  }

  /** No slash is followed by a star. */
  predicate NoSlashStar(l: string) {
    forall k :: 0 <= k < |l| - 1 ==> !(l[k] == '/' && l[k + 1] == '*')
  }

  lemma {:induction false} StarKeepsCalm(texts: seq<string>)
    requires forall t :: t in texts ==> Calm(t)
    ensures forall l :: l in Star(texts) ==> Plain(l) && NoSlashStar(l) && '@' !in l && '(' !in l
  {
    if texts == [] {
    } else {
      StarKeepsCalm(texts[1..]);
      var t := texts[0];
      var l := " *" + t;
      assert Calm(t);
      assert l[|l| - 1] == t[|t| - 1];
      forall k | 0 <= k < |l| - 1
        ensures !(l[k] == '/' && l[k + 1] == '*')
      {
        if k == 0 { assert l[0] == ' '; } else { assert l[k + 1] == t[k - 1] && t[k - 1] in t; }
      }
    }
  }

  lemma TailLinesArePlain(mount: string, route: Route, line: string)
    ensures forall l :: l in TailLines(mount, route, line) ==> Plain(l) && NoSlashStar(l) && '@' !in l && '(' !in l
  {
    TailTextsAreCalm(mount, route, line);
    StarKeepsCalm(TailTexts(mount, route, line));
  }

  lemma {:induction false} BracesKeepLine(s: string)
    requires '\n' !in s
    ensures '\n' !in Braces(s)
    decreases |s|
  {
    if s == "" {
    } else {
      if s[0] == ':' && Word(s[1..]) != "" {
        var w := Word(s[1..]);
        BracesKeepLine(s[1 + |w|..]);
        assert '\n' !in w;
      } else {
        BracesKeepLine(s[1..]);
      }
    }
  }

  lemma HeadLinesArePlain(mount: string, route: Route)
    requires '\n' !in mount && '\n' !in route.path
    ensures forall l :: l in HeadLines(mount, route) ==> Plain(l)
  {
    BracesKeepLine(mount + if route.path == "/" then "" else route.path);
    assert '\n' !in Lower(route.verb);
    assert '\n' !in Tag(mount);
  }

  /** Only the summary line can end the comment early, and it does so when the route's text ends in a closer. */
  lemma SummaryEnds(route: Route)
    requires '\n' !in route.path
    ensures '\n' !in Summary(route)
    ensures EndsWithCloser(Summary(route)) <==> EndsWithCloser(route.path)
  {
    var start, end := SummaryStart(route.verb), if route.path == "/" then "index" else route.path;
    StartIsPlain(route.verb);
    hide SummaryStart;
    CloserAfterSpace(start, end);
    NeitherHas('\n', start, end);
    if route.path == "/" {
      EndsPlainly("index");
    }
  }

  lemma NeitherHas<T>(x: T, a: seq<T>, b: seq<T>)
    ensures x in a + b <==> x in a || x in b
  {
  }

  lemma StartIsPlain(verb: Verb)
    ensures '/' !in SummaryStart(verb) && '\n' !in SummaryStart(verb)
    ensures SummaryStart(verb) != "" && SummaryStart(verb)[|SummaryStart(verb)| - 1] == ' '
  {
    var head, name := " *     summary: ", Upper(verb);
    assert '/' !in head && '\n' !in head && '/' !in name && '\n' !in name;
    hide Upper;
    NeitherHas('/', head + name, " ");
    NeitherHas('/', head, name);
    NeitherHas('\n', head + name, " ");
    NeitherHas('\n', head, name);
  }

  /** Behind the opening of a block the strip pass looks for a closer. */
  lemma OpenerIsFound(y: string)
    ensures AfterOpener("/**\n * @openapi\n" + y) == Some("\n" + y)
  {
    var s := "/**\n * @openapi\n" + y;
    var spaced, tagged := " @openapi\n" + y, "@openapi\n" + y;
    assert s[3..] == "\n *" + spaced;
    BreakIsSkipped(spaced);
    assert spaced[1..] == tagged;
    assert tagged[8..] == "\n" + y;
    assert "@openapi" <= tagged;
    assert SkipTag(tagged) == Some("\n" + y);
  }

  lemma BreakIsSkipped(y: string)
    ensures SkipBreak("\n *" + y, false) == Some(y)
  {
    var s := "\n *" + y;
    assert s[1..] == " *" + y;
    assert s[1..][1..] == "*" + y;
    assert s[1..][1..][1..] == y;
    assert SkipBreak(s[1..][1..], true) == Some(y);
    assert SkipBreak(s[1..], true) == Some(y);
  }

  lemma {:induction false} UnlinesAppend(a: seq<string>, b: seq<string>)
    ensures Unlines(a + b) == Unlines(a) + Unlines(b)
  {
    if a == [] {
      assert a + b == b;
    } else {
      UnlinesAppend(a[1..], b);
      assert (a + b)[1..] == a[1..] + b;
    }
  }

  /** What the strip pass leaves of a block: nothing, or what stands below a summary that ends the comment early. */
  function Leftover(mount: string, route: Route, line: string): seq<string> {
    if EndsWithCloser(route.path) then TailLines(mount, route, line) + [" */"] else []
  }

  lemma UnlinesOne(l: string)
    ensures Unlines([l]) == l + "\n"
  {
    assert Unlines([l][1..]) == "";
  }

  lemma CommentParts(head: seq<string>, summary: string, tail: seq<string>, rest: string)
    ensures Unlines(["/**", " * @openapi"] + head + [summary] + tail + [" */"]) + rest
         == "/**\n * @openapi\n" + (Unlines(head) + (summary + "\n" + (Unlines(tail) + (" */\n" + rest))))
  {
    hide Unlines;
    var opening := ["/**"] + [" * @openapi"];
    assert opening == ["/**", " * @openapi"];
    UnlinesAppend(opening + head + [summary] + tail, [" */"]);
    UnlinesAppend(opening + head + [summary], tail);
    UnlinesAppend(opening + head, [summary]);
    UnlinesAppend(opening, head);
    UnlinesAppend(["/**"], [" * @openapi"]);
    UnlinesOne("/**");
    UnlinesOne(" * @openapi");
    UnlinesOne(" */");
    UnlinesOne(summary);
    assert "/**" + "\n" + (" * @openapi" + "\n") == "/**\n * @openapi\n";
    assert " */" + "\n" == " */\n";
    Regroup("/**\n * @openapi\n", Unlines(head), summary + "\n", Unlines(tail), " */\n", rest);
  }

  /** Concatenation is associative. */
  lemma Regroup(a: string, b: string, c: string, d: string, e: string, f: string)
    ensures a + b + c + d + e + f == a + (b + (c + (d + (e + f))))
  {
  }

  /** Exactly the routes whose text ends in a comment closer leave something behind. */
  lemma BlockIsStripped(mount: string, route: Route, line: string, rest: string)
    requires '\n' !in mount && '\n' !in route.path && LastBreak(rest).None?
    ensures AfterBlock(Unlines(Block(mount, route, line)) + rest)
         == Some(Unlines(Leftover(mount, route, line)) + rest)
    ensures Leftover(mount, route, line) == [] <==> !EndsWithCloser(route.path)
  {
    hide AfterCloser, EndsWithCloser, HeadLines, Summary, LastBreak, TailLines, SkipBreak, SkipTag, AfterOpener;
    var head, tail := HeadLines(mount, route), TailLines(mount, route, line);
    var end := " */\n" + rest;
    var below := Unlines(tail) + end;
    var body := Unlines(head) + (Summary(route) + "\n" + below);
    CommentParts(head, Summary(route), tail, rest);
    OpenerIsFound(body);
    AfterCloserLine("", body);
    assert "" + "\n" + body == "\n" + body;
    NothingEnds();
    HeadLinesArePlain(mount, route);
    PlainIsSafe(head);
    AfterCloserLines(head, Summary(route) + "\n" + below);
    SummaryEnds(route);
    AfterCloserLine(Summary(route), below);
    if EndsWithCloser(route.path) {
      TailIsSolid(mount, route, line, end);
      UnlinesAppend(tail, [" */"]);
      assert Unlines([" */"]) == " */\n";
      assert Unlines(Leftover(mount, route, line)) + rest == below;
    } else {
      TailLinesArePlain(mount, route, line);
      PlainIsSafe(tail);
      AfterCloserLines(tail, end);
      AfterCloserLine(" */", rest);
      assert " */" + "\n" + rest == end;
      assert Unlines([]) + rest == rest;
    }
  }

  lemma NothingEnds()
    ensures !EndsWithCloser("") && EndsWithCloser(" */")
  {
    assert " */"[1..] == "*/";
    assert "*/"[2..] == "";
  }

  /** The tail starts with a line that is not blank. */
  lemma TailIsSolid(mount: string, route: Route, line: string, rest: string)
    ensures LastBreak(Unlines(TailLines(mount, route, line)) + rest).None?
  {
    var tail := TailLines(mount, route, line);
    assert TailTexts(mount, route, line)[0] == "     security:";
    assert tail[0] == " *" + "     security:";
    var s := Unlines(tail) + rest;
    assert s[0] == ' ' && s[1] == '*';
    assert s[1..][0] == '*';
  }
}
