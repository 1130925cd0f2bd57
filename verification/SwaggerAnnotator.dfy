/** The annotator: strip old blocks, print one block above each eligible route, and run it again. */
module SwaggerAnnotator {
  import opened Common
  import opened SwaggerText
  import opened SwaggerBlock
  import opened SwaggerDocs
  import opened SwaggerPatterns

  /** A line gets a block when it holds a route and the line before it exists and closes no comment. */
  predicate Eligible(lines: seq<string>, i: nat)
    requires i < |lines|
  {
    RouteIn(lines[i]).Some? && 0 < i && !Contains(lines[i - 1], "*/")
  }

  function BlockFor(mount: string, lines: seq<string>, i: nat): seq<string>
    requires i < |lines|
  {
    if Eligible(lines, i) then Block(mount, RouteIn(lines[i]).value, lines[i]) else []
  }

  /** The printed lines from line `i` on. */
  function Woven(mount: string, lines: seq<string>, i: nat): seq<string>
    requires i <= |lines|
    decreases |lines| - i
  {
    if i == |lines| then [] else BlockFor(mount, lines, i) + [lines[i]] + Woven(mount, lines, i + 1)
  }

  /** The file's new content; a file whose exports have no known mount is not written. */
  function Annotated(content: string, mountOf: string -> Option<string>): string {
    var stripped := Strip(content);
    match mountOf(stripped)
    case None => content
    case Some(mount) => Join(Woven(mount, Split(stripped), 0))
  }

  lemma PushLine(newLines: seq<string>, mount: string, lines: seq<string>, i: nat)
    requires i < |lines|
    ensures newLines + Woven(mount, lines, i)
         == newLines + BlockFor(mount, lines, i) + [lines[i]] + Woven(mount, lines, i + 1)
  {
    hide BlockFor;
  }

  /** The loop that pushes lines. */
  method AnnotateFile(content: string, mountOf: string -> Option<string>) returns (written: string)
    ensures written == Annotated(content, mountOf)
    ensures var stripped := Strip(content);
            match mountOf(stripped)
            case None => written == content
            case Some(mount) => '\n' !in mount ==> IsAnnotated(Split(written), mount, Split(stripped))
  {
    AnnotatedDocuments(content, mountOf);
    hide Strip, Split, RouteIn, Contains, Block, Join, IsAnnotated;
    var stripped := Strip(content);
    var lines := Split(stripped);
    if mountOf(stripped).None? { return content; }
    var mount := mountOf(stripped).value;
    var newLines: seq<string> := [];
    for i := 0 to |lines|
      invariant newLines + Woven(mount, lines, i) == Woven(mount, lines, 0)
    {
      PushLine(newLines, mount, lines, i);
      hide Woven;
      var route := RouteIn(lines[i]);
      if route.Some? && i > 0 && !Contains(lines[i - 1], "*/") {
        newLines := newLines + Block(mount, route.value, lines[i]);
      } else {
        assert newLines + BlockFor(mount, lines, i) == newLines;
      }
      newLines := newLines + [lines[i]];
    }
    assert newLines + [] == newLines;
    return Join(newLines);
  }

  // ---------------------------------------------------------------- what is printed

  /** Where the printed text of line `k`, with its block if it has one, begins. */
  function Start(mount: string, lines: seq<string>, k: nat): int
    requires k <= |lines|
  {
    |Woven(mount, lines, 0)| - |Woven(mount, lines, k)|
  }

  lemma {:induction false} WovenSuffix(mount: string, lines: seq<string>, k: nat)
    requires k <= |lines|
    ensures 0 <= Start(mount, lines, k)
    ensures Woven(mount, lines, 0)[Start(mount, lines, k)..] == Woven(mount, lines, k)
  {
    hide BlockFor;
    if 0 < k {
      WovenSuffix(mount, lines, k - 1);
      var all, block := Woven(mount, lines, 0), BlockFor(mount, lines, k - 1);
      var here, below := Woven(mount, lines, k - 1), Woven(mount, lines, k);
      assert here == block + [lines[k - 1]] + below;
      assert here[|block| + 1..] == below;
      assert all[|all| - |here|..][|block| + 1..] == all[|all| - |below|..];
    }
  }

  /**
   * The original lines survive in order: the printed text is cut into consecutive pieces, one for each line, and a
   * piece is the line, below exactly one block if the line is eligible.
   */
  lemma LineSurvives(mount: string, lines: seq<string>, k: nat)
    requires k < |lines|
    ensures var woven, block, s := Woven(mount, lines, 0), BlockFor(mount, lines, k), Start(mount, lines, k);
            && Start(mount, lines, 0) == 0 && Start(mount, lines, |lines|) == |woven|
            && 0 <= s && s + |block| < |woven|
            && woven[s..s + |block|] == block && woven[s + |block|] == lines[k]
            && Start(mount, lines, k + 1) == s + |block| + 1
  {
    hide BlockFor;
    WovenSuffix(mount, lines, k);
    var woven, block, s := Woven(mount, lines, 0), BlockFor(mount, lines, k), Start(mount, lines, k);
    var rest := Woven(mount, lines, k);
    assert rest == block + [lines[k]] + Woven(mount, lines, k + 1);
    assert woven[s..][..|block|] == rest[..|block|] == block;
    assert woven[s + |block|] == rest[|block|];
  }

  /** The first match of the route's pattern in the line is this route. */
  ghost predicate HoldsRoute(line: string, route: Route) {
    exists k: nat :: MatchesFirst(line, route, k)
  }

  /** A line is documented when it holds a route and the line before it exists and closes no comment. */
  ghost predicate IsDocumented(lines: seq<string>, k: nat)
    requires k < |lines|
  {
    0 < k && (exists route :: HoldsRoute(lines[k], route)) && !Mentions(lines[k - 1], "*/")
  }

  /** The line alone, or below a comment that documents its route. */
  ghost predicate IsPiece(piece: seq<string>, mount: string, lines: seq<string>, k: nat)
    requires k < |lines|
  {
    && piece != [] && piece[|piece| - 1] == lines[k]
    && if IsDocumented(lines, k) then
         exists route :: HoldsRoute(lines[k], route) && Documents(piece[..|piece| - 1], mount, route, lines[k])
       else
         |piece| == 1
  }

  ghost predicate IsPieceBetween(printed: seq<string>, i: int, j: int, mount: string, lines: seq<string>, k: nat)
    requires k < |lines|
  {
    0 <= i <= j <= |printed| && IsPiece(printed[i..j], mount, lines, k)
  }

  ghost predicate IsCut(cuts: seq<int>, printed: seq<string>, mount: string, lines: seq<string>) {
    && |cuts| == |lines| + 1 && cuts[0] == 0 && cuts[|lines|] == |printed|
    && forall k :: 0 <= k < |lines| ==> IsPieceBetween(printed, cuts[k], cuts[k + 1], mount, lines, k)
  }

  /** The printed lines are one piece for each line, in order. */
  ghost predicate IsAnnotated(printed: seq<string>, mount: string, lines: seq<string>) {
    exists cuts :: IsCut(cuts, printed, mount, lines)
  }

  lemma HoldsRouteIs(line: string, route: Route)
    ensures HoldsRoute(line, route) <==> RouteIn(line) == Some(route)
  {
    LeftmostRoute(line, route);
    hide RouteIn, MatchesFirst;
  }

  lemma EligibleIsDocumented(lines: seq<string>, k: nat)
    requires k < |lines|
    ensures Eligible(lines, k) <==> IsDocumented(lines, k)
    ensures RouteIn(lines[k]).Some? ==> HoldsRoute(lines[k], RouteIn(lines[k]).value)
  {
    if 0 < k { ContainsIs(lines[k - 1], "*/"); }
    forall route { HoldsRouteIs(lines[k], route); }
    hide RouteIn, Contains, Mentions, HoldsRoute;
  }

  lemma PieceIs(mount: string, lines: seq<string>, k: nat)
    requires k < |lines|
    ensures IsPiece(BlockFor(mount, lines, k) + [lines[k]], mount, lines, k)
  {
    EligibleIsDocumented(lines, k);
    hide RouteIn, Block, Documents, IsDocumented, HoldsRoute;
    var piece := BlockFor(mount, lines, k) + [lines[k]];
    assert piece[..|piece| - 1] == BlockFor(mount, lines, k);
    if Eligible(lines, k) { BlockDocuments(mount, RouteIn(lines[k]).value, lines[k]); }
  }

  lemma WovenIsAnnotated(mount: string, lines: seq<string>)
    ensures IsAnnotated(Woven(mount, lines, 0), mount, lines)
  {
    hide BlockFor, Woven, IsPiece;
    var printed, n := Woven(mount, lines, 0), |lines|;
    var cuts := seq(n + 1, k requires 0 <= k <= n => Start(mount, lines, k));
    NothingWoven(mount, lines);
    forall k | 0 <= k < n
      ensures IsPieceBetween(printed, cuts[k], cuts[k + 1], mount, lines, k)
    {
      LineSurvives(mount, lines, k);
      PieceIs(mount, lines, k);
      assert printed[cuts[k]..cuts[k + 1]] == BlockFor(mount, lines, k) + [lines[k]];
    }
    assert IsCut(cuts, printed, mount, lines);
  }

  lemma NothingWoven(mount: string, lines: seq<string>)
    ensures Woven(mount, lines, |lines|) == []
  {
  }

  lemma LinesTogether(a: seq<string>, b: seq<string>)
    requires LinesOf(a) && LinesOf(b)
    ensures LinesOf(a + b)
  {
  }

  lemma PlainHasLines(lines: seq<string>)
    requires forall l :: l in lines ==> Plain(l)
    ensures LinesOf(lines)
  {
    hide IsSpace;
  }

  lemma BlockHasLines(mount: string, route: Route, line: string)
    requires '\n' !in mount && '\n' !in route.path
    ensures LinesOf(Block(mount, route, line))
  {
    HeadLinesArePlain(mount, route);
    PlainHasLines(HeadLines(mount, route));
    SummaryEnds(route);
    TailLinesArePlain(mount, route, line);
    PlainHasLines(TailLines(mount, route, line));
    hide HeadLines, Summary, TailLines, Plain, NoSlashStar, EndsWithCloser;
    var opening := ["/**", " * @openapi"];
    assert LinesOf(opening) && LinesOf([Summary(route)]) && LinesOf([" */"]);
    hide LinesOf;
    LinesTogether(opening, HeadLines(mount, route));
    LinesTogether(opening + HeadLines(mount, route), [Summary(route)]);
    LinesTogether(opening + HeadLines(mount, route) + [Summary(route)], TailLines(mount, route, line));
    LinesTogether(opening + HeadLines(mount, route) + [Summary(route)] + TailLines(mount, route, line), [" */"]);
  }

  lemma {:induction false} WovenHasLines(mount: string, lines: seq<string>, i: nat)
    requires i <= |lines| && '\n' !in mount && LinesOf(lines)
    ensures LinesOf(Woven(mount, lines, i))
    ensures i < |lines| ==> Woven(mount, lines, i) != []
    decreases |lines| - i
  {
    hide RouteIn, Block, Contains;
    if i < |lines| {
      WovenHasLines(mount, lines, i + 1);
      if RouteIn(lines[i]).Some? { BlockHasLines(mount, RouteIn(lines[i]).value, lines[i]); }
    }
  }

  /** The file written is the stripped file, with a comment that documents its route above each such line. */
  lemma AnnotatedDocuments(content: string, mountOf: string -> Option<string>)
    ensures var stripped := Strip(content);
            mountOf(stripped).Some? && '\n' !in mountOf(stripped).value ==>
              IsAnnotated(Split(Annotated(content, mountOf)), mountOf(stripped).value, Split(stripped))
  {
    hide Strip, Split, Join, Woven, IsAnnotated;
    var stripped := Strip(content);
    var lines := Split(stripped);
    if mountOf(stripped).Some? && '\n' !in mountOf(stripped).value {
      var mount := mountOf(stripped).value;
      WovenIsAnnotated(mount, lines);
      WovenHasLines(mount, lines, 0);
      SplitJoin(Woven(mount, lines, 0));
    }
  }

  // ---------------------------------------------------------------- stripping the printed text

  /** The lines that stay when the printed text is stripped. */
  function Residual(mount: string, lines: seq<string>, i: nat): seq<string>
    requires i <= |lines|
    decreases |lines| - i
  {
    if i == |lines| then []
    else LeftoverFor(mount, lines, i) + [lines[i]] + Residual(mount, lines, i + 1)
  }

  function LeftoverFor(mount: string, lines: seq<string>, i: nat): seq<string>
    requires i < |lines|
  {
    if Eligible(lines, i) then Leftover(mount, RouteIn(lines[i]).value, lines[i]) else []
  }

  predicate LinesOf(lines: seq<string>) {
    forall l :: l in lines ==> '\n' !in l
  }

  /** A line with a route is not blank. */
  lemma {:induction false} RouteLineIsSolid(l: string, rest: string)
    requires '\n' !in l && RouteIn(l).Some?
    ensures LastBreak(l + rest).None?
  {
    assert l[0] in l;
    assert (l + rest)[1..] == l[1..] + rest;
    if RouteAt(l).None? {
      assert forall c :: c in l[1..] ==> c in l;
      RouteLineIsSolid(l[1..], rest);
    }
  }

  /** A line without the first two characters of an opener is not touched by the strip pass. */
  lemma {:induction false} StripInert(l: string, a: string)
    requires '\n' !in l && NoSlashStar(l)
    ensures Strip(l + "\n" + a) == l + "\n" + Strip(a)
  {
    hide SkipBreak, SkipTag, AfterCloser;
    var s := l + "\n" + a;
    if l == "" {
      assert s[1..] == a;
    } else {
      assert s[1] == (l + "\n")[1];
      assert |l| > 1 ==> s[1] == l[1] && !(l[0] == '/' && l[1] == '*');
      assert l[0] in l;
      var opener := "/**";
      assert opener[0] == '/' && opener[1] == '*';
      assert s[1..] == l[1..] + "\n" + a;
      assert forall c :: c in l[1..] ==> c in l;
      forall k | 0 <= k < |l[1..]| - 1
        ensures !(l[1..][k] == '/' && l[1..][k + 1] == '*')
      {
        assert !(l[k + 1] == '/' && l[k + 2] == '*');
      }
      StripInert(l[1..], a);
      assert l + "\n" + Strip(a) == [l[0]] + (l[1..] + "\n" + Strip(a));
    }
  }

  lemma {:induction false} StripInertLines(lines: seq<string>, a: string)
    requires forall l :: l in lines ==> '\n' !in l && NoSlashStar(l)
    ensures Strip(Unlines(lines) + a) == Unlines(lines) + Strip(a)
  {
    hide Strip, NoSlashStar;
    if lines == [] {
      assert Unlines(lines) + a == a;
    } else {
      var l, rest := lines[0], Unlines(lines[1..]);
      StripInertLines(lines[1..], a);
      StripInert(l, rest + a);
      assert Unlines(lines) + a == l + "\n" + (rest + a);
      assert l + "\n" + (rest + Strip(a)) == Unlines(lines) + Strip(a);
    }
  }

  lemma LeftoverIsInert(mount: string, route: Route, line: string)
    ensures forall l :: l in Leftover(mount, route, line) ==> '\n' !in l && NoSlashStar(l) && '@' !in l && '(' !in l
  {
    TailLinesArePlain(mount, route, line);
    hide TailLines;
  }

  /** The block above a line. */
  lemma StripBlockAbove(mount: string, l: string, route: Route, core: string)
    requires '\n' !in mount && '\n' !in route.path && LastBreak(core).None?
    ensures Strip(Unlines(Block(mount, route, l)) + core) == Unlines(Leftover(mount, route, l)) + Strip(core)
  {
    BlockIsStripped(mount, route, l, core);
    LeftoverIsInert(mount, route, l);
    StripInertLines(Leftover(mount, route, l), core);
  }

  lemma PiecesBelow(mount: string, lines: seq<string>, i: nat)
    requires i <= |lines|
    ensures Woven(mount, lines, i) == [] <==> i == |lines|
    ensures Residual(mount, lines, i) == [] <==> i == |lines|
  {
  }

  // ---------------------------------------------------------------- annotating again

  /** No eligible route's text ends in a comment closer. */
  predicate CloserFree(lines: seq<string>) {
    forall i: nat :: i < |lines| && Eligible(lines, i) ==> !EndsWithCloser(RouteIn(lines[i]).value.path)
  }

  lemma UnlinesAreLonger(lines: seq<string>)
    ensures lines != [] ==> 0 < |Unlines(lines)|
  {
  }

  /** The text of a residual, taken apart at its first line. */
  lemma ResidualParts(mount: string, lines: seq<string>, i: nat)
    requires i < |lines|
    ensures |Join(Residual(mount, lines, i))| == |Unlines(LeftoverFor(mount, lines, i))| + |lines[i]|
              + if i + 1 == |lines| then 0 else 1 + |Join(Residual(mount, lines, i + 1))|
    ensures |Join(lines[i..])| == |lines[i]| + if i + 1 == |lines| then 0 else 1 + |Join(lines[i + 1..])|
  {
    hide LeftoverFor, Unlines, Join;
    var l, left := lines[i], LeftoverFor(mount, lines, i);
    var residual := Residual(mount, lines, i + 1);
    assert lines[i..] == [l] + lines[i + 1..];
    assert Residual(mount, lines, i) == left + ([l] + residual);
    JoinAfter(left, [l] + residual);
    JoinCons(l, lines[i + 1..]);
    JoinCons(l, residual);
  }

  lemma {:induction false} ResidualIsNotShorter(mount: string, lines: seq<string>, i: nat)
    requires i < |lines|
    ensures |Join(lines[i..])| <= |Join(Residual(mount, lines, i))|
    decreases |lines| - i
  {
    hide LeftoverFor, Unlines, Join, Residual;
    ResidualParts(mount, lines, i);
    if i + 1 < |lines| { ResidualIsNotShorter(mount, lines, i + 1); }
  }

  /** Lines left over make the text longer. */
  lemma {:induction false} LeftoverMakesLonger(mount: string, lines: seq<string>, i: nat, k: nat)
    requires i <= k < |lines| && LeftoverFor(mount, lines, k) != []
    ensures |Join(lines[i..])| < |Join(Residual(mount, lines, i))|
    decreases |lines| - i
  {
    hide LeftoverFor, Unlines, Join, Residual;
    ResidualParts(mount, lines, i);
    if i < k {
      LeftoverMakesLonger(mount, lines, i + 1, k);
    } else {
      UnlinesAreLonger(LeftoverFor(mount, lines, i));
      if i + 1 < |lines| { ResidualIsNotShorter(mount, lines, i + 1); }
    }
  }

  lemma {:induction false} NothingLeftOver(mount: string, lines: seq<string>, i: nat)
    requires i <= |lines| && forall k: nat :: i <= k < |lines| ==> LeftoverFor(mount, lines, k) == []
    ensures Residual(mount, lines, i) == lines[i..]
    decreases |lines| - i
  {
    hide LeftoverFor;
    if i < |lines| {
      NothingLeftOver(mount, lines, i + 1);
      assert lines[i..] == [lines[i]] + lines[i + 1..];
    }
  }
}
