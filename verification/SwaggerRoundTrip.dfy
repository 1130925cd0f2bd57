/**
 * Stripping what the annotator prints: position by position, what stands in the text and what stands in the printed
 * text, and the exact condition under which the strip pass gives the text back.
 */
module SwaggerRoundTrip {
  import opened Common
  import opened SwaggerText
  import opened SwaggerBlock
  import opened SwaggerPatterns
  import opened SwaggerAnnotator

  predicate IsPosition(lines: seq<string>, i: nat, c: nat) {
    i < |lines| && c <= |lines[i]|
  }

  /** The text from column `c` of line `i` on. */
  function TextFrom(lines: seq<string>, i: nat, c: nat): string
    requires IsPosition(lines, i, c)
  {
    lines[i][c..] + if i + 1 == |lines| then "" else "\n" + Join(lines[i + 1..])
  }

  /** What is printed from there on. */
  function PrintFrom(mount: string, lines: seq<string>, i: nat, c: nat): string
    requires IsPosition(lines, i, c)
  {
    lines[i][c..] + if i + 1 == |lines| then "" else "\n" + Join(Woven(mount, lines, i + 1))
  }

  /** What stays of it when only blocks are stripped. */
  function LeftFrom(mount: string, lines: seq<string>, i: nat, c: nat): string
    requires IsPosition(lines, i, c)
  {
    lines[i][c..] + if i + 1 == |lines| then "" else "\n" + Join(Residual(mount, lines, i + 1))
  }

  // ---------------------------------------------------------------- one step on

  lemma NextColumn(mount: string, lines: seq<string>, i: nat, c: nat)
    requires i < |lines| && c < |lines[i]|
    ensures TextFrom(lines, i, c) == [lines[i][c]] + TextFrom(lines, i, c + 1)
    ensures PrintFrom(mount, lines, i, c) == [lines[i][c]] + PrintFrom(mount, lines, i, c + 1)
    ensures LeftFrom(mount, lines, i, c) == [lines[i][c]] + LeftFrom(mount, lines, i, c + 1)
    ensures TextFrom(lines, i, c)[1..] == TextFrom(lines, i, c + 1)
    ensures PrintFrom(mount, lines, i, c)[1..] == PrintFrom(mount, lines, i, c + 1)
  {
    hide Join, Woven, Residual;
    assert lines[i][c..] == [lines[i][c]] + lines[i][c + 1..];
  }

  /** A line below what is above it and above what is below it. */
  lemma JoinAround(above: seq<string>, l: string, below: seq<string>)
    ensures Join(above + [l] + below) == Unlines(above) + (l[0..] + if below == [] then "" else "\n" + Join(below))
  {
    hide Join, Unlines;
    assert l[0..] == l;
    assert above + [l] + below == above + ([l] + below);
    JoinAfter(above, [l] + below);
    JoinCons(l, below);
    assert l + "" == l && (below != [] ==> l + "\n" + Join(below) == l + ("\n" + Join(below)));
  }

  lemma LineStart(mount: string, lines: seq<string>, i: nat)
    requires i < |lines|
    ensures Join(lines[i..]) == TextFrom(lines, i, 0)
    ensures Join(Woven(mount, lines, i)) == Unlines(BlockFor(mount, lines, i)) + PrintFrom(mount, lines, i, 0)
    ensures Join(Residual(mount, lines, i)) == Unlines(LeftoverFor(mount, lines, i)) + LeftFrom(mount, lines, i, 0)
  {
    hide Join, Unlines, BlockFor, LeftoverFor;
    var l := lines[i];
    PiecesBelow(mount, lines, i + 1);
    JoinAround([], l, lines[i + 1..]);
    JoinAround(BlockFor(mount, lines, i), l, Woven(mount, lines, i + 1));
    JoinAround(LeftoverFor(mount, lines, i), l, Residual(mount, lines, i + 1));
    hide Woven, Residual;
    assert [] + [l] + lines[i + 1..] == lines[i..];
    assert Unlines([]) + TextFrom(lines, i, 0) == TextFrom(lines, i, 0) by { NoLines(); }
    WovenParts(mount, lines, i);
  }

  lemma NoLines()
    ensures Unlines([]) == ""
  {
  }

  lemma WovenParts(mount: string, lines: seq<string>, i: nat)
    requires i < |lines|
    ensures Woven(mount, lines, i) == BlockFor(mount, lines, i) + [lines[i]] + Woven(mount, lines, i + 1)
    ensures Residual(mount, lines, i) == LeftoverFor(mount, lines, i) + [lines[i]] + Residual(mount, lines, i + 1)
  {
  }

  /** At the end of a line comes a line feed, and then the next line below its block. */
  lemma LineEnd(mount: string, lines: seq<string>, i: nat)
    requires i < |lines|
    ensures var c := |lines[i]|;
            if i + 1 == |lines| then
              TextFrom(lines, i, c) == "" && PrintFrom(mount, lines, i, c) == "" && LeftFrom(mount, lines, i, c) == ""
            else
              && TextFrom(lines, i, c) == "\n" + TextFrom(lines, i + 1, 0)
              && PrintFrom(mount, lines, i, c) ==
                   "\n" + (Unlines(BlockFor(mount, lines, i + 1)) + PrintFrom(mount, lines, i + 1, 0))
              && LeftFrom(mount, lines, i, c) ==
                   "\n" + (Unlines(LeftoverFor(mount, lines, i + 1)) + LeftFrom(mount, lines, i + 1, 0))
  {
    if i + 1 < |lines| { LineStart(mount, lines, i + 1); }
    hide Join, Unlines, BlockFor, LeftoverFor, Woven, Residual;
  }

  /** Texts that blocks may be woven into: lines without line feeds, below a mount without one. */
  predicate Weaves(mount: string, lines: seq<string>) {
    LinesOf(lines) && '\n' !in mount
  }

  /** A block starts with a slash, which neither an opener nor a closer goes on with, and closes itself. */
  lemma BlockAhead(mount: string, lines: seq<string>, i: nat)
    requires i < |lines| && Weaves(mount, lines) && Eligible(lines, i)
    ensures var core := PrintFrom(mount, lines, i, 0);
            var s := Unlines(BlockFor(mount, lines, i)) + core;
            && (forall b :: SkipBreak(s, b).None?) && SkipTag(s).None? && LastBreak(s).None?
            && AfterBlock(s) == AfterCloser(s) == Some(Unlines(LeftoverFor(mount, lines, i)) + core)
            && Strip(s) == Unlines(LeftoverFor(mount, lines, i)) + Strip(core)
  {
    hide Strip, RouteIn, Contains, Leftover, Unlines, Join, AfterCloser, AfterBlock, Woven;
    var l, core := lines[i], PrintFrom(mount, lines, i, 0);
    var route := RouteIn(l).value;
    assert l[0..] == l;
    assert l in lines;
    RoutePathInLine(l);
    RouteLineIsSolid(l, core[|l|..]);
    assert core == l + core[|l|..];
    StripBlockAbove(mount, l, route, core);
    BlockIsStripped(mount, route, l, core);
    BlockClosesItself(mount, route, l, core);
    BlockStartsWithSlash(mount, route, l, core);
  }

  lemma RoutePathInLine(l: string)
    requires '\n' !in l && RouteIn(l).Some?
    ensures '\n' !in RouteIn(l).value.path
  {
    assert forall c :: c in RouteIn(l).value.path ==> c in l;
  }

  lemma BlockStartsWithSlash(mount: string, route: Route, line: string, rest: string)
    ensures var s := Unlines(Block(mount, route, line)) + rest;
            s != "" && s[0] == '/' && (forall b :: SkipBreak(s, b).None?) && SkipTag(s).None? && LastBreak(s).None?
  {
    assert Block(mount, route, line)[0] == "/**";
    hide Block;
    var tag := "@openapi";
    assert tag[0] == '@';
  }

  /** What closes an opener before a block is the block's own closer. */
  lemma BlockClosesItself(mount: string, route: Route, line: string, rest: string)
    requires '\n' !in mount && '\n' !in route.path && LastBreak(rest).None?
    ensures var s := Unlines(Block(mount, route, line)) + rest; AfterCloser(s) == AfterBlock(s)
  {
    hide AfterCloser, EndsWithCloser, HeadLines, Summary, LastBreak, TailLines;
    var head, tail := HeadLines(mount, route), TailLines(mount, route, line);
    var body := Unlines(head) + (Summary(route) + "\n" + (Unlines(tail) + (" */\n" + rest)));
    CommentParts(head, Summary(route), tail, rest);
    OpenerIsFound(body);
    NothingEnds();
    EndsPlainly("/**");
    EndsPlainly(" * @openapi");
    AfterCloserLine("/**", " * @openapi\n" + body);
    assert "/**" + "\n" + (" * @openapi\n" + body) == "/**\n * @openapi\n" + body;
    AfterCloserLine(" * @openapi", body);
    assert " * @openapi" + "\n" + body == " * @openapi\n" + body;
    AfterCloserLine("", body);
    assert "" + "\n" + body == "\n" + body;
  }

  // ---------------------------------------------------------------- openers

  /** No block is printed above lines `i + 1` to `j`. */
  predicate Clear(lines: seq<string>, i: nat, j: nat)
    requires j < |lines|
  {
    forall k: nat :: i < k <= j ==> !Eligible(lines, k)
  }

  /** What is found in the text is found at the same place of the printed text, if no block comes between. */
  ghost predicate Met(mount: string, lines: seq<string>, i: nat, t: Option<string>, p: Option<string>, j: nat, d: nat) {
    && (t.None? ==> p.None?)
    && (t.Some? ==> && i <= j && IsPosition(lines, j, d) && 0 < d && t.value == TextFrom(lines, j, d)
                    && p == if Clear(lines, i, j) then Some(PrintFrom(mount, lines, j, d)) else None)
  }

  lemma MetBelow(mount: string, lines: seq<string>, i: nat, t: Option<string>, p: Option<string>, j: nat, d: nat)
    requires i + 1 < |lines| && Met(mount, lines, i + 1, t, p, j, d)
    ensures Met(mount, lines, i, t, if Eligible(lines, i + 1) then None else p, j, d)
  {
    hide Eligible, TextFrom, PrintFrom;
  }

  /** Behind the line feed. */
  lemma AfterFeed(mount: string, lines: seq<string>, i: nat)
    requires i + 1 < |lines|
    ensures var p := PrintFrom(mount, lines, i, |lines[i]|);
            && p != "" && p[0] == '\n'
            && p[1..] == Unlines(BlockFor(mount, lines, i + 1)) + PrintFrom(mount, lines, i + 1, 0)
            && (!Eligible(lines, i + 1) ==> p[1..] == PrintFrom(mount, lines, i + 1, 0))
  {
    LineEnd(mount, lines, i);
    hide Join, Block, Woven, Eligible;
    assert Unlines([]) + PrintFrom(mount, lines, i + 1, 0) == PrintFrom(mount, lines, i + 1, 0);
  }

  /** White space and star of an opener. */
  lemma {:induction false} SkipBreakWalk(mount: string, lines: seq<string>, i: nat, c: nat, broken: bool)
    returns (j: nat, d: nat)
    requires IsPosition(lines, i, c) && Weaves(mount, lines)
    ensures Met(mount, lines, i, SkipBreak(TextFrom(lines, i, c), broken),
                SkipBreak(PrintFrom(mount, lines, i, c), broken), j, d)
    decreases |lines| - i, |lines[i]| - c
  {
    hide Strip, Block, Leftover, Unlines, Join, AfterBlock, Woven, Residual, Eligible, TextFrom, PrintFrom, AfterCloser;
    hide SkipTag;
    j, d := i, c + 1;
    if c < |lines[i]| {
      NextColumn(mount, lines, i, c);
      if IsSpace(lines[i][c]) {
        hide Met;
        j, d := SkipBreakWalk(mount, lines, i, c + 1, broken || lines[i][c] == '\n');
      }
    } else {
      LineEnd(mount, lines, i);
      if i + 1 < |lines| {
        hide Met;
        var t, p := TextFrom(lines, i, c), PrintFrom(mount, lines, i, c);
        assert t[1..] == TextFrom(lines, i + 1, 0);
        j, d := SkipBreakWalk(mount, lines, i + 1, 0, true);
        AfterFeed(mount, lines, i);
        if Eligible(lines, i + 1) { BlockAhead(mount, lines, i + 1); }
        MetBelow(mount, lines, i, SkipBreak(t[1..], true), SkipBreak(PrintFrom(mount, lines, i + 1, 0), true), j, d);
        assert SkipBreak(t, broken) == SkipBreak(t[1..], true) && SkipBreak(p, broken) == SkipBreak(p[1..], true);
      }
    }
  }

  /** White space and tag of an opener. */
  lemma {:induction false} SkipTagWalk(mount: string, lines: seq<string>, i: nat, c: nat) returns (j: nat, d: nat)
    requires IsPosition(lines, i, c) && Weaves(mount, lines)
    ensures Met(mount, lines, i, SkipTag(TextFrom(lines, i, c)), SkipTag(PrintFrom(mount, lines, i, c)), j, d)
    decreases |lines| - i, |lines[i]| - c
  {
    hide Strip, Block, Leftover, Unlines, Join, AfterBlock, Woven, Residual, Eligible, TextFrom, PrintFrom, AfterCloser;
    hide SkipBreak;
    j, d := i, c + 8;
    if c < |lines[i]| && IsSpace(lines[i][c]) {
      hide Met;
      NextColumn(mount, lines, i, c);
      j, d := SkipTagWalk(mount, lines, i, c + 1);
    } else if c < |lines[i]| {
      NextColumn(mount, lines, i, c);
      TextInLine(mount, lines, i, c, "@openapi");
    } else {
      LineEnd(mount, lines, i);
      if i + 1 < |lines| {
        hide Met;
        var t, p := TextFrom(lines, i, c), PrintFrom(mount, lines, i, c);
        assert t[1..] == TextFrom(lines, i + 1, 0);
        j, d := SkipTagWalk(mount, lines, i + 1, 0);
        AfterFeed(mount, lines, i);
        if Eligible(lines, i + 1) { BlockAhead(mount, lines, i + 1); }
        MetBelow(mount, lines, i, SkipTag(t[1..]), SkipTag(PrintFrom(mount, lines, i + 1, 0)), j, d);
        assert SkipTag(t) == SkipTag(t[1..]) && SkipTag(p) == SkipTag(p[1..]);
      }
    }
  }

  /** A word without a line feed lies in one line, in the text and in the printed text. */
  lemma TextInLine(mount: string, lines: seq<string>, i: nat, c: nat, w: string)
    requires IsPosition(lines, i, c) && '\n' !in w && LinesOf(lines)
    ensures var t, p := TextFrom(lines, i, c), PrintFrom(mount, lines, i, c);
            && (w <= t <==> w <= p)
            && (w <= t ==> && c + |w| <= |lines[i]|
                           && t[|w|..] == TextFrom(lines, i, c + |w|)
                           && p[|w|..] == PrintFrom(mount, lines, i, c + |w|))
  {
    hide Join, Woven;
    var l, t, p := lines[i][c..], TextFrom(lines, i, c), PrintFrom(mount, lines, i, c);
    if |l| < |w| {
      assert i + 1 < |lines| ==> t[|l|] == '\n' && p[|l|] == '\n';
      assert w[|l|] in w;
    } else {
      assert t[..|w|] == l[..|w|] == p[..|w|];
      assert l[|w|..] == lines[i][c + |w|..];
    }
  }

  /** An opener of the text is one of the printed text unless a block comes inside it. */
  lemma OpenerWalk(mount: string, lines: seq<string>, i: nat, c: nat) returns (j: nat, d: nat)
    requires IsPosition(lines, i, c) && Weaves(mount, lines)
    ensures var t, p := AfterOpener(TextFrom(lines, i, c)), AfterOpener(PrintFrom(mount, lines, i, c));
            && (t.None? ==> p.None?)
            && (t.Some? ==> && i <= j && IsPosition(lines, j, d) && 0 < d && t.value == TextFrom(lines, j, d)
                            && p == if Clear(lines, i, j) then Some(PrintFrom(mount, lines, j, d)) else None)
  {
    hide Strip, Block, Leftover, Unlines, Join, AfterBlock, Woven, Residual, Eligible, TextFrom, PrintFrom, AfterCloser;
    hide SkipBreak, SkipTag;
    j, d := i, c;
    TextInLine(mount, lines, i, c, "/**");
    if "/**" <= TextFrom(lines, i, c) {
      var k, e := SkipBreakWalk(mount, lines, i, c + 3, false);
      if SkipBreak(TextFrom(lines, i, c + 3), false).Some? {
        j, d := SkipTagWalk(mount, lines, k, e);
        if SkipTag(TextFrom(lines, k, e)).Some? {
          assert Clear(lines, i, j) <==> Clear(lines, i, k) && Clear(lines, k, j);
        }
      }
    }
  }

  // ---------------------------------------------------------------- closers

  lemma {:induction false} BreakWalk(mount: string, lines: seq<string>, i: nat, c: nat) returns (j: nat)
    requires IsPosition(lines, i, c) && Weaves(mount, lines)
    ensures var t, p := LastBreak(TextFrom(lines, i, c)), LastBreak(PrintFrom(mount, lines, i, c));
            && (t.Some? <==> p.Some?)
            && (p.Some? ==> i < j < |lines| && p.value == Join(Woven(mount, lines, j)))
    decreases |lines| - i, |lines[i]| - c
  {
    hide Strip, Block, Leftover, Unlines, Join, AfterBlock, Woven, Residual, Eligible, TextFrom, PrintFrom, AfterCloser;
    j := i + 1;
    if c < |lines[i]| {
      NextColumn(mount, lines, i, c);
      assert lines[i] in lines && lines[i][c] in lines[i];
      if IsSpace(lines[i][c]) { j := BreakWalk(mount, lines, i, c + 1); }
    } else {
      LineEnd(mount, lines, i);
      if i + 1 < |lines| {
        LineStart(mount, lines, i + 1);
        AfterFeed(mount, lines, i);
        if Eligible(lines, i + 1) {
          BlockAhead(mount, lines, i + 1);
        } else {
          var k := BreakWalk(mount, lines, i + 1, 0);
          if LastBreak(PrintFrom(mount, lines, i + 1, 0)).Some? { j := k; }
        }
      }
    }
  }

  /** Some line below line `i` gets a block. */
  predicate BlockBelow(lines: seq<string>, i: nat) {
    exists k: nat :: i < k < |lines| && Eligible(lines, k)
  }

  /**
   * A closer follows in the printed text if one follows in the text or a block does; what is behind it starts a line.
   */
  lemma {:induction false} CloserWalk(mount: string, lines: seq<string>, i: nat, c: nat) returns (j: nat)
    requires IsPosition(lines, i, c) && Weaves(mount, lines)
    ensures var t, p := AfterCloser(TextFrom(lines, i, c)), AfterCloser(PrintFrom(mount, lines, i, c));
            && (p.Some? <==> t.Some? || BlockBelow(lines, i))
            && (p.Some? ==> i < j < |lines| && Strip(p.value) == Strip(Join(Woven(mount, lines, j))))
    decreases |lines| - i, |lines[i]| - c
  {
    hide Strip, Block, Leftover, Unlines, Join, AfterBlock, Woven, Residual, Eligible, TextFrom, PrintFrom, LastBreak;
    hide SkipBreak, SkipTag;
    j := i + 1;
    if c < |lines[i]| {
      NextColumn(mount, lines, i, c);
      TextInLine(mount, lines, i, c, "*/");
      var k := CloserWalk(mount, lines, i, c + 1);
      j := k;
      if "*/" <= TextFrom(lines, i, c) {
        var m := BreakWalk(mount, lines, i, c + 2);
        if LastBreak(PrintFrom(mount, lines, i, c + 2)).Some? { j := m; }
      }
    } else {
      LineEnd(mount, lines, i);
      if i + 1 < |lines| {
        AfterFeed(mount, lines, i);
        LineStart(mount, lines, i + 1);
        assert (TextFrom(lines, i, c))[1..] == TextFrom(lines, i + 1, 0);
        if Eligible(lines, i + 1) {
          StripBehindBlock(mount, lines, i + 1);
        } else {
          j := CloserWalk(mount, lines, i + 1, 0);
          assert BlockBelow(lines, i) <==> BlockBelow(lines, i + 1);
        }
      }
    }
  }

  lemma StripBehindBlock(mount: string, lines: seq<string>, i: nat)
    requires i < |lines| && Weaves(mount, lines) && Eligible(lines, i)
    ensures var s := Unlines(BlockFor(mount, lines, i)) + PrintFrom(mount, lines, i, 0);
            AfterCloser(s).Some? && Strip(AfterCloser(s).value) == Strip(s)
  {
    hide Strip, Block, Leftover, Unlines, Join, AfterBlock, AfterCloser, RouteIn, Contains;
    var route := RouteIn(lines[i]).value;
    BlockAhead(mount, lines, i);
    LeftoverIsInert(mount, route, lines[i]);
    hide NoSlashStar;
    StripInertLines(Leftover(mount, route, lines[i]), PrintFrom(mount, lines, i, 0));
  }

  // ---------------------------------------------------------------- what is lost, counted in tags

  /** How many '@' there are: the annotator's leftovers have none, and an opener has one. */
  ghost function Ats(s: string): nat {
    multiset(s)['@']
  }

  /** From here on no block of the printed text runs from an opener of the text. */
  ghost predicate Untouched(mount: string, lines: seq<string>, i: nat, c: nat)
    requires IsPosition(lines, i, c)
    decreases |lines| - i, |lines[i]| - c
  {
    && AfterBlock(PrintFrom(mount, lines, i, c)).None?
    && (c < |lines[i]| ==> Untouched(mount, lines, i, c + 1))
    && (c == |lines[i]| && i + 1 < |lines| ==> Untouched(mount, lines, i + 1, 0))
  }

  /** Without such a block the strip pass takes out the printed blocks only. */
  lemma {:induction false} UntouchedStrips(mount: string, lines: seq<string>, i: nat, c: nat)
    requires IsPosition(lines, i, c) && Weaves(mount, lines) && Untouched(mount, lines, i, c)
    ensures Strip(PrintFrom(mount, lines, i, c)) == LeftFrom(mount, lines, i, c)
    decreases |lines| - i, |lines[i]| - c
  {
    hide Block, Leftover, Unlines, Join, AfterBlock, Woven, Residual, Eligible, TextFrom, PrintFrom, LeftFrom;
    if c < |lines[i]| {
      NextColumn(mount, lines, i, c);
      UntouchedStrips(mount, lines, i, c + 1);
    } else {
      LineEnd(mount, lines, i);
      if i + 1 < |lines| {
        AfterFeed(mount, lines, i);
        UntouchedStrips(mount, lines, i + 1, 0);
        StripNextLine(mount, lines, i + 1);
      }
    }
  }

  lemma StripNextLine(mount: string, lines: seq<string>, i: nat)
    requires i < |lines| && Weaves(mount, lines)
    ensures Strip(Unlines(BlockFor(mount, lines, i)) + PrintFrom(mount, lines, i, 0)) ==
              Unlines(LeftoverFor(mount, lines, i)) + Strip(PrintFrom(mount, lines, i, 0))
  {
    hide Strip, Block, Leftover, Join, AfterBlock, Woven, RouteIn, Contains, PrintFrom;
    if Eligible(lines, i) {
      hide Unlines;
      BlockAhead(mount, lines, i);
    } else {
      NoLines();
      hide Unlines;
      assert "" + PrintFrom(mount, lines, i, 0) == PrintFrom(mount, lines, i, 0);
    }
  }

  lemma {:induction false} UnlinesHaveNoAt(lines: seq<string>)
    requires forall l :: l in lines ==> '@' !in l
    ensures Ats(Unlines(lines)) == 0
  {
    if lines == [] {
    } else {
      UnlinesHaveNoAt(lines[1..]);
      assert '@' !in lines[0];
      assert '@' !in multiset(lines[0] + "\n");
    }
  }

  lemma LeftoverHasNoAt(mount: string, lines: seq<string>, i: nat)
    requires i < |lines|
    ensures Ats(Unlines(LeftoverFor(mount, lines, i))) == 0
  {
    hide Ats, Unlines, RouteIn, Contains, Leftover;
    if Eligible(lines, i) { LeftoverIsInert(mount, RouteIn(lines[i]).value, lines[i]); }
    UnlinesHaveNoAt(LeftoverFor(mount, lines, i));
  }

  lemma OpenerHasAt(s: string)
    requires AfterOpener(s).Some?
    ensures Ats(AfterOpener(s).value) < Ats(s)
  {
    var rest := AfterOpener(s).value;
    OpenerShape(s, rest);
    var a, b :| IsOpener(s, a, b, rest);
    assert s == ("/**" + a + "*" + b) + ("@openapi" + rest);
    assert "@openapi" + rest == ['@'] + ("openapi" + rest);
  }

  lemma AtsTogether(a: string, b: string)
    ensures Ats(a + b) == Ats(a) + Ats(b)
  {
  }

  lemma TextBelow(lines: seq<string>, i: nat, c: nat)
    requires IsPosition(lines, i, c) && i + 1 < |lines|
    ensures TextFrom(lines, i, c) == lines[i][c..] + "\n" + TextFrom(lines, i + 1, 0)
  {
    LineStart("", lines, i + 1);
    hide Join;
    var text := TextFrom(lines, i + 1, 0);
    assert TextFrom(lines, i, c) == lines[i][c..] + ("\n" + Join(lines[i + 1..]));
    assert Join(lines[i + 1..]) == text;
    hide TextFrom;
    assert lines[i][c..] + ("\n" + text) == lines[i][c..] + "\n" + text;
  }

  /** The text from a later line on has no more of them. */
  lemma {:induction false} FewerAtsBelow(lines: seq<string>, i: nat, c: nat, j: nat)
    requires IsPosition(lines, i, c) && i < j < |lines|
    ensures Ats(TextFrom(lines, j, 0)) <= Ats(TextFrom(lines, i, c))
    decreases |lines| - i
  {
    hide TextFrom, Ats;
    TextBelow(lines, i, c);
    AtsTogether(lines[i][c..] + "\n", TextFrom(lines, i + 1, 0));
    if i + 1 < j { FewerAtsBelow(lines, i + 1, 0, j); }
  }

  /** A block that runs from an opener of the text takes an '@' of the text with it, and nothing brings it back. */
  lemma {:induction false} TouchedLoses(mount: string, lines: seq<string>, i: nat, c: nat)
    requires IsPosition(lines, i, c) && Weaves(mount, lines)
    ensures var stripped := Strip(PrintFrom(mount, lines, i, c));
            && Ats(stripped) <= Ats(TextFrom(lines, i, c))
            && (!Untouched(mount, lines, i, c) ==> Ats(stripped) < Ats(TextFrom(lines, i, c)))
    decreases |lines| - i, |lines[i]| - c
  {
    hide Block, Leftover, Unlines, Join, Woven, Residual, Eligible, TextFrom, PrintFrom, AfterOpener, AfterCloser;
    if AfterBlock(PrintFrom(mount, lines, i, c)).Some? {
      TouchedHere(mount, lines, i, c);
    } else if c < |lines[i]| {
      NextColumn(mount, lines, i, c);
      TouchedLoses(mount, lines, i, c + 1);
    } else {
      LineEnd(mount, lines, i);
      if i + 1 < |lines| {
        AfterFeed(mount, lines, i);
        TouchedLoses(mount, lines, i + 1, 0);
        StripNextLine(mount, lines, i + 1);
        LeftoverHasNoAt(mount, lines, i + 1);
      }
    }
  }

  lemma TouchedHere(mount: string, lines: seq<string>, i: nat, c: nat)
    requires IsPosition(lines, i, c) && Weaves(mount, lines) && AfterBlock(PrintFrom(mount, lines, i, c)).Some?
    ensures Ats(Strip(PrintFrom(mount, lines, i, c))) < Ats(TextFrom(lines, i, c))
    decreases |lines| - i, |lines[i]| - c, 0
  {
    hide Block, Leftover, Unlines, Join, Woven, Residual, Eligible, TextFrom, PrintFrom, AfterOpener, AfterCloser;
    var j, d := OpenerWalk(mount, lines, i, c);
    OpenerHasAt(TextFrom(lines, i, c));
    var m := CloserWalk(mount, lines, j, d);
    LineStart(mount, lines, m);
    StripNextLine(mount, lines, m);
    LeftoverHasNoAt(mount, lines, m);
    TouchedLoses(mount, lines, m, 0);
    FewerAtsBelow(lines, j, d, m);
  }

  // ---------------------------------------------------------------- said of the text alone

  /** Where line `k` begins. */
  function LineOffset(lines: seq<string>, k: nat): int
    requires k <= |lines|
  {
    |Join(lines)| - |Join(lines[k..])|
  }

  /**
   * An annotation opens at `p` with no block about to be printed inside its opener, and a comment closer follows it,
   * in the text or with a block about to be printed.
   */
  ghost predicate SwallowsAt(text: string, p: nat)
    requires p <= |text|
  {
    var lines, after := Split(text), AfterOpener(text[p..]);
    && after.Some?
    && var e := |text| - |after.value|;
       && (forall k: nat :: k < |lines| && Eligible(lines, k) ==> !(p < LineOffset(lines, k) < e))
       && (AfterCloser(after.value).Some?
           || exists k: nat :: k < |lines| && Eligible(lines, k) && e <= LineOffset(lines, k))
  }

  ghost predicate Swallows(text: string) {
    exists p: nat :: p <= |text| && SwallowsAt(text, p)
  }

  lemma {:induction false} OffsetSplits(lines: seq<string>, i: nat)
    requires i < |lines|
    ensures 0 <= LineOffset(lines, i) <= |Join(lines)|
    ensures Join(lines)[LineOffset(lines, i)..] == TextFrom(lines, i, 0)
    ensures i + 1 < |lines| ==> LineOffset(lines, i + 1) == LineOffset(lines, i) + |lines[i]| + 1
    ensures i + 1 == |lines| ==> |Join(lines)| == LineOffset(lines, i) + |lines[i]|
  {
    LineStart("", lines, i);
    if i == 0 {
      assert lines[0..] == lines;
    } else {
      OffsetSplits(lines, i - 1);
      TextBelow(lines, i - 1, 0);
      var text, before := Join(lines), TextFrom(lines, i - 1, 0);
      assert before[|lines[i - 1]| + 1..] == TextFrom(lines, i, 0);
      assert text[LineOffset(lines, i - 1)..][|lines[i - 1]| + 1..] == text[LineOffset(lines, i)..];
    }
    if i + 1 < |lines| {
      LineStart("", lines, i + 1);
      TextBelow(lines, i, 0);
    }
  }

  lemma {:induction false} OffsetsAscend(lines: seq<string>, i: nat, k: nat)
    requires i < k < |lines|
    ensures LineOffset(lines, i) + |lines[i]| < LineOffset(lines, k)
    decreases k
  {
    hide LineOffset, TextFrom, Join;
    OffsetSplits(lines, k - 1);
    if i < k - 1 { OffsetsAscend(lines, i, k - 1); }
  }

  /** A line begins behind a position if it is a later line. */
  lemma OffsetOrder(lines: seq<string>, i: nat, c: nat, k: nat)
    requires IsPosition(lines, i, c) && k < |lines|
    ensures LineOffset(lines, i) + c < LineOffset(lines, k) <==> i < k
    ensures 0 < c ==> (LineOffset(lines, k) < LineOffset(lines, i) + c <==> k <= i)
  {
    hide LineOffset;
    if i < k { OffsetsAscend(lines, i, k); } else if k < i { OffsetsAscend(lines, k, i); }
  }

  /** The text from a position on. */
  lemma OffsetText(lines: seq<string>, i: nat, c: nat)
    requires IsPosition(lines, i, c)
    ensures 0 <= LineOffset(lines, i) + c <= |Join(lines)|
    ensures Join(lines)[LineOffset(lines, i) + c..] == TextFrom(lines, i, c)
    ensures |Join(lines)| - |TextFrom(lines, i, c)| == LineOffset(lines, i) + c
  {
    OffsetSplits(lines, i);
    assert TextFrom(lines, i, 0)[c..] == TextFrom(lines, i, c) by {
      hide Join;
      assert lines[i][0..][c..] == lines[i][c..];
    }
    hide LineOffset, TextFrom, Join;
    var text, p := Join(lines), LineOffset(lines, i);
    assert text[p..][c..] == text[p + c..];
  }

  lemma {:induction false} PositionAt(lines: seq<string>, i: nat, p: nat) returns (k: nat, c: nat)
    requires i < |lines| && LineOffset(lines, i) <= p <= |Join(lines)|
    ensures IsPosition(lines, k, c) && p == LineOffset(lines, k) + c
    decreases |lines| - i
  {
    hide LineOffset, TextFrom, Join;
    OffsetSplits(lines, i);
    k, c := i, 0;
    if p - LineOffset(lines, i) <= |lines[i]| {
      c := p - LineOffset(lines, i);
    } else {
      k, c := PositionAt(lines, i + 1, p);
    }
  }

  /** A block of the printed text runs from an opener of the text exactly where the text swallows. */
  lemma SwallowsWhereTouched(mount: string, lines: seq<string>, i: nat, c: nat)
    requires IsPosition(lines, i, c) && Weaves(mount, lines) && lines == Split(Join(lines))
    requires 0 <= LineOffset(lines, i) + c <= |Join(lines)|
    ensures SwallowsAt(Join(lines), LineOffset(lines, i) + c) <==> AfterBlock(PrintFrom(mount, lines, i, c)).Some?
  {
    hide LineOffset, TextFrom, PrintFrom, Join, Split, AfterOpener, AfterCloser, Eligible;
    OffsetText(lines, i, c);
    var j, d := OpenerWalk(mount, lines, i, c);
    if AfterOpener(TextFrom(lines, i, c)).Some? {
      OffsetText(lines, j, d);
      forall k: nat | k < |lines|
        ensures LineOffset(lines, i) + c < LineOffset(lines, k) < LineOffset(lines, j) + d <==> i < k <= j
        ensures LineOffset(lines, j) + d <= LineOffset(lines, k) <==> j < k
      {
        OffsetOrder(lines, i, c, k);
        OffsetOrder(lines, j, d, k);
      }
      var m := CloserWalk(mount, lines, j, d);
    }
  }

  lemma {:induction false} UntouchedEverywhere(mount: string, lines: seq<string>, i: nat, c: nat)
    requires IsPosition(lines, i, c)
    ensures Untouched(mount, lines, i, c) <==>
              forall k: nat, d: nat :: IsPosition(lines, k, d) && (i < k || (i == k && c <= d)) ==>
                                         AfterBlock(PrintFrom(mount, lines, k, d)).None?
    decreases |lines| - i, |lines[i]| - c
  {
    hide AfterBlock, PrintFrom;
    if c < |lines[i]| {
      UntouchedEverywhere(mount, lines, i, c + 1);
    } else if i + 1 < |lines| {
      UntouchedEverywhere(mount, lines, i + 1, 0);
    }
  }

  lemma UntouchedIffNoSwallow(mount: string, lines: seq<string>)
    requires lines != [] && Weaves(mount, lines) && lines == Split(Join(lines))
    ensures Untouched(mount, lines, 0, 0) <==> !Swallows(Join(lines))
  {
    hide AfterBlock, PrintFrom, Untouched, SwallowsAt, Join, Split, Weaves;
    UntouchedEverywhere(mount, lines, 0, 0);
    var text := Join(lines);
    OffsetSplits(lines, 0);
    assert lines[0..] == lines;
    if Swallows(text) {
      var p: nat :| p <= |text| && SwallowsAt(text, p);
      var k, d := PositionAt(lines, 0, p);
      SwallowsWhereTouched(mount, lines, k, d);
    }
    if k: nat, d: nat :| IsPosition(lines, k, d) && AfterBlock(PrintFrom(mount, lines, k, d)).Some? {
      OffsetText(lines, k, d);
      SwallowsWhereTouched(mount, lines, k, d);
    }
  }

  // ---------------------------------------------------------------- stripping what was printed

  lemma {:induction false} LeftKeepsAts(mount: string, lines: seq<string>, i: nat, c: nat)
    requires IsPosition(lines, i, c)
    ensures Ats(LeftFrom(mount, lines, i, c)) == Ats(TextFrom(lines, i, c))
    decreases |lines| - i, |lines[i]| - c
  {
    hide LeftFrom, TextFrom, Leftover, Unlines, Eligible;
    if c < |lines[i]| {
      NextColumn(mount, lines, i, c);
      LeftKeepsAts(mount, lines, i, c + 1);
    } else {
      LineEnd(mount, lines, i);
      if i + 1 < |lines| {
        LeftKeepsAts(mount, lines, i + 1, 0);
        LeftoverHasNoAt(mount, lines, i + 1);
      }
    }
  }

  lemma FirstLine(mount: string, lines: seq<string>)
    requires lines != []
    ensures Join(lines) == TextFrom(lines, 0, 0)
    ensures Join(Woven(mount, lines, 0)) == PrintFrom(mount, lines, 0, 0)
    ensures Join(Residual(mount, lines, 0)) == LeftFrom(mount, lines, 0, 0)
  {
    LineStart(mount, lines, 0);
    NoLines();
    hide Join, Woven, Residual, TextFrom, PrintFrom, LeftFrom, Unlines;
    assert lines[0..] == lines;
    assert "" + PrintFrom(mount, lines, 0, 0) == PrintFrom(mount, lines, 0, 0);
    assert "" + LeftFrom(mount, lines, 0, 0) == LeftFrom(mount, lines, 0, 0);
  }

  /**
   * Stripping what the annotator prints gives the lines back, each below what its block left behind, exactly when the
   * text swallows nothing.
   */
  lemma StripWoven(mount: string, text: string)
    requires '\n' !in mount
    ensures Strip(Join(Woven(mount, Split(text), 0))) == Join(Residual(mount, Split(text), 0)) <==> !Swallows(text)
  {
    hide Strip, Split, Join, Woven, Residual, Swallows, TextFrom, PrintFrom, LeftFrom, Untouched, Ats;
    var lines := Split(text);
    JoinSplit(text);
    FirstLine(mount, lines);
    UntouchedIffNoSwallow(mount, lines);
    if Untouched(mount, lines, 0, 0) {
      UntouchedStrips(mount, lines, 0, 0);
    } else {
      TouchedLoses(mount, lines, 0, 0);
      LeftKeepsAts(mount, lines, 0, 0);
    }
  }

  /**
   * Stripping the annotated text gives back the text exactly when no eligible route's text ends in a comment closer
   * and no annotation that is open swallows what is printed below it.
   */
  lemma StripUndoesAnnotate(mount: string, text: string)
    requires '\n' !in mount
    ensures Strip(Join(Woven(mount, Split(text), 0))) == text <==> CloserFree(Split(text)) && !Swallows(text)
  {
    hide Strip, Split, Join, Woven, Residual, RouteIn, Contains, EndsWithCloser, TailLines, Swallows, Ats;
    var lines := Split(text);
    JoinSplit(text);
    assert lines[0..] == lines;
    StripWoven(mount, text);
    if Swallows(text) {
      hide TextFrom, PrintFrom, Untouched;
      FirstLine(mount, lines);
      UntouchedIffNoSwallow(mount, lines);
      TouchedLoses(mount, lines, 0, 0);
    } else if CloserFree(lines) {
      NothingLeftOver(mount, lines, 0);
    } else {
      var i: nat :| i < |lines| && Eligible(lines, i) && EndsWithCloser(RouteIn(lines[i]).value.path);
      LeftoverMakesLonger(mount, lines, 0, i);
    }
  }

  /** In a text where no annotation opens nothing is swallowed. */
  lemma NoOpenerNoSwallow(text: string)
    requires NoOpener(text)
    ensures !Swallows(text)
  {
    hide AfterOpener;
    forall p: nat | p <= |text|
      ensures AfterOpener(text[p..]).None?
    {
      NoOpenerAt(text, p);
    }
  }

  lemma {:induction false} NoOpenerAt(s: string, p: nat)
    requires NoOpener(s) && p <= |s|
    ensures AfterOpener(s[p..]).None?
  {
    hide SkipBreak;
    if p == 0 {
      assert s[0..] == s;
    } else {
      NoOpenerAt(s[1..], p - 1);
      assert s[1..][p - 1..] == s[p..];
    }
  }

  // ---------------------------------------------------------------- a comment left open

  lemma {:induction false} RoutesHaveAnR(line: string)
    requires RouteIn(line).Some?
    ensures 'r' in line
  {
    if RouteAt(line).None? { RoutesHaveAnR(line[1..]); }
  }

  lemma {:induction false} StripShortens(s: string)
    ensures |Strip(s)| <= |s|
    decreases |s|
  {
    hide AfterBlock;
    if s == "" {
    } else {
      if AfterBlock(s).Some? { StripShortens(AfterBlock(s).value); } else { StripShortens(s[1..]); }
    }
  }

  /** A closed block behind an open one closes both. */
  lemma OpenOneSwallows(mount: string, l: string, route: Route)
    requires '\n' !in mount && '\n' !in route.path && LastBreak(l).None? && !EndsWithCloser(route.path)
    ensures AfterBlock("/**\n * @openapi\n" + (Unlines(Block(mount, route, l)) + l)) == Some(l)
  {
    hide AfterCloser, EndsWithCloser, LastBreak, Block;
    var block := Unlines(Block(mount, route, l)) + l;
    NoLines();
    NothingEnds();
    BlockIsStripped(mount, route, l, l);
    BlockClosesItself(mount, route, l, l);
    assert "" + l == l;
    OpenerIsFound(block);
    AfterCloserLine("", block);
    assert "" + "\n" + block == "\n" + block;
  }

  /** Below an annotation that nobody closed the annotator's own block supplies the closer, and text is lost. */
  lemma OpenCommentIsSwallowed(mount: string, l: string)
    requires '\n' !in mount && '\n' !in l && RouteIn(l).Some? && !EndsWithCloser(RouteIn(l).value.path)
    ensures var text := "/**\n * @openapi\n" + l;
            && CloserFree(Split(text)) && Swallows(text)
            && Strip(Join(Woven(mount, Split(text), 0))) == Strip(l) && |Strip(l)| < |text|
  {
    var text, route := "/**\n * @openapi\n" + l, RouteIn(l).value;
    var printed := "/**\n * @openapi\n" + (Unlines(Block(mount, route, l)) + l);
    PrintedBelowOpen(mount, l);
    RouteLineIsSolid(l, "");
    assert l + "" == l;
    RoutePathInLine(l);
    OpenOneSwallows(mount, l, route);
    hide EndsWithCloser, RouteIn, Block, AfterBlock, Contains, Join, Split, Woven, Unlines, Swallows;
    assert printed != "" && Strip(printed) == Strip(l);
    StripShortens(l);
    hide Strip;
    assert Strip(l) != text;
    StripUndoesAnnotate(mount, text);
  }

  lemma PrintedBelowOpen(mount: string, l: string)
    requires '\n' !in l && RouteIn(l).Some? && !EndsWithCloser(RouteIn(l).value.path)
    ensures var lines := Split("/**\n * @openapi\n" + l);
            && CloserFree(lines)
            && Join(Woven(mount, lines, 0)) ==
                 "/**\n * @openapi\n" + (Unlines(Block(mount, RouteIn(l).value, l)) + l)
  {
    hide EndsWithCloser, RouteIn, Block, Contains;
    var lines, route := ["/**", " * @openapi", l], RouteIn(l).value;
    TwoLines();
    JoinAfter(["/**", " * @openapi"], [l]);
    assert lines == ["/**", " * @openapi"] + [l];
    SplitJoin(lines);
    if RouteIn(lines[1]).Some? { RoutesHaveAnR(lines[1]); }
    NoCloserInTag();
    assert BlockFor(mount, lines, 0) == [] && BlockFor(mount, lines, 1) == [];
    assert BlockFor(mount, lines, 2) == Block(mount, route, l);
    assert CloserFree(lines);
    hide BlockFor, CloserFree, Join, Unlines;
    assert Woven(mount, lines, 3) == [];
    assert Woven(mount, lines, 2) == Block(mount, route, l) + [l];
    assert Woven(mount, lines, 0) == ["/**", " * @openapi"] + (Block(mount, route, l) + [l]);
    JoinAfter(Block(mount, route, l), [l]);
    JoinAfter(["/**", " * @openapi"], Block(mount, route, l) + [l]);
  }

  lemma NoCloserInTag()
    ensures !Contains(" * @openapi", "*/")
  {
    NoSlashNoCloser(" * @openapi");
  }

  lemma {:induction false} NoSlashNoCloser(s: string)
    requires '/' !in s
    ensures !Contains(s, "*/")
  {
    assert "*/"[1] == '/';
    if s == "" {
    } else {
      assert forall c :: c in s[1..] ==> c in s;
      NoSlashNoCloser(s[1..]);
    }
  }

  lemma TwoLines()
    ensures Unlines(["/**", " * @openapi"]) == "/**\n * @openapi\n"
  {
    assert ["/**", " * @openapi"][1..] == [" * @openapi"] && [" * @openapi"][1..] == [];
  }

  /** An open annotation does no harm while no closer and no block follows. */
  lemma OpenWithoutCloser(mount: string, text: string)
    requires '\n' !in mount
    requires forall k: nat :: !ClosesAt(text, k)
    requires forall k: nat :: k < |Split(text)| ==> !Eligible(Split(text), k)
    ensures !Swallows(text) && Strip(Join(Woven(mount, Split(text), 0))) == text
  {
    hide Strip, Split, Join, Woven, ClosesAt, AfterOpener, AfterCloser, Eligible;
    forall p: nat | p <= |text| && AfterOpener(text[p..]).Some?
      ensures AfterCloser(AfterOpener(text[p..]).value).None?
    {
      var rest := AfterOpener(text[p..]).value;
      OpenerShape(text[p..], rest);
      var a, b :| IsOpener(text[p..], a, b, rest);
      var front := text[..p] + ("/**" + a + "*" + b + "@openapi");
      assert text == text[..p] + text[p..];
      assert text == front + rest;
      forall k: nat
        ensures !ClosesAt(rest, k)
      {
        if ClosesAt(rest, k) { ClosesFurther(front, rest, k); }
      }
      CloserShape(rest, "");
    }
    StripUndoesAnnotate(mount, text);
  }

  lemma ClosesFurther(a: string, b: string, k: nat)
    requires ClosesAt(b, k)
    ensures ClosesAt(a + b, |a| + k)
  {
    assert (a + b)[|a| + k + 2..] == b[k + 2..];
  }

  /** The line of a route for `path`, in single quotes. */
  function GetLine(path: string): string {
    "router." + Lower(Get) + "(" + "" + ['\''] + path + ['\''] + ");"
  }

  lemma GetLineRoute(path: string)
    requires forall c :: c in path ==> !IsQuote(c) && !IsLineTerminator(c)
    ensures RouteIn(GetLine(path)) == Some(Route(Get, path)) && '\n' !in GetLine(path)
  {
    hide RouteAt;
    RouteFinds(GetLine(path), Route(Get, path), "", '\'', '\'', ");");
    RouteAtStart(GetLine(path));
  }

  /** A route whose text ends in a closer, like one for `/files/` and a star and a slash: its block ends early. */
  lemma CloserRouteStays(mount: string, above: string, path: string)
    requires '\n' !in mount && '\n' !in above && !Contains(above, "*/")
    requires forall c :: c in path ==> !IsQuote(c) && !IsLineTerminator(c)
    ensures var text := above + "\n" + GetLine(path + "*/"); Strip(Join(Woven(mount, Split(text), 0))) != text
  {
    hide Strip, Join, Split, Woven, Contains, EndsWithCloser, RouteIn, GetLine;
    var l := GetLine(path + "*/");
    var lines := [above, l];
    GetLineRoute(path + "*/");
    JoinPair(above, l);
    SplitJoin(lines);
    CloserEnds(path);
    assert Eligible(lines, 1) && !CloserFree(lines);
    StripUndoesAnnotate(mount, above + "\n" + l);
  }

  // The route for "/files/*/", below a line that says where the routes are kept.
  lemma FilesRouteStays(mount: string)
    requires '\n' !in mount
    ensures var text := "const router = Router();" + "\n" + GetLine("/files/" + "*/");
            Strip(Join(Woven(mount, Split(text), 0))) != text
  {
    hide *;
    var above := "const router = Router();";
    assert '\n' !in above && '/' !in above;
    NoSlashNoCloser(above);
    FilesPath();
    CloserRouteStays(mount, above, "/files/");
  }

  lemma FilesPath()
    ensures forall c :: c in "/files/" ==> !IsQuote(c) && !IsLineTerminator(c)
  {
  }

  lemma JoinPair(a: string, b: string)
    ensures Join([a, b]) == a + "\n" + b
  {
    assert [a, b][1..] == [b];
  }

  lemma RouteAtStart(l: string)
    requires RouteAt(l).Some?
    ensures RouteIn(l) == RouteAt(l)
  {
  }

  lemma {:induction false} CloserEnds(s: string)
    ensures EndsWithCloser(s + "*/")
  {
    if s == "" {
      assert s + "*/" == "*/" && "*/"[2..] == "";
    } else {
      assert (s + "*/")[1..] == s[1..] + "*/";
      CloserEnds(s[1..]);
    }
  }
}
