/** Annotating an annotated file: the exact condition for no change. */
module SwaggerTwice {
  import opened Common
  import opened SwaggerText
  import opened SwaggerBlock
  import opened SwaggerAnnotator
  import opened SwaggerRoundTrip

  // ---------------------------------------------------------------- counting tags line by line

  ghost function AtsIn(lines: seq<string>): nat {
    if lines == [] then 0 else Ats(lines[0]) + AtsIn(lines[1..])
  }

  lemma {:induction false} AtsInBoth(a: seq<string>, b: seq<string>)
    ensures AtsIn(a + b) == AtsIn(a) + AtsIn(b)
  {
    hide Ats;
    if a == [] {
      assert a + b == b;
    } else {
      assert (a + b)[1..] == a[1..] + b;
      AtsInBoth(a[1..], b);
    }
  }

  lemma {:induction false} AtsOfJoin(lines: seq<string>)
    ensures Ats(Join(lines)) == AtsIn(lines)
  {
    if lines == [] {
    } else {
      AtsOfJoin(lines[1..]);
      AtsTogether(lines[0] + "\n", Join(lines[1..]));
      AtsTogether(lines[0], "\n");
    }
  }

  lemma {:induction false} NoAts(lines: seq<string>)
    requires forall l :: l in lines ==> '@' !in l
    ensures AtsIn(lines) == 0
  {
    if lines == [] {
    } else {
      assert lines[0] in lines;
      NoAts(lines[1..]);
    }
  }

  /** Every block has a tag. */
  lemma BlockHasAt(mount: string, route: Route, line: string)
    ensures 0 < AtsIn(Block(mount, route, line))
  {
    hide HeadLines, Summary, TailLines;
    var block := Block(mount, route, line);
    assert block[1] == " * @openapi";
    hide Block;
    assert block[1][3] == '@';
    AtsHere(block, 1);
  }

  lemma {:induction false} AtsHere(lines: seq<string>, i: nat)
    requires i < |lines| && '@' in lines[i]
    ensures 0 < AtsIn(lines)
  {
    assert lines[i] in lines;
    if i == 0 {
    } else {
      AtsHere(lines[1..], i - 1);
    }
  }

  // ---------------------------------------------------------------- what is eligible below a leftover

  lemma {:induction false} RoutesHaveACall(line: string)
    requires RouteIn(line).Some?
    ensures '(' in line
  {
    if RouteAt(line).None? {
      RoutesHaveACall(line[1..]);
    } else {
      VerbHasACall(line[7..]);
    }
  }

  lemma VerbHasACall(s: string)
    requires VerbAt(s).Some?
    ensures '(' in s
  {
    assert "get("[3] == '(' && "post("[4] == '(' && "put("[3] == '(' && "patch("[5] == '(' && "delete("[6] == '(';
  }

  /** Where the residue of line `k` begins. */
  function Place(mount: string, lines: seq<string>, k: nat): int
    requires k <= |lines|
  {
    |Residual(mount, lines, 0)| - |Residual(mount, lines, k)|
  }

  lemma Middle<T>(s: seq<T>, o: nat, a: seq<T>, x: T, b: seq<T>)
    requires o <= |s| && s[o..] == a + [x] + b
    ensures |s| == o + |a| + 1 + |b| && s[o + |a|] == x && s[o + |a| + 1..] == b
    ensures forall k :: 0 <= k < |a| ==> a[k] == s[o + k]
  {
    assert forall k :: 0 <= k < |a| ==> s[o..][k] == a[k];
    assert s[o..][|a|] == s[o + |a|];
    assert s[o..][|a| + 1..] == s[o + |a| + 1..];
  }

  /** What stands from there on, and just above. */
  lemma {:induction false} ResidualSuffix(mount: string, lines: seq<string>, k: nat)
    requires k <= |lines|
    ensures 0 <= Place(mount, lines, k) <= |Residual(mount, lines, 0)|
    ensures Residual(mount, lines, 0)[Place(mount, lines, k)..] == Residual(mount, lines, k)
    ensures if k == 0 then Place(mount, lines, k) == 0
            else 0 < Place(mount, lines, k) && Residual(mount, lines, 0)[Place(mount, lines, k) - 1] == lines[k - 1]
  {
    hide LeftoverFor, Residual, Woven;
    if k == 0 {
    } else {
      ResidualSuffix(mount, lines, k - 1);
      WovenParts(mount, lines, k - 1);
      var all, left, o := Residual(mount, lines, 0), LeftoverFor(mount, lines, k - 1), Place(mount, lines, k - 1);
      Middle(all, o, left, lines[k - 1], Residual(mount, lines, k));
    }
  }

  /** Lines without routes stand as they are in what is printed. */
  lemma {:induction false} WovenWithoutRoutes(mount: string, lines: seq<string>, p: nat, left: seq<string>)
    requires p + |left| <= |lines|
    requires forall k :: 0 <= k < |left| ==> left[k] == lines[p + k] && RouteIn(left[k]).None?
    ensures Woven(mount, lines, p) == left + Woven(mount, lines, p + |left|)
    decreases |left|
  {
    hide RouteIn, Block, Contains, Woven;
    if left == [] {
      assert [] + Woven(mount, lines, p) == Woven(mount, lines, p);
    } else {
      var rest := left[1..];
      assert left == [left[0]] + rest && left[0] == lines[p];
      WovenWithoutRoutes(mount, lines, p + 1, rest);
      assert BlockFor(mount, lines, p) == [];
      WovenParts(mount, lines, p);
      hide BlockFor;
      Associates([lines[p]], rest, Woven(mount, lines, p + 1 + |rest|));
    }
  }

  lemma LeftoverHasNoRoute(mount: string, route: Route, line: string)
    ensures forall l :: l in Leftover(mount, route, line) ==> RouteIn(l).None? && '@' !in l
    ensures var left := Leftover(mount, route, line); left != [] ==> left[|left| - 1] == " */"
  {
    LeftoverIsInert(mount, route, line);
    hide TailLines, RouteIn, EndsWithCloser, NoSlashStar;
    forall l | l in Leftover(mount, route, line)
      ensures RouteIn(l).None?
    {
      if RouteIn(l).Some? { RoutesHaveACall(l); }
    }
  }

  lemma CloserIsContained()
    ensures Contains(" */", "*/")
  {
    assert " */"[1..] == "*/";
  }

  /** The residue of a line is what was left over of its block and the line. */
  lemma ResidueAt(mount: string, lines: seq<string>, i: nat)
    requires i < |lines|
    ensures var all, left, p := Residual(mount, lines, 0), LeftoverFor(mount, lines, i), Place(mount, lines, i);
            && 0 <= p && p + |left| < |all| && Place(mount, lines, i + 1) == p + |left| + 1
            && (forall k :: 0 <= k < |left| ==> left[k] == all[p + k]) && all[p + |left|] == lines[i]
            && (left != [] ==> all[p + |left| - 1] == left[|left| - 1])
            && (left == [] ==> if i == 0 then p == 0 else 0 < p && all[p - 1] == lines[i - 1])
  {
    hide LeftoverFor, Residual, Woven;
    var all, left, p := Residual(mount, lines, 0), LeftoverFor(mount, lines, i), Place(mount, lines, i);
    ResidualSuffix(mount, lines, i);
    WovenParts(mount, lines, i);
    Middle(all, p, left, lines[i], Residual(mount, lines, i + 1));
  }

  /** A route keeps its block unless the line above it now closes the comment. */
  lemma BlockAgain(mount: string, lines: seq<string>, i: nat)
    requires i < |lines|
    ensures var all, left, p := Residual(mount, lines, 0), LeftoverFor(mount, lines, i), Place(mount, lines, i);
            && 0 <= p && p + |left| < |all| && (forall l :: l in left ==> RouteIn(l).None? && '@' !in l)
            && BlockFor(mount, all, p + |left|) == if left == [] then BlockFor(mount, lines, i) else []
  {
    hide Leftover, RouteIn, Contains, Block, Residual, Place;
    ResidueAt(mount, lines, i);
    if Eligible(lines, i) { LeftoverHasNoRoute(mount, RouteIn(lines[i]).value, lines[i]); }
    CloserIsContained();
  }

  /** The lines of one residue, printed again: what was left over stays, and a route below it gets no block. */
  lemma WovenResidue(mount: string, lines: seq<string>, i: nat)
    requires i < |lines|
    ensures var all, left := Residual(mount, lines, 0), LeftoverFor(mount, lines, i);
            && 0 <= Place(mount, lines, i) && 0 <= Place(mount, lines, i + 1) <= |all|
            && (forall l :: l in left ==> '@' !in l)
            && Woven(mount, all, Place(mount, lines, i)) ==
                 left + ((if left == [] then BlockFor(mount, lines, i) else []) + ([lines[i]]
                 + Woven(mount, all, Place(mount, lines, i + 1))))
  {
    hide LeftoverFor, RouteIn, BlockFor, Residual, Place, Woven;
    var all, left, p := Residual(mount, lines, 0), LeftoverFor(mount, lines, i), Place(mount, lines, i);
    ResidueAt(mount, lines, i);
    BlockAgain(mount, lines, i);
    WovenWithoutRoutes(mount, all, p, left);
    WovenParts(mount, all, p + |left|);
  }

  // ---------------------------------------------------------------- counting both texts

  lemma AtsOfPieces(a: seq<string>, b: seq<string>, l: string, c: seq<string>)
    ensures AtsIn(a + (b + ([l] + c))) == AtsIn(a) + AtsIn(b) + Ats(l) + AtsIn(c)
  {
    hide Ats, AtsIn;
    AtsInBoth(a, b + ([l] + c));
    AtsInBoth(b, [l] + c);
    AtsInBoth([l], c);
    AtsOfOne(l);
  }

  lemma AtsOfOne(l: string)
    ensures AtsIn([l]) == Ats(l) && AtsIn([]) == 0
  {
    hide Ats;
    assert [l][1..] == [];
  }

  /** Printed again, the residue has as many tags as the text printed once, or fewer if anything was left over. */
  lemma {:induction false} FewerAgain(mount: string, lines: seq<string>, i: nat)
    requires i <= |lines|
    ensures 0 <= Place(mount, lines, i) <= |Residual(mount, lines, 0)|
    ensures var again := AtsIn(Woven(mount, Residual(mount, lines, 0), Place(mount, lines, i)));
            var once := AtsIn(Woven(mount, lines, i));
            && again <= once
            && ((exists k: nat :: i <= k < |lines| && LeftoverFor(mount, lines, k) != []) ==> again < once)
    decreases |lines| - i
  {
    hide LeftoverFor, BlockFor, Residual, Place, Woven, AtsIn, Ats;
    ResidualSuffix(mount, lines, i);
    if i == |lines| {
      PiecesBelow(mount, lines, i);
      PiecesBelow(mount, Residual(mount, lines, 0), Place(mount, lines, i));
    } else {
      FewerAgain(mount, lines, i + 1);
      var all, left, block := Residual(mount, lines, 0), LeftoverFor(mount, lines, i), BlockFor(mount, lines, i);
      var below := Woven(mount, all, Place(mount, lines, i + 1));
      WovenResidue(mount, lines, i);
      NoAts(left);
      AtsOfPieces(left, if left == [] then block else [], lines[i], below);
      WovenParts(mount, lines, i);
      AtsOfPieces([], block, lines[i], Woven(mount, lines, i + 1));
      assert block + [lines[i]] + Woven(mount, lines, i + 1) ==
          [] + (block + ([lines[i]] + Woven(mount, lines, i + 1)));
      LeftoverNeedsBlock(mount, lines, i);
    }
  }

  lemma LeftoverNeedsBlock(mount: string, lines: seq<string>, i: nat)
    requires i < |lines|
    ensures AtsIn([]) == 0
    ensures LeftoverFor(mount, lines, i) != [] ==> 0 < AtsIn(BlockFor(mount, lines, i))
    ensures LeftoverFor(mount, lines, i) != []
       <==> Eligible(lines, i) && EndsWithCloser(RouteIn(lines[i]).value.path)
  {
    hide RouteIn, Contains, EndsWithCloser, TailLines, Block;
    if Eligible(lines, i) { BlockHasAt(mount, RouteIn(lines[i]).value, lines[i]); }
  }

  /** The residue's lines are those that it is read as. */
  lemma {:induction false} ResidualLines(mount: string, lines: seq<string>, i: nat)
    requires i <= |lines| && LinesOf(lines)
    ensures LinesOf(Residual(mount, lines, i))
    ensures i < |lines| ==> Residual(mount, lines, i) != []
    decreases |lines| - i
  {
    hide RouteIn, Contains, Leftover, NoSlashStar;
    if i < |lines| {
      ResidualLines(mount, lines, i + 1);
      if Eligible(lines, i) { LeftoverIsInert(mount, RouteIn(lines[i]).value, lines[i]); }
    }
  }

  /** What a second weaving of the residue prints is another text exactly when something was left over. */
  lemma WeaveAgain(mount: string, lines: seq<string>)
    requires LinesOf(lines) && lines != []
    ensures var again := Join(Woven(mount, Split(Join(Residual(mount, lines, 0))), 0));
            again == Join(Woven(mount, lines, 0)) <==> CloserFree(lines)
  {
    hide Residual, Woven, Join, Split, LeftoverFor, Contains, EndsWithCloser, RouteIn, AtsIn, Ats, Place;
    var all := Residual(mount, lines, 0);
    ResidualLines(mount, lines, 0);
    SplitJoin(all);
    forall k: nat | k < |lines|
      ensures LeftoverFor(mount, lines, k) != [] <==> Eligible(lines, k) && EndsWithCloser(RouteIn(lines[k]).value.path)
    {
      LeftoverNeedsBlock(mount, lines, k);
    }
    if CloserFree(lines) {
      NothingLeftOver(mount, lines, 0);
      assert lines[0..] == lines;
    } else {
      FewerAgain(mount, lines, 0);
      ResidualSuffix(mount, lines, 0);
      AtsOfJoin(Woven(mount, all, 0));
      AtsOfJoin(Woven(mount, lines, 0));
    }
  }

  /**
   * Where the text swallows nothing, annotating an annotated file changes nothing if no eligible route's text ends in
   * a comment closer. While the file keeps its mount, or loses it, it changes nothing exactly then or if there is no
   * mount to print.
   */
  lemma AnnotateTwice(content: string, mountOf: string -> Option<string>)
    requires forall s :: mountOf(s).Some? ==> '\n' !in mountOf(s).value
    requires !Swallows(Strip(content))
    ensures var once := Annotated(content, mountOf);
            var twice, first, second := Annotated(once, mountOf), mountOf(Strip(content)), mountOf(Strip(once));
            && (CloserFree(Split(Strip(content))) ==> twice == once)
            && (second.None? || second == first ==>
                  (twice == once <==> first.None? || second.None? || CloserFree(Split(Strip(content)))))
  {
    hide Strip, Split, Join, Woven, Residual, CloserFree, Swallows;
    var text := Strip(content);
    if mountOf(text).Some? {
      StripWoven(mountOf(text).value, text);
      StripUndoesAnnotate(mountOf(text).value, text);
      WeaveAgain(mountOf(text).value, Split(text));
    }
  }
}
