/**
 * Text as the annotator's regular expressions see it: the pass that strips old `@openapi` comment blocks, and lines
 * split and joined at line feeds.
 */
module SwaggerText {
  import opened Common

  /** JavaScript's `\s`. */
  predicate IsSpace(c: char) {
    var n := c as int;
    || 0x09 <= n <= 0x0D || n == 0x20 || n == 0xA0 || n == 0x1680 || 0x2000 <= n <= 0x200A
    || n == 0x2028 || n == 0x2029 || n == 0x202F || n == 0x205F || n == 0x3000 || n == 0xFEFF
  }

  // ---------------------------------------------------------------- /\*\*\s*\n\s*\*\s*@openapi[\s\S]*?\*/\s*\n

  /** What follows `\s*\n\s*\*` at the start of `s`; `broken` tells whether a line feed was seen. */
  function SkipBreak(s: string, broken: bool): (rest: Option<string>)
    ensures rest.Some? ==> |rest.value| < |s|
  {
    if s == "" then None
    else if IsSpace(s[0]) then SkipBreak(s[1..], broken || s[0] == '\n')
    else if broken && s[0] == '*' then Some(s[1..])
    else None
  }

  /** What follows `\s*@openapi` at the start of `s`. */
  function SkipTag(s: string): (rest: Option<string>)
    ensures rest.Some? ==> |rest.value| < |s|
  {
    if s != "" && IsSpace(s[0]) then SkipTag(s[1..])
    else if "@openapi" <= s then Some(s[8..])
    else None
  }

  /** What follows the opening of an annotation at the start of `s`. */
  function AfterOpener(s: string): (rest: Option<string>)
    ensures rest.Some? ==> |rest.value| < |s|
  {
    if "/**" <= s && SkipBreak(s[3..], false).Some? then SkipTag(SkipBreak(s[3..], false).value) else None
  }

  /** What follows the last line feed of the white space that `s` starts with. */
  function LastBreak(s: string): (rest: Option<string>)
    ensures rest.Some? ==> |rest.value| < |s|
  {
    if s == "" || !IsSpace(s[0]) then None
    else if LastBreak(s[1..]).Some? then LastBreak(s[1..])
    else if s[0] == '\n' then Some(s[1..])
    else None
  }

  /** What follows the first comment closer that only white space separates from a line feed. */
  function AfterCloser(s: string): (rest: Option<string>)
    ensures rest.Some? ==> |rest.value| < |s|
  {
    if s == "" then None
    else if "*/" <= s && LastBreak(s[2..]).Some? then LastBreak(s[2..])
    else AfterCloser(s[1..])
  }

  /** What follows an annotation block at the start of `s`. */
  function AfterBlock(s: string): (rest: Option<string>)
    ensures rest.Some? ==> |rest.value| < |s|
  {
    if AfterOpener(s).Some? then AfterCloser(AfterOpener(s).value) else None
  }

  /** `replace` of every block by nothing, from left to right. */
  function Strip(s: string): string
    decreases |s|
  {
    if s == "" then ""
    else if AfterBlock(s).Some? then Strip(AfterBlock(s).value)
    else [s[0]] + Strip(s[1..])
  }

  /** No annotation opens anywhere in `s`. */
  predicate NoOpener(s: string) {
    s == "" || (AfterOpener(s).None? && NoOpener(s[1..]))
  }

  // ---------------------------------------------------------------- lines

  function Split(s: string): (lines: seq<string>)
    ensures lines != [] && forall l :: l in lines ==> '\n' !in l
  {
    if s == "" then [""]
    else if s[0] == '\n' then [""] + Split(s[1..])
    else
      var rest := Split(s[1..]);
      [[s[0]] + rest[0]] + rest[1..]
  }

  function Join(lines: seq<string>): string {
    if lines == [] then ""
    else if |lines| == 1 then lines[0]
    else lines[0] + "\n" + Join(lines[1..])
  }

  /** Every line with its line feed. */
  function Unlines(lines: seq<string>): string {
    if lines == [] then "" else lines[0] + "\n" + Unlines(lines[1..])
  }

  lemma FirstThenRest<T>(s: seq<T>, t: seq<T>)
    requires s != []
    ensures s + t == [s[0]] + (s[1..] + t)
  {
  }

  lemma Associates<T>(a: seq<T>, b: seq<T>, c: seq<T>)
    ensures a + (b + c) == a + b + c
  {
  }

  lemma JoinCons(l: string, rest: seq<string>)
    ensures Join([l] + rest) == if rest == [] then l else l + "\n" + Join(rest)
  {
    assert ([l] + rest)[1..] == rest;
  }

  lemma JoinPrepend(c: char, lines: seq<string>)
    requires lines != []
    ensures Join([[c] + lines[0]] + lines[1..]) == [c] + Join(lines)
  {
    JoinCons([c] + lines[0], lines[1..]);
    JoinCons(lines[0], lines[1..]);
    hide Join;
    assert lines == [lines[0]] + lines[1..];
    Associates([c], lines[0], "\n");
    Associates([c], lines[0] + "\n", Join(lines[1..]));
  }

  lemma {:induction false} JoinSplit(s: string)
    ensures Join(Split(s)) == s
  {
    if s == "" {
    } else {
      JoinSplit(s[1..]);
      var rest := Split(s[1..]);
      assert s == [s[0]] + s[1..];
      if s[0] == '\n' {
        JoinCons("", rest);
      } else {
        JoinPrepend(s[0], rest);
      }
    }
  }

  lemma {:induction false} SplitJoin(lines: seq<string>)
    requires lines != [] && forall l :: l in lines ==> '\n' !in l
    ensures Split(Join(lines)) == lines
    decreases |lines|, if lines == [] then 0 else |lines[0]|
  {
    var l := lines[0];
    if l == "" {
      if |lines| > 1 {
        SplitJoin(lines[1..]);
        assert Join(lines)[1..] == Join(lines[1..]);
      }
    } else {
      assert l[0] in l;
      var shorter := [l[1..]] + lines[1..];
      assert forall x :: x in l[1..] ==> x in l;
      SplitJoin(shorter);
      assert [l[0]] + l[1..] == l && lines == [l] + lines[1..];
      JoinPrepend(l[0], shorter);
      assert Join(lines)[1..] == Join(shorter);
      hide Join;
    }
  }

  lemma {:induction false} JoinAfter(block: seq<string>, lines: seq<string>)
    requires lines != []
    ensures Join(block + lines) == Unlines(block) + Join(lines)
  {
    if block == [] {
      assert block + lines == lines;
    } else {
      var l, rest := block[0], block[1..];
      JoinAfter(rest, lines);
      JoinCons(l, rest + lines);
      FirstThenRest(block, lines);
      Associates(l + "\n", Unlines(rest), Join(lines));
    }
  }

  // ---------------------------------------------------------------- nothing to strip

  lemma {:induction false} StripNothing(s: string)
    requires NoOpener(s)
    ensures Strip(s) == s
  {
    if s == "" {
    } else {
      StripNothing(s[1..]);
    }
  }

  // ---------------------------------------------------------------- closers

  predicate AllSpace(s: string) {
    forall c :: c in s ==> IsSpace(c)
  }

  /** The line ends in a comment closer, white space aside. */
  predicate EndsWithCloser(l: string) {
    l != "" && (("*/" <= l && AllSpace(l[2..])) || EndsWithCloser(l[1..]))
  }

  lemma {:induction false} LastBreakAfterLine(t: string, x: string)
    requires '\n' !in t
    ensures !AllSpace(t) ==> LastBreak(t + "\n" + x).None?
    ensures AllSpace(t) && LastBreak(x).None? ==> LastBreak(t + "\n" + x) == Some(x)
  {
    var s := t + "\n" + x;
    if t == "" {
      assert s[1..] == x;
    } else {
      assert s[1..] == t[1..] + "\n" + x;
      assert forall c :: c in t[1..] ==> c in t;
      assert t[0] in t && s[0] == t[0];
      assert t == [t[0]] + t[1..];
      LastBreakAfterLine(t[1..], x);
    }
  }

  /** The first closer before a line feed is at the end of the line or further down. */
  lemma {:induction false} AfterCloserLine(l: string, x: string)
    requires '\n' !in l
    ensures !EndsWithCloser(l) ==> AfterCloser(l + "\n" + x) == AfterCloser(x)
    ensures EndsWithCloser(l) && LastBreak(x).None? ==> AfterCloser(l + "\n" + x) == Some(x)
  {
    hide LastBreak, AllSpace;
    var s := l + "\n" + x;
    if l == "" {
      assert s[1..] == x && !("*/" <= s) by { assert s[0] == '\n'; }
    } else {
      assert s[1..] == l[1..] + "\n" + x;
      assert forall c :: c in l[1..] ==> c in l;
      AfterCloserLine(l[1..], x);
      assert s[1] == (l + "\n")[1];
      if "*/" <= s {
        assert s[2..] == l[2..] + "\n" + x;
        assert forall c :: c in l[2..] ==> c in l;
        LastBreakAfterLine(l[2..], x);
        assert "*/" <= l by { assert s[..2] == l[..2]; }
      } else {
        assert 2 <= |l| ==> s[..2] == l[..2];
      }
    }
  }

  lemma {:induction false} AfterCloserLines(lines: seq<string>, x: string)
    requires forall l :: l in lines ==> '\n' !in l && !EndsWithCloser(l)
    ensures AfterCloser(Unlines(lines) + x) == AfterCloser(x)
  {
    if lines == [] {
      assert Unlines(lines) + x == x;
    } else {
      AfterCloserLines(lines[1..], x);
      AfterCloserLine(lines[0], Unlines(lines[1..]) + x);
      assert Unlines(lines) + x == lines[0] + "\n" + (Unlines(lines[1..]) + x);
    }
  }

  /** A line whose last character is neither white space nor a slash does not end in a closer. */
  lemma {:induction false} EndsPlainly(l: string)
    requires l != "" && !IsSpace(l[|l| - 1]) && l[|l| - 1] != '/'
    ensures !EndsWithCloser(l)
  {
    if "*/" <= l {
      assert l[1] == '/';
      assert l[|l| - 1] in l[2..];
    }
    if |l| > 1 { EndsPlainly(l[1..]); }
  }

  /** Text before a space does not decide whether what follows ends in a closer. */
  lemma {:induction false} CloserAfterSpace(a: string, b: string)
    requires a != "" && a[|a| - 1] == ' ' && '/' !in a
    ensures EndsWithCloser(a + b) == EndsWithCloser(b)
  {
    var s := a + b;
    assert s[1..] == a[1..] + b;
    assert s[0] == a[0] && (|a| > 1 ==> s[1] == a[1] && a[1] in a);
    if |a| == 1 {
      assert a[1..] + b == b;
    } else {
      assert forall c :: c in a[1..] ==> c in a;
      CloserAfterSpace(a[1..], b);
    }
  }
}
