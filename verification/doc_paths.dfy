/** Resolution of relative links between the documents of a project. */
module DocPaths {
  import opened Text

  // ---------------------------------------------------------------------------
  // The portal's resolution
  // ---------------------------------------------------------------------------

  function Pop(stack: seq<string>): seq<string> {
    if stack == [] then [] else stack[..|stack| - 1]
  }

  function Visit(stack: seq<string>, seg: string): seq<string> {
    if seg == "" || seg == "." then stack
    else if seg == ".." then Pop(stack)
    else stack + [seg]
  }

  function Walk(segs: seq<string>, stack: seq<string>): seq<string> {
    if segs == [] then stack else Walk(segs[1..], Visit(stack, segs[0]))
  }

  function Resolve(target: string): seq<string> {
    Walk(Split(target, '/'), [])
  }

  /** The loop over the segments, with its stack. */
  method ResolveSegments(target: string) returns (parts: seq<string>)
    ensures parts == Resolve(target)
  {
    var segs := Split(target, '/');
    parts := [];
    var i := 0;
    while i < |segs|
      invariant 0 <= i <= |segs| && Walk(segs[i..], parts) == Walk(segs, [])
    {
      var seg := segs[i];
      assert segs[i..][1..] == segs[i + 1..];
      i := i + 1;
      if seg == "" || seg == ".." {
        if seg == ".." && parts != [] {
          parts := parts[..|parts| - 1];
        }
        continue;
      }
      if seg == "." {
        continue;
      }
      parts := parts + [seg];
    }
  }

  function Directory(currentDoc: string): seq<string> {
    var segs := Split(currentDoc, '/');
    segs[..|segs| - 1]
  }

  /** The link target: the href seen from the directory of the current document. */
  function Target(currentDoc: string, href: string): string {
    var dir := Join(Directory(currentDoc), '/');
    if dir == "" then href else dir + ['/'] + href
  }

  predicate Plain(seg: string) {
    seg != "" && seg != "." && seg != ".." && '/' !in seg
  }

  ghost predicate AllPlain(segs: seq<string>) {
    forall i :: 0 <= i < |segs| ==> Plain(segs[i])
  }

  lemma {:induction false} WalkPlain(segs: seq<string>, stack: seq<string>)
    requires AllPlain(stack) && forall i :: 0 <= i < |segs| ==> '/' !in segs[i]
    ensures AllPlain(Walk(segs, stack))
    decreases segs
  {
    if segs != [] {
      assert AllPlain(Visit(stack, segs[0]));
      WalkPlain(segs[1..], Visit(stack, segs[0]));
    }
  }

  lemma {:induction false} WalkAppend(a: seq<string>, b: seq<string>, stack: seq<string>)
    ensures Walk(a + b, stack) == Walk(b, Walk(a, stack))
    decreases a
  {
    if a == [] {
      assert a + b == b;
    } else {
      assert (a + b)[1..] == a[1..] + b;
      WalkAppend(a[1..], b, Visit(stack, a[0]));
    }
  }

  lemma {:induction false} WalkOnPlain(segs: seq<string>, stack: seq<string>)
    requires AllPlain(segs)
    ensures Walk(segs, stack) == stack + segs
    decreases segs
  {
    if segs != [] {
      assert Plain(segs[0]);
      assert forall i :: 0 <= i < |segs[1..]| ==> segs[1..][i] == segs[i + 1];
      WalkOnPlain(segs[1..], stack + [segs[0]]);
      assert stack + [segs[0]] + segs[1..] == stack + segs;
    } else {
      assert stack + segs == stack;
    }
  }

  /** Containment: a resolved link consists of plain names only, so it cannot climb out of the
      project's document root, and resolving it again changes nothing. */
  lemma ResolvedIsPlainAndStable(target: string)
    ensures AllPlain(Resolve(target))
    ensures Resolve(Join(Resolve(target), '/')) == Resolve(target)
  {
    SplitPieces(target, '/');
    WalkPlain(Split(target, '/'), []);
    var r := Resolve(target);
    if r == [] {
      assert Split("", '/') == [""];
    } else {
      SplitJoin(r, '/');
      WalkOnPlain(r, []);
      assert [] + r == r;
    }
  }

  /** Compositionality: resolving an href below a directory is continuing from the resolved
      directory, so it makes no difference whether the directory is normalised first. */
  lemma ResolveComposes(dir: string, href: string)
    ensures Resolve(dir + ['/'] + href) == Walk(Split(href, '/'), Resolve(dir))
    ensures Resolve(Join(Resolve(dir), '/') + ['/'] + href) == Resolve(dir + ['/'] + href)
  {
    SplitConcat(dir, href, '/');
    WalkAppend(Split(dir, '/'), Split(href, '/'), []);
    var d := Join(Resolve(dir), '/');
    SplitConcat(d, href, '/');
    WalkAppend(Split(d, '/'), Split(href, '/'), []);
    ResolvedIsPlainAndStable(dir);
  }

  lemma EmptyJoin(segs: seq<string>)
    ensures Join(segs, '/') == "" <==> segs == [] || segs == [""]
  {
  }

  /** A link is followed from the directory of the document that holds it. */
  lemma LinkStartsAtItsDirectory(currentDoc: string, href: string)
    ensures Resolve(Target(currentDoc, href)) == Walk(Split(href, '/'), Walk(Directory(currentDoc), []))
  {
    var dir := Directory(currentDoc);
    EmptyJoin(dir);
    if Join(dir, '/') == "" {
      assert [""][1..] == [];
      assert Walk(dir, []) == [];
    } else {
      SplitPieces(currentDoc, '/');
      SplitJoin(dir, '/');
      SplitConcat(Join(dir, '/'), href, '/');
      WalkAppend(dir, Split(href, '/'), []);
    }
  }

  /** In plain terms: the href takes the place of the document's own name, whatever stands before it,
      and a document at the root lends its links nothing. */
  lemma LinkReplacesTheName(dir: string, name: string, href: string)
    requires '/' !in name
    ensures Resolve(Target(dir + ['/'] + name, href)) == Resolve(dir + ['/'] + href)
    ensures Resolve(Target(name, href)) == Resolve(href)
  {
    SplitOne(name, '/');
    SplitConcat(dir, name, '/');
    LinkStartsAtItsDirectory(dir + ['/'] + name, href);
    LinkStartsAtItsDirectory(name, href);
    assert Directory(dir + ['/'] + name) == Split(dir, '/');
    ResolveComposes(dir, href);
    assert Directory(name) == [];
  }

  function Ups(n: nat): seq<string> {
    if n == 0 then [] else [".."] + Ups(n - 1)
  }

  lemma {:induction false} WalkUps(n: nat, stack: seq<string>)
    ensures "" !in Ups(n) && forall i :: 0 <= i < |Ups(n)| ==> '/' !in Ups(n)[i]
    ensures Walk(Ups(n), stack) == stack[..if n <= |stack| then |stack| - n else 0]
    decreases n
  {
    if n > 0 {
      WalkUps(n - 1, Pop(stack));
      assert Ups(n)[1..] == Ups(n - 1);
      if stack == [] {
        assert Pop(stack) == stack;
      }
    } else {
      assert stack[..|stack|] == stack;
    }
  }

  /** Any number of ".." from `depth` on leads to the root, never above it: from every document,
      every document is reached by that many followed by its path. */
  lemma EveryDocumentIsReachable(currentDoc: string, path: seq<string>, n: nat)
    requires path != [] && AllPlain(path) && n >= |Walk(Directory(currentDoc), [])|
    ensures Resolve(Target(currentDoc, Join(Ups(n) + path, '/'))) == path
  {
    var dir := Walk(Directory(currentDoc), []);
    WalkUps(n, dir);
    SplitJoin(Ups(n) + path, '/');
    LinkStartsAtItsDirectory(currentDoc, Join(Ups(n) + path, '/'));
    WalkAppend(Ups(n), path, dir);
    WalkOnPlain(path, []);
    assert [] + path == path;
  }

  // ---------------------------------------------------------------------------
  // Section 5.2.4 of RFC 3986
  // ---------------------------------------------------------------------------

  function SegmentEnd(input: string, i: nat): (n: nat)
    requires i <= |input|
    ensures i <= n <= |input|
    decreases |input| - i
  {
    if i == |input| || input[i] == '/' then i else SegmentEnd(input, i + 1)
  }

  function DropLast(output: string): string {
    if output == "" then ""
    else
      var front := output[..|output| - 1];
      if output[|output| - 1] == '/' then front else DropLast(front)
  }

  /** The "Remove Dot Segments" routine, on strings, case by case. */
  function RemoveDots(input: string, output: string): string
    decreases |input|
  {
    if input == "" then output
    else if "../" <= input then RemoveDots(input[3..], output)
    else if "./" <= input then RemoveDots(input[2..], output)
    else if "/./" <= input then RemoveDots(input[2..], output)
    else if input == "/." then RemoveDots("/", output)
    else if "/../" <= input then RemoveDots(input[3..], DropLast(output))
    else if input == "/.." then RemoveDots("/", DropLast(output))
    else if input == "." || input == ".." then output
    else
      var n := SegmentEnd(input, 1);
      RemoveDots(input[n..], output + input[..n])
  }

  /** The routine segment by segment: it keeps empty segments, and a final dot segment leaves one. */
  function RfcVisit(stack: seq<string>, seg: string): seq<string> {
    if seg == "." then stack
    else if seg == ".." then Pop(stack)
    else stack + [seg]
  }

  function RfcWalk(segs: seq<string>, stack: seq<string>): seq<string> {
    if segs == [] then stack else RfcWalk(segs[1..], RfcVisit(stack, segs[0]))
  }

  function RfcPath(segs: seq<string>, stack: seq<string>): seq<string>
    requires segs != []
  {
    if |segs| > 1 then RfcPath(segs[1..], RfcVisit(stack, segs[0]))
    else if segs[0] == "." || segs[0] == ".." then RfcVisit(stack, segs[0]) + [""]
    else stack + [segs[0]]
  }

  function Render(stack: seq<string>): string {
    if stack == [] then "" else Render(stack[..|stack| - 1]) + ['/'] + stack[|stack| - 1]
  }

  ghost predicate Segments(segs: seq<string>) {
    forall i :: 0 <= i < |segs| ==> '/' !in segs[i]
  }

  lemma {:induction false} DropLastSegment(front: string, seg: string)
    requires '/' !in seg
    ensures DropLast(front + ['/'] + seg) == front
  {
    var out := front + ['/'] + seg;
    if seg == "" {
      assert out[..|out| - 1] == front;
    } else {
      assert out[..|out| - 1] == front + ['/'] + seg[..|seg| - 1];
      DropLastSegment(front, seg[..|seg| - 1]);
    }
  }

  lemma RenderPop(stack: seq<string>)
    requires Segments(stack)
    ensures DropLast(Render(stack)) == Render(Pop(stack))
  {
    if stack != [] {
      DropLastSegment(Render(stack[..|stack| - 1]), stack[|stack| - 1]);
    }
  }

  lemma RenderPush(stack: seq<string>, seg: string)
    ensures Render(stack + [seg]) == Render(stack) + ['/'] + seg
  {
    assert (stack + [seg])[..|stack|] == stack;
  }

  lemma {:induction false} SegmentEndIs(a: string, rest: string, i: nat)
    requires i <= |a| && '/' !in a[i..] && (rest == "" || rest[0] == '/')
    ensures SegmentEnd(a + rest, i) == |a|
    decreases |a| - i
  {
    if i < |a| {
      assert a[i] in a[i..];
      SegmentEndIs(a, rest, i + 1);
    }
  }

  lemma RemoveDotSegment(rest: string, output: string)
    requires rest != "" && rest[0] == '/'
    ensures RemoveDots(['/'] + "." + rest, output) == RemoveDots(rest, output)
  {
    var input := ['/'] + "." + rest;
    assert input[..3] == "/./" && input[2..] == rest && input[0] == '/';
    assert !("../" <= input) && !("./" <= input) && "/./" <= input;
  }

  lemma RemoveDotDotSegment(rest: string, output: string)
    requires rest != "" && rest[0] == '/'
    ensures RemoveDots(['/'] + ".." + rest, output) == RemoveDots(rest, DropLast(output))
  {
    var input := ['/'] + ".." + rest;
    assert input[..4] == "/../" && input[3..] == rest && input[0] == '/' && input[2] == '.';
    assert !("../" <= input) && !("./" <= input) && !("/./" <= input) && "/../" <= input && input != "/.";
  }

  lemma NotTheSegment(seg: string, rest: string, p: string)
    requires '/' !in seg && '/' !in p && seg != p && (rest == "" || rest[0] == '/')
    ensures !(['/'] + p + ['/'] <= ['/'] + seg + rest) && ['/'] + p != ['/'] + seg + rest
  {
    var l, s, r := ['/'] + p, ['/'] + p + ['/'], ['/'] + seg + rest;
    assert l[1..] == p == s[1..|p| + 1] && r[1..|seg| + 1] == seg;
    assert s[|p| + 1] == '/';
    if |p| < |seg| {
      assert r[|p| + 1] == seg[|p|] && seg[|p|] in seg;
    } else if |seg| < |p| {
      assert l[|seg| + 1] == s[|seg| + 1] == p[|seg|] && p[|seg|] in p;
      assert rest != "" ==> r[|seg| + 1] == '/';
    }
  }

  lemma NotDots(seg: string, rest: string)
    requires '/' !in seg && seg != "." && seg != ".." && (rest == "" || rest[0] == '/')
    ensures var input := ['/'] + seg + rest;
            !("/./" <= input) && !("/../" <= input) && input != "/." && input != "/.."
            && !("../" <= input) && !("./" <= input) && input != "." && input != ".."
  {
    NotTheSegment(seg, rest, ".");
    NotTheSegment(seg, rest, "..");
    assert ['/'] + "." + ['/'] == "/./" && ['/'] + ".." + ['/'] == "/../";
    assert ['/'] + "." == "/." && ['/'] + ".." == "/..";
    assert (['/'] + seg + rest)[0] == '/';
  }

  lemma RemoveNameSegment(seg: string, rest: string, output: string)
    requires '/' !in seg && seg != "." && seg != ".." && rest != "" && rest[0] == '/'
    ensures RemoveDots(['/'] + seg + rest, output) == RemoveDots(rest, output + (['/'] + seg))
  {
    var input := ['/'] + seg + rest;
    NotDots(seg, rest);
    SegmentEndIs(['/'] + seg, rest, 1);
    assert input[..1 + |seg|] == ['/'] + seg && input[1 + |seg|..] == rest;
  }

  /** One segment taken off the input, by whichever case of the routine applies. */
  lemma RemoveFirst(seg: string, rest: string, output: string)
    requires '/' !in seg && rest != "" && rest[0] == '/'
    ensures RemoveDots(['/'] + seg + rest, output)
         == RemoveDots(rest, if seg == "." then output
                             else if seg == ".." then DropLast(output)
                             else output + (['/'] + seg))
  {
    hide RemoveDots, DropLast;
    if seg == "." {
      RemoveDotSegment(rest, output);
    } else if seg == ".." {
      RemoveDotDotSegment(rest, output);
    } else {
      RemoveNameSegment(seg, rest, output);
    }
  }

  lemma SlashOnly(output: string)
    ensures RemoveDots("/", output) == output + ['/']
  {
    var slash: string := "/";
    assert slash[1..] == "" && slash[..1] == ['/'];
    assert SegmentEnd(slash, 1) == 1;
    assert RemoveDots(slash[1..], output + slash[..1]) == output + ['/'];
  }

  lemma RemoveLastOne(seg: string, output: string)
    requires '/' !in seg
    ensures RemoveDots(['/'] + seg, output)
         == if seg == "." then output + ['/']
            else if seg == ".." then DropLast(output) + ['/']
            else output + (['/'] + seg)
  {
    SlashOnly(output);
    SlashOnly(DropLast(output));
    if seg == "." {
      var input: string := "/.";
      assert ['/'] + seg == input && input[0] == '/' && |input| == 2;
      assert !("../" <= input) && !("./" <= input) && !("/./" <= input);
      assert RemoveDots(input, output) == RemoveDots("/", output);
    } else if seg == ".." {
      var input: string := "/..";
      assert ['/'] + seg == input && input[0] == '/' && input[2] == '.' && |input| == 3;
      assert !("../" <= input) && !("./" <= input) && !("/./" <= input) && !("/../" <= input) && input != "/.";
    } else {
      var input := ['/'] + seg;
      assert input + "" == input;
      NotDots(seg, "");
      SegmentEndIs(input, "", 1);
      assert input[|input|..] == "" && input[..|input|] == input;
    }
  }

  /** The string routine is the segment routine. */
  lemma {:induction false} RemoveDotsBySegments(segs: seq<string>, stack: seq<string>)
    requires segs != [] && Segments(segs) && Segments(stack)
    ensures RemoveDots(['/'] + Join(segs, '/'), Render(stack)) == Render(RfcPath(segs, stack))
    decreases segs
  {
    hide RemoveDots, DropLast, Render;
    var seg := segs[0];
    RenderPop(stack);
    if |segs| == 1 {
      RemoveLastOne(seg, Render(stack));
      RenderPush(stack, seg);
      RenderPush(RfcVisit(stack, seg), "");
      assert forall x: string :: x + ['/'] + "" == x + ['/'];
      assert Render(stack) + (['/'] + seg) == Render(stack) + ['/'] + seg;
    } else {
      var rest := ['/'] + Join(segs[1..], '/');
      assert ['/'] + Join(segs, '/') == ['/'] + seg + rest;
      RemoveFirst(seg, rest, Render(stack));
      RenderPush(stack, seg);
      assert Render(stack) + (['/'] + seg) == Render(stack) + ['/'] + seg;
      RemoveDotsBySegments(segs[1..], RfcVisit(stack, seg));
    }
  }

  // ---------------------------------------------------------------------------
  // Agreement
  // ---------------------------------------------------------------------------

  function Names(segs: seq<string>): seq<string> {
    if segs == [] then []
    else Names(segs[..|segs| - 1]) + if segs[|segs| - 1] == "" then [] else [segs[|segs| - 1]]
  }

  lemma NamesPush(segs: seq<string>, seg: string)
    ensures Names(segs + [seg]) == Names(segs) + if seg == "" then [] else [seg]
  {
    assert (segs + [seg])[..|segs|] == segs;
  }

  /** Empty segments, if any, lie below all names. */
  ghost predicate EmptiesBelow(stack: seq<string>) {
    forall i, j :: 0 <= i < j < |stack| && stack[j] == "" ==> stack[i] == ""
  }

  lemma {:induction false} NamesOfEmpties(stack: seq<string>)
    requires forall i :: 0 <= i < |stack| ==> stack[i] == ""
    ensures Names(stack) == []
  {
    if stack != [] {
      NamesOfEmpties(stack[..|stack| - 1]);
    }
  }

  /** A ".." that meets an empty segment on top of names. */
  predicate Clashes(stack: seq<string>, seg: string) {
    seg == ".." && stack != [] && stack[|stack| - 1] == "" && Names(stack) != []
  }

  lemma NamesPop(stack: seq<string>)
    ensures stack == [] ==> Names(stack) == []
    ensures stack != [] && stack[|stack| - 1] == "" ==> Names(Pop(stack)) == Names(stack)
    ensures stack != [] && stack[|stack| - 1] != "" ==> Names(Pop(stack)) == Pop(Names(stack))
  {
  }

  /** One segment: the two readings part exactly at a ".." that meets an empty segment above names. */
  lemma StepAgreement(stack: seq<string>, seg: string)
    ensures Names(RfcVisit(stack, seg)) == Visit(Names(stack), seg)
       <==> !Clashes(stack, seg)
  {
    hide Names;
    NamesPush(stack, seg);
    NamesPop(stack);
  }

  lemma VisitAgrees(stack: seq<string>, seg: string)
    requires EmptiesBelow(stack) && seg != ""
    ensures EmptiesBelow(RfcVisit(stack, seg)) && Names(RfcVisit(stack, seg)) == Visit(Names(stack), seg)
  {
    NamesPush(stack, seg);
    if seg == ".." && stack != [] {
      var n := |stack| - 1;
      if stack[n] == "" {
        assert forall i :: 0 <= i < n ==> stack[i] == "";
        NamesOfEmpties(stack);
        NamesOfEmpties(stack[..n]);
      }
    }
  }

  lemma {:induction false} WalksAgree(segs: seq<string>, stack: seq<string>)
    requires EmptiesBelow(stack) && "" !in segs
    ensures Names(RfcWalk(segs, stack)) == Walk(segs, Names(stack))
    decreases segs
  {
    if segs != [] {
      assert segs[0] in segs;
      VisitAgrees(stack, segs[0]);
      WalksAgree(segs[1..], RfcVisit(stack, segs[0]));
    }
  }

  lemma {:induction false} RfcWalkUps(n: nat, stack: seq<string>)
    ensures RfcWalk(Ups(n), stack) == stack[..if n <= |stack| then |stack| - n else 0]
    decreases n
  {
    if n > 0 {
      RfcWalkUps(n - 1, Pop(stack));
      assert Ups(n)[1..] == Ups(n - 1);
      if stack == [] {
        assert Pop(stack) == stack;
      }
    } else {
      assert stack[..|stack|] == stack;
    }
  }

  lemma {:induction false} NamesAbove(stack: seq<string>, j: nat)
    requires j < |stack| && forall k :: j < k < |stack| ==> stack[k] != ""
    requires stack[j] == ""
    ensures |Names(stack)| == |Names(stack[..j])| + (|stack| - j - 1)
    decreases |stack|
  {
    var n := |stack| - 1;
    if n == j {
    } else {
      NamesAbove(stack[..n], j);
      assert stack[..n][..j] == stack[..j];
    }
  }

  lemma {:induction false} SomeName(stack: seq<string>, i: nat)
    requires i < |stack| && stack[i] != ""
    ensures Names(stack) != []
  {
    var n := |stack| - 1;
    if i < n {
      SomeName(stack[..n], i);
    }
  }

  /** The topmost empty segment at or below position j. */
  lemma {:induction false} TopmostEmpty(stack: seq<string>, j: nat) returns (k: nat)
    requires j < |stack| && stack[j] == ""
    ensures j <= k < |stack| && stack[k] == "" && forall m :: k < m < |stack| ==> stack[m] != ""
    decreases |stack| - j
  {
    if m :| j < m < |stack| && stack[m] == "" {
      k := TopmostEmpty(stack, m);
    } else {
      k := j;
    }
  }

  /** Where the portal and the standard part. Suppose the standard's routine has reached `stack` and
      the portal its names. They give the same names for every further path without empty
      segments if and only if no empty segment in `stack` has a name below it: the standard's ".."
      takes back an empty segment, the portal's always takes back a name. */
  lemma ExactAgreement(stack: seq<string>)
    ensures EmptiesBelow(stack)
       <==> forall segs :: "" !in segs && Segments(segs) ==> Names(RfcWalk(segs, stack)) == Walk(segs, Names(stack))
  {
    if EmptiesBelow(stack) {
      forall segs | "" !in segs && Segments(segs) ensures Names(RfcWalk(segs, stack)) == Walk(segs, Names(stack)) {
        WalksAgree(segs, stack);
      }
    } else {
      var i, j :| 0 <= i < j < |stack| && stack[j] == "" && stack[i] != "";
      var k := TopmostEmpty(stack, j);
      var n := |stack| - k;
      RfcWalkUps(n, stack);
      WalkUps(n, Names(stack));
      NamesAbove(stack, k);
      assert stack[..k][i] == stack[i];
      SomeName(stack[..k], i);
      assert |Names(RfcWalk(Ups(n), stack))| != |Walk(Ups(n), Names(stack))|;
    }
  }

  lemma WalkHead(seg: string, rest: seq<string>, stack: seq<string>)
    ensures Walk([seg] + rest, stack) == Walk(rest, Visit(stack, seg))
    ensures rest != [] ==> RfcPath([seg] + rest, stack) == RfcPath(rest, RfcVisit(stack, seg))
  {
    assert ([seg] + rest)[1..] == rest;
  }

  lemma SingleStep(seg: string, stack: seq<string>)
    ensures Walk([seg], stack) == Visit(stack, seg) && RfcWalk([seg], stack) == RfcVisit(stack, seg)
    ensures Plain(seg) ==> RfcPath([seg], stack) == stack + [seg]
  {
    assert [seg][1..] == [];
  }

  lemma PortalDropsTheName()
    ensures Walk(["a", "", "..", "b"], []) == ["b"]
  {
    hide Walk;
    assert ["a", "", "..", "b"] == ["a"] + ["", "..", "b"] && ["", "..", "b"] == [""] + ["..", "b"] && ["..", "b"] == [".."] + ["b"];
    WalkHead("a", ["", "..", "b"], []);
    WalkHead("", ["..", "b"], ["a"]);
    WalkHead("..", ["b"], ["a"]);
    SingleStep("b", []);
    assert Visit([], "a") == ["a"] && Visit(["a"], "..") == [] && Visit([], "b") == ["b"];
  }

  lemma StandardDropsTheEmptySegment()
    ensures RfcPath(["a", "", "..", "b"], []) == ["a", "b"]
  {
    hide RfcPath;
    assert ["a", "", "..", "b"] == ["a"] + ["", "..", "b"] && ["", "..", "b"] == [""] + ["..", "b"] && ["..", "b"] == [".."] + ["b"];
    WalkHead("a", ["", "..", "b"], []);
    WalkHead("", ["..", "b"], ["a"]);
    WalkHead("..", ["b"], ["a", ""]);
    SingleStep("b", ["a"]);
    assert RfcVisit([], "a") == ["a"] && RfcVisit(["a"], "") == ["a", ""] && RfcVisit(["a", ""], "..") == ["a"];
    assert ["a"] + ["b"] == ["a", "b"];
  }

  lemma JoinsTo()
    ensures Join(["a", "", "..", "b"], '/') == "a//../b"
  {
    assert ["a", "", "..", "b"][1..] == ["", "..", "b"];
    assert ["", "..", "b"][1..] == ["..", "b"];
    assert ["..", "b"][1..] == ["b"];
  }

  lemma RenderEmpty()
    ensures Render([]) == ""
  {
  }

  /** The shortest disagreement: the portal reads "a//../b" as b, the standard as a/b. */
  lemma DoubledSlashDiffers()
    ensures Resolve("a//../b") == ["b"] && RemoveDots("/a//../b", "") == Render(["a", "b"])
  {
    hide Walk, RfcPath, Split, Join, RemoveDots, Render;
    var segs := ["a", "", "..", "b"];
    JoinsTo();
    SplitJoin(segs, '/');
    PortalDropsTheName();
    RemoveDotsBySegments(segs, []);
    StandardDropsTheEmptySegment();
    RenderEmpty();
    assert ['/'] + "a//../b" == "/a//../b";
  }

  lemma {:induction false} RfcPathNames(segs: seq<string>, stack: seq<string>)
    requires segs != []
    ensures Names(RfcPath(segs, stack)) == Names(RfcWalk(segs, stack))
    decreases segs
  {
    if |segs| == 1 {
      assert segs[1..] == [];
      NamesPush(RfcVisit(stack, segs[0]), "");
      assert RfcWalk(segs, stack) == RfcVisit(stack, segs[0]);
    } else {
      RfcPathNames(segs[1..], RfcVisit(stack, segs[0]));
    }
  }

  lemma {:induction false} RfcWalkAppend(a: seq<string>, b: seq<string>, stack: seq<string>)
    ensures RfcWalk(a + b, stack) == RfcWalk(b, RfcWalk(a, stack))
    decreases a
  {
    if a == [] {
      assert a + b == b;
    } else {
      assert (a + b)[1..] == a[1..] + b;
      RfcWalkAppend(a[1..], b, RfcVisit(stack, a[0]));
    }
  }

  lemma FinalMayBeEmpty(segs: seq<string>)
    requires segs != [] && "" !in segs[..|segs| - 1]
    ensures Names(RfcWalk(segs, [])) == Walk(segs, [])
  {
    hide Walk, RfcWalk, Names;
    NamesPop([]);
    var front, final := segs[..|segs| - 1], segs[|segs| - 1];
    assert front + [final] == segs;
    if final == "" {
      WalkAppend(front, [final], []);
      RfcWalkAppend(front, [final], []);
      WalksAgree(front, []);
      NamesPush(RfcWalk(front, []), "");
      SingleStep("", RfcWalk(front, []));
      SingleStep("", Walk(front, []));
    } else {
      assert "" !in front + [final];
      WalksAgree(front + [final], []);
    }
  }

  /** For every target without doubled slashes (it may end in one), the portal's resolution is the
      standard's on "/" + target, up to the trailing slash that the standard keeps. */
  lemma AgreesWithStandard(target: string)
    requires var segs := Split(target, '/'); "" !in segs[..|segs| - 1]
    ensures exists path :: RemoveDots(['/'] + target, "") == Render(path) && Names(path) == Resolve(target)
  {
    var segs := Split(target, '/');
    SplitPieces(target, '/');
    JoinSplit(target, '/');
    RemoveDotsBySegments(segs, []);
    RfcPathNames(segs, []);
    FinalMayBeEmpty(segs);
    assert Names(RfcPath(segs, [])) == Resolve(target);
  }

  /** The names that the standard's routine makes of "/" + target (`RemoveDotsBySegments`). */
  function StandardNames(target: string): seq<string> {
    Names(RfcPath(Split(target, '/'), []))
  }

  /** Every continuation of this directory, by a link without empty segments, is read alike. */
  ghost predicate ContinuesAlike(dir: string) {
    forall href :: "" !in Split(href, '/') ==> StandardNames(dir + ['/'] + href) == Resolve(dir + ['/'] + href)
  }

  lemma Continuation(dir: string, rest: seq<string>)
    requires rest != [] && Segments(rest)
    ensures Split(Join(rest, '/'), '/') == rest
    ensures StandardNames(dir + ['/'] + Join(rest, '/')) == Names(RfcWalk(rest, RfcWalk(Split(dir, '/'), [])))
    ensures Resolve(dir + ['/'] + Join(rest, '/')) == Walk(rest, Resolve(dir))
  {
    var segs := Split(dir, '/');
    SplitJoin(rest, '/');
    SplitConcat(dir, Join(rest, '/'), '/');
    RfcPathNames(segs + rest, []);
    RfcWalkAppend(segs, rest, []);
    WalkAppend(segs, rest, []);
  }

  lemma DotContinuation(dir: string)
    requires ContinuesAlike(dir)
    ensures StandardNames(dir) == Resolve(dir)
  {
    hide Split, Walk, RfcWalk, Names;
    SingleStep(".", RfcWalk(Split(dir, '/'), []));
    SingleStep(".", Resolve(dir));
    Continuation(dir, ["."]);
    RfcPathNames(Split(dir, '/'), []);
    assert "" !in Split(Join(["."], '/'), '/');
  }

  lemma AlikeOnSegments(dir: string, rest: seq<string>)
    requires ContinuesAlike(dir) && "" !in rest && Segments(rest) && StandardNames(dir) == Resolve(dir)
    ensures Names(RfcWalk(rest, RfcWalk(Split(dir, '/'), []))) == Walk(rest, Resolve(dir))
  {
    hide Split, Join, Names;
    RfcPathNames(Split(dir, '/'), []);
    if rest != [] {
      Continuation(dir, rest);
    }
  }

  /** The same exact condition for targets: all links below a directory are read alike if and only if
      the directory itself is and the standard's reading of it has no name below an empty segment. */
  lemma TargetsAgreeExactly(dir: string)
    ensures ContinuesAlike(dir)
       <==> StandardNames(dir) == Resolve(dir) && EmptiesBelow(RfcWalk(Split(dir, '/'), []))
  {
    hide Walk, RfcWalk, RfcPath, Split, Join, Names, EmptiesBelow;
    var stack := RfcWalk(Split(dir, '/'), []);
    RfcPathNames(Split(dir, '/'), []);
    if StandardNames(dir) == Resolve(dir) && EmptiesBelow(stack) {
      forall href | "" !in Split(href, '/')
        ensures StandardNames(dir + ['/'] + href) == Resolve(dir + ['/'] + href)
      {
        SplitPieces(href, '/');
        JoinSplit(href, '/');
        Continuation(dir, Split(href, '/'));
        WalksAgree(Split(href, '/'), stack);
      }
    } else if ContinuesAlike(dir) {
      DotContinuation(dir);
      forall rest | "" !in rest && Segments(rest) ensures Names(RfcWalk(rest, stack)) == Walk(rest, Names(stack)) {
        AlikeOnSegments(dir, rest);
      }
      ExactAgreement(stack);
    }
  }

  predicate AlikeUpTo(segs: seq<string>, k: nat)
    requires k <= |segs|
  {
    Names(RfcWalk(segs[..k], [])) == Walk(segs[..k], [])
  }

  lemma AlikeNext(segs: seq<string>, k: nat)
    requires k < |segs| && AlikeUpTo(segs, k)
    ensures AlikeUpTo(segs, k + 1) <==> !Clashes(RfcWalk(segs[..k], []), segs[k])
  {
    hide Walk, RfcWalk, Names;
    var front, seg := segs[..k], segs[k];
    assert segs[..k + 1] == front + [seg];
    RfcWalkAppend(front, [seg], []);
    WalkAppend(front, [seg], []);
    SingleStep(seg, RfcWalk(front, []));
    SingleStep(seg, Walk(front, []));
    StepAgreement(RfcWalk(front, []), seg);
  }

  lemma {:induction false} AlikeWithoutClash(segs: seq<string>, k: nat)
    requires k <= |segs| && forall j :: 0 <= j < k ==> !Clashes(RfcWalk(segs[..j], []), segs[j])
    ensures AlikeUpTo(segs, k)
  {
    if k > 0 {
      AlikeWithoutClash(segs, k - 1);
      AlikeNext(segs, k - 1);
    } else {
      NamesPop([]);
    }
  }

  /** The exact condition on a target itself: it is read alike at every segment if and only if no ".."
      in it meets an empty segment on top of names, as the standard reads it. */
  lemma AlikeThroughoutExactly(target: string)
    ensures (forall k :: 0 <= k <= |Split(target, '/')| ==> AlikeUpTo(Split(target, '/'), k))
       <==> (forall k :: 0 <= k < |Split(target, '/')| ==>
               !Clashes(RfcWalk(Split(target, '/')[..k], []), Split(target, '/')[k]))
  {
    hide Split, AlikeUpTo, Clashes;
    var segs := Split(target, '/');
    if forall k :: 0 <= k <= |segs| ==> AlikeUpTo(segs, k) {
      forall k | 0 <= k < |segs| ensures !Clashes(RfcWalk(segs[..k], []), segs[k]) {
        AlikeNext(segs, k);
      }
    }
    if forall k :: 0 <= k < |segs| ==> !Clashes(RfcWalk(segs[..k], []), segs[k]) {
      forall k | 0 <= k <= |segs| ensures AlikeUpTo(segs, k) {
        AlikeWithoutClash(segs, k);
      }
    }
  }

  function Squeeze(segs: seq<string>): (r: seq<string>)
    ensures "" !in r
    ensures forall seg :: seg in r ==> seg in segs
  {
    if segs == [] then []
    else if segs[0] == "" then Squeeze(segs[1..])
    else [segs[0]] + Squeeze(segs[1..])
  }

  lemma {:induction false} WalkSkipsEmpties(segs: seq<string>, stack: seq<string>)
    ensures Walk(Squeeze(segs), stack) == Walk(segs, stack)
    decreases segs
  {
    if segs != [] {
      WalkSkipsEmpties(segs[1..], Visit(stack, segs[0]));
    }
  }

  /** For every target at all, the portal's resolution is the standard's on the target with its
      empty segments squeezed out. */
  lemma AgreesAfterSqueezing(target: string)
    ensures var segs := Squeeze(Split(target, '/'));
            if segs == [] then Resolve(target) == []
            else exists path :: RemoveDots(['/'] + Join(segs, '/'), "") == Render(path) && Names(path) == Resolve(target)
  {
    var segs := Squeeze(Split(target, '/'));
    SplitPieces(target, '/');
    WalkSkipsEmpties(Split(target, '/'), []);
    if segs != [] {
      forall i | 0 <= i < |segs| ensures '/' !in segs[i] {
        assert segs[i] in Split(target, '/');
      }
      RemoveDotsBySegments(segs, []);
      RfcPathNames(segs, []);
      WalksAgree(segs, []);
      assert Names(RfcPath(segs, [])) == Resolve(target);
    }
  }
}
