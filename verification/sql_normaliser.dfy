/** How the audit-write guard normalises SQL before it looks for writes to the audit table. */
module SqlNormaliser {
  import opened Text

  // ---------------------------------------------------------------------------
  // The three substitutions
  // ---------------------------------------------------------------------------

  /** The position of the first "*" followed by "/", or -1. */
  function Close(s: string): int {
    if |s| < 2 then -1
    else if s[0] == '*' && s[1] == '/' then 0
    else if Close(s[1..]) < 0 then -1
    else 1 + Close(s[1..])
  }

  lemma {:induction false} CloseInside(s: string)
    ensures Close(s) == -1 || 0 <= Close(s) <= |s| - 2
  {
    if |s| >= 2 {
      CloseInside(s[1..]);
    }
  }

  predicate Starts(s: string, a: char, b: char) {
    |s| >= 2 && s[0] == a && s[1] == b
  }

  /** What follows the block comment at the head of `s`. */
  function AfterBlock(s: string): (rest: string)
    requires Starts(s, '/', '*') && Close(s[2..]) >= 0
    ensures |rest| < |s|
  {
    CloseInside(s[2..]);
    s[2 + Close(s[2..]) + 2..]
  }

  /** Every closed block comment, leftmost first, becomes one space. */
  function StripBlocks(s: string): string
    decreases |s|
  {
    if s == [] then []
    else if Starts(s, '/', '*') && Close(s[2..]) >= 0 then [' '] + StripBlocks(AfterBlock(s))
    else [s[0]] + StripBlocks(s[1..])
  }

  /** What follows the current line; the newline itself is kept. */
  function AfterLine(s: string): (rest: string)
    ensures |rest| <= |s|
  {
    if s == [] || s[0] == '\n' then s else AfterLine(s[1..])
  }

  /** Every "--" and the rest of its line become one space. */
  function StripLines(s: string): string
    decreases |s|
  {
    if s == [] then []
    else if Starts(s, '-', '-') then [' '] + StripLines(AfterLine(s[2..]))
    else [s[0]] + StripLines(s[1..])
  }

  function AfterSpaces(s: string): (rest: string)
    ensures |rest| <= |s|
  {
    if s != [] && IsSpace(s[0]) then AfterSpaces(s[1..]) else s
  }

  /** Every run of white space becomes one space. */
  function Collapse(s: string): string
    decreases |s|
  {
    if s == [] then []
    else if IsSpace(s[0]) then [' '] + Collapse(AfterSpaces(s[1..]))
    else [s[0]] + Collapse(s[1..])
  }

  function Normalise(query: string): string {
    Collapse(StripLines(StripBlocks(query)))
  }

  /** The guard's verdict for some pattern over normalised text. */
  predicate TouchesAuditTable(query: string, pattern: string -> bool) {
    query != "" && pattern(Normalise(query))
  }

  // ---------------------------------------------------------------------------
  // What the output can contain
  // ---------------------------------------------------------------------------

  ghost predicate NoPair(s: string, a: char, b: char) {
    forall i :: 0 <= i < |s| - 1 ==> !(s[i] == a && s[i + 1] == b)
  }

  /** No "/" followed by "*" has, later on, a "*" followed by "/". */
  ghost predicate NoBlock(s: string) {
    forall i, j :: 0 <= i && i + 2 <= j < |s| - 1 && s[i] == '/' && s[i + 1] == '*' ==> !(s[j] == '*' && s[j + 1] == '/')
  }

  /** The same, read along the text: no opener has a closer behind it. */
  ghost predicate Clean(s: string) {
    s == [] || ((Starts(s, '/', '*') ==> NoPair(s[2..], '*', '/')) && Clean(s[1..]))
  }

  lemma {:induction false} CleanTail(s: string, k: nat)
    requires Clean(s) && k <= |s|
    ensures Clean(s[k..])
    decreases k
  {
    if k > 0 {
      CleanTail(s[1..], k - 1);
      assert s[1..][k - 1..] == s[k..];
    }
  }

  lemma CleanHasNoBlock(s: string)
    requires Clean(s)
    ensures NoBlock(s)
  {
    forall i, j | 0 <= i && i + 2 <= j < |s| - 1 && s[i] == '/' && s[i + 1] == '*'
      ensures !(s[j] == '*' && s[j + 1] == '/')
    {
      CleanTail(s, i);
      assert Starts(s[i..], '/', '*') && s[i..][2..] == s[i + 2..];
      var t, k := s[i + 2..], j - i - 2;
      assert NoPair(t, '*', '/') && t[k] == s[j] && t[k + 1] == s[j + 1];
    }
  }

  lemma NoPairTail(s: string, k: nat, a: char, b: char)
    requires NoPair(s, a, b) && k <= |s|
    ensures NoPair(s[k..], a, b)
  {
  }

  lemma NoPairCons(u: string, a: char, b: char)
    requires u != [] && NoPair(u[1..], a, b) && !Starts(u, a, b)
    ensures NoPair(u, a, b)
  {
    forall i | 0 <= i < |u| - 1 ensures !(u[i] == a && u[i + 1] == b) {
      if i > 0 {
        assert u[1..][i - 1] == u[i] && u[1..][i] == u[i + 1];
      }
    }
  }

  lemma NoPairShrinks(s: string, a: char, b: char)
    ensures s != [] && NoPair(s, a, b) ==> NoPair(s[1..], a, b)
  {
  }

  lemma {:induction false} CloseIsPair(s: string)
    ensures Close(s) < 0 <==> NoPair(s, '*', '/')
  {
    if |s| >= 2 {
      CloseIsPair(s[1..]);
      NoPairShrinks(s, '*', '/');
      if Close(s) < 0 {
        NoPairCons(s, '*', '/');
      }
    }
  }

  /** `u` is `t` with some of its non-empty segments replaced by one space each. */
  ghost predicate Blanked(t: string, u: string)
    decreases u
  {
    if u == [] then t == []
    else
      || (t != [] && u[0] == t[0] && Blanked(t[1..], u[1..]))
      || (u[0] == ' ' && exists k :: 0 < k <= |t| && Blanked(t[k..], u[1..]))
  }

  lemma {:induction false} BlockedIsBlanked(s: string)
    ensures Blanked(s, StripBlocks(s))
    decreases |s|
  {
    if s == [] {
    } else if Starts(s, '/', '*') && Close(s[2..]) >= 0 {
      CloseInside(s[2..]);
      BlockedIsBlanked(AfterBlock(s));
      var k := 2 + Close(s[2..]) + 2;
      assert 0 < k <= |s| && Blanked(s[k..], StripBlocks(s)[1..]);
    } else {
      BlockedIsBlanked(s[1..]);
      assert StripBlocks(s)[1..] == StripBlocks(s[1..]);
    }
  }

  lemma {:induction false} AfterLineIsSuffix(s: string)
    ensures AfterLine(s) == s[|s| - |AfterLine(s)|..]
  {
    if s != [] && s[0] != '\n' {
      AfterLineIsSuffix(s[1..]);
    }
  }

  lemma {:induction false} LinedIsBlanked(s: string)
    ensures Blanked(s, StripLines(s))
    decreases |s|
  {
    if s == [] {
    } else if Starts(s, '-', '-') {
      AfterLineIsSuffix(s[2..]);
      LinedIsBlanked(AfterLine(s[2..]));
      var k := |s| - |AfterLine(s[2..])|;
      assert s[k..] == AfterLine(s[2..]);
      assert 0 < k <= |s| && Blanked(s[k..], StripLines(s)[1..]);
    } else {
      LinedIsBlanked(s[1..]);
      assert StripLines(s)[1..] == StripLines(s[1..]);
    }
  }

  lemma {:induction false} AfterSpacesIsSuffix(s: string)
    ensures AfterSpaces(s) == s[|s| - |AfterSpaces(s)|..]
    ensures AfterSpaces(s) != [] ==> !IsSpace(AfterSpaces(s)[0])
  {
    if s != [] && IsSpace(s[0]) {
      AfterSpacesIsSuffix(s[1..]);
    }
  }

  lemma {:induction false} CollapsedIsBlanked(s: string)
    ensures Blanked(s, Collapse(s))
    decreases |s|
  {
    if s == [] {
    } else if IsSpace(s[0]) {
      AfterSpacesIsSuffix(s[1..]);
      CollapsedIsBlanked(AfterSpaces(s[1..]));
      var k := |s| - |AfterSpaces(s[1..])|;
      assert s[k..] == AfterSpaces(s[1..]);
      assert 0 < k <= |s| && Blanked(s[k..], Collapse(s)[1..]);
    } else {
      CollapsedIsBlanked(s[1..]);
      assert Collapse(s)[1..] == Collapse(s[1..]);
    }
  }

  /** The head of a blanked text that is not a space is the head of the original. */
  lemma BlankedHead(t: string, u: string)
    requires Blanked(t, u) && u != [] && u[0] != ' '
    ensures t != [] && t[0] == u[0] && Blanked(t[1..], u[1..])
  {
  }

  /** How much of `t` the space at the head of `u` stands for. */
  ghost function Replaced(t: string, u: string): (k: nat)
    requires Blanked(t, u) && u != [] && u[0] == ' '
    ensures 0 < k <= |t| && Blanked(t[k..], u[1..])
  {
    if t != [] && u[0] == t[0] && Blanked(t[1..], u[1..]) then 1
    else
      var k :| 0 < k <= |t| && Blanked(t[k..], u[1..]);
      k
  }

  /** Blanking brings no two characters together. */
  lemma {:induction false} BlankedKeepsNoPair(t: string, u: string, a: char, b: char)
    requires Blanked(t, u) && NoPair(t, a, b) && a != ' ' && b != ' '
    ensures NoPair(u, a, b)
    decreases u
  {
    if u != [] {
      if u[0] != ' ' {
        BlankedHead(t, u);
        NoPairTail(t, 1, a, b);
        BlankedKeepsNoPair(t[1..], u[1..], a, b);
        assert |t| >= 2 ==> t[1..][0] == t[1] && !Starts(t, a, b);
        if |u| >= 2 && u[1] == b {
          BlankedHead(t[1..], u[1..]);
        }
      } else {
        var k := Replaced(t, u);
        NoPairTail(t, k, a, b);
        BlankedKeepsNoPair(t[k..], u[1..], a, b);
      }
      NoPairCons(u, a, b);
    }
  }

  lemma {:induction false} BlankedKeepsClean(t: string, u: string)
    requires Blanked(t, u) && Clean(t)
    ensures Clean(u)
    decreases u
  {
    if u != [] {
      if u[0] != ' ' {
        BlankedHead(t, u);
        BlankedKeepsClean(t[1..], u[1..]);
        if Starts(u, '/', '*') {
          BlankedHead(t[1..], u[1..]);
          assert t[1..][1..] == t[2..] && u[1..][1..] == u[2..];
          BlankedKeepsNoPair(t[2..], u[2..], '*', '/');
        }
      } else {
        var k := Replaced(t, u);
        CleanTail(t, k);
        BlankedKeepsClean(t[k..], u[1..]);
      }
    }
  }

  lemma {:induction false} NoCloserNoStrip(s: string)
    requires s != [] ==> NoPair(s[1..], '*', '/')
    ensures StripBlocks(s) == s
  {
    if s != [] {
      if |s| >= 2 {
        NoPairTail(s[1..], 1, '*', '/');
        assert s[1..][1..] == s[2..];
        CloseIsPair(s[2..]);
      }
      NoCloserNoStrip(s[1..]);
    }
  }

  lemma {:induction false} StrippedIsClean(s: string)
    ensures Clean(StripBlocks(s))
    decreases |s|
  {
    if s == [] {
    } else if Starts(s, '/', '*') && Close(s[2..]) >= 0 {
      CloseInside(s[2..]);
      StrippedIsClean(AfterBlock(s));
      assert StripBlocks(s)[1..] == StripBlocks(AfterBlock(s));
    } else {
      StrippedIsClean(s[1..]);
      var u := StripBlocks(s);
      assert u[1..] == StripBlocks(s[1..]);
      if Starts(u, '/', '*') {
        assert s[1] == '*';
        CloseIsPair(s[2..]);
        assert s[1..][1..] == s[2..];
        NoCloserNoStrip(s[1..]);
        assert u[2..] == s[2..];
      }
    }
  }

  lemma {:induction false} NoDashesLeft(s: string)
    ensures NoPair(StripLines(s), '-', '-')
    decreases |s|
  {
    if s == [] {
    } else {
      var rest := if Starts(s, '-', '-') then AfterLine(s[2..]) else s[1..];
      NoDashesLeft(rest);
      assert StripLines(s)[1..] == StripLines(rest);
      NoPairCons(StripLines(s), '-', '-');
    }
  }

  /** Only plain spaces, and never two in a row. */
  ghost predicate Collapsed(s: string) {
    && (forall i :: 0 <= i < |s| && IsSpace(s[i]) ==> s[i] == ' ')
    && (forall i :: 0 <= i < |s| - 1 ==> !(IsSpace(s[i]) && IsSpace(s[i + 1])))
  }

  lemma {:induction false} CollapseCollapses(s: string)
    ensures Collapsed(Collapse(s))
    decreases |s|
  {
    if s != [] {
      AfterSpacesIsSuffix(s[1..]);
      var rest := if IsSpace(s[0]) then AfterSpaces(s[1..]) else s[1..];
      CollapseCollapses(rest);
      var u := Collapse(s);
      assert u[1..] == Collapse(rest);
      forall i | 0 <= i < |u| - 1 ensures !(IsSpace(u[i]) && IsSpace(u[i + 1])) {
        assert u[i + 1] == u[1..][i];
        if i > 0 {
          assert u[i] == u[1..][i - 1];
        }
      }
      forall i | 0 <= i < |u| && IsSpace(u[i]) ensures u[i] == ' ' {
        if i > 0 {
          assert u[i] == u[1..][i - 1];
        }
      }
    }
  }

  /** Nothing survives normalisation that could still be a comment: no closed block comment, no
      line comment, and no white space but single spaces. */
  lemma NormalisedText(query: string)
    ensures var n := Normalise(query);
            NoBlock(n) && NoPair(n, '-', '-') && Collapsed(n) && Clean(n)
  {
    var b := StripBlocks(query);
    var l := StripLines(b);
    StrippedIsClean(query);
    LinedIsBlanked(b);
    CollapsedIsBlanked(l);
    BlankedKeepsClean(b, l);
    BlankedKeepsClean(l, Collapse(l));
    NoDashesLeft(b);
    BlankedKeepsNoPair(l, Collapse(l), '-', '-');
    CollapseCollapses(l);
    CleanHasNoBlock(Normalise(query));
  }

  lemma {:induction false} CleanUnchanged(s: string)
    requires Clean(s)
    ensures StripBlocks(s) == s
  {
    if s != [] {
      if Starts(s, '/', '*') {
        CloseIsPair(s[2..]);
      }
      CleanUnchanged(s[1..]);
    }
  }

  lemma {:induction false} NoDashUnchanged(s: string)
    requires NoPair(s, '-', '-')
    ensures StripLines(s) == s
  {
    if s != [] {
      NoPairTail(s, 1, '-', '-');
      NoDashUnchanged(s[1..]);
    }
  }

  lemma {:induction false} CollapsedUnchanged(s: string)
    requires Collapsed(s)
    ensures Collapse(s) == s
  {
    if s != [] {
      assert forall i :: 0 <= i < |s| - 1 ==> s[1..][i] == s[i + 1];
      assert Collapsed(s[1..]);
      CollapsedUnchanged(s[1..]);
      if IsSpace(s[0]) {
        assert |s| >= 2 ==> !IsSpace(s[1]);
        assert AfterSpaces(s[1..]) == s[1..];
      }
    }
  }

  /** Normalising is idempotent. */
  lemma NormaliseIdempotent(query: string)
    ensures Normalise(Normalise(query)) == Normalise(query)
  {
    NormalisedText(query);
    var n := Normalise(query);
    CleanUnchanged(n);
    NoDashUnchanged(n);
    CollapsedUnchanged(n);
  }

  lemma {:induction false} AfterLineAppend(s: string, x: string)
    ensures AfterLine(s + ['\n'] + x) == AfterLine(s) + ['\n'] + x
  {
    if s != [] && s[0] != '\n' {
      assert (s + ['\n'] + x)[1..] == s[1..] + ['\n'] + x;
      AfterLineAppend(s[1..], x);
    }
  }

  lemma LineStep(s: string)
    ensures StripLines(s) == if s == [] then []
                             else if Starts(s, '-', '-') then [' '] + StripLines(AfterLine(s[2..]))
                             else [s[0]] + StripLines(s[1..])
  {
  }

  /** Line comments never reach across a line end: each line is stripped on its own. */
  lemma {:induction false} LinesAreIndependent(a: string, x: string)
    ensures StripLines(a + ['\n'] + x) == StripLines(a) + ['\n'] + StripLines(x)
    decreases |a|
  {
    hide StripLines, AfterLine;
    var all := a + ['\n'] + x;
    LineStep(all);
    LineStep(a);
    if a == [] {
      assert all[1..] == x && !Starts(all, '-', '-');
    } else if Starts(a, '-', '-') {
      assert all[2..] == a[2..] + ['\n'] + x;
      AfterLineAppend(a[2..], x);
      LinesAreIndependent(AfterLine(a[2..]), x);
    } else {
      assert all[1..] == a[1..] + ['\n'] + x && !Starts(all, '-', '-');
      LinesAreIndependent(a[1..], x);
    }
  }

  /** To the line stage alone, a comment at the head of a line is one space. */
  lemma {:induction false} LineCommentIsSpace(body: string)
    requires '\n' !in body
    ensures AfterLine(body) == [] && StripLines(['-', '-'] + body) == [' ']
  {
    if body != [] {
      LineCommentIsSpace(body[1..]);
    }
    assert (['-', '-'] + body)[2..] == body;
  }

  // ---------------------------------------------------------------------------
  // Comments are invisible
  // ---------------------------------------------------------------------------

  /** Read from the left, every block comment that `s` opens is also closed in `s`. */
  predicate Settled(s: string)
    decreases |s|
  {
    if s == [] then true
    else if Starts(s, '/', '*') then Close(s[2..]) >= 0 && Settled(AfterBlock(s))
    else Settled(s[1..])
  }

  lemma {:induction false} CloseAppend(s: string, x: string)
    requires Close(s) >= 0
    ensures Close(s + x) == Close(s)
  {
    CloseInside(s);
    if !(s[0] == '*' && s[1] == '/') {
      assert (s + x)[1..] == s[1..] + x;
      CloseAppend(s[1..], x);
    }
  }

  lemma StripStep(s: string)
    ensures StripBlocks(s) == if s == [] then []
                              else if Starts(s, '/', '*') && Close(s[2..]) >= 0 then [' '] + StripBlocks(AfterBlock(s))
                              else [s[0]] + StripBlocks(s[1..])
  {
  }

  lemma AfterBlockAppend(a: string, x: string)
    requires Starts(a, '/', '*') && Close(a[2..]) >= 0
    ensures Starts(a + x, '/', '*') && Close((a + x)[2..]) >= 0 && AfterBlock(a + x) == AfterBlock(a) + x
  {
    CloseInside(a[2..]);
    CloseAppend(a[2..], x);
    assert (a + x)[2..] == a[2..] + x;
  }

  /** Behind a settled text the scan starts afresh. */
  lemma {:induction false} StripSplits(a: string, x: string)
    requires Settled(a) && x != [] && x[0] != '*'
    ensures StripBlocks(a + x) == StripBlocks(a) + StripBlocks(x)
    decreases |a|
  {
    hide Close, StripBlocks;
    var all := a + x;
    StripStep(all);
    StripStep(a);
    if a == [] {
      assert all == x;
    } else if Starts(a, '/', '*') {
      AfterBlockAppend(a, x);
      StripSplits(AfterBlock(a), x);
    } else {
      assert !Starts(all, '/', '*');
      assert all[1..] == a[1..] + x;
      StripSplits(a[1..], x);
    }
  }

  lemma {:induction false} CloseAfter(body: string, rest: string)
    requires NoPair(body, '*', '/')
    ensures Close(body + ['*', '/'] + rest) == |body|
  {
    var s := body + ['*', '/'] + rest;
    if body != [] {
      assert s[1..] == body[1..] + ['*', '/'] + rest;
      NoPairTail(body, 1, '*', '/');
      CloseAfter(body[1..], rest);
      assert s[1] == if |body| > 1 then body[1] else '*';
    }
  }

  lemma CommentIsSpace(body: string, b: string)
    requires NoPair(body, '*', '/')
    ensures StripBlocks(['/', '*'] + body + ['*', '/'] + b) == [' '] + StripBlocks(b)
  {
    var s := ['/', '*'] + body + ['*', '/'] + b;
    assert s[2..] == body + ['*', '/'] + b;
    CloseAfter(body, b);
    assert AfterBlock(s) == b;
  }

  /** A block comment is the same as a space: wherever a space stands outside an open
      comment, any block comment in its place, whatever its body, leaves the normalised text and
      hence the guard's verdict the same, for every pattern. */
  lemma CommentsAreInvisible(a: string, body: string, b: string, pattern: string -> bool)
    requires Settled(a) && NoPair(body, '*', '/')
    ensures var plain, hidden := a + [' '] + b, a + ['/', '*'] + body + ['*', '/'] + b;
            && Normalise(hidden) == Normalise(plain)
            && (TouchesAuditTable(hidden, pattern) <==> TouchesAuditTable(plain, pattern))
  {
    var x, y := [' '] + b, ['/', '*'] + body + ['*', '/'] + b;
    assert a + [' '] + b == a + x;
    assert a + ['/', '*'] + body + ['*', '/'] + b == a + y;
    StripSplits(a, x);
    StripSplits(a, y);
    CommentIsSpace(body, b);
    assert x[1..] == b && StripBlocks(x) == [' '] + StripBlocks(b);
  }

  lemma NormaliseKeepsSome(query: string)
    requires query != ""
    ensures Normalise(query) != ""
  {
  }

  /** On text that is in normal form already, the verdict is the pattern's own; on any other it is that
      of the normal form; the empty text is never guarded. */
  lemma VerdictOnNormalText(query: string, pattern: string -> bool)
    ensures query != "" && Clean(query) && NoPair(query, '-', '-') && Collapsed(query) ==>
              (TouchesAuditTable(query, pattern) <==> pattern(query))
    ensures query != "" ==> Normalise(query) != ""
    ensures TouchesAuditTable(query, pattern) <==> TouchesAuditTable(Normalise(query), pattern)
    ensures !TouchesAuditTable("", pattern)
  {
    hide Clean, Collapsed;
    NormaliseIdempotent(query);
    if query != "" {
      NormaliseKeepsSome(query);
    }
    if Clean(query) && NoPair(query, '-', '-') && Collapsed(query) {
      CleanUnchanged(query);
      NoDashUnchanged(query);
      CollapsedUnchanged(query);
    }
  }

  // ---------------------------------------------------------------------------
  // Only settled prefixes
  // ---------------------------------------------------------------------------

  /** The comment that an unsettled text leaves open, from behind its opener. */
  function OpenBody(s: string): string
    requires !Settled(s)
    decreases |s|
  {
    if !Starts(s, '/', '*') then OpenBody(s[1..])
    else if Close(s[2..]) >= 0 then OpenBody(AfterBlock(s))
    else s[2..]
  }

  /** What stripping makes of the text before that opener. */
  function BeforeOpen(s: string): string
    requires !Settled(s)
    decreases |s|
  {
    if !Starts(s, '/', '*') then [s[0]] + BeforeOpen(s[1..])
    else if Close(s[2..]) >= 0 then [' '] + BeforeOpen(AfterBlock(s))
    else []
  }

  lemma {:induction false} OpenSplits(a: string, x: string)
    requires !Settled(a)
    ensures StripBlocks(a + x) == BeforeOpen(a) + StripBlocks(['/', '*'] + OpenBody(a) + x)
    ensures NoPair(OpenBody(a), '*', '/')
    decreases |a|
  {
    hide Close, StripBlocks, AfterBlock;
    var all := a + x;
    StripStep(all);
    if !Starts(a, '/', '*') {
      assert |a| >= 2 && !Starts(all, '/', '*');
      assert all[1..] == a[1..] + x;
      OpenSplits(a[1..], x);
    } else if Close(a[2..]) >= 0 {
      AfterBlockAppend(a, x);
      OpenSplits(AfterBlock(a), x);
    } else {
      CloseIsPair(a[2..]);
      assert ['/', '*'] + OpenBody(a) + x == all;
    }
  }

  lemma NoPairAppend(s: string, c: char, a: char, b: char)
    requires NoPair(s, a, b) && (c != b || s == [] || s[|s| - 1] != a)
    ensures NoPair(s + [c], a, b)
  {
  }

  /** A closer behind an open comment closes it. */
  lemma PlainCloses(t: string)
    requires NoPair(t, '*', '/')
    ensures StripBlocks(['/', '*'] + t + [' ', '\n', '*', '/']) == [' ']
  {
    NoPairAppend(t, ' ', '*', '/');
    NoPairAppend(t + [' '], '\n', '*', '/');
    CommentIsSpace(t + [' ', '\n'], []);
    assert t + [' '] + ['\n'] == t + [' ', '\n'];
    assert ['/', '*'] + (t + [' ', '\n']) + ['*', '/'] + [] == ['/', '*'] + t + [' ', '\n', '*', '/'];
  }

  lemma NothingToStrip(s: string)
    requires forall i :: 0 <= i < |s| - 1 ==> !(s[i] == '/' && s[i + 1] == '*')
    ensures StripBlocks(s) == s
  {
    if s != [] {
      NothingToStrip(s[1..]);
    }
  }

  lemma ClosedByItsStar(u: string)
    requires NoPair(u, '*', '/')
    ensures StripBlocks(['/', '*'] + (u + ['*']) + ['/', '*', '*', '/', '\n', '*', '/'])
         == [' '] + ['*', '*', '/'] + ['\n'] + ['*', '/']
  {
    hide StripBlocks;
    var rest := ['*', '*', '/', '\n', '*', '/'];
    CommentIsSpace(u, rest);
    NothingToStrip(rest);
    assert ['/', '*'] + u + ['*', '/'] + rest == ['/', '*'] + (u + ['*']) + ['/', '*', '*', '/', '\n', '*', '/'];
  }

  lemma ClosedByTheComment(t: string)
    requires NoPair(t, '*', '/') && (t == [] || t[|t| - 1] != '*')
    ensures StripBlocks(['/', '*'] + t + ['/', '*', '*', '/', '\n', '*', '/']) == [' '] + [] + ['\n'] + ['*', '/']
  {
    hide StripBlocks;
    var rest := ['\n', '*', '/'];
    NoPairAppend(t, '/', '*', '/');
    NoPairAppend(t + ['/'], '*', '*', '/');
    CommentIsSpace(t + ['/'] + ['*'], rest);
    NothingToStrip(rest);
    assert ['/', '*'] + (t + ['/'] + ['*']) + ['*', '/'] + rest == ['/', '*'] + t + ['/', '*', '*', '/', '\n', '*', '/'];
  }

  /** With a comment in between, the open one closes early, and the last closer stays. */
  lemma HiddenClosesEarly(t: string) returns (m: string)
    requires NoPair(t, '*', '/')
    ensures StripBlocks(['/', '*'] + t + ['/', '*', '*', '/', '\n', '*', '/']) == [' '] + m + ['\n'] + ['*', '/']
  {
    hide StripBlocks;
    if t != [] && t[|t| - 1] == '*' {
      m := ['*', '*', '/'];
      ClosedByItsStar(t[..|t| - 1]);
      assert t == t[..|t| - 1] + ['*'];
    } else {
      m := [];
      ClosedByTheComment(t);
    }
  }

  function LastOf(s: string): char
    requires s != []
  {
    s[|s| - 1]
  }

  /** A text that ends in a space still does after the line comments are gone. */
  lemma {:induction false} StripLinesKeepsSpace(s: string)
    requires s != [] && LastOf(s) == ' '
    ensures StripLines(s) != [] && LastOf(StripLines(s)) == ' '
    decreases |s|
  {
    var rest := if Starts(s, '-', '-') then AfterLine(s[2..]) else s[1..];
    AfterLineIsSuffix(s[1..]);
    if Starts(s, '-', '-') {
      AfterLineIsSuffix(s[2..]);
    }
    if rest != [] {
      StripLinesKeepsSpace(rest);
      assert StripLines(s)[1..] == StripLines(rest);
    }
  }

  lemma {:induction false} SpacesToTheEnd(s: string)
    requires AfterSpaces(s) == []
    ensures forall i :: 0 <= i < |s| ==> IsSpace(s[i])
  {
    if s != [] {
      SpacesToTheEnd(s[1..]);
    }
  }

  /** White space stays white space at the end of a collapsed text, and the rest stays as it is. */
  lemma {:induction false} CollapseKeepsLast(s: string)
    requires s != []
    ensures Collapse(s) != [] && LastOf(Collapse(s)) == if IsSpace(LastOf(s)) then ' ' else LastOf(s)
    decreases |s|
  {
    AfterSpacesIsSuffix(s[1..]);
    if AfterSpaces(s[1..]) == [] {
      SpacesToTheEnd(s[1..]);
    }
    var rest := if IsSpace(s[0]) then AfterSpaces(s[1..]) else s[1..];
    if rest != [] {
      CollapseKeepsLast(rest);
      assert Collapse(s)[1..] == Collapse(rest);
    }
  }

  lemma OpenTellsApart(a: string) returns (b: string)
    requires !Settled(a)
    ensures Normalise(a + ['/', '*'] + [] + ['*', '/'] + b) != Normalise(a + [' '] + b)
  {
    hide StripBlocks, StripLines, Collapse, OpenBody, BeforeOpen, Settled;
    b := ['\n', '*', '/'];
    var t, front := OpenBody(a), BeforeOpen(a);
    var x, y := [' ', '\n', '*', '/'], ['/', '*', '*', '/', '\n', '*', '/'];
    assert a + [' '] + b == a + x && a + ['/', '*'] + [] + ['*', '/'] + b == a + y;
    OpenSplits(a, x);
    OpenSplits(a, y);
    PlainCloses(t);
    var m := HiddenClosesEarly(t);
    StripLinesKeepsSpace(front + [' ']);
    CollapseKeepsLast(StripLines(front + [' ']));
    var early := front + ([' '] + m + ['\n'] + ['*', '/']);
    assert early == (front + [' '] + m) + ['\n'] + ['*', '/'];
    LinesAreIndependent(front + [' '] + m, ['*', '/']);
    NoDashUnchanged(['*', '/']);
    CollapseKeepsLast(StripLines(early));
  }

  /** Exactly outside open comments is a comment the same as a space: behind an unsettled prefix some
      continuation and some body tell the two apart, because the comment then closes the open one. */
  lemma InvisibleExactlyWhenSettled(a: string)
    ensures Settled(a)
       <==> forall body, b :: NoPair(body, '*', '/') ==>
              Normalise(a + ['/', '*'] + body + ['*', '/'] + b) == Normalise(a + [' '] + b)
  {
    if Settled(a) {
      forall body, b | NoPair(body, '*', '/')
        ensures Normalise(a + ['/', '*'] + body + ['*', '/'] + b) == Normalise(a + [' '] + b)
      {
        CommentsAreInvisible(a, body, b, _ => true);
      }
    } else {
      var p := OpenTellsApart(a);
      assert NoPair([], '*', '/');
      assert Normalise(a + ['/', '*'] + [] + ['*', '/'] + p) != Normalise(a + [' '] + p);
    }
  }

  // ---------------------------------------------------------------------------
  // Line comments
  // ---------------------------------------------------------------------------

  /** The text ends inside a line comment. */
  predicate OpenLine(s: string)
    decreases |s|
  {
    if s == [] then false
    else if Starts(s, '-', '-') then AfterLine(s[2..]) == [] || OpenLine(AfterLine(s[2..]))
    else OpenLine(s[1..])
  }

  /** The text ends in a dash that a following dash would complete. */
  predicate LoneDash(s: string) {
    s != [] && LastOf(s) == '-' && !OpenLine(s)
  }

  lemma {:induction false} NoLineEnd(x: string)
    ensures '\n' !in x ==> AfterLine(x) == []
  {
    if x != [] {
      NoLineEnd(x[1..]);
    }
  }

  lemma {:induction false} AfterLineGrows(s: string, x: string)
    ensures AfterLine(s) != [] ==> AfterLine(s + x) == AfterLine(s) + x
    ensures AfterLine(s) == [] && '\n' !in x ==> AfterLine(s + x) == []
  {
    if s == [] {
      NoLineEnd(x);
      assert s + x == x;
    } else if s[0] != '\n' {
      assert (s + x)[1..] == s[1..] + x;
      AfterLineGrows(s[1..], x);
    }
  }

  /** Outside line comments, and not between two dashes, the line stage starts afresh. */
  lemma {:induction false} LineSplits(p: string, x: string)
    requires !OpenLine(p) && (p != [] && x != [] && LastOf(p) == '-' ==> x[0] != '-')
    ensures StripLines(p + x) == StripLines(p) + StripLines(x)
    decreases |p|
  {
    hide StripLines, AfterLine;
    var all := p + x;
    LineStep(all);
    LineStep(p);
    if p == [] {
      assert all == x;
    } else if Starts(p, '-', '-') {
      AfterLineGrows(p[2..], x);
      AfterLineIsSuffix(p[2..]);
      assert all[2..] == p[2..] + x;
      LineSplits(AfterLine(p[2..]), x);
    } else {
      assert all[1..] == p[1..] + x && !Starts(all, '-', '-');
      LineSplits(p[1..], x);
    }
  }

  /** Inside a line comment everything up to the line end vanishes. */
  lemma {:induction false} OpenLineSwallows(p: string, x: string)
    requires OpenLine(p) && '\n' !in x
    ensures StripLines(p + x) == StripLines(p) && OpenLine(p + x)
    decreases |p|
  {
    hide StripLines, AfterLine;
    var all := p + x;
    LineStep(all);
    LineStep(p);
    if Starts(p, '-', '-') {
      AfterLineGrows(p[2..], x);
      assert all[2..] == p[2..] + x;
      if AfterLine(p[2..]) != [] {
        OpenLineSwallows(AfterLine(p[2..]), x);
      }
    } else {
      assert |p| >= 2 && all[1..] == p[1..] + x && !Starts(all, '-', '-');
      OpenLineSwallows(p[1..], x);
    }
  }

  /** A second dash behind a lone one opens a comment. */
  lemma {:induction false} DashCompletes(p: string)
    requires LoneDash(p)
    ensures OpenLine(p + ['-'])
    decreases |p|
  {
    hide AfterLine;
    var all := p + ['-'];
    if Starts(p, '-', '-') {
      AfterLineGrows(p[2..], ['-']);
      AfterLineIsSuffix(p[2..]);
      assert all[2..] == p[2..] + ['-'];
      DashCompletes(AfterLine(p[2..]));
    } else if |p| == 1 {
      NoLineEnd([]);
      assert all[2..] == [];
    } else {
      assert all[1..] == p[1..] + ['-'] && !Starts(all, '-', '-');
      DashCompletes(p[1..]);
    }
  }

  lemma BeforeLoneDash(s: string)
    requires LoneDash(s)
    ensures var p := s[..|s| - 1];
            !OpenLine(p) && !LoneDash(p) && s == p + ['-']
  {
    hide OpenLine;
    var p := s[..|s| - 1];
    assert s == p + ['-'];
    if OpenLine(p) {
      OpenLineSwallows(p, ['-']);
    } else if LoneDash(p) {
      DashCompletes(p);
    }
  }

  lemma DashMoves(p: string, c: string)
    requires !OpenLine(p) && !LoneDash(p) && '\n' !in c
    ensures StripLines(p + ['-'] + (['-', '-'] + c)) == StripLines(p) + [' ']
  {
    hide StripLines, OpenLine, AfterLine;
    var x := ['-'] + c;
    LineCommentIsSpace(x);
    assert p + ['-'] + (['-', '-'] + c) == p + (['-', '-'] + x);
    LineSplits(p, ['-', '-'] + x);
  }

  lemma DashTail(s: string, c: string)
    requires LoneDash(s) && '\n' !in c
    ensures StripLines(s + (['-', '-'] + c)) == StripLines(s[..|s| - 1]) + [' ']
    ensures StripLines(s) == StripLines(s[..|s| - 1]) + ['-']
  {
    hide StripLines, OpenLine, AfterLine;
    var p := s[..|s| - 1];
    BeforeLoneDash(s);
    DashMoves(p, c);
    LineSplits(p, ['-']);
    NoDashUnchanged(['-']);
  }

  /** What a line comment makes of the text before it, at the line stage. */
  lemma LineTail(s: string, c: string)
    requires '\n' !in c
    ensures var cut := StripLines(s + (['-', '-'] + c));
            && (OpenLine(s) ==> cut == StripLines(s))
            && (!OpenLine(s) && !LoneDash(s) ==> cut == StripLines(s) + [' '])
            && (LoneDash(s) ==> cut == StripLines(s[..|s| - 1]) + [' '] && StripLines(s) == StripLines(s[..|s| - 1]) + ['-'])
  {
    hide StripLines, OpenLine, AfterLine;
    if OpenLine(s) {
      OpenLineSwallows(s, ['-', '-'] + c);
    } else if LoneDash(s) {
      DashTail(s, c);
    } else {
      LineSplits(s, ['-', '-'] + c);
      LineCommentIsSpace(c);
    }
  }

  lemma {:induction false} AfterSpacesAppend(u: string, z: string)
    ensures AfterSpaces(u + z) == if AfterSpaces(u) == [] then AfterSpaces(z) else AfterSpaces(u) + z
  {
    if u == [] {
      assert u + z == z;
    } else if IsSpace(u[0]) {
      assert (u + z)[1..] == u[1..] + z;
      AfterSpacesAppend(u[1..], z);
    }
  }

  /** A space in front of a line end is not seen. */
  lemma {:induction false} SpaceBeforeLineEnd(u: string, y: string)
    ensures Collapse(u + ([' ', '\n'] + y)) == Collapse(u + (['\n'] + y))
    decreases |u|
  {
    var w, v := [' ', '\n'] + y, ['\n'] + y;
    assert w[1..] == v && v[1..] == y;
    if u == [] {
      assert u + w == w && u + v == v;
    } else {
      assert (u + w)[1..] == u[1..] + w && (u + v)[1..] == u[1..] + v;
      if IsSpace(u[0]) {
        AfterSpacesAppend(u[1..], w);
        AfterSpacesAppend(u[1..], v);
        SpaceBeforeLineEnd(AfterSpaces(u[1..]), y);
      } else {
        SpaceBeforeLineEnd(u[1..], y);
      }
    }
  }

  lemma CollapseStep(s: string)
    ensures Collapse(s) == if s == [] then []
                           else if IsSpace(s[0]) then [' '] + Collapse(AfterSpaces(s[1..]))
                           else [s[0]] + Collapse(s[1..])
  {
  }

  lemma {:induction false} CollapseAppend(u: string, c: char)
    ensures Collapse(u + [c]) == if IsSpace(c) && u != [] && IsSpace(LastOf(u)) then Collapse(u)
                                 else Collapse(u) + [if IsSpace(c) then ' ' else c]
    decreases |u|
  {
    hide Collapse, IsSpace;
    CollapseStep(u + [c]);
    CollapseStep(u);
    CollapseStep([]);
    CollapseStep([c]);
    assert [c][1..] == [] && AfterSpaces([]) == [];
    if u == [] {
      assert u + [c] == [c];
    } else {
      assert (u + [c])[1..] == u[1..] + [c];
      AfterSpacesAppend(u[1..], [c]);
      AfterSpacesIsSuffix(u[1..]);
      if !IsSpace(u[0]) {
        CollapseAppend(u[1..], c);
      } else if AfterSpaces(u[1..]) == [] {
        SpacesToTheEnd(u[1..]);
      } else {
        CollapseAppend(AfterSpaces(u[1..]), c);
      }
    }
  }

  /** A dash in the one text against a space in the other shows. */
  lemma DashShows(u: string)
    ensures Collapse(u + [' '] + ['\n']) != Collapse(u + ['-'] + ['\n'])
  {
    hide Collapse;
    CollapseAppend(u, ' ');
    CollapseAppend(u, '-');
    CollapseAppend(u + [' '], '\n');
    CollapseAppend(u + ['-'], '\n');
  }

  lemma {:induction false} SettledSplits(a: string, x: string)
    requires Settled(a) && x != [] && x[0] != '*'
    ensures Settled(a + x) <==> Settled(x)
    decreases |a|
  {
    hide Close, AfterBlock;
    var all := a + x;
    if a == [] {
      assert all == x;
    } else if Starts(a, '/', '*') {
      AfterBlockAppend(a, x);
      SettledSplits(AfterBlock(a), x);
    } else {
      assert all[1..] == a[1..] + x && !Starts(all, '/', '*');
      SettledSplits(a[1..], x);
    }
  }

  lemma {:induction false} StripAddsSpacesOnly(s: string, c: char)
    requires c !in s && c != ' '
    ensures c !in StripBlocks(s)
    decreases |s|
  {
    if s != [] {
      if Starts(s, '/', '*') && Close(s[2..]) >= 0 {
        CloseInside(s[2..]);
        StripAddsSpacesOnly(AfterBlock(s), c);
      } else {
        StripAddsSpacesOnly(s[1..], c);
      }
    }
  }

  lemma DashesPassBlocks(body: string)
    ensures StripBlocks(['-', '-'] + body) == ['-', '-'] + StripBlocks(body)
    ensures Settled(['-', '-'] + body) <==> Settled(body)
  {
    assert (['-', '-'] + body)[1..] == ['-'] + body && (['-'] + body)[1..] == body;
  }

  lemma LineEndPassesBlocks(b: string)
    ensures StripBlocks(['\n'] + b) == ['\n'] + StripBlocks(b)
  {
    assert (['\n'] + b)[1..] == b;
  }

  /** With a comment whose own block comments are all closed, the two stages act one after the other. */
  lemma SettledLine(a: string, body: string, b: string)
    requires Settled(a) && Settled(body)
    ensures StripLines(StripBlocks(a + ['-', '-'] + body + ['\n'] + b))
         == StripLines(StripBlocks(a) + (['-', '-'] + StripBlocks(body))) + ['\n'] + StripLines(StripBlocks(b))
    ensures StripLines(StripBlocks(a + ['\n'] + b)) == StripLines(StripBlocks(a)) + ['\n'] + StripLines(StripBlocks(b))
  {
    hide StripBlocks, StripLines, Settled;
    var comment, rest := ['-', '-'] + body, ['\n'] + b;
    var front := StripBlocks(a) + (['-', '-'] + StripBlocks(body));
    DashesPassBlocks(body);
    LineEndPassesBlocks(b);
    StripSplits(a, comment);
    SettledSplits(a, comment);
    StripSplits(a + comment, rest);
    StripSplits(a, rest);
    assert a + ['-', '-'] + body + ['\n'] + b == a + comment + rest && a + ['\n'] + b == a + rest;
    assert front + (['\n'] + StripBlocks(b)) == front + ['\n'] + StripBlocks(b);
    assert StripBlocks(a) + (['\n'] + StripBlocks(b)) == StripBlocks(a) + ['\n'] + StripBlocks(b);
    LinesAreIndependent(front, StripBlocks(b));
    LinesAreIndependent(StripBlocks(a), StripBlocks(b));
  }

  /** Block comments go first, so an opener inside a line comment is taken for one: the comment's
      line, all lines up to the next closer, and the rest of the closer's line become one space. */
  lemma OpenerInLineComment(c: string, lines: string)
    requires '\n' !in c && Settled(c) && NoPair(['\n'] + lines + ['-', '-'], '*', '/')
    ensures Normalise(['-', '-'] + c + ['/', '*'] + ['\n'] + lines + ['-', '-', '*', '/']) == [' ']
  {
    hide StripBlocks, StripLines, Settled;
    var inside := ['\n'] + lines + ['-', '-'];
    var comment := ['/', '*'] + inside + ['*', '/'] + [];
    assert ['-', '-'] + c + ['/', '*'] + ['\n'] + lines + ['-', '-', '*', '/'] == ['-', '-'] + c + comment;
    DashesPassBlocks(c);
    StripSplits(['-', '-'] + c, comment);
    CommentIsSpace(inside, []);
    assert StripBlocks([]) == [] by { StripStep([]); }
    StripAddsSpacesOnly(c, '\n');
    assert ['-', '-'] + StripBlocks(c) + [' '] == ['-', '-'] + (StripBlocks(c) + [' ']);
    LineCommentIsSpace(StripBlocks(c) + [' ']);
    CollapsedUnchanged([' ']);
  }

  lemma LineEndCloses(t: string)
    requires NoPair(t, '*', '/')
    ensures StripBlocks(['/', '*'] + t + ['\n', '*', '/']) == [' ']
  {
    hide StripBlocks;
    NoPairAppend(t, '\n', '*', '/');
    CommentIsSpace(t + ['\n'], []);
    StripStep([]);
    assert ['/', '*'] + t + ['\n', '*', '/'] == ['/', '*'] + (t + ['\n']) + ['*', '/'] + [];
  }

  /** When the comment closes nothing of its own, the next closer swallows the line end. */
  lemma OpenedLineShows(a: string, body: string)
    requires Settled(a) && !Settled(body)
    ensures Normalise(a + ['-', '-'] + body + ['\n'] + ['*', '/']) != Normalise(a + ['\n'] + ['*', '/'])
  {
    hide StripBlocks, StripLines, Collapse, Settled, OpenBody, BeforeOpen;
    var text, closer := a + (['-', '-'] + body), ['\n', '*', '/'];
    DashesPassBlocks(body);
    SettledSplits(a, ['-', '-'] + body);
    OpenSplits(text, closer);
    var t := OpenBody(text);
    LineEndCloses(t);
    assert StripBlocks(text + closer) == BeforeOpen(text) + [' '];
    assert a + ['-', '-'] + body + ['\n'] + ['*', '/'] == text + closer;
    StripLinesKeepsSpace(BeforeOpen(text) + [' ']);
    CollapseKeepsLast(StripLines(BeforeOpen(text) + [' ']));
    assert LastOf(Normalise(text + closer)) == ' ';
    StripSplits(a, closer);
    NothingToStrip(closer);
    assert a + ['\n'] + ['*', '/'] == a + closer;
    LinesAreIndependent(StripBlocks(a), ['*', '/']);
    assert StripBlocks(a) + closer == StripBlocks(a) + ['\n'] + ['*', '/'];
    NoDashUnchanged(['*', '/']);
    assert LastOf(StripLines(StripBlocks(a) + closer)) == '/';
    CollapseKeepsLast(StripLines(StripBlocks(a) + closer));
    assert LastOf(Normalise(a + closer)) == '/';
  }

  lemma LoneDashShows(a: string, body: string)
    requires Settled(a) && Settled(body) && '\n' !in body && LoneDash(StripBlocks(a))
    ensures Normalise(a + ['-', '-'] + body + ['\n'] + []) != Normalise(a + ['\n'] + [])
  {
    hide StripBlocks, StripLines, Collapse, Settled, OpenLine;
    var front := StripBlocks(a);
    var u := StripLines(front[..|front| - 1]);
    StripAddsSpacesOnly(body, '\n');
    LineTail(front, StripBlocks(body));
    SettledLine(a, body, []);
    assert StripBlocks([]) == [] by { StripStep([]); }
    assert StripLines([]) == [] by { LineStep([]); }
    assert u + [' '] + ['\n'] + [] == u + [' '] + ['\n'] && u + ['-'] + ['\n'] + [] == u + ['-'] + ['\n'];
    DashShows(u);
  }

  /** When a line comment is the same as nothing before its line end, for every continuation: exactly
      when every block comment it opens is also closed in it, and what precedes it does not end in a
      dash that joins its own. */
  lemma LineCommentInvisibleExactly(a: string, body: string)
    requires Settled(a) && '\n' !in body
    ensures Settled(body) && !LoneDash(StripBlocks(a))
       <==> forall b :: Normalise(a + ['-', '-'] + body + ['\n'] + b) == Normalise(a + ['\n'] + b)
  {
    hide StripBlocks, StripLines, Collapse, Settled, OpenLine, LoneDash;
    var front := StripBlocks(a);
    StripAddsSpacesOnly(body, '\n');
    LineTail(front, StripBlocks(body));
    if !Settled(body) {
      OpenedLineShows(a, body);
    } else if LoneDash(front) {
      LoneDashShows(a, body);
    } else {
      forall b ensures Normalise(a + ['-', '-'] + body + ['\n'] + b) == Normalise(a + ['\n'] + b) {
        SettledLine(a, body, b);
        var u, y := StripLines(front), StripLines(StripBlocks(b));
        SpaceBeforeLineEnd(u, y);
        assert u + [' '] + ['\n'] + y == u + ([' ', '\n'] + y) && u + ['\n'] + y == u + (['\n'] + y);
      }
    }
  }
}
