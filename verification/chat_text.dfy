/** Post-processing of the support bot's reply text (backend/services/chatService.js):
    `splitIntoMessages` cuts a long reply into messages at paragraph breaks,
    `formatResponse` turns a long reply into bullet lines, one per sentence. */
module ChatText {
  import opened Text

  /** A reply shorter than this is sent as one message. */
  const MessageLimit: nat := 500
  /** A reply shorter than this is not turned into bullets. */
  const FormatThreshold: nat := 200
  const ParagraphSeparator: string := "\n\n"
  /** The bullet as the source file's bytes decode: the UTF-8 encoding of
      U+2022 read back as Windows-1252, three characters. */
  const Bullet: string := ['\U{00E2}', '\U{20AC}', '\U{00A2}']

  predicate IsTerminator(c: char) { c == '.' || c == '!' || c == '?' }

  /** Length of the run of newlines that starts `s`. */
  function NewlineRun(s: string): (n: nat)
    ensures n <= |s|
    ensures forall i :: 0 <= i < n ==> s[i] == '\n'
    ensures n < |s| ==> s[n] != '\n'
  {
    if s == [] || s[0] != '\n' then 0 else 1 + NewlineRun(s[1..])
  }

  /** Length of the text before the first terminator of `s`. */
  function SentenceLength(s: string): (n: nat)
    ensures n <= |s|
    ensures forall i :: 0 <= i < n ==> !IsTerminator(s[i])
    ensures n < |s| ==> IsTerminator(s[n])
  {
    if s == [] || IsTerminator(s[0]) then 0 else 1 + SentenceLength(s[1..])
  }

  /** End of the run of terminators that starts at `from`. */
  function RunEnd(s: string, from: nat): (e: nat)
    requires from < |s| && IsTerminator(s[from])
    ensures from < e <= |s|
    ensures forall i :: from <= i < e ==> IsTerminator(s[i])
    ensures e < |s| ==> !IsTerminator(s[e])
    decreases |s| - from
  {
    if from + 1 < |s| && IsTerminator(s[from + 1]) then RunEnd(s, from + 1) else from + 1
  }

  // ---------------------------------------------------------------------
  // Splitting on runs of two or more newlines: `text.split(/\n\n+/)`

  /** A paragraph break (two newlines) starts at index `i` of `s`. */
  predicate BreakAt(s: string, i: int)
  {
    0 <= i && i + 1 < |s| && s[i] == '\n' && s[i + 1] == '\n'
  }

  /** Index of the first break at or after `from`, or `|s|` when there is none. */
  function FirstBreak(s: string, from: nat): (k: nat)
    requires from <= |s|
    ensures from <= k <= |s|
    ensures forall i :: from <= i < k ==> !BreakAt(s, i)
    ensures k < |s| ==> BreakAt(s, k)
    decreases |s| - from
  {
    if from + 1 >= |s| then |s|
    else if s[from] == '\n' && s[from + 1] == '\n' then from
    else FirstBreak(s, from + 1)
  }

  /** The regular-expression split: each match is the leftmost break and
      extends greedily over every newline that follows it. */
  function SplitParagraphs(s: string): (ps: seq<string>)
    ensures |ps| >= 1
    ensures ps[0] == s[..FirstBreak(s, 0)]
    decreases |s|
  {
    var k := FirstBreak(s, 0);
    if k == |s| then [s]
    else
      var m := NewlineRun(s[k..]);
      assert m >= 2 by {
        assert s[k..][0] == '\n' && s[k..][1] == '\n';
      }
      [s[..k]] + SplitParagraphs(s[k + m..])
  }

  predicate NoBreak(p: string)
  {
    forall i :: 0 <= i < |p| ==> !BreakAt(p, i)
  }

  predicate StartsWithNewline(p: string) { |p| > 0 && p[0] == '\n' }

  predicate EndsWithNewline(p: string) { |p| > 0 && p[|p| - 1] == '\n' }

  /** What the pieces of a split look like: no break inside a piece, no
      newline right after a separator, none right before one. */
  predicate WellSeparated(ps: seq<string>)
  {
    && (forall i :: 0 <= i < |ps| ==> NoBreak(ps[i]))
    && (forall i :: 0 < i < |ps| ==> !StartsWithNewline(ps[i]))
    && (forall i :: 0 <= i < |ps| - 1 ==> !EndsWithNewline(ps[i]))
  }

  /** A piece followed by a well separated list, with no newline on either
      side of the separator between them, is well separated. */
  lemma ConsWellSeparated(h: string, rest: seq<string>)
    requires NoBreak(h)
    requires rest != [] ==> !EndsWithNewline(h) && !StartsWithNewline(rest[0])
    requires WellSeparated(rest)
    ensures WellSeparated([h] + rest)
  {
    var ps := [h] + rest;
    forall i | 0 < i < |ps| ensures !StartsWithNewline(ps[i]) {
      assert ps[i] == rest[i - 1];
    }
    forall i | 0 <= i < |ps| - 1 ensures !EndsWithNewline(ps[i]) {
      if i > 0 { assert ps[i] == rest[i - 1]; }
    }
    forall i | 0 <= i < |ps| ensures NoBreak(ps[i]) {
      if i > 0 { assert ps[i] == rest[i - 1]; }
    }
  }

  /** The text before the first break has no break and does not end in a
      newline. */
  lemma BeforeFirstBreak(s: string)
    requires FirstBreak(s, 0) < |s|
    ensures NoBreak(s[..FirstBreak(s, 0)])
    ensures !EndsWithNewline(s[..FirstBreak(s, 0)])
  {
    var k := FirstBreak(s, 0);
    var head := s[..k];
    forall i | 0 <= i < |head| ensures !BreakAt(head, i) {
      assert !BreakAt(s, i);
      if i + 1 < |head| { assert head[i] == s[i] && head[i + 1] == s[i + 1]; }
    }
    assert k > 0 ==> s[k - 1] == head[k - 1] && !BreakAt(s, k - 1);
  }

  /** The first piece of a split starts where the string does. */
  lemma FirstPieceStart(r: string)
    requires r != [] ==> r[0] != '\n'
    ensures !StartsWithNewline(SplitParagraphs(r)[0])
  {
    var h := SplitParagraphs(r)[0];
    assert h != [] ==> h[0] == r[0];
  }

  /** Every split is well separated. */
  lemma {:induction false} SplitIsWellSeparated(s: string)
    ensures WellSeparated(SplitParagraphs(s))
    decreases |s|
  {
    var k := FirstBreak(s, 0);
    if k < |s| {
      var m := NewlineRun(s[k..]);
      assert s[k..][0] == '\n' && s[k..][1] == '\n';
      var r := s[k + m..];
      var rest := SplitParagraphs(r);
      assert SplitParagraphs(s) == [s[..k]] + rest;
      SplitIsWellSeparated(r);
      BeforeFirstBreak(s);
      assert r != [] ==> r[0] == s[k..][m];
      FirstPieceStart(r);
      ConsWellSeparated(s[..k], rest);
    }
  }

  /** A break-free string is one piece. */
  lemma NoBreakSplit(p: string)
    requires NoBreak(p)
    ensures SplitParagraphs(p) == [p]
  {
  }

  /** `FirstBreak` is the position of the first break. */
  lemma FirstBreakIs(s: string, n: nat)
    requires n <= |s|
    requires forall i :: 0 <= i < n ==> !BreakAt(s, i)
    requires n < |s| ==> BreakAt(s, n)
    ensures FirstBreak(s, 0) == n
  {
    var k := FirstBreak(s, 0);
    assert !(k < n);
    assert !(n < k);
  }

  /** The newline run of a separator followed by a non-newline is the
      separator itself. */
  lemma SeparatorRun(j: string)
    requires j != [] && j[0] != '\n'
    ensures NewlineRun(ParagraphSeparator + j) == |ParagraphSeparator|
  {
    var t := ParagraphSeparator + j;
    var m := NewlineRun(t);
    assert t[0] == '\n' && t[1] == '\n' && t[2] == j[0];
    assert !(m < 2);
    assert !(m > 2);
  }

  /** The first break of `p + "\n\n" + j` is the separator, and the whole
      run of newlines is just the separator. */
  lemma SplitAtSeparator(p: string, j: string)
    requires p != [] && NoBreak(p) && !EndsWithNewline(p)
    requires j != [] && j[0] != '\n'
    ensures SplitParagraphs(p + ParagraphSeparator + j) == [p] + SplitParagraphs(j)
  {
    var s := p + ParagraphSeparator + j;
    forall i | 0 <= i < |p| ensures !BreakAt(s, i) {
      if i < |p| - 1 {
        assert !BreakAt(p, i);
        assert s[i] == p[i] && s[i + 1] == p[i + 1];
      } else {
        assert s[i] == p[|p| - 1];
      }
    }
    assert s[|p|] == '\n' && s[|p| + 1] == '\n';
    FirstBreakIs(s, |p|);
    assert s[|p|..] == ParagraphSeparator + j;
    SeparatorRun(j);
    assert s[|p| + 2..] == j;
    assert s[..|p|] == p;
  }

  lemma WellSeparatedTail(ps: seq<string>)
    requires |ps| >= 1 && WellSeparated(ps)
    ensures WellSeparated(ps[1..])
  {
    var tail := ps[1..];
    forall i | 0 <= i < |tail| ensures NoBreak(tail[i]) { assert tail[i] == ps[i + 1]; }
    forall i | 0 < i < |tail| ensures !StartsWithNewline(tail[i]) { assert tail[i] == ps[i + 1]; }
    forall i | 0 <= i < |tail| - 1 ensures !EndsWithNewline(tail[i]) { assert tail[i] == ps[i + 1]; }
  }

  /** Splitting undoes `join("\n\n")` on well separated, non-empty pieces. */
  lemma {:induction false} SplitJoinRoundTrip(ps: seq<string>)
    requires |ps| >= 1
    requires WellSeparated(ps)
    requires forall i :: 0 <= i < |ps| ==> ps[i] != []
    ensures SplitParagraphs(JoinWith(ps, ParagraphSeparator)) == ps
    decreases |ps|
  {
    if |ps| == 1 {
      NoBreakSplit(ps[0]);
    } else {
      var tail := ps[1..];
      var j := JoinWith(tail, ParagraphSeparator);
      JoinStartsWithHead(tail, ParagraphSeparator);
      assert j[0] == j[..|ps[1]|][0] == ps[1][0];
      assert !StartsWithNewline(ps[1]);
      assert NoBreak(ps[0]) && !EndsWithNewline(ps[0]);
      SplitAtSeparator(ps[0], j);
      WellSeparatedTail(ps);
      SplitJoinRoundTrip(tail);
      assert [ps[0]] + tail == ps;
    }
  }

  lemma {:induction false} JoinStartsWithHead(ps: seq<string>, sep: string)
    requires |ps| >= 1
    ensures |JoinWith(ps, sep)| >= |ps[0]|
    ensures JoinWith(ps, sep)[..|ps[0]|] == ps[0]
  {
    if |ps| > 1 {
      assert JoinWith(ps, sep) == ps[0] + (sep + JoinWith(ps[1..], sep));
    }
  }

  // ---------------------------------------------------------------------
  // Dropping blank pieces: `.filter(p => p.trim().length > 0)`

  function NonBlank(ps: seq<string>): (r: seq<string>)
    ensures |r| <= |ps|
    ensures forall i :: 0 <= i < |r| ==> !IsBlank(r[i])
    ensures forall x :: x in r ==> x in ps
    ensures forall x :: x in ps && !IsBlank(x) ==> x in r
  {
    if ps == [] then []
    else (if IsBlank(ps[0]) then [] else [ps[0]]) + NonBlank(ps[1..])
  }

  /** Nothing to drop: the filter is the identity. */
  lemma {:induction false} NonBlankKeepsAll(ps: seq<string>)
    requires forall i :: 0 <= i < |ps| ==> !IsBlank(ps[i])
    ensures NonBlank(ps) == ps
  {
    if ps != [] {
      NonBlankKeepsAll(ps[1..]);
    }
  }

  lemma ConcatAssoc<T>(u: seq<T>, v: seq<T>, w: seq<T>)
    ensures u + (v + w) == (u + v) + w
  {
  }

  /** A single piece is kept exactly when it is not blank. */
  lemma NonBlankSingle(p: string)
    ensures NonBlank([p]) == if IsBlank(p) then [] else [p]
  {
    assert [p][1..] == [];
  }

  /** One step of the filter on a non-empty list. */
  lemma NonBlankCons(x: string, t: seq<string>)
    ensures NonBlank([x] + t) == NonBlank([x]) + NonBlank(t)
  {
    assert ([x] + t)[0] == x && ([x] + t)[1..] == t;
    assert [x][1..] == [];
  }

  /** The filter distributes over concatenation: with `NonBlankSingle` this
      fixes the result completely, so the kept pieces appear in their
      original order and as often as they occur. */
  lemma {:induction false} NonBlankAppend(a: seq<string>, b: seq<string>)
    ensures NonBlank(a + b) == NonBlank(a) + NonBlank(b)
  {
    if a == [] {
      assert a + b == b;
    } else {
      var x, t := a[0], a[1..];
      assert a == [x] + t;
      assert a + b == [x] + (t + b);
      NonBlankCons(x, t + b);
      NonBlankCons(x, t);
      NonBlankAppend(t, b);
      ConcatAssoc(NonBlank([x]), NonBlank(t), NonBlank(b));
    }
  }

  /** Dropping pieces keeps a list well separated. */
  lemma {:induction false} NonBlankWellSeparated(ps: seq<string>)
    requires WellSeparated(ps)
    ensures WellSeparated(NonBlank(ps))
  {
    if ps != [] {
      var tail := ps[1..];
      WellSeparatedTail(ps);
      NonBlankWellSeparated(tail);
      var rt := NonBlank(tail);
      if IsBlank(ps[0]) {
        assert NonBlank(ps) == rt;
      } else {
        assert NonBlank(ps) == [ps[0]] + rt;
        if rt != [] {
          assert rt[0] in tail;
          var j :| 0 <= j < |tail| && tail[j] == rt[0];
          assert tail[j] == ps[j + 1];
        }
        ConsWellSeparated(ps[0], rt);
      }
    }
  }

  /** The non-blank paragraphs of a reply. */
  function Paragraphs(text: string): seq<string>
  {
    NonBlank(SplitParagraphs(text))
  }

  lemma ParagraphsWellSeparated(text: string)
    ensures WellSeparated(Paragraphs(text))
  {
    SplitIsWellSeparated(text);
    NonBlankWellSeparated(SplitParagraphs(text));
  }

  // ---------------------------------------------------------------------
  // Grouping paragraphs into messages

  function TotalLength(g: seq<string>): nat
  {
    if g == [] then 0 else TotalLength(g[..|g| - 1]) + |g[|g| - 1]|
  }

  /** The loop of `splitIntoMessages`: `cur` is `currentMessage`, `len` is
      `currentLength`. A paragraph closes the current group exactly when the
      group is non-empty and the paragraph would take it over the limit. */
  function GroupFrom(ps: seq<string>, cur: seq<string>, len: nat): (gs: seq<seq<string>>)
    requires len == TotalLength(cur)
    decreases |ps|
  {
    if ps == [] then (if cur == [] then [] else [cur])
    else if len + |ps[0]| > MessageLimit && cur != [] then
      [cur] + GroupFrom(ps[1..], [ps[0]], |ps[0]|)
    else
      assert (cur + [ps[0]])[..|cur|] == cur;
      GroupFrom(ps[1..], cur + [ps[0]], len + |ps[0]|)
  }

  /** Every paragraph after the first of a group was added while the running
      total plus its own length stayed within the limit. */
  ghost predicate Fits(g: seq<string>)
  {
    forall j :: 0 < j < |g| ==> TotalLength(g[..j]) + |g[j]| <= MessageLimit
  }

  /** The grouping rule of `splitIntoMessages`, stated on its result: the
      groups partition the paragraphs in order, none is empty, a group only
      takes a paragraph that fits, and a group is only closed when the next
      paragraph does not fit. */
  ghost predicate GreedyGrouping(ps: seq<string>, gs: seq<seq<string>>)
  {
    && Flatten(gs) == ps
    && (forall i :: 0 <= i < |gs| ==> gs[i] != [])
    && (forall i :: 0 <= i < |gs| ==> Fits(gs[i]))
    && (forall i :: 0 < i < |gs| ==> TotalLength(gs[i - 1]) + |gs[i][0]| > MessageLimit)
  }

  lemma {:induction false} GroupFromFlatten(ps: seq<string>, cur: seq<string>, len: nat)
    requires len == TotalLength(cur)
    ensures Flatten(GroupFrom(ps, cur, len)) == cur + ps
    decreases |ps|
  {
    var gs := GroupFrom(ps, cur, len);
    if ps == [] {
      if cur != [] {
        assert Flatten(gs) == cur + Flatten([]);
      }
    } else if len + |ps[0]| > MessageLimit && cur != [] {
      var p := ps[0];
      assert TotalLength([p]) == |p|;
      GroupFromFlatten(ps[1..], [p], |p|);
      var rest := GroupFrom(ps[1..], [p], |p|);
      assert gs == [cur] + rest;
      assert Flatten(gs) == cur + Flatten(rest);
      assert [p] + ps[1..] == ps;
    } else {
      var p := ps[0];
      var next := cur + [p];
      assert next[..|cur|] == cur;
      GroupFromFlatten(ps[1..], next, len + |p|);
      assert next + ps[1..] == cur + ps;
    }
  }

  /** The first group of the loop starts with the first pending paragraph. */
  lemma {:induction false} GroupFromHead(ps: seq<string>, cur: seq<string>, len: nat)
    requires len == TotalLength(cur)
    requires cur + ps != []
    ensures GroupFrom(ps, cur, len) != []
    ensures GroupFrom(ps, cur, len)[0] != []
    ensures GroupFrom(ps, cur, len)[0][0] == (cur + ps)[0]
    decreases |ps|
  {
    if ps == [] {
      assert GroupFrom(ps, cur, len) == [cur];
      assert (cur + ps)[0] == cur[0];
    } else if len + |ps[0]| > MessageLimit && cur != [] {
      assert GroupFrom(ps, cur, len)[0] == cur;
      assert (cur + ps)[0] == cur[0];
    } else {
      var next := cur + [ps[0]];
      assert next[..|cur|] == cur;
      GroupFromHead(ps[1..], next, len + |ps[0]|);
      assert GroupFrom(ps, cur, len) == GroupFrom(ps[1..], next, len + |ps[0]|);
      assert (next + ps[1..])[0] == (cur + ps)[0];
    }
  }

  /** A paragraph that fits keeps a group fitting. */
  lemma FitsExtend(cur: seq<string>, p: string)
    requires Fits(cur)
    requires cur == [] || TotalLength(cur) + |p| <= MessageLimit
    ensures Fits(cur + [p])
  {
    var next := cur + [p];
    forall j | 0 < j < |next| ensures TotalLength(next[..j]) + |next[j]| <= MessageLimit {
      if j < |cur| {
        assert next[..j] == cur[..j];
        assert next[j] == cur[j];
      } else {
        assert next[..j] == cur && next[j] == p;
      }
    }
  }

  lemma {:induction false} GroupFromFits(ps: seq<string>, cur: seq<string>, len: nat)
    requires len == TotalLength(cur)
    requires Fits(cur)
    ensures forall i :: 0 <= i < |GroupFrom(ps, cur, len)| ==>
      GroupFrom(ps, cur, len)[i] != [] && Fits(GroupFrom(ps, cur, len)[i])
    decreases |ps|
  {
    var gs := GroupFrom(ps, cur, len);
    if ps == [] {
    } else if len + |ps[0]| > MessageLimit && cur != [] {
      var p := ps[0];
      assert TotalLength([p]) == |p|;
      GroupFromFits(ps[1..], [p], |p|);
      var rest := GroupFrom(ps[1..], [p], |p|);
      assert gs == [cur] + rest;
      forall i | 0 <= i < |gs| ensures gs[i] != [] && Fits(gs[i]) {
        if i > 0 { assert gs[i] == rest[i - 1]; }
      }
    } else {
      var p := ps[0];
      var next := cur + [p];
      FitsExtend(cur, p);
      assert next[..|cur|] == cur;
      GroupFromFits(ps[1..], next, len + |p|);
      assert gs == GroupFrom(ps[1..], next, len + |p|);
    }
  }

  lemma {:induction false} GroupFromBoundaries(ps: seq<string>, cur: seq<string>, len: nat)
    requires len == TotalLength(cur)
    ensures forall i :: 0 < i < |GroupFrom(ps, cur, len)| ==>
      && GroupFrom(ps, cur, len)[i] != []
      && TotalLength(GroupFrom(ps, cur, len)[i - 1]) + |GroupFrom(ps, cur, len)[i][0]| > MessageLimit
    decreases |ps|
  {
    var gs := GroupFrom(ps, cur, len);
    if ps == [] {
    } else if len + |ps[0]| > MessageLimit && cur != [] {
      var p := ps[0];
      assert TotalLength([p]) == |p|;
      GroupFromBoundaries(ps[1..], [p], |p|);
      GroupFromHead(ps[1..], [p], |p|);
      var rest := GroupFrom(ps[1..], [p], |p|);
      assert gs == [cur] + rest;
      forall i | 0 < i < |gs|
        ensures gs[i] != [] && TotalLength(gs[i - 1]) + |gs[i][0]| > MessageLimit
      {
        assert gs[i] == rest[i - 1];
        if i > 1 { assert gs[i - 1] == rest[i - 2]; }
      }
    } else {
      var next := cur + [ps[0]];
      assert next[..|cur|] == cur;
      GroupFromBoundaries(ps[1..], next, len + |ps[0]|);
    }
  }

  /** The grouping `splitIntoMessages` computes is the greedy one. */
  lemma GroupingIsGreedy(ps: seq<string>)
    ensures GreedyGrouping(ps, GroupFrom(ps, [], 0))
    ensures ps != [] ==> GroupFrom(ps, [], 0) != []
  {
    assert [] + ps == ps;
    GroupFromFlatten(ps, [], 0);
    GroupFromFits(ps, [], 0);
    GroupFromBoundaries(ps, [], 0);
    if ps != [] {
      GroupFromHead(ps, [], 0);
    }
  }

  /** A group of two or more paragraphs stays within the limit; only a lone
      paragraph can exceed it. */
  lemma GroupBound(g: seq<string>)
    requires Fits(g)
    requires |g| >= 2
    ensures TotalLength(g) <= MessageLimit
  {
    var j := |g| - 1;
    assert TotalLength(g[..j]) + |g[j]| <= MessageLimit;
  }

  /** Groups of a well separated list are well separated. */
  lemma {:induction false} GroupsWellSeparated(ps: seq<string>, cur: seq<string>, len: nat)
    requires len == TotalLength(cur)
    requires WellSeparated(cur + ps)
    requires forall x :: x in cur + ps ==> !IsBlank(x)
    ensures forall i :: 0 <= i < |GroupFrom(ps, cur, len)| ==>
      WellSeparated(GroupFrom(ps, cur, len)[i])
    ensures forall i, x :: 0 <= i < |GroupFrom(ps, cur, len)| && x in GroupFrom(ps, cur, len)[i] ==>
      !IsBlank(x)
    decreases |ps|
  {
    var gs := GroupFrom(ps, cur, len);
    if ps == [] {
      assert cur + ps == cur;
    } else if len + |ps[0]| > MessageLimit && cur != [] {
      var p := ps[0];
      WellSeparatedSplit(cur, ps);
      assert [p] + ps[1..] == ps;
      assert TotalLength([p]) == |p|;
      GroupsWellSeparated(ps[1..], [p], |p|);
      var rest := GroupFrom(ps[1..], [p], |p|);
      assert gs == [cur] + rest;
      forall i | 0 <= i < |gs| ensures WellSeparated(gs[i]) {
        if i > 0 { assert gs[i] == rest[i - 1]; }
      }
      forall i, x | 0 <= i < |gs| && x in gs[i] ensures !IsBlank(x) {
        if i > 0 { assert gs[i] == rest[i - 1]; }
      }
    } else {
      var p := ps[0];
      assert (cur + [p])[..|cur|] == cur;
      assert (cur + [p]) + ps[1..] == cur + ps;
      GroupsWellSeparated(ps[1..], cur + [p], len + |p|);
    }
  }

  lemma WellSeparatedSplit(a: seq<string>, b: seq<string>)
    requires WellSeparated(a + b)
    ensures WellSeparated(a) && WellSeparated(b)
  {
    var ab := a + b;
    forall i | 0 <= i < |b| ensures NoBreak(b[i]) { assert b[i] == ab[|a| + i]; }
    forall i | 0 < i < |b| ensures !StartsWithNewline(b[i]) { assert b[i] == ab[|a| + i]; }
    forall i | 0 <= i < |b| - 1 ensures !EndsWithNewline(b[i]) { assert b[i] == ab[|a| + i]; }
    forall i | 0 <= i < |a| ensures NoBreak(a[i]) { assert a[i] == ab[i]; }
    forall i | 0 < i < |a| ensures !StartsWithNewline(a[i]) { assert a[i] == ab[i]; }
    forall i | 0 <= i < |a| - 1 ensures !EndsWithNewline(a[i]) { assert a[i] == ab[i]; }
  }

  function JoinGroups(gs: seq<seq<string>>): (ms: seq<string>)
    ensures |ms| == |gs|
  {
    seq(|gs|, i requires 0 <= i < |gs| => JoinWith(gs[i], ParagraphSeparator))
  }

  /** `splitIntoMessages`. */
  function SplitIntoMessages(text: string): (ms: seq<string>)
    ensures |ms| >= 1
    ensures |text| < MessageLimit ==> ms == [text]
    ensures |Paragraphs(text)| < 2 ==> ms == [text]
  {
    if |text| < MessageLimit then [text]
    else
      var ps := Paragraphs(text);
      if |ps| < 2 then [text]
      else
        GroupingIsGreedy(ps);
        JoinGroups(GroupFrom(ps, [], 0))
  }

  /** Each group, joined, splits back into exactly its paragraphs. */
  lemma GroupResplits(g: seq<string>)
    requires |g| >= 1
    requires WellSeparated(g)
    requires forall x :: x in g ==> !IsBlank(x)
    ensures Paragraphs(JoinWith(g, ParagraphSeparator)) == g
  {
    forall j | 0 <= j < |g| ensures g[j] != [] && !IsBlank(g[j]) {
      assert g[j] in g;
    }
    SplitJoinRoundTrip(g);
    NonBlankKeepsAll(g);
  }

  /** A long reply with two or more paragraphs becomes one message per group
      of the greedy grouping, and each message splits back into exactly the
      paragraphs of its group. */
  lemma SplitIntoMessagesLong(text: string)
    requires |text| >= MessageLimit
    requires |Paragraphs(text)| >= 2
    ensures var gs := GroupFrom(Paragraphs(text), [], 0);
      && GreedyGrouping(Paragraphs(text), gs)
      && SplitIntoMessages(text) == JoinGroups(gs)
      && forall i :: 0 <= i < |gs| ==> Paragraphs(SplitIntoMessages(text)[i]) == gs[i]
  {
    var ps := Paragraphs(text);
    var gs := GroupFrom(ps, [], 0);
    GroupingIsGreedy(ps);
    ParagraphsWellSeparated(text);
    assert [] + ps == ps;
    GroupsWellSeparated(ps, [], 0);
    var ms := JoinGroups(gs);
    assert SplitIntoMessages(text) == ms;
    forall i | 0 <= i < |gs| ensures Paragraphs(ms[i]) == gs[i] {
      GroupResplits(gs[i]);
    }
  }

  // ---------------------------------------------------------------------
  // Splitting into sentences: `text.split(/[.!?]+/)`

  function SplitSentences(s: string): (ps: seq<string>)
    ensures |ps| >= 1
    decreases |s|
  {
    var k := SentenceLength(s);
    if k == |s| then [s] else [s[..k]] + SplitSentences(s[RunEnd(s, k)..])
  }

  function RemoveTerminators(s: string): (r: string)
  {
    if s == [] then [] else (if IsTerminator(s[0]) then [] else [s[0]]) + RemoveTerminators(s[1..])
  }

  predicate NoTerminator(s: string)
  {
    forall i :: 0 <= i < |s| ==> !IsTerminator(s[i])
  }

  lemma {:induction false} RemoveTerminatorsOf(s: string)
    ensures NoTerminator(s) ==> RemoveTerminators(s) == s
    ensures (forall i :: 0 <= i < |s| ==> IsTerminator(s[i])) ==> RemoveTerminators(s) == []
  {
    if s != [] {
      RemoveTerminatorsOf(s[1..]);
    }
  }

  /** No sentence holds a terminator. */
  lemma {:induction false} SentencesHaveNoTerminator(s: string)
    ensures forall i :: 0 <= i < |SplitSentences(s)| ==> NoTerminator(SplitSentences(s)[i])
    decreases |s|
  {
    var k := SentenceLength(s);
    if k < |s| {
      var r := s[RunEnd(s, k)..];
      SentencesHaveNoTerminator(r);
      var ps := SplitSentences(s);
      assert ps == [s[..k]] + SplitSentences(r);
      forall i | 0 <= i < |ps| ensures NoTerminator(ps[i]) {
        if i > 0 { assert ps[i] == SplitSentences(r)[i - 1]; }
      }
    } else {
      assert s[..k] == s;
    }
  }

  /** Removing the terminators of a sentence, a run of terminators and the
      rest keeps the sentence and what the rest keeps. */
  lemma {:induction false} RemoveStep(s: string, k: nat, m: nat)
    requires k + m <= |s|
    requires forall i :: 0 <= i < k ==> !IsTerminator(s[i])
    requires forall i :: k <= i < k + m ==> IsTerminator(s[i])
    ensures RemoveTerminators(s) == s[..k] + RemoveTerminators(s[k + m..])
    decreases k + m
  {
    if k > 0 {
      RemoveStep(s[1..], k - 1, m);
      assert s[1..][..k - 1] == s[1..k];
      assert s[1..][k - 1 + m..] == s[k + m..];
      assert [s[0]] + s[1..k] == s[..k];
    } else if m > 0 {
      RemoveStep(s[1..], 0, m - 1);
      assert s[1..][m - 1..] == s[m..];
    } else {
      assert s[0..] == s;
    }
  }

  /** The sentences hold every character of the text except the terminators,
      in order. */
  lemma {:induction false} SentencesCoverText(s: string)
    ensures Flatten(SplitSentences(s)) == RemoveTerminators(s)
    decreases |s|
  {
    var k := SentenceLength(s);
    if k == |s| {
      assert s[..k] == s;
      RemoveTerminatorsOf(s);
      FlattenCons(s, []);
    } else {
      var e := RunEnd(s, k);
      assert SplitSentences(s) == [s[..k]] + SplitSentences(s[e..]);
      RemoveStep(s, k, e - k);
      SentencesCoverText(s[e..]);
      FlattenCons(s[..k], SplitSentences(s[e..]));
    }
  }

  /** A run of one or more terminators. */
  predicate IsTerminatorRun(sep: string)
  {
    sep != [] && forall i :: 0 <= i < |sep| ==> IsTerminator(sep[i])
  }

  /** Text without a terminator is a single sentence. */
  lemma NoTerminatorOneSentence(s: string)
    requires NoTerminator(s)
    ensures SplitSentences(s) == [s]
  {
    assert s[..|s|] == s;
  }

  /** The first sentence of `p + sep + j`, for a terminator-free `p`, a run
      of terminators `sep` and a `j` that does not start with one, is `p`,
      and the split goes on with `j`. */
  lemma SentenceAtSeparator(p: string, sep: string, j: string)
    requires NoTerminator(p) && IsTerminatorRun(sep)
    requires j != [] && !IsTerminator(j[0])
    ensures SplitSentences(p + sep + j) == [p] + SplitSentences(j)
  {
    var s := p + sep + j;
    forall i | 0 <= i < |p| ensures !IsTerminator(s[i]) { assert s[i] == p[i]; }
    forall i | |p| <= i < |p| + |sep| ensures IsTerminator(s[i]) { assert s[i] == sep[i - |p|]; }
    assert s[|p| + |sep|] == j[0];
    SentenceLengthIs(s, |p|);
    RunEndIs(s, |p|, |p| + |sep|);
    assert s[..|p|] == p;
    assert s[|p| + |sep|..] == j;
  }

  /** `SentenceLength` is the position of the first terminator. */
  lemma SentenceLengthIs(s: string, n: nat)
    requires n <= |s|
    requires forall i :: 0 <= i < n ==> !IsTerminator(s[i])
    requires n < |s| ==> IsTerminator(s[n])
    ensures SentenceLength(s) == n
  {
    var k := SentenceLength(s);
    assert !(k < n);
    assert !(n < k);
  }

  /** `RunEnd` is the end of the run of terminators. */
  lemma RunEndIs(s: string, from: nat, e: nat)
    requires from < e <= |s|
    requires forall i :: from <= i < e ==> IsTerminator(s[i])
    requires e < |s| ==> !IsTerminator(s[e])
    ensures RunEnd(s, from) == e
  {
    var r := RunEnd(s, from);
    assert !(r < e);
    assert !(e < r);
  }

  /** A join whose first piece is non-empty and terminator-free starts
      with a non-terminator. */
  lemma JoinStartsWithSentence(ps: seq<string>, sep: string)
    requires |ps| >= 1 && ps[0] != [] && NoTerminator(ps[0])
    ensures JoinWith(ps, sep) != [] && !IsTerminator(JoinWith(ps, sep)[0])
  {
    var j := JoinWith(ps, sep);
    JoinStartsWithHead(ps, sep);
    assert j[0] == j[..|ps[0]|][0] == ps[0][0];
  }

  /** The tail of a list of non-empty, terminator-free pieces is one too. */
  lemma SentencePiecesTail(ps: seq<string>)
    requires |ps| >= 1
    requires forall i :: 0 <= i < |ps| ==> ps[i] != [] && NoTerminator(ps[i])
    ensures forall i :: 0 <= i < |ps[1..]| ==> ps[1..][i] != [] && NoTerminator(ps[1..][i])
  {
    forall i | 0 <= i < |ps[1..]| ensures ps[1..][i] != [] && NoTerminator(ps[1..][i]) {
      assert ps[1..][i] == ps[i + 1];
    }
  }

  /** Splitting undoes joining terminator-free, non-empty sentences with a
      run of terminators: the split cuts exactly at the runs. */
  lemma {:induction false} SentencesJoinRoundTrip(ps: seq<string>, sep: string)
    requires |ps| >= 1
    requires forall i :: 0 <= i < |ps| ==> ps[i] != [] && NoTerminator(ps[i])
    requires IsTerminatorRun(sep)
    ensures SplitSentences(JoinWith(ps, sep)) == ps
    decreases |ps|
  {
    if |ps| == 1 {
      NoTerminatorOneSentence(ps[0]);
    } else {
      var tail := ps[1..];
      var j := JoinWith(tail, sep);
      assert JoinWith(ps, sep) == ps[0] + sep + j;
      assert tail[0] == ps[1];
      JoinStartsWithSentence(tail, sep);
      SentenceAtSeparator(ps[0], sep, j);
      SentencePiecesTail(ps);
      SentencesJoinRoundTrip(tail, sep);
      assert [ps[0]] + tail == ps;
    }
  }

  // ---------------------------------------------------------------------
  // Bullet formatting

  /** The non-blank sentences of a reply. */
  function Sentences(text: string): seq<string>
  {
    NonBlank(SplitSentences(text))
  }

  function BulletLine(sentence: string): string
  {
    Bullet + " " + Trim(sentence)
  }

  function BulletLines(ss: seq<string>): (ls: seq<string>)
    ensures |ls| == |ss|
  {
    seq(|ss|, i requires 0 <= i < |ss| => BulletLine(ss[i]))
  }

  /** `formatResponse`. */
  function FormatResponse(text: string): (r: string)
    ensures |text| < FormatThreshold ==> r == text
    ensures |Sentences(text)| < 3 ==> r == text
  {
    if |text| < FormatThreshold then text
    else
      var ss := Sentences(text);
      if |ss| < 3 then text else JoinWith(BulletLines(ss), "\n")
  }

  lemma {:induction false} JoinNoTerminator(ls: seq<string>, sep: string)
    requires NoTerminator(sep)
    requires forall i :: 0 <= i < |ls| ==> NoTerminator(ls[i])
    ensures NoTerminator(JoinWith(ls, sep))
  {
    if |ls| == 1 {
      assert NoTerminator(ls[0]);
    } else if |ls| > 1 {
      JoinNoTerminator(ls[1..], sep);
      assert NoTerminator(ls[0]);
      NoTerminatorConcat(ls[0], sep);
      NoTerminatorConcat(ls[0] + sep, JoinWith(ls[1..], sep));
    }
  }

  lemma NoTerminatorConcat(a: string, b: string)
    requires NoTerminator(a) && NoTerminator(b)
    ensures NoTerminator(a + b)
  {
    forall i | 0 <= i < |a + b| ensures !IsTerminator((a + b)[i]) {
      if i >= |a| { assert (a + b)[i] == b[i - |a|]; }
    }
  }

  lemma BulletLineNoTerminator(s: string)
    requires NoTerminator(s)
    ensures NoTerminator(BulletLine(s))
  {
    var t := Trim(s);
    var a, b :| 0 <= a <= b <= |s| && t == s[a..b];
    var l := BulletLine(s);
    forall c | 0 <= c < |l| ensures !IsTerminator(l[c]) {
      if c >= |Bullet| + 1 { assert l[c] == t[c - |Bullet| - 1]; }
    }
  }

  /** A long reply built from three or more non-blank, terminator-free
      sentences and one run of terminators between each two becomes one
      bullet line per sentence, in order. */
  lemma FormatResponseOfSentences(ps: seq<string>, sep: string)
    requires |ps| >= 3
    requires forall i :: 0 <= i < |ps| ==> !IsBlank(ps[i]) && NoTerminator(ps[i])
    requires IsTerminatorRun(sep)
    requires |JoinWith(ps, sep)| >= FormatThreshold
    ensures Sentences(JoinWith(ps, sep)) == ps
    ensures FormatResponse(JoinWith(ps, sep)) == JoinWith(BulletLines(ps), "\n")
  {
    assert IsBlank([]);
    SentencesJoinRoundTrip(ps, sep);
    NonBlankKeepsAll(ps);
  }

  /** A long reply of three or more sentences becomes one bullet line per
      non-blank sentence, in order, and the sentence punctuation is gone. */
  lemma FormatResponseLong(text: string)
    requires |text| >= FormatThreshold
    requires |Sentences(text)| >= 3
    ensures FormatResponse(text) == JoinWith(BulletLines(Sentences(text)), "\n")
    ensures NoTerminator(FormatResponse(text))
  {
    var ss := Sentences(text);
    var ls := BulletLines(ss);
    SentencesHaveNoTerminator(text);
    forall i | 0 <= i < |ls| ensures NoTerminator(ls[i]) {
      assert ss[i] in SplitSentences(text);
      BulletLineNoTerminator(ss[i]);
    }
    JoinNoTerminator(ls, "\n");
  }
}
