/** The generated block inside each document: `replace_block` and the line list of
  * `markdown_projection` in tools/render_phase_a.py.
  */
module ContractBlock {
  import opened Prelude

  const MARKER_START := "<!-- phase-a:generated:start -->"
  const MARKER_END := "<!-- phase-a:generated:end -->"

  // ----- occurrences

  ghost predicate OccursNowhere(s: string, m: string) {
    forall p :: !OccursAt(s, m, p)
  }

  ghost predicate OccursOnlyAt(s: string, m: string, p: int) {
    OccursAt(s, m, p) && forall q :: OccursAt(s, m, q) ==> q == p
  }

  /** Python's `s.find(m, from)`. */
  function Find(s: string, m: string, from: nat): (r: int)
    ensures r < 0 ==> r == -1 && forall q | from <= q :: !OccursAt(s, m, q)
    ensures r >= 0 ==> from <= r && OccursAt(s, m, r) && forall q | from <= q < r :: !OccursAt(s, m, q)
    decreases |s| - from
  {
    if from + |m| > |s| then -1
    else if OccursAt(s, m, from) then from
    else Find(s, m, from + 1)
  }

  // ----- replacing

  datatype BlockError = NotBounded | DuplicateMarkers

  function ReplaceBlock(current: string, rendered: string): Result<string, BlockError> {
    var start := Find(current, MARKER_START, 0);
    var end := Find(current, MARKER_END, 0);
    if start < 0 || end < 0 || end < start then Err(NotBounded)
    else if Find(current, MARKER_START, start + 1) >= 0 || Find(current, MARKER_END, end + 1) >= 0
      then Err(DuplicateMarkers)
    else Ok(current[..start] + rendered + current[end + |MARKER_END|..])
  }

  /** One start marker, one end marker, in that order. */
  ghost predicate BoundedAt(s: string, start: int, end: int) {
    OccursOnlyAt(s, MARKER_START, start) && OccursOnlyAt(s, MARKER_END, end) && start < end
  }

  /** A block as the renderer builds it: from marker to marker and no other marker inside. */
  ghost predicate IsBlock(r: string) {
    BoundedAt(r, 0, |r| - |MARKER_END|)
  }

  // ----- markers

  /** An opening bracket first and only there, a closing one last and only there. */
  predicate IsBracketed(m: string) {
    && |m| >= 2 && m[0] == '<' && m[|m| - 1] == '>'
    && (forall i | 0 < i < |m| :: m[i] != '<')
    && (forall i | 0 <= i < |m| - 1 :: m[i] != '>')
  }

  predicate IsMarker(m: string) {
    IsBracketed(m) && '\n' !in m && '\r' !in m
  }

  lemma StartIsBracketed()
    ensures IsBracketed(MARKER_START) && |MARKER_START| == 32
  {
  }

  lemma StartIsMarker()
    ensures IsMarker(MARKER_START) && |MARKER_START| == 32
  {
    StartIsBracketed();
    hide IsBracketed;
  }

  lemma EndIsBracketed()
    ensures IsBracketed(MARKER_END) && |MARKER_END| == 30
  {
  }

  lemma EndIsMarker()
    ensures IsMarker(MARKER_END) && |MARKER_END| == 30
  {
    EndIsBracketed();
    hide IsBracketed;
  }

  lemma MarkersAreMarkers()
    ensures IsMarker(MARKER_START) && IsMarker(MARKER_END) && MARKER_START != MARKER_END
    ensures |MARKER_START| == 32 && |MARKER_END| == 30
  {
    StartIsMarker();
    EndIsMarker();
  }

  /** Two markers never overlap, and never start at the same place unless they are the same. */
  lemma MarkersDoNotOverlap(s: string, m: string, n: string, p: int, q: int)
    requires IsMarker(m) && IsMarker(n)
    requires OccursAt(s, m, p) && OccursAt(s, n, q) && p <= q
    ensures p == q ==> m == n
    ensures p < q ==> p + |m| <= q
  {
    OccursByCharacter(s, m, p);
    OccursByCharacter(s, n, q);
    assert s[q] == '<' && s[p + |m| - 1] == '>' && s[q + |n| - 1] == '>';
    if p == q {
      assert |m| == |n|;
      assert m == n;
    }
  }

  lemma OccursByCharacter(s: string, m: string, p: int)
    requires OccursAt(s, m, p)
    ensures forall k | p <= k < p + |m| :: s[k] == m[k - p]
  {
  }

  lemma EndsOfSpan(s: string, m: string, n: string, p: int, q: int)
    requires IsMarker(m) && IsMarker(n) && OccursAt(s, m, p) && OccursAt(s, n, q)
    ensures s[p] == '<' && s[q + |n| - 1] == '>'
  {
  }

  /** No marker straddles a splice: every occurrence lies in one of the three parts. */
  lemma SpliceOccurrences(pre: string, r: string, post: string, m: string, q: int)
    requires IsMarker(m) && r != [] && r[0] == '<' && r[|r| - 1] == '>'
    ensures OccursAt(pre + r + post, m, q) <==>
            OccursAt(pre, m, q) || OccursAt(r, m, q - |pre|) || OccursAt(post, m, q - |pre| - |r|)
  {
    var s := pre + r + post;
    var a, b := |pre|, |pre| + |r|;
    assert s[a] == '<' && s[b - 1] == '>';
    if 0 <= q <= |s| - |m| {
      var w := s[q..q + |m|];
      if q + |m| <= a || q >= b || a <= q <= b - |m| {
        WindowOfParts(pre, r, post, q, |m|);
      } else if q < a {
        assert w[a - q] == s[a];
      } else {
        assert w[b - 1 - q] == s[b - 1];
      }
    }
  }

  /** A stretch of a splice that lies in one part is a stretch of that part. */
  lemma WindowOfParts(pre: string, r: string, post: string, q: int, n: nat)
    requires 0 <= q && q + n <= |pre + r + post|
    ensures var w := (pre + r + post)[q..q + n];
            && (q + n <= |pre| ==> w == pre[q..q + n])
            && (|pre| <= q && q + n <= |pre| + |r| ==> w == r[q - |pre|..q - |pre| + n])
            && (|pre| + |r| <= q ==> w == post[q - |pre| - |r|..q - |pre| - |r| + n])
  {
  }

  // ----- acceptance

  lemma ReplaceBlockOutcome(s: string, rendered: string, start: int, end: int)
    requires BoundedAt(s, start, end)
    ensures ReplaceBlock(s, rendered) == Ok(s[..start] + rendered + s[end + |MARKER_END|..])
  {
  }

  /** Accepted exactly when there is one marker of each kind in the right order. */
  lemma AcceptedIffBounded(s: string, rendered: string)
    ensures ReplaceBlock(s, rendered).Ok? <==> exists start, end :: BoundedAt(s, start, end)
  {
    MarkersAreMarkers();
    if ReplaceBlock(s, rendered).Ok? {
      var start, end := Find(s, MARKER_START, 0), Find(s, MARKER_END, 0);
      forall q | OccursAt(s, MARKER_START, q) ensures q == start {
        assert q < start + 1;
      }
      forall q | OccursAt(s, MARKER_END, q) ensures q == end {
        assert q < end + 1;
      }
      if start == end {
        MarkersDoNotOverlap(s, MARKER_START, MARKER_END, start, end);
        assert false;
      }
      assert BoundedAt(s, start, end);
    }
    if exists start, end :: BoundedAt(s, start, end) {
      var start, end :| BoundedAt(s, start, end);
      ReplaceBlockOutcome(s, rendered, start, end);
    }
  }

  ghost predicate OccursFirstAt(s: string, m: string, p: int) {
    OccursAt(s, m, p) && forall q | q < p :: !OccursAt(s, m, q)
  }

  /** The two refusals: a marker is missing or the first end marker precedes the first start
    * marker; or both are there in order, and one of them again.
    */
  lemma RefusalReasons(s: string, rendered: string)
    ensures ReplaceBlock(s, rendered) == Err(NotBounded) <==>
            forall i, j | OccursFirstAt(s, MARKER_START, i) && OccursFirstAt(s, MARKER_END, j) :: j < i
    ensures ReplaceBlock(s, rendered) == Err(DuplicateMarkers) <==>
            exists i, j :: && OccursFirstAt(s, MARKER_START, i) && OccursFirstAt(s, MARKER_END, j) && i <= j
                           && !(OccursOnlyAt(s, MARKER_START, i) && OccursOnlyAt(s, MARKER_END, j))
  {
    hide OccursAt, OccursFirstAt, OccursOnlyAt;
    var start, end := Find(s, MARKER_START, 0), Find(s, MARKER_END, 0);
    FirstOccurrence(s, MARKER_START);
    FirstOccurrence(s, MARKER_END);
    if start >= 0 && end >= 0 {
      assert OccursFirstAt(s, MARKER_START, start) && OccursFirstAt(s, MARKER_END, end);
    }
  }

  lemma FirstOccurrence(s: string, m: string)
    ensures var p := Find(s, m, 0);
            && (forall q :: OccursFirstAt(s, m, q) <==> p >= 0 && q == p)
            && (p >= 0 ==> (Find(s, m, p + 1) < 0 <==> OccursOnlyAt(s, m, p)))
  {
  }

  /** If a marker's only occurrence is inside the middle part, the outer parts have none. */
  lemma OutsideHasNone(pre: string, block: string, post: string, m: string, at: int)
    requires IsMarker(m) && block != [] && block[0] == '<' && block[|block| - 1] == '>'
    requires 0 <= at <= |block| - |m| && OccursOnlyAt(pre + block + post, m, |pre| + at)
    ensures OccursNowhere(pre, m) && OccursNowhere(post, m)
  {
    forall q ensures !OccursAt(pre, m, q) {
      SpliceOccurrences(pre, block, post, m, q);
    }
    forall q ensures !OccursAt(post, m, q) {
      SpliceOccurrences(pre, block, post, m, q + |pre| + |block|);
    }
  }

  /** Outside its block an accepted document has no marker at all. */
  lemma OutsideIsClean(s: string, start: int, end: int)
    requires BoundedAt(s, start, end)
    ensures start + |MARKER_START| <= end
    ensures OccursNowhere(s[..start], MARKER_START) && OccursNowhere(s[..start], MARKER_END)
    ensures OccursNowhere(s[end + |MARKER_END|..], MARKER_START) && OccursNowhere(s[end + |MARKER_END|..], MARKER_END)
  {
    MarkersAreMarkers();
    MarkersDoNotOverlap(s, MARKER_START, MARKER_END, start, end);
    var stop := end + |MARKER_END|;
    var pre, block, post := s[..start], s[start..stop], s[stop..];
    EndsOfSpan(s, MARKER_START, MARKER_END, start, end);
    assert s == pre + block + post;
    OutsideHasNone(pre, block, post, MARKER_START, 0);
    OutsideHasNone(pre, block, post, MARKER_END, end - start);
  }

  /** Between parts without it, a marker occurs in the whole as it does in the middle. */
  lemma OnlyInMiddle(pre: string, r: string, post: string, m: string, at: int)
    requires IsMarker(m) && r != [] && r[0] == '<' && r[|r| - 1] == '>'
    requires OccursNowhere(pre, m) && OccursNowhere(post, m)
    requires OccursOnlyAt(r, m, at)
    ensures OccursOnlyAt(pre + r + post, m, |pre| + at)
  {
    SpliceOccurrences(pre, r, post, m, |pre| + at);
    forall q | OccursAt(pre + r + post, m, q) ensures q == |pre| + at {
      SpliceOccurrences(pre, r, post, m, q);
    }
  }

  /** A marker that occurs once in the whole and somewhere in the middle occurs once there. */
  lemma OnceInWhole(pre: string, r: string, post: string, m: string, i: int, at: int)
    requires IsMarker(m) && r != [] && r[0] == '<' && r[|r| - 1] == '>'
    requires OccursOnlyAt(pre + r + post, m, i) && OccursAt(r, m, at)
    ensures OccursOnlyAt(r, m, at)
  {
    SpliceOccurrences(pre, r, post, m, |pre| + at);
    forall q | OccursAt(r, m, q) ensures q == at {
      SpliceOccurrences(pre, r, post, m, |pre| + q);
      assert OccursAt(pre + r + post, m, |pre| + q);
    }
  }

  /** The output holds exactly one block again, where the old one was. */
  lemma OutputIsBounded(s: string, start: int, end: int, r: string)
    requires BoundedAt(s, start, end) && IsBlock(r)
    ensures BoundedAt(s[..start] + r + s[end + |MARKER_END|..], start, start + |r| - |MARKER_END|)
  {
    MarkersAreMarkers();
    OutsideIsClean(s, start, end);
    BlockEnds(r);
    var pre, post := s[..start], s[end + |MARKER_END|..];
    OnlyInMiddle(pre, r, post, MARKER_START, 0);
    OnlyInMiddle(pre, r, post, MARKER_END, |r| - |MARKER_END|);
  }

  lemma BlockEnds(r: string)
    requires OccursAt(r, MARKER_START, 0) && OccursAt(r, MARKER_END, |r| - |MARKER_END|)
    ensures r != [] && r[0] == '<' && r[|r| - 1] == '>'
  {
  }

  /** Replacing twice is replacing once with the later block; all text outside stays. */
  lemma ReplaceTwice(s: string, r1: string, r2: string)
    requires ReplaceBlock(s, r1).Ok? && IsBlock(r1)
    ensures ReplaceBlock(ReplaceBlock(s, r1).value, r2) == ReplaceBlock(s, r2)
  {
    hide ReplaceBlock, IsBlock, BoundedAt;
    AcceptedIffBounded(s, r1);
    var start, end :| BoundedAt(s, start, end);
    ReplaceTwiceAt(s, r1, r2, start, end);
  }

  lemma ReplaceTwiceAt(s: string, r1: string, r2: string, start: int, end: int)
    requires BoundedAt(s, start, end) && IsBlock(r1)
    ensures ReplaceBlock(s, r1).Ok? && ReplaceBlock(ReplaceBlock(s, r1).value, r2) == ReplaceBlock(s, r2)
  {
    ReplaceBlockOutcome(s, r1, start, end);
    ReplaceBlockOutcome(s, r2, start, end);
    OutputIsBounded(s, start, end, r1);
    BoundedIsInside(s, start, end);
    hide *;
    var pre, post := s[..start], s[end + |MARKER_END|..];
    var out := pre + r1 + post;
    var end' := start + |r1| - |MARKER_END|;
    ReplaceBlockOutcome(out, r2, start, end');
    assert out[..start] == pre && out[end' + |MARKER_END|..] == post;
  }

  lemma BoundedIsInside(s: string, start: int, end: int)
    requires BoundedAt(s, start, end)
    ensures 0 <= start < end && end + |MARKER_END| <= |s|
  {
  }

  /** Rendering an up-to-date document changes nothing. */
  lemma ReplaceIsFixedPoint(s: string, r: string)
    requires ReplaceBlock(s, r).Ok? && IsBlock(r)
    ensures ReplaceBlock(ReplaceBlock(s, r).value, r) == Ok(ReplaceBlock(s, r).value)
  {
    ReplaceTwice(s, r, r);
  }

  /** For text that runs from marker to marker the output is accepted again exactly when no
    * other marker hides inside.
    */
  lemma OutputAcceptedIffBlock(s: string, r: string, again: string)
    requires ReplaceBlock(s, r).Ok?
    requires OccursAt(r, MARKER_START, 0) && OccursAt(r, MARKER_END, |r| - |MARKER_END|)
    ensures ReplaceBlock(ReplaceBlock(s, r).value, again).Ok? <==> IsBlock(r)
  {
    MarkersAreMarkers();
    AcceptedIffBounded(s, r);
    var start, end :| BoundedAt(s, start, end);
    ReplaceBlockOutcome(s, r, start, end);
    var pre, post := s[..start], s[end + |MARKER_END|..];
    var out := pre + r + post;
    AcceptedIffBounded(out, again);
    BlockEnds(r);
    if IsBlock(r) {
      OutputIsBounded(s, start, end, r);
    }
    if i, j :| BoundedAt(out, i, j) {
      BlockOfOutput(pre, r, post, i, j);
    }
  }

  /** A text from marker to marker inside a document with one block is that block. */
  lemma BlockOfOutput(pre: string, r: string, post: string, i: int, j: int)
    requires OccursAt(r, MARKER_START, 0) && OccursAt(r, MARKER_END, |r| - |MARKER_END|)
    requires BoundedAt(pre + r + post, i, j)
    ensures IsBlock(r)
  {
    MarkersAreMarkers();
    BlockEnds(r);
    OnceInWhole(pre, r, post, MARKER_START, i, 0);
    OnceInWhole(pre, r, post, MARKER_END, j, |r| - |MARKER_END|);
    MarkersDoNotOverlap(r, MARKER_START, MARKER_END, 0, |r| - |MARKER_END|);
  }

  // ----- the rendered lines

  function Joined(lines: seq<string>): string {
    if lines == [] then "" else
    if |lines| == 1 then lines[0] else lines[0] + "\n" + Joined(lines[1..])
  }

  /** The pieces of a text between its line feeds. */
  function SplitLines(s: string): (lines: seq<string>)
    ensures lines != []
  {
    if s == "" then [""] else
    var rest := SplitLines(s[1..]);
    if s[0] == '\n' then [""] + rest else [[s[0]] + rest[0]] + rest[1..]
  }

  lemma {:induction false} SplitOfLine(line: string, rest: string)
    requires '\n' !in line
    ensures SplitLines(line) == [line]
    ensures SplitLines(line + "\n" + rest) == [line] + SplitLines(rest)
  {
    var s := line + "\n" + rest;
    if line == "" {
      assert s[1..] == rest;
    } else {
      SplitOfLine(line[1..], rest);
      assert s[1..] == line[1..] + "\n" + rest;
      assert [line[0]] + line[1..] == line;
    }
  }

  /** Joining lines and splitting the text at its line feeds gives the lines back. */
  lemma {:induction false} JoinedSplits(lines: seq<string>)
    requires lines != [] && forall i | 0 <= i < |lines| :: '\n' !in lines[i]
    ensures SplitLines(Joined(lines)) == lines
  {
    if |lines| == 1 {
      SplitOfLine(lines[0], "");
    } else {
      JoinedSplits(lines[1..]);
      SplitOfLine(lines[0], Joined(lines[1..]));
    }
  }

  function Projection(body: seq<string>): string {
    Joined([MARKER_START] + body + [MARKER_END])
  }

  predicate LineHasMarker(lines: seq<string>, m: string) {
    exists i | 0 <= i < |lines| :: Contains(lines[i], m)
  }

  /** A break between two texts is in no marker, so each occurrence lies in one of them. */
  lemma OccursAroundBreak(a: string, c: char, b: string, m: string, q: int)
    requires IsMarker(m) && c !in m
    ensures OccursAt(a + [c] + b, m, q) <==> OccursAt(a, m, q) || OccursAt(b, m, q - |a| - 1)
  {
    var s := a + [c] + b;
    if 0 <= q <= |s| - |m| {
      var w := s[q..q + |m|];
      if q + |m| <= |a| {
        assert w == a[q..q + |m|];
      } else if q > |a| {
        assert w == b[q - |a| - 1..q - |a| - 1 + |m|];
      } else {
        assert w[|a| - q] == c;
      }
    }
  }

  lemma ContainsAroundBreak(a: string, c: char, b: string, m: string)
    requires IsMarker(m) && c !in m
    ensures Contains(a + [c] + b, m) <==> Contains(a, m) || Contains(b, m)
  {
    hide IsMarker, OccursAt;
    var s := a + [c] + b;
    if q :| OccursAt(s, m, q) {
      OccursAroundBreak(a, c, b, m, q);
    }
    if q :| OccursAt(a, m, q) {
      OccursAroundBreak(a, c, b, m, q);
    }
    if q :| OccursAt(b, m, q) {
      OccursAroundBreak(a, c, b, m, q + |a| + 1);
      assert OccursAt(s, m, q + |a| + 1);
    }
  }

  lemma {:induction false} JoinedHas(lines: seq<string>, m: string)
    requires IsMarker(m)
    ensures Contains(Joined(lines), m) <==> LineHasMarker(lines, m)
  {
    if |lines| > 1 {
      var rest := lines[1..];
      JoinedHas(rest, m);
      ContainsAroundBreak(lines[0], '\n', Joined(rest), m);
      assert forall i | 0 <= i < |rest| :: rest[i] == lines[i + 1];
      assert forall i | 1 <= i < |lines| :: lines[i] == rest[i - 1];
    }
  }

  lemma LineHasMarkerSplit(a: seq<string>, b: seq<string>, m: string)
    ensures LineHasMarker(a + b, m) <==> LineHasMarker(a, m) || LineHasMarker(b, m)
  {
    var all := a + b;
    assert forall i | 0 <= i < |a| :: all[i] == a[i];
    assert forall i | |a| <= i < |all| :: all[i] == b[i - |a|];
    if i :| 0 <= i < |b| && Contains(b[i], m) {
      assert all[|a| + i] == b[i];
    }
  }

  lemma {:induction false} JoinedSnoc(lines: seq<string>, last: string)
    requires lines != []
    ensures Joined(lines + [last]) == Joined(lines) + "\n" + last
  {
    var all := lines + [last];
    if |lines| == 1 {
      assert all[1..] == [last];
    } else {
      JoinedSnoc(lines[1..], last);
      assert all[1..] == lines[1..] + [last];
      assert lines[0] + "\n" + (Joined(lines[1..]) + "\n" + last) == lines[0] + "\n" + Joined(lines[1..]) + "\n" + last;
    }
  }

  /** The projection is a block exactly when no line between its markers contains one. */
  lemma ProjectionIsBlockIff(body: seq<string>)
    ensures IsBlock(Projection(body)) <==> !LineHasMarker(body, MARKER_START) && !LineHasMarker(body, MARKER_END)
  {
    StartInProjection(body);
    EndInProjection(body);
  }

  lemma OtherMarkerLine(m: string, n: string)
    requires IsMarker(m) && IsMarker(n) && m != n
    ensures !LineHasMarker([n], m)
  {
  }

  lemma ProjectionStarts(body: seq<string>)
    ensures Projection(body) == MARKER_START + "\n" + Joined(body + [MARKER_END])
    ensures Contains(Joined(body + [MARKER_END]), MARKER_START) <==> LineHasMarker(body, MARKER_START)
  {
    MarkersAreMarkers();
    var rest := body + [MARKER_END];
    assert ([MARKER_START] + body + [MARKER_END])[1..] == rest;
    LineHasMarkerSplit(body, [MARKER_END], MARKER_START);
    OtherMarkerLine(MARKER_START, MARKER_END);
    JoinedHas(rest, MARKER_START);
  }

  lemma StartInProjection(body: seq<string>)
    ensures var r := Projection(body);
            && |r| > |MARKER_END| && OccursAt(r, MARKER_START, 0)
            && (OccursOnlyAt(r, MARKER_START, 0) <==> !LineHasMarker(body, MARKER_START))
  {
    hide Projection, LineHasMarker, OccursOnlyAt;
    MarkersAreMarkers();
    ProjectionStarts(body);
    OnlyAtFront(MARKER_START, Joined(body + [MARKER_END]));
  }

  lemma OnlyAtFront(m: string, tail: string)
    requires IsMarker(m)
    ensures OccursAt(m + "\n" + tail, m, 0)
    ensures OccursOnlyAt(m + "\n" + tail, m, 0) <==> !Contains(tail, m)
  {
    var r := m + "\n" + tail;
    assert OccursAt(m, m, 0);
    OccursAroundBreak(m, '\n', tail, m, 0);
    if q :| OccursAt(tail, m, q) {
      OccursAroundBreak(m, '\n', tail, m, q + |m| + 1);
      assert OccursAt(r, m, q + |m| + 1);
    }
    if !Contains(tail, m) {
      forall q | OccursAt(r, m, q) ensures q == 0 {
        OccursAroundBreak(m, '\n', tail, m, q);
      }
    }
  }

  lemma ProjectionEnds(body: seq<string>)
    ensures Projection(body) == Joined([MARKER_START] + body) + "\n" + MARKER_END
    ensures Contains(Joined([MARKER_START] + body), MARKER_END) <==> LineHasMarker(body, MARKER_END)
  {
    MarkersAreMarkers();
    var front := [MARKER_START] + body;
    JoinedSnoc(front, MARKER_END);
    LineHasMarkerSplit([MARKER_START], body, MARKER_END);
    OtherMarkerLine(MARKER_END, MARKER_START);
    JoinedHas(front, MARKER_END);
  }

  lemma EndInProjection(body: seq<string>)
    ensures var r := Projection(body);
            && OccursAt(r, MARKER_END, |r| - |MARKER_END|)
            && (OccursOnlyAt(r, MARKER_END, |r| - |MARKER_END|) <==> !LineHasMarker(body, MARKER_END))
  {
    hide Projection, LineHasMarker, OccursOnlyAt;
    MarkersAreMarkers();
    ProjectionEnds(body);
    OnlyAtBack(Joined([MARKER_START] + body), MARKER_END);
  }

  lemma OnlyAtBack(head: string, m: string)
    requires IsMarker(m)
    ensures var r := head + "\n" + m;
            OccursAt(r, m, |r| - |m|) && (OccursOnlyAt(r, m, |r| - |m|) <==> !Contains(head, m))
  {
    var r := head + "\n" + m;
    assert OccursAt(m, m, 0);
    OccursAroundBreak(head, '\n', m, m, |r| - |m|);
    if q :| OccursAt(head, m, q) {
      OccursAroundBreak(head, '\n', m, m, q);
      assert OccursAt(r, m, q) && q != |r| - |m|;
    }
    if !Contains(head, m) {
      forall q | OccursAt(r, m, q) ensures q == |r| - |m| {
        OccursAroundBreak(head, '\n', m, m, q);
      }
    }
  }
}
