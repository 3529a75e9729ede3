/** Applying the projection and checking the result: `desired_files`, `check`, `apply` and `main` in
  * tools/render_phase_a.py.
  */
module ContractApply {
  import opened Prelude
  import opened ContractBlock

  // ----- text as it is read

  /** How many characters the next one read stands for. */
  function Step(s: string): (n: nat)
    requires s != ""
    ensures 1 <= n <= |s|
  {
    if s[0] == '\r' && |s| > 1 && s[1] == '\n' then 2 else 1
  }

  /** `read_text`: a carriage return, with a line feed after it or not, becomes a line feed. */
  function ReadText(s: string): (t: string)
    ensures '\r' !in t
    ensures '\r' !in s ==> t == s
  {
    if s == "" then "" else [if s[0] == '\r' then '\n' else s[0]] + ReadText(s[Step(s)..])
  }

  /** Reading goes piece by piece, unless a cut separates a carriage return from its line feed. */
  lemma {:induction false} ReadConcat(s: string, t: string)
    requires s == "" || s[|s| - 1] != '\r' || t == "" || t[0] != '\n'
    ensures ReadText(s + t) == ReadText(s) + ReadText(t)
    decreases |s|
  {
    if s == "" {
      assert s + t == t;
    } else {
      var k := Step(s);
      StepOfFront(s, t);
      ReadConcat(s[k..], t);
      ConcatAssociates([if s[0] == '\r' then '\n' else s[0]], ReadText(s[k..]), ReadText(t));
    }
  }

  lemma StepOfFront(s: string, t: string)
    requires s != "" && (s[|s| - 1] != '\r' || t == "" || t[0] != '\n')
    ensures Step(s + t) == Step(s) && (s + t)[Step(s)..] == s[Step(s)..] + t && (s + t)[0] == s[0]
  {
  }

  /** Each of the three breaks is read as one line feed, and all else as it is. */
  lemma ReadBreaks(a: string, b: string)
    requires '\r' !in a
    ensures ReadText(a + "\r\n" + b) == a + "\n" + ReadText(b)
    ensures ReadText(a + "\n" + b) == a + "\n" + ReadText(b)
    ensures b == "" || b[0] != '\n' ==> ReadText(a + "\r" + b) == a + "\n" + ReadText(b)
  {
    ReadConcat(a + "\r\n", b);
    ReadConcat(a + "\n", b);
    ReadConcat(a, "\r\n");
    ReadConcat(a, "\r");
    assert "\r\n"[2..] == "" && "\r"[1..] == "";
    assert ReadText("\r\n") == "\n" && ReadText("\r") == "\n";
    if b == "" || b[0] != '\n' {
      ReadConcat(a + "\r", b);
    }
  }

  /** Reading neither makes nor breaks a marker. */
  lemma {:induction false} ContainsRead(s: string, m: string)
    requires IsMarker(m)
    ensures Contains(ReadText(s), m) <==> Contains(s, m)
    decreases |s|
  {
    assert '\n' !in m && '\r' !in m;
    hide *;
    if '\r' in s {
      var a, rest := AtReturn(s);
      var more := AfterReturn(rest);
      ContainsRead(more, m);
      ContainsAroundBreak(a, '\n', ReadText(more), m);
      ContainsAroundBreak(a, '\r', rest, m);
      ContainsAfterReturn(rest, m);
    }
  }

  /** A line feed that belongs to the carriage return before it is dropped. */
  function AfterReturn(rest: string): (more: string)
    ensures |more| <= |rest|
  {
    if rest != "" && rest[0] == '\n' then rest[1..] else rest
  }

  lemma ContainsAfterReturn(rest: string, m: string)
    requires IsMarker(m)
    ensures Contains(AfterReturn(rest), m) <==> Contains(rest, m)
  {
    if AfterReturn(rest) != rest {
      assert rest == "" + ['\n'] + rest[1..];
      ContainsAroundBreak("", '\n', rest[1..], m);
      NothingInEmpty(m);
    }
  }

  lemma {:induction false} FirstReturn(s: string) returns (p: nat)
    requires '\r' in s
    ensures p < |s| && s[p] == '\r' && '\r' !in s[..p]
  {
    p := 0;
    if s[0] != '\r' {
      assert s == [s[0]] + s[1..];
      p := FirstReturn(s[1..]);
      p := p + 1;
      assert s[..p] == [s[0]] + s[1..][..p - 1];
    }
  }

  /** The first carriage return, what precedes it and what follows. */
  lemma AtReturn(s: string) returns (a: string, rest: string)
    requires '\r' in s
    ensures s == a + ['\r'] + rest && '\r' !in a
    ensures ReadText(s) == a + ['\n'] + ReadText(AfterReturn(rest))
  {
    var p := FirstReturn(s);
    a, rest := s[..p], s[p + 1..];
    var back := s[p..];
    assert s == a + back && back == ['\r'] + rest;
    ReadConcat(a, back);
    ReadReturn(rest);
    ConcatAssociates(a, ['\r'], rest);
    ConcatAssociates(a, ['\n'], ReadText(AfterReturn(rest)));
  }

  lemma ReadReturn(rest: string)
    ensures ReadText(['\r'] + rest) == ['\n'] + ReadText(AfterReturn(rest))
  {
    var s := ['\r'] + rest;
    assert s[1..] == rest;
    if rest != "" {
      assert s[1] == rest[0] && s[2..] == rest[1..];
    }
  }

  lemma NothingInEmpty(m: string)
    requires IsMarker(m)
    ensures !Contains("", m)
  {
  }

  // ----- the projection as it is read

  /** A line that is read still ends, and has a marker exactly if it had one. */
  lemma ReadLine(h: string, m: string) returns (h': string)
    requires IsMarker(m)
    ensures ReadText(h + "\n") == h' + "\n"
    ensures Contains(h', m) <==> Contains(h, m)
  {
    if h != "" && h[|h| - 1] == '\r' {
      var g := h[..|h| - 1];
      assert h == g + "\r" && h + "\n" == g + "\r\n";
      ReadConcat(g, "\r\n");
      assert ReadText("\r\n") == "\n" by { assert "\r\n"[2..] == ""; }
      h' := ReadText(g);
      ContainsRead(g, m);
      assert h == g + ['\r'] + "";
      ContainsAroundBreak(g, '\r', "", m);
      NothingInEmpty(m);
    } else {
      ReadConcat(h, "\n");
      h' := ReadText(h);
      ContainsRead(h, m);
    }
  }

  /** Read back, a projection still runs from marker to marker, and no marker comes or goes. */
  lemma ReadStart(body: seq<string>)
    ensures var r := ReadText(Projection(body));
            && OccursAt(r, MARKER_START, 0)
            && (OccursOnlyAt(r, MARKER_START, 0) <==> !LineHasMarker(body, MARKER_START))
  {
    hide *;
    MarkersAreMarkers();
    NoReturnInMarkers();
    var tail := Joined(body + [MARKER_END]);
    ProjectionStarts(body);
    EndOfLine(MARKER_START);
    ReadConcat(MARKER_START + "\n", tail);
    ContainsRead(tail, MARKER_START);
    OnlyAtFront(MARKER_START, ReadText(tail));
  }

  lemma EndOfLine(s: string)
    ensures (s + "\n")[|s + "\n"| - 1] == '\n'
  {
  }

  lemma ReadEnd(body: seq<string>)
    ensures var r := ReadText(Projection(body));
            && OccursAt(r, MARKER_END, |r| - |MARKER_END|)
            && (OccursOnlyAt(r, MARKER_END, |r| - |MARKER_END|) <==> !LineHasMarker(body, MARKER_END))
  {
    hide *;
    MarkersAreMarkers();
    NoReturnInMarkers();
    var head := Joined([MARKER_START] + body);
    ProjectionEnds(body);
    EndOfLine(head);
    ReadConcat(head + "\n", MARKER_END);
    var head' := ReadLine(head, MARKER_END);
    OnlyAtBack(head', MARKER_END);
  }

  lemma NoReturnInMarkers()
    ensures ReadText(MARKER_START + "\n") == MARKER_START + "\n" && ReadText(MARKER_END) == MARKER_END
  {
    MarkersAreMarkers();
  }

  /** What is read back of a projection is a block exactly when no line contains a marker. */
  lemma ReadProjection(body: seq<string>)
    ensures var r := ReadText(Projection(body));
            && OccursAt(r, MARKER_START, 0) && OccursAt(r, MARKER_END, |r| - |MARKER_END|)
            && (IsBlock(r) <==> !LineHasMarker(body, MARKER_START) && !LineHasMarker(body, MARKER_END))
  {
    hide Projection, LineHasMarker, ReadText;
    ReadStart(body);
    ReadEnd(body);
    var r := ReadText(Projection(body));
    MarkersAreMarkers();
    if |r| == |MARKER_END| {
      MarkersDoNotOverlap(r, MARKER_START, MARKER_END, 0, 0);
    }
  }

  // ----- one document

  predicate HasReturn(lines: seq<string>) {
    exists i | 0 <= i < |lines| :: '\r' in lines[i]
  }

  lemma {:induction false} JoinedReturn(lines: seq<string>)
    ensures '\r' in Joined(lines) <==> HasReturn(lines)
  {
    if |lines| > 1 {
      var rest := lines[1..];
      JoinedReturn(rest);
      assert forall i | 0 <= i < |rest| :: rest[i] == lines[i + 1];
      assert forall i | 1 <= i < |lines| :: lines[i] == rest[i - 1];
    }
  }

  lemma ProjectionReturn(body: seq<string>)
    ensures '\r' in Projection(body) <==> HasReturn(body)
  {
    MarkersAreMarkers();
    var lines := [MARKER_START] + body + [MARKER_END];
    JoinedReturn(lines);
    assert forall i | 0 <= i < |body| :: lines[i + 1] == body[i];
    assert forall i | 0 < i < |lines| - 1 :: lines[i] == body[i - 1];
  }

  /** Splicing and reading back is splicing what is read back. */
  lemma ReadSpliced(doc: string, r: string)
    requires '\r' !in doc && ReplaceBlock(doc, r).Ok?
    requires OccursAt(r, MARKER_START, 0) && OccursAt(r, MARKER_END, |r| - |MARKER_END|)
    ensures ReplaceBlock(doc, ReadText(r)) == Ok(ReadText(ReplaceBlock(doc, r).value))
    ensures '\r' in r ==> '\r' in ReplaceBlock(doc, r).value
  {
    BlockEnds(r);
    hide IsMarker, OccursAt, BoundedAt, ReplaceBlock, ReadText;
    AcceptedIffBounded(doc, r);
    var start, end :| BoundedAt(doc, start, end);
    ReplaceBlockOutcome(doc, r, start, end);
    ReplaceBlockOutcome(doc, ReadText(r), start, end);
    BoundedIsInside(doc, start, end);
    ReadAround(doc[..start], r, doc[end + |MARKER_END|..]);
  }

  lemma ReadAround(pre: string, r: string, post: string)
    requires '\r' !in pre && '\r' !in post && r != "" && r[|r| - 1] != '\r'
    ensures ReadText(pre + r + post) == pre + ReadText(r) + post
    ensures '\r' in r ==> '\r' in pre + r + post
  {
    hide *;
    assert (pre + r)[|pre + r| - 1] == r[|r| - 1];
    ReadConcat(pre + r, post);
    ReadConcat(pre, r);
  }

  /** The document a second run finds: accepted exactly without markers in the projected lines,
    * and then as wanted exactly without carriage returns in them.
    */
  lemma SecondRun(doc: string, body: seq<string>)
    requires '\r' !in doc && ReplaceBlock(doc, Projection(body)).Ok?
    ensures var found := ReadText(ReplaceBlock(doc, Projection(body)).value);
            var wanted := ReplaceBlock(found, Projection(body));
            && (wanted.Ok? <==> !LineHasMarker(body, MARKER_START) && !LineHasMarker(body, MARKER_END))
            && (wanted.Ok? ==> (wanted.value == found <==> !HasReturn(body)))
  {
    hide *;
    var r := Projection(body);
    var r' := ReadText(r);
    StartInProjection(body);
    EndInProjection(body);
    ReadProjection(body);
    ReadSpliced(doc, r);
    OutputAcceptedIffBlock(doc, r', r);
    ProjectionReturn(body);
    var found := ReadText(ReplaceBlock(doc, r).value);
    if IsBlock(r') {
      ReplaceTwice(doc, r', r);
    }
  }

  // ----- a run of the tool

  datatype Outcome = Clean | Drifted | Refused

  /** The texts a run wants for the files it finds, or nothing if some document is refused. */
  function Desired(files: seq<string>, rendered: string): Option<seq<string>> {
    if exists i | 0 <= i < |files| :: ReplaceBlock(ReadText(files[i]), rendered).Err? then None
    else Some(seq(|files|, i requires 0 <= i < |files| => ReplaceBlock(ReadText(files[i]), rendered).value))
  }

  /** `--check`: compares what it reads with what it wants. */
  function CheckRun(files: seq<string>, rendered: string): Outcome {
    var wanted := Desired(files, rendered);
    if wanted.None? then Refused
    else if forall i | 0 <= i < |files| :: ReadText(files[i]) == wanted.value[i] then Clean
    else Drifted
  }

  /** `--apply`: writes what it wants as it is, and checks the files it then finds. */
  function ApplyRun(files: seq<string>, rendered: string): Outcome {
    var wanted := Desired(files, rendered);
    if wanted.None? then Refused else CheckRun(wanted.value, rendered)
  }

  /** One marker of each kind in the right order, and this text from the one to the other. */
  ghost predicate Holds(text: string, rendered: string) {
    exists start, end :: BlockIs(text, start, end, rendered)
  }

  ghost predicate BlockIs(text: string, start: int, end: int, rendered: string) {
    BoundedAt(text, start, end) && end + |MARKER_END| <= |text| && text[start..end + |MARKER_END|] == rendered
  }

  ghost predicate IsBounded(text: string) {
    exists start, end :: BoundedAt(text, start, end)
  }

  lemma ReplacedBySame(pre: string, block: string, post: string, rendered: string)
    ensures pre + rendered + post == pre + block + post <==> rendered == block
  {
    if pre + rendered + post == pre + block + post {
      assert (pre + rendered + post)[|pre|..] == rendered + post;
      assert (pre + block + post)[|pre|..] == block + post;
      assert |rendered| == |block|;
      assert (rendered + post)[..|rendered|] == (block + post)[..|block|];
    }
  }

  /** A document is as wanted exactly when its block is the rendered text. */
  lemma UpToDateIff(text: string, rendered: string)
    ensures ReplaceBlock(text, rendered).Ok? <==> IsBounded(text)
    ensures ReplaceBlock(text, rendered) == Ok(text) <==> Holds(text, rendered)
  {
    hide OccursOnlyAt, ReplaceBlock;
    AcceptedIffBounded(text, rendered);
    forall start, end | BoundedAt(text, start, end)
      ensures ReplaceBlock(text, rendered) == Ok(text) <==> BlockIs(text, start, end, rendered)
    {
      ReplaceBlockOutcome(text, rendered, start, end);
      BoundedIsInside(text, start, end);
      var pre, block, post := text[..start], text[start..end + |MARKER_END|], text[end + |MARKER_END|..];
      ReplacedBySame(pre, block, post, rendered);
      assert text == pre + block + post;
    }
  }

  /** `--check`, for any files: refused exactly if some document has not one marker of each kind in
    * the right order, clean exactly if every document holds the rendered block, drifted otherwise.
    */
  lemma CheckRunIff(files: seq<string>, rendered: string)
    ensures CheckRun(files, rendered) == Refused <==> exists i | 0 <= i < |files| :: !IsBounded(ReadText(files[i]))
    ensures CheckRun(files, rendered) == Clean <==> forall i | 0 <= i < |files| :: Holds(ReadText(files[i]), rendered)
  {
    hide ReplaceBlock, ReadText, Holds, IsBounded;
    forall i | 0 <= i < |files|
      ensures ReplaceBlock(ReadText(files[i]), rendered).Ok? <==> IsBounded(ReadText(files[i]))
      ensures ReplaceBlock(ReadText(files[i]), rendered) == Ok(ReadText(files[i]))
              <==> Holds(ReadText(files[i]), rendered)
    {
      UpToDateIff(ReadText(files[i]), rendered);
    }
  }

  /** Applying ends clean exactly when no projected line contains a marker or a carriage return.
    * With a marker the tool refuses what it has just written, and with only a carriage return
    * it reports drift.
    */
  lemma ApplyThenCheckIsClean(files: seq<string>, body: seq<string>)
    requires files != [] && Desired(files, Projection(body)).Some?
    ensures ApplyRun(files, Projection(body)) ==
            if LineHasMarker(body, MARKER_START) || LineHasMarker(body, MARKER_END) then Refused
            else if HasReturn(body) then Drifted
            else Clean
  {
    hide Projection, LineHasMarker, HasReturn, ReplaceBlock, ReadText;
    var rendered := Projection(body);
    var wanted := Desired(files, rendered).value;
    forall i | 0 <= i < |files|
      ensures var again := ReplaceBlock(ReadText(wanted[i]), rendered);
              && (again.Ok? <==> !LineHasMarker(body, MARKER_START) && !LineHasMarker(body, MARKER_END))
              && (again.Ok? ==> (again.value == ReadText(wanted[i]) <==> !HasReturn(body)))
    {
      SecondRun(ReadText(files[i]), body);
    }
    assert ReplaceBlock(ReadText(wanted[0]), rendered).Ok? <==> Desired(wanted, rendered).Some?;
  }

  // ----- two inputs that are not clean

  /** The cell of a node's evidence path, the one free text of the projection. */
  function EvidenceCell(item: string): string { "[`" + item + "`](" + item + ")" }

  /** A projection with this path as the evidence of one of its rows. */
  function BodyWith(before: seq<string>, front: string, path: string, after: seq<string>): seq<string> {
    before + [front + EvidenceCell(path) + " |"] + after
  }

  /** The document that holds nothing but an empty block. */
  function EmptyDocument(): string { Projection([]) }

  lemma EmptyDocumentIsAccepted(rendered: string)
    ensures Desired([EmptyDocument()], rendered).Some?
  {
    hide Projection, ReplaceBlock;
    ProjectionIsBlockIff([]);
    ProjectionReturn([]);
    var doc := EmptyDocument();
    assert IsBlock(doc);
    AcceptedIffBounded(doc, rendered);
  }

  lemma ContainsAmid(front: string, s: string, back: string, m: string)
    requires Contains(s, m)
    ensures Contains(front + s + back, m)
  {
    var q :| OccursAt(s, m, q);
    var all := front + s + back;
    assert all[|front| + q..|front| + q + |m|] == s[q..q + |m|];
    assert OccursAt(all, m, |front| + q);
  }

  lemma CellContains(path: string, m: string)
    requires Contains(path, m)
    ensures Contains(EvidenceCell(path), m)
  {
    ContainsAmid("[`", path, "`](" + path + ")", m);
    assert EvidenceCell(path) == "[`" + path + ("`](" + path + ")");
  }

  /** A path with a marker in it passes every check of a path; the tool writes it and then refuses
    * what it wrote.
    */
  lemma MarkedPathIsRefused(before: seq<string>, front: string, after: seq<string>)
    ensures var rendered := Projection(BodyWith(before, front, "evidence/phase-a/" + MARKER_END, after));
            Desired([EmptyDocument()], rendered).Some? && ApplyRun([EmptyDocument()], rendered) == Refused
  {
    var path := "evidence/phase-a/" + MARKER_END;
    var body := BodyWith(before, front, path, after);
    assert OccursAt(path, MARKER_END, |"evidence/phase-a/"|);
    assert body[|before|] == front + EvidenceCell(path) + " |";
    CellContains(path, MARKER_END);
    ContainsAmid(front, EvidenceCell(path), " |", MARKER_END);
    assert LineHasMarker(body, MARKER_END);
    hide *;
    EmptyDocumentIsAccepted(Projection(body));
    ApplyThenCheckIsClean([EmptyDocument()], body);
  }

  /** So does one with a carriage return; the tool writes it and then reports drift. */
  lemma PathWithReturnDrifts(before: seq<string>, front: string, after: seq<string>)
    requires var body := BodyWith(before, front, "evidence/phase-a/a\rb", after);
             !LineHasMarker(body, MARKER_START) && !LineHasMarker(body, MARKER_END)
    ensures var rendered := Projection(BodyWith(before, front, "evidence/phase-a/a\rb", after));
            Desired([EmptyDocument()], rendered).Some? && ApplyRun([EmptyDocument()], rendered) == Drifted
  {
    var body := BodyWith(before, front, "evidence/phase-a/a\rb", after);
    assert body[|before|][|front| + 20] == '\r';
    assert HasReturn(body);
    hide *;
    EmptyDocumentIsAccepted(Projection(body));
    ApplyThenCheckIsClean([EmptyDocument()], body);
  }
}
