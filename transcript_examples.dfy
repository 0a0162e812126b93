/** Worked inputs for the transcript parser, each derived from the general lemmas. */
module TranscriptExamples {
  import opened Strings
  import opened Transcript

  /** Two newline-joined lines. */
  lemma JoinTwo(a: string, b: string)
    ensures JoinWith([a, b], "\n") == a + "\n" + b
  {
    assert [a, b][1..] == [b];
  }

  lemma TwoSpeakersLines(t: string)
    requires t == "A [happy]: hi\nB [calm]: hello\n"
    ensures Lines(t) == ["A [happy]: hi", "B [calm]: hello"]
  {
    var lines := ["A [happy]: hi", "B [calm]: hello"];
    var body := "A [happy]: hi\nB [calm]: hello";
    JoinTwo(lines[0], lines[1]);
    assert JoinWith(lines, "\n") == body;
    assert body + ['\n'] == "A [happy]: hi\nB [calm]: hello\n";
    StripTrailing(body, '\n');
    SplitJoinLines(lines);
  }

  lemma RenderTwo(u: Utterance, v: Utterance)
    ensures RenderAll([u, v]) == [RenderLine(u), RenderLine(v)]
  {
    assert [u, v][..1] == [u] && [u][..0] == [];
  }

  lemma SegmentsTwo(u: Utterance, v: Utterance)
    ensures AsSegments([u, v]) == [AsSegment(u), AsSegment(v)]
  {
    assert [u, v][..1] == [u] && [u][..0] == [];
    assert AsSegments([u]) == [AsSegment(u)];
  }

  /** Lower-case ASCII letters only. */
  predicate Letters(s: string) {
    forall i :: 0 <= i < |s| ==> 'a' <= s[i] <= 'z'
  }

  /** An utterance spelled in lower-case letters, with speaker `A` or `B` and some text, can
      be rendered and parsed back. */
  lemma LettersRenderable(u: Utterance)
    requires u.speaker == 'A' || u.speaker == 'B'
    requires Letters(u.emotion) && Letters(u.text) && u.text != []
    ensures Renderable(u)
  {
    AbsentFirstChar(u.emotion, Separator);
    AbsentFirstChar(u.text, Separator);
  }

  lemma TwoSpeakersRenderable(u: Utterance, v: Utterance)
    requires u == Utterance('A', "happy", "hi") && v == Utterance('B', "calm", "hello")
    ensures Renderable(u) && Renderable(v)
  {
    LettersRenderable(u);
    LettersRenderable(v);
  }

  lemma TwoSpeakersRendered(u: Utterance, v: Utterance)
    requires u == Utterance('A', "happy", "hi") && v == Utterance('B', "calm", "hello")
    ensures RenderAll([u, v]) == ["A [happy]: hi", "B [calm]: hello"]
  {
    RenderTwo(u, v);
    assert RenderLine(u) == "A [happy]: hi" && RenderLine(v) == "B [calm]: hello";
  }

  lemma TwoSpeakersSegments(u: Utterance, v: Utterance)
    requires u == Utterance('A', "happy", "hi") && v == Utterance('B', "calm", "hello")
    ensures AsSegments([u, v]) == [Segment("A", Some("happy"), "hi"), Segment("B", Some("calm"), "hello")]
  {
    SegmentsTwo(u, v);
  }

  /** Two marker lines and a trailing newline give one segment per speaker, in order. */
  lemma TwoSpeakers(t: string)
    requires t == "A [happy]: hi\nB [calm]: hello\n"
    ensures Parse(t) == [
      Segment("A", Some("happy"), "hi"),
      Segment("B", Some("calm"), "hello")
    ]
  {
    var u, v := Utterance('A', "happy", "hi"), Utterance('B', "calm", "hello");
    TwoSpeakersRenderable(u, v);
    TwoSpeakersRendered(u, v);
    TwoSpeakersSegments(u, v);
    TwoSpeakersLines(t);
    ParseRenderedLines(t, [u, v]);
  }

  /** Letters-only text is stripped and holds no newline or separator token. */
  lemma LettersPlain(s: string)
    requires s != [] && Letters(s)
    ensures '\n' !in s && IsStripped(s) && !Contains(s, Separator)
    ensures MatchMarker(s).None?
  {
    AbsentFirstChar(s, Separator);
  }

  /** A plain line after a marker line continues that speaker's text after one space. */
  lemma Continuation(t: string)
    requires t == "A [happy]: hi\nthere"
    ensures Parse(t) == [Segment("A", Some("happy"), "hi there")]
  {
    var u := Utterance('A', "happy", "hi");
    assert Segment([u.speaker], Some(u.emotion), u.text + " " + "there")
      == Segment("A", Some("happy"), "hi there");
    assert RenderLine(u) + "\n" + "there" == t;
    LettersRenderable(u);
    LettersPlain("there");
    ParseContinued(u, "there");
  }

  /** A blank line between a marker line and a plain line splits the turn in two; the second
      segment keeps the speaker and the emotion. */
  lemma BlankSplit(t: string)
    requires t == "A [happy]: hi\n\nthere"
    ensures Parse(t) == [Segment("A", Some("happy"), "hi"), Segment("A", Some("happy"), "there")]
  {
    var u := Utterance('A', "happy", "hi");
    assert AsSegment(u) == Segment("A", Some("happy"), "hi");
    assert Segment([u.speaker], Some(u.emotion), "there") == Segment("A", Some("happy"), "there");
    assert RenderLine(u) + "\n\n" + "there" == t;
    LettersRenderable(u);
    LettersPlain("there");
    ParseBlankSplit(u, "there");
  }

  /** A line with no bracketed emotion does not match the marker pattern, and text seen
      before any marker is dropped. */
  lemma NoBrackets(t: string)
    requires t == "A : text"
    ensures Parse(t) == []
  {
    var rest := ": text";
    assert t[1..] == " " + rest;
    LStripOneSpace(rest);
    assert MatchMarker(t).None?;
    StripStripped(t);
    assert Lines(t) == [t];
    ParseNoMarker(t);
  }

  /** A marker line that holds the separator token is treated as a separator. */
  lemma SeparatorWins(t: string)
    requires t == "A [x]: ******"
    ensures Parse(t) == []
  {
    StripStripped(t);
    assert Lines(t) == [t];
    assert OccursAt(t, Separator, 7);
    assert IsBreak(Strip(t));
    RunSnoc(Initial, [], t);
    assert [] + [t] == [t];
  }

  /** Empty brackets give the empty emotion, which is still set. */
  lemma EmptyEmotion(t: string)
    requires t == "B []: ok"
    ensures Parse(t) == [Segment("B", Some(""), "ok")]
  {
    var u := Utterance('B', "", "ok");
    LettersRenderable(u);
    assert RenderAll([u]) == [RenderLine(u)] by {
      assert [u][..0] == [];
    }
    assert JoinWith([RenderLine(u)], "\n") == t;
    ParseRender([u]);
    assert AsSegments([u]) == [AsSegment(u)] by {
      assert [u][..0] == [];
    }
  }


  /** The pattern allows any whitespace, or none, around the bracketed emotion. */
  lemma TightMarker(line: string)
    requires line == "A[x]:hi"
    ensures MatchMarker(line) == Some(Marker("A", "x", "hi"))
  {
    assert NoClose("x") by {
      assert !CloseAt("x", 0);
    }
    assert line == MarkerLine('A', "", "x", "", "hi");
    MatchMarkerLine('A', "", "x", "", "hi");
  }

  /** A marker line with nothing after `]:` opens a turn with empty text; when the next marker
      comes there is nothing to flush, so the first marker yields no segment at all. */
  lemma EmptyTurn(t: string)
    requires t == "A [happy]:\nB [calm]: hi"
    ensures Parse(t) == [Segment("B", Some("calm"), "hi")]
  {
    var u, v := Utterance('A', "happy", "hi"), Utterance('B', "calm", "hi");
    LettersRenderable(u);
    LettersRenderable(v);
    var bare, line := BareLine(u.speaker, u.emotion), RenderLine(v);
    assert bare == "A [happy]:" && line == "B [calm]: hi";
    assert bare + "\n" + line == t;
    ParseBareTurn(u.speaker, u.emotion, v);
  }
}
