/** The transcript parser `parse_transcript`, which main.py and main1.py carry as identical
    copies: a line-driven loop over the stripped transcript that keeps the open speaker,
    emotion and text and appends dialogue segments to a list. */
module Transcript {
  import opened Strings

  /** One emitted segment, the dict `{"speaker", "emotion", "text"}`. The emotion is the
      loop variable `current_emotion` as it stood, which starts out as `None`. */
  datatype Segment = Segment(speaker: string, emotion: Option<string>, text: string)

  /** The three groups of the line pattern `([AB])\s*\[(.*?)\]:\s*(.*)`. */
  datatype Marker = Marker(speaker: string, emotion: string, text: string)

  /** The loop variables `current_speaker`, `current_emotion` and `current_text`. */
  datatype State = State(speaker: Option<string>, emotion: Option<string>, text: string)

  const Initial := State(None, None, "")

  /** A line holding this token is a section separator. */
  const Separator := "******"

  /** `]:` starts at index `j` of `s`. */
  predicate CloseAt(s: string, j: nat) {
    j + 1 < |s| && s[j] == ']' && s[j + 1] == ':'
  }

  /** The first index at which `]:` starts in `s`, if any. */
  function CloseIndex(s: string): (r: Option<nat>)
    ensures r.Some? ==> r.value + 2 <= |s| && CloseAt(s, r.value)
    ensures r.Some? ==> forall j: nat :: j < r.value ==> !CloseAt(s, j)
    ensures r.None? ==> forall j: nat :: j < |s| ==> !CloseAt(s, j)
  {
    if |s| < 2 then None
    else if CloseAt(s, 0) then Some(0)
    else
      CloseShift(s);
      match CloseIndex(s[1..])
      case None => None
      case Some(k) => Some(k + 1)
  }

  /** Dropping the first character moves every `]:` one place to the left. */
  lemma CloseShift(s: string)
    requires s != []
    ensures forall j: nat :: CloseAt(s[1..], j) <==> CloseAt(s, j + 1)
    ensures forall j: nat :: 1 <= j ==> (CloseAt(s, j) <==> CloseAt(s[1..], j - 1))
  {
    forall j: nat ensures CloseAt(s[1..], j) <==> CloseAt(s, j + 1) {
      if j + 1 < |s[1..]| {
        assert s[1..][j] == s[j + 1] && s[1..][j + 1] == s[j + 2];
      }
    }
  }

  /** A `]:` in a prefix is a `]:` of the whole string. */
  lemma ClosePrefix(s: string, k: nat)
    requires k <= |s|
    ensures forall j: nat :: CloseAt(s[..k], j) ==> CloseAt(s, j)
  {
  }

  /** A string of whitespace only, what `\s*` consumes. */
  predicate AllSpace(w: string) {
    forall i :: 0 <= i < |w| ==> IsSpace(w[i])
  }

  /** The line `S<spaces>[emotion]:<spaces>text`. */
  function MarkerLine(speaker: char, w1: string, emotion: string, w2: string, text: string): string {
    [speaker] + w1 + "[" + emotion + "]:" + w2 + text
  }

  /** `line` is the marker's speaker, whitespace, its emotion in brackets, `:`, whitespace and
      its text. */
  ghost predicate Shaped(line: string, m: Marker) {
    |m.speaker| == 1 &&
    exists w1, w2 :: AllSpace(w1) && AllSpace(w2) && line == MarkerLine(m.speaker[0], w1, m.emotion, w2, m.text)
  }

  /** `re.match(r'([AB])\s*\[(.*?)\]:\s*(.*)', line)` on one line of the transcript: the
      speaker letter, optional whitespace and `[` open the line; the emotion is everything up
      to the first `]:`, and the text is the rest without its leading whitespace. A match
      means the line is exactly the speaker, whitespace, the bracketed emotion, `:`,
      whitespace and the text. */
  function MatchMarker(line: string): (r: Option<Marker>)
    requires '\n' !in line
    ensures r.Some? ==> line != [] && r.value.speaker == [line[0]] && (line[0] == 'A' || line[0] == 'B')
    ensures r.Some? ==> r.value.text == [] || !IsSpace(r.value.text[0])
    ensures r.Some? ==> NoClose(r.value.emotion)
    ensures r.Some? ==> Shaped(line, r.value)
  {
    if line == [] || (line[0] != 'A' && line[0] != 'B') then None
    else
      var rest := LStrip(line[1..]);
      if rest == [] || rest[0] != '[' then None
      else
        var body := rest[1..];
        match CloseIndex(body)
        case None => None
        case Some(k) =>
          ClosePrefix(body, k);
          MatchMarkerSplit(line, rest, k);
          Some(Marker([line[0]], body[..k], LStrip(body[k + 2..])))
  }

  /** `lstrip()` takes off exactly the whitespace it skipped. */
  lemma LStripSplit(s: string)
    ensures AllSpace(s[..|s| - |LStrip(s)|]) && s == s[..|s| - |LStrip(s)|] + LStrip(s)
  {
    LStripSuffix(s);
  }

  /** The pieces the marker pattern cuts a matching line into. */
  lemma MatchMarkerSplit(line: string, rest: string, k: nat)
    requires line != [] && rest == LStrip(line[1..]) && rest != [] && rest[0] == '['
    requires k + 2 <= |rest[1..]| && CloseAt(rest[1..], k)
    ensures Shaped(line, Marker([line[0]], rest[1..][..k], LStrip(rest[1..][k + 2..])))
  {
    var e, tail := rest[1..][..k], rest[1..][k + 2..];
    var t := LStrip(tail);
    var w1 := line[1..][..|line[1..]| - |rest|];
    var w2 := tail[..|tail| - |t|];
    LStripSplit(line[1..]);
    LStripSplit(tail);
    BracketParts(rest, k);
    assert line == [line[0]] + (w1 + ("[" + (e + "]:" + (w2 + t))));
    SplitConcat(line[0], w1, e, w2, t);
    ShapedFrom(line, Marker([line[0]], e, t), w1, w2);
  }

  lemma ShapedFrom(line: string, m: Marker, w1: string, w2: string)
    requires |m.speaker| == 1 && AllSpace(w1) && AllSpace(w2)
    requires line == MarkerLine(m.speaker[0], w1, m.emotion, w2, m.text)
    ensures Shaped(line, m)
  {
  }

  /** A bracket whose `]:` is at `k` is `[`, the emotion, `]:` and the rest. */
  lemma BracketParts(rest: string, k: nat)
    requires rest != [] && rest[0] == '['
    requires k + 2 <= |rest[1..]| && CloseAt(rest[1..], k)
    ensures rest == "[" + (rest[1..][..k] + "]:" + rest[1..][k + 2..])
  {
    var body := rest[1..];
    assert body == body[..k] + "]:" + body[k + 2..];
  }

  /** `MarkerLine` read from the right. */
  lemma SplitConcat(c: char, w1: string, e: string, w2: string, t: string)
    ensures MarkerLine(c, w1, e, w2, t) == [c] + (w1 + ("[" + (e + "]:" + (w2 + t))))
  {
  }

  /** A blank line or one holding the separator token. */
  predicate IsBreak(line: string) {
    line == [] || Contains(line, Separator)
  }

  /** `if current_speaker and current_text`: both are set and non-empty. */
  predicate IsOpen(st: State) {
    st.speaker.Some? && st.speaker.value != [] && st.text != []
  }

  /** The segment the open state is flushed as. */
  function Flush(st: State): Segment
    requires st.speaker.Some?
  {
    Segment(st.speaker.value, st.emotion, Strip(st.text))
  }

  /** One turn of the loop over the lines: the segments it appends and the new state. */
  function Step(st: State, raw: string): (r: (seq<Segment>, State))
    requires '\n' !in raw
    ensures r.0 == [] || (IsOpen(st) && r.0 == [Flush(st)])
    ensures r.0 != [] <==>
              IsOpen(st) && (IsBreak(Strip(raw)) || (StripSubset(raw); MatchMarker(Strip(raw)).Some?))
    ensures r.1.speaker != st.speaker || r.1.emotion != st.emotion ==>
              !IsBreak(Strip(raw)) && (StripSubset(raw); MatchMarker(Strip(raw)).Some?)
  {
    var line := Strip(raw);
    StripSubset(raw);
    if IsBreak(line) then
      if IsOpen(st) then ([Flush(st)], st.(text := "")) else ([], st)
    else
      match MatchMarker(line)
      case Some(m) =>
        (if IsOpen(st) then [Flush(st)] else [], State(Some(m.speaker), Some(m.emotion), m.text))
      case None => ([], st.(text := st.text + " " + line))
  }

  predicate NewlineFree(lines: seq<string>) {
    forall i :: 0 <= i < |lines| ==> '\n' !in lines[i]
  }

  /** The loop run over `lines` from state `st`: everything appended, and the final state. */
  function Run(st: State, lines: seq<string>): (seq<Segment>, State)
    requires NewlineFree(lines)
  {
    if lines == [] then ([], st)
    else
      var (out, mid) := Run(st, lines[..|lines| - 1]);
      var (more, last) := Step(mid, lines[|lines| - 1]);
      (out + more, last)
  }

  /** One more line runs one more step. */
  lemma RunSnoc(st: State, lines: seq<string>, line: string)
    requires NewlineFree(lines) && '\n' !in line
    ensures NewlineFree(lines + [line])
    ensures Run(st, lines + [line]) ==
      (Run(st, lines).0 + Step(Run(st, lines).1, line).0, Step(Run(st, lines).1, line).1)
  {
    assert (lines + [line])[..|lines|] == lines;
  }

  /** Running one line further into `lines` runs one more step. */
  lemma RunPrefix(st: State, lines: seq<string>, i: nat)
    requires NewlineFree(lines) && i < |lines|
    ensures NewlineFree(lines[..i])
    ensures Run(st, lines[..i + 1]) ==
      (Run(st, lines[..i]).0 + Step(Run(st, lines[..i]).1, lines[i]).0, Step(Run(st, lines[..i]).1, lines[i]).1)
  {
    assert lines[..i + 1] == lines[..i] + [lines[i]];
    RunSnoc(st, lines[..i], lines[i]);
  }

  /** The flush after the loop. */
  function Finish(st: State): seq<Segment> {
    if IsOpen(st) then [Flush(st)] else []
  }

  /** `transcript.strip().split('\n')`. */
  function Lines(transcript: string): (r: seq<string>)
    ensures NewlineFree(r)
  {
    SplitLines(Strip(transcript))
  }

  /** What `parse_transcript(transcript)` returns. Every segment in it has speaker `A` or `B`,
      an emotion, and non-empty stripped text. */
  function Parse(transcript: string): (r: seq<Segment>)
    ensures AllWellFormed(r)
  {
    var (out, st) := Run(Initial, Lines(transcript));
    RunInv(Initial, Lines(transcript));
    FinishWellFormed(st);
    out + Finish(st)
  }

  /** A blank or separator line flushes the open segment and clears the text. */
  lemma StepOnBreak(st: State, raw: string)
    requires '\n' !in raw && IsBreak(Strip(raw))
    ensures Step(st, raw) == (if IsOpen(st) then [Flush(st)] else [], if IsOpen(st) then st.(text := "") else st)
  {
  }

  /** A marker line flushes the open segment and opens the marker's. */
  lemma StepOnMarker(st: State, raw: string, m: Marker)
    requires '\n' !in raw && !IsBreak(Strip(raw))
    requires (StripSubset(raw); MatchMarker(Strip(raw))) == Some(m)
    ensures Step(st, raw) == (if IsOpen(st) then [Flush(st)] else [], State(Some(m.speaker), Some(m.emotion), m.text))
  {
  }

  /** Any other line is appended to the text after one space. */
  lemma StepOnText(st: State, raw: string)
    requires '\n' !in raw && !IsBreak(Strip(raw))
    requires (StripSubset(raw); MatchMarker(Strip(raw))).None?
    ensures Step(st, raw) == ([], st.(text := st.text + " " + Strip(raw)))
  {
  }

  /** One turn of `parse_transcript`'s loop on the loop variables `current_speaker`,
      `current_emotion` and `current_text`: the segments it appends and the variables' new
      values. */
  method Turn(speaker: Option<string>, emotion: Option<string>, text: string, raw: string)
    returns (emitted: seq<Segment>, speaker': Option<string>, emotion': Option<string>, text': string)
    requires '\n' !in raw
    ensures (emitted, State(speaker', emotion', text')) == Step(State(speaker, emotion, text), raw)
  {
    ghost var before := State(speaker, emotion, text);
    emitted, speaker', emotion', text' := [], speaker, emotion, text;
    var line := Strip(raw);
    StripSubset(raw);
    if line == [] || Contains(line, Separator) {
      StepOnBreak(before, raw);
      if speaker.Some? && speaker.value != [] && text != [] {
        emitted := [Segment(speaker.value, emotion, Strip(text))];
        text' := "";
      }
      return;
    }
    var m := MatchMarker(line);
    if m.Some? {
      StepOnMarker(before, raw, m.value);
      if speaker.Some? && speaker.value != [] && text != [] {
        emitted := [Segment(speaker.value, emotion, Strip(text))];
      }
      speaker', emotion', text' := Some(m.value.speaker), Some(m.value.emotion), m.value.text;
    } else {
      StepOnText(before, raw);
      text' := text + " " + line;
    }
  }

  /** `parse_transcript` as the loop it is. */
  method ParseTranscript(transcript: string) returns (segments: seq<Segment>)
    ensures segments == Parse(transcript)
  {
    var lines := Lines(transcript);
    segments := [];
    var currentSpeaker: Option<string> := None;
    var currentEmotion: Option<string> := None;
    var currentText := "";
    for i := 0 to |lines|
      invariant segments == Run(Initial, lines[..i]).0
      invariant State(currentSpeaker, currentEmotion, currentText) == Run(Initial, lines[..i]).1
    {
      RunPrefix(Initial, lines, i);
      var emitted;
      emitted, currentSpeaker, currentEmotion, currentText :=
        Turn(currentSpeaker, currentEmotion, currentText, lines[i]);
      segments := segments + emitted;
    }
    assert lines[..|lines|] == lines;
    if currentSpeaker.Some? && currentSpeaker.value != [] && currentText != [] {
      segments := segments + [Segment(currentSpeaker.value, currentEmotion, Strip(currentText))];
    }
  }

  /** An emitted segment: speaker `A` or `B`, an emotion that is set, and text that is
      non-empty with no surrounding whitespace. */
  predicate WellFormed(seg: Segment) {
    (seg.speaker == "A" || seg.speaker == "B") && seg.emotion.Some? && seg.text != [] && IsStripped(seg.text)
  }

  predicate AllWellFormed(segs: seq<Segment>) {
    forall i :: 0 <= i < |segs| ==> WellFormed(segs[i])
  }

  /** What the loop keeps true of its variables: a set speaker is `A` or `B` and comes with an
      emotion, and the accumulated text is empty or holds a non-space character. */
  predicate StateInv(st: State) {
    (st.speaker.Some? ==> (st.speaker.value == "A" || st.speaker.value == "B") && st.emotion.Some?)
    && (st.text == [] || HasNonSpace(st.text))
  }

  /** A flushed state gives a well-formed segment. */
  lemma FlushWellFormed(st: State)
    requires StateInv(st) && IsOpen(st)
    ensures WellFormed(Flush(st))
  {
    StripFacts(st.text);
  }

  /** The segment flushed at the end, if any, is well-formed. */
  lemma FinishWellFormed(st: State)
    requires StateInv(st)
    ensures AllWellFormed(Finish(st))
  {
    if IsOpen(st) {
      FlushWellFormed(st);
    }
  }

  /** One step keeps the invariant and emits only well-formed segments. */
  lemma StepInv(st: State, raw: string)
    requires '\n' !in raw && StateInv(st)
    ensures StateInv(Step(st, raw).1) && AllWellFormed(Step(st, raw).0)
  {
    var line := Strip(raw);
    StripFacts(raw);
    StripSubset(raw);
    if IsOpen(st) {
      FlushWellFormed(st);
    }
    if !IsBreak(line) {
      match MatchMarker(line)
      case Some(m) =>
        if m.text != [] {
          assert !IsSpace(m.text[0]);
        }
      case None =>
        var t := st.text + " " + line;
        assert t[|st.text| + 1] == line[0];
    }
  }

  /** The loop keeps the invariant and emits only well-formed segments, from any state that
      satisfies it. */
  lemma {:induction false} RunInv(st: State, lines: seq<string>)
    requires NewlineFree(lines) && StateInv(st)
    ensures StateInv(Run(st, lines).1) && AllWellFormed(Run(st, lines).0)
  {
    if lines != [] {
      var front := lines[..|lines| - 1];
      RunInv(st, front);
      StepInv(Run(st, front).1, lines[|lines| - 1]);
    }
  }

  lemma AppendAssoc<T>(x: seq<T>, y: seq<T>, z: seq<T>)
    ensures (x + y) + z == x + (y + z)
  {
  }

  /** The segment list is only ever appended to: running two stretches of lines emits what
      the first emits followed by what the second emits from where the first stopped. */
  lemma {:induction false} RunAppend(st: State, a: seq<string>, b: seq<string>)
    requires NewlineFree(a) && NewlineFree(b)
    ensures NewlineFree(a + b)
    ensures Run(st, a + b).0 == Run(st, a).0 + Run(Run(st, a).1, b).0
    ensures Run(st, a + b).1 == Run(Run(st, a).1, b).1
  {
    if b == [] {
      assert a + b == a;
    } else {
      var front, last := b[..|b| - 1], b[|b| - 1];
      assert b == front + [last];
      assert a + b == (a + front) + [last];
      var mid := Run(st, a).1;
      RunAppend(st, a, front);
      RunSnoc(st, a + front, last);
      RunSnoc(mid, front, last);
      var more := Step(Run(mid, front).1, last).0;
      AppendAssoc(Run(st, a).0, Run(mid, front).0, more);
    }
  }

  /** A transcript with no non-whitespace character parses to no segments. */
  lemma ParseBlank(transcript: string)
    requires !HasNonSpace(transcript)
    ensures Parse(transcript) == []
  {
    StripFacts(transcript);
    var lines := Lines(transcript);
    assert lines == [""];
    assert Step(Initial, "") == ([], Initial) by {
      StripStripped("");
      assert IsBreak("");
    }
    RunSnoc(Initial, [], "");
    assert [] + [""] == lines;
  }

  /** No line of `lines` opens a segment. */
  predicate NoMarker(lines: seq<string>)
    requires NewlineFree(lines)
  {
    forall i :: 0 <= i < |lines| ==> (StripSubset(lines[i]); MatchMarker(Strip(lines[i])).None?)
  }

  /** Lines that open no segment leave the speaker unset, so they emit nothing. */
  lemma {:induction false} RunNoMarker(lines: seq<string>)
    requires NewlineFree(lines) && NoMarker(lines)
    ensures Run(Initial, lines).0 == [] && Run(Initial, lines).1.speaker.None?
  {
    if lines != [] {
      var front := lines[..|lines| - 1];
      assert NoMarker(front) by {
        forall i | 0 <= i < |front|
          ensures (StripSubset(front[i]); MatchMarker(Strip(front[i])).None?)
        {
          assert front[i] == lines[i];
        }
      }
      RunNoMarker(front);
      StripSubset(lines[|lines| - 1]);
      assert MatchMarker(Strip(lines[|lines| - 1])).None?;
    }
  }

  /** A transcript none of whose lines matches the marker pattern parses to no segments.
      (`RunDropsLeading` shows that text before the first marker is dropped when markers do
      follow.) */
  lemma ParseNoMarker(transcript: string)
    requires NoMarker(Lines(transcript))
    ensures Parse(transcript) == []
  {
    RunNoMarker(Lines(transcript));
  }

  /** Lines that open with a marker line run the same from any state without a speaker. */
  lemma RunFromMarker(st: State, rest: seq<string>)
    requires st.speaker.None? && NewlineFree(rest)
    requires rest != [] && !IsBreak(Strip(rest[0]))
    requires (StripSubset(rest[0]); MatchMarker(Strip(rest[0]))).Some?
    ensures Run(st, rest) == Run(Initial, rest)
  {
    var first, more := [rest[0]], rest[1..];
    assert rest == first + more;
    RunAppend(st, first, more);
    RunAppend(Initial, first, more);
    StripSubset(rest[0]);
    var m := MatchMarker(Strip(rest[0])).value;
    StepOnMarker(st, rest[0], m);
    StepOnMarker(Initial, rest[0], m);
    var none: seq<string> := [];
    assert none + first == first;
    RunSnoc(st, none, rest[0]);
    RunSnoc(Initial, none, rest[0]);
    assert Run(st, first) == Run(Initial, first);
  }

  /** Lines before the first marker are lost even when markers follow: running lines none of
      which is a marker, then lines that open with a marker line, emits and leaves exactly
      what the second stretch does on its own. */
  lemma RunDropsLeading(pre: seq<string>, rest: seq<string>)
    requires NewlineFree(pre) && NoMarker(pre) && NewlineFree(rest)
    requires rest != [] && !IsBreak(Strip(rest[0]))
    requires (StripSubset(rest[0]); MatchMarker(Strip(rest[0]))).Some?
    ensures NewlineFree(pre + rest)
    ensures Run(Initial, pre + rest) == Run(Initial, rest)
  {
    RunNoMarker(pre);
    RunAppend(Initial, pre, rest);
    var st := Run(Initial, pre).1;
    RunFromMarker(st, rest);
    var whole := Run(Initial, pre + rest);
    assert whole.0 == [] + Run(Initial, rest).0 == Run(Initial, rest).0;
    assert whole.1 == Run(Initial, rest).1;
  }

  /** After a separator the speaker and emotion stay, so a following plain line starts fresh
      text under them, which the next flush emits as a new segment. */
  lemma ContinuationAfterBreak(st: State, sep: string, raw: string)
    requires '\n' !in sep && '\n' !in raw
    requires st.speaker.Some? && st.speaker.value != []
    requires IsBreak(Strip(sep))
    requires !IsBreak(Strip(raw)) && (StripSubset(raw); MatchMarker(Strip(raw)).None?)
    ensures Step(Step(st, sep).1, raw).0 == []
    ensures Step(Step(st, sep).1, raw).1 == State(st.speaker, st.emotion, " " + Strip(raw))
  {
  }

  /** `s` holds no `]:` pair. */
  predicate NoClose(s: string) {
    forall j: nat :: j < |s| ==> !CloseAt(s, j)
  }

  /** `]:` right after a prefix without one is the first `]:`. */
  lemma {:induction false} CloseIndexAt(e: string, tail: string)
    requires NoClose(e)
    ensures CloseIndex(e + "]:" + tail) == Some(|e|)
  {
    var s := e + "]:" + tail;
    if e != [] {
      assert s[1..] == e[1..] + "]:" + tail;
      assert !CloseAt(s, 0) by {
        assert !CloseAt(e, 0);
        if |e| == 1 {
          assert s[1] == ']';
        } else {
          assert s[0] == e[0] && s[1] == e[1];
        }
      }
      assert NoClose(e[1..]) by {
        CloseShift(e);
      }
      CloseIndexAt(e[1..], tail);
    }
  }

  /** One line of dialogue as the transcript writes it: `A [emotion]: text`. */
  datatype Utterance = Utterance(speaker: char, emotion: string, text: string)

  /** An utterance whose rendered line parses back to it: the speaker is `A` or `B`, the
      emotion holds no `]:` and the text is non-empty and stripped, neither holds a newline
      and neither holds the separator token. */
  predicate Renderable(u: Utterance) {
    (u.speaker == 'A' || u.speaker == 'B')
    && NoClose(u.emotion) && '\n' !in u.emotion && !Contains(u.emotion, Separator)
    && u.text != [] && IsStripped(u.text) && '\n' !in u.text && !Contains(u.text, Separator)
  }

  function RenderLine(u: Utterance): string {
    [u.speaker] + " [" + u.emotion + "]: " + u.text
  }

  function RenderAll(us: seq<Utterance>): (r: seq<string>)
    ensures |r| == |us|
  {
    if us == [] then [] else RenderAll(us[..|us| - 1]) + [RenderLine(us[|us| - 1])]
  }

  /** The segment an utterance stands for. */
  function AsSegment(u: Utterance): Segment {
    Segment([u.speaker], Some(u.emotion), u.text)
  }

  function AsSegments(us: seq<Utterance>): seq<Segment> {
    if us == [] then [] else AsSegments(us[..|us| - 1]) + [AsSegment(us[|us| - 1])]
  }

  /** A string shorter than the pattern does not hold it. */
  lemma TooShort(s: string, pat: string)
    requires |s| < |pat|
    ensures !Contains(s, pat)
  {
  }

  /** The separator token does not occur in a rendered line. */
  lemma RenderNoSeparator(u: Utterance)
    requires Renderable(u)
    ensures !Contains(RenderLine(u), Separator)
  {
    var close := u.emotion + [']'] + [':'];
    var head := [u.speaker, ' '] + ['['] + close;
    assert RenderLine(u) == head + [' '] + u.text;
    TooShort([':'], Separator);
    if Contains(close, Separator) {
      ContainsAround(u.emotion, ']', [':'], Separator);
    }
    TooShort([u.speaker, ' '], Separator);
    if Contains(head, Separator) {
      ContainsAround([u.speaker, ' '], '[', close, Separator);
    }
    if Contains(RenderLine(u), Separator) {
      ContainsAround(head, ' ', u.text, Separator);
    }
  }

  /** One space in front of a string that does not start with whitespace is all that
      `lstrip()` drops. */
  lemma LStripOneSpace(x: string)
    requires x == [] || !IsSpace(x[0])
    ensures LStrip(" " + x) == x
  {
    assert (" " + x)[1..] == x;
  }

  /** A rendered line holds no newline when its parts hold none. */
  lemma RenderNewlineFree(u: Utterance)
    requires '\n' !in u.emotion && '\n' !in u.text && u.speaker != '\n'
    ensures '\n' !in RenderLine(u)
  {
  }

  /** The marker pattern on a line whose pieces are known. */
  lemma MatchMarkerShape(line: string, rest: string, k: nat)
    requires '\n' !in line
    requires line != [] && (line[0] == 'A' || line[0] == 'B')
    requires LStrip(line[1..]) == rest && rest != [] && rest[0] == '['
    requires CloseIndex(rest[1..]) == Some(k)
    ensures MatchMarker(line) == Some(Marker([line[0]], rest[1..][..k], LStrip(rest[1..][k + 2..])))
  {
  }

  /** The marker pattern matches a rendered line with the utterance's own speaker, emotion
      and text. */
  lemma RenderMatch(u: Utterance)
    requires u.speaker == 'A' || u.speaker == 'B'
    requires NoClose(u.emotion) && '\n' !in u.emotion && '\n' !in u.text
    requires u.text == [] || !IsSpace(u.text[0])
    ensures '\n' !in RenderLine(u)
    ensures MatchMarker(RenderLine(u)) == Some(Marker([u.speaker], u.emotion, u.text))
  {
    RenderNewlineFree(u);
    var line := RenderLine(u);
    var tail := " " + u.text;
    var body := u.emotion + "]:" + tail;
    var rest := "[" + body;
    assert line[0] == u.speaker && line[1..] == " " + rest;
    assert LStrip(line[1..]) == rest by {
      LStripOneSpace(rest);
    }
    assert rest[1..] == body;
    assert CloseIndex(body) == Some(|u.emotion|) by {
      CloseIndexAt(u.emotion, tail);
    }
    assert body[..|u.emotion|] == u.emotion && body[|u.emotion| + 2..] == tail;
    assert LStrip(tail) == u.text by {
      LStripOneSpace(u.text);
    }
    MatchMarkerShape(line, rest, |u.emotion|);
  }

  /** `lstrip()` takes off a whitespace prefix when what follows does not start with
      whitespace. */
  lemma {:induction false} LStripSpaces(w: string, x: string)
    requires AllSpace(w) && (x == [] || !IsSpace(x[0]))
    ensures LStrip(w + x) == x
  {
    if w == [] {
      assert w + x == x;
    } else {
      assert (w + x)[1..] == w[1..] + x;
      LStripSpaces(w[1..], x);
    }
  }

  /** The marker pattern on any line of its shape: whatever whitespace stands after the
      speaker and after `]:`, the match gives back that speaker, the bracketed emotion up to
      its first `]:`, and the text. */
  lemma MatchMarkerLine(c: char, w1: string, e: string, w2: string, t: string)
    requires c == 'A' || c == 'B'
    requires AllSpace(w1) && AllSpace(w2) && NoClose(e) && (t == [] || !IsSpace(t[0]))
    requires '\n' !in MarkerLine(c, w1, e, w2, t)
    ensures MatchMarker(MarkerLine(c, w1, e, w2, t)) == Some(Marker([c], e, t))
  {
    var line := MarkerLine(c, w1, e, w2, t);
    var tail := w2 + t;
    var body := e + "]:" + tail;
    var rest := "[" + body;
    SplitConcat(c, w1, e, w2, t);
    assert line[1..] == w1 + rest;
    LStripSpaces(w1, rest);
    LStripSpaces(w2, t);
    CloseIndexAt(e, tail);
    assert body[..|e|] == e && body[|e| + 2..] == tail;
    MatchMarkerShape(line, rest, |e|);
  }

  /** A rendered line is non-empty and stripped. */
  lemma RenderStripped(u: Utterance)
    requires Renderable(u)
    ensures RenderLine(u) != [] && IsStripped(RenderLine(u))
  {
    var line := RenderLine(u);
    assert line[0] == u.speaker;
    assert line[|line| - 1] == u.text[|u.text| - 1];
  }

  /** The state a rendered line leaves behind. */
  function Opened(u: Utterance): State {
    State(Some([u.speaker]), Some(u.emotion), u.text)
  }

  /** A rendered line flushes whatever is open and opens its own utterance. */
  lemma StepRendered(st: State, u: Utterance)
    requires Renderable(u)
    ensures '\n' !in RenderLine(u)
    ensures Step(st, RenderLine(u)) == (if IsOpen(st) then [Flush(st)] else [], Opened(u))
  {
    RenderMatch(u);
    RenderStripped(u);
    RenderNoSeparator(u);
    StripStripped(RenderLine(u));
  }

  /** A single rendered line emits nothing and leaves its utterance open. */
  lemma RunOne(u: Utterance)
    requires Renderable(u)
    ensures NewlineFree([RenderLine(u)])
    ensures Run(Initial, [RenderLine(u)]).0 == []
    ensures Run(Initial, [RenderLine(u)]).1 == Opened(u)
  {
    StepRendered(Initial, u);
    RunSnoc(Initial, [], RenderLine(u));
    assert [] + [RenderLine(u)] == [RenderLine(u)];
    assert Run(Initial, []) == ([], Initial);
    assert !IsOpen(Initial);
    assert Step(Initial, RenderLine(u)).0 == [];
  }

  /** A rendered line after lines that left `prev` open emits `prev` and opens its own
      utterance. */
  lemma RunRenderedSnoc(lines: seq<string>, prev: Utterance, u: Utterance)
    requires NewlineFree(lines) && Renderable(prev) && Renderable(u)
    requires Run(Initial, lines).1 == Opened(prev)
    ensures NewlineFree(lines + [RenderLine(u)])
    ensures Run(Initial, lines + [RenderLine(u)]).0 == Run(Initial, lines).0 + [AsSegment(prev)]
    ensures Run(Initial, lines + [RenderLine(u)]).1 == Opened(u)
  {
    RenderNewlineFree(u);
    RunSnoc(Initial, lines, RenderLine(u));
    StepRendered(Opened(prev), u);
    StripStripped(prev.text);
    assert Flush(Opened(prev)) == AsSegment(prev);
  }

  /** Running the rendered lines emits every utterance but the last and leaves the last one
      open. */
  lemma {:induction false} RunRendered(us: seq<Utterance>)
    requires us != [] && forall i :: 0 <= i < |us| ==> Renderable(us[i])
    ensures NewlineFree(RenderAll(us))
    ensures Run(Initial, RenderAll(us)).0 == AsSegments(us[..|us| - 1])
    ensures Run(Initial, RenderAll(us)).1 == Opened(us[|us| - 1])
  {
    var n := |us|;
    var u := us[n - 1];
    var front := us[..n - 1];
    if n == 1 {
      assert RenderAll(front) == [];
      assert RenderAll(us) == [RenderLine(u)];
      RunOne(u);
    } else {
      RunRendered(front);
      assert front[..n - 2] == us[..n - 2] && front[n - 2] == us[n - 2];
      RunRenderedSnoc(RenderAll(front), us[n - 2], u);
    }
  }

  /** The rendered lines are the utterances' lines, one for one. */
  lemma {:induction false} RenderAllIndex(us: seq<Utterance>, i: nat)
    requires i < |us|
    ensures RenderAll(us)[i] == RenderLine(us[i])
  {
    if i < |us| - 1 {
      RenderAllIndex(us[..|us| - 1], i);
    }
  }

  /** Newline-free, non-empty lines that start and end the whole text on a non-space
      character come back out of `Lines` as they went in. */
  lemma JoinedLines(lines: seq<string>)
    requires lines != [] && forall i :: 0 <= i < |lines| ==> lines[i] != [] && '\n' !in lines[i]
    requires !IsSpace(lines[0][0]) && !IsSpace(lines[|lines| - 1][|lines[|lines| - 1]| - 1])
    ensures Lines(JoinWith(lines, "\n")) == lines
  {
    var t := JoinWith(lines, "\n");
    JoinWithEnds(lines, "\n");
    StripStripped(t);
    SplitJoinLines(lines);
  }

  /** Every rendered line is non-empty and free of newlines. */
  lemma RenderAllLines(us: seq<Utterance>)
    requires forall i :: 0 <= i < |us| ==> Renderable(us[i])
    ensures forall i :: 0 <= i < |RenderAll(us)| ==> RenderAll(us)[i] != [] && '\n' !in RenderAll(us)[i]
  {
    forall i | 0 <= i < |us| ensures RenderAll(us)[i] != [] && '\n' !in RenderAll(us)[i] {
      RenderAllIndex(us, i);
      RenderStripped(us[i]);
      RenderNewlineFree(us[i]);
    }
  }

  /** The rendered lines start and end on a non-space character. */
  lemma RenderAllEnds(us: seq<Utterance>)
    requires us != [] && forall i :: 0 <= i < |us| ==> Renderable(us[i])
    ensures RenderAll(us)[0] != [] && !IsSpace(RenderAll(us)[0][0])
    ensures var last := RenderAll(us)[|us| - 1]; last != [] && !IsSpace(last[|last| - 1])
  {
    RenderAllIndex(us, 0);
    RenderStripped(us[0]);
    RenderAllIndex(us, |us| - 1);
    RenderStripped(us[|us| - 1]);
  }

  /** The rendered transcript is stripped, so its lines are the rendered lines. */
  lemma RenderedLines(us: seq<Utterance>)
    requires us != [] && forall i :: 0 <= i < |us| ==> Renderable(us[i])
    ensures Lines(JoinWith(RenderAll(us), "\n")) == RenderAll(us)
  {
    RenderAllLines(us);
    RenderAllEnds(us);
    JoinedLines(RenderAll(us));
  }

  /** `Parse` in terms of the lines it runs over. */
  lemma ParseOf(transcript: string, lines: seq<string>)
    requires Lines(transcript) == lines
    ensures NewlineFree(lines)
    ensures Parse(transcript) == Run(Initial, lines).0 + Finish(Run(Initial, lines).1)
  {
  }

  /** A transcript whose lines are rendered lines parses to their utterances. */
  lemma ParseRenderedLines(transcript: string, us: seq<Utterance>)
    requires us != [] && forall i :: 0 <= i < |us| ==> Renderable(us[i])
    requires Lines(transcript) == RenderAll(us)
    ensures Parse(transcript) == AsSegments(us)
  {
    var last := us[|us| - 1];
    ParseOf(transcript, RenderAll(us));
    RunRendered(us);
    StripStripped(last.text);
    assert Finish(Opened(last)) == [AsSegment(last)];
  }

  /** Writing utterances out as transcript lines, one per line, and parsing the result gives
      back exactly those utterances, in order. */
  lemma ParseRender(us: seq<Utterance>)
    requires forall i :: 0 <= i < |us| ==> Renderable(us[i])
    ensures Parse(JoinWith(RenderAll(us), "\n")) == AsSegments(us)
  {
    var t := JoinWith(RenderAll(us), "\n");
    if us == [] {
      ParseBlank(t);
    } else {
      RenderedLines(us);
      ParseRenderedLines(t, us);
    }
  }

  /** A plain stripped line that is neither a break nor a marker is appended to the open
      text after one space. */
  lemma StepPlain(st: State, line: string)
    requires '\n' !in line && line != [] && IsStripped(line) && !Contains(line, Separator)
    requires MatchMarker(line).None?
    ensures Step(st, line) == ([], st.(text := st.text + " " + line))
  {
    StripStripped(line);
  }

  /** A blank line flushes the open segment and clears its text; a state that is not open
      is left as it is. */
  lemma StepBlank(st: State)
    ensures Step(st, "") == if IsOpen(st) then ([Flush(st)], st.(text := "")) else ([], st)
  {
    assert Strip("") == "";
  }

  /** A line that is stripped, non-empty, free of newlines and the separator token, and does
      not match the marker pattern: a continuation line. */
  predicate Plain(x: string) {
    '\n' !in x && x != [] && IsStripped(x) && !Contains(x, Separator) && MatchMarker(x).None?
  }

  /** Two lines joined by a newline come back out of `Lines` when the first starts and the
      second ends on a non-space character. */
  lemma TwoLines(a: string, b: string)
    requires a != [] && b != [] && '\n' !in a && '\n' !in b
    requires !IsSpace(a[0]) && !IsSpace(b[|b| - 1])
    ensures Lines(a + "\n" + b) == [a, b]
  {
    assert [a, b][1..] == [b];
    JoinedLines([a, b]);
  }

  lemma ContinuedRun(u: Utterance, x: string)
    requires Renderable(u) && Plain(x)
    ensures NewlineFree([RenderLine(u), x])
    ensures Run(Initial, [RenderLine(u), x]).0 == []
    ensures Run(Initial, [RenderLine(u), x]).1 == State(Some([u.speaker]), Some(u.emotion), u.text + " " + x)
  {
    var line := RenderLine(u);
    RunOne(u);
    RunSnoc(Initial, [line], x);
    StepPlain(Opened(u), x);
    assert [line] + [x] == [line, x];
  }

  /** A marker line followed by a continuation line gives one segment whose text is the
      marker's text, one space and the continuation. */
  lemma ParseContinued(u: Utterance, x: string)
    requires Renderable(u) && Plain(x)
    ensures Parse(RenderLine(u) + "\n" + x) == [Segment([u.speaker], Some(u.emotion), u.text + " " + x)]
  {
    var t := RenderLine(u) + "\n" + x;
    RenderStripped(u);
    RenderNewlineFree(u);
    TwoLines(RenderLine(u), x);
    ParseOf(t, [RenderLine(u), x]);
    ContinuedRun(u, x);
    var joined := u.text + " " + x;
    assert joined[0] == u.text[0] && joined[|joined| - 1] == x[|x| - 1];
    StripStripped(joined);
  }

  /** A line split by a blank line: the lines come back with the empty one between them. */
  lemma BlankSeparatedLines(a: string, b: string)
    requires a != [] && b != [] && '\n' !in a && '\n' !in b
    requires !IsSpace(a[0]) && !IsSpace(b[|b| - 1])
    ensures Lines(a + "\n\n" + b) == [a, "", b]
  {
    var lines := [a, "", b];
    var t := a + "\n\n" + b;
    assert lines[1..] == ["", b] && lines[1..][1..] == [b];
    assert JoinWith(["", b], "\n") == "" + "\n" + b;
    assert JoinWith(lines, "\n") == a + "\n" + ("" + "\n" + b);
    assert a + "\n" + ("" + "\n" + b) == t;
    assert t[0] == a[0] && t[|t| - 1] == b[|b| - 1];
    StripStripped(t);
    SplitJoinLines(lines);
  }

  lemma BlankSeparatedRun(u: Utterance, x: string)
    requires Renderable(u) && Plain(x)
    ensures NewlineFree([RenderLine(u), "", x])
    ensures Run(Initial, [RenderLine(u), "", x]).0 == [AsSegment(u)]
    ensures Run(Initial, [RenderLine(u), "", x]).1 == State(Some([u.speaker]), Some(u.emotion), " " + x)
  {
    var line := RenderLine(u);
    RunOne(u);
    RunSnoc(Initial, [line], "");
    StepBlank(Opened(u));
    StripStripped(u.text);
    assert Flush(Opened(u)) == AsSegment(u);
    assert [line] + [""] == [line, ""];
    RunSnoc(Initial, [line, ""], x);
    StepPlain(Opened(u).(text := ""), x);
    assert [line, ""] + [x] == [line, "", x];
  }

  /** A blank line inside one speaker's turn splits it into two segments with the same
      speaker and emotion. */
  lemma ParseBlankSplit(u: Utterance, x: string)
    requires Renderable(u) && Plain(x)
    ensures Parse(RenderLine(u) + "\n\n" + x) ==
      [AsSegment(u), Segment([u.speaker], Some(u.emotion), x)]
  {
    var t := RenderLine(u) + "\n\n" + x;
    RenderStripped(u);
    RenderNewlineFree(u);
    BlankSeparatedLines(RenderLine(u), x);
    ParseOf(t, [RenderLine(u), "", x]);
    BlankSeparatedRun(u, x);
    LStripOneSpace(x);
    assert Strip(" " + x) == x;
  }

  /** A marker line with nothing after `]:`. */
  function BareLine(speaker: char, emotion: string): string {
    [speaker] + " [" + emotion + "]:"
  }

  /** A bare marker line is stripped and holds no separator token. */
  lemma BareNoSeparator(speaker: char, emotion: string)
    requires speaker == 'A' || speaker == 'B'
    requires NoClose(emotion) && !Contains(emotion, Separator)
    ensures IsStripped(BareLine(speaker, emotion)) && !Contains(BareLine(speaker, emotion), Separator)
  {
    var line := BareLine(speaker, emotion);
    var close := emotion + [']'] + [':'];
    assert line == [speaker, ' '] + ['['] + close;
    assert line[0] == speaker && line[|line| - 1] == ':';
    TooShort([':'], Separator);
    if Contains(close, Separator) {
      ContainsAround(emotion, ']', [':'], Separator);
    }
    TooShort([speaker, ' '], Separator);
    if Contains(line, Separator) {
      ContainsAround([speaker, ' '], '[', close, Separator);
    }
  }

  /** The marker pattern matches a bare marker line with its speaker, its emotion and empty
      text. */
  lemma BareMatch(speaker: char, emotion: string)
    requires speaker == 'A' || speaker == 'B'
    requires NoClose(emotion) && '\n' !in emotion
    ensures '\n' !in BareLine(speaker, emotion)
    ensures MatchMarker(BareLine(speaker, emotion)) == Some(Marker([speaker], emotion, ""))
  {
    var line := BareLine(speaker, emotion);
    var rest := "[" + emotion + "]:";
    assert line == [speaker] + " " + rest;
    assert line[1..] == " " + rest;
    LStripOneSpace(rest);
    assert rest[1..] == emotion + "]:" + "";
    CloseIndexAt(emotion, "");
    MatchMarkerShape(line, rest, |emotion|);
    assert rest[1..][..|emotion|] == emotion && rest[1..][|emotion| + 2..] == "";
  }

  /** A bare marker line flushes whatever is open and opens a turn with empty text. */
  lemma StepBare(st: State, speaker: char, emotion: string)
    requires speaker == 'A' || speaker == 'B'
    requires NoClose(emotion) && '\n' !in emotion && !Contains(emotion, Separator)
    ensures '\n' !in BareLine(speaker, emotion)
    ensures Step(st, BareLine(speaker, emotion)) ==
      (if IsOpen(st) then [Flush(st)] else [], State(Some([speaker]), Some(emotion), ""))
  {
    BareNoSeparator(speaker, emotion);
    BareMatch(speaker, emotion);
    StripStripped(BareLine(speaker, emotion));
  }

  /** Running a bare marker line and then a rendered line emits nothing and leaves the
      rendered utterance open. */
  lemma RunBareThen(speaker: char, emotion: string, u: Utterance)
    requires speaker == 'A' || speaker == 'B'
    requires NoClose(emotion) && '\n' !in emotion && !Contains(emotion, Separator)
    requires Renderable(u)
    ensures NewlineFree([BareLine(speaker, emotion), RenderLine(u)])
    ensures Run(Initial, [BareLine(speaker, emotion), RenderLine(u)]) == ([], Opened(u))
  {
    var bare, line := BareLine(speaker, emotion), RenderLine(u);
    var bareTurn := State(Some([speaker]), Some(emotion), "");
    StepBare(Initial, speaker, emotion);
    StepRendered(bareTurn, u);
    var none: seq<string> := [];
    assert Run(Initial, none) == ([], Initial);
    RunSnoc(Initial, none, bare);
    assert none + [bare] == [bare];
    assert Run(Initial, [bare]).0 == [] && Run(Initial, [bare]).1 == bareTurn;
    RunSnoc(Initial, [bare], line);
    assert [bare] + [line] == [bare, line];
  }

  /** A bare marker line directly followed by a marker line: the bare turn has no text when
      the second marker flushes, so only the second utterance is emitted. */
  lemma ParseBareTurn(speaker: char, emotion: string, u: Utterance)
    requires speaker == 'A' || speaker == 'B'
    requires NoClose(emotion) && '\n' !in emotion && !Contains(emotion, Separator)
    requires Renderable(u)
    ensures Parse(BareLine(speaker, emotion) + "\n" + RenderLine(u)) == [AsSegment(u)]
  {
    var bare, line := BareLine(speaker, emotion), RenderLine(u);
    var t := bare + "\n" + line;
    StepBare(Initial, speaker, emotion);
    RenderStripped(u);
    RenderNewlineFree(u);
    TwoLines(bare, line);
    ParseOf(t, [bare, line]);
    RunBareThen(speaker, emotion, u);
    StripStripped(u.text);
    assert Finish(Opened(u)) == [AsSegment(u)];
  }
}
