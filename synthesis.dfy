/** The text-to-speech side of the two podcast scripts: how `generate_audio_segment` picks a
    voice and a stability profile for one segment, and how `generate_full_podcast` turns the
    segment list into clips and joins them. The speech service itself is a parameter. */
module Synthesis {
  import opened Strings
  import opened Transcript

  /** The two configured voice names. */
  const VoiceA := "Adam"
  const VoiceB := "Rachel"

  /** Emotions that lower the stability, and emotions that raise it. */
  const Excited: seq<string> := ["兴奋", "激动", "热情"]
  const Calm: seq<string> := ["平静", "思考", "严肃"]

  /** The fixed `similarity_boost`. */
  const Similarity: real := 0.5

  /** Which of the two scripts: main.py tests the speaker against `A`, main1.py against
      `SPEAKER_1`. */
  datatype Script = MainScript | Main1Script

  /** The arguments handed to the speech service for one segment. */
  datatype Request = Request(text: string, voice: string, stability: real, similarity: real)

  /** The speaker label that selects the first voice. */
  function FirstSpeaker(script: Script): string {
    match script
    case MainScript => "A"
    case Main1Script => "SPEAKER_1"
  }

  /** The voice for a speaker: the first voice exactly for the script's first speaker, the
      second for everyone else. */
  function Voice(script: Script, speaker: string): (r: string)
    ensures r == VoiceA <==> speaker == FirstSpeaker(script)
    ensures r == VoiceB <==> speaker != FirstSpeaker(script)
  {
    assert VoiceA != VoiceB by { assert VoiceA[0] != VoiceB[0]; }
    if speaker == FirstSpeaker(script) then VoiceA else VoiceB
  }

  /** `emotion.lower()` looked up in the two keyword lists, with 0.5 when it is in neither: the
      three-way profile is 0.3 for an excited emotion, 0.7 for a calm one and 0.5 for any
      other, the two lists sharing no keyword. */
  function Stability(emotion: string): (r: real)
    ensures r == 0.3 <==> emotion in Excited
    ensures r == 0.7 <==> emotion in Calm
    ensures r == 0.5 <==> emotion !in Excited && emotion !in Calm
  {
    LowerInKeywords(emotion, Excited);
    LowerInKeywords(emotion, Calm);
    var e := Lower(emotion);
    if e in Excited then 0.3 else if e in Calm then 0.7 else 0.5
  }

  /** The request for one segment: its text, the fixed similarity, the voice chosen by its
      speaker and the stability chosen by its emotion. The source calls `.lower()` on the
      emotion, which fails when the emotion is `None`, so an emotion is required. */
  function RequestFor(script: Script, seg: Segment): (r: Request)
    requires seg.emotion.Some?
    ensures r.text == seg.text
    ensures r.similarity == 0.5
    ensures r.voice == Voice(script, seg.speaker)
    ensures r.voice == VoiceA <==> seg.speaker == FirstSpeaker(script)
    ensures r.stability == Stability(seg.emotion.value)
    ensures r.stability == 0.3 <==> seg.emotion.value in Excited
    ensures r.stability == 0.7 <==> seg.emotion.value in Calm
    ensures r.stability in {0.3, 0.5, 0.7}
    ensures r.voice in {VoiceA, VoiceB}
  {
    Request(seg.text, Voice(script, seg.speaker), Stability(seg.emotion.value), Similarity)
  }

  /** In main.py the first voice goes exactly to speaker `A`. */
  lemma VoiceMain(speaker: string)
    ensures Voice(MainScript, speaker) == VoiceA <==> speaker == "A"
    ensures Voice(MainScript, speaker) == VoiceB <==> speaker != "A"
  {
  }

  /** In main1.py the first voice goes exactly to speaker `SPEAKER_1`. */
  lemma VoiceMain1(speaker: string)
    ensures Voice(Main1Script, speaker) == VoiceA <==> speaker == "SPEAKER_1"
  {
  }

  /** The parser only emits speakers `A` and `B`, so under main1.py every segment of every
      parsed transcript is spoken with the second voice. */
  lemma Main1AlwaysSecondVoice(transcript: string, i: nat)
    requires i < |Parse(transcript)|
    ensures Voice(Main1Script, Parse(transcript)[i].speaker) == VoiceB
  {
    var s := Parse(transcript)[i].speaker;
    assert s == "A" || s == "B";
    assert s != "SPEAKER_1" by { assert |s| != |"SPEAKER_1"|; }
  }

  /** Every keyword is free of ASCII letters, so lower-casing matches it only when the emotion
      is that very keyword. */
  lemma LowerInKeywords(emotion: string, keys: seq<string>)
    requires keys == Excited || keys == Calm
    ensures Lower(emotion) in keys <==> emotion in keys
  {
    forall k | k in keys
      ensures Lower(emotion) == k <==> emotion == k
    {
      LowerFixed(emotion, k);
    }
  }

  /** `combined += clip` over the clips in order, starting from the empty audio. */
  function Concat(clips: seq<seq<int>>): seq<int> {
    if clips == [] then [] else Concat(clips[..|clips| - 1]) + clips[|clips| - 1]
  }

  lemma {:induction false} ConcatAppend(a: seq<seq<int>>, b: seq<seq<int>>)
    ensures Concat(a + b) == Concat(a) + Concat(b)
    decreases |b|
  {
    if b == [] {
      assert a + b == a;
    } else {
      var b' := b[..|b| - 1];
      assert (a + b)[..|a + b| - 1] == a + b';
      ConcatAppend(a, b');
    }
  }

  /** Clip `i` sits in the joined audio right after the clips before it, unchanged. */
  lemma ConcatPlacement(clips: seq<seq<int>>, i: nat)
    requires i < |clips|
    ensures |Concat(clips[..i])| + |clips[i]| <= |Concat(clips)|
    ensures Concat(clips)[|Concat(clips[..i])|..|Concat(clips[..i])| + |clips[i]|] == clips[i]
  {
    var before, after := clips[..i], clips[i + 1..];
    assert clips == before + [clips[i]] + after;
    ConcatAppend(before + [clips[i]], after);
    ConcatAppend(before, [clips[i]]);
    assert Concat([clips[i]]) == clips[i] by {
      assert [clips[i]][..0] == [];
    }
  }

  /** `generate_full_podcast`: one clip per segment, requested in segment order, then the
      clips joined in that same order. Saving a clip to a file and loading it back is taken
      to give the same audio. */
  method GenerateFullPodcast(script: Script, segments: seq<Segment>, synth: Request -> seq<int>)
    returns (clips: seq<seq<int>>, combined: seq<int>)
    requires forall i :: 0 <= i < |segments| ==> segments[i].emotion.Some?
    ensures |clips| == |segments|
    ensures forall i :: 0 <= i < |segments| ==> clips[i] == synth(RequestFor(script, segments[i]))
    ensures combined == Concat(clips)
  {
    clips := [];
    for i := 0 to |segments|
      invariant |clips| == i
      invariant forall j :: 0 <= j < i ==> clips[j] == synth(RequestFor(script, segments[j]))
    {
      clips := clips + [synth(RequestFor(script, segments[i]))];
    }
    combined := [];
    for i := 0 to |clips|
      invariant combined == Concat(clips[..i])
    {
      assert clips[..i + 1][..i] == clips[..i];
      combined := combined + clips[i];
    }
    assert clips[..|clips|] == clips;
  }
}
