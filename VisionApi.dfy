/**
 * The main FastAPI service (main.py): the `/audio` LED rule and the
 * `/transcribe` response built from the speech model's segments. Its
 * `/ws_frames` loop is the one in module FrameSocket.
 *
 * The request value is a Python float, modelled as a real number.
 */
module VisionApi {

  const LedOn: string := "on"
  const LedOff: string := "off"
  const LedInvalid: string := "not valid just 1 or 0"

  /** Exactly 1 switches the LED on, exactly 0 switches it off; anything else is refused. */
  function LedState(value: real): (r: string)
    ensures r in {LedOn, LedOff, LedInvalid}
    ensures r != LedInvalid <==> value == 1.0 || value == 0.0
  {
    if value == 1.0 then LedOn
    else if value == 0.0 then LedOff
    else LedInvalid
  }

  /** The `/audio` answer: a JSON object with the single key "led". */
  function AudioResponse(value: real): (r: map<string, string>)
    ensures r.Keys == {"led"}
    ensures r["led"] in {LedOn, LedOff, LedInvalid}
  {
    map["led" := LedState(value)]
  }

  /** The three outcomes of the LED rule, each with the values that produce it. */
  lemma LedRule(value: real)
    ensures AudioResponse(value)["led"] == LedOn <==> value == 1.0
    ensures AudioResponse(value)["led"] == LedOff <==> value == 0.0
    ensures AudioResponse(value)["led"] == LedInvalid <==> value != 1.0 && value != 0.0
  {
  }

  // ---------------------------------------------------------------- transcription

  /**
   * `" ".join(texts)`: the segment texts separated by single spaces. Its
   * length is every segment's characters plus one space between neighbours,
   * and no segments give the empty text.
   */
  function JoinSegments(texts: seq<string>): (r: string)
    ensures |r| == if texts == [] then 0 else TotalLength(texts) + |texts| - 1
  {
    if |texts| == 0 then ""
    else if |texts| == 1 then texts[0]
    else texts[0] + " " + JoinSegments(texts[1..])
  }

  /** `s.split(" ")`: the pieces between single spaces; an empty string gives one empty piece. */
  function SplitOnSpace(s: string): (pieces: seq<string>)
    ensures |pieces| >= 1
  {
    if s == [] then [[]]
    else if s[0] == ' ' then [[]] + SplitOnSpace(s[1..])
    else
      var rest := SplitOnSpace(s[1..]);
      [[s[0]] + rest[0]] + rest[1..]
  }

  function TotalLength(texts: seq<string>): nat
  {
    if texts == [] then 0 else |texts[0]| + TotalLength(texts[1..])
  }

  /** Where segment i starts in the joined text: the earlier segments, each followed by one space. */
  function Offset(texts: seq<string>, i: nat): nat
    requires i <= |texts|
  {
    if i == 0 then 0 else |texts[0]| + 1 + Offset(texts[1..], i - 1)
  }

  /**
   * Segment i of the joined text: it sits at `Offset(texts, i)`, unchanged,
   * and is followed by a single space unless it is the last one.
   */
  lemma {:induction false} SegmentAt(texts: seq<string>, i: nat)
    requires i < |texts|
    ensures Offset(texts, i) + |texts[i]| <= |JoinSegments(texts)|
    ensures JoinSegments(texts)[Offset(texts, i)..Offset(texts, i) + |texts[i]|] == texts[i]
    ensures i < |texts| - 1 ==>
              Offset(texts, i) + |texts[i]| < |JoinSegments(texts)|
              && JoinSegments(texts)[Offset(texts, i) + |texts[i]|] == ' '
  {
    if |texts| > 1 {
      var t0, rest := texts[0], texts[1..];
      var head, tail := t0 + " ", JoinSegments(rest);
      assert JoinSegments(texts) == head + tail;
      if i == 0 {
        ShiftSlice([], head, 0, |t0|);
        ShiftSlice([], head + tail, 0, |t0|);
        assert head[|t0|] == ' ';
      } else {
        SegmentAt(rest, i - 1);
        var o := Offset(rest, i - 1);
        assert texts[i] == rest[i - 1];
        assert Offset(texts, i) == |head| + o;
        ShiftSlice(head, tail, o, o + |texts[i]|);
      }
    }
  }

  /** A slice of the second part of a concatenation, read at its shifted position. */
  lemma ShiftSlice(a: string, b: string, lo: nat, hi: nat)
    requires lo <= hi <= |b|
    ensures (a + b)[|a| + lo..|a| + hi] == b[lo..hi]
    ensures hi < |b| ==> (a + b)[|a| + hi] == b[hi]
  {
  }

  /**
   * The joined text holds every segment unchanged, in order: segment i sits
   * at `Offset(texts, i)` and is followed by a single space unless it is the
   * last one. No segments give "".
   */
  lemma JoinSegmentsLayout(texts: seq<string>)
    ensures texts == [] ==> JoinSegments(texts) == ""
    ensures forall i :: 0 <= i < |texts| ==>
              && Offset(texts, i) + |texts[i]| <= |JoinSegments(texts)|
              && JoinSegments(texts)[Offset(texts, i)..Offset(texts, i) + |texts[i]|] == texts[i]
    ensures forall i :: 0 <= i < |texts| - 1 ==>
              Offset(texts, i) + |texts[i]| < |JoinSegments(texts)|
              && JoinSegments(texts)[Offset(texts, i) + |texts[i]|] == ' '
  {
    forall i | 0 <= i < |texts| {
      SegmentAt(texts, i);
    }
  }

  /** Splitting text with no space in front of the rest extends the first piece. */
  lemma {:induction false} SplitAfterWord(word: string, rest: string)
    requires ' ' !in word
    ensures SplitOnSpace(word + rest)
         == [word + SplitOnSpace(rest)[0]] + SplitOnSpace(rest)[1..]
  {
    if word != [] {
      assert (word + rest)[0] == word[0];
      assert (word + rest)[1..] == word[1..] + rest;
      SplitAfterWord(word[1..], rest);
      assert [word[0]] + (word[1..] + SplitOnSpace(rest)[0]) == word + SplitOnSpace(rest)[0];
    } else {
      var pieces := SplitOnSpace(rest);
      assert word + rest == rest;
      assert word + pieces[0] == pieces[0];
      assert [pieces[0]] + pieces[1..] == pieces;
    }
  }

  /**
   * Splitting the joined text on spaces gives the segments back, when no
   * segment holds a space of its own.
   */
  lemma {:induction false} SplitJoinRoundTrip(texts: seq<string>)
    requires |texts| >= 1
    requires forall i :: 0 <= i < |texts| ==> ' ' !in texts[i]
    ensures SplitOnSpace(JoinSegments(texts)) == texts
  {
    if |texts| == 1 {
      SplitAfterWord(texts[0], "");
      assert texts[0] + "" == texts[0];
    } else {
      var tail := JoinSegments(texts[1..]);
      SplitJoinRoundTrip(texts[1..]);
      assert texts[0] + " " + tail == texts[0] + (" " + tail);
      SplitAfterWord(texts[0], " " + tail);
      assert (" " + tail)[1..] == tail;
      assert SplitOnSpace(" " + tail) == [[]] + texts[1..];
      assert texts[0] + [] == texts[0];
    }
  }

  /** What the speech model did: produced segments and a language guess, or raised. */
  datatype Transcription =
    | Transcribed(segments: seq<string>, language: string, languageProbability: real)
    | Raised(message: string)

  /** The `/transcribe` answer. */
  datatype TranscribeResponse =
    | Transcript(text: string, language: string, languageProbability: real)
    | ErrorBody(error: string)

  /** The `/transcribe` handler, with the loaded model and its result as inputs. */
  function Transcribe(modelLoaded: bool, outcome: Transcription): (r: TranscribeResponse)
    ensures !modelLoaded ==> r == ErrorBody("Model not loaded")
    ensures modelLoaded && outcome.Raised? ==> r == ErrorBody("Transcription failed: " + outcome.message)
    ensures r.Transcript? <==> modelLoaded && outcome.Transcribed?
    ensures modelLoaded && outcome.Transcribed? ==>
              r == Transcript(JoinSegments(outcome.segments), outcome.language, outcome.languageProbability)
  {
    if !modelLoaded then ErrorBody("Model not loaded")
    else
      match outcome
      case Transcribed(segments, language, p) => Transcript(JoinSegments(segments), language, p)
      case Raised(message) => ErrorBody("Transcription failed: " + message)
  }

  /**
   * A successful transcript carries every segment unchanged and in order,
   * each but the last followed by one space, with the model's language and
   * its probability; no segments give the empty text.
   */
  lemma TranscriptKeepsSegments(segments: seq<string>, language: string, p: real)
    ensures var r := Transcribe(true, Transcribed(segments, language, p));
            && r.Transcript? && r.language == language && r.languageProbability == p
            && (segments == [] ==> r.text == "")
            && (forall i :: 0 <= i < |segments| ==>
                  && Offset(segments, i) + |segments[i]| <= |r.text|
                  && r.text[Offset(segments, i)..Offset(segments, i) + |segments[i]|] == segments[i])
            && (forall i :: 0 <= i < |segments| - 1 ==>
                  Offset(segments, i) + |segments[i]| < |r.text|
                  && r.text[Offset(segments, i) + |segments[i]|] == ' ')
  {
    JoinSegmentsLayout(segments);
  }
}
