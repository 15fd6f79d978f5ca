/**
 * Turning a speech-recognition response into a transcript: the concatenated text, one
 * timed segment per recognised chunk, and the overall duration. The recognition call
 * (a gRPC request to an NVIDIA Riva server) is outside the model; its response, or the
 * error it raised, is an input.
 */
module SttProcessor {
  import opened Text

  /** Word timing as the recogniser reports it, in milliseconds. */
  datatype WordInfo = WordInfo(startTime: int, endTime: int)

  datatype Alternative = Alternative(transcript: string, words: seq<WordInfo>)

  datatype RecognitionResult = RecognitionResult(alternatives: seq<Alternative>)

  datatype RecognizeResponse = RecognizeResponse(results: seq<RecognitionResult>)

  /** What the recognition call did: answered, or raised an exception. */
  datatype Recognition = Recognized(response: RecognizeResponse) | RecognitionError(message: string)

  /** Times in seconds. */
  datatype TranscriptSegment = TranscriptSegment(start: real, end: real, text: string)

  datatype TranscriptResult = TranscriptResult(
    fullText: string,
    segments: seq<TranscriptSegment>,
    language: string,
    durationSec: real)

  /** `transcribe` either returns a transcript or lets the recogniser's exception through. */
  datatype TranscribeOutcome = Transcribed(result: TranscriptResult) | Raised(message: string)

  const Language: string := "ko-KR"

  const UnavailableText: string := "[STT unavailable - Riva client not installed]"

  /** End time of a segment whose words carry no timestamps. */
  const UntimedEnd: real := 999999.0

  function MillisToSeconds(ms: int): real
  {
    ms as real / 1000.0
  }

  /** The segment for one chunk: from its first word's start to its last word's end. */
  function SegmentOf(alt: Alternative): (seg: TranscriptSegment)
    ensures seg.text == Strip(alt.transcript)
    ensures alt.words != [] ==>
      seg.start * 1000.0 == alt.words[0].startTime as real &&
      seg.end * 1000.0 == alt.words[|alt.words| - 1].endTime as real
    ensures alt.words == [] ==> seg.start == 0.0 && seg.end == UntimedEnd
  {
    if |alt.words| > 0 then
      TranscriptSegment(
        MillisToSeconds(alt.words[0].startTime),
        MillisToSeconds(alt.words[|alt.words| - 1].endTime),
        Strip(alt.transcript))
    else
      TranscriptSegment(0.0, UntimedEnd, Strip(alt.transcript))
  }

  /** The first alternative of every result that has one, in input order. */
  function FirstAlternatives(results: seq<RecognitionResult>): seq<Alternative>
  {
    if results == [] then []
    else
      var last := results[|results| - 1];
      FirstAlternatives(results[..|results| - 1]) +
        (if last.alternatives == [] then [] else [last.alternatives[0]])
  }

  /** Each chunk's transcript followed by one space, concatenated. */
  function SpacedText(alts: seq<Alternative>): string
  {
    if alts == [] then ""
    else SpacedText(alts[..|alts| - 1]) + alts[|alts| - 1].transcript + " "
  }

  function SegmentsOf(alts: seq<Alternative>): (segs: seq<TranscriptSegment>)
    ensures |segs| == |alts|
    ensures forall k :: 0 <= k < |alts| ==> segs[k] == SegmentOf(alts[k])
  {
    seq(|alts|, k requires 0 <= k < |alts| => SegmentOf(alts[k]))
  }

  /** The transcript `transcribe` builds from a response. */
  ghost predicate TranscribedFrom(result: TranscriptResult, response: RecognizeResponse)
  {
    var alts := FirstAlternatives(response.results);
    result.fullText == Strip(SpacedText(alts)) &&
    result.segments == SegmentsOf(alts) &&
    result.language == Language &&
    result.durationSec == (if result.segments == [] then 0.0 else result.segments[|result.segments| - 1].end)
  }

  /**
   * The parsing part of `transcribe`. The text is the stripped concatenation of every
   * chunk plus a space; there is one segment per result that has an alternative, in order;
   * the duration is the end of the last segment, or 0. The fallback segment for "no
   * segments but some text" is kept as written and is proved never to fire.
   */
  method ParseResponse(response: RecognizeResponse) returns (result: TranscriptResult)
    ensures TranscribedFrom(result, response)
    ensures result.language == Language
    ensures response.results == [] ==> result == TranscriptResult("", [], Language, 0.0)
  {
    var fullText := "";
    var segments: seq<TranscriptSegment> := [];
    if response.results == [] {
      return TranscriptResult("", [], Language, 0.0);
    }
    var results := response.results;
    ghost var alts: seq<Alternative> := [];
    for i := 0 to |results|
      invariant alts == FirstAlternatives(results[..i])
      invariant fullText == SpacedText(alts)
      invariant segments == SegmentsOf(alts)
    {
      var result := results[i];
      FirstAlternativesStep(results, i);
      if result.alternatives == [] {
        continue;
      }
      var alt := result.alternatives[0];
      var textChunk := alt.transcript;
      ChunkStep(alts, alt);
      alts := alts + [alt];
      fullText := fullText + textChunk + " ";
      if |alt.words| > 0 {
        var start := MillisToSeconds(alt.words[0].startTime);
        var end := MillisToSeconds(alt.words[|alt.words| - 1].endTime);
        assert TranscriptSegment(start, end, Strip(textChunk)) == SegmentOf(alt);
        segments := segments + [TranscriptSegment(start, end, Strip(textChunk))];
      } else {
        assert TranscriptSegment(0.0, UntimedEnd, Strip(textChunk)) == SegmentOf(alt);
        segments := segments + [TranscriptSegment(0.0, UntimedEnd, Strip(textChunk))];
      }
    }
    assert results[..|results|] == results;
    FallbackUnreachable(results);
    if segments == [] && Strip(fullText) != "" {
      segments := segments + [TranscriptSegment(0.0, UntimedEnd, Strip(fullText))];
    }
    var duration := if segments != [] then segments[|segments| - 1].end else 0.0;
    result := TranscriptResult(Strip(fullText), segments, Language, duration);
  }

  /**
   * `transcribe`: without the Riva client it returns a fixed placeholder; an exception of
   * the recognition call propagates; otherwise the response is parsed. Every transcript
   * it returns is in Korean.
   */
  method Transcribe(rivaAvailable: bool, recognition: Recognition) returns (outcome: TranscribeOutcome)
    ensures !rivaAvailable ==> outcome == Transcribed(TranscriptResult(UnavailableText, [], Language, 0.0))
    ensures rivaAvailable && recognition.RecognitionError? ==> outcome == Raised(recognition.message)
    ensures rivaAvailable && recognition.Recognized? ==>
      outcome.Transcribed? && TranscribedFrom(outcome.result, recognition.response)
    ensures outcome.Transcribed? ==> outcome.result.language == Language
  {
    if !rivaAvailable {
      return Transcribed(TranscriptResult(UnavailableText, [], Language, 0.0));
    }
    if recognition.RecognitionError? {
      return Raised(recognition.message);
    }
    var result := ParseResponse(recognition.response);
    outcome := Transcribed(result);
  }

  lemma FirstAlternativesStep(results: seq<RecognitionResult>, i: nat)
    requires i < |results|
    ensures FirstAlternatives(results[..i + 1]) ==
      FirstAlternatives(results[..i]) +
        (if results[i].alternatives == [] then [] else [results[i].alternatives[0]])
  {
    assert results[..i + 1][..i] == results[..i];
  }

  lemma ChunkStep(alts: seq<Alternative>, alt: Alternative)
    ensures SpacedText(alts + [alt]) == SpacedText(alts) + alt.transcript + " "
    ensures SegmentsOf(alts + [alt]) == SegmentsOf(alts) + [SegmentOf(alt)]
  {
    assert (alts + [alt])[..|alts|] == alts;
    SegmentsStep(alts, alt);
  }

  lemma SegmentsStep(alts: seq<Alternative>, alt: Alternative)
    ensures SegmentsOf(alts + [alt]) == SegmentsOf(alts) + [SegmentOf(alt)]
  {
    var ext := alts + [alt];
    assert forall k :: 0 <= k < |alts| ==> ext[k] == alts[k];
    assert ext[|alts|] == alt;
  }

  /** Results are processed independently: the chunks of a concatenation are the concatenated chunks. */
  lemma {:induction false} FirstAlternativesAppend(a: seq<RecognitionResult>, b: seq<RecognitionResult>)
    ensures FirstAlternatives(a + b) == FirstAlternatives(a) + FirstAlternatives(b)
    decreases |b|
  {
    if b != [] {
      var init := b[..|b| - 1];
      assert (a + b)[..|a + b| - 1] == a + init;
      FirstAlternativesAppend(a, init);
    } else {
      assert a + b == a;
    }
  }

  /**
   * A result without alternatives contributes nothing; any other result contributes its
   * first alternative, which becomes exactly one segment.
   */
  lemma OneResultContribution(r: RecognitionResult)
    ensures r.alternatives == [] ==> FirstAlternatives([r]) == []
    ensures r.alternatives != [] ==>
      FirstAlternatives([r]) == [r.alternatives[0]] &&
      SegmentsOf(FirstAlternatives([r])) == [SegmentOf(r.alternatives[0])]
  {
    assert [r][..0] == [];
  }

  /** One segment per result that has an alternative. */
  lemma {:induction false} SegmentCount(results: seq<RecognitionResult>)
    ensures |SegmentsOf(FirstAlternatives(results))| == |results| - NoAlternativeCount(results)
  {
    if results != [] {
      SegmentCount(results[..|results| - 1]);
    }
  }

  /** How many results carry no alternative. */
  function NoAlternativeCount(results: seq<RecognitionResult>): nat
  {
    if results == [] then 0
    else
      NoAlternativeCount(results[..|results| - 1]) +
        (if results[|results| - 1].alternatives == [] then 1 else 0)
  }

  /** Every chunk adds its own text and a space, so there is text exactly when there is a chunk. */
  lemma {:induction false} SpacedTextLength(alts: seq<Alternative>)
    ensures |SpacedText(alts)| >= |alts|
    ensures SpacedText(alts) == "" <==> alts == []
  {
    if alts != [] {
      SpacedTextLength(alts[..|alts| - 1]);
    }
  }

  /** If no segment was made, the stripped text is empty, so the fallback segment is never added. */
  lemma FallbackUnreachable(results: seq<RecognitionResult>)
    ensures SegmentsOf(FirstAlternatives(results)) == [] ==>
      Strip(SpacedText(FirstAlternatives(results))) == ""
  {
    SpacedTextLength(FirstAlternatives(results));
  }
}
