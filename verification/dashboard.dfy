/** The patient dashboard's event handlers, without the rendering: the
    microphone toggle, the merge of speech-recognition results into a form
    field, the per-diagnosis question box, and the two ways an analysis is
    requested. */
module Dashboard {
  import opened Wrappers
  import opened Schemas
  import opened Actions
  import Flows
  import Text

  // ---------------------------------------------------------------------
  // Microphone toggle

  /** The effect of pressing a field's microphone button: which field is
      listening afterwards, and whether recognition was stopped or started. */
  datatype MicStep = MicStep(listening: Option<Field>, stopped: bool, started: bool)

  /** Pressing the microphone of `field`. Without recognition support nothing
      changes; pressing the listening field stops it; pressing any other
      field (stopping the one listening, if any) starts that field. */
  function PressMic(supported: bool, listening: Option<Field>, field: Field): (m: MicStep)
    ensures !supported ==> m == MicStep(listening, false, false)
    ensures supported && listening == Some(field) ==> m == MicStep(None, true, false)
    ensures supported && listening != Some(field) ==> m == MicStep(Some(field), listening.Some?, true)
  {
    if !supported then MicStep(listening, false, false)
    else if listening.Some? then
      if listening.value == field then MicStep(None, true, false)
      else MicStep(Some(field), true, true)
    else MicStep(Some(field), false, true)
  }

  /** Pressing the same microphone twice, starting from idle or from that
      field listening, returns to where it began. */
  lemma PressTwiceRestores(supported: bool, listening: Option<Field>, field: Field)
    requires listening == None || listening == Some(field)
    ensures PressMic(supported, PressMic(supported, listening, field).listening, field).listening == listening
  {
  }

  /** What can happen to the microphone: a button press, or the recognition
      ending or failing. */
  datatype MicEvent = Press(field: Field) | End | Error

  /** Listening state after one event, and whether recognition started. */
  function MicEventStep(supported: bool, listening: Option<Field>, e: MicEvent): (r: (Option<Field>, bool))
    ensures !e.Press? ==> r == (None, false)
    ensures e.Press? && !supported ==> r == (listening, false)
    ensures e.Press? && supported && listening == Some(e.field) ==> r == (None, false)
    ensures r.1 <==> supported && e.Press? && listening != Some(e.field)
    ensures r.1 ==> r.0 == Some(e.field)
  {
    match e
    case Press(f) =>
      var m := PressMic(supported, listening, f);
      (m.listening, m.started)
    case End => (None, false)
    case Error => (None, false)
  }

  /** Listening state after a sequence of events, and how many times
      recognition started. */
  function RunMic(supported: bool, listening: Option<Field>, es: seq<MicEvent>): (r: (Option<Field>, nat))
    ensures r.1 <= |es|
    ensures es == [] ==> r == (listening, 0)
    ensures es != [] && !es[|es| - 1].Press? ==> r.0 == None
    decreases |es|
  {
    if es == [] then (listening, 0)
    else
      var (l, s) := RunMic(supported, listening, es[..|es| - 1]);
      var (l', started) := MicEventStep(supported, l, es[|es| - 1]);
      (l', s + if started then 1 else 0)
  }

  /** Without recognition support nothing ever starts and, from idle, no
      field is ever listening. */
  lemma {:induction false} UnsupportedNeverListens(es: seq<MicEvent>)
    ensures RunMic(false, None, es) == (None, 0)
    decreases |es|
  {
    if es != [] {
      UnsupportedNeverListens(es[..|es| - 1]);
    }
  }

  /** From idle, a field is listening only if recognition was started at
      least once, and an end or error event always leaves no field listening. */
  lemma {:induction false} ListeningNeedsStart(supported: bool, es: seq<MicEvent>)
    ensures RunMic(supported, None, es).0.Some? ==> RunMic(supported, None, es).1 > 0
    ensures es != [] && !es[|es| - 1].Press? ==> RunMic(supported, None, es).0 == None
    decreases |es|
  {
    if es != [] {
      ListeningNeedsStart(supported, es[..|es| - 1]);
    }
  }

  // ---------------------------------------------------------------------
  // Transcript merge

  /** One entry of a recognition event: a final or an interim transcript. */
  datatype SpeechResult = SpeechResult(isFinal: bool, transcript: string)

  /** Appends a final transcript, with one space before it unless nothing
      has been transcribed yet. */
  function AppendFinal(final: string, t: string): (r: string)
    ensures final <= r
    ensures |r| == |final| + |t| + (if final == "" then 0 else 1)
    ensures final != "" ==> r[|final|] == ' '
    ensures r[|r| - |t|..] == t
  {
    final + (if final != "" then " " else "") + t
  }

  /** The final transcript after the given results, in order: earlier text
      is never changed, only extended. */
  function AccFinal(final: string, rs: seq<SpeechResult>): (r: string)
    ensures final <= r
    decreases |rs|
  {
    if rs == [] then final
    else
      var before := AccFinal(final, rs[..|rs| - 1]);
      var last := rs[|rs| - 1];
      if last.isFinal then AppendFinal(before, last.transcript) else before
  }

  /** The interim transcripts of the given results, concatenated with no
      separator. */
  function AccInterim(rs: seq<SpeechResult>): (r: string)
    decreases |rs|
  {
    if rs == [] then ""
    else AccInterim(rs[..|rs| - 1]) + (if rs[|rs| - 1].isFinal then "" else rs[|rs| - 1].transcript)
  }

  /** The text shown in the field: the final transcript, then the interim
      one after a single space when both are non-empty. */
  function DisplayValue(final: string, interim: string): (v: string)
    ensures final <= v
    ensures interim == "" ==> v == final
    ensures interim != "" ==> |v| == |final| + |interim| + (if final == "" then 0 else 1)
    ensures interim != "" && final != "" ==> v[|final|] == ' '
    ensures interim != "" ==> v[|v| - |interim|..] == interim
  {
    final + (if interim != "" then (if final != "" then " " else "") + interim else "")
  }

  /** The results a recognition event reports as new: those from
      `resultIndex` on. */
  function Fresh(results: seq<SpeechResult>, resultIndex: nat): seq<SpeechResult> {
    if resultIndex <= |results| then results[resultIndex..] else []
  }

  /** Handles one recognition event: final results extend the final
      transcript, interim ones are collected separately, and the field is set
      to both. */
  method OnResult(final: string, results: seq<SpeechResult>, resultIndex: nat)
    returns (newFinal: string, value: string)
    ensures newFinal == AccFinal(final, Fresh(results, resultIndex))
    ensures value == DisplayValue(newFinal, AccInterim(Fresh(results, resultIndex)))
    ensures final <= newFinal && newFinal <= value
  {
    var start := if resultIndex <= |results| then resultIndex else |results|;
    var interim := "";
    newFinal := final;
    var i := start;
    while i < |results|
      invariant start <= i <= |results|
      invariant newFinal == AccFinal(final, results[start..i])
      invariant interim == AccInterim(results[start..i])
    {
      assert results[start..i + 1][..i - start] == results[start..i];
      assert results[start..i + 1][i - start] == results[i];
      if results[i].isFinal {
        newFinal := newFinal + (if newFinal != "" then " " else "") + results[i].transcript;
      } else {
        interim := interim + results[i].transcript;
      }
      i := i + 1;
    }
    assert results[start..i] == Fresh(results, resultIndex);
    value := newFinal + (if interim != "" then (if newFinal != "" then " " else "") + interim else "");
  }

  /** The final results only, in order. */
  function OnlyFinal(rs: seq<SpeechResult>): (r: seq<SpeechResult>)
    ensures forall i :: 0 <= i < |r| ==> r[i].isFinal && r[i] in rs
    decreases |rs|
  {
    if rs == [] then []
    else OnlyFinal(rs[..|rs| - 1]) + (if rs[|rs| - 1].isFinal then [rs[|rs| - 1]] else [])
  }

  /** Interim results never reach the final transcript: dropping them
      changes nothing. */
  lemma {:induction false} InterimNeverFinal(final: string, rs: seq<SpeechResult>)
    ensures AccFinal(final, rs) == AccFinal(final, OnlyFinal(rs))
    decreases |rs|
  {
    if rs != [] {
      var p := rs[..|rs| - 1];
      var last := rs[|rs| - 1];
      InterimNeverFinal(final, p);
      if last.isFinal {
        var q := OnlyFinal(p) + [last];
        assert q[..|q| - 1] == OnlyFinal(p);
      } else {
        assert OnlyFinal(rs) == OnlyFinal(p);
      }
    }
  }

  /** Final results never reach the interim text: with only final results
      there is no interim text at all. */
  lemma {:induction false} FinalNeverInterim(rs: seq<SpeechResult>)
    ensures AccInterim(OnlyFinal(rs)) == ""
    decreases |rs|
  {
    if rs != [] {
      var p := rs[..|rs| - 1];
      FinalNeverInterim(p);
      if rs[|rs| - 1].isFinal {
        var q := OnlyFinal(p) + [rs[|rs| - 1]];
        assert q[..|q| - 1] == OnlyFinal(p);
      } else {
        assert OnlyFinal(rs) == OnlyFinal(p);
      }
    }
  }

  /** The transcripts of the final results, in order. */
  function FinalTexts(rs: seq<SpeechResult>): (ts: seq<string>)
    ensures |ts| == |OnlyFinal(rs)|
    ensures forall i :: 0 <= i < |ts| ==> ts[i] == OnlyFinal(rs)[i].transcript
    decreases |rs|
  {
    if rs == [] then []
    else FinalTexts(rs[..|rs| - 1]) + (if rs[|rs| - 1].isFinal then [rs[|rs| - 1].transcript] else [])
  }

  /** Every final result carries some text. */
  predicate FinalsNonEmpty(rs: seq<SpeechResult>) {
    forall i :: 0 <= i < |rs| && rs[i].isFinal ==> rs[i].transcript != ""
  }

  /** With non-empty final transcripts, the final transcript is the starting
      text (if any) and the final transcripts joined by single spaces: the
      separator never leads and never doubles. */
  lemma {:induction false} FinalIsSpaceJoin(final: string, rs: seq<SpeechResult>)
    requires FinalsNonEmpty(rs)
    ensures AccFinal(final, rs) == Text.Join((if final == "" then [] else [final]) + FinalTexts(rs), " ")
    decreases |rs|
  {
    var start: seq<string> := if final == "" then [] else [final];
    if rs == [] {
      assert start + [] == start;
    } else {
      var p := rs[..|rs| - 1];
      var last := rs[|rs| - 1];
      assert FinalsNonEmpty(p) by {
        forall i | 0 <= i < |p| && p[i].isFinal ensures p[i].transcript != "" {
          assert p[i] == rs[i];
        }
      }
      FinalIsSpaceJoin(final, p);
      var before := start + FinalTexts(p);
      if last.isFinal {
        assert before + [last.transcript] == start + FinalTexts(rs);
        if before == [] {
          assert AccFinal(final, p) == "";
          assert [last.transcript] == start + FinalTexts(rs);
        } else {
          assert before[0] != "" by {
            if final == "" {
              assert before[0] == FinalTexts(p)[0];
            }
          }
          assert AccFinal(final, p) != "";
          Text.JoinSnoc(before, last.transcript, " ");
        }
      } else {
        assert FinalTexts(rs) == FinalTexts(p);
      }
    }
  }

  /** One recognition event: the results list and the index of its first new
      entry. */
  datatype ResultEvent = ResultEvent(results: seq<SpeechResult>, resultIndex: nat)

  /** The final transcript after a sequence of recognition events within one
      listening session that began with the field's text `initial`. */
  function SessionFinal(initial: string, evs: seq<ResultEvent>): (r: string)
    ensures initial <= r
    decreases |evs|
  {
    if evs == [] then initial
    else
      var e := evs[|evs| - 1];
      AccFinal(SessionFinal(initial, evs[..|evs| - 1]), Fresh(e.results, e.resultIndex))
  }

  /** Within a session the final transcript only grows: each earlier value
      is a prefix of each later one, starting from the field's text. */
  lemma {:induction false} SessionFinalGrows(initial: string, evs: seq<ResultEvent>, i: nat, j: nat)
    requires i <= j <= |evs|
    ensures initial <= SessionFinal(initial, evs[..i])
    ensures SessionFinal(initial, evs[..i]) <= SessionFinal(initial, evs[..j])
    decreases j
  {
    if i < j {
      SessionFinalGrows(initial, evs, i, j - 1);
      assert evs[..j][..j - 1] == evs[..j - 1];
      var e := evs[j - 1];
      var mid := SessionFinal(initial, evs[..j - 1]);
      assert SessionFinal(initial, evs[..j]) == AccFinal(mid, Fresh(e.results, e.resultIndex));
      assert mid <= SessionFinal(initial, evs[..j]);
    }
  }

  // ---------------------------------------------------------------------
  // Clarifying questions and analysis requests

  /** Records the question typed for diagnosis `index`. */
  function HandleQuestionChange(qs: map<int, string>, index: int, v: string): (r: map<int, string>)
    ensures index in r && r[index] == v
    ensures r.Keys == qs.Keys + {index}
    ensures forall k :: k in qs && k != index ==> r[k] == qs[k]
  {
    qs[index := v]
  }

  /** The results panel after a request: the analysis on success, nothing on
      failure. */
  function ResultsAfter(run: Run): (shown: Option<FullAnalysis>)
    ensures shown.Some? <==> run.result.Success?
    ensures shown.Some? ==> Success(shown.value) == run.result
  {
    run.result.ToOption()
  }

  /** Requests an analysis. The question is accepted but the server action
      takes the form data alone, so the question goes nowhere. */
  function HandleAnalysis(svc: Flows.Services, data: PatientData, question: Option<string>): (run: Run)
    ensures |run.calls| >= 2 && run.calls[1].DiagnoseCall? && run.calls[1].diagnoseInput.question == None
  {
    GetAiAnalysis(svc, data)
  }

  /** Submitting the form: rejected with its issues, and no flow called, when
      validation fails; analysed otherwise. */
  datatype Submission = Rejected(issues: seq<Issue>) | Submitted(run: Run)

  function OnSubmit(svc: Flows.Services, values: PatientData): (s: Submission)
    ensures s.Rejected? <==> Validate(values).Failure?
    ensures s.Rejected? ==> s.issues == Validate(values).error && |s.issues| >= 1
    ensures s.Submitted? ==> s.run == HandleAnalysis(svc, values, None)
  {
    match Validate(values)
    case Failure(issues) => Rejected(issues)
    case Success(data) => Submitted(HandleAnalysis(svc, data, None))
  }

  /** Re-analysing for diagnosis `index`: the current form values, unvalidated,
      with the question typed for that diagnosis, if any. */
  function HandleReanalyze(svc: Flows.Services, values: PatientData, qs: map<int, string>, index: int): (run: Run)
    ensures |run.calls| >= 2
    ensures run.calls[0] == AnalyzeCall(Flows.AnalyzeInput(values.medicalHistory, values.symptoms, values.labResults))
    ensures run.calls[1] == DiagnoseCall(Flows.DiagnoseInput(values.medicalHistory, values.symptoms, values.labResults, None))
  {
    var question := if index in qs then Some(qs[index]) else None;
    HandleAnalysis(svc, values, question)
  }

  /** A re-analysis does not depend on the questions typed or on which
      diagnosis asked: it is a fresh submission of the same values. */
  lemma ReanalyzeIgnoresQuestion(svc: Flows.Services, values: PatientData, qs1: map<int, string>, i: int, qs2: map<int, string>, j: int)
    ensures HandleReanalyze(svc, values, qs1, i) == HandleReanalyze(svc, values, qs2, j)
    ensures Validate(values).Success? ==> OnSubmit(svc, values) == Submitted(HandleReanalyze(svc, values, qs1, i))
  {
  }

  /** Re-analysis skips validation: whatever values the form rejects still
      reach both first-stage flows unchanged. */
  lemma ReanalyzeSkipsValidation(svc: Flows.Services, values: PatientData, qs: map<int, string>, index: int)
    requires Validate(values).Failure?
    ensures OnSubmit(svc, values).Rejected?
    ensures HandleReanalyze(svc, values, qs, index).calls[..2] == [
      AnalyzeCall(Flows.AnalyzeInput(values.medicalHistory, values.symptoms, values.labResults)),
      DiagnoseCall(Flows.DiagnoseInput(values.medicalHistory, values.symptoms, values.labResults, None))]
  {
  }
}
