/** The server action behind the patient dashboard: two flows on the raw
    medical fields, then, only when some diagnosis came back, two more flows
    fed by the diagnoses. Concurrent pairs are modelled as two calls in list
    order; any failure fails the whole request. */
module Actions {
  import opened Wrappers
  import opened Schemas
  import opened Flows
  import Text

  /** One invocation of a flow, with the exact input it received. */
  datatype Call =
    | AnalyzeCall(analyzeInput: AnalyzeInput)
    | DiagnoseCall(diagnoseInput: DiagnoseInput)
    | TestsCall(testsInput: TestsInput)
    | TreatmentsCall(treatmentsInput: TreatmentsInput)

  /** What the dashboard receives on success. */
  datatype FullAnalysis = FullAnalysis(
    analysis: AnalysisOutput,
    diagnoses: Option<seq<Diagnosis>>,
    tests: TestsOutput,
    treatments: TreatmentsOutput)

  /** One request: the flow calls issued, in order, and its outcome. */
  datatype Run = Run(calls: seq<Call>, result: Result<FullAnalysis, FlowError>)

  /** Whether a call, given to the services, succeeds. */
  predicate Succeeds(svc: Services, c: Call) {
    match c
    case AnalyzeCall(i) => svc.analyze(i).Success?
    case DiagnoseCall(i) => svc.diagnose(i).Success?
    case TestsCall(i) => svc.recommendTests(i).Success?
    case TreatmentsCall(i) => svc.suggestTreatments(i).Success?
  }

  /** The diagnosis names in list order. */
  function Names(ds: seq<Diagnosis>): (ns: seq<string>)
    ensures |ns| == |ds|
    ensures forall i :: 0 <= i < |ds| ==> ns[i] == ds[i].diagnosis
  {
    seq(|ds|, i requires 0 <= i < |ds| => ds[i].diagnosis)
  }

  /** The names of all candidates, separated by a comma and a space. */
  function PotentialConditions(ds: seq<Diagnosis>): (r: string)
    ensures |ds| == 0 ==> r == ""
    ensures |ds| == 1 ==> r == ds[0].diagnosis
    ensures |ds| >= 1 ==> ds[0].diagnosis <= r
  {
    Text.Join(Names(ds), ", ")
  }

  /** The diagnoses that trigger the second stage: a present, non-empty list. */
  predicate HasDiagnoses(o: Option<seq<Diagnosis>>) {
    o.Some? && |o.value| > 0
  }

  /** The patient analysis. The first stage always calls the pattern and
      diagnosis flows on the three medical fields; the second stage runs only
      after both succeeded with at least one diagnosis. */
  function GetAiAnalysis(svc: Services, data: PatientData): (run: Run)
    ensures |run.calls| >= 2
    ensures run.calls[0] == AnalyzeCall(AnalyzeInput(data.medicalHistory, data.symptoms, data.labResults))
    ensures run.calls[1] == DiagnoseCall(DiagnoseInput(data.medicalHistory, data.symptoms, data.labResults, None))
    ensures run.result.Success? <==> forall k :: 0 <= k < |run.calls| ==> Succeeds(svc, run.calls[k])
  {
    var aIn := AnalyzeInput(data.medicalHistory, data.symptoms, data.labResults);
    var dIn := DiagnoseInput(data.medicalHistory, data.symptoms, data.labResults, None);
    var first := [AnalyzeCall(aIn), DiagnoseCall(dIn)];
    var a := svc.analyze(aIn);
    var d := svc.diagnose(dIn);
    if a.Failure? then Run(first, Failure(a.error))
    else if d.Failure? then Run(first, Failure(d.error))
    else if !HasDiagnoses(d.value) then
      Run(first, Success(FullAnalysis(a.value, d.value, TestsOutput([]), TreatmentsOutput([]))))
    else
      var ds := d.value.value;
      var tIn := TestsInput(data.medicalHistory, data.symptoms, data.labResults, PotentialConditions(ds));
      var trIn := TreatmentsInput(ds[0].diagnosis, svc.serialize(data));
      var calls := first + [TestsCall(tIn), TreatmentsCall(trIn)];
      var t := svc.recommendTests(tIn);
      var tr := svc.suggestTreatments(trIn);
      assert calls[2] == TestsCall(tIn) && calls[3] == TreatmentsCall(trIn);
      if t.Failure? then Run(calls, Failure(t.error))
      else if tr.Failure? then Run(calls, Failure(tr.error))
      else Run(calls, Success(FullAnalysis(a.value, d.value, t.value, tr.value)))
  }

  /** No flow ever receives a clarifying question. */
  lemma NoQuestionForwarded(svc: Services, data: PatientData)
    ensures forall k :: 0 <= k < |GetAiAnalysis(svc, data).calls| && GetAiAnalysis(svc, data).calls[k].DiagnoseCall? ==>
      GetAiAnalysis(svc, data).calls[k].diagnoseInput.question == None
  {
  }

  /** The second stage runs exactly when both first-stage flows succeeded and
      some diagnosis came back; otherwise only the two first-stage calls are
      made, and a successful result carries empty tests and treatments. */
  lemma SecondStageGated(svc: Services, data: PatientData)
    ensures
      var run := GetAiAnalysis(svc, data);
      var dIn := DiagnoseInput(data.medicalHistory, data.symptoms, data.labResults, None);
      var gate := Succeeds(svc, run.calls[0]) && Succeeds(svc, run.calls[1]) && HasDiagnoses(svc.diagnose(dIn).value);
      && (|run.calls| == 4 <==> gate)
      && (!gate ==> |run.calls| == 2)
      && (!gate && run.result.Success? ==>
            run.result.value.tests.recommendedTests == [] && run.result.value.treatments.treatmentPathways == [])
  {
  }

  /** When the second stage runs, the test flow gets the three medical fields
      and the comma-joined names of all candidates, and the treatment flow
      gets the first candidate's name and the serialised form data. */
  lemma SecondStageInputs(svc: Services, data: PatientData)
    requires |GetAiAnalysis(svc, data).calls| > 2
    ensures
      var run := GetAiAnalysis(svc, data);
      var ds := svc.diagnose(DiagnoseInput(data.medicalHistory, data.symptoms, data.labResults, None)).value.value;
      && |run.calls| == 4 && |ds| > 0
      && run.calls[2] == TestsCall(TestsInput(data.medicalHistory, data.symptoms, data.labResults, Text.Join(Names(ds), ", ")))
      && run.calls[3] == TreatmentsCall(TreatmentsInput(ds[0].diagnosis, svc.serialize(data)))
  {
  }

  /** A successful result hands back the first-stage outputs unchanged, and
      the second-stage outputs unchanged when that stage ran. */
  lemma OutputsPassedThrough(svc: Services, data: PatientData)
    requires GetAiAnalysis(svc, data).result.Success?
    ensures
      var run := GetAiAnalysis(svc, data);
      var r := run.result.value;
      && Success(r.analysis) == svc.analyze(run.calls[0].analyzeInput)
      && Success(r.diagnoses) == svc.diagnose(run.calls[1].diagnoseInput)
      && (|run.calls| == 4 ==>
            && Success(r.tests) == svc.recommendTests(run.calls[2].testsInput)
            && Success(r.treatments) == svc.suggestTreatments(run.calls[3].treatmentsInput))
  {
  }

  /** With a single candidate the condition list is just its name. */
  lemma PotentialConditionsSingle(d: Diagnosis)
    ensures PotentialConditions([d]) == d.diagnosis
  {
  }

  /** Each further candidate adds ", " and its name at the end, so the names
      appear in list order. */
  lemma PotentialConditionsSnoc(ds: seq<Diagnosis>, d: Diagnosis)
    requires |ds| > 0
    ensures PotentialConditions(ds + [d]) == PotentialConditions(ds) + ", " + d.diagnosis
  {
    assert Names(ds + [d]) == Names(ds) + [d.diagnosis];
    Text.JoinSnoc(Names(ds), d.diagnosis, ", ");
  }
}
