/** The input and output shapes of the four patient-analysis flows, and the
    flows themselves as opaque services. Each flow is a prompt sent to a
    hosted language model; here it is any total function from its input to a
    parsed output or a failure. */
module Flows {
  import opened Wrappers
  import opened Schemas

  /** Why a flow call failed: network, service or output-parsing error. */
  datatype FlowError = FlowError(message: string)

  datatype AnalyzeInput = AnalyzeInput(medicalHistory: string, symptoms: string, labResults: string)

  datatype AnalysisOutput = AnalysisOutput(diseasePatterns: string, anomalies: string)

  datatype DiagnoseInput = DiagnoseInput(
    medicalHistory: string,
    symptoms: string,
    labResults: string,
    question: Option<string>)

  /** One candidate diagnosis. The likelihood is whatever number the model
      returned: the range 0 to 1 is only described to the model, not checked. */
  datatype Diagnosis = Diagnosis(diagnosis: string, likelihood: real, rationale: string)

  datatype TestsInput = TestsInput(
    medicalHistory: string,
    symptoms: string,
    labResults: string,
    potentialConditions: string)

  /** A recommended test; like the likelihood, the priority is unchecked. */
  datatype TestRecommendation = TestRecommendation(testName: string, rationale: string, priority: real)

  datatype TestsOutput = TestsOutput(recommendedTests: seq<TestRecommendation>)

  datatype TreatmentsInput = TreatmentsInput(diagnosis: string, patientData: string)

  datatype TreatmentsOutput = TreatmentsOutput(treatmentPathways: seq<string>)

  /** The services the orchestrator depends on: the four flows and the JSON
      serialisation of the form data. The diagnosis flow may yield no list at
      all (`None`), which the orchestrator treats like an empty list. */
  datatype Services = Services(
    analyze: AnalyzeInput -> Result<AnalysisOutput, FlowError>,
    diagnose: DiagnoseInput -> Result<Option<seq<Diagnosis>>, FlowError>,
    recommendTests: TestsInput -> Result<TestsOutput, FlowError>,
    suggestTreatments: TreatmentsInput -> Result<TreatmentsOutput, FlowError>,
    serialize: PatientData -> string)
}
