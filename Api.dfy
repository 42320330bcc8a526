/**
 * The records exchanged with the analytics backend (src/api_client.rs).
 * Only the data is modelled; the HTTP client is not.
 */
module Api {
  import opened Wrappers

  /** The output shape a question asks for; `Auto` is the default. */
  datatype OutputType = Table | Chart | Json | Auto

  const DefaultOutputType: OutputType := Auto

  datatype QueryRequest = QueryRequest(
    question: string,
    includeAnalysis: bool,
    useCache: bool,
    includeSql: bool,
    userId: Option<string>,
    outputType: OutputType)

  /**
   * A `serde_json::Value` as far as the bot looks into it: numbers, strings,
   * objects (their keys in iteration order and their fields), and the rest.
   */
  datatype JsonValue =
    | JNumber(number: real)
    | JString(text: string)
    | JObject(keys: seq<string>, fields: map<string, JsonValue>)
    | JOther

  datatype Insight = Insight(title: string, description: string, significance: string)

  datatype AnalysisResult = AnalysisResult(
    headline: string,
    insights: seq<Insight>,
    explanation: string,
    suggestedQuestions: seq<string>,
    chartType: Option<string>)

  datatype ChartDataset = ChartDataset(seriesLabel: string, data: seq<real>, backgroundColor: Option<string>)

  datatype ChartData = ChartData(
    chartType: string,
    labels: seq<string>,
    datasets: seq<ChartDataset>,
    title: Option<string>)

  datatype QueryResponse = QueryResponse(
    question: string,
    sql: string,
    textResponse: Option<string>,
    data: seq<JsonValue>,
    table: Option<string>,
    chartData: Option<ChartData>,
    executionTimeMs: nat,
    rowCount: nat,
    analysis: Option<AnalysisResult>,
    cached: bool)
}
