/**
 * The stool analyzer page's own logic: the form action that rejects a
 * missing image, answers with a mock analysis when no API key is configured,
 * and otherwise splits the uploaded data URL (`data:<mediatype>;base64,<data>`,
 * section 3 of RFC 2397) and rebuilds it for the vision request; and the
 * lookup tables and score ladders the result page shows. The random draws of
 * the mock become integer arguments, the API key a string ("" when unset).
 */
module Analyzer {

  import opened Wrappers
  import opened Text

  datatype AnalysisResult = AnalysisResult(
    bristolType: int,
    color: string,
    consistency: string,
    healthScore: int,
    recommendations: seq<string>,
    funnyComment: string)

  // ---------------------------------------------------------------------------
  // Lookups and ladders
  // ---------------------------------------------------------------------------

  /** `getBristolDescription`: the seven types of the Bristol chart, anything else "Unknown". */
  function BristolDescription(bristolType: int): (r: string)
    ensures r == "Unknown" <==> !(1 <= bristolType <= 7)
  {
    if bristolType == 1 then "Separate hard lumps (severe constipation)"
    else if bristolType == 2 then "Lumpy and sausage-like (mild constipation)"
    else if bristolType == 3 then "Sausage with cracks (normal)"
    else if bristolType == 4 then "Smooth, soft sausage (ideal!)"
    else if bristolType == 5 then "Soft blobs with clear edges (lacking fiber)"
    else if bristolType == 6 then "Mushy consistency (mild diarrhea)"
    else if bristolType == 7 then "Liquid consistency (severe diarrhea)"
    else "Unknown"
  }

  /** No two of the seven types share a description. */
  lemma BristolTable(t: int, u: int)
    ensures 1 <= t <= 7 && 1 <= u <= 7 && t != u ==> BristolDescription(t) != BristolDescription(u)
  {
    // The seven descriptions and "Unknown" all have different lengths.
    DescriptionLength(t);
    DescriptionLength(u);
  }

  lemma DescriptionLength(t: int)
    ensures |BristolDescription(t)| == if 1 <= t <= 7 then [41, 42, 28, 29, 43, 33, 36][t - 1] else 7
  {
  }

  /** `getHealthScoreColor`: yellow-300 from 80, yellow-400 from 60 to 79, red-400 below 60. */
  function HealthScoreColor(score: int): (r: string)
    ensures r == "text-yellow-300" <==> score >= 80
    ensures r == "text-yellow-400" <==> 60 <= score < 80
    ensures r == "text-red-400" <==> score < 60
  {
    if score >= 80 then "text-yellow-300"
    else if score >= 60 then "text-yellow-400"
    else "text-red-400"
  }

  /** The rating label under the score: legendary from 80, solid from 60 to 79, needs work below 60. */
  function RatingLabel(score: int): (r: string)
    ensures r == "\U{1F4AF} LEGENDARY DUMP!" <==> score >= 80
    ensures r == "\U{1F44D} Solid Performance" <==> 60 <= score < 80
    ensures r == "\U{26A0}\U{FE0F} Needs Work" <==> score < 60
  {
    if score >= 80 then "\U{1F4AF} LEGENDARY DUMP!"
    else if score >= 60 then "\U{1F44D} Solid Performance"
    else "\U{26A0}\U{FE0F} Needs Work"
  }

  /** The label uses the same two boundaries as the colour, so the two always agree. */
  lemma RatingAgreesWithColor(score: int)
    ensures RatingLabel(score) == "\U{1F4AF} LEGENDARY DUMP!" <==> HealthScoreColor(score) == "text-yellow-300"
    ensures RatingLabel(score) == "\U{1F44D} Solid Performance" <==> HealthScoreColor(score) == "text-yellow-400"
    ensures RatingLabel(score) == "\U{26A0}\U{FE0F} Needs Work" <==> HealthScoreColor(score) == "text-red-400"
  {
  }

  // ---------------------------------------------------------------------------
  // Data URLs
  // ---------------------------------------------------------------------------

  /** JavaScript's rendering of a possibly `undefined` string in a template. */
  function Show(s: Option<string>): string
  {
    s.GetOr("undefined")
  }

  /** `imageData.split(",")[1]`: missing exactly when there is no comma, and never holding one. */
  function ExtractBase64(imageData: string): (r: Option<string>)
    ensures r.None? <==> ',' !in imageData
    ensures r.Some? ==> ',' !in r.value
  {
    SplitCount(imageData, ',');
    SplitPiecesFree(imageData, ',');
    At(Split(imageData, ','), 1)
  }

  /**
   * `imageData.split(";")[0].split(":")[1]`: missing exactly when the text
   * before the first ';' has no ':', and never holding a ':'.
   */
  function ExtractMediaType(imageData: string): (r: Option<string>)
    ensures r.None? <==> ':' !in Split(imageData, ';')[0]
    ensures r.Some? ==> ':' !in r.value
  {
    var head := Split(imageData, ';')[0];
    SplitCount(head, ':');
    SplitPiecesFree(head, ':');
    At(Split(head, ':'), 1)
  }

  /**
   * `data:${mediaType};base64,${base64Data}`: a data URL of the upload's form
   * when both parts were found, and one ending in "undefined" when the data was not.
   */
  function RebuildDataUrl(mediaType: Option<string>, base64Data: Option<string>): (r: string)
    ensures |r| >= 13 && r[..5] == "data:"
    ensures mediaType.Some? && base64Data.Some? ==> r == DataUrl(mediaType.value, base64Data.value)
    ensures base64Data.None? ==> r[|r| - 9..] == "undefined"
  {
    "data:" + Show(mediaType) + ";base64," + Show(base64Data)
  }

  /** A data URL of the form the upload produces. */
  function DataUrl(mediaType: string, payload: string): string
  {
    "data:" + mediaType + ";base64," + payload
  }

  /**
   * For `data:T;base64,P` with no ':', ';' or ',' in T and no ',' in P the
   * split finds T and P, and rebuilding gives the input back.
   */
  lemma DataUrlRoundTrip(mediaType: string, payload: string)
    requires ':' !in mediaType && ';' !in mediaType && ',' !in mediaType
    requires ',' !in payload
    ensures ExtractMediaType(DataUrl(mediaType, payload)) == Some(mediaType)
    ensures ExtractBase64(DataUrl(mediaType, payload)) == Some(payload)
    ensures RebuildDataUrl(ExtractMediaType(DataUrl(mediaType, payload)), ExtractBase64(DataUrl(mediaType, payload)))
            == DataUrl(mediaType, payload)
  {
    PayloadFound(mediaType, payload);
    MediaTypeFound(mediaType, payload);
  }

  /** Cut at the first ',': the second piece is the payload. */
  lemma PayloadFound(mediaType: string, payload: string)
    requires ',' !in mediaType && ',' !in payload
    ensures ExtractBase64(DataUrl(mediaType, payload)) == Some(payload)
  {
    var head := "data:" + mediaType + ";base64";
    assert DataUrl(mediaType, payload) == head + [','] + payload;
    assert ',' !in head by {
      assert head == "data:" + mediaType + ";base64";
    }
    SplitAtFirst(head, payload, ',');
    SplitWithout(payload, ',');
  }

  /** Cut at the first ';', then at ':': the second piece is the media type. */
  lemma MediaTypeFound(mediaType: string, payload: string)
    requires ':' !in mediaType && ';' !in mediaType
    ensures ExtractMediaType(DataUrl(mediaType, payload)) == Some(mediaType)
  {
    var scheme := "data" + [':'] + mediaType;
    assert DataUrl(mediaType, payload) == scheme + [';'] + ("base64," + payload);
    assert ';' !in scheme;
    SplitAtFirst(scheme, "base64," + payload, ';');
    SplitAtFirst("data", mediaType, ':');
    SplitWithout(mediaType, ':');
  }

  /** Without a comma there is no payload, and the rebuilt URL ends in "undefined". */
  lemma NoCommaNoPayload(imageData: string)
    requires ',' !in imageData
    ensures ExtractBase64(imageData) == None
    ensures var url := RebuildDataUrl(ExtractMediaType(imageData), ExtractBase64(imageData));
      url[|url| - 9..] == "undefined"
  {
    SplitWithout(imageData, ',');
  }

  // ---------------------------------------------------------------------------
  // The action
  // ---------------------------------------------------------------------------

  const Colors: seq<string> := ["Brown", "Dark Brown", "Light Brown", "Yellowish"]
  const Consistencies: seq<string> := ["Firm", "Soft", "Loose", "Hard"]
  const Recommendations: seq<string> := [
    "Increase fiber intake",
    "Stay hydrated - drink more water",
    "Consider adding probiotics to your diet",
    "Regular exercise helps digestion"
  ]

  /** The five `Math.floor(Math.random() * k)` draws of the mock, in the order they are made. */
  datatype Draws = Draws(bristol: int, color: int, consistency: int, health: int, extraRecommendation: int)

  /** Each draw lies in `0 .. k - 1` for its `k`. */
  predicate DrawsInRange(d: Draws)
  {
    && 0 <= d.bristol < 7 && 0 <= d.color < 4 && 0 <= d.consistency < 4
    && 0 <= d.health < 40 && 0 <= d.extraRecommendation < 2
  }

  /**
   * The mock analysis: a Bristol type in 1..7, one of the fixed colours and
   * consistencies, a health score in 60..99 and the first two or three
   * fixed recommendations.
   */
  function MockResult(d: Draws): (r: AnalysisResult)
    requires DrawsInRange(d)
    ensures 1 <= r.bristolType <= 7
    ensures r.color in Colors && r.consistency in Consistencies
    ensures 60 <= r.healthScore <= 99
    ensures 2 <= |r.recommendations| <= 3 && r.recommendations == Recommendations[..|r.recommendations|]
    ensures BristolDescription(r.bristolType) != "Unknown"
  {
    AnalysisResult(
      d.bristol + 1,
      Colors[d.color],
      Consistencies[d.consistency],
      d.health + 60,
      Recommendations[..d.extraRecommendation + 2],
      "This specimen would make Goldilocks proud - not too hard, not too soft!")
  }

  /** The action's answer: an error, a result, or the image URL sent to the vision model. */
  datatype Outcome =
    | Failed(error: string)
    | Analyzed(result: AnalysisResult)
    | Delegated(imageUrl: string)

  function AnalyzeAction(imageData: string, apiKey: string, draws: Draws): (r: Outcome)
    requires DrawsInRange(draws)
    ensures r.Failed? <==> imageData == ""
    ensures r.Analyzed? <==> imageData != "" && apiKey == ""
    ensures r.Delegated? ==> |r.imageUrl| >= 13 && r.imageUrl[..5] == "data:"
  {
    if imageData == "" then Failed("No image provided")
    else if apiKey == "" then Analyzed(MockResult(draws))
    else Delegated(RebuildDataUrl(ExtractMediaType(imageData), ExtractBase64(imageData)))
  }

  /**
   * A missing image is an error and nothing is analysed, whatever the key;
   * with an image and no key the answer is the mock; with both, a well-formed
   * data URL is sent on unchanged.
   */
  lemma ActionOutcomes(imageData: string, apiKey: string, draws: Draws)
    requires DrawsInRange(draws)
    ensures imageData == "" <==> AnalyzeAction(imageData, apiKey, draws) == Failed("No image provided")
    ensures imageData != "" && apiKey == "" ==> AnalyzeAction(imageData, apiKey, draws) == Analyzed(MockResult(draws))
    ensures imageData != "" && apiKey != "" ==> AnalyzeAction(imageData, apiKey, draws).Delegated?
  {
  }

  /** An uploaded data URL reaches the vision request as it was uploaded. */
  lemma UploadSentUnchanged(mediaType: string, payload: string, apiKey: string, draws: Draws)
    requires DrawsInRange(draws) && apiKey != ""
    requires ':' !in mediaType && ';' !in mediaType && ',' !in mediaType
    requires ',' !in payload
    ensures AnalyzeAction(DataUrl(mediaType, payload), apiKey, draws) == Delegated(DataUrl(mediaType, payload))
  {
    DataUrlRoundTrip(mediaType, payload);
  }
}
