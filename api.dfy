/**
 * The upload endpoint and the in-memory result store of the service: the
 * file extension, the choice of parser by extension, the error answers, and
 * the store that keeps each successful analysis under its id.
 * The parsers for PDF and SQL, JSON decoding, the classifier and the id
 * generator are parameters.
 */
module Api {
  import opened Wrappers
  import opened Text
  import opened JsonParser
  import opened Analyzer

  // ------------------------------------------------------------------
  // File extension
  // ------------------------------------------------------------------

  /** `filename.split(".")[-1]`: the longest suffix without a '.'. */
  function AfterLastDot(s: string): (r: string)
    ensures |r| <= |s| && r == s[|s| - |r|..]
    ensures '.' !in r
    ensures |r| < |s| ==> s[|s| - |r| - 1] == '.'
  {
    if s == [] || s[|s| - 1] == '.' then [] else AfterLastDot(s[..|s| - 1]) + [s[|s| - 1]]
  }

  /** get_extension: the lowercased suffix after the last '.'. */
  function GetExtension(filename: string): (ext: string)
    ensures '.' !in ext
    ensures |ext| <= |filename|
    ensures ext == Lower(filename[|filename| - |ext|..])
    ensures |ext| < |filename| ==> filename[|filename| - |ext| - 1] == '.'
    ensures '.' !in filename ==> ext == Lower(filename)
  {
    var suffix := AfterLastDot(filename);
    NoDotAfterLower(suffix);
    assert '.' !in filename ==> |suffix| == |filename|;
    Lower(suffix)
  }

  /** Lowercasing neither adds nor removes a '.'. */
  lemma NoDotAfterLower(s: string)
    ensures '.' in Lower(s) <==> '.' in s
  {
    if '.' in Lower(s) {
      var i :| 0 <= i < |s| && Lower(s)[i] == '.';
      assert s[i] == '.';
    }
    if '.' in s {
      var i :| 0 <= i < |s| && s[i] == '.';
      assert Lower(s)[i] == '.';
    }
  }

  /** The text after a '.' that ends a name is that name's extension, lowercased. */
  lemma {:induction false} GetExtensionOfSuffix(stem: string, e: string)
    requires '.' !in e
    ensures GetExtension(stem + "." + e) == Lower(e)
    decreases |e|
  {
    var s := stem + "." + e;
    if e == [] {
      assert s[|s| - 1] == '.';
    } else {
      var front := e[..|e| - 1];
      assert s[..|s| - 1] == stem + "." + front;
      assert '.' !in front by {
        forall i | 0 <= i < |front| ensures front[i] != '.' {
          assert front[i] == e[i];
        }
      }
      GetExtensionOfSuffix(stem, front);
      assert AfterLastDot(s) == AfterLastDot(stem + "." + front) + [e[|e| - 1]];
      assert AfterLastDot(stem + "." + front) == front by {
        assert |AfterLastDot(stem + "." + front)| == |Lower(front)|;
      }
      assert front + [e[|e| - 1]] == e;
    }
  }

  /** Lowercasing commutes with taking the suffix after the last '.'. */
  lemma {:induction false} AfterLastDotLower(s: string)
    ensures AfterLastDot(Lower(s)) == Lower(AfterLastDot(s))
    decreases |s|
  {
    if s != [] {
      var init, c := s[..|s| - 1], s[|s| - 1];
      var low := Lower(s);
      assert low[|low| - 1] == LowerChar(c);
      assert low[..|low| - 1] == Lower(init);
      if c != '.' {
        AfterLastDotLower(init);
        var a := AfterLastDot(init);
        assert AfterLastDot(s) == a + [c];
        assert AfterLastDot(low) == AfterLastDot(Lower(init)) + [LowerChar(c)];
        assert AfterLastDot(Lower(init)) == Lower(a);
        LowerAppend(a, [c]);
        assert Lower([c]) == [LowerChar(c)];
        assert Lower(AfterLastDot(s)) == Lower(a) + [LowerChar(c)];
      } else {
        assert AfterLastDot(low) == [];
        assert AfterLastDot(s) == [];
      }
    }
  }

  /** The extension does not depend on the case of the file name. */
  lemma GetExtensionIgnoresCase(filename: string)
    ensures GetExtension(Lower(filename)) == GetExtension(filename)
  {
    AfterLastDotLower(filename);
    LowerIdempotent(AfterLastDot(filename));
  }

  // ------------------------------------------------------------------
  // Dispatch by extension
  // ------------------------------------------------------------------

  /** The kinds of evidence the service reads. */
  datatype SourceType = PdfSource | JsonSource | SqlSource

  /** The `source_type` each kind is reported as. */
  function SourceTypeName(st: SourceType): string {
    match st
    case PdfSource => "pdf"
    case JsonSource => "json"
    case SqlSource => "sql"
  }

  /** The extensions the endpoint accepts. */
  const Accepted: set<string> := {"pdf", "json", "sql", "ddl"}

  /** The branch of the endpoint an extension selects; `None` is the unsupported type. */
  function Dispatch(ext: string): (st: Option<SourceType>)
    ensures st.Some? <==> ext in Accepted
    ensures st == Some(SqlSource) <==> ext == "sql" || ext == "ddl"
  {
    if ext == "pdf" then Some(PdfSource)
    else if ext == "json" then Some(JsonSource)
    else if ext in ["sql", "ddl"] then Some(SqlSource)
    else None
  }

  /** Each accepted extension's source type, and every name is reported once per kind. */
  lemma DispatchTable()
    ensures Dispatch("pdf") == Some(PdfSource) && SourceTypeName(PdfSource) == "pdf"
    ensures Dispatch("json") == Some(JsonSource) && SourceTypeName(JsonSource) == "json"
    ensures Dispatch("sql") == Some(SqlSource) && Dispatch("ddl") == Some(SqlSource)
    ensures forall a, b :: SourceTypeName(a) == SourceTypeName(b) ==> a == b
  {
  }

  /** A file is dispatched by its last extension, whatever its case. */
  lemma DispatchFileName(stem: string, e: string)
    requires '.' !in e
    ensures Dispatch(GetExtension(stem + "." + e)) == Dispatch(Lower(e))
  {
    GetExtensionOfSuffix(stem, e);
  }

  // ------------------------------------------------------------------
  // Errors
  // ------------------------------------------------------------------

  /** The status code and detail of an error answer. */
  datatype HttpError = HttpError(status: nat, detail: string)

  /** Why an upload was not analysed; the messages are the raised exceptions' texts. */
  datatype UploadError =
    | Unsupported
    | ParseFailed(message: string)
    | AnalysisFailed(message: string)

  const UnsupportedDetail := "Unsupported file type"

  /**
   * The error answer as the endpoint gives it: the 400 raised for an
   * unsupported type is caught by the same handler as every other error and
   * turned into a 500 whose detail is the text of the 400 exception.
   */
  function ErrorResponseAsWritten(e: UploadError): (h: HttpError)
    ensures h.status == 500
    ensures !e.Unsupported? ==> h.detail == e.message
  {
    match e
    case Unsupported => HttpError(500, "400: " + UnsupportedDetail)
    case ParseFailed(m) => HttpError(500, m)
    case AnalysisFailed(m) => HttpError(500, m)
  }

  /** An unsupported upload is answered with status 500, not with its 400. */
  lemma UnsupportedUploadAsWritten()
    ensures ErrorResponseAsWritten(Unsupported).status != 400
    ensures ErrorResponseAsWritten(Unsupported) == HttpError(500, "400: Unsupported file type")
  {
  }

  /** The error answer the endpoint evidently means: 400 for an unsupported type, 500 otherwise. */
  function ErrorResponse(e: UploadError): (h: HttpError)
    ensures h.status == 400 <==> e.Unsupported?
    ensures h.status == 500 <==> !e.Unsupported?
    ensures e.Unsupported? ==> h.detail == UnsupportedDetail
    ensures !e.Unsupported? ==> h == ErrorResponseAsWritten(e)
  {
    match e
    case Unsupported => HttpError(400, UnsupportedDetail)
    case ParseFailed(m) => HttpError(500, m)
    case AnalysisFailed(m) => HttpError(500, m)
  }

  // ------------------------------------------------------------------
  // Parsing an upload
  // ------------------------------------------------------------------

  newtype byte = x: int | 0 <= x < 256

  /**
   * The parsers the endpoint calls: PDF text extraction, SQL formatting and
   * JSON decoding, each of which can raise.
   */
  datatype Parsers = Parsers(
    pdf: seq<byte> -> Result<string, string>,
    sql: seq<byte> -> Result<string, string>,
    jsonLoads: seq<byte> -> Result<Json, string>)

  /** The evidence text of the upload, by the parser its source type selects. */
  function ParseUpload(st: SourceType, content: seq<byte>, parsers: Parsers): (r: Result<string, UploadError>)
    ensures r.Failure? ==> r.error.ParseFailed?
    ensures st == PdfSource ==>
      && (r.Success? <==> parsers.pdf(content).Success?)
      && (r.Success? ==> r.value == parsers.pdf(content).value)
      && (r.Failure? ==> r.error.message == parsers.pdf(content).error)
    ensures st == SqlSource ==>
      && (r.Success? <==> parsers.sql(content).Success?)
      && (r.Success? ==> r.value == parsers.sql(content).value)
      && (r.Failure? ==> r.error.message == parsers.sql(content).error)
    ensures st == JsonSource ==>
      && (r.Success? <==> parsers.jsonLoads(content).Success?)
      && (r.Success? ==> r.value == ParseJson(parsers.jsonLoads(content).value))
      && (r.Failure? ==> r.error.message == parsers.jsonLoads(content).error)
  {
    match st
    case PdfSource =>
      (match parsers.pdf(content)
       case Success(t) => Success(t)
       case Failure(m) => Failure(ParseFailed(m)))
    case SqlSource =>
      (match parsers.sql(content)
       case Success(t) => Success(t)
       case Failure(m) => Failure(ParseFailed(m)))
    case JsonSource =>
      (match parsers.jsonLoads(content)
       case Success(j) => Success(ParseJson(j))
       case Failure(m) => Failure(ParseFailed(m)))
  }

  /** The evidence text of an upload of a supported type whose parser succeeds. */
  function UploadText(filename: string, content: seq<byte>, parsers: Parsers): (r: Option<string>)
    ensures r.Some? <==>
      Dispatch(GetExtension(filename)).Some? && ParseUpload(Dispatch(GetExtension(filename)).value, content, parsers).Success?
    ensures r.Some? ==> r.value == ParseUpload(Dispatch(GetExtension(filename)).value, content, parsers).value
  {
    match Dispatch(GetExtension(filename))
    case None => None
    case Some(st) =>
      match ParseUpload(st, content, parsers)
      case Failure(_) => None
      case Success(text) => Some(text)
  }

  /**
   * Why the upload of `filename` fails, if it does: an unsupported type,
   * else the parser's error, else the first classifier error.
   */
  function UploadFailure(filename: string, content: seq<byte>, parsers: Parsers,
                         classify: string -> Result<Classification, string>): (r: Option<UploadError>)
    ensures r == Some(Unsupported) <==> Dispatch(GetExtension(filename)).None?
    ensures r.Some? && r.value.ParseFailed? <==>
      Dispatch(GetExtension(filename)).Some? && UploadText(filename, content, parsers).None?
    ensures r.Some? && r.value.ParseFailed? ==>
      ParseUpload(Dispatch(GetExtension(filename)).value, content, parsers) == Failure(r.value)
    ensures r.Some? && r.value.AnalysisFailed? <==>
      UploadText(filename, content, parsers).Some? &&
      FirstFailure(Segment(UploadText(filename, content, parsers).value), classify).Some?
    ensures r.Some? && r.value.AnalysisFailed? ==>
      FirstFailure(Segment(UploadText(filename, content, parsers).value), classify) == Some(r.value.message)
  {
    match Dispatch(GetExtension(filename))
    case None => Some(Unsupported)
    case Some(st) =>
      match ParseUpload(st, content, parsers)
      case Failure(e) => Some(e)
      case Success(text) =>
        match FirstFailure(Segment(text), classify)
        case None => None
        case Some(m) => Some(AnalysisFailed(m))
  }

  /**
   * An upload succeeds exactly when its type is supported, its parser
   * succeeds and the classifier succeeds on every statement of the text.
   */
  lemma UploadSucceeds(filename: string, content: seq<byte>, parsers: Parsers,
                       classify: string -> Result<Classification, string>)
    ensures UploadFailure(filename, content, parsers, classify).None? <==>
      && UploadText(filename, content, parsers).Some?
      && forall k | 0 <= k < |Segment(UploadText(filename, content, parsers).value)| ::
           classify(Segment(UploadText(filename, content, parsers).value)[k]).Success?
  {
  }

  /**
   * `after` is `before` with the analysis of the upload stored under `newId`
   * and nothing else changed.
   */
  ghost predicate StoredUpload(before: map<string, Analysis>, after: map<string, Analysis>,
                               filename: string, content: seq<byte>, newId: string, parsers: Parsers,
                               classify: string -> Result<Classification, string>)
  {
    && Dispatch(GetExtension(filename)).Some?
    && var st := Dispatch(GetExtension(filename)).value;
    && ParseUpload(st, content, parsers).Success?
    && newId in after
    && after == before[newId := after[newId]]
    && IsAnalysisFor(after[newId], ParseUpload(st, content, parsers).value, SourceTypeName(st), newId, classify)
  }

  // ------------------------------------------------------------------
  // The result store
  // ------------------------------------------------------------------

  /** RESULTS_DB with the two endpoints that write and read it. */
  class ResultStore {
    var db: map<string, Analysis>

    constructor()
      ensures db == map[]
    {
      db := map[];
    }

    /** GET results: the stored analysis, or 404 for an id never stored. */
    function Results(analysisId: string): (r: Result<Analysis, HttpError>)
      reads this
      ensures r.Success? <==> analysisId in db
      ensures r.Success? ==> r.value == db[analysisId]
      ensures r.Failure? ==> r.error == HttpError(404, "Not found")
    {
      if analysisId !in db then Failure(HttpError(404, "Not found")) else Success(db[analysisId])
    }

    /**
     * The body of POST analyze: parse the upload by its extension, analyse
     * the text and store the analysis under `newId`; any failure stores
     * nothing and reports why.
     */
    method Upload(filename: string, content: seq<byte>, newId: string, parsers: Parsers,
                  classify: string -> Result<Classification, string>)
      returns (r: Result<string, UploadError>)
      modifies this
      ensures r.Success? <==> UploadFailure(filename, content, parsers, classify).None?
      ensures r.Failure? ==> UploadFailure(filename, content, parsers, classify) == Some(r.error)
      ensures r.Failure? ==> db == old(db)
      ensures r.Success? ==> r.value == newId && StoredUpload(old(db), db, filename, content, newId, parsers, classify)
    {
      var ext := GetExtension(filename);
      var st := Dispatch(ext);
      if st.None? {
        return Failure(Unsupported);
      }
      var text := ParseUpload(st.value, content, parsers);
      if text.Failure? {
        return Failure(text.error);
      }
      var result := AnalyzeDocument(text.value, SourceTypeName(st.value), newId, classify);
      if result.Failure? {
        return Failure(AnalysisFailed(result.error));
      }
      db := db[newId := result.value];
      return Success(newId);
    }

    /**
     * POST analyze as the endpoint answers it: every failure, the
     * unsupported type included, becomes a 500.
     */
    method Analyze(filename: string, content: seq<byte>, newId: string, parsers: Parsers,
                   classify: string -> Result<Classification, string>)
      returns (r: Result<string, HttpError>)
      modifies this
      ensures r.Success? <==> UploadFailure(filename, content, parsers, classify).None?
      ensures r.Success? <==>
        && UploadText(filename, content, parsers).Some?
        && forall k | 0 <= k < |Segment(UploadText(filename, content, parsers).value)| ::
             classify(Segment(UploadText(filename, content, parsers).value)[k]).Success?
      ensures r.Failure? ==> r.error == ErrorResponseAsWritten(UploadFailure(filename, content, parsers, classify).value)
      ensures r.Failure? ==> r.error.status == 500 && db == old(db)
      ensures Dispatch(GetExtension(filename)).None? ==> r == Failure(HttpError(500, "400: Unsupported file type"))
      ensures r.Success? ==> r.value == newId && StoredUpload(old(db), db, filename, content, newId, parsers, classify)
      ensures r.Success? ==> Results(newId) == Success(db[newId])
      ensures forall id | id != newId :: Results(id) == old(Results(id))
    {
      var u := Upload(filename, content, newId, parsers, classify);
      UnsupportedUploadAsWritten();
      UploadSucceeds(filename, content, parsers, classify);
      if u.Failure? {
        r := Failure(ErrorResponseAsWritten(u.error));
      } else {
        r := Success(newId);
      }
    }

    /** POST analyze with the evidently intended answers: 400 for an unsupported type, 500 otherwise. */
    method AnalyzeCorrected(filename: string, content: seq<byte>, newId: string, parsers: Parsers,
                            classify: string -> Result<Classification, string>)
      returns (r: Result<string, HttpError>)
      modifies this
      ensures r.Success? <==> UploadFailure(filename, content, parsers, classify).None?
      ensures r.Failure? ==> r.error == ErrorResponse(UploadFailure(filename, content, parsers, classify).value)
      ensures r.Failure? ==> db == old(db)
      ensures Dispatch(GetExtension(filename)).None? ==> r == Failure(HttpError(400, UnsupportedDetail))
      ensures r.Success? ==> r.value == newId && StoredUpload(old(db), db, filename, content, newId, parsers, classify)
      ensures r.Success? ==> Results(newId) == Success(db[newId])
      ensures forall id | id != newId :: Results(id) == old(Results(id))
    {
      var u := Upload(filename, content, newId, parsers, classify);
      if u.Failure? {
        r := Failure(ErrorResponse(u.error));
      } else {
        r := Success(newId);
      }
    }
  }
}
