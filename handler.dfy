/** The branch structure of the `/` route handler `home`: which requests are
    redirected back to the form, which re-render the form, and which run the
    classifier and render the result page. The web framework is reduced to the
    parts of the request the handler reads; the classifier is reduced to the
    output row it returns for the uploaded image. */
module Handler {
  import opened Wrappers
  import Upload
  import Prediction

  /** A multipart file part, reduced to the client-supplied filename. */
  datatype FileStorage = FileStorage(filename: string)

  /** The parts of an incoming request the handler reads. `files` maps each
      multipart field name to its file part. */
  datatype Request = Request(verb: string, url: string, files: map<string, FileStorage>)

  /** Which way `home` goes. */
  datatype Decision =
    | Redirect               // back to the form
    | RenderIndex            // the upload form, without any feedback
    | Predict(filename: string)  // save, decode, classify, show the result

  /** The truth value of a file part (`if file`): a part is false exactly when
      its filename is empty. */
  predicate Truthy(f: FileStorage)
  {
    f.filename != ""
  }

  /** The branches of `home`, in the order the handler tests them. Only a
      POST whose `file` part passes `allowed_file` reaches the classifier, and
      it hands on that part's name. */
  function Dispatch(req: Request): (d: Decision)
    ensures d.Predict? ==>
      req.verb == "POST" && "file" in req.files
      && d.filename == req.files["file"].filename && Upload.AllowedFile(d.filename)
  {
    if req.verb != "POST" then RenderIndex
    else if "file" !in req.files then Redirect
    else
      var file := req.files["file"];
      if file.filename == "" then Redirect
      else if Truthy(file) && Upload.AllowedFile(file.filename) then Predict(file.filename)
      else RenderIndex
  }

  /** Anything but a POST, a GET in particular, renders the form. */
  lemma NonPostRendersIndex(req: Request)
    requires req.verb != "POST"
    ensures Dispatch(req) == RenderIndex
  {
  }

  /** A POST is redirected exactly when it has no `file` part or that part has
      an empty filename; every other POST either predicts or re-renders. */
  lemma RedirectIff(req: Request)
    ensures Dispatch(req) == Redirect <==>
      req.verb == "POST" && ("file" !in req.files || req.files["file"].filename == "")
  {
  }

  /** The classifier is reached exactly for a POST whose `file` part has a name
      that `allowed_file` accepts, and it is handed that name. */
  lemma {:induction false} PredictIff(req: Request)
    ensures Dispatch(req).Predict? <==>
      req.verb == "POST" && "file" in req.files && Upload.AllowedFile(req.files["file"].filename)
    ensures Dispatch(req).Predict? ==> Dispatch(req).filename == req.files["file"].filename
  {
    if req.verb == "POST" && "file" in req.files && req.files["file"].filename == "" {
      Upload.NoDotRejected("");
    }
  }

  /** The form is re-rendered exactly for a non-POST, or for a POST whose named
      `file` part fails the extension check. */
  lemma {:induction false} RenderIndexIff(req: Request)
    ensures Dispatch(req) == RenderIndex <==>
      req.verb != "POST"
      || ("file" in req.files && req.files["file"].filename != ""
          && !Upload.AllowedFile(req.files["file"].filename))
  {
  }

  /** The empty-name test runs before the extension test: an empty name would
      also fail `allowed_file`, which alone would re-render the form, yet the
      request is redirected. */
  lemma {:induction false} EmptyNameRedirectsFirst(req: Request)
    requires req.verb == "POST" && "file" in req.files && req.files["file"].filename == ""
    ensures Dispatch(req) == Redirect
    ensures !Upload.AllowedFile(req.files["file"].filename)
  {
    Upload.NoDotRejected("");
  }

  /** The `file` truth test in front of `allowed_file` never decides anything:
      by then the name is known to be non-empty. */
  lemma {:induction false} TruthTestRedundant(req: Request)
    requires req.verb == "POST" && "file" in req.files && req.files["file"].filename != ""
    ensures Truthy(req.files["file"])
    ensures Dispatch(req) == if Upload.AllowedFile(req.files["file"].filename)
      then Predict(req.files["file"].filename) else RenderIndex
  {
  }

  /** What the handler returns. */
  datatype Response =
    | RedirectTo(location: string)
    | IndexPage
    | ResultPage(index: nat, description: string, probability: real)
    | ServerError(fault: Prediction.Fault)

  /** `home(req)`, given the row `scores` the classifier returns for the
      uploaded image. The row is only looked at on the `Predict` branch. */
  function Home(req: Request, scores: seq<real>): (resp: Response)
    ensures Dispatch(req) == Redirect ==> resp == RedirectTo(req.url)
    ensures Dispatch(req) == RenderIndex ==> resp == IndexPage
    ensures Dispatch(req).Predict? ==>
      (resp.ResultPage? || resp.ServerError?)
      && (resp.ServerError? <==> |scores| == 0 || Prediction.Argmax(scores) >= 5)
      && (resp.ResultPage? ==>
            resp.index == Prediction.Argmax(scores)
            && resp.probability == scores[resp.index]
            && resp.index in Prediction.ClassDescriptions
            && resp.description == Prediction.ClassDescriptions[resp.index])
      && (resp.ServerError? ==>
            resp.fault == if |scores| == 0 then Prediction.EmptyOutput
                          else Prediction.UnknownClass(Prediction.Argmax(scores)))
  {
    match Dispatch(req)
    case Redirect => RedirectTo(req.url)
    case RenderIndex => IndexPage
    case Predict(_) =>
      match Prediction.Select(scores)
      case Success(p) => ResultPage(p.index, p.description, p.probability)
      case Failure(e) => ServerError(e)
  }

  /** A request that is not predicted gets the same response whatever the
      classifier would have said: the classifier is never consulted for it. */
  lemma {:induction false} ClassifierOnlyOnPredict(req: Request, s1: seq<real>, s2: seq<real>)
    requires !Dispatch(req).Predict?
    ensures Home(req, s1) == Home(req, s2)
    ensures !Home(req, s1).ResultPage? && !Home(req, s1).ServerError?
  {
  }

  /** An accepted upload whose classification is a five-entry row always gets
      the result page, with a class in 0..4, the first largest probability,
      and that class's description. */
  lemma {:induction false} AcceptedUploadGetsResult(req: Request, scores: seq<real>)
    requires Dispatch(req).Predict?
    requires |scores| == 5
    ensures Home(req, scores).ResultPage?
    ensures Home(req, scores).index <= 4
    ensures Home(req, scores).index == Prediction.Argmax(scores)
    ensures Home(req, scores).description == Prediction.ClassDescriptions[Home(req, scores).index]
  {
    Prediction.FiveClassRowSelects(scores);
    Prediction.FiveClassRowReports(scores);
  }

  /** A disallowed extension, such as `.gif`, re-renders the form and never
      reaches the classifier. */
  lemma {:induction false} GifUploadIgnored(req: Request, stem: string, scores: seq<real>)
    requires req.verb == "POST" && "file" in req.files
    requires req.files["file"].filename == stem + ".gif"
    ensures Dispatch(req) == RenderIndex
    ensures Home(req, scores) == IndexPage
  {
    var ext := "gif";
    assert stem + ".gif" == stem + "." + ext;
    assert Upload.Lower(ext) == "gif";
    assert Upload.Lower(ext) !in Upload.AllowedExtensions;
    Upload.ExtensionDecides(stem, ext);
  }
}
