# Diabetic-retinopathy upload handler, modelled in Dafny

The repository is a small Flask web front end. A user uploads a retinal image.
The handler checks the file extension, saves and resizes the image, runs a
pre-trained Keras classifier on it, and shows the predicted severity class
(0 to 4), its description and its probability. This project models the decision
logic of that handler and proves properties of it:

- `Upload` (upload.dfy): `allowed_file` and `ALLOWED_EXTENSIONS`. A name is
  accepted when it contains a dot and the text after its last dot, lower-cased,
  is `png`, `jpg` or `jpeg`. Python's `rsplit('.', 1)` is modelled by
  `RSplitOnce`, and `str.lower()` by `Lower`.
- `Prediction` (prediction.dfy): `np.argmax` over the classifier's output row
  (the first index of the largest entry), the probability at that index, and
  the lookup in the fixed five-entry `class_descriptions` table.
  Probabilities are `real`, because the handler only compares them.
- `Handler` (handler.dfy): the branch order of `home`. `Dispatch` maps a request
  to `Redirect`, `RenderIndex` or `Predict`. `Home` maps a request and the
  classifier's output row to the response.
- `Wrappers` (wrappers.dfy): `Option` and `Result`.

The errors the handler does not catch are modelled as values, not excluded by
preconditions. An empty output row makes `np.argmax` raise. An index outside
0..4 makes the dictionary lookup raise. Both become `ServerError` (HTTP 500)
carrying a `Fault`.

Two behaviours worth stating plainly:
- The handler renders the form for every method other than `POST`, not only
  for `GET` (main.py:28, main.py:74).
- A normalised classifier output sums to 1. The code does not rely on it.
  `ReportedProbabilityBounds` states what follows when it does.

`str.lower()` is Unicode-aware in Python, but `Lower` only changes `A`-`Z`.
This is exact for the extension test. No character outside `A`-`Z` lower-cases to one
of the letters `p n g j e` alone. The Kelvin sign becomes `k`, and `İ` becomes
two characters. So ASCII and Unicode lower-casing accept the same names.

## Model

| member | source | states |
|---|---|---|
| `Upload.AllowedFile` | main.py:16-23 | `allowed_file`: an accepted name holds a dot and is at least four characters long; `AllowedFileIff` characterises it fully |
| `Upload.Lower` | main.py:23 | `.lower()` on ASCII: same length, no upper-case letter left, every character outside `A`-`Z` kept in place; `LowerIdempotent` and `LowerKeepsDots` build on it |
| `Upload.LastIndexOf` | main.py:23 | the search `rsplit` does: None exactly when the character is absent; otherwise an in-range position holding it with no occurrence after it |
| `Upload.RSplitOnce` | main.py:23 | `rsplit(sep, 1)`: `[s]` when `sep` is absent; otherwise two parts that rejoin with `sep` to give `s`, the second free of `sep` |
| `Upload.LastDotIsUnique` | main.py:23 | a dot with no dot after it is the position `rsplit` splits at |
| `Upload.AllowedFileIff` | main.py:16-23 | `allowed_file` holds iff the name has a last dot whose suffix lower-cases into {png, jpg, jpeg} (both directions) |
| `Upload.NoDotRejected` | main.py:23 | a name without a dot, including the empty name, is refused |
| `Upload.ExtensionDecides` | main.py:23 | for any stem, dots included, `stem.ext` is accepted iff `ext` lower-cased is allowed |
| `Upload.TrailingDotRejected` | main.py:16-23 | a name ending in `.` has an empty extension and is refused |
| `Upload.SplitDecides` | main.py:23 | a name that splits as `stem.ext`, with no dot in `ext`, is accepted iff `ext` lower-cased is allowed |
| `Upload.LastExtensionCounts` | main.py:23 | `a.gif.png` is accepted |
| `Upload.EarlierExtensionIgnored` | main.py:23 | `a.png.gif` is refused |
| `Upload.LowerKeepsDots` | main.py:23 | lower-casing neither creates nor removes a dot |
| `Upload.LowerIdempotent` | main.py:23 | lower-casing twice equals lower-casing once |
| `Upload.AllowedFileOfLower` | main.py:23 | a name and its lower-case form get the same verdict |
| `Upload.CaseInsensitive` | main.py:23 | two names equal up to case get the same verdict |
| `Upload.MixedCaseAccepted` | main.py:16-23 | `x.PNG`, `x.Jpg` and `x.JPEG` are accepted |
| `Upload.UpperPngAccepted` | main.py:16-23 | `x.PNG` is accepted |
| `Upload.TitleJpgAccepted` | main.py:16-23 | `x.Jpg` is accepted |
| `Upload.UpperJpegAccepted` | main.py:16-23 | `x.JPEG` is accepted |
| `Prediction.Argmax` | main.py:54 | `np.argmax` on a non-empty row returns a valid index holding a largest entry, with every earlier entry strictly smaller |
| `Prediction.ArgmaxIsTheFirstMax` | main.py:54 | the first maximum is unique: an index is a first maximum iff it is `Argmax` |
| `Prediction.ClassTableShape` | main.py:57-63 | `class_descriptions` has exactly the keys 0..4 and five pairwise-distinct descriptions |
| `Prediction.Select` | main.py:53-66 | selection fails exactly when the row is empty (`EmptyOutput`, and only then) or its argmax is 5 or more (`UnknownClass` of that argmax); a success reports the argmax, the probability at it, and that class's description |
| `Prediction.FiveClassRowSelects` | main.py:53-66 | on a five-entry row selection never fails, and the class it picks is the argmax, in 0..4 |
| `Prediction.FiveClassRowReports` | main.py:53-66 | on a five-entry row the reported probability is at least every entry, and no other class has the reported description |
| `Prediction.LongRowFailsBeyondTable` | main.py:54-66 | on a row longer than five, the lookup fails iff the argmax is 5 or more |
| `Prediction.SumAtLeastEntries` | main.py:54-55 | a row of non-negative scores has a non-negative sum that is at least each entry |
| `Prediction.SumAtMostLengthTimes` | main.py:54-55 | a row whose entries are all at most `b` sums to at most the length times `b` |
| `Prediction.SumBounds` | main.py:54-55 | for non-negative entries bounded by `v[k]`, `v[k]` is at most the sum, and the sum is at most the length times `v[k]` |
| `Prediction.ReportedProbabilityBounds` | main.py:54-55 | for a non-negative row summing to at most 1, the reported probability is at most 1; if the sum is exactly 1, it is at least one over the row length |
| `Handler.Dispatch` | main.py:28-74 | the branches of `home`: a `Predict` decision only for a POST whose `file` part passes `allowed_file`, carrying that part's name; `RedirectIff`, `PredictIff` and `RenderIndexIff` give each outcome's exact condition |
| `Handler.NonPostRendersIndex` | main.py:28-74 | any request that is not a POST, a GET included, renders the form |
| `Handler.RedirectIff` | main.py:28-36 | the handler redirects iff the request is a POST with no `file` part or an empty filename |
| `Handler.PredictIff` | main.py:28-39 | the classifier branch is taken iff the request is a POST with a `file` part that `allowed_file` accepts, and it gets that filename |
| `Handler.RenderIndexIff` | main.py:28-74 | the form is re-rendered iff the request is not a POST, or its named `file` part fails the extension check |
| `Handler.EmptyNameRedirectsFirst` | main.py:35-39 | an empty filename redirects even though it would also fail `allowed_file`, so the redirect test comes first |
| `Handler.TruthTestRedundant` | main.py:35-39 | the `if file` test (`Truthy`, a non-empty filename) never decides anything: after the empty-name test the part is truthy, and the extension alone picks between predict and re-render |
| `Handler.Home` | main.py:27-74 | redirects go to the request's own URL; the index branch renders the form; the predict branch fails exactly when the row is empty or its argmax is 5 or more, with the matching fault, and otherwise renders the result with the first maximum, its probability and its description |
| `Handler.ClassifierOnlyOnPredict` | main.py:28-39 | for a request not on the predict branch, the response does not depend on the classifier output and is never a result or an error page |
| `Handler.AcceptedUploadGetsResult` | main.py:39-72 | an accepted upload with a five-entry output gets the result page, with class `Argmax` in 0..4 and its description |
| `Handler.GifUploadIgnored` | main.py:39-74 | a POST of `<stem>.gif` re-renders the form, whatever the classifier would say |

## Left out

- Flask routing, `request`, `redirect`, `render_template`, the `/result` route and `app.run` (main.py:26, 69-83) are web-framework plumbing. A request is reduced to its method, URL and file parts. A response is reduced to which page it is and what it shows.
- `FileStorage` comes from werkzeug and is not part of this model. A file part is reduced to its filename. Its truth value (`if file`) is modelled as "filename is non-empty", which is how werkzeug defines it.
- `secure_filename`, `os.path.join`, `file.save` and `os.makedirs` (main.py:7, 19, 40-42) are a foreign library and filesystem I/O. A disk-write failure is not modelled.
- PIL decode and resize, and the numpy reshape to 28×28×3 (main.py:45-46), are foreign libraries. Their failures (a corrupt image; an image without exactly three channels, which the reshape rejects) are not modelled as faults.
- Loading the Keras model and calling `predict` (main.py:12, 49-50) is opaque. `Home` takes the first row of the prediction as a parameter. An empty prediction batch, where `r[0]` would fail, is not modelled.
- Floating-point behaviour of the probabilities (NaN, rounding) is not modelled. Probabilities are `real`. With NaN entries `np.argmax` returns the first NaN, and the model does not capture that.
- `Upload.Lower`: only `A`-`Z` are lower-cased. Python's full Unicode `str.lower()` is not modelled. As explained above, this gives the same verdict from `allowed_file`.
- Determinism across repeated submissions (the same model and image give the same result) holds trivially: every member is a function. No separate lemma states it.
