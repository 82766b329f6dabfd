# Upload acceptance of the document-extraction backend

The backend (`project-app/backend/app.py`) exposes one endpoint, `POST /extract`.
It takes a multipart upload and saves it. It then asks a language model to
extract a date, a name and a file type from the text. Before any of that happens, the endpoint
runs a fixed ladder of guards:

1. no `file` field in the request → 400 `"No file part"`;
2. a `file` field whose filename is empty → 400 `"No selected file"`;
3. an upload that is not truthy or whose name fails `allowed_file` → 400 `"File type not allowed"`;
4. otherwise the upload goes on to the save-and-extract path.

`allowed_file` accepts a name that contains a dot and whose text after the
last dot, lower-cased, is one of `txt`, `pdf`, `png`, `jpg`, `jpeg`, `gif`.

This project models exactly that logic:

- `file_types.dfy`, module `FileTypes`: the extension set, ASCII lower/upper
  casing, the last-dot search behind `rsplit('.', 1)`, the split itself, the
  predicate `AllowedFile`, and lemmas about dots, suffixes and case.
- `extract_request.dfy`, module `ExtractRequest`: the request's file mapping
  (form-field name → uploaded part), the verdict of the guard ladder
  (`NoFilePart`, `NoSelectedFile`, `TypeNotAllowed`, `Accepted`), and the
  endpoint's response. The save-and-extract path enters as a function
  parameter `proceed`, so the model can state that a rejection never depends
  on it.

The repository's prose also describes a document-archive engine: role
permissions, per-location used-space accounting, a document lifecycle and an
audit log. That engine is not among the source files this model follows, so
it is not modelled; the model follows the code of the endpoint.

## Model

| member | source | states |
|---|---|---|
| `FileTypes.AllowedFile` | project-app/backend/app.py:17-19 | `allowed_file`: the name has a dot and its lower-cased extension is allowed; an accepted name has a dot and at least four characters (`.txt` is the shortest). `AllowedFileCharacterised` characterises it in both directions without the split. |
| `FileTypes.Lower` | project-app/backend/app.py:19 | `str.lower` on ASCII: same length, no upper-case letter left, every other character unchanged, and each character keeps its upper-case form, so each capital becomes its own lower-case letter (`A` to `a`). |
| `FileTypes.Upper` | project-app/backend/app.py:19 | `str.upper` on ASCII: same length, no lower-case letter left, every other character unchanged, and each character keeps its lower-case form, so each small letter becomes its own capital (`a` to `A`). |
| `FileTypes.LowerOfUpper` | project-app/backend/app.py:19 | Lower-casing an upper-cased name gives the name's own lower-cased form. |
| `FileTypes.LowerIsIdempotent` | project-app/backend/app.py:19 | Lower-casing twice is lower-casing once. |
| `FileTypes.LastIndexOf` | project-app/backend/app.py:19 | The cut point of `rsplit('.', 1)`: none exactly when the separator does not occur; otherwise an index holding the separator with no separator after it. |
| `FileTypes.RSplitOnce` | project-app/backend/app.py:19 | `rsplit(sep, 1)`: the one-element list `[s]` when `sep` is absent; otherwise two pieces that rebuild `s` around one `sep`, with no `sep` in the second piece. |
| `FileTypes.Extension` | project-app/backend/app.py:19 | The text tested by `allowed_file` has no dot and is a suffix of the name right after a dot. |
| `FileTypes.CutAtLastDot` | project-app/backend/app.py:17-19 | For any dot with no dot after it, the extension is the text after that dot, and the name is accepted exactly when that text, lower-cased, is an allowed extension. |
| `FileTypes.JudgedByLastSuffix` | project-app/backend/app.py:19 | For any stem (dots included) and dot-free `ext`, `stem + "." + ext` has extension `ext` and is accepted exactly when lower-cased `ext` is allowed. |
| `FileTypes.NoDotRejected` | project-app/backend/app.py:18 | A name with no dot anywhere is refused. |
| `FileTypes.AllowedFileCharacterised` | project-app/backend/app.py:14-19 | Both directions: a name is accepted exactly when it has a dot with no dot after it, and the lower-cased text after that dot is one of the six allowed extensions. |
| `FileTypes.TrailingDotRejected` | project-app/backend/app.py:18-19 | A name ending in a dot has an empty extension and is refused, whatever precedes the dot. |
| `FileTypes.AllowedExtensionAccepted` | project-app/backend/app.py:14-19 | Any stem, the empty one included, followed by a dot and one of the six extensions is accepted. |
| `FileTypes.BareExtensionAccepted` | project-app/backend/app.py:18-19 | A name that is only a dot and one of the six extensions (`.txt`, `.pdf`, ...) is accepted. |
| `FileTypes.InnerSuffixIgnored` | project-app/backend/app.py:19 | `a.tar.pdf` is judged by `pdf` and accepted. |
| `FileTypes.LastSuffixDecides` | project-app/backend/app.py:19 | `a.pdf.exe` is judged by `exe` and refused, although an inner suffix is allowed. |
| `FileTypes.SameVerdictUnderCaseChange` | project-app/backend/app.py:19 | Two names with the same lower-cased form get the same verdict; their dots necessarily sit in the same places. |
| `FileTypes.UpperCaseSameVerdict` | project-app/backend/app.py:19 | Acceptance is case-insensitive under ASCII case mapping: a name and its ASCII upper-cased form get the same verdict (see Left out for Python's wider mapping). |
| `FileTypes.LowerCaseSameVerdict` | project-app/backend/app.py:19 | A name and its lower-cased form get the same verdict. |
| `ExtractRequest.Check` | project-app/backend/app.py:23-28 | The guard ladder in order: `NoFilePart` exactly when the `file` field is missing; `NoSelectedFile` exactly when it is present with an empty name; `TypeNotAllowed` exactly when the name is non-empty but the upload is falsy or refused by `AllowedFile`; an accepted verdict carries the request's own upload. |
| `ExtractRequest.ErrorMessage` | project-app/backend/app.py:24-70 | The three error texts of lines 24, 27 and 70, each naming exactly one rejection: `"No file part"` for a missing field, `"No selected file"` for an empty name, `"File type not allowed"` for a refused type. |
| `ExtractRequest.ExtractFeatures` | project-app/backend/app.py:22-70 | The response for each input: status 400 with `"No file part"`, `"No selected file"` or `"File type not allowed"` under the matching condition; otherwise exactly what the save-and-extract path answers for the request's upload. |
| `ExtractRequest.RejectionBeforeAnyIO` | project-app/backend/app.py:28-33 | A rejected request gets status 400, and its response is the same whatever the save-and-extract path would do: no rejection reaches the save. |
| `ExtractRequest.OnlyFileFieldConsulted` | project-app/backend/app.py:23-25 | Two requests that agree on the `file` field get the same verdict, whatever their other fields hold. |
| `ExtractRequest.UpperCaseUploadSameVerdict` | project-app/backend/app.py:26-28 | ASCII upper-casing the uploaded name keeps the verdict: accepted stays accepted, and each rejection keeps its reason. |

## Left out

- Python's `str.lower` and `str.upper` perform full Unicode case mapping; the model maps ASCII letters only and leaves every other character unchanged, so the case lemmas speak of ASCII case changes, not of Python's. For `allowed_file` itself the ASCII lowering gives Python's verdict: the only other characters whose lower-case form contains an ASCII letter are the Kelvin sign (to `k`) and the dotted capital `İ` (to `i` followed by the combining dot U+0307); no allowed extension has a `k` or a U+0307. Upper-casing differs: Python upper-cases the dotless `ı` to `I`, so `allowed_file("a.gıf")` is false while `allowed_file("A.GIF")` is true; the model's `Upper` leaves `ı` alone and refuses both.
- The truthiness of the uploaded object (`if file and ...`, line 28) is decided by the web framework, whose code is not part of this model; it is the free `truthy` field of `FilePart`. In werkzeug an upload is truthy exactly when its filename is non-empty, so after the empty-name guard of line 26 it is always truthy and the program never answers "File type not allowed" to an allowed name; leaving `truthy` free over-approximates that case and adds a response the program cannot give.
- The request's file mapping is a multi-valued dictionary in the web framework; the model keeps one part per field name (the one the endpoint's lookup returns).
- `secure_filename` (line 29) is a library call whose code is not part of this model; it belongs to the save-and-extract path, which enters as the `proceed` parameter.
- Creating the upload folder, saving, reading and removing the file, the language-model call and the formatting of its answer (lines 30-68) are I/O and network effects with unspecified results; the model treats them as the `proceed` parameter and proves only that rejections never reach them.
- Flask routing, JSON serialisation of responses, `load_dotenv`, `os.getenv` and `app.run` are framework and process configuration.
- The described permission, capacity-accounting, document-lifecycle and audit engine is not among the source files this model follows, and is not modelled.
