# healthcare-plus core, modelled in Dafny

This project models the parts of healthcare-plus that hold decisions of their own, and proves what they promise.

- **X-ray diagnosis back end** (`backend/index.js`). This covers:
  - the name multer stores an upload under;
  - the conversion of an uploaded PDF to a PNG of its first page;
  - the data URI an image is sent to the model as;
  - the `/api/xray-diagnosis` handler's choice between the `image` part and the `file` part;
  - `parseAIResponse`, which turns the model's free-text completion into `primaryDiagnosis`, `confidenceLevel`, `additionalFindings` and `recommendedActions`.
- **Appointment routes** (`frontend/src/routes/appointmentRoutes.ts`). The module-level `appointments` list, with GET `/`, POST `/`, PUT `/:id` and DELETE `/:id`.
- **Appointment form** (`frontend/src/components/AppointmentScheduling.tsx`). The single-field update on input, and the submit handler's required-field check with the `error` and `isSubmitted` state it leaves.

Modules, one per file:

| file | module | what it holds |
|---|---|---|
| `wrappers.dfy` | `Wrappers` | `Option` |
| `js_text.dfy` | `JsText` | the JavaScript string built-ins the core calls: `toLowerCase`, `includes`, `split`, `join`, `trim`, the `/\d+/` match, `parseInt` of a digit run, and the decimal text of a number |
| `js_path.dfy` | `JsPath` | Node's `path.extname` on POSIX paths |
| `base64.dfy` | `Base64` | `buffer.toString('base64')`: base 64 with the standard alphabet and `=` padding (section 4 of RFC 4648), and its decoding |
| `response_extractor.dfy` | `ResponseExtractor` | `parseAIResponse` |
| `xray_intake.dfy` | `XrayIntake` | stored names, PDF conversion, the data URI, and the handler, over a class `UploadDirectory` holding the upload directory as a map from path to bytes |
| `appointment_routes.dfy` | `AppointmentRoutes` | the four routes as methods of a class `AppointmentStore` holding `appointments: seq<Appointment>`, specified by functions on the list |
| `appointment_scheduling.dfy` | `AppointmentScheduling` | the form's record and the class `SchedulingForm` holding `appointment`, `isSubmitted` and `error` |

Points where the code's behaviour is easy to misread, and which the model follows exactly:

- `confidenceLevel` is not clamped to 0–100. It is the full value of the first digit run.
- Only the first line that mentions "confidence" is read. When that line has no digits the result is 0, even if a later confidence line has digits.
- The text fields are the piece between the first and the second colon, not everything after the first colon. So "Diagnosis: a: b" gives "a".
- There is no list of accepted image extensions. A `file` part that is not a PDF is rejected only when no `image` part came with it. Alongside an image it is ignored.

Paths in the table below are relative to the repository root.

## Model

| member | source | states |
|---|---|---|
| ResponseExtractor.ParseAIResponse | healthcare-plus/backend/index.js:64-72 | `primaryDiagnosis` and `recommendedActions` are never empty, because each falls back to its default; what each field holds is stated by `FirstMentionDecides`, `DefaultsWithoutKeywords` and the per-field lemmas below |
| ResponseExtractor.ColonField | healthcare-plus/backend/index.js:67-70 | `?.split(':')[1]` gives a piece exactly when a line was found and has a colon, and that piece holds no colon; which piece it is is stated by `ColonFieldAt` |
| ResponseExtractor.TextField | healthcare-plus/backend/index.js:67-70 | the trimmed piece, or the default when it is empty, gives either the default or a text with no white space at either end, and never "" when the default is not "" |
| ResponseExtractor.NumberField | healthcare-plus/backend/index.js:68 | what `parseInt` of the first digit run, or of '0', gives is stated by `NumberFieldAt` and `NumberFieldWithoutDigits` |
| ResponseExtractor.ListField | healthcare-plus/backend/index.js:69 | `additionalFindings` is `[]` exactly when no line was found or the found line has no colon; otherwise it has one entry more than the piece has commas |
| ResponseExtractor.FindLine | healthcare-plus/backend/index.js:67-70 | `lines.find(...)` is None exactly when no line's lower-cased text includes the keyword; otherwise it is the first such line |
| ResponseExtractor.FindLineAppend | healthcare-plus/backend/index.js:67-70 | searching `A + B` gives what `A` gives, and consults `B` only when no line of `A` mentions the keyword |
| ResponseExtractor.FirstMentionDecides | healthcare-plus/backend/index.js:64-71 | every field of the response to `a + "\n" + b` is the field of `a` when some line of `a` mentions its keyword, and the field of `b` otherwise, even when that line of `a` has no colon or no digits |
| ResponseExtractor.DefaultsWithoutKeywords | healthcare-plus/backend/index.js:64-71 | when no line mentions any keyword, the result is `Unspecified`, 0, `[]` and the generic advice sentence |
| ResponseExtractor.ColonFieldAt | healthcare-plus/backend/index.js:67-70 | `split(':')[1]` of a line with a colon is the text between its first colon and the next colon, or the end of the line |
| ResponseExtractor.TextFieldAt | healthcare-plus/backend/index.js:67-70 | `primaryDiagnosis` and `recommendedActions` are that piece trimmed. The result is the default exactly when the trimmed piece is empty, meaning all white space, or happens to equal the default |
| ResponseExtractor.TextFieldWithoutColon | healthcare-plus/backend/index.js:67-70 | a selected line without a colon gives the default |
| ResponseExtractor.NumberFieldAt | healthcare-plus/backend/index.js:68 | `confidenceLevel` is the value of the first maximal digit run anywhere in the line, before or after the colon, with no upper bound |
| ResponseExtractor.NumberFieldWithoutDigits | healthcare-plus/backend/index.js:68 | a selected line without digits gives 0 |
| ResponseExtractor.ListFieldAt | healthcare-plus/backend/index.js:69 | `additionalFindings` has one entry more than the piece has commas; entry k is the k-th comma-separated part, trimmed; the parts joined by commas give the piece back |
| ResponseExtractor.ListFieldOfBareLabel | healthcare-plus/backend/index.js:69 | a line ending in its only colon gives `[""]`, not `[]` |
| ResponseExtractor.ListFieldWithoutColon | healthcare-plus/backend/index.js:69 | a selected line without a colon gives `[]` |
| JsText.Lower | healthcare-plus/backend/index.js:67-70 | lower-casing keeps the length and maps each character on its own: A–Z to a–z, everything else unchanged |
| JsText.Includes | healthcare-plus/backend/index.js:67-70 | `includes` is characterised by `IncludesIff` |
| JsText.IncludesIff | healthcare-plus/backend/index.js:67-70 | a text includes a keyword exactly when the keyword occurs in it at some position |
| JsText.NotIncludedMissingChar | healthcare-plus/backend/index.js:67-70 | a text lacking one of the keyword's characters does not include the keyword |
| JsText.IndexOfSpec | healthcare-plus/backend/index.js:65 | the search used by `split` finds the first separator, and finds none exactly when the text has none |
| JsText.Split | healthcare-plus/backend/index.js:65 | `split` with a one-character separator always gives at least one piece |
| JsText.SplitPieces | healthcare-plus/backend/index.js:65 | `split` gives one piece more than there are separators, and no piece holds the separator |
| JsText.JoinSplit | healthcare-plus/backend/index.js:65 | joining the pieces with the separator gives the text back |
| JsText.Join | healthcare-plus/backend/index.js:65 | `join` undoes `split` (`JoinSplit`) and `split` undoes `join` of separator-free pieces (`SplitJoin`) |
| JsText.SplitJoin | healthcare-plus/backend/index.js:65 | splitting the join of separator-free pieces gives those pieces back |
| JsText.SplitConcat | healthcare-plus/backend/index.js:65 | the pieces of `a + sep + b` are the pieces of `a` followed by those of `b` |
| JsText.Trim | healthcare-plus/backend/index.js:67 | `trim` leaves no white space or line terminator at either end, never grows the text, and gives "" exactly when the text is all white space |
| JsText.TrimAt | healthcare-plus/backend/index.js:67 | white space around a core that starts and ends with a non-space character is removed, and the core is kept |
| JsText.TrimIdempotent | healthcare-plus/backend/index.js:67 | trimming twice is trimming once |
| JsText.TrimAll | healthcare-plus/backend/index.js:69 | `map(s => s.trim())` keeps the number of entries and trims each one in place |
| JsText.FirstDigitRun | healthcare-plus/backend/index.js:68 | `match(/\d+/)` finds nothing exactly when the text has no digit; otherwise it finds a non-empty run of digits |
| JsText.FirstDigitRunAt | healthcare-plus/backend/index.js:68 | the match is the run that has no digit before it and is not followed by a digit |
| JsText.DecimalString | healthcare-plus/backend/index.js:21 | the decimal text of a number is non-empty, all digits, and has no leading zero |
| JsText.ParseDecimal | healthcare-plus/backend/index.js:21 | reading the decimal text of a number gives the number back |
| JsText.ParseDigits | healthcare-plus/backend/index.js:68 | `parseInt` of a digit run; it reads the decimal text of a number back to that number (`ParseDecimal`) and a run without a leading zero is that text (`DecimalParse`) |
| JsText.DecimalParse | healthcare-plus/backend/index.js:68 | a digit run without a leading zero is the decimal text of its value |
| JsPath.ExtName | healthcare-plus/backend/index.js:21 | `path.extname`; its shape is stated by `ExtNameShape` and where it is cut by `ExtNameAt` |
| JsPath.ExtNameShape | healthcare-plus/backend/index.js:21 | `path.extname` is "" or starts with its only dot, and holds no slash |
| JsPath.ExtNameAt | healthcare-plus/backend/index.js:21 | for a file `dir + name` whose last dot is at position k, the extension is `name[k..]`; it is "" when that dot is the name's first character (a dot file such as ".profile") or the name is ".." |
| JsPath.ExtNameOfStem | healthcare-plus/backend/index.js:21 | the extension of `dir + stem + ext` is `ext`, for a dot-free, slash-free stem |
| Base64.Encode | healthcare-plus/backend/index.js:41 | the encoding of n bytes has 4·⌈n/3⌉ characters |
| Base64.DecodeEncode | healthcare-plus/backend/index.js:41 | decoding the encoding gives the bytes back |
| Base64.EncodeAlphabet | healthcare-plus/backend/index.js:41 | every character of an encoding is in the base 64 alphabet or is `=` |
| Base64.ValueOfChar | healthcare-plus/backend/index.js:41 | each 6-bit value has its own alphabet character |
| XrayIntake.StoredName | healthcare-plus/backend/index.js:20-22 | `Date.now() + path.extname(originalname)`; what it holds is stated by `StoredTimestamp` and `StoredExtension` |
| XrayIntake.StoredPath | healthcare-plus/backend/index.js:18-21 | the stored name under `uploads/`; its extension is stated by `StoredExtension` and its format by `StoredFormat` |
| XrayIntake.StoredExtension | healthcare-plus/backend/index.js:16-22 | an upload stored under `uploads/` + `Date.now()` + extension keeps the original extension, so the PDF test gives the same answer on the stored path as on the client's file name |
| XrayIntake.StoredTimestamp | healthcare-plus/backend/index.js:21 | the stored name starts with the clock reading, which reads back as the first digit run |
| XrayIntake.PngPath | healthcare-plus/backend/index.js:34 | `uploads/<time>.png`; its extension and format are stated by `PngPathFormat` |
| XrayIntake.PngPathFormat | healthcare-plus/backend/index.js:34 | a converted page is stored as `uploads/<time>.png`, has format `png`, and is never taken for a PDF |
| XrayIntake.ImageFormat | healthcare-plus/backend/index.js:42 | the format is the extension without its dot, verbatim, and "" when there is no extension |
| XrayIntake.StoredFormat | healthcare-plus/backend/index.js:42 | a stored upload is sent with its original name's extension as format, case and all |
| XrayIntake.DataUrl | healthcare-plus/backend/index.js:39-44 | the data URI; that it reads back to the file's bytes and format is stated by `DataUrlRoundTrip` |
| XrayIntake.DataUrlRoundTrip | healthcare-plus/backend/index.js:39-44 | the data URI reads back, after its last comma, to exactly the file's bytes, and its media subtype is the format |
| XrayIntake.ChooseUpload | healthcare-plus/backend/index.js:79-92 | 400 'No files uploaded' exactly when neither part is present; a `.pdf` file, in any case, is converted and replaces any image; a non-PDF file without an image gives 400 'No valid image or PDF file provided'; otherwise the image is used |
| XrayIntake.IsPdf | healthcare-plus/backend/index.js:86 | the lower-cased extension is `.pdf`; `StoredExtension`, `PngPathFormat` and `StoredFileChoice` state what it gives on stored and converted paths |
| XrayIntake.StoredFileChoice | healthcare-plus/backend/index.js:86-88 | a file stored from a PDF name is converted whatever image comes with it; one stored from any other name gives way to the image |
| XrayIntake.FirstPage | healthcare-plus/backend/index.js:33-35 | a page is available exactly when the PDF is on disk and renders to at least one page |
| XrayIntake.UploadDirectory.Store | healthcare-plus/backend/index.js:16-22 | the upload is written at its stored path, replacing any file with that name |
| XrayIntake.UploadDirectory.ConvertPdfToImage | healthcare-plus/backend/index.js:32-37 | only the first rendered page is written, to `uploads/<time>.png`, and its path is returned; otherwise nothing is written |
| XrayIntake.UploadDirectory.Analysis | healthcare-plus/backend/index.js:94-100 | the reply is a diagnosis exactly when the image file exists and the model returns a completion for its data URI; a successful reply is the parsed completion plus `aiAnalysis`, the raw completion returned for the data URI of the image file; any failure is 500 with the generic message |
| XrayIntake.UploadDirectory.XrayDiagnosis | healthcare-plus/backend/index.js:77-105 | the handler follows `ChooseUpload`; a PDF's first page takes the image's place; a rejection or a failed conversion leaves the directory unchanged |
| AppointmentRoutes.NewAppointment | healthcare-plus/frontend/src/routes/appointmentRoutes.ts:17-21 | the new record has the body's fields plus `id` and `createdAt`; the body's `id` wins over the generated one; `createdAt` is always the server's time |
| AppointmentRoutes.Merge | healthcare-plus/frontend/src/routes/appointmentRoutes.ts:31 | the merged record has the fields of both, the body winning |
| AppointmentRoutes.Matches | healthcare-plus/frontend/src/routes/appointmentRoutes.ts:29 | `apt.id === id`: the record has an `id` and it is the string `id`; `FindIndex`, `WithoutMembers` and `WithoutShrinks` use it |
| AppointmentRoutes.FindIndex | healthcare-plus/frontend/src/routes/appointmentRoutes.ts:29 | -1 exactly when no record has the id as a string; otherwise the first record that has it |
| AppointmentRoutes.Without | healthcare-plus/frontend/src/routes/appointmentRoutes.ts:42 | the filter never grows the list |
| AppointmentRoutes.WithoutMembers | healthcare-plus/frontend/src/routes/appointmentRoutes.ts:42 | a record is kept exactly when it was there and does not have the id |
| AppointmentRoutes.WithoutConcat | healthcare-plus/frontend/src/routes/appointmentRoutes.ts:42 | filtering goes record by record, so the kept records keep their order |
| AppointmentRoutes.WithoutShrinks | healthcare-plus/frontend/src/routes/appointmentRoutes.ts:41-46 | the list gets shorter exactly when some record has the id; otherwise it is unchanged |
| AppointmentRoutes.CreateThenDelete | healthcare-plus/frontend/src/routes/appointmentRoutes.ts:16-46 | deleting a record just created under a fresh id, whose body carried no id, restores the list |
| AppointmentRoutes.UpdateKeepsPosition | healthcare-plus/frontend/src/routes/appointmentRoutes.ts:29-31 | an update whose body does not touch `id` leaves the record where the next lookup by that id finds it |
| AppointmentRoutes.AppointmentStore.constructor | healthcare-plus/frontend/src/routes/appointmentRoutes.ts:8 | the list starts empty |
| AppointmentRoutes.AppointmentStore.List | healthcare-plus/frontend/src/routes/appointmentRoutes.ts:11-13 | GET returns the whole list, in order, and changes nothing |
| AppointmentRoutes.AppointmentStore.Create | healthcare-plus/frontend/src/routes/appointmentRoutes.ts:16-24 | POST appends exactly the new record, leaves every earlier one alone, and replies 201 with it |
| AppointmentRoutes.AppointmentStore.Update | healthcare-plus/frontend/src/routes/appointmentRoutes.ts:27-36 | PUT merges the body into the first record with the id, keeps the length and every other record, and replies with the updated record; with no such record it replies 404 'Appointment not found' and the list is unchanged |
| AppointmentRoutes.AppointmentStore.Delete | healthcare-plus/frontend/src/routes/appointmentRoutes.ts:39-48 | DELETE keeps exactly the records without the id, in order; it replies 'Appointment deleted successfully' exactly when the list got shorter, and otherwise 404 with the list unchanged |
| AppointmentScheduling.Set | healthcare-plus/frontend/src/components/AppointmentScheduling.tsx:52 | the named field takes the value and the other nine keep theirs |
| AppointmentScheduling.MissingRequired | healthcare-plus/frontend/src/components/AppointmentScheduling.tsx:61 | the required-field test; its meaning is stated by `MissingRequiredMeans` |
| AppointmentScheduling.MissingRequiredMeans | healthcare-plus/frontend/src/components/AppointmentScheduling.tsx:61 | the check fails exactly when one of the seven required fields is the empty string; any other value passes, white space only included |
| AppointmentScheduling.OptionalFieldsIgnored | healthcare-plus/frontend/src/components/AppointmentScheduling.tsx:61 | `reason`, `symptoms` and `medicalHistory` never change the outcome |
| AppointmentScheduling.RequiredFieldDecides | healthcare-plus/frontend/src/components/AppointmentScheduling.tsx:61 | clearing a required field makes the check fail; giving the last empty required field any non-empty value makes it pass |
| AppointmentScheduling.SchedulingForm.constructor | healthcare-plus/frontend/src/components/AppointmentScheduling.tsx:35-48 | all ten fields start empty, with nothing submitted and no error, so an immediate submit fails |
| AppointmentScheduling.SchedulingForm.HandleInputChange | healthcare-plus/frontend/src/components/AppointmentScheduling.tsx:50-53 | exactly the named field changes; `error` and `isSubmitted` are untouched |
| AppointmentScheduling.SchedulingForm.HandleSubmit | healthcare-plus/frontend/src/components/AppointmentScheduling.tsx:55-74 | the fields are untouched. When a required field is empty, `error` is 'Please fill in all required fields.' and `isSubmitted` is false. Otherwise `isSubmitted` is true and `error` is null |

## Left out

- `analyzeImageWithAI` and the `/api/HealthPlans` handler (`backend/index.js:46-62,107-138`) call a hosted model API. The completion appears in `XrayDiagnosis` as an oracle from the data URI to an optional completion. A missing completion stands for any failure of the call, which the handler answers with 500.
- PDF rendering by `pdf-img-convert` is an oracle from the PDF's bytes to an optional list of pages. A missing list stands for a rendering that throws.
- File reads and writes are updates of the `files` map. Multer's multipart parsing is left out: the handler receives the stored paths of the parts, and `Store` writes each one.
- `Date.now()` and `uuidv4()` are parameters. The upload name and the PNG name take separate clock readings.
- XrayIntake.UploadDirectory.XrayDiagnosis: the handler's second "no valid image" test after a conversion cannot fail, because a converted path is never empty. Multer's paths are never empty either, so parts are modelled as present or absent.
- ResponseExtractor.NumberFieldAt: the value is the exact integer of the digit run. `parseInt` rounds runs above 2^53 to the nearest double, and a run of more than 309 digits gives `Infinity`, which `res.json` sends as `null`.
- JsText.Lower: only A–Z are lowered. For the keyword tests and the `.pdf` test this is exact. The only non-ASCII characters that lower to ASCII letters are U+0130, which lowers to "i" followed by a combining dot, and U+212A, which lowers to "k". None of the four keywords or `.pdf` contains "k" or the combining dot, and none ends in "i", so the "i" of U+0130 can never end a match.
- AppointmentRoutes.NewAppointment: records are maps, so the order of a record's keys in its JSON is not modelled. Body values are reduced to strings and other JSON values kept as text. `createdAt` is the clock reading in milliseconds.
- AppointmentScheduling.SchedulingForm.HandleInputChange: the field name is one of the ten form fields. An input with another `name` would add a key outside the `Appointment` interface.
- AppointmentScheduling.SchedulingForm.HandleSubmit: the one-second simulated delay is left out. The `catch` branch is left out because its promise never rejects.
- Express, CORS and `listen` are left out, along with the axios wrappers, the stub routes, and the React pages and their rendering, including MentalHealthSupport's canvas animation.
- Concurrent requests on the shared appointment list and upload directory are not modelled. Each operation runs on its own.
