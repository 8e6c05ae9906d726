# Image, mail and contact core of an admin CMS, in Dafny

This project models the deterministic core of a SvelteKit admin backend. It covers:

- **The signed Cloudinary layer** (module `Cloudinary`):
  - the string to sign for a signature;
  - the checks `uploadImage` makes before any request;
  - the upload form and the parameters it signs;
  - how the host's reply turns into a result or an error message;
  - transformation URLs and the five responsive presets;
  - the outcome rule of `deleteImage`;
  - `generateFolderPath`.
- **Client-side resizing** (module `ImageResize`):
  - the `IMAGE_SIZES` table;
  - the fit-inside-a-box geometry of `calculateDimensions`, over exact reals with `Math.round` as a separate step;
  - the name and type of a resized file;
  - the 1 MiB compression policy.
- **Outgoing mail** (module `Email`):
  - `htmlToText`: strip tags, decode six entities, trim;
  - the transport's port and `secure` settings;
  - the defaults `sendEmail` fills into the mail options;
  - the overrides of its two wrappers.
- **The contact status table** (module `Contact`): the ten statuses and the two option lists derived from them.
- **Three API handlers**:
  - `POST` and `DELETE /api/upload` (module `UploadRoute`): the guard order and the response shapes.
  - `POST /api/cleanup` (module `CleanupRoute`): one result per public id, built by a loop.

Module `Js` states the JavaScript built-ins the code relies on:

- `File`;
- default string `sort`;
- `join`, with `split` as its inverse for stating what a joined string holds;
- `toString` of non-negative integers;
- `parseInt`;
- `Math.round`;
- `trim`;
- `startsWith`;
- a global `replace` of a literal pattern.

Module `Http` holds the JSON response shapes. Module `Wrappers` holds `Option`, and `Result`, which stands for a returned value or a thrown `Error` with its message.

Everything outside the program becomes a parameter:

- the host's replies to `fetch` (what `response.text()` and `JSON.parse` made of them);
- the clock, in milliseconds;
- SHA-1, as a function from the string to sign to its hex digest;
- the image decoder and the canvas encoder;
- the reply of `sendMail`;
- how each `deleteImage` call of the cleanup loop completed.

Each operation is proved against a statement of what it promises:

- `Uploader.UploadImage` and `CalculateDimensions` are step-by-step methods proved equal to specification functions.
- `CalculateDimensions` is also proved to scale by the smaller of the two axis ratios.
- The cleanup handler's loop is proved to build exactly the results of the specification function. Those results are then characterised entry by entry.

The code's `deleteImage` catches every error itself. So `CleanupWithDeleteImage` shows that the cleanup loop's own catch branch is never taken with it.

## Model

| member | source | states |
|---|---|---|
| Cloudinary.StringToSign | src/lib/utils/cloudinary.ts:216-222 | the parameters as `key=value`, keys in sorted order, joined by `&`, then the secret; its properties are stated by `SignatureIgnoresInsertionOrder`, `UploadStringToSign` and `DeleteStringToSign` |
| Cloudinary.Uploader.Sign | src/lib/utils/cloudinary.ts:216-227 | the signature is the SHA-1 hex digest of `StringToSign` with the uploader's secret; see `UploadSignsWhatItSends` |
| Cloudinary.SignatureIgnoresInsertionOrder | src/lib/utils/cloudinary.ts:216-222 | two parameter objects with the same entries (distinct keys) sign the same string, whatever order the entries were added in |
| Cloudinary.UploadStringToSign | src/lib/utils/cloudinary.ts:70-78 | an upload signs `folder=<folder>&timestamp=<seconds>` then the secret, or only `timestamp=<seconds>` then the secret when the folder is empty |
| Cloudinary.DeleteStringToSign | src/lib/utils/cloudinary.ts:187-192 | a delete signs `public_id=<id>&timestamp=<seconds>` followed by the secret |
| Cloudinary.NewUploader | src/lib/utils/cloudinary.ts:47-55 | construction succeeds exactly when cloud name, key and secret are all non-empty, keeping them; otherwise it throws the missing-variables message |
| Cloudinary.Uploader.UploadOutcome | src/lib/utils/cloudinary.ts:57-133 | the specification of `uploadImage`: its checks, the request it sends and its result; stated by `UploadValidation`, `UploadSent`, `UploadErrorChain`, `UploadReplyMapping`, and proved equal to `UploadImage` |
| Cloudinary.Uploader.UploadForm | src/lib/utils/cloudinary.ts:80-93 | the form fields in the order they are appended; stated by `UploadFormAt`, `UploadFormFolder` and `UploadCompressionHints`, and built field by field by `BuildUploadForm` |
| Cloudinary.UploadCompletion | src/lib/utils/cloudinary.ts:95-132 | how the host's reply becomes the upload's result; stated by `UploadErrorChain` and `UploadReplyMapping`, and computed step by step by `CompleteUpload` |
| Cloudinary.HostErrorMessage | src/lib/utils/cloudinary.ts:106-114 | the message of a refused upload, behind both prefixes: a non-empty JSON `error.message`, else the status text when the body is non-null JSON, else a non-empty body text, else the status text; stated by `UploadErrorChain` |
| Cloudinary.Uploader.UploadImage | src/lib/utils/cloudinary.ts:57-133 | the step-by-step upload sends the same request and returns the same result as the specification `UploadOutcome` |
| Cloudinary.Uploader.BuildUploadForm | src/lib/utils/cloudinary.ts:80-93 | appending fields one at a time yields the upload form: file, key, timestamp, signature, then folder when given, then the two hints when compressing |
| Cloudinary.Uploader.CompleteUpload | src/lib/utils/cloudinary.ts:95-132 | turning the reply into a result by reassignment gives exactly `UploadCompletion` of that reply |
| Cloudinary.UploadValidation | src/lib/utils/cloudinary.ts:58-66 | a request is sent exactly when the size is at most `maxFileSize` MiB and the type starts with `image/`; the size is checked first, and the limit defaults to 10485760 bytes |
| Cloudinary.UploadFormAt | src/lib/utils/cloudinary.ts:80-93 | the position of every form field, and the form's length: 4, plus 1 with a folder, plus 2 with compression |
| Cloudinary.UploadFormFolder | src/lib/utils/cloudinary.ts:86-88 | the form has a `folder` field exactly when the folder is non-empty |
| Cloudinary.UploadSignsWhatItSends | src/lib/utils/cloudinary.ts:70-88 | the sent form carries the signature and every signed parameter with its value; every other field is the file, key, signature or a hint; `folder` is sent exactly when it is signed |
| Cloudinary.UploadCompressionHints | src/lib/utils/cloudinary.ts:58-93 | `quality=auto` and `fetch_format=auto` are sent exactly when compression is on, which is the default |
| Cloudinary.UploadSent | src/lib/utils/cloudinary.ts:95-132 | once both checks pass, the result is determined by the host's reply alone |
| Cloudinary.UploadErrorChain | src/lib/utils/cloudinary.ts:106-131 | a refused upload fails behind both prefixes with the JSON `error.message`, else the status text when the body parsed to a non-null value, else the body text, else the status text |
| Cloudinary.UploadReplyMapping | src/lib/utils/cloudinary.ts:119-131 | success exactly on an ok reply whose body parses to a non-null value; `public_id`, `secure_url` (not `url`), width, height, bytes and format are carried over; parse and network errors fail behind the upload prefix |
| Cloudinary.Uploader.TransformationUrl | src/lib/utils/cloudinary.ts:135-143 | the delivery URL of an id with its `key_value` transformations; stated by `TransformationSegment` |
| Cloudinary.TransformationSegment | src/lib/utils/cloudinary.ts:135-143 | a transformation URL is the delivery base, the `key_value` entries in order joined by `,`, and the id; no entries give an empty segment; when no entry holds a comma, the segment splits back into the entries |
| Cloudinary.Uploader.GenerateResponsiveUrls | src/lib/utils/cloudinary.ts:145-183 | the five fill-cropped preset URLs of an id; stated by `RenderFillPreset` and `ResponsiveUrlsExact` |
| Cloudinary.RenderFillPreset | src/lib/utils/cloudinary.ts:147-181 | a responsive preset renders as `w_<w>,h_<h>,c_fill,q_auto,f_auto` |
| Cloudinary.ResponsiveUrlsExact | src/lib/utils/cloudinary.ts:145-183 | the five responsive URLs, large to icon, use 1920x1080, 1280x720, 640x360, 320x180 and 64x64 |
| Cloudinary.Uploader.DeleteImage | src/lib/utils/cloudinary.ts:185-214 | the signed destroy request and the boolean it returns; stated by `DeleteStringToSign` and `DeleteOutcomeRule` |
| Cloudinary.DeleteOutcomeRule | src/lib/utils/cloudinary.ts:185-214 | a delete always sends the signed destroy form for the id, and returns true exactly when the reply's `result` is `'ok'`; a thrown error gives false |
| Cloudinary.GenerateFolderPath | src/lib/utils/cloudinary.ts:232-234 | `model/slug`; stated by `FolderPathInjective` |
| Cloudinary.FolderPathInjective | src/lib/utils/cloudinary.ts:232-234 | the folder path is `model/slug`, and a model without `/` is recovered from the path together with its slug |
| Js.SortSpec | src/lib/utils/cloudinary.ts:217-218 | default `sort` of strings returns a sorted permutation of its input |
| Js.StrictlySortedUnique | src/lib/utils/cloudinary.ts:217-218 | two strictly sorted sequences of the same strings are equal, so the sorted key order is canonical |
| Js.SplitJoin | src/lib/utils/cloudinary.ts:138-140 | joining parts that hold no separator and splitting again gives the parts back |
| Js.ParseIntNatToString | src/lib/server/email.ts:13 | `parseInt` reads the decimal numeral of a non-negative integer back as that integer |
| ImageResize.ImageSizes | src/lib/utils/imageResize.ts:16-22 | every preset is a JPEG with positive sides; thumbnail and icon use quality 0.7, the others 0.8 |
| ImageResize.ImageSizesMatchResponsivePresets | src/lib/utils/imageResize.ts:16-22 | each resize preset has the width and height of the host-side responsive URL of the same name |
| ImageResize.Unrounded | src/lib/utils/imageResize.ts:78-95 | the fitted size before rounding; stated by `UnroundedIsMinScale`, `FitsInsideBoxExact`, `SideRule`, `AspectRatioOnly` and `SmallSourcesScaleUp` |
| ImageResize.FittedSize | src/lib/utils/imageResize.ts:72-101 | the fitted size rounded side by side; stated by `FitsInsideBox` and `RoundingError`, and computed by `CalculateDimensions` |
| ImageResize.CalculateDimensions | src/lib/utils/imageResize.ts:72-101 | the branchy step-by-step computation returns the rounded fitted size `FittedSize` |
| ImageResize.UnroundedIsMinScale | src/lib/utils/imageResize.ts:78-95 | before rounding, the fitted size is the original scaled by the smaller of the two axis ratios |
| ImageResize.FitsInsideBoxExact | src/lib/utils/imageResize.ts:78-95 | before rounding, the fitted size keeps the aspect ratio, lies inside the box and touches one of its sides |
| ImageResize.FitsInsideBox | src/lib/utils/imageResize.ts:97-100 | after rounding, the size is still non-negative, inside the box, and equal to one box side |
| ImageResize.SideRule | src/lib/utils/imageResize.ts:83-95 | the box width is kept unless the derived height would overflow, in which case the box height is kept; the same rule seen from the height side |
| ImageResize.AspectRatioOnly | src/lib/utils/imageResize.ts:78 | originals with the same aspect ratio give the same result |
| ImageResize.SmallSourcesScaleUp | src/lib/utils/imageResize.ts:78-95 | a source that already fits inside the box comes out at least as large on both sides, since nothing prevents enlarging |
| ImageResize.RoundingError | src/lib/utils/imageResize.ts:97-100 | rounding moves each side by at most one half |
| ImageResize.ResizeImage | src/lib/utils/imageResize.ts:24-70 | a failed load throws the load message, a missing context the context message, a `null` blob the blob message; a decoded image with a context and a blob succeeds, and success always means the blob encoded at the fitted size, returned as `resized_<name>` of type `image/<format>` |
| ImageResize.CompressionPreset | src/lib/utils/imageResize.ts:105-111 | the target `'medium'`, which is the default, selects the medium preset; anything else selects small |
| ImageResize.CompressImageBeforeUpload | src/lib/utils/imageResize.ts:103-121 | a file under 1 MiB comes back unchanged; any result is the original or a resized JPEG named `resized_<name>` |
| ImageResize.CompressionPolicy | src/lib/utils/imageResize.ts:107-120 | a file of 1 MiB or more is resized; the original comes back when resizing throws, the resized file when it succeeds |
| ImageResize.GenerateFolderPath | src/lib/utils/imageResize.ts:133-135 | the same path as the upload layer's `generateFolderPath` |
| Email.StripTags | src/lib/server/email.ts:85 | the global `replace(/<[^>]*>/g, '')`; its result is never longer than its input, and its other properties are stated by the lemmas below it |
| Email.StripTagsKeepsInput | src/lib/server/email.ts:85 | every character of the output occurs in the input |
| Email.StripTagsSubsequence | src/lib/server/email.ts:85 | the output is the input with some characters deleted and the rest kept in their order |
| Email.StripTagsFixedPoint | src/lib/server/email.ts:85 | the text is left unchanged exactly when no `<` in it has a `>` somewhere after it |
| Email.NoTagSpanKept | src/lib/server/email.ts:85 | text in which no `<` is followed by a `>` is left as it is, so a lone `<` is kept |
| Email.StripTagsLeavesNoTag | src/lib/server/email.ts:85 | after tag stripping, no `<` is followed anywhere later by a `>` |
| Email.TagRemoved | src/lib/server/email.ts:85 | a `<...>` span without an inner `>` is removed, and untagged text before it is kept |
| Email.NoTag | src/lib/server/email.ts:85 | text without `<` is left as it is |
| Email.DecodeEntities | src/lib/server/email.ts:86-91 | the six entity replacements in the source's order; stated by `NoEntity`, `EntitiesDecode`, `DoubleDecoding` and `EscapedMarkupSurvives` |
| Email.NoEntity | src/lib/server/email.ts:86-91 | text without `&` passes every entity step unchanged |
| Email.EntitiesDecode | src/lib/server/email.ts:86-91 | each of the six entities, followed by text without `&`, decodes to space, `&`, `<`, `>`, `"` or `'` |
| Email.DoubleDecoding | src/lib/server/email.ts:87-88 | `&amp;` is decoded before `&lt;`, so `&amp;lt;` comes out as `<` |
| Email.EscapedMarkupSurvives | src/lib/server/email.ts:85-89 | tags are stripped before decoding, so `&lt;...&gt;` survives as `<...>` |
| Email.HtmlToText | src/lib/server/email.ts:83-93 | the text has no white space at either end |
| Email.PlainTextOnlyTrimmed | src/lib/server/email.ts:84-92 | input with neither `<` nor `&` comes back merely trimmed |
| Email.UnmarkedTextOnlyTrimmed | src/lib/server/email.ts:84-92 | input without `&` in which no `<` is followed by a `>` comes back merely trimmed |
| Email.ComparisonKept | src/lib/server/email.ts:84-92 | a comparison such as `3 < 5` survives as text: trimmed in general, unchanged when it has no white space at its ends |
| Email.Transport | src/lib/server/email.ts:11-18 | `secure` holds exactly when `EMAIL_SECURE` is the text `true`; a given port is `parseInt` of it; host and credentials pass through |
| Email.TransportPort | src/lib/server/email.ts:13 | without `EMAIL_PORT` the port is 587; a decimal port is read as its number |
| Email.BuildOptions | src/lib/server/email.ts:34-68 | `from` defaults to `EMAIL_FROM`, else `EMAIL_USER`, only when absent; absent or empty text becomes the HTML's text; absent or empty reply-to becomes the sender; attachments default to none and are copied unchanged |
| Email.SendEmail | src/lib/server/email.ts:55-80 | the transport gets those options; success exactly when the mail was delivered, with its id and response; otherwise it throws behind `Failed to send email: ` |
| Email.SendEmailWithAutoText | src/lib/server/email.ts:95-106 | `sendEmail` with the text taken from the HTML; stated by `AutoTextDiscardsCallerText` |
| Email.SendEmailWithAttachments | src/lib/server/email.ts:108-125 | `sendEmail` with the text taken from the HTML and attachments defaulting to none; stated by `AttachmentsDefaultToNone` |
| Email.AutoTextDiscardsCallerText | src/lib/server/email.ts:95-106 | the automatic text always replaces a caller's text, and the call sends what `sendEmail` sends with no text |
| Email.AttachmentsDefaultToNone | src/lib/server/email.ts:108-125 | the attachments wrapper sends what `sendEmail` sends with no text, and absent attachments go out as none |
| Contact.StatusOfKey | src/lib/types/contact.ts:14-67 | a key names a status only if it is that status's key |
| Contact.KeyNamesStatus | src/lib/types/contact.ts:14-67 | every status's key names that status |
| Contact.KeysDistinct | src/lib/types/contact.ts:14-67 | distinct statuses have distinct keys |
| Contact.StatusesComplete | src/lib/types/contact.ts:14-65 | every status appears in the table exactly once |
| Contact.OptionsOf | src/lib/types/contact.ts:69-72 | one option per status, in order, valued by its key and labelled with its label |
| Contact.StatusOptions | src/lib/types/contact.ts:69-72 | the option list of the status table; stated by `OptionsOf`, `StatusOptionsEnds`, `StatusOptionAt`, `StatusValuesDistinct` and `StatusValuesCoverKeys` |
| Contact.StatusOptionsEnds | src/lib/types/contact.ts:69-72 | there are ten status options, from `new`/`New` to `archived`/`Archived` |
| Contact.StatusOptionAt | src/lib/types/contact.ts:69-72 | the option in each place names the status in that place of the table and carries its label |
| Contact.StatusValuesDistinct | src/lib/types/contact.ts:69-72 | the status option values are pairwise distinct |
| Contact.StatusValuesCoverKeys | src/lib/types/contact.ts:67-72 | every status key is among the option values |
| Contact.FilterOptions | src/lib/types/contact.ts:74 | `all` in front of the status options; stated by `FilterOptionsShape` and `FilterValuesDistinct` |
| Contact.FilterOptionsShape | src/lib/types/contact.ts:74 | the filter options are `all`/`All Contacts` followed by the ten status options, eleven in all |
| Contact.FilterValuesDistinctOver | src/lib/types/contact.ts:74 | over any table of distinct statuses, `all` followed by its options has pairwise distinct values |
| Contact.FilterValuesDistinct | src/lib/types/contact.ts:14-74 | the eleven filter values are pairwise distinct |
| UploadRoute.Post | src/routes/api/upload/+server.ts:5-47 | the `POST` handler; stated by `PostGuardOrder`, `PostUnreadable`, `PostUploadsIntoFolder`, `PostNeverReachesTypeCheck` and `PostResponse` |
| UploadRoute.PostGuardOrder | src/routes/api/upload/+server.ts:11-21 | 400 `No file provided`, `Invalid file type` or `Folder path is required`, each exactly in its case and in that order; the upload runs exactly when all three guards pass |
| UploadRoute.PostUnreadable | src/routes/api/upload/+server.ts:7-46 | a form that cannot be read gives 500 `Upload failed` with its message, and no upload |
| UploadRoute.PostUploadsIntoFolder | src/routes/api/upload/+server.ts:23-27 | the route uploads with the given folder, compression on and a 10 MiB limit; the folder and both hints are in the form; an oversized image gets 500 with `File size exceeds 10MB limit` |
| UploadRoute.PostNeverReachesTypeCheck | src/routes/api/upload/+server.ts:15-27 | since the route checks the type first, no response to a readable form reports `File must be an image` |
| UploadRoute.PostResponse | src/routes/api/upload/+server.ts:29-46 | 200 exactly on an ok JSON reply, with the host's `public_id`, `secure_url`, the five responsive URLs of that id and the original size and format; otherwise 500 `Upload failed` with the upload's message |
| UploadRoute.Delete | src/routes/api/upload/+server.ts:49-68 | the `DELETE` handler; stated by `DeleteOutcomes` |
| UploadRoute.DeleteOutcomes | src/routes/api/upload/+server.ts:49-68 | 500 only when the body cannot be read; 400 exactly without a public id; otherwise 200 with the id, and the not-found note exactly when the host did not answer `'ok'` |
| CleanupRoute.Results | src/routes/api/cleanup/+server.ts:13-22 | one entry per id, as many as there are ids; stated entry by entry by `ResultsAt` and `ThrowIsolated` |
| CleanupRoute.CleanupResponse | src/routes/api/cleanup/+server.ts:5-29 | the response of the handler; stated by `CleanupAnswers`, and computed by the loop of `Cleanup` |
| CleanupRoute.Cleanup | src/routes/api/cleanup/+server.ts:5-29 | the handler with its loop calls `deleteImage` for exactly the given ids, in order (none when not an array), and answers as `CleanupResponse` |
| CleanupRoute.ResultsAt | src/routes/api/cleanup/+server.ts:13-22 | for each id, one entry in input order: named by its id, deleted exactly when the call returned true, with an error exactly when it threw, carrying its message |
| CleanupRoute.CleanupAnswers | src/routes/api/cleanup/+server.ts:9-27 | 500 `Cleanup failed` exactly when the body cannot be read; 400 exactly when `publicIds` is not an array; 200 with one result per id otherwise, and empty results for no ids |
| CleanupRoute.ThrowIsolated | src/routes/api/cleanup/+server.ts:14-21 | a throw for one id leaves every other id's entry as it would have been |
| CleanupRoute.CleanupWithDeleteImage | src/routes/api/cleanup/+server.ts:15-17 | with the modelled `deleteImage`, no entry carries an error, and each entry is deleted exactly when the host answered `'ok'` for its id |

## Left out

- SHA-1 (`createHash`) is a function parameter, not computed.
- `fetch`, `FormData` transport, `response.text()`/`json()` and `JSON.parse` are replaced by the reply they produced. A JSON reply is seen only through the fields the code reads.
- Cloudinary.UploadReplyMapping: a reply body is modelled as unparsable, `null`, or an object with the six upload fields at their declared types. In the source, a body that parses to a number, string or boolean, or an object missing a field, succeeds with `undefined` fields; that case is not modelled.
- `Date.now()` is a parameter in milliseconds.
- `$env` imports are parameters.
- `console` logging is omitted.
- The module-level `new CloudinaryUploader()` throws on import when credentials are missing. The handlers are modelled with a constructed uploader instead, since a failed import never reaches them.
- The canvas, `Image`, `toBlob` and `URL.createObjectURL` in `resizeImage` are browser I/O. The decoded size, the context and the encoder are parameters. `lastModified` is not modelled.
- ImageResize.CalculateDimensions: computes over exact reals, not IEEE doubles, and assumes positive original sides.
- ImageResize.CalculateDimensions: a zero-sized image, whose aspect ratio would be `NaN` or `Infinity` in JavaScript, is not modelled.
- ImageResize.ResizeImage: requires a decoded image with positive sides. A zero-sized decode, which in the source reaches `toBlob` on a 0×0 canvas and gets `null`, is not modelled.
- ImageResize.CompressImageBeforeUpload: requires positive decoded sides, for the same reason, so the original coming back after a zero-sized decode is not modelled.
- ImageResize.CompressionPolicy: requires positive decoded sides, for the same reason.
- `formatFileSize` rests on floating-point `Math.log`, `Math.pow` and `toFixed`, so it is left out.
- The nodemailer transport, `verifyEmailConnection`, `sendMail` itself and the `debug`/`logger` flags are a network client; only the reply of `sendMail` is a parameter.
- Email.HtmlToText: states only that the result has no white space at either end. It does not state that the trimmed text is an infix of the decoded text.
- Email.EntitiesDecode: states the six decodings for an entity followed by any text without `&`, rather than for every input. It needs no `;` after `&amp;`, so that the `&lt;`… steps cannot fire again.
- Transformation values are non-negative integers or strings. The source types them `any`, but every call passes preset integers or strings, so a fractional or negative number rendered by `${value}` is not modelled.
- Default `sort` is modelled as comparing strings by code point, where JavaScript compares UTF-16 code units. The two differ only for characters outside the Basic Multilingual Plane.
- `Number.prototype.toString` is modelled for non-negative integers only. Timestamps and sizes are such integers.
- `parseInt` is modelled over unbounded integers: white space, one sign, an optional `0x` prefix, then the longest run of digits. Its `NaN` is `None`.
- `file.type` on a text form entry is modelled as undefined, so `startsWith` throws. A `File` passed as `folder`, or a non-string `publicId`/`publicIds` element, is not modelled.
- Async sequencing and the SvelteKit `json` and `request` plumbing are framework glue. Each handler is a function from its parsed input and its oracle results to a status and a body.
- The Tailwind `color` strings and lucide icons of the contact table are UI.
- `src/lib/server/prisma/index.ts` holds only type re-exports and is not part of this model.
