/** The signed upload, delete and transformation-URL layer in front of the
    Cloudinary image host (src/lib/utils/cloudinary.ts). The network, the
    clock and SHA-1 are parameters: a reply the host gave, the time in
    milliseconds, and a function from the string to sign to its hex digest. */
module Cloudinary {
  import opened Wrappers
  import opened Js

  // ---------------------------------------------------------------------
  // Signing
  // ---------------------------------------------------------------------

  /** A parameter object, as its entries in insertion order; every value is
      already rendered as the text `${value}` produces. */
  type Params = seq<(string, string)>

  /** The keys of a list of entries (parameters or form fields), in order. */
  function Keys<V>(p: seq<(string, V)>): (r: seq<string>)
    ensures |r| == |p| && forall i :: 0 <= i < |p| ==> r[i] == p[i].0
  {
    if p == [] then [] else [p[0].0] + Keys(p[1..])
  }

  /** A JavaScript object never holds one key twice. */
  ghost predicate KeysDistinct(p: Params)
  {
    Distinct(Keys(p))
  }

  /** `params[key]`; an absent key renders as `undefined`. */
  function Lookup(p: Params, key: string): string
  {
    if p == [] then "undefined"
    else if p[0].0 == key then p[0].1
    else Lookup(p[1..], key)
  }

  /** `key=value` for each key, in the given order. */
  function RenderPairs(p: Params, keys: seq<string>): (r: seq<string>)
    ensures |r| == |keys|
    ensures forall i :: 0 <= i < |keys| ==> r[i] == keys[i] + "=" + Lookup(p, keys[i])
  {
    if keys == [] then [] else [keys[0] + "=" + Lookup(p, keys[0])] + RenderPairs(p, keys[1..])
  }

  /** The text `generateSignature` hashes: the keys sorted, each rendered as
      `key=value`, joined by `&`, with the secret appended. */
  function StringToSign(p: Params, secret: string): string
  {
    Join(RenderPairs(p, SortStrings(Keys(p))), "&") + secret
  }

  lemma {:induction false} LookupFindsEntry(p: Params, key: string)
    requires key in Keys(p)
    ensures (key, Lookup(p, key)) in p
  {
    if p[0].0 != key {
      assert key in Keys(p[1..]) by {
        var i :| 0 <= i < |p| && Keys(p)[i] == key;
        assert Keys(p[1..])[i - 1] == key;
      }
      LookupFindsEntry(p[1..], key);
    }
  }

  lemma {:induction false} LookupUnique(p: Params, key: string, value: string)
    requires KeysDistinct(p) && (key, value) in p
    ensures Lookup(p, key) == value
  {
    var i :| 0 <= i < |p| && p[i] == (key, value);
    if i > 0 {
      assert Keys(p)[0] != Keys(p)[i];
      assert p[1..][i - 1] == (key, value);
      assert KeysDistinct(p[1..]) by {
        forall a, b | 0 <= a < b < |p| - 1 ensures Keys(p[1..])[a] != Keys(p[1..])[b] {
          assert Keys(p)[a + 1] != Keys(p)[b + 1];
        }
      }
      LookupUnique(p[1..], key, value);
    }
  }

  lemma {:induction false} RenderPairsAgree(p: Params, q: Params, keys: seq<string>)
    requires forall k :: k in keys ==> Lookup(p, k) == Lookup(q, k)
    ensures RenderPairs(p, keys) == RenderPairs(q, keys)
  {
    if keys != [] {
      assert keys[0] in keys;
      RenderPairsAgree(p, q, keys[1..]);
    }
  }

  /** Every key of `p` is a key of `q` when every entry of `p` is one of
      `q`. */
  lemma SameEntriesSameKeys(p: Params, q: Params)
    requires forall e :: e in p ==> e in q
    ensures forall k :: k in Keys(p) ==> k in Keys(q)
  {
    forall k | k in Keys(p) ensures k in Keys(q) {
      var i :| 0 <= i < |p| && Keys(p)[i] == k;
      assert p[i] in q;
      var j :| 0 <= j < |q| && q[j] == p[i];
      assert Keys(q)[j] == k;
    }
  }

  /** The string to sign does not depend on the order in which the
      parameters were added: two parameter objects with the same entries sign
      the same text. */
  lemma SignatureIgnoresInsertionOrder(p: Params, q: Params, secret: string)
    requires KeysDistinct(p) && KeysDistinct(q)
    requires forall e :: e in p <==> e in q
    ensures StringToSign(p, secret) == StringToSign(q, secret)
  {
    SortedKeysAgree(p, q);
    LookupsAgree(p, q);
    RenderPairsAgree(p, q, SortStrings(Keys(p)));
  }

  /** Parameter objects with the same entries have the same sorted keys. */
  lemma SortedKeysAgree(p: Params, q: Params)
    requires KeysDistinct(p) && KeysDistinct(q)
    requires forall e :: e in p <==> e in q
    ensures SortStrings(Keys(p)) == SortStrings(Keys(q))
    ensures forall k :: k in SortStrings(Keys(p)) ==> k in Keys(p)
  {
    SortedSameMembers(Keys(p));
    SortedSameMembers(Keys(q));
    KeysAgree(p, q);
    StrictlySortedUnique(SortStrings(Keys(p)), SortStrings(Keys(q)));
  }

  /** Sorting distinct strings gives a strictly ascending sequence of the same
      strings. */
  lemma SortedSameMembers(s: seq<string>)
    requires Distinct(s)
    ensures StrictlySorted(SortStrings(s))
    ensures forall k :: k in SortStrings(s) <==> k in s
  {
    SortStrict(s);
    forall k ensures k in SortStrings(s) <==> k in s {
      assert k in SortStrings(s) <==> k in multiset(SortStrings(s));
      assert k in s <==> k in multiset(s);
    }
  }

  /** Parameter objects with the same entries have the same keys. */
  lemma KeysAgree(p: Params, q: Params)
    requires forall e :: e in p <==> e in q
    ensures forall k :: k in Keys(p) <==> k in Keys(q)
  {
    SameEntriesSameKeys(p, q);
    SameEntriesSameKeys(q, p);
  }

  /** Parameter objects with the same entries and distinct keys look every
      key up to the same value. */
  lemma LookupsAgree(p: Params, q: Params)
    requires KeysDistinct(p) && KeysDistinct(q)
    requires forall e :: e in p <==> e in q
    ensures forall k :: k in Keys(p) ==> Lookup(p, k) == Lookup(q, k)
  {
    forall k | k in Keys(p) ensures Lookup(p, k) == Lookup(q, k) {
      LookupFindsEntry(p, k);
      LookupUnique(q, k, Lookup(p, k));
    }
  }

  // ---------------------------------------------------------------------
  // Values exchanged with the host
  // ---------------------------------------------------------------------

  /** What a caller may pass as the options of `uploadImage`; `None` is an
      option left undefined. */
  datatype UploadOptions = UploadOptions(folder: Option<string>, compression: Option<bool>, maxFileSize: Option<nat>)

  /** A field of a multipart form. */
  datatype FormValue = FileValue(file: File) | TextValue(text: string)

  /** A POST of a multipart form, the one network call an operation makes. */
  datatype HttpPost = HttpPost(url: string, form: seq<(string, FormValue)>)

  /** The fields of the host's upload reply that the code reads. */
  datatype ProviderResponse = ProviderResponse(
    public_id: string, secure_url: string, url: string, format: string,
    width: int, height: int, bytes: int)

  /** What `JSON.parse` makes of a reply body, seen through what the code
      reads from it: a syntax error, `null`, or an object with its
      `error?.message` (empty when absent or empty) and its upload fields. */
  datatype JsonReading =
    | NotJson(syntaxError: string)
    | JsonNull
    | JsonObject(errorMessage: string, fields: ProviderResponse)

  /** How `fetch` and `response.text()` completed. */
  datatype FetchReply =
    | FetchFailed(message: string)
    | HttpReply(ok: bool, statusText: string, text: string, json: JsonReading)

  /** The stable result of an upload. */
  datatype UploadResult = UploadResult(publicId: string, url: string, width: int, height: int, bytes: int, format: string)

  /** What an upload call did: the request it sent, if any, and how it
      completed. */
  datatype UploadRun = UploadRun(request: Option<HttpPost>, result: Result<UploadResult>)

  /** How the destroy call completed: `fetch` or `response.json()` threw, or
      the reply was parsed and its `result` field read (`None` when absent or
      not a string). */
  datatype DestroyReply = DestroyFailed(message: string) | DestroyReplied(result: Option<string>)

  /** What a delete call did: the request it sent and the boolean returned. */
  datatype DeleteRun = DeleteRun(request: HttpPost, deleted: bool)

  /** A transformation value: a number or a string. */
  datatype TValue = Num(n: nat) | Str(s: string)

  /** `${value}` of a transformation value. */
  function RenderValue(v: TValue): string
  {
    match v
    case Num(n) => NatToString(n)
    case Str(s) => s
  }

  /** The five responsive variants: the object `generateResponsiveUrls`
      returns. */
  datatype ResponsiveUrls = ResponsiveUrls(large: string, medium: string, small: string, thumbnail: string, icon: string)

  const MissingConfigMessage := "Missing required Cloudinary environment variables"
  const UploadFailurePrefix := "Failed to upload image: "
  const HostFailurePrefix := "Cloudinary upload failed: "
  /** What V8 reports when a field of `null` is read. */
  const NullFieldMessage := "Cannot read properties of null (reading 'public_id')"

  /** `Math.round(Date.now() / 1000)`: seconds since the epoch. */
  function Timestamp(nowMillis: nat): nat
  {
    var t := Round(nowMillis as real / 1000.0);
    assert t >= 0;
    t
  }

  /** The options an upload uses once its defaults are filled in:
      folder `''`, compression on, a 10 MB limit. */
  function FolderOf(o: UploadOptions): string { OptionOr(o.folder, "") }
  function CompressionOf(o: UploadOptions): bool { OptionOr(o.compression, true) }
  function MaxFileSizeOf(o: UploadOptions): nat { OptionOr(o.maxFileSize, 10) }

  /** The byte limit of an upload. */
  function SizeLimit(o: UploadOptions): nat { MaxFileSizeOf(o) * 1024 * 1024 }

  /** The parameters an upload signs: the timestamp, and the folder when it is
      not empty. */
  function UploadSignatureParams(folder: string, timestamp: nat): Params
  {
    [("timestamp", NatToString(timestamp))] + (if folder != "" then [("folder", folder)] else [])
  }

  /** The message an upload fails with when the host answers with a status
      that is not ok. */
  function HostErrorMessage(statusText: string, text: string, json: JsonReading): string
  {
    var detail :=
      match json
      case JsonObject(em, _) => if em != "" then em else statusText
      case _ => if text != "" then text else statusText;
    UploadFailurePrefix + HostFailurePrefix + detail
  }

  /** The host's field names mapped onto the upload result. */
  function ToUploadResult(r: ProviderResponse): (u: UploadResult)
  {
    UploadResult(r.public_id, r.secure_url, r.width, r.height, r.bytes, r.format)
  }

  /** How an upload whose request was sent completes, given the reply. */
  function UploadCompletion(reply: FetchReply): Result<UploadResult>
  {
    match reply
    case FetchFailed(m) => Thrown(UploadFailurePrefix + m)
    case HttpReply(ok, statusText, text, json) =>
      if !ok then Thrown(HostErrorMessage(statusText, text, json))
      else match json
        case NotJson(m) => Thrown(UploadFailurePrefix + m)
        case JsonNull => Thrown(UploadFailurePrefix + NullFieldMessage)
        case JsonObject(_, fields) => Ok(ToUploadResult(fields))
  }

  /** `${model}/${entitySlug}`. */
  function GenerateFolderPath(model: string, entitySlug: string): string
  {
    model + "/" + entitySlug
  }

  /** A folder path names its model and its slug: when the model holds no
      `/`, the path determines both. */
  lemma FolderPathInjective(model1: string, slug1: string, model2: string, slug2: string)
    requires '/' !in model1 && '/' !in model2
    requires GenerateFolderPath(model1, slug1) == GenerateFolderPath(model2, slug2)
    ensures model1 == model2 && slug1 == slug2
  {
    SplitAtSeparator(model1, '/', slug1);
    SplitAtSeparator(model2, '/', slug2);
    assert GenerateFolderPath(model1, slug1) == model1 + ['/'] + slug1;
    assert GenerateFolderPath(model2, slug2) == model2 + ['/'] + slug2;
    assert Split(model1 + ['/'] + slug1, '/')[0] == model1;
    assert model1 == model2;
    assert slug1 == GenerateFolderPath(model1, slug1)[|model1| + 1..];
  }

  // ---------------------------------------------------------------------
  // The uploader
  // ---------------------------------------------------------------------

  /** `CloudinaryUploader`: its credentials are set once by the constructor
      and never change. */
  datatype Uploader = Uploader(cloudName: string, apiKey: string, apiSecret: string)
  {
    /** `generateSignature`: the hex SHA-1 digest of the string to sign. */
    function Sign(p: Params, sha1Hex: string -> string): string
    {
      sha1Hex(StringToSign(p, apiSecret))
    }

    function UploadEndpoint(): string
    {
      "https://api.cloudinary.com/v1_1/" + cloudName + "/image/upload"
    }

    function DestroyEndpoint(): string
    {
      "https://api.cloudinary.com/v1_1/" + cloudName + "/image/destroy"
    }

    /** The fields of the upload form, in the order they are appended. */
    function UploadForm(file: File, folder: string, compression: bool, timestamp: nat, signature: string): seq<(string, FormValue)>
    {
      [("file", FileValue(file)), ("api_key", TextValue(apiKey)),
       ("timestamp", TextValue(NatToString(timestamp))), ("signature", TextValue(signature))]
      + (if folder != "" then [("folder", TextValue(folder))] else [])
      + (if compression then [("quality", TextValue("auto")), ("fetch_format", TextValue("auto"))] else [])
    }

    /** What `uploadImage` does, as a function of its inputs, the clock and
        the host's reply. */
    function UploadOutcome(file: File, options: UploadOptions, nowMillis: nat, sha1Hex: string -> string, reply: FetchReply): UploadRun
    {
      var folder := FolderOf(options);
      if file.Size() > SizeLimit(options) then
        UploadRun(None, Thrown("File size exceeds " + NatToString(MaxFileSizeOf(options)) + "MB limit"))
      else if !StartsWith(file.mimeType, "image/") then
        UploadRun(None, Thrown("File must be an image"))
      else
        var timestamp := Timestamp(nowMillis);
        var signature := Sign(UploadSignatureParams(folder, timestamp), sha1Hex);
        var form := UploadForm(file, folder, CompressionOf(options), timestamp, signature);
        UploadRun(Some(HttpPost(UploadEndpoint(), form)), UploadCompletion(reply))
    }

    /** `uploadImage`, step by step as the source runs it. */
    method UploadImage(file: File, options: UploadOptions, nowMillis: nat, sha1Hex: string -> string, reply: FetchReply)
      returns (request: Option<HttpPost>, result: Result<UploadResult>)
      ensures UploadRun(request, result) == UploadOutcome(file, options, nowMillis, sha1Hex, reply)
    {
      var folder := OptionOr(options.folder, "");
      var compression := OptionOr(options.compression, true);
      var maxFileSize := OptionOr(options.maxFileSize, 10);

      if file.Size() > maxFileSize * 1024 * 1024 {
        return None, Thrown("File size exceeds " + NatToString(maxFileSize) + "MB limit");
      }
      if !StartsWith(file.mimeType, "image/") {
        return None, Thrown("File must be an image");
      }

      var timestamp := Timestamp(nowMillis);
      var signatureParams: Params := [("timestamp", NatToString(timestamp))];
      if folder != "" {
        signatureParams := signatureParams + [("folder", folder)];
      }
      assert signatureParams == UploadSignatureParams(folder, timestamp);
      var signature := Sign(signatureParams, sha1Hex);

      var formData := BuildUploadForm(file, folder, compression, timestamp, signature);
      request := Some(HttpPost(UploadEndpoint(), formData));
      result := CompleteUpload(reply);
    }

    /** The form `uploadImage` builds, field by field. */
    method BuildUploadForm(file: File, folder: string, compression: bool, timestamp: nat, signature: string)
      returns (formData: seq<(string, FormValue)>)
      ensures formData == UploadForm(file, folder, compression, timestamp, signature)
    {
      formData := [];
      formData := formData + [("file", FileValue(file))];
      formData := formData + [("api_key", TextValue(apiKey))];
      formData := formData + [("timestamp", TextValue(NatToString(timestamp)))];
      formData := formData + [("signature", TextValue(signature))];
      if folder != "" {
        formData := formData + [("folder", TextValue(folder))];
      }
      if compression {
        formData := formData + [("quality", TextValue("auto"))];
        formData := formData + [("fetch_format", TextValue("auto"))];
      }
    }

    /** How `uploadImage` turns the host's reply into its result. */
    method CompleteUpload(reply: FetchReply) returns (result: Result<UploadResult>)
      ensures result == UploadCompletion(reply)
    {
      match reply {
        case FetchFailed(m) =>
          result := Thrown(UploadFailurePrefix + m);
        case HttpReply(ok, statusText, text, json) =>
          if !ok {
            var errorMessage := statusText;
            match json {
              case JsonObject(em, _) =>
                if em != "" { errorMessage := em; }
              case _ =>
                if text != "" { errorMessage := text; }
            }
            result := Thrown(UploadFailurePrefix + HostFailurePrefix + errorMessage);
          } else {
            match json {
              case NotJson(m) => result := Thrown(UploadFailurePrefix + m);
              case JsonNull => result := Thrown(UploadFailurePrefix + NullFieldMessage);
              case JsonObject(_, r) =>
                result := Ok(UploadResult(r.public_id, r.secure_url, r.width, r.height, r.bytes, r.format));
            }
          }
      }
    }

    /** `generateTransformationUrl`: the entries, in the object's enumeration
        order, as `key_value` joined by commas, between the delivery base and
        the public id. */
    function TransformationUrl(publicId: string, transformations: seq<(string, TValue)>): string
    {
      DeliveryBase() + "/" + Join(RenderTransforms(transformations), ",") + "/" + publicId
    }

    function DeliveryBase(): string
    {
      "https://res.cloudinary.com/" + cloudName + "/image/upload"
    }

    /** `generateResponsiveUrls`: five fill-cropped, auto-quality, auto-format
        variants. */
    function GenerateResponsiveUrls(publicId: string): ResponsiveUrls
    {
      ResponsiveUrls(
        TransformationUrl(publicId, FillPreset(1920, 1080)),
        TransformationUrl(publicId, FillPreset(1280, 720)),
        TransformationUrl(publicId, FillPreset(640, 360)),
        TransformationUrl(publicId, FillPreset(320, 180)),
        TransformationUrl(publicId, FillPreset(64, 64)))
    }

    /** The parameters a delete signs. */
    function DeleteSignatureParams(publicId: string, timestamp: nat): Params
    {
      [("public_id", publicId), ("timestamp", NatToString(timestamp))]
    }

    /** What `deleteImage` does: it always sends the signed destroy request
        and returns true exactly when the reply's `result` is `'ok'`; a
        thrown error becomes false. */
    function DeleteImage(publicId: string, nowMillis: nat, sha1Hex: string -> string, reply: DestroyReply): DeleteRun
    {
      var timestamp := Timestamp(nowMillis);
      var signature := Sign(DeleteSignatureParams(publicId, timestamp), sha1Hex);
      var form := [("public_id", TextValue(publicId)), ("signature", TextValue(signature)),
                   ("api_key", TextValue(apiKey)), ("timestamp", TextValue(NatToString(timestamp)))];
      var deleted := match reply
        case DestroyFailed(_) => false
        case DestroyReplied(r) => r == Some("ok");
      DeleteRun(HttpPost(DestroyEndpoint(), form), deleted)
    }
  }

  /** `new CloudinaryUploader()`: it throws unless all three credentials are
      set. */
  function NewUploader(cloudName: string, apiKey: string, apiSecret: string): (r: Result<Uploader>)
    ensures r.Ok? <==> cloudName != "" && apiKey != "" && apiSecret != ""
    ensures r.Ok? ==> r.value == Uploader(cloudName, apiKey, apiSecret)
    ensures r.Thrown? ==> r.message == MissingConfigMessage
  {
    if cloudName == "" || apiKey == "" || apiSecret == "" then Thrown(MissingConfigMessage)
    else Ok(Uploader(cloudName, apiKey, apiSecret))
  }

  /** The entries of a transformation object as `key_value` texts. */
  function RenderTransforms(t: seq<(string, TValue)>): (r: seq<string>)
    ensures |r| == |t|
    ensures forall i :: 0 <= i < |t| ==> r[i] == t[i].0 + "_" + RenderValue(t[i].1)
  {
    if t == [] then [] else [t[0].0 + "_" + RenderValue(t[0].1)] + RenderTransforms(t[1..])
  }

  /** A responsive preset: `{w, h, c: 'fill', q: 'auto', f: 'auto'}`. */
  function FillPreset(width: nat, height: nat): seq<(string, TValue)>
  {
    [("w", Num(width)), ("h", Num(height)), ("c", Str("fill")), ("q", Str("auto")), ("f", Str("auto"))]
  }

  // ---------------------------------------------------------------------
  // Properties
  // ---------------------------------------------------------------------

  /** An upload signs `folder=<folder>&timestamp=<seconds>` followed by the
      secret, and only `timestamp=<seconds>` when the folder is empty. */
  lemma UploadStringToSign(folder: string, timestamp: nat, secret: string)
    ensures StringToSign(UploadSignatureParams(folder, timestamp), secret)
            == Join(if folder != "" then ["folder=" + folder, "timestamp=" + NatToString(timestamp)]
                    else ["timestamp=" + NatToString(timestamp)], "&") + secret
  {
    var p := UploadSignatureParams(folder, timestamp);
    var ts := NatToString(timestamp);
    assert "folder" + "=" == "folder=" && "timestamp" + "=" == "timestamp=";
    if folder != "" {
      SortTwo("timestamp", "folder");
      assert Keys(p) == ["timestamp", "folder"];
      assert Lookup(p, "folder") == folder;
      assert RenderPairs(p, ["folder", "timestamp"]) == ["folder=" + folder, "timestamp=" + ts];
    } else {
      assert Keys(p) == ["timestamp"];
      assert SortStrings(["timestamp"]) == ["timestamp"];
      assert RenderPairs(p, ["timestamp"]) == ["timestamp=" + ts];
    }
  }

  /** Sorting two keys, the first of which sorts after the second. */
  lemma SortTwo(a: string, b: string)
    requires Below(b, a)
    ensures SortStrings([a, b]) == [b, a]
  {
    assert [a, b][1..] == [b];
    assert SortStrings([b]) == [b];
    assert Insert(a, [b]) == [b] + Insert(a, []);
  }

  /** Sorting two keys already in order. */
  lemma SortTwoInOrder(a: string, b: string)
    requires Below(a, b)
    ensures SortStrings([a, b]) == [a, b]
  {
    assert [a, b][1..] == [b];
    assert SortStrings([b]) == [b];
    BelowAsymmetric(a, b);
  }

  /** A delete signs `public_id=<id>&timestamp=<seconds>` followed by the
      secret. */
  lemma DeleteStringToSign(u: Uploader, publicId: string, timestamp: nat, secret: string)
    ensures StringToSign(u.DeleteSignatureParams(publicId, timestamp), secret)
            == Join(["public_id=" + publicId, "timestamp=" + NatToString(timestamp)], "&") + secret
  {
    var p := u.DeleteSignatureParams(publicId, timestamp);
    var ts := NatToString(timestamp);
    SortTwoInOrder("public_id", "timestamp");
    assert Keys(p) == ["public_id", "timestamp"];
    assert Lookup(p, "timestamp") == ts;
    assert "public_id" + "=" == "public_id=" && "timestamp" + "=" == "timestamp=";
    assert RenderPairs(p, ["public_id", "timestamp"]) == ["public_id=" + publicId, "timestamp=" + ts];
  }

  /** The checks `uploadImage` makes before any request: the size first (at
      most `maxFileSize` MiB, 10 by default), then the MIME type. A request is
      sent exactly when both pass. */
  lemma UploadValidation(u: Uploader, file: File, options: UploadOptions, nowMillis: nat, sha1Hex: string -> string, reply: FetchReply)
    ensures var run := u.UploadOutcome(file, options, nowMillis, sha1Hex, reply);
      && (run.request.Some? <==> file.Size() <= SizeLimit(options) && StartsWith(file.mimeType, "image/"))
      && (file.Size() > SizeLimit(options) ==>
            run.result == Thrown("File size exceeds " + NatToString(MaxFileSizeOf(options)) + "MB limit"))
      && (file.Size() <= SizeLimit(options) && !StartsWith(file.mimeType, "image/") ==>
            run.result == Thrown("File must be an image"))
    ensures options.maxFileSize.None? ==> SizeLimit(options) == 10485760
  {
  }

  /** Where each field of the upload form sits. */
  lemma UploadFormAt(u: Uploader, file: File, folder: string, compression: bool, timestamp: nat, signature: string)
    ensures var form := u.UploadForm(file, folder, compression, timestamp, signature);
            var n := if folder != "" then 5 else 4;
      && |form| == n + (if compression then 2 else 0)
      && form[0] == ("file", FileValue(file)) && form[1] == ("api_key", TextValue(u.apiKey))
      && form[2] == ("timestamp", TextValue(NatToString(timestamp)))
      && form[3] == ("signature", TextValue(signature))
      && (folder != "" ==> form[4] == ("folder", TextValue(folder)))
      && (compression ==> form[n] == ("quality", TextValue("auto")) && form[n + 1] == ("fetch_format", TextValue("auto")))
  {
    var form := u.UploadForm(file, folder, compression, timestamp, signature);
    var head := [("file", FileValue(file)), ("api_key", TextValue(u.apiKey)),
                 ("timestamp", TextValue(NatToString(timestamp))), ("signature", TextValue(signature))];
    var folderPart := if folder != "" then [("folder", TextValue(folder))] else [];
    var hintPart := if compression then [("quality", TextValue("auto")), ("fetch_format", TextValue("auto"))] else [];
    assert form == head + folderPart + hintPart;
    if compression {
      assert form[|head + folderPart|] == hintPart[0];
      assert form[|head + folderPart| + 1] == hintPart[1];
    }
  }

  /** The upload form carries the given signature and every parameter the
      upload signs, with its value. */
  lemma UploadFormCarriesSigned(u: Uploader, file: File, folder: string, compression: bool, timestamp: nat, signature: string)
    ensures var form := u.UploadForm(file, folder, compression, timestamp, signature);
      && ("signature", TextValue(signature)) in form
      && (forall e :: e in UploadSignatureParams(folder, timestamp) ==> (e.0, TextValue(e.1)) in form)
  {
    var form := u.UploadForm(file, folder, compression, timestamp, signature);
    UploadFormAt(u, file, folder, compression, timestamp, signature);
    assert form[3] in form && form[2] in form;
    if folder != "" {
      assert form[4] in form;
    }
  }

  /** Every field of the upload form besides the file, the key, the signature
      and the compression hints is a signed parameter, with its signed
      value. */
  lemma UploadFormSendsOnlySigned(u: Uploader, file: File, folder: string, compression: bool, timestamp: nat, signature: string)
    ensures var form := u.UploadForm(file, folder, compression, timestamp, signature);
            var signed := UploadSignatureParams(folder, timestamp);
      forall i :: 0 <= i < |form| && form[i].0 !in {"file", "api_key", "signature", "quality", "fetch_format"}
        ==> form[i].0 in Keys(signed) && form[i].1 == TextValue(Lookup(signed, form[i].0))
  {
    var form := u.UploadForm(file, folder, compression, timestamp, signature);
    var signed := UploadSignatureParams(folder, timestamp);
    var ts := NatToString(timestamp);
    UploadFormAt(u, file, folder, compression, timestamp, signature);
    assert Keys(signed)[0] == "timestamp" && Lookup(signed, "timestamp") == ts;
    if folder != "" {
      assert Keys(signed)[1] == "folder" && Lookup(signed, "folder") == folder;
    }
  }

  /** The upload form has a `folder` field exactly when the folder is not
      empty. */
  lemma UploadFormFolder(u: Uploader, file: File, folder: string, compression: bool, timestamp: nat, signature: string)
    ensures "folder" in Keys(u.UploadForm(file, folder, compression, timestamp, signature)) <==> folder != ""
  {
    var form := u.UploadForm(file, folder, compression, timestamp, signature);
    UploadFormAt(u, file, folder, compression, timestamp, signature);
    if folder != "" {
      assert Keys(form)[4] == "folder";
    } else {
      forall i | 0 <= i < |form| ensures Keys(form)[i] != "folder" {
      }
    }
  }

  /** The upload request carries the signature of exactly the parameters it
      sends besides the file, the key, the signature and the hints. */
  lemma UploadSignsWhatItSends(u: Uploader, file: File, options: UploadOptions, nowMillis: nat, sha1Hex: string -> string, reply: FetchReply)
    requires u.UploadOutcome(file, options, nowMillis, sha1Hex, reply).request.Some?
    ensures var form := u.UploadOutcome(file, options, nowMillis, sha1Hex, reply).request.value.form;
            var signed := UploadSignatureParams(FolderOf(options), Timestamp(nowMillis));
      && ("signature", TextValue(sha1Hex(StringToSign(signed, u.apiSecret)))) in form
      && (forall e :: e in signed ==> (e.0, TextValue(e.1)) in form)
      && (forall i :: 0 <= i < |form| && form[i].0 !in {"file", "api_key", "signature", "quality", "fetch_format"}
            ==> form[i].0 in Keys(signed) && form[i].1 == TextValue(Lookup(signed, form[i].0)))
      && ("folder" in Keys(form) <==> FolderOf(options) != "")
  {
    var folder, ts := FolderOf(options), Timestamp(nowMillis);
    var signature := u.Sign(UploadSignatureParams(folder, ts), sha1Hex);
    UploadFormCarriesSigned(u, file, folder, CompressionOf(options), ts, signature);
    UploadFormSendsOnlySigned(u, file, folder, CompressionOf(options), ts, signature);
    UploadFormFolder(u, file, folder, CompressionOf(options), ts, signature);
  }

  /** `quality=auto` and `fetch_format=auto` are sent exactly when
      compression is on, which it is unless the caller turns it off. */
  lemma UploadCompressionHints(u: Uploader, file: File, options: UploadOptions, nowMillis: nat, sha1Hex: string -> string, reply: FetchReply)
    requires u.UploadOutcome(file, options, nowMillis, sha1Hex, reply).request.Some?
    ensures var form := u.UploadOutcome(file, options, nowMillis, sha1Hex, reply).request.value.form;
      && (("quality", TextValue("auto")) in form <==> CompressionOf(options))
      && (("fetch_format", TextValue("auto")) in form <==> CompressionOf(options))
      && ("quality" in Keys(form) <==> CompressionOf(options))
    ensures options.compression.None? ==> CompressionOf(options)
  {
    var folder, ts := FolderOf(options), Timestamp(nowMillis);
    var signature := u.Sign(UploadSignatureParams(folder, ts), sha1Hex);
    var form := u.UploadForm(file, folder, CompressionOf(options), ts, signature);
    UploadFormAt(u, file, folder, CompressionOf(options), ts, signature);
    var n := if folder != "" then 5 else 4;
    if CompressionOf(options) {
      assert form[n] in form && form[n + 1] in form;
      assert Keys(form)[n] == "quality";
    } else {
      forall i | 0 <= i < |form| ensures form[i].0 !in {"quality", "fetch_format"} {
      }
    }
  }

  /** Once both checks pass, the upload sends its request and completes as
      the reply dictates. */
  lemma UploadSent(u: Uploader, file: File, options: UploadOptions, nowMillis: nat, sha1Hex: string -> string, reply: FetchReply)
    requires file.Size() <= SizeLimit(options) && StartsWith(file.mimeType, "image/")
    ensures u.UploadOutcome(file, options, nowMillis, sha1Hex, reply).result == UploadCompletion(reply)
  {
  }

  /** The message of an upload the host refused: the JSON `error.message`
      when the body parses to an object carrying one; otherwise the status
      text when it parses to an object; otherwise the body text, or the status
      text when the body is empty; always behind both failure prefixes. */
  lemma UploadErrorChain(u: Uploader, file: File, options: UploadOptions, nowMillis: nat, sha1Hex: string -> string,
                         statusText: string, text: string, json: JsonReading)
    requires file.Size() <= SizeLimit(options) && StartsWith(file.mimeType, "image/")
    ensures var r := u.UploadOutcome(file, options, nowMillis, sha1Hex, HttpReply(false, statusText, text, json)).result;
            var prefix := UploadFailurePrefix + HostFailurePrefix;
      && (json.JsonObject? && json.errorMessage != "" ==> r == Thrown(prefix + json.errorMessage))
      && (json.JsonObject? && json.errorMessage == "" ==> r == Thrown(prefix + statusText))
      && (!json.JsonObject? && text != "" ==> r == Thrown(prefix + text))
      && (!json.JsonObject? && text == "" ==> r == Thrown(prefix + statusText))
  {
    UploadSent(u, file, options, nowMillis, sha1Hex, HttpReply(false, statusText, text, json));
  }

  /** A successful upload maps `public_id`, `secure_url` (not `url`),
      `width`, `height`, `bytes` and `format` onto the result; an unparsable
      body or a failed request fails behind the upload prefix. */
  lemma UploadReplyMapping(u: Uploader, file: File, options: UploadOptions, nowMillis: nat, sha1Hex: string -> string, reply: FetchReply)
    requires file.Size() <= SizeLimit(options) && StartsWith(file.mimeType, "image/")
    ensures var r := u.UploadOutcome(file, options, nowMillis, sha1Hex, reply).result;
      && (reply.HttpReply? && reply.ok && reply.json.JsonObject? ==>
            var f := reply.json.fields;
            r.Ok? && r.value.publicId == f.public_id && r.value.url == f.secure_url
            && r.value.width == f.width && r.value.height == f.height
            && r.value.bytes == f.bytes && r.value.format == f.format)
      && (reply.HttpReply? && reply.ok && reply.json.NotJson? ==>
            r == Thrown("Failed to upload image: " + reply.json.syntaxError))
      && (reply.FetchFailed? ==> r == Thrown("Failed to upload image: " + reply.message))
      && (r.Ok? <==> reply.HttpReply? && reply.ok && reply.json.JsonObject?)
  {
    UploadSent(u, file, options, nowMillis, sha1Hex, reply);
  }

  /** The transformation segment sits between the delivery base and the
      public id; it is empty when there are no transformations, and otherwise
      splits on `,` back into the `key_value` entries, in order, when no entry
      holds a comma. */
  lemma TransformationSegment(u: Uploader, publicId: string, t: seq<(string, TValue)>)
    ensures u.TransformationUrl(publicId, t)
            == "https://res.cloudinary.com/" + u.cloudName + "/image/upload/" + Join(RenderTransforms(t), ",") + "/" + publicId
    ensures t == [] ==> Join(RenderTransforms(t), ",") == ""
    ensures t != [] && (forall i :: 0 <= i < |t| ==> ',' !in t[i].0 + "_" + RenderValue(t[i].1))
            ==> Split(Join(RenderTransforms(t), ","), ',') == RenderTransforms(t)
  {
    TransformationUrlShape(u, publicId, Join(RenderTransforms(t), ","), t);
    if t != [] && (forall i :: 0 <= i < |t| ==> ',' !in t[i].0 + "_" + RenderValue(t[i].1)) {
      SegmentSplits(t);
    }
  }

  lemma TransformationUrlShape(u: Uploader, publicId: string, seg: string, t: seq<(string, TValue)>)
    requires seg == Join(RenderTransforms(t), ",")
    ensures u.TransformationUrl(publicId, t)
            == "https://res.cloudinary.com/" + u.cloudName + "/image/upload/" + seg + "/" + publicId
  {
    assert u.TransformationUrl(publicId, t) == u.DeliveryBase() + "/" + seg + "/" + publicId;
    assert u.DeliveryBase() + "/" == "https://res.cloudinary.com/" + u.cloudName + "/image/upload/";
  }

  lemma SegmentSplits(t: seq<(string, TValue)>)
    requires t != []
    requires forall i :: 0 <= i < |t| ==> ',' !in t[i].0 + "_" + RenderValue(t[i].1)
    ensures Split(Join(RenderTransforms(t), ","), ',') == RenderTransforms(t)
  {
    var r := RenderTransforms(t);
    assert forall k :: 0 <= k < |r| ==> ',' !in r[k];
    assert "," == [','];
    SplitJoin(r, ',');
  }

  lemma RenderFillPreset(width: nat, height: nat)
    ensures RenderTransforms(FillPreset(width, height))
            == ["w_" + NatToString(width), "h_" + NatToString(height), "c_fill", "q_auto", "f_auto"]
  {
    var r := RenderTransforms(FillPreset(width, height));
    assert r[0] == "w" + "_" + NatToString(width);
    assert r[2] == "c" + "_" + "fill";
    assert "c" + "_" + "fill" == "c_fill";
    assert "q" + "_" + "auto" == "q_auto";
    assert "f" + "_" + "auto" == "f_auto";
    assert "w" + "_" == "w_" && "h" + "_" == "h_";
  }

  /** The URL of a fill preset, once the numerals of its size are known. */
  lemma FillUrl(u: Uploader, publicId: string, width: nat, height: nat, widthPart: string, heightPart: string)
    requires "w_" + NatToString(width) == widthPart && "h_" + NatToString(height) == heightPart
    ensures u.TransformationUrl(publicId, FillPreset(width, height))
            == "https://res.cloudinary.com/" + u.cloudName + "/image/upload/"
               + Join([widthPart, heightPart, "c_fill", "q_auto", "f_auto"], ",") + "/" + publicId
  {
    RenderFillPreset(width, height);
    TransformationUrlShape(u, publicId, Join([widthPart, heightPart, "c_fill", "q_auto", "f_auto"], ","), FillPreset(width, height));
  }

  lemma LargeUrl(u: Uploader, publicId: string)
    ensures u.GenerateResponsiveUrls(publicId).large
            == "https://res.cloudinary.com/" + u.cloudName + "/image/upload/"
               + Join(["w_1920", "h_1080", "c_fill", "q_auto", "f_auto"], ",") + "/" + publicId
  {
    FillUrl(u, publicId, 1920, 1080, "w_1920", "h_1080");
  }

  lemma MediumUrl(u: Uploader, publicId: string)
    ensures u.GenerateResponsiveUrls(publicId).medium
            == "https://res.cloudinary.com/" + u.cloudName + "/image/upload/"
               + Join(["w_1280", "h_720", "c_fill", "q_auto", "f_auto"], ",") + "/" + publicId
  {
    FillUrl(u, publicId, 1280, 720, "w_1280", "h_720");
  }

  lemma SmallUrl(u: Uploader, publicId: string)
    ensures u.GenerateResponsiveUrls(publicId).small
            == "https://res.cloudinary.com/" + u.cloudName + "/image/upload/"
               + Join(["w_640", "h_360", "c_fill", "q_auto", "f_auto"], ",") + "/" + publicId
  {
    FillUrl(u, publicId, 640, 360, "w_640", "h_360");
  }

  lemma ThumbnailUrl(u: Uploader, publicId: string)
    ensures u.GenerateResponsiveUrls(publicId).thumbnail
            == "https://res.cloudinary.com/" + u.cloudName + "/image/upload/"
               + Join(["w_320", "h_180", "c_fill", "q_auto", "f_auto"], ",") + "/" + publicId
  {
    FillUrl(u, publicId, 320, 180, "w_320", "h_180");
  }

  lemma IconUrl(u: Uploader, publicId: string)
    ensures u.GenerateResponsiveUrls(publicId).icon
            == "https://res.cloudinary.com/" + u.cloudName + "/image/upload/"
               + Join(["w_64", "h_64", "c_fill", "q_auto", "f_auto"], ",") + "/" + publicId
  {
    FillUrl(u, publicId, 64, 64, "w_64", "h_64");
  }

  /** `generateResponsiveUrls` yields these five URLs. */
  lemma ResponsiveUrlsExact(u: Uploader, publicId: string)
    ensures var r := u.GenerateResponsiveUrls(publicId);
            var base := "https://res.cloudinary.com/" + u.cloudName + "/image/upload/";
      && r.large == base + Join(["w_1920", "h_1080", "c_fill", "q_auto", "f_auto"], ",") + "/" + publicId
      && r.medium == base + Join(["w_1280", "h_720", "c_fill", "q_auto", "f_auto"], ",") + "/" + publicId
      && r.small == base + Join(["w_640", "h_360", "c_fill", "q_auto", "f_auto"], ",") + "/" + publicId
      && r.thumbnail == base + Join(["w_320", "h_180", "c_fill", "q_auto", "f_auto"], ",") + "/" + publicId
      && r.icon == base + Join(["w_64", "h_64", "c_fill", "q_auto", "f_auto"], ",") + "/" + publicId
  {
    LargeUrl(u, publicId);
    MediumUrl(u, publicId);
    SmallUrl(u, publicId);
    ThumbnailUrl(u, publicId);
    IconUrl(u, publicId);
  }

  /** A delete always sends one signed destroy request with the public id,
      the signature, the key and the timestamp, and reports true exactly when
      the reply's `result` is `'ok'`: any thrown error is false. */
  lemma DeleteOutcomeRule(u: Uploader, publicId: string, nowMillis: nat, sha1Hex: string -> string, reply: DestroyReply)
    ensures var run := u.DeleteImage(publicId, nowMillis, sha1Hex, reply);
            var ts := NatToString(Timestamp(nowMillis));
      && run.request.url == "https://api.cloudinary.com/v1_1/" + u.cloudName + "/image/destroy"
      && run.request.form
         == [("public_id", TextValue(publicId)),
             ("signature", TextValue(sha1Hex(Join(["public_id=" + publicId, "timestamp=" + ts], "&") + u.apiSecret))),
             ("api_key", TextValue(u.apiKey)), ("timestamp", TextValue(ts))]
      && (run.deleted <==> reply == DestroyReplied(Some("ok")))
      && (reply.DestroyFailed? ==> !run.deleted)
  {
    DeleteStringToSign(u, publicId, Timestamp(nowMillis), u.apiSecret);
  }
}
