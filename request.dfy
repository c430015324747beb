/** Validation and request assembly in `main` of image-gen/generate.ts.

    The checks run in a fixed order and the first one that fails ends the process with
    exit status 1: an empty prompt, a missing API key, an aspect ratio outside the five
    accepted ones, a reference image that does not exist, a reference extension without a
    MIME type. Only when all pass are the request parts built: the reference image first and
    then an instruction that ends with the prompt, or the prompt alone. */
module Requests {
  import opened Wrappers
  import opened Text
  import opened Args

  const ValidAspectRatios: seq<string> := ["1:1", "16:9", "9:16", "4:3", "3:4"]

  /** Extension (lowercased, with its dot) to MIME type. */
  const MimeTypes: map<string, string> := map[
    ".jpg" := "image/jpeg",
    ".jpeg" := "image/jpeg",
    ".png" := "image/png",
    ".webp" := "image/webp",
    ".gif" := "image/gif"
  ]

  /** The text put before the prompt when a reference image is sent. */
  const StyleInstruction: string :=
    "Use the provided image strictly as a visual style reference \U{2014} match its color palette, "
    + "lighting, composition style, and overall aesthetic. Do not reproduce any text, logos, or "
    + "UI elements from the reference. Generate a new image described as: "

  /** One part of the user message: base64 image data with its MIME type, or text. */
  datatype Part = InlineData(mimeType: string, data: string) | Text(text: string)

  /** What is sent to the model: the model id, the requested aspect ratio and the parts of
      the single user-role message. */
  datatype Request = Request(model: string, aspectRatio: string, parts: seq<Part>)

  /** The reasons `main` stops before calling the model. */
  datatype UsageError =
    | MissingPrompt
    | MissingApiKey
    | InvalidAspectRatio(size: string)
    | ReferenceNotFound(path: string)
    | UnsupportedFormat(ext: string)

  predicate IsValidAspectRatio(size: string) {
    size in ValidAspectRatios
  }

  /** `MIME_TYPES[ext]`: defined for exactly five extensions, and always an image type. */
  function MimeType(ext: string): (r: Option<string>)
    ensures r.Some? <==> ext in [".jpg", ".jpeg", ".png", ".webp", ".gif"]
    ensures r.Some? ==> r.value in ["image/jpeg", "image/png", "image/webp", "image/gif"]
  {
    if ext in MimeTypes then Some(MimeTypes[ext]) else None
  }

  /** The API key counts as set when the variable exists and is not empty. */
  predicate HasApiKey(apiKey: Option<string>) {
    apiKey.Some? && apiKey.value != ""
  }

  /** The reference path, when one was given and is not the empty string. */
  function ReferencePath(args: Args): Option<string> {
    if args.refPath.Some? && args.refPath.value != "" then args.refPath else None
  }

  // ----- `path.extname` (POSIX) -----

  function TrimTrailingSlashes(p: string): (r: string)
    ensures |r| <= |p| && r == p[..|r|]
    ensures |r| > 0 ==> r[|r| - 1] != '/'
    decreases |p|
  {
    if |p| > 0 && p[|p| - 1] == '/' then TrimTrailingSlashes(p[..|p| - 1]) else p
  }

  /** Where the last component of `q` starts: just after its last `/`, or at 0. */
  function ComponentStart(q: string): (k: nat)
    ensures k <= |q|
    ensures k > 0 ==> q[k - 1] == '/'
    ensures forall i :: k <= i < |q| ==> q[i] != '/'
    decreases |q|
  {
    if |q| == 0 then 0
    else if q[|q| - 1] == '/' then |q|
    else ComponentStart(q[..|q| - 1])
  }

  /** What follows the last `/` of `q`. */
  function BaseName(q: string): string {
    q[ComponentStart(q)..]
  }

  /** The index of the last `.` in `b`. */
  function LastDot(b: string): (r: Option<nat>)
    ensures r.Some? ==> r.value < |b| && b[r.value] == '.' && forall j :: r.value < j < |b| ==> b[j] != '.'
    ensures r.None? ==> forall j :: 0 <= j < |b| ==> b[j] != '.'
    decreases |b|
  {
    if |b| == 0 then None
    else if b[|b| - 1] == '.' then Some(|b| - 1)
    else LastDot(b[..|b| - 1])
  }

  /** `path.extname(p)`: from the last `.` of the last path component to its end, trailing
      slashes ignored; empty when there is no dot, when the dot starts the component, and for
      the component `..`. */
  function Extname(p: string): (r: string)
    ensures r == "" || (r[0] == '.' && forall i :: 0 <= i < |r| ==> r[i] != '/' && (i > 0 ==> r[i] != '.'))
  {
    var b := BaseName(TrimTrailingSlashes(p));
    match LastDot(b)
    case None => ""
    case Some(d) => if d == 0 || b == ".." then "" else b[d..]
  }

  /** The extension used for the MIME lookup: `path.extname(p).toLowerCase()`. It has the
      shape of an extension and no capital letters. */
  function ReferenceExtension(path: string): (r: string)
    ensures |r| == |Extname(path)|
    ensures r == "" || (r[0] == '.' && forall i :: 0 <= i < |r| ==> r[i] != '/' && (i > 0 ==> r[i] != '.'))
    ensures forall i :: 0 <= i < |r| ==> !('A' <= r[i] <= 'Z')
  {
    var e := Extname(path);
    var r := Lower(e);
    assert forall i :: 0 <= i < |r| ==> r[i] == LowerChar(e[i]);
    r
  }

  /** The validation chain of `main` and the parts it builds. `files` maps each existing file
      to its contents, already base64-encoded. */
  function BuildRequest(args: Args, apiKey: Option<string>, files: map<string, string>): (r: Result<Request, UsageError>)
    ensures r.Ok? ==> args.prompt != "" && HasApiKey(apiKey) && IsValidAspectRatio(args.size)
    ensures r.Ok? ==> r.value.model == args.model && r.value.aspectRatio == args.size
    ensures r.Ok? && ReferencePath(args).None? ==> r.value.parts == [Text(args.prompt)]
    ensures r.Ok? && ReferencePath(args).Some? ==>
      var path := ReferencePath(args).value;
      var parts := r.value.parts;
      && path in files
      && |parts| == 2
      && parts[0].InlineData? && parts[0].data == files[path]
      && MimeType(ReferenceExtension(path)) == Some(parts[0].mimeType)
      && parts[1].Text? && |args.prompt| <= |parts[1].text|
      && parts[1].text[|parts[1].text| - |args.prompt|..] == args.prompt
  {
    if args.prompt == "" then Err(MissingPrompt)
    else if !HasApiKey(apiKey) then Err(MissingApiKey)
    else if !IsValidAspectRatio(args.size) then Err(InvalidAspectRatio(args.size))
    else match ReferencePath(args)
      case None => Ok(Request(args.model, args.size, [Text(args.prompt)]))
      case Some(path) =>
        if path !in files then Err(ReferenceNotFound(path))
        else match MimeType(ReferenceExtension(path))
          case None => Err(UnsupportedFormat(ReferenceExtension(path)))
          case Some(mime) =>
            Ok(Request(args.model, args.size,
                       [InlineData(mime, files[path]), Text(StyleInstruction + args.prompt)]))
  }

  // ----- The order of the checks, as an independent reference -----

  datatype Check = PromptGiven | ApiKeyGiven | AspectRatioKnown | ReferenceFound | ReferenceFormatKnown

  const CheckOrder: seq<Check> := [PromptGiven, ApiKeyGiven, AspectRatioKnown, ReferenceFound, ReferenceFormatKnown]

  predicate Passes(c: Check, args: Args, apiKey: Option<string>, files: map<string, string>) {
    match c
    case PromptGiven => args.prompt != ""
    case ApiKeyGiven => HasApiKey(apiKey)
    case AspectRatioKnown => IsValidAspectRatio(args.size)
    case ReferenceFound => ReferencePath(args).None? || ReferencePath(args).value in files
    case ReferenceFormatKnown =>
      ReferencePath(args).None? || MimeType(ReferenceExtension(ReferencePath(args).value)).Some?
  }

  /** The error reported for a check that fails. */
  function Complaint(c: Check, args: Args, apiKey: Option<string>, files: map<string, string>): UsageError
    requires !Passes(c, args, apiKey, files)
  {
    match c
    case PromptGiven => MissingPrompt
    case ApiKeyGiven => MissingApiKey
    case AspectRatioKnown => InvalidAspectRatio(args.size)
    case ReferenceFound => ReferenceNotFound(ReferencePath(args).value)
    case ReferenceFormatKnown => UnsupportedFormat(ReferenceExtension(ReferencePath(args).value))
  }

  /** The complaint of the first check in `checks` that fails. */
  function FirstFailure(checks: seq<Check>, args: Args, apiKey: Option<string>, files: map<string, string>): Option<UsageError>
    decreases |checks|
  {
    if |checks| == 0 then None
    else if !Passes(checks[0], args, apiKey, files) then Some(Complaint(checks[0], args, apiKey, files))
    else FirstFailure(checks[1..], args, apiKey, files)
  }

  /** The request is built exactly when every check passes; otherwise the error is that of the
      first failing check, in the order prompt, key, aspect ratio, reference file, extension. */
  lemma ValidationFollowsCheckOrder(args: Args, apiKey: Option<string>, files: map<string, string>)
    ensures BuildRequest(args, apiKey, files).Ok? <==> forall c :: c in CheckOrder ==> Passes(c, args, apiKey, files)
    ensures BuildRequest(args, apiKey, files).Err? <==> FirstFailure(CheckOrder, args, apiKey, files).Some?
    ensures BuildRequest(args, apiKey, files).Err? ==>
      Some(BuildRequest(args, apiKey, files).error) == FirstFailure(CheckOrder, args, apiKey, files)
  {
    AllChecksPass(args, apiKey, files);
    FirstFailureInOrder(args, apiKey, files);
    var built := BuildRequest(args, apiKey, files);
    if !Passes(PromptGiven, args, apiKey, files) {
      assert built == Err(MissingPrompt);
    } else if !Passes(ApiKeyGiven, args, apiKey, files) {
      assert built == Err(MissingApiKey);
    } else if !Passes(AspectRatioKnown, args, apiKey, files) {
      assert built == Err(InvalidAspectRatio(args.size));
    } else if ReferencePath(args).None? {
      assert built.Ok?;
    } else if !Passes(ReferenceFound, args, apiKey, files) {
      assert built == Err(ReferenceNotFound(ReferencePath(args).value));
    } else if !Passes(ReferenceFormatKnown, args, apiKey, files) {
      assert built == Err(UnsupportedFormat(ReferenceExtension(ReferencePath(args).value)));
    } else {
      assert built.Ok?;
    }
  }

  /** Every check of the order passes exactly when each of the five does. */
  lemma AllChecksPass(args: Args, apiKey: Option<string>, files: map<string, string>)
    ensures (forall c :: c in CheckOrder ==> Passes(c, args, apiKey, files)) <==>
      && Passes(PromptGiven, args, apiKey, files) && Passes(ApiKeyGiven, args, apiKey, files)
      && Passes(AspectRatioKnown, args, apiKey, files) && Passes(ReferenceFound, args, apiKey, files)
      && Passes(ReferenceFormatKnown, args, apiKey, files)
  {
    assert CheckOrder[0] == PromptGiven && CheckOrder[1] == ApiKeyGiven && CheckOrder[2] == AspectRatioKnown;
    assert CheckOrder[3] == ReferenceFound && CheckOrder[4] == ReferenceFormatKnown;
  }

  /** The first failure along the order, one check after the other. */
  lemma FirstFailureInOrder(args: Args, apiKey: Option<string>, files: map<string, string>)
    ensures FirstFailure(CheckOrder, args, apiKey, files) ==
      if !Passes(PromptGiven, args, apiKey, files) then Some(MissingPrompt)
      else if !Passes(ApiKeyGiven, args, apiKey, files) then Some(MissingApiKey)
      else if !Passes(AspectRatioKnown, args, apiKey, files) then Some(InvalidAspectRatio(args.size))
      else if !Passes(ReferenceFound, args, apiKey, files) then Some(ReferenceNotFound(ReferencePath(args).value))
      else if !Passes(ReferenceFormatKnown, args, apiKey, files) then
        Some(UnsupportedFormat(ReferenceExtension(ReferencePath(args).value)))
      else None
  {
    var tail := CheckOrder;
    assert tail[1..] == [ApiKeyGiven, AspectRatioKnown, ReferenceFound, ReferenceFormatKnown];
    tail := tail[1..];
    assert tail[1..] == [AspectRatioKnown, ReferenceFound, ReferenceFormatKnown];
    tail := tail[1..];
    assert tail[1..] == [ReferenceFound, ReferenceFormatKnown];
    tail := tail[1..];
    assert tail[1..] == [ReferenceFormatKnown];
    tail := tail[1..];
    assert tail[1..] == [];
  }

  /** With a prompt and a key, the aspect ratio is accepted exactly when it is one of
      `1:1`, `16:9`, `9:16`, `4:3`, `3:4`. */
  lemma AspectRatioAccepted(args: Args, apiKey: Option<string>, files: map<string, string>)
    requires args.prompt != "" && HasApiKey(apiKey)
    ensures BuildRequest(args, apiKey, files) == Err(InvalidAspectRatio(args.size)) <==>
      !(args.size == "1:1" || args.size == "16:9" || args.size == "9:16" || args.size == "4:3" || args.size == "3:4")
  {
  }

  /** The MIME table entry by entry, `.jpg` and `.jpeg` both being JPEG. */
  lemma MimeTypeTable(ext: string)
    ensures ext == ".jpg" || ext == ".jpeg" ==> MimeType(ext) == Some("image/jpeg")
    ensures ext == ".png" ==> MimeType(ext) == Some("image/png")
    ensures ext == ".webp" ==> MimeType(ext) == Some("image/webp")
    ensures ext == ".gif" ==> MimeType(ext) == Some("image/gif")
  {
  }

  lemma {:induction false} ComponentStartAt(p: string, k: nat)
    requires k <= |p| && (k == 0 || p[k - 1] == '/')
    requires forall i :: k <= i < |p| ==> p[i] != '/'
    ensures ComponentStart(p) == k
    decreases |p|
  {
    if |p| > k {
      ComponentStartAt(p[..|p| - 1], k);
    }
  }

  lemma {:induction false} LastDotAt(b: string, d: nat)
    requires d < |b| && b[d] == '.'
    requires forall j :: d < j < |b| ==> b[j] != '.'
    ensures LastDot(b) == Some(d)
    decreases |b|
  {
    if |b| - 1 > d {
      LastDotAt(b[..|b| - 1], d);
    }
  }

  /** For a path whose last component (from `k` on) has its last dot at `d`, with something
      before the dot and after it, `path.extname` is everything from that dot on. */
  lemma ExtnameOfFileName(p: string, k: nat, d: nat)
    requires k < d < |p| - 1
    requires k == 0 || p[k - 1] == '/'
    requires forall i :: k <= i < |p| ==> p[i] != '/'
    requires p[d] == '.' && forall j :: d < j < |p| ==> p[j] != '.'
    ensures Extname(p) == p[d..]
  {
    assert TrimTrailingSlashes(p) == p;
    ComponentStartAt(p, k);
    var b := p[k..];
    LastDotAt(b, d - k);
    assert b[d - k..] == p[d..];
  }

  /** A last component with no dot after its first character (`photo`, `.env`) has no
      extension, so a reference named like that is an unsupported format. */
  lemma ExtnameWithoutInnerDot(p: string, k: nat)
    requires k < |p| && (k == 0 || p[k - 1] == '/')
    requires forall i :: k <= i < |p| ==> p[i] != '/'
    requires forall j :: k < j < |p| ==> p[j] != '.'
    ensures Extname(p) == ""
  {
    assert TrimTrailingSlashes(p) == p;
    ComponentStartAt(p, k);
    var b := p[k..];
    assert BaseName(TrimTrailingSlashes(p)) == b;
    if p[k] == '.' {
      LastDotAt(b, 0);
    } else {
      assert forall j :: 0 <= j < |b| ==> b[j] != '.' by {
        forall j | 0 <= j < |b| ensures b[j] != '.' {
          assert b[j] == p[k + j];
        }
      }
      assert LastDot(b).None?;
    }
  }

  /** The extension is lowercased before the lookup, so `photo.JPG` and `photo.jpg` get the
      same MIME type. */
  lemma ReferenceExtensionIsLowercased(p: string, k: nat, d: nat)
    requires k < d < |p| - 1
    requires k == 0 || p[k - 1] == '/'
    requires forall i :: k <= i < |p| ==> p[i] != '/'
    requires p[d] == '.' && forall j :: d < j < |p| ==> p[j] != '.'
    ensures ReferenceExtension(p) == "." + Lower(p[d + 1..])
  {
    ExtnameOfFileName(p, k, d);
    assert p[d..] == "." + p[d + 1..];
    LowerOfCons('.', p[d + 1..]);
  }
}
