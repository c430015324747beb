/** Response extraction and file naming in `main` of image-gen/generate.ts.

    The candidates are scanned in order and, inside each, its parts in order; the first part
    whose inline data is a non-empty string is the image, and both loops stop there. The
    image is saved as `<timestamp>--<slug>.png`. When no part holds an image, the only text
    surfaced is the first non-empty text part of the FIRST candidate. */
module Responses {
  import opened Wrappers
  import opened Text
  import opened Slugs

  /** The response shape as read by the code; every field may be missing. */
  datatype Blob = Blob(mimeType: Option<string>, data: Option<string>)
  datatype ResponsePart = ResponsePart(inlineData: Option<Blob>, text: Option<string>)
  datatype Content = Content(parts: Option<seq<ResponsePart>>)
  datatype Candidate = Candidate(content: Option<Content>)
  datatype Response = Response(candidates: Option<seq<Candidate>>)

  /** What happens after a successful call: a file written (directory, name, base64 data),
      or no image, with the text the model gave instead, if any. */
  datatype Extraction = Saved(outDir: string, fileName: string, data: string) | NoImage(refusal: Option<string>)

  /** `response?.candidates ?? []`. */
  function Candidates(response: Response): seq<Candidate> {
    response.candidates.GetOr([])
  }

  /** `candidate?.content?.parts ?? []`. */
  function PartsOf(c: Candidate): seq<ResponsePart> {
    if c.content.Some? then c.content.value.parts.GetOr([]) else []
  }

  /** `inline?.data` is truthy. */
  predicate HasImage(p: ResponsePart) {
    p.inlineData.Some? && p.inlineData.value.data.Some? && p.inlineData.value.data.value != ""
  }

  /** `p.text` is truthy. */
  predicate HasText(p: ResponsePart) {
    p.text.Some? && p.text.value != ""
  }

  /** Part `p` of candidate `c` holds an image. */
  predicate ImageAt(cands: seq<Candidate>, c: int, p: int) {
    0 <= c < |cands| && 0 <= p < |PartsOf(cands[c])| && HasImage(PartsOf(cands[c])[p])
  }

  function ImageDataAt(cands: seq<Candidate>, c: int, p: int): string
    requires ImageAt(cands, c, p)
  {
    PartsOf(cands[c])[p].inlineData.value.data.value
  }

  /** No image comes before position (`c`, `p`) in candidate-then-part order. */
  ghost predicate IsFirstImage(cands: seq<Candidate>, c: int, p: int) {
    ImageAt(cands, c, p) && forall c', p' :: ImageAt(cands, c', p') ==> c < c' || (c == c' && p <= p')
  }

  ghost predicate AnyImage(cands: seq<Candidate>) {
    exists c, p :: ImageAt(cands, c, p)
  }

  /** The first part with non-empty text (`parts.find(p => p.text)`), as its text. */
  function FirstText(parts: seq<ResponsePart>): (r: Option<string>)
    ensures r.Some? ==> r.value != ""
    decreases |parts|
  {
    if |parts| == 0 then None
    else if HasText(parts[0]) then parts[0].text
    else FirstText(parts[1..])
  }

  /** The text surfaced when no image came back: looked for in `candidates[0]` only. */
  function FallbackText(cands: seq<Candidate>): (r: Option<string>)
    ensures r.None? <==> |cands| == 0 || forall i :: 0 <= i < |PartsOf(cands[0])| ==> !HasText(PartsOf(cands[0])[i])
    ensures r.Some? ==>
      && r.value != "" && |cands| > 0
      && exists i :: 0 <= i < |PartsOf(cands[0])| && HasText(PartsOf(cands[0])[i]) && PartsOf(cands[0])[i].text == r
  {
    if |cands| == 0 then None
    else
      FirstTextIsFirst(PartsOf(cands[0]));
      FirstText(PartsOf(cands[0]))
  }

  // ----- File name -----

  /** `.replace(/[:.]/g, "-")` on one character. */
  function SafeChar(c: char): char {
    if c == ':' || c == '.' then '-' else c
  }

  /** The timestamp part of the file name: the ISO string with `:` and `.` replaced by `-`,
      cut to 19 characters (whole seconds). */
  function Timestamp(iso: string): (ts: string)
    ensures |ts| == if |iso| < 19 then |iso| else 19
    ensures forall i :: 0 <= i < |ts| ==> ts[i] == SafeChar(iso[i]) && ts[i] != ':' && ts[i] != '.'
  {
    Take(seq(|iso|, i requires 0 <= i < |iso| => SafeChar(iso[i])), 19)
  }

  /** `${ts}--${slug}.png`: it starts with the timestamp, ends with `.png`, and never holds
      a `:`. */
  function FileName(iso: string, prompt: string): (f: string)
    ensures |f| == |Timestamp(iso)| + 2 + |Slug(prompt)| + 4
    ensures f[..|Timestamp(iso)|] == Timestamp(iso) && f[|f| - 4..] == ".png"
    ensures forall i :: 0 <= i < |f| ==> f[i] != ':'
  {
    SlugifyShape(prompt, MaxSlugLength);
    SplitFileName(Timestamp(iso), Slug(prompt));
    NoColonInFileName(Timestamp(iso), Slug(prompt));
    Timestamp(iso) + "--" + Slug(prompt) + ".png"
  }

  // ----- The extraction loop -----

  /** The loops over candidates and parts, with the `saved` flag and the two `break`s, and the
      fallback when nothing was saved. `isoNow` stands for `new Date().toISOString()`. */
  method Extract(response: Response, prompt: string, outDir: string, isoNow: string) returns (e: Extraction)
    ensures e.Saved? <==> AnyImage(Candidates(response))
    ensures e.Saved? ==> e.outDir == outDir && e.fileName == FileName(isoNow, prompt)
    ensures e.Saved? ==> exists c, p :: IsFirstImage(Candidates(response), c, p) && e.data == ImageDataAt(Candidates(response), c, p)
    ensures e.NoImage? ==> e.refusal == FallbackText(Candidates(response))
  {
    var candidates := Candidates(response);
    var saved := false;
    e := NoImage(None);
    var ci := 0;
    while ci < |candidates|
      invariant 0 <= ci <= |candidates|
      invariant !saved
      invariant forall c, p :: 0 <= c < ci ==> !ImageAt(candidates, c, p)
    {
      var parts := PartsOf(candidates[ci]);
      var pi := 0;
      while pi < |parts|
        invariant 0 <= pi <= |parts|
        invariant !saved
        invariant forall p :: 0 <= p < pi ==> !ImageAt(candidates, ci, p)
      {
        if HasImage(parts[pi]) {
          assert IsFirstImage(candidates, ci, pi);
          e := Saved(outDir, FileName(isoNow, prompt), parts[pi].inlineData.value.data.value);
          saved := true;
          break;
        }
        pi := pi + 1;
      }
      if saved {
        break;
      }
      ci := ci + 1;
    }
    if !saved {
      e := NoImage(FallbackText(candidates));
    }
  }

  // ----- Properties -----

  /** The first image is unique: the candidate-then-part order has one least image position. */
  lemma FirstImageUnique(cands: seq<Candidate>, c1: int, p1: int, c2: int, p2: int)
    requires IsFirstImage(cands, c1, p1) && IsFirstImage(cands, c2, p2)
    ensures c1 == c2 && p1 == p2
  {
  }

  /** The fallback text is the first non-empty text part of the first candidate: every earlier
      part of it has no text, and later candidates are never consulted. */
  lemma {:induction false} FirstTextIsFirst(parts: seq<ResponsePart>)
    ensures FirstText(parts).None? <==> forall i :: 0 <= i < |parts| ==> !HasText(parts[i])
    ensures FirstText(parts).Some? ==>
      exists i :: 0 <= i < |parts| && HasText(parts[i]) && parts[i].text == FirstText(parts)
        && forall j :: 0 <= j < i ==> !HasText(parts[j])
    decreases |parts|
  {
    if |parts| > 0 {
      FirstTextIsFirst(parts[1..]);
      if HasText(parts[0]) {
        assert HasText(parts[0]) && parts[0].text == FirstText(parts);
      } else if FirstText(parts).Some? {
        var i :| 0 <= i < |parts[1..]| && HasText(parts[1..][i]) && parts[1..][i].text == FirstText(parts[1..])
          && forall j :: 0 <= j < i ==> !HasText(parts[1..][j]);
        assert parts[i + 1] == parts[1..][i];
        forall j | 0 <= j < i + 1 ensures !HasText(parts[j]) {
          if j > 0 { assert parts[j] == parts[1..][j - 1]; }
        }
      } else {
        forall i | 0 <= i < |parts| ensures !HasText(parts[i]) {
          if i > 0 { assert parts[i] == parts[1..][i - 1]; }
        }
      }
    }
  }

  /** Only the first candidate matters for the fallback text. */
  lemma FallbackLooksOnlyAtFirstCandidate(cands: seq<Candidate>, more: seq<Candidate>)
    requires |cands| > 0
    ensures FallbackText(cands + more) == FallbackText(cands[..1])
  {
    assert (cands + more)[0] == cands[..1][0];
  }

  /** The timestamp of `toISOString()` output `YYYY-MM-DDTHH:MM:SS.mmmZ` is
      `YYYY-MM-DDTHH-MM-SS`: the milliseconds and the zone letter are cut off. */
  lemma TimestampOfInstant(iso: string)
    requires |iso| == 24 && iso[4] == '-' && iso[7] == '-' && iso[10] == 'T'
    requires iso[13] == ':' && iso[16] == ':' && iso[19] == '.' && iso[23] == 'Z'
    requires forall i :: 0 <= i < 23 && i !in {4, 7, 10, 13, 16, 19} ==> '0' <= iso[i] <= '9'
    ensures Timestamp(iso) == iso[..13] + "-" + iso[14..16] + "-" + iso[17..19]
    ensures forall i :: 0 <= i < 19 ==> Timestamp(iso)[i] != '/'
  {
    var ts := Timestamp(iso);
    var expected := iso[..13] + "-" + iso[14..16] + "-" + iso[17..19];
    assert |ts| == |expected| == 19;
    forall i | 0 <= i < 19 ensures ts[i] == expected[i] {
      if i < 13 {
        assert expected[i] == iso[i];
      } else if i == 13 || i == 16 {
      } else if i < 16 {
        assert expected[i] == iso[i];
      } else {
        assert expected[i] == iso[i];
      }
    }
  }

  /** Splitting `ts + "--" + slug + ".png"` back into its pieces. */
  lemma SplitFileName(ts: string, slug: string)
    ensures var f := ts + "--" + slug + ".png"; var k := |ts|;
      && |f| == k + 2 + |slug| + 4
      && f[..k] == ts && f[k..k + 2] == "--" && f[k + 2..|f| - 4] == slug && f[|f| - 4..] == ".png"
  {
    var f := ts + "--" + slug + ".png";
    assert f == ts + ("--" + (slug + ".png"));
  }

  /** No `:` in the pieces means no `:` in the file name. */
  lemma NoColonInFileName(ts: string, slug: string)
    requires forall i :: 0 <= i < |ts| ==> ts[i] != ':'
    requires AllSlugChars(slug)
    ensures forall i :: 0 <= i < |ts + "--" + slug + ".png"| ==> (ts + "--" + slug + ".png")[i] != ':'
  {
    var f := ts + "--" + slug + ".png";
    forall i | 0 <= i < |f| ensures f[i] != ':' {
      if i < |ts| {
        assert f[i] == ts[i];
      } else if i < |ts| + 2 {
        assert f[i] == '-';
      } else if i < |ts| + 2 + |slug| {
        assert f[i] == slug[i - |ts| - 2];
      } else {
        assert f[i] == ".png"[i - |ts| - 2 - |slug|];
      }
    }
  }

  /** The file name splits back into its pieces: the timestamp, `--`, the slug of the prompt
      (at most 45 characters of `[a-z0-9-]`) and `.png`. */
  lemma FileNameLayout(iso: string, prompt: string)
    requires |iso| >= 19
    ensures var f := FileName(iso, prompt);
      && f[..19] == Timestamp(iso)
      && f[19..21] == "--"
      && f[21..|f| - 4] == Slug(prompt)
      && f[|f| - 4..] == ".png"
      && |f| <= 19 + 2 + MaxSlugLength + 4
      && AllSlugChars(f[21..|f| - 4])
  {
    SlugifyShape(prompt, MaxSlugLength);
    SplitFileName(Timestamp(iso), Slug(prompt));
  }
}
