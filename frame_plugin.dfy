/**
 * The start-up plugin of plugins/analyze-frames.ts: `analyzeFrame` decodes a
 * frame's alpha channel, detects its photo slots and writes a debug image;
 * the default export runs it over the built-in templates and records each
 * result on the template, or a zero fallback when the analysis throws.
 */
module FramePlugin {
  import opened Wrappers
  import opened Raster
  import opened SlotDetection

  /**
   * What the image library and the filesystem do for each frame path: the
   * alpha mask it decodes to (absent when decoding throws) and the paths
   * whose debug image cannot be written.
   */
  datatype FrameFiles = FrameFiles(decoded: map<string, AlphaMask>, debugWriteFails: set<string>) {
    /** The decoder always returns a buffer of `width * height` samples. */
    predicate Valid() {
      forall path :: path in decoded ==> decoded[path].Valid()
    }
  }

  /** The two ways `analyzeFrame` throws. */
  datatype FrameError = DecodeFailed | DebugImageFailed

  /** The object `analyzeFrame` resolves to. */
  datatype Analysis = Analysis(photoSlots: int, slots: seq<Slot>, width: int, height: int)

  /** `analyzeFrame(framePath)`. */
  method AnalyzeFrame(files: FrameFiles, framePath: string) returns (r: Result<Analysis, FrameError>)
    requires files.Valid()
    ensures framePath !in files.decoded ==> r == Failure(DecodeFailed)
    ensures r.Success? <==> framePath in files.decoded && framePath !in files.debugWriteFails
    ensures r.Success? ==>
              var m := files.decoded[framePath];
              && r.value.photoSlots == |r.value.slots|
              && DetectedFrom(m, r.value.slots)
              && r.value.width == m.width && r.value.height == m.height
  {
    if framePath !in files.decoded {
      return Failure(DecodeFailed);
    }
    var mask := files.decoded[framePath];
    var slots := DetectSlots(mask);
    if framePath in files.debugWriteFails {
      return Failure(DebugImageFailed);
    }
    r := Success(Analysis(|slots|, slots, mask.width, mask.height));
  }

  /** A frame template; the analysis fields are absent until the plugin has run. */
  datatype FrameTemplate = FrameTemplate(id: int, name: string, frameSrc: string,
                                         photoSlots: Option<int>, slots: Option<seq<Slot>>,
                                         width: Option<int>, height: Option<int>)

  /** The four built-in templates, not yet analysed. */
  const Templates: seq<FrameTemplate> := [
    FrameTemplate(1, "Pop and Go Frame", "/assets/frames/1.png", None, None, None, None),
    FrameTemplate(2, "Classic Frame", "/assets/frames/2.png", None, None, None, None),
    FrameTemplate(3, "Red Quad Frame", "/assets/frames/3.png", None, None, None, None),
    FrameTemplate(4, "Red Dual Frame", "/assets/frames/4.png", None, None, None, None)
  ]

  /**
   * `after` is `before` once the loop has handled it: the analysis recorded
   * when it succeeds, zero slots and a zero size when it throws, and the
   * identifying fields untouched either way.
   */
  ghost predicate Prepared(files: FrameFiles, before: FrameTemplate, after: FrameTemplate)
    requires files.Valid()
  {
    if before.frameSrc in files.decoded && before.frameSrc !in files.debugWriteFails then
      var m := files.decoded[before.frameSrc];
      && after.id == before.id && after.name == before.name && after.frameSrc == before.frameSrc
      && after.slots.Some? && DetectedFrom(m, after.slots.value)
      && after.photoSlots == Some(|after.slots.value|)
      && after.width == Some(m.width) && after.height == Some(m.height)
    else
      after == before.(photoSlots := Some(0), slots := Some([]), width := Some(0), height := Some(0))
  }

  /** The body of the default export's `try`/`catch`: the analysis copied onto the template, or the fallback. */
  function Recorded(template: FrameTemplate, result: Result<Analysis, FrameError>): FrameTemplate {
    match result
    case Success(a) =>
      template.(photoSlots := Some(a.photoSlots), slots := Some(a.slots), width := Some(a.width), height := Some(a.height))
    case Failure(_) =>
      template.(photoSlots := Some(0), slots := Some([]), width := Some(0), height := Some(0))
  }

  /** Recording what `analyzeFrame` returned for a template's frame prepares that template. */
  lemma RecordedPrepared(files: FrameFiles, template: FrameTemplate, result: Result<Analysis, FrameError>)
    requires files.Valid()
    requires result.Success? <==> template.frameSrc in files.decoded && template.frameSrc !in files.debugWriteFails
    requires result.Success? ==>
               var m := files.decoded[template.frameSrc];
               && result.value.photoSlots == |result.value.slots|
               && DetectedFrom(m, result.value.slots)
               && result.value.width == m.width && result.value.height == m.height
    ensures Prepared(files, template, Recorded(template, result))
  {
  }

  /** The default export's loop: every template analysed, a failure confined to its own template. */
  method PrepareTemplates(templates: array<FrameTemplate>, files: FrameFiles)
    requires files.Valid()
    modifies templates
    ensures forall i :: 0 <= i < templates.Length ==> Prepared(files, old(templates[i]), templates[i])
  {
    for i := 0 to templates.Length
      invariant forall k :: 0 <= k < i ==> Prepared(files, old(templates[k]), templates[k])
      invariant forall k :: i <= k < templates.Length ==> templates[k] == old(templates[k])
    {
      var template := templates[i];
      var result := AnalyzeFrame(files, template.frameSrc);
      RecordedPrepared(files, template, result);
      templates[i] := Recorded(template, result);
    }
  }

  /**
   * The plugin as a whole: the built-in templates run through the loop and
   * handed to storage. Every stored template keeps its id and frame, has its
   * slots recorded, and counts exactly as many photo slots as it has slots.
   */
  method PrepareBuiltIns(files: FrameFiles) returns (stored: seq<FrameTemplate>)
    requires files.Valid()
    ensures |stored| == |Templates|
    ensures forall i :: 0 <= i < |stored| ==> Prepared(files, Templates[i], stored[i])
    ensures forall i :: 0 <= i < |stored| ==>
              && stored[i].id == i + 1 && stored[i].frameSrc == Templates[i].frameSrc
              && stored[i].slots.Some? && stored[i].photoSlots == Some(|stored[i].slots.value|)
  {
    var templates := new FrameTemplate[|Templates|](i requires 0 <= i < |Templates| => Templates[i]);
    PrepareTemplates(templates, files);
    stored := templates[..];
  }

  /** What the loop records for a template depends only on its frame and the files. */
  lemma PreparedUnique(files: FrameFiles, before: FrameTemplate, after: FrameTemplate, after': FrameTemplate)
    requires files.Valid() && Prepared(files, before, after) && Prepared(files, before, after')
    ensures after == after'
  {
    if before.frameSrc in files.decoded && before.frameSrc !in files.debugWriteFails {
      DetectedFromUnique(files.decoded[before.frameSrc], after.slots.value, after'.slots.value);
    }
  }
}
