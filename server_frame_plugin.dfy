/**
 * The server copy of the start-up plugin, server/plugins/analyze-frames.ts.
 * Its `analyzeFrame` inlines the same scan, fill, size filter and sort as
 * `detectSlots` (token for token), so it runs `SlotDetection.DetectSlots`;
 * it resolves to the slot count and the slots only, and its templates carry
 * no size.
 */
module ServerFramePlugin {
  import opened Wrappers
  import opened Raster
  import opened SlotDetection
  import opened FramePlugin

  /** The object the server's `analyzeFrame` resolves to. */
  datatype ServerAnalysis = ServerAnalysis(photoSlots: int, slots: seq<Slot>)

  /** The server's `analyzeFrame(framePath)`. */
  method AnalyzeFrame(files: FrameFiles, framePath: string) returns (r: Result<ServerAnalysis, FrameError>)
    requires files.Valid()
    ensures framePath !in files.decoded ==> r == Failure(DecodeFailed)
    ensures r.Success? <==> framePath in files.decoded && framePath !in files.debugWriteFails
    ensures r.Success? ==>
              && r.value.photoSlots == |r.value.slots|
              && DetectedFrom(files.decoded[framePath], r.value.slots)
  {
    if framePath !in files.decoded {
      return Failure(DecodeFailed);
    }
    var mask := files.decoded[framePath];
    var slots := DetectSlots(mask);
    if framePath in files.debugWriteFails {
      return Failure(DebugImageFailed);
    }
    r := Success(ServerAnalysis(|slots|, slots));
  }

  /** A server-side frame template; the analysis fields are absent until the plugin has run. */
  datatype ServerTemplate = ServerTemplate(id: int, name: string, frameSrc: string,
                                           photoSlots: Option<int>, slots: Option<seq<Slot>>)

  /** The four built-in templates, not yet analysed. */
  const ServerTemplates: seq<ServerTemplate> := [
    ServerTemplate(1, "Pop and Go Frame", "/assets/frames/1.png", None, None),
    ServerTemplate(2, "Classic Frame", "/assets/frames/2.png", None, None),
    ServerTemplate(3, "Red Quad Frame", "/assets/frames/3.png", None, None),
    ServerTemplate(4, "Red Dual Frame", "/assets/frames/4.png", None, None)
  ]

  /**
   * `after` is `before` once the loop has handled it: the detected slots and
   * their count when the analysis succeeds, no slots when it throws, and the
   * identifying fields untouched either way.
   */
  ghost predicate ServerPrepared(files: FrameFiles, before: ServerTemplate, after: ServerTemplate)
    requires files.Valid()
  {
    if before.frameSrc in files.decoded && before.frameSrc !in files.debugWriteFails then
      && after.id == before.id && after.name == before.name && after.frameSrc == before.frameSrc
      && after.slots.Some? && DetectedFrom(files.decoded[before.frameSrc], after.slots.value)
      && after.photoSlots == Some(|after.slots.value|)
    else
      after == before.(photoSlots := Some(0), slots := Some([]))
  }

  /** The body of the default export's `try`/`catch`. */
  function ServerRecorded(template: ServerTemplate, result: Result<ServerAnalysis, FrameError>): ServerTemplate {
    match result
    case Success(a) => template.(photoSlots := Some(a.photoSlots), slots := Some(a.slots))
    case Failure(_) => template.(photoSlots := Some(0), slots := Some([]))
  }

  /** Recording what `analyzeFrame` returned for a template's frame prepares that template. */
  lemma ServerRecordedPrepared(files: FrameFiles, template: ServerTemplate, result: Result<ServerAnalysis, FrameError>)
    requires files.Valid()
    requires result.Success? <==> template.frameSrc in files.decoded && template.frameSrc !in files.debugWriteFails
    requires result.Success? ==>
               && result.value.photoSlots == |result.value.slots|
               && DetectedFrom(files.decoded[template.frameSrc], result.value.slots)
    ensures ServerPrepared(files, template, ServerRecorded(template, result))
  {
  }

  /** The default export's loop over the server templates. */
  method PrepareServerTemplates(templates: array<ServerTemplate>, files: FrameFiles)
    requires files.Valid()
    modifies templates
    ensures forall i :: 0 <= i < templates.Length ==> ServerPrepared(files, old(templates[i]), templates[i])
  {
    for i := 0 to templates.Length
      invariant forall k :: 0 <= k < i ==> ServerPrepared(files, old(templates[k]), templates[k])
      invariant forall k :: i <= k < templates.Length ==> templates[k] == old(templates[k])
    {
      var template := templates[i];
      var result := AnalyzeFrame(files, template.frameSrc);
      ServerRecordedPrepared(files, template, result);
      templates[i] := ServerRecorded(template, result);
    }
  }

  /**
   * The server plugin as a whole: the built-in templates run through the loop
   * and handed to storage, each with its id and frame kept and as many photo
   * slots as slots.
   */
  method PrepareServerBuiltIns(files: FrameFiles) returns (stored: seq<ServerTemplate>)
    requires files.Valid()
    ensures |stored| == |ServerTemplates|
    ensures forall i :: 0 <= i < |stored| ==> ServerPrepared(files, ServerTemplates[i], stored[i])
    ensures forall i :: 0 <= i < |stored| ==>
              && stored[i].id == i + 1 && stored[i].frameSrc == ServerTemplates[i].frameSrc
              && stored[i].slots.Some? && stored[i].photoSlots == Some(|stored[i].slots.value|)
  {
    var templates := new ServerTemplate[|ServerTemplates|](i requires 0 <= i < |ServerTemplates| => ServerTemplates[i]);
    PrepareServerTemplates(templates, files);
    stored := templates[..];
  }

  /** What the loop records for a template depends only on its frame and the files. */
  lemma ServerPreparedUnique(files: FrameFiles, before: ServerTemplate, after: ServerTemplate, after': ServerTemplate)
    requires files.Valid() && ServerPrepared(files, before, after) && ServerPrepared(files, before, after')
    ensures after == after'
  {
    if before.frameSrc in files.decoded && before.frameSrc !in files.debugWriteFails {
      DetectedFromUnique(files.decoded[before.frameSrc], after.slots.value, after'.slots.value);
    }
  }

  /** Both copies of the plugin find the same slots in the same frame. */
  lemma CopiesAgree(files: FrameFiles, before: FrameTemplate, after: FrameTemplate,
                    serverBefore: ServerTemplate, serverAfter: ServerTemplate)
    requires files.Valid() && before.frameSrc == serverBefore.frameSrc
    requires Prepared(files, before, after) && ServerPrepared(files, serverBefore, serverAfter)
    ensures after.slots == serverAfter.slots && after.photoSlots == serverAfter.photoSlots
  {
    if before.frameSrc in files.decoded && before.frameSrc !in files.debugWriteFails {
      DetectedFromUnique(files.decoded[before.frameSrc], after.slots.value, serverAfter.slots.value);
    }
  }
}
