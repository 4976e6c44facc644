/**
 * The photo-editor store of stores/photoEditorStore.ts: the selected frame
 * template, the list of selected photos, a table of per-photo adjustments
 * keyed by photo id, and the counter that hands out photo ids.
 */
module PhotoEditor {
  import opened Wrappers
  import opened Raster

  /** A selected photo; `blobUrl` is absent until its image has been fetched. */
  datatype Photo = Photo(id: int, name: string, url: string, blobUrl: Option<string>)

  /** The template the editor works on, with the slots its frame was found to have. */
  datatype Template = Template(id: string, name: string, frameSrc: string, width: int, height: int, slots: seq<Slot>)

  /** How a photo sits in its slot. The store only copies these values. */
  datatype Adjustment = Adjustment(x: real, y: real, scale: real, rotation: real)

  /** A `Partial<PhotoAdjustment>`: the fields the caller gives. */
  datatype AdjustmentPatch = AdjustmentPatch(x: Option<real>, y: Option<real>, scale: Option<real>, rotation: Option<real>)

  /** The adjustment a photo starts with, and is reset to: no offset, scale 1, no rotation. */
  const Neutral := Adjustment(0.0, 0.0, 1.0, 0.0)

  /** JavaScript truthiness of an optional string: present and not empty. */
  predicate Truthy(s: Option<string>) {
    s.Some? && s.value != ""
  }

  // ---------------------------------------------------------------------------
  // The store's invariant

  /**
   * Photo ids are distinct, every id in use (by a photo or by an adjustment)
   * is positive and below the counter, and every photo has an adjustment.
   */
  ghost predicate StoreInvariant(photos: seq<Photo>, adjustments: map<int, Adjustment>, nextPhotoId: int) {
    && nextPhotoId >= 1
    && (forall i :: 0 <= i < |photos| ==> 1 <= photos[i].id < nextPhotoId && photos[i].id in adjustments)
    && (forall i, j :: 0 <= i < j < |photos| ==> photos[i].id != photos[j].id)
    && (forall id :: id in adjustments ==> 1 <= id < nextPhotoId)
  }

  // ---------------------------------------------------------------------------
  // addPhoto

  /** Adding a photo under the counter's id, with a neutral adjustment, and advancing the counter keeps the invariant. */
  lemma AddKeepsInvariant(photos: seq<Photo>, adjustments: map<int, Adjustment>, nextPhotoId: int, name: string, url: string)
    requires StoreInvariant(photos, adjustments, nextPhotoId)
    ensures StoreInvariant(photos + [Photo(nextPhotoId, name, url, None)], adjustments[nextPhotoId := Neutral], nextPhotoId + 1)
    ensures forall i :: 0 <= i < |photos| ==> photos[i].id != nextPhotoId
  {
    var photos' := photos + [Photo(nextPhotoId, name, url, None)];
    forall i, j | 0 <= i < j < |photos'|
      ensures photos'[i].id != photos'[j].id
    {
      assert photos'[i] == photos[i];
      if j < |photos| {
        assert photos'[j] == photos[j];
      }
    }
    forall i | 0 <= i < |photos'|
      ensures 1 <= photos'[i].id < nextPhotoId + 1 && photos'[i].id in adjustments[nextPhotoId := Neutral]
    {
      if i < |photos| {
        assert photos'[i] == photos[i];
      }
    }
  }

  // ---------------------------------------------------------------------------
  // removePhoto

  /** `photos.findIndex(photo => photo.id === id)`: the first index holding `id`, or -1. */
  function FindIndex(photos: seq<Photo>, id: int): (r: int)
    ensures -1 <= r < |photos|
    ensures r == -1 <==> forall i :: 0 <= i < |photos| ==> photos[i].id != id
    ensures r >= 0 ==> photos[r].id == id && forall i :: 0 <= i < r ==> photos[i].id != id
  {
    if |photos| == 0 then -1
    else
      var r := FindIndex(photos[..|photos| - 1], id);
      if r >= 0 then r
      else if photos[|photos| - 1].id == id then |photos| - 1
      else -1
  }

  /**
   * What one `removePhoto` call leaves behind: the photo list, the
   * adjustment table, the blob URL handed to `URL.revokeObjectURL` (if
   * any), and whether the call threw.
   */
  datatype RemoveOutcome = RemoveOutcome(photos: seq<Photo>, adjustments: map<int, Adjustment>,
                                         revoked: Option<string>, threw: bool)

  /**
   * `removePhoto` as written: after the splice it reads the photo now at
   * `index`, which is the removed photo's successor, and throws (before the
   * adjustment is deleted) when the removed photo was the last one.
   */
  function RemoveAsWritten(photos: seq<Photo>, adjustments: map<int, Adjustment>, id: int): RemoveOutcome {
    var index := FindIndex(photos, id);
    if index == -1 then RemoveOutcome(photos, adjustments, None, false)
    else
      var rest := photos[..index] + photos[index + 1..];
      if index == |rest| then RemoveOutcome(rest, adjustments, None, true)
      else RemoveOutcome(rest, adjustments - {id}, if Truthy(rest[index].blobUrl) then rest[index].blobUrl else None, false)
  }

  /** `removePhoto` as intended: the removed photo's own blob URL is revoked and its adjustment deleted. */
  function RemoveIntended(photos: seq<Photo>, adjustments: map<int, Adjustment>, id: int): RemoveOutcome {
    var index := FindIndex(photos, id);
    if index == -1 then RemoveOutcome(photos, adjustments, None, false)
    else
      RemoveOutcome(photos[..index] + photos[index + 1..], adjustments - {id},
                    if Truthy(photos[index].blobUrl) then photos[index].blobUrl else None, false)
  }

  /** Removing the last photo as written throws after the splice: the photo is gone but its adjustment stays. */
  lemma AsWrittenLastPhotoThrows(photos: seq<Photo>, adjustments: map<int, Adjustment>)
    requires |photos| > 0 && FindIndex(photos, photos[|photos| - 1].id) == |photos| - 1
    ensures var o := RemoveAsWritten(photos, adjustments, photos[|photos| - 1].id);
            o.threw && o.photos == photos[..|photos| - 1] && o.adjustments == adjustments
  {
  }

  /** Removing any other photo as written revokes the blob URL of the photo after it. */
  lemma AsWrittenRevokesSuccessor(photos: seq<Photo>, adjustments: map<int, Adjustment>, id: int)
    requires 0 <= FindIndex(photos, id) < |photos| - 1
    ensures var index := FindIndex(photos, id);
            var o := RemoveAsWritten(photos, adjustments, id);
            && !o.threw && o.adjustments == adjustments - {id}
            && o.photos == photos[..index] + photos[index + 1..]
            && o.revoked == (if Truthy(photos[index + 1].blobUrl) then photos[index + 1].blobUrl else None)
  {
    var index := FindIndex(photos, id);
    assert (photos[..index] + photos[index + 1..])[index] == photos[index + 1];
  }

  /**
   * The removal as written leaves the same photo list as the intended one and
   * keeps the invariant; unless it throws, it also leaves the same table. The
   * two differ in the URL revoked and in throwing.
   */
  lemma AsWrittenKeepsInvariant(photos: seq<Photo>, adjustments: map<int, Adjustment>, nextPhotoId: int, id: int)
    requires StoreInvariant(photos, adjustments, nextPhotoId)
    ensures var o := RemoveAsWritten(photos, adjustments, id);
            var o' := RemoveIntended(photos, adjustments, id);
            && StoreInvariant(o.photos, o.adjustments, nextPhotoId)
            && o.photos == o'.photos
            && (!o.threw ==> o.adjustments == o'.adjustments)
  {
    RemoveKeepsInvariant(photos, adjustments, nextPhotoId, id);
    var o' := RemoveIntended(photos, adjustments, id);
    var index := FindIndex(photos, id);
    if index != -1 && index == |photos| - 1 {
      // the call throws with the photo spliced out and the table untouched
      assert RemoveAsWritten(photos, adjustments, id) == RemoveOutcome(o'.photos, adjustments, None, true);
      forall i | 0 <= i < |o'.photos|
        ensures o'.photos[i].id in adjustments
      {
        assert o'.photos[i] == photos[i];
      }
    }
  }

  /** An id no photo has changes nothing, as written and as intended. */
  lemma RemoveUnknownId(photos: seq<Photo>, adjustments: map<int, Adjustment>, id: int)
    requires forall i :: 0 <= i < |photos| ==> photos[i].id != id
    ensures RemoveAsWritten(photos, adjustments, id) == RemoveOutcome(photos, adjustments, None, false)
    ensures RemoveIntended(photos, adjustments, id) == RemoveOutcome(photos, adjustments, None, false)
  {
  }

  /** One photo, removed: the call throws and the adjustment for id 1 is left in the table. */
  lemma RemoveOnlyPhotoExample()
    ensures var o := RemoveAsWritten([Photo(1, "a.jpg", "/a.jpg", Some("blob:a"))], map[1 := Neutral], 1);
            o.threw && 1 in o.adjustments && o.photos == []
    ensures var o := RemoveIntended([Photo(1, "a.jpg", "/a.jpg", Some("blob:a"))], map[1 := Neutral], 1);
            !o.threw && 1 !in o.adjustments && o.revoked == Some("blob:a")
  {
    var photos := [Photo(1, "a.jpg", "/a.jpg", Some("blob:a"))];
    assert FindIndex(photos, 1) == 0;
  }

  /** Two photos, the first removed: the second photo's blob URL is revoked instead of the first's. */
  lemma RemoveFirstOfTwoExample()
    ensures var photos := [Photo(1, "a.jpg", "/a.jpg", Some("blob:a")), Photo(2, "b.jpg", "/b.jpg", Some("blob:b"))];
            && RemoveAsWritten(photos, map[1 := Neutral, 2 := Neutral], 1).revoked == Some("blob:b")
            && RemoveIntended(photos, map[1 := Neutral, 2 := Neutral], 1).revoked == Some("blob:a")
  {
    var photos := [Photo(1, "a.jpg", "/a.jpg", Some("blob:a")), Photo(2, "b.jpg", "/b.jpg", Some("blob:b"))];
    assert FindIndex(photos[..1], 1) == 0;
    assert FindIndex(photos, 1) == 0;
    assert (photos[..0] + photos[1..])[0] == photos[1];
  }

  /**
   * The intended removal: an unknown id changes nothing; otherwise exactly
   * the first photo with that id leaves the list, its adjustment leaves the
   * table, and its own blob URL is the one revoked.
   */
  lemma RemoveIntendedSpec(photos: seq<Photo>, adjustments: map<int, Adjustment>, id: int)
    ensures var o := RemoveIntended(photos, adjustments, id);
            && !o.threw
            && ((forall i :: 0 <= i < |photos| ==> photos[i].id != id) ==>
                  o.photos == photos && o.adjustments == adjustments && o.revoked == None)
            && (forall i :: 0 <= i < |photos| && photos[i].id == id && (forall k :: 0 <= k < i ==> photos[k].id != id) ==>
                  && o.photos == photos[..i] + photos[i + 1..]
                  && o.adjustments == adjustments - {id}
                  && o.revoked == (if Truthy(photos[i].blobUrl) then photos[i].blobUrl else None))
  {
    var index := FindIndex(photos, id);
    forall i | 0 <= i < |photos| && photos[i].id == id && (forall k :: 0 <= k < i ==> photos[k].id != id)
      ensures i == index
    {
      assert index != -1;
      assert !(index < i);
    }
  }

  /** The intended removal keeps the invariant and leaves no photo with the removed id. */
  lemma RemoveKeepsInvariant(photos: seq<Photo>, adjustments: map<int, Adjustment>, nextPhotoId: int, id: int)
    requires StoreInvariant(photos, adjustments, nextPhotoId)
    ensures var o := RemoveIntended(photos, adjustments, id);
            && StoreInvariant(o.photos, o.adjustments, nextPhotoId)
            && (forall i :: 0 <= i < |o.photos| ==> o.photos[i].id != id)
  {
    var index := FindIndex(photos, id);
    if index != -1 {
      var rest := photos[..index] + photos[index + 1..];
      assert forall i :: 0 <= i < |rest| ==> rest[i] == photos[if i < index then i else i + 1];
      forall i, j | 0 <= i < j < |rest|
        ensures rest[i].id != rest[j].id
      {
        var i', j' := if i < index then i else i + 1, if j < index then j else j + 1;
        assert rest[i] == photos[i'] && rest[j] == photos[j'];
      }
      forall i | 0 <= i < |rest|
        ensures rest[i].id != id
      {
        var i' := if i < index then i else i + 1;
        assert rest[i] == photos[i'] && photos[index].id == id;
      }
    }
  }

  // ---------------------------------------------------------------------------
  // updatePhotoAdjustment, applyAdjustment, resetPhotoAdjustment

  /** `{ ...adjustment, ...patch }`: the fields the patch gives win. */
  function Patched(a: Adjustment, patch: AdjustmentPatch): Adjustment {
    Adjustment(patch.x.GetOr(a.x), patch.y.GetOr(a.y), patch.scale.GetOr(a.scale), patch.rotation.GetOr(a.rotation))
  }

  /** The table after `updatePhotoAdjustment(id, patch)`: only an existing entry is patched. */
  function UpdatedAdjustments(adjustments: map<int, Adjustment>, id: int, patch: AdjustmentPatch): map<int, Adjustment> {
    if id in adjustments then adjustments[id := Patched(adjustments[id], patch)] else adjustments
  }

  /** The table after `resetPhotoAdjustment(id)`: only an existing entry is reset. */
  function ResetAdjustments(adjustments: map<int, Adjustment>, id: int): map<int, Adjustment> {
    if id in adjustments then adjustments[id := Neutral] else adjustments
  }

  /** A patch overwrites the fields it gives and keeps the ones it leaves out; applying it twice is applying it once. */
  lemma PatchedFields(a: Adjustment, patch: AdjustmentPatch)
    ensures var r := Patched(a, patch);
            && (if patch.x.Some? then r.x == patch.x.value else r.x == a.x)
            && (if patch.y.Some? then r.y == patch.y.value else r.y == a.y)
            && (if patch.scale.Some? then r.scale == patch.scale.value else r.scale == a.scale)
            && (if patch.rotation.Some? then r.rotation == patch.rotation.value else r.rotation == a.rotation)
    ensures Patched(Patched(a, patch), patch) == Patched(a, patch)
    ensures Patched(a, AdjustmentPatch(None, None, None, None)) == a
  {
  }

  /**
   * Updating touches one entry at most: the same ids stay in the table,
   * every other id keeps its adjustment, and the entry for `id` (if there
   * is one) is patched.
   */
  lemma UpdateSpec(adjustments: map<int, Adjustment>, id: int, patch: AdjustmentPatch)
    ensures var r := UpdatedAdjustments(adjustments, id, patch);
            && r.Keys == adjustments.Keys
            && (forall k :: k in adjustments && k != id ==> r[k] == adjustments[k])
            && (id in adjustments ==> r[id] == Patched(adjustments[id], patch))
  {
  }

  /** Resetting touches one entry at most, sets it to the neutral adjustment, and a second reset changes nothing. */
  lemma ResetSpec(adjustments: map<int, Adjustment>, id: int)
    ensures var r := ResetAdjustments(adjustments, id);
            && r.Keys == adjustments.Keys
            && (forall k :: k in adjustments && k != id ==> r[k] == adjustments[k])
            && (id in adjustments ==> r[id] == Neutral)
            && ResetAdjustments(r, id) == r
  {
  }

  /** Changing entries of the table without adding or removing ids keeps the invariant. */
  lemma SameKeysKeepInvariant(photos: seq<Photo>, adjustments: map<int, Adjustment>, adjustments': map<int, Adjustment>,
                              nextPhotoId: int)
    requires StoreInvariant(photos, adjustments, nextPhotoId) && adjustments'.Keys == adjustments.Keys
    ensures StoreInvariant(photos, adjustments', nextPhotoId)
  {
    assert forall id :: id in adjustments' <==> id in adjustments.Keys;
  }

  // ---------------------------------------------------------------------------
  // The store

  class PhotoEditorStore {
    var selectedTemplate: Option<Template>
    var selectedPhotos: seq<Photo>
    var photoAdjustments: map<int, Adjustment>
    var isLoading: bool
    var error: Option<string>
    var nextPhotoId: int

    ghost predicate Valid()
      reads this
    {
      StoreInvariant(selectedPhotos, photoAdjustments, nextPhotoId)
    }

    /** The store's initial `state()`. */
    constructor ()
      ensures Valid()
      ensures selectedTemplate == None && selectedPhotos == [] && photoAdjustments == map[]
      ensures !isLoading && error == None && nextPhotoId == 1
      ensures FrameImageSrc() == None && !IsProjectComplete()
    {
      selectedTemplate := None;
      selectedPhotos := [];
      photoAdjustments := map[];
      isLoading := false;
      error := None;
      nextPhotoId := 1;
    }

    method SetTemplate(template: Template)
      requires Valid()
      modifies this
      ensures Valid()
      ensures selectedTemplate == Some(template)
      ensures FrameImageSrc() == (if template.frameSrc != "" then Some(template.frameSrc) else None)
      ensures IsProjectComplete() <==> |selectedPhotos| == |template.slots|
      ensures selectedPhotos == old(selectedPhotos) && photoAdjustments == old(photoAdjustments)
      ensures nextPhotoId == old(nextPhotoId) && isLoading == old(isLoading) && error == old(error)
    {
      selectedTemplate := Some(template);
    }

    /** The synchronous part of `addPhoto`, up to its `await`. */
    method AddPhoto(name: string, url: string) returns (newPhoto: Photo)
      requires Valid()
      modifies this
      ensures Valid()
      ensures newPhoto == Photo(old(nextPhotoId), name, url, None)
      ensures forall i :: 0 <= i < |old(selectedPhotos)| ==> old(selectedPhotos)[i].id != newPhoto.id
      ensures selectedPhotos == old(selectedPhotos) + [newPhoto]
      ensures photoAdjustments == old(photoAdjustments)[newPhoto.id := Neutral]
      ensures nextPhotoId == old(nextPhotoId) + 1
      ensures selectedTemplate == old(selectedTemplate) && isLoading == old(isLoading) && error == old(error)
      ensures FrameImageSrc() == old(FrameImageSrc())
      ensures old(IsProjectComplete()) ==> !IsProjectComplete()
    {
      AddKeepsInvariant(selectedPhotos, photoAdjustments, nextPhotoId, name, url);
      newPhoto := Photo(nextPhotoId, name, url, None);
      selectedPhotos := selectedPhotos + [newPhoto];
      photoAdjustments := photoAdjustments[nextPhotoId := Neutral];
      nextPhotoId := nextPhotoId + 1;
    }

    /** `removePhoto(photoId)`, as intended; `revoked` is the blob URL released. */
    method RemovePhoto(photoId: int) returns (revoked: Option<string>)
      requires Valid()
      modifies this
      ensures Valid()
      ensures var o := RemoveIntended(old(selectedPhotos), old(photoAdjustments), photoId);
              selectedPhotos == o.photos && photoAdjustments == o.adjustments && revoked == o.revoked
      ensures forall i :: 0 <= i < |selectedPhotos| ==> selectedPhotos[i].id != photoId
      ensures selectedTemplate == old(selectedTemplate) && nextPhotoId == old(nextPhotoId)
      ensures isLoading == old(isLoading) && error == old(error)
      ensures FrameImageSrc() == old(FrameImageSrc())
      ensures old(IsProjectComplete()) && |selectedPhotos| < |old(selectedPhotos)| ==> !IsProjectComplete()
    {
      RemoveKeepsInvariant(selectedPhotos, photoAdjustments, nextPhotoId, photoId);
      revoked := None;
      var index := FindIndex(selectedPhotos, photoId);
      if index != -1 {
        var removed := selectedPhotos[index];
        selectedPhotos := selectedPhotos[..index] + selectedPhotos[index + 1..];
        if Truthy(removed.blobUrl) {
          revoked := removed.blobUrl;
        }
        photoAdjustments := photoAdjustments - {photoId};
      }
    }

    method UpdatePhotoAdjustment(photoId: int, adjustment: AdjustmentPatch)
      requires Valid()
      modifies this
      ensures Valid()
      ensures photoAdjustments == UpdatedAdjustments(old(photoAdjustments), photoId, adjustment)
      ensures selectedTemplate == old(selectedTemplate) && selectedPhotos == old(selectedPhotos)
      ensures nextPhotoId == old(nextPhotoId) && isLoading == old(isLoading) && error == old(error)
    {
      UpdateSpec(photoAdjustments, photoId, adjustment);
      SameKeysKeepInvariant(selectedPhotos, photoAdjustments, UpdatedAdjustments(photoAdjustments, photoId, adjustment), nextPhotoId);
      if photoId in photoAdjustments {
        photoAdjustments := photoAdjustments[photoId := Patched(photoAdjustments[photoId], adjustment)];
      }
    }

    method ResetPhotoAdjustment(photoId: int)
      requires Valid()
      modifies this
      ensures Valid()
      ensures photoAdjustments == ResetAdjustments(old(photoAdjustments), photoId)
      ensures selectedTemplate == old(selectedTemplate) && selectedPhotos == old(selectedPhotos)
      ensures nextPhotoId == old(nextPhotoId) && isLoading == old(isLoading) && error == old(error)
    {
      ResetSpec(photoAdjustments, photoId);
      SameKeysKeepInvariant(selectedPhotos, photoAdjustments, ResetAdjustments(photoAdjustments, photoId), nextPhotoId);
      if photoId in photoAdjustments {
        photoAdjustments := photoAdjustments[photoId := Neutral];
      }
    }

    /** `applyAdjustment` delegates to `updatePhotoAdjustment`. */
    method ApplyAdjustment(photoId: int, adjustment: AdjustmentPatch)
      requires Valid()
      modifies this
      ensures Valid()
      ensures photoAdjustments == UpdatedAdjustments(old(photoAdjustments), photoId, adjustment)
      ensures selectedTemplate == old(selectedTemplate) && selectedPhotos == old(selectedPhotos)
      ensures nextPhotoId == old(nextPhotoId) && isLoading == old(isLoading) && error == old(error)
    {
      UpdatePhotoAdjustment(photoId, adjustment);
    }

    method SetLoading(status: bool)
      requires Valid()
      modifies this
      ensures Valid()
      ensures isLoading == status
      ensures selectedTemplate == old(selectedTemplate) && selectedPhotos == old(selectedPhotos)
      ensures photoAdjustments == old(photoAdjustments) && nextPhotoId == old(nextPhotoId) && error == old(error)
    {
      isLoading := status;
    }

    method SetError(message: Option<string>)
      requires Valid()
      modifies this
      ensures Valid()
      ensures error == message
      ensures selectedTemplate == old(selectedTemplate) && selectedPhotos == old(selectedPhotos)
      ensures photoAdjustments == old(photoAdjustments) && nextPhotoId == old(nextPhotoId) && isLoading == old(isLoading)
    {
      error := message;
    }

    /** The state part of `resetSession`. */
    method ResetSession()
      modifies this
      ensures Valid()
      ensures selectedTemplate == None && selectedPhotos == [] && photoAdjustments == map[] && nextPhotoId == 1
      ensures isLoading == old(isLoading) && error == old(error)
      ensures FrameImageSrc() == None && !IsProjectComplete()
    {
      selectedTemplate := None;
      selectedPhotos := [];
      photoAdjustments := map[];
      nextPhotoId := 1;
    }

    /** `frameImageSrc`: the template's frame, or null when there is no template or its frame is empty. */
    function FrameImageSrc(): (r: Option<string>)
      reads this
      ensures r.Some? <==> selectedTemplate.Some? && selectedTemplate.value.frameSrc != ""
      ensures r.Some? ==> r.value == selectedTemplate.value.frameSrc
    {
      if selectedTemplate.Some? && selectedTemplate.value.frameSrc != "" then Some(selectedTemplate.value.frameSrc) else None
    }

    /** `isProjectComplete`: a template is chosen and there is one photo per slot. */
    function IsProjectComplete(): (r: bool)
      reads this
      ensures r <==> selectedTemplate.Some? && |selectedPhotos| == |selectedTemplate.value.slots|
    {
      selectedTemplate.Some? && |selectedPhotos| == |selectedTemplate.value.slots|
    }
  }
}
