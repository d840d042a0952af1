/**
 * `CompactPhotoEditorView` and the `ValuesDelta` cell it edits in place.
 *
 * The view's calls into its collaborators are appended to `effects`; each
 * public method is proved to leave the view and its delta in the state the
 * matching function of `PhotoMachine` computes, having made exactly the calls
 * that function lists.
 */
module PhotoEditor {
  import opened Wrappers
  import opened Uris
  import opened PhotoMachine

  /** The mutable delta of the contact's PHOTO row, shared with the rest of the editor. */
  class ValuesDelta {
    var photo: Option<Bytes>
    var after: AfterValues
    var photoFileId: Option<int32>
    var fromTemplate: bool
    var superPrimary: bool

    function Snapshot(): Cell
      reads this
    {
      Cell(photo, after, photoFileId, fromTemplate, superPrimary)
    }

    method SetFromTemplate(isTemplate: bool)
      modifies this
      ensures Snapshot() == old(Snapshot()).(fromTemplate := isTemplate)
    {
      fromTemplate := isTemplate;
    }

    method SetSuperPrimary(isSuperPrimary: bool)
      modifies this
      ensures Snapshot() == old(Snapshot()).(superPrimary := isSuperPrimary)
    {
      superPrimary := isSuperPrimary;
    }

    /**
     * `setPhoto(bytes)` and `put(PHOTO, bytes)`: both put PHOTO into the after-edit values,
     * which then answer for PHOTO.
     */
    method PutPhoto(bytes: Option<Bytes>)
      modifies this
      ensures Snapshot() == old(Snapshot()).(photo := bytes, after := AfterValues(bytes))
    {
      photo := bytes;
      after := AfterValues(bytes);
    }
  }

  class CompactPhotoEditorView {
    const env: Env
    var valuesDelta: ValuesDelta?
    var readOnly: bool
    var isPhotoSet: bool
    var materialPalette: Option<Palette>
    var photoHandler: Option<Handler>
    var effects: seq<Effect>

    /** The view's state together with the current contents of its delta. */
    function State(): Editor
      reads this, valuesDelta
    {
      Editor(if valuesDelta == null then None else Some(valuesDelta.Snapshot()),
             readOnly, isPhotoSet, materialPalette, photoHandler)
    }

    /** The delta mirrors the photo state (see `PhotoMachine.TemplateMirrorsPhoto`). */
    predicate Consistent()
      reads this, valuesDelta
    {
      valuesDelta != null && valuesDelta.fromTemplate == !isPhotoSet
    }

    constructor (env: Env)
      ensures this.env == env && State() == Initial && effects == []
    {
      this.env := env;
      valuesDelta := null;
      readOnly := false;
      isPhotoSet := false;
      materialPalette := None;
      photoHandler := None;
      effects := [];
    }

    method SetValues(valuesDelta: ValuesDelta, readOnly: bool, materialPalette: Option<Palette>)
      modifies this, valuesDelta
      ensures this.valuesDelta == valuesDelta && Consistent()
      ensures var o := PhotoMachine.SetValues(old(State()), Some(old(valuesDelta.Snapshot())),
                                              readOnly, materialPalette, env);
        o.Next? && State() == o.editor && effects == old(effects) + o.effects
    {
      ghost var c := valuesDelta.Snapshot();
      ghost var before := effects;
      this.valuesDelta := valuesDelta;
      this.readOnly := readOnly;
      this.materialPalette := materialPalette;
      ghost var shown := PhotoMachine.SetDefaultPhoto(State(), env);
      var bytes := valuesDelta.photo;
      if bytes.None? {
        SetDefaultPhoto();
      } else {
        effects := effects + [ShowDecoded(bytes.value)];
        isPhotoSet := true;
        valuesDelta.SetFromTemplate(false);
        shown := Next(State(), [ShowDecoded(bytes.value)] + PhotoMachine.SetFullSizedPhoto(State(), FullSizeRequest(c)).effects);
        if valuesDelta.after.NoAfter? || valuesDelta.after.photo.None? {
          var fileId := valuesDelta.photoFileId;
          if fileId.Some? {
            SetFullSizedPhoto(Some(FullSizePhotoUri(fileId.value)));
          }
        }
      }
      assert shown.Next? && State() == shown.editor && effects == before + shown.effects;
      if isPhotoSet {
        effects := effects + [ApplyOverlayGradient];
      } else {
        SetDefaultPhotoTint();
      }
      assert effects == before + shown.effects + Decoration(shown.editor, env);
    }

    method SetPhotoHandler(handler: Option<Handler>)
      modifies this
      ensures var o := PhotoMachine.SetPhotoHandler(old(State()), handler);
        State() == o.editor && effects == old(effects) + o.effects && valuesDelta == old(valuesDelta)
    {
      photoHandler := handler;
    }

    method IsWritablePhotoSet() returns (r: bool)
      ensures r <==> isPhotoSet && !readOnly
    {
      r := isPhotoSet && !readOnly;
    }

    /** `setPhoto(bitmap)`; `compress` answers for `ContactPhotoUtils.compressBitmap`. */
    method SetPhoto(bitmap: Option<Bitmap>, compress: Bitmap -> Option<Bytes>)
      requires readOnly || valuesDelta != null
      modifies this, valuesDelta
      ensures valuesDelta == old(valuesDelta) && readOnly == old(readOnly)
      ensures old(Consistent()) || !readOnly ==> Consistent()
      ensures var o := PhotoMachine.SetPhoto(old(State()), bitmap, compress, env);
        o.Next? && State() == o.editor && effects == old(effects) + o.effects
    {
      if readOnly {
        return;
      }
      if bitmap.None? {
        valuesDelta.PutPhoto(None);
        SetDefaultPhoto();
        return;
      }
      var scaledBitmap := Scaled(bitmap.value, env.thumbnailSize, env.thumbnailSize);
      effects := effects + [ShowBitmap(scaledBitmap)];
      isPhotoSet := true;
      valuesDelta.SetFromTemplate(false);
      valuesDelta.SetSuperPrimary(true);
      var compressed := compress(scaledBitmap);
      if compressed.Some? {
        valuesDelta.PutPhoto(compressed);
      }
    }

    /** `setDefaultPhoto()`: show the "add photo" placeholder. */
    method SetDefaultPhoto()
      requires valuesDelta != null
      modifies this, valuesDelta
      ensures valuesDelta == old(valuesDelta) && Consistent()
      ensures var o := PhotoMachine.SetDefaultPhoto(old(State()), env);
        o.Next? && State() == o.editor && effects == old(effects) + o.effects
    {
      effects := effects + [ShowDefaultAvatar];
      SetDefaultPhotoTint();
      isPhotoSet := false;
      valuesDelta.SetFromTemplate(true);
    }

    method SetDefaultPhotoTint()
      modifies this`effects
      ensures effects == old(effects) + [ApplyTint(TintColor(materialPalette, env))]
    {
      var color := if materialPalette.None? then env.defaultColors.primary else materialPalette.value.primary;
      effects := effects + [ApplyTint(color)];
    }

    /** `setFullSizedPhoto(photoUri)`: display only, the delta is not touched. */
    method SetFullSizedPhoto(photoUri: Option<Uri>)
      modifies this`effects
      ensures effects == old(effects) + PhotoMachine.SetFullSizedPhoto(State(), photoUri).effects
    {
      if photoUri.Some? {
        effects := effects + [LoadFullSize(photoUri.value)];
      }
    }

    method OnClick(source: ClickSource)
      modifies this`effects
      ensures effects == old(effects) + PhotoMachine.OnClick(State(), source).effects
    {
      if photoHandler.Some? {
        effects := effects + [ForwardClick(photoHandler.value, source)];
      }
    }
  }
}
