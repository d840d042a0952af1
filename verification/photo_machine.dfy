/**
 * The photo-presence state machine of `CompactPhotoEditorView`, stated on values.
 *
 * An `Editor` is the view's own state (the bound delta, `mReadOnly`,
 * `mIsPhotoSet`, `mMaterialPalette`, `mPhotoHandler`) together with the
 * contents of the bound `ValuesDelta` cell. Each public operation of the view
 * is a function from an `Editor` to an `Outcome`: either the next editor and
 * the calls the view made into its collaborators (image view, photo manager,
 * click handler), in order, or `Crash` where the Java code dereferences a null
 * delta.
 */
module PhotoMachine {
  import opened Wrappers
  import opened Uris

  newtype int32 = x: int | -0x8000_0000 <= x < 0x8000_0000

  type Bytes = seq<bv8>

  /** An ARGB colour int. */
  type Color = int32

  /** `getAfter()`: null, or the after-edit values and their PHOTO entry (null when absent). */
  datatype AfterValues = NoAfter | AfterValues(photo: Option<Bytes>)

  /** The PHOTO row's `ValuesDelta`, as far as the view reads and writes it. */
  datatype Cell = Cell(
    photo: Option<Bytes>,          // getAsByteArray(PHOTO)
    after: AfterValues,            // getAfter()
    photoFileId: Option<int32>,    // getAsInteger(PHOTO_FILE_ID)
    fromTemplate: bool,            // setFromTemplate
    superPrimary: bool)            // setSuperPrimary

  /** `MaterialPalette`: the primary and secondary colours of the contact. */
  datatype Palette = Palette(primary: Color, secondary: Color)

  /** A bitmap handed to the view, or the square thumbnail `createScaledBitmap` makes of it. */
  datatype Bitmap = Picked(handle: nat) | Scaled(source: Bitmap, width: nat, height: nat)

  /** The registered `PhotoHandler`, and the view a click came from, as identities. */
  datatype Handler = Handler(id: nat)
  datatype ClickSource = ClickSource(id: nat)

  /** A call the view makes into a collaborator. */
  datatype Effect =
    | ShowDecoded(bytes: Bytes)                        // decodeByteArray, then setImageBitmap
    | ShowDefaultAvatar                                // setImageDrawable(default avatar)
    | ShowBitmap(bitmap: Bitmap)                       // setImageBitmap(thumbnail)
    | ApplyTint(color: Color)                          // mPhotoImageView.setTint
    | ApplyOverlayGradient                             // mPhotoIconOverlay.setBackground(gradient)
    | LoadFullSize(uri: Uri)                           // mContactPhotoManager.loadPhoto
    | ForwardClick(handler: Handler, source: ClickSource) // mPhotoHandler.onClick

  /**
   * Values the view obtains from outside: the default colour pair (from resources) and the
   * thumbnail size `ContactsUtils.getThumbnailSize` answers, both held constant.
   */
  datatype Env = Env(defaultColors: Palette, thumbnailSize: nat)

  datatype Editor = Editor(
    cell: Option<Cell>,            // mValuesDelta and its contents
    readOnly: bool,                // mReadOnly
    isPhotoSet: bool,              // mIsPhotoSet
    palette: Option<Palette>,      // mMaterialPalette
    photoHandler: Option<Handler>) // mPhotoHandler

  datatype Outcome = Crash | Next(editor: Editor, effects: seq<Effect>)

  /** A freshly inflated view: nothing bound, every field at its Java default. */
  const Initial := Editor(None, false, false, None, None)

  /** `isWritablePhotoSet()` */
  predicate IsWritablePhotoSet(e: Editor)
  {
    e.isPhotoSet && !e.readOnly
  }

  /** The invariant the view keeps with its delta: the delta is a template exactly when no photo is set. */
  predicate TemplateMirrorsPhoto(e: Editor)
  {
    e.cell.Some? && e.cell.value.fromTemplate == !e.isPhotoSet
  }

  /** The colour `setDefaultPhotoTint` applies. */
  function TintColor(palette: Option<Palette>, env: Env): (c: Color)
    ensures palette.Some? ==> c == palette.value.primary
    ensures palette.None? ==> c == env.defaultColors.primary
  {
    match palette
    case Some(p) => p.primary
    case None => env.defaultColors.primary
  }

  /** The URI of the full-size photo with the given file id. */
  function FullSizePhotoUri(fileId: int32): (u: Uri)
    ensures u.scheme == DisplayPhotoContentUri.scheme && u.authority == DisplayPhotoContentUri.authority
    ensures |u.pathSegments| == |DisplayPhotoContentUri.pathSegments| + 1
    ensures u.pathSegments[..|DisplayPhotoContentUri.pathSegments|] == DisplayPhotoContentUri.pathSegments
    ensures ParseDecimal(u.pathSegments[|u.pathSegments| - 1]) == Some(fileId as int)
  {
    IntToStringRoundTrip(fileId as int);
    AppendPath(DisplayPhotoContentUri, IntToString(fileId as int))
  }

  /**
   * Whether PHOTO has no after-edit value, so PHOTO_FILE_ID may still name a larger
   * version of the bytes. A PHOTO written by `setPhoto` is an after-edit value.
   */
  predicate PhotoUnedited(c: Cell)
  {
    c.after.NoAfter? || c.after.photo.None?
  }

  /** The full-size reference `setValues` passes on for a delta that holds PHOTO bytes. */
  function FullSizeRequest(c: Cell): Option<Uri>
  {
    if PhotoUnedited(c) && c.photoFileId.Some? then Some(FullSizePhotoUri(c.photoFileId.value)) else None
  }

  /** `setFullSizedPhoto(uri)`: display only; a null reference issues nothing. */
  function SetFullSizedPhoto(e: Editor, uri: Option<Uri>): (o: Outcome)
    ensures o.Next? && o.editor == e
    ensures uri.None? ==> o.effects == []
    ensures uri.Some? ==> o.effects == [LoadFullSize(uri.value)]
  {
    Next(e, if uri.Some? then [LoadFullSize(uri.value)] else [])
  }

  /** `setDefaultPhoto()`: placeholder avatar and tint, then the flags; the delta must be bound. */
  function SetDefaultPhoto(e: Editor, env: Env): Outcome
  {
    if e.cell.None? then Crash
    else Next(e.(isPhotoSet := false, cell := Some(e.cell.value.(fromTemplate := true))),
              [ShowDefaultAvatar, ApplyTint(TintColor(e.palette, env))])
  }

  /** The decoration `setValues` applies once the photo state is known. */
  function Decoration(e: Editor, env: Env): seq<Effect>
  {
    if e.isPhotoSet then [ApplyOverlayGradient] else [ApplyTint(TintColor(e.palette, env))]
  }

  /** `setValues(..., valuesDelta, ..., readOnly, materialPalette, ...)`: the bind. */
  function SetValues(e: Editor, delta: Option<Cell>, readOnly: bool, palette: Option<Palette>, env: Env): (o: Outcome)
    ensures delta.None? <==> o.Crash?
    ensures delta.Some? ==> o.editor.isPhotoSet == delta.value.photo.Some?
    ensures delta.Some? ==> o.editor.cell == Some(delta.value.(fromTemplate := delta.value.photo.None?))
    ensures delta.Some? ==> o.editor.readOnly == readOnly && o.editor.palette == palette
    ensures delta.Some? ==> o.editor.photoHandler == e.photoHandler
  {
    var e0 := e.(cell := delta, readOnly := readOnly, palette := palette);
    if delta.None? then SetDefaultPhoto(e0, env)
    else
      var c := delta.value;
      var shown :=
        if c.photo.None? then SetDefaultPhoto(e0, env)
        else
          var bound := e0.(isPhotoSet := true, cell := Some(c.(fromTemplate := false)));
          Next(bound, [ShowDecoded(c.photo.value)] + SetFullSizedPhoto(bound, FullSizeRequest(c)).effects);
      match shown
      case Crash => Crash
      case Next(e1, fx) => Next(e1, fx + Decoration(e1, env))
  }

  /**
   * `setPhoto(bitmap)`, where `compress` answers for `ContactPhotoUtils.compressBitmap`
   * (consulted only for a non-null bitmap).
   */
  function SetPhoto(e: Editor, bitmap: Option<Bitmap>, compress: Bitmap -> Option<Bytes>, env: Env): (o: Outcome)
    ensures e.readOnly ==> o == Next(e, [])
    ensures !e.readOnly && e.cell.None? ==> o.Crash?
    ensures !e.readOnly && e.cell.Some? ==>
      o.Next? && o.editor.readOnly == e.readOnly && o.editor.palette == e.palette &&
      o.editor.photoHandler == e.photoHandler && o.editor.cell.Some? &&
      o.editor.isPhotoSet == bitmap.Some? && o.editor.cell.value.fromTemplate == bitmap.None?
    ensures !e.readOnly && e.cell.Some? && bitmap.None? ==>
      o.editor.cell == Some(e.cell.value.(photo := None, after := AfterValues(None), fromTemplate := true))
    ensures !e.readOnly && e.cell.Some? && bitmap.Some? ==>
      var c := e.cell.value;
      var compressed := compress(Scaled(bitmap.value, env.thumbnailSize, env.thumbnailSize));
      o.editor.cell.value.superPrimary &&
      o.editor.cell.value.photo == (if compressed.Some? then compressed else c.photo) &&
      o.editor.cell.value.after == (if compressed.Some? then AfterValues(compressed) else c.after) &&
      o.editor.cell.value.photoFileId == c.photoFileId
    ensures !e.readOnly && e.cell.Some? ==>
      o.effects == if bitmap.None? then [ShowDefaultAvatar, ApplyTint(TintColor(e.palette, env))]
                   else [ShowBitmap(Scaled(bitmap.value, env.thumbnailSize, env.thumbnailSize))]
  {
    if e.readOnly then Next(e, [])
    else if bitmap.None? then
      if e.cell.None? then Crash
      else SetDefaultPhoto(e.(cell := Some(e.cell.value.(photo := None, after := AfterValues(None)))), env)
    else if e.cell.None? then Crash
    else
      var thumbnail := Scaled(bitmap.value, env.thumbnailSize, env.thumbnailSize);
      var c := e.cell.value.(fromTemplate := false, superPrimary := true);
      var compressed := compress(thumbnail);
      Next(e.(isPhotoSet := true, cell := Some(if compressed.Some? then c.(photo := compressed, after := AfterValues(compressed)) else c)),
           [ShowBitmap(thumbnail)])
  }

  /** `setPhotoHandler(handler)`: replaces the single registration. */
  function SetPhotoHandler(e: Editor, handler: Option<Handler>): (o: Outcome)
    ensures o.Next? && o.effects == [] && o.editor.photoHandler == handler
    ensures o.editor.(photoHandler := e.photoHandler) == e
  {
    Next(e.(photoHandler := handler), [])
  }

  /** `onClick(view)`: forwarded to the handler when one is registered. */
  function OnClick(e: Editor, source: ClickSource): (o: Outcome)
    ensures o.Next? && o.editor == e
    ensures o.effects != [] <==> e.photoHandler.Some?
    ensures o.effects != [] ==> o.effects == [ForwardClick(e.photoHandler.value, source)]
  {
    match e.photoHandler
    case Some(h) => Next(e, [ForwardClick(h, source)])
    case None => Next(e, [])
  }

  /** A call a client makes on the view. */
  datatype Command =
    | Bind(delta: Option<Cell>, readOnly: bool, palette: Option<Palette>)
    | ChoosePhoto(bitmap: Option<Bitmap>, compress: Bitmap -> Option<Bytes>)
    | ShowFullSize(uri: Option<Uri>)
    | RegisterHandler(handler: Option<Handler>)
    | Tap(source: ClickSource)

  function Step(e: Editor, cmd: Command, env: Env): Outcome
  {
    match cmd
    case Bind(d, r, p) => SetValues(e, d, r, p, env)
    case ChoosePhoto(b, compress) => SetPhoto(e, b, compress, env)
    case ShowFullSize(u) => SetFullSizedPhoto(e, u)
    case RegisterHandler(h) => SetPhotoHandler(e, h)
    case Tap(s) => OnClick(e, s)
  }

  /** A sequence of calls, stopping at the first crash; the effects are concatenated. */
  function Run(e: Editor, cmds: seq<Command>, env: Env): Outcome
    decreases |cmds|
  {
    if cmds == [] then Next(e, [])
    else
      match Step(e, cmds[0], env)
      case Crash => Crash
      case Next(e1, fx) =>
        match Run(e1, cmds[1..], env)
        case Crash => Crash
        case Next(e2, fx2) => Next(e2, fx + fx2)
  }

  predicate BindsNonNull(cmds: seq<Command>)
  {
    forall i :: 0 <= i < |cmds| ==> cmds[i].Bind? ==> cmds[i].delta.Some?
  }

  predicate NoBind(cmds: seq<Command>)
  {
    forall i :: 0 <= i < |cmds| ==> !cmds[i].Bind?
  }

  /** From a mirrored state, every call keeps the mirror and none crashes. */
  lemma {:induction false} RunKeepsTemplateMirror(e: Editor, cmds: seq<Command>, env: Env)
    requires TemplateMirrorsPhoto(e) && BindsNonNull(cmds)
    ensures Run(e, cmds, env).Next? && TemplateMirrorsPhoto(Run(e, cmds, env).editor)
    decreases |cmds|
  {
    if cmds != [] {
      var o := Step(e, cmds[0], env);
      assert o.Next? && TemplateMirrorsPhoto(o.editor);
      RunKeepsTemplateMirror(o.editor, cmds[1..], env);
    }
  }

  /** A first bind with a non-null delta makes every later trace crash-free and mirrored. */
  lemma BoundRunKeepsTemplateMirror(e: Editor, first: Command, rest: seq<Command>, env: Env)
    requires first.Bind? && first.delta.Some? && BindsNonNull(rest)
    ensures Run(e, [first] + rest, env).Next?
    ensures TemplateMirrorsPhoto(Run(e, [first] + rest, env).editor)
  {
    var o := Step(e, first, env);
    RunKeepsTemplateMirror(o.editor, rest, env);
    assert ([first] + rest)[1..] == rest;
  }

  /** On a read-only view no call short of a new bind changes the photo state or the delta. */
  lemma {:induction false} ReadOnlyRunKeepsPhoto(e: Editor, cmds: seq<Command>, env: Env)
    requires e.readOnly && NoBind(cmds)
    ensures Run(e, cmds, env).Next?
    ensures var e2 := Run(e, cmds, env).editor;
      e2.readOnly && e2.isPhotoSet == e.isPhotoSet && e2.cell == e.cell && e2.palette == e.palette
    decreases |cmds|
  {
    if cmds != [] {
      var o := Step(e, cmds[0], env);
      assert o.Next? && o.editor.(photoHandler := e.photoHandler) == e;
      ReadOnlyRunKeepsPhoto(o.editor, cmds[1..], env);
    }
  }

  /** `setPhoto` on a writable, bound view: a non-null bitmap makes the photo writable-set, null clears it; a read-only view keeps its answer. */
  lemma SetPhotoWritability(e: Editor, bitmap: Option<Bitmap>, compress: Bitmap -> Option<Bytes>, env: Env)
    requires !e.readOnly ==> e.cell.Some?
    ensures var o := SetPhoto(e, bitmap, compress, env);
      o.Next? &&
      (e.readOnly ==> IsWritablePhotoSet(o.editor) == IsWritablePhotoSet(e)) &&
      (!e.readOnly ==> (IsWritablePhotoSet(o.editor) <==> bitmap.Some?))
  {
  }

  /** The decoration `setValues` applies: the gradient exactly when a photo is set, else the tint. */
  lemma SetValuesDecoration(e: Editor, c: Cell, readOnly: bool, palette: Option<Palette>, env: Env)
    ensures var o := SetValues(e, Some(c), readOnly, palette, env);
      (ApplyOverlayGradient in o.effects <==> o.editor.isPhotoSet) &&
      (ApplyTint(TintColor(palette, env)) in o.effects <==> !o.editor.isPhotoSet) &&
      (forall col :: ApplyTint(col) in o.effects ==> col == TintColor(palette, env))
  {
  }

  /** `setValues` issues a full-size load only for unedited PHOTO bytes with a file id, for that id's URI. */
  lemma SetValuesFullSizeRequest(e: Editor, c: Cell, readOnly: bool, palette: Option<Palette>, env: Env, u: Uri)
    ensures var o := SetValues(e, Some(c), readOnly, palette, env);
      LoadFullSize(u) in o.effects <==>
        c.photo.Some? && PhotoUnedited(c) && c.photoFileId.Some? && u == FullSizePhotoUri(c.photoFileId.value)
  {
  }

  /** Binding the same, unchanged delta a second time gives the state and the calls of the first bind. */
  lemma SetValuesIdempotent(e: Editor, c: Cell, readOnly: bool, palette: Option<Palette>, env: Env)
    ensures var o1 := SetValues(e, Some(c), readOnly, palette, env);
      var o2 := SetValues(o1.editor, o1.editor.cell, readOnly, palette, env);
      o2 == o1
  {
  }

  /**
   * Once the user's photo has been written to the delta, binding that delta again shows the
   * new bytes and asks for no full-size load: the file id names the replaced photo.
   */
  lemma ChosenPhotoSuppressesFullSizeLoad(e: Editor, bitmap: Bitmap, compress: Bitmap -> Option<Bytes>, env: Env, u: Uri)
    requires !e.readOnly && e.cell.Some?
    requires compress(Scaled(bitmap, env.thumbnailSize, env.thumbnailSize)).Some?
    ensures var o1 := SetPhoto(e, Some(bitmap), compress, env);
      var o2 := SetValues(o1.editor, o1.editor.cell, e.readOnly, e.palette, env);
      o2.Next? && o2.editor.isPhotoSet && LoadFullSize(u) !in o2.effects &&
      ShowDecoded(compress(Scaled(bitmap, env.thumbnailSize, env.thumbnailSize)).value) in o2.effects
  {
    var o1 := SetPhoto(e, Some(bitmap), compress, env);
    SetValuesFullSizeRequest(o1.editor, o1.editor.cell.value, e.readOnly, e.palette, env, u);
  }
}
