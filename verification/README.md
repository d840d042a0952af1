# CompactPhotoEditorView: the photo-presence state machine

This project models the part of the Android Contacts editor's `CompactPhotoEditorView` that
decides whether the contact's primary photo is set. The view is bound to the PHOTO row's
`ValuesDelta` with `setValues`. `setPhoto` replaces or clears the photo, and
`setFullSizedPhoto` asks the photo manager for the high-resolution picture. A tap is
forwarded to the registered `PhotoHandler`.

The model has four modules:

- `PhotoMachine` (photo_machine.dfy) states each operation as a function on values. An
  `Editor` holds the view's fields (`mReadOnly`, `mIsPhotoSet`, `mMaterialPalette`,
  `mPhotoHandler`) and the contents of the bound delta. An operation's `Outcome` is either
  the next editor plus the calls the view made into its collaborators, in order, or `Crash`
  when the Java code dereferences a null `mValuesDelta`. `Step` and `Run` replay a
  sequence of client calls. The lemmas about these sequences state the invariant the view
  keeps with its delta: `fromTemplate == !mIsPhotoSet`.
- `PhotoEditor` (photo_editor_view.dfy) has the classes `ValuesDelta` and
  `CompactPhotoEditorView`. Their methods update fields in place, as the Java does. Each
  public method is proved to reach the state and the effect log that the matching
  `PhotoMachine` function computes.
- `Uris` (uris.dfy) covers `DisplayPhoto.CONTENT_URI`, `appendPath` and
  `Integer.toString`, with a parser that reads the file id back.
- `Wrappers` (wrappers.dfy) gives `Option`, which stands for a Java reference that may be
  null.

Collaborators are recorded, not executed. Each call into the image view, the overlay, the
photo manager or the click handler appends an `Effect` to the view's `effects` log.
`ContactPhotoUtils.compressBitmap` is an oracle parameter `compress` that returns optional
bytes. The default colour pair comes from resources
(`MaterialColorMapUtils.getDefaultPrimaryAndSecondaryColors`). The thumbnail size is whatever
`ContactsUtils.getThumbnailSize` returns. The model holds both constant in `env`. `ValuesDelta`'s own code is not part of this model. Its setters are read
from their names: `setFromTemplate` and `setSuperPrimary` each assign one flag.
`setPhoto` and `put(PHOTO, …)` both put PHOTO into the after-edit values, so
`getAfter()` then carries the written PHOTO entry.

The code lacks some behaviour a reader might expect, and the model follows the code:

- Bound bytes that fail to decode still count as a set photo. Lines 115-119 set
  `mIsPhotoSet` with no decode-failure branch.
- There is no bind-generation counter. A full-size load that finishes after a rebind is
  not guarded against.
- The aspect ratios are never validated (lines 78-79).
- A bind without bytes applies the tint twice: once inside `setDefaultPhoto` and again at
  line 144.
- The overlay gradient is only ever set, never cleared. So the decoration properties
  concern the calls one `setValues` makes.

## Model

| member | source | states |
|---|---|---|
| PhotoMachine.SetValues | src/com/android/contacts/editor/CompactPhotoEditorView.java:99-136 | A null delta crashes. Otherwise the photo is set exactly when the delta holds PHOTO bytes, and the delta's fromTemplate becomes the negation of that. readOnly and the palette are recorded, and the handler is kept. |
| PhotoMachine.SetValuesFullSizeRequest | src/com/android/contacts/editor/CompactPhotoEditorView.java:121-133 | A bind asks for a full-size load of URI u exactly when PHOTO bytes are present, the after-values are null or have no PHOTO, the file id is non-null, and u is that id's display-photo URI. |
| PhotoMachine.SetValuesDecoration | src/com/android/contacts/editor/CompactPhotoEditorView.java:138-145 | A bind applies the gradient overlay exactly when the photo is set, and the tint exactly when it is not. Every tint it applies has the palette's colour. |
| PhotoMachine.SetValuesIdempotent | src/com/android/contacts/editor/CompactPhotoEditorView.java:99-145 | Binding the same unchanged delta again gives the same state and the same calls as the first bind. |
| PhotoMachine.TintColor | src/com/android/contacts/editor/CompactPhotoEditorView.java:233-239 | The tint is the palette's primary colour when a palette is given, else the default primary colour. |
| PhotoMachine.FullSizePhotoUri | src/com/android/contacts/editor/CompactPhotoEditorView.java:128-131 | The request URI is content://com.android.contacts/display_photo with one more path segment, and that segment reads back as the file id. |
| PhotoMachine.SetFullSizedPhoto | src/com/android/contacts/editor/CompactPhotoEditorView.java:245-259 | The state and the delta never change. A null URI issues nothing, and a non-null URI issues exactly one load of it. |
| PhotoMachine.SetPhoto | src/com/android/contacts/editor/CompactPhotoEditorView.java:188-231 | Read-only: nothing changes and nothing is called. Writable with no delta: crash. Null bitmap: PHOTO and its after-edit entry become null, the photo is unset and fromTemplate becomes true. Non-null bitmap: the photo is set, fromTemplate becomes false and superPrimary true. PHOTO and its after-edit entry take the compressed thumbnail only when compression gives bytes; otherwise both keep their values. readOnly never changes. |
| PhotoMachine.SetPhotoWritability | src/com/android/contacts/editor/CompactPhotoEditorView.java:180-220 | On a writable bound view, isWritablePhotoSet afterwards holds exactly when the bitmap was non-null. On a read-only view, bound or not, it is unchanged. |
| PhotoMachine.SetPhotoHandler | src/com/android/contacts/editor/CompactPhotoEditorView.java:173-175 | The new handler replaces the old one. Nothing else changes and nothing is called. |
| PhotoMachine.OnClick | src/com/android/contacts/editor/CompactPhotoEditorView.java:261-266 | A click is forwarded, with its source view, exactly when a handler is registered. The state never changes. |
| PhotoMachine.RunKeepsTemplateMirror | src/com/android/contacts/editor/CompactPhotoEditorView.java:119 | From a state where fromTemplate == !isPhotoSet, any sequence of calls whose binds pass a non-null delta never crashes and keeps that equality. The relevant writes are at lines 119, 205 and 229-230. |
| PhotoMachine.BoundRunKeepsTemplateMirror | src/com/android/contacts/editor/CompactPhotoEditorView.java:102-119 | After a bind with a non-null delta, from any prior state, every later sequence of calls with non-null binds never crashes and keeps fromTemplate == !isPhotoSet. |
| PhotoMachine.ReadOnlyRunKeepsPhoto | src/com/android/contacts/editor/CompactPhotoEditorView.java:188-192 | On a read-only view, no sequence of calls without a rebind changes the photo state, the delta, the palette or readOnly. |
| Uris.NatToDecimal | src/com/android/contacts/editor/CompactPhotoEditorView.java:130-131 | The id's path segment is a non-empty string of decimal digits with no leading zero. |
| Uris.NatDecimalRoundTrip | src/com/android/contacts/editor/CompactPhotoEditorView.java:130-131 | Reading the decimal digits of n gives n back. |
| Uris.IntToStringRoundTrip | src/com/android/contacts/editor/CompactPhotoEditorView.java:130-131 | `Integer.toString` of any id, negative ones included, parses back to that id. Distinct ids therefore give distinct URIs. |
| PhotoEditor.CompactPhotoEditorView.constructor | src/com/android/contacts/editor/CompactPhotoEditorView.java:64-81 | A new view has no delta, is writable, has no photo set, and has no palette and no handler. |
| PhotoEditor.CompactPhotoEditorView.SetValues | src/com/android/contacts/editor/CompactPhotoEditorView.java:99-145 | The view is bound to the given delta, which it mutates in place. The new view state, the delta's contents and the calls made are exactly those of PhotoMachine.SetValues, and afterwards delta.fromTemplate == !isPhotoSet. |
| PhotoEditor.CompactPhotoEditorView.SetPhotoHandler | src/com/android/contacts/editor/CompactPhotoEditorView.java:173-175 | The handler slot is replaced. Nothing else changes. |
| PhotoEditor.CompactPhotoEditorView.IsWritablePhotoSet | src/com/android/contacts/editor/CompactPhotoEditorView.java:180-182 | The result is true exactly when a photo is set and the view is not read-only. |
| PhotoEditor.CompactPhotoEditorView.SetPhoto | src/com/android/contacts/editor/CompactPhotoEditorView.java:188-220 | The result matches PhotoMachine.SetPhoto, with the delta mutated in place and readOnly unchanged. Afterwards delta.fromTemplate == !isPhotoSet if that held before or the view is writable. |
| PhotoEditor.CompactPhotoEditorView.SetDefaultPhoto | src/com/android/contacts/editor/CompactPhotoEditorView.java:225-231 | The placeholder avatar and the tint are shown, the photo is unset, and the delta's fromTemplate becomes true. |
| PhotoEditor.CompactPhotoEditorView.SetDefaultPhotoTint | src/com/android/contacts/editor/CompactPhotoEditorView.java:233-239 | Exactly one tint is applied, in the colour TintColor gives for the current palette. |
| PhotoEditor.CompactPhotoEditorView.SetFullSizedPhoto | src/com/android/contacts/editor/CompactPhotoEditorView.java:245-259 | Only the effect log changes: one load request for a non-null URI, none for null. |
| PhotoEditor.CompactPhotoEditorView.OnClick | src/com/android/contacts/editor/CompactPhotoEditorView.java:261-266 | Only the effect log changes: one forwarded click when a handler is registered, none otherwise. |
| PhotoEditor.ValuesDelta.SetFromTemplate | src/com/android/contacts/editor/CompactPhotoEditorView.java:119 | Only fromTemplate is assigned. This reading comes from the method's name; it is called at lines 119, 205 and 230. |
| PhotoEditor.ValuesDelta.SetSuperPrimary | src/com/android/contacts/editor/CompactPhotoEditorView.java:208 | Only superPrimary is assigned. This reading comes from the method's name. |
| PhotoEditor.ValuesDelta.PutPhoto | src/com/android/contacts/editor/CompactPhotoEditorView.java:194 | PHOTO and the after-edit PHOTO entry both take the written value, and nothing else changes. It stands for both `put(PHOTO, null)` at line 194 and `setPhoto(bytes)` at line 218. |
| PhotoMachine.ChosenPhotoSuppressesFullSizeLoad | src/com/android/contacts/editor/CompactPhotoEditorView.java:121-127 | After `setPhoto` has written a compressed photo, binding that delta again shows the new bytes and requests no full-size load. The file id no longer names the photo on display. |

## Left out

- The pre-draw layout callback (lines 149-167) is not modelled. It does float arithmetic on framework dimensions and runs through `SchedulingUtils`.
- `setId` and `ViewIdGenerator` (line 106) are left out because they are framework calls. The `DataKind` and `RawContactDelta` arguments of `setValues` serve only that call, so they are left out too.
- Bitmap decoding and scaling, `GradientDrawable`, drawables and rendering are not modelled. They appear only as recorded effects: the decoded bytes, the thumbnail as `Scaled(bitmap, size, size)`, the tint colour and the overlay.
- `ContactPhotoUtils.compressBitmap` is an oracle parameter. Its answer for a given thumbnail is not modelled.
- `ContactPhotoManager.loadPhoto` is recorded only as a request for a URI. Its asynchronous completion, and the fallback that keeps the current image, are not modelled.
- The thumbnail size is not constrained: `Env.thumbnailSize` is any `nat`, including 0. For 0, `Bitmap.createScaledBitmap` at line 200 would throw instead of scaling, and the model does not capture that failure.
- `Log.w` on a rejected write (line 190) is not recorded.
- `ValuesDelta`'s own code is not part of this model. The before and after values are not kept apart. The model holds only the value `getAsByteArray(PHOTO)` answers, and the PHOTO entry of `getAfter()`, which a PHOTO write replaces.
- Other holders of the same `ValuesDelta` may change it between calls. The class model reflects such changes through `State()`, but the sequence lemmas cover only the view's own calls.
- `onFinishInflate` (lines 89-97) is not modelled. The model assumes what it sets up: the child views and `mContactPhotoManager` are non-null. It also assumes that the view is registered as the click listener of the touch-intercept overlay (line 96), which is how taps reach `onClick`.
- PhotoMachine.SetValues: its contract states the new state. The calls it makes are stated only partly, by SetValuesDecoration and SetValuesFullSizeRequest. The order of the decoded-image call and the placeholder-avatar call is fixed only by the function's body.
