/**
 * The image-upload widget (`UploadWidget`, src/components/upload-widget.tsx) as a
 * state machine. Each React effect, callback and handler of the component is a
 * method of `Widget`; the callbacks that the component hands to the outside
 * (`onChange`, the provider's `open()`, the delete-by-token request) are recorded
 * in the field `log`, in the order they happen.
 */
module UploadWidget {
  import opened Common

  /** `UploadWidgetValue`: the `{url, publicId}` pair of an uploaded image. */
  datatype AssetRef = AssetRef(url: string, publicId: string)

  /** The options passed to `createUploadWidget`. */
  datatype WidgetConfig = WidgetConfig(
    cloudName: string,
    uploadPreset: string,
    multiple: bool,
    folder: string,
    maxFileSize: nat,
    clientAllowedFormats: seq<string>)

  /** The configuration the widget is created with, fixed at creation. */
  function Config(cloudName: string, uploadPreset: string): (c: WidgetConfig)
    ensures !c.multiple && c.maxFileSize == 5_000_000
    ensures c.clientAllowedFormats == ["png", "jpg", "jpeg"] && c.folder == "uploads"
    ensures c.cloudName == cloudName && c.uploadPreset == uploadPreset
  {
    WidgetConfig(cloudName, uploadPreset, false, "uploads", 5_000_000, ["png", "jpg", "jpeg"])
  }

  /** The endpoint the removal flow posts the delete token to: the cloud's
      delete_by_token path under version 1.1 of the Cloudinary API. */
  function DeleteUrl(cloudName: string): (url: string)
    ensures |url| == 32 + |cloudName| + 16
    ensures url[..32] == "https://api.cloudinary.com/v1_1/"
    ensures url[32..32 + |cloudName|] == cloudName
    ensures url[32 + |cloudName|..] == "/delete_by_token"
  {
    "https://api.cloudinary.com/v1_1/" + cloudName + "/delete_by_token"
  }

  /** `result.info` of a provider result: the three fields the widget reads and
      whatever else the provider reports. */
  datatype UploadInfo = UploadInfo(
    secureUrl: string,
    publicId: string,
    deleteToken: Option<string>,
    otherFields: map<string, string>)

  /** The identity of an `onChange` function supplied by the parent; a parent
      re-render that passes a new function passes a new identity. */
  type CallbackId = nat

  /** How the awaited `fetch` of the removal flow settled; the widget never looks at it. */
  datatype FetchOutcome = Responded(status: int) | Threw(message: string)

  /** What the widget does to the world outside its own state. */
  datatype Effect =
    | CreatedProvider(config: WidgetConfig)       // window.cloudinary.createUploadWidget(...)
    | OpenedProvider                              // widgetRef.current.open()
    | PostedDelete(url: string, token: string)    // fetch(..., {method: "POST", body: token=...})
    | Emitted(callback: CallbackId, value: Option<AssetRef>)  // onChangeRef.current(value)

  /** The number of provider widgets the log records as created. */
  function CreatedCount(log: seq<Effect>): nat
    decreases |log|
  {
    if log == [] then 0
    else CreatedCount(log[..|log| - 1]) + (if log[|log| - 1].CreatedProvider? then 1 else 0)
  }

  /** The effects of `onChangeRef.current?.(value)`: one emission through the
      current callback, or nothing when there is none. */
  function Emission(current: Option<CallbackId>, value: Option<AssetRef>): (fx: seq<Effect>)
    ensures current.Some? <==> |fx| == 1
    ensures current.None? <==> fx == []
    ensures forall i :: 0 <= i < |fx| ==> fx[i] == Emitted(current.value, value)
  {
    if current.Some? then [Emitted(current.value, value)] else []
  }

  /** Appending to the log counts one more creation exactly when the new effect is one. */
  lemma {:induction false} CreatedCountAppend(log: seq<Effect>, fx: seq<Effect>)
    ensures CreatedCount(log + fx) == CreatedCount(log) + CreatedCount(fx)
    decreases |fx|
  {
    if fx == [] {
      assert log + fx == log;
    } else {
      CreatedCountAppend(log, fx[..|fx| - 1]);
      assert (log + fx)[..|log + fx| - 1] == log + fx[..|fx| - 1];
    }
  }

  class Widget {
    const cloudName: string     // CLOUDINARY_CLOUD_NAME
    const uploadPreset: string  // CLOUDINARY_UPLOAD_PRESET

    var preview: Option<AssetRef>     // useState(value)
    var deleteToken: Option<string>   // useState(null)
    var isRemoving: bool              // useState(false)
    var widgetCreated: bool           // widgetRef.current !== null
    var onChangeRef: Option<CallbackId>  // onChangeRef.current
    var pollActive: bool              // the 500 ms interval is set and not cleared
    var mounted: bool
    var pendingRemovals: nat          // removals suspended at `await fetch(...)`
    var log: seq<Effect>

    /** The invariant every transition keeps: the provider is created at most once,
        and only its creation stops the poll; a delete token is held only with a
        preview; `isRemoving` is set only while a removal is suspended. */
    ghost predicate Valid()
      reads this
    {
      && Core()
      && (pollActive ==> mounted && !widgetCreated)
      && (isRemoving ==> pendingRemovals > 0)
    }

    /** The part of `Valid` that also holds in the middle of a transition: between
        creating the provider and clearing the interval, and between setting
        `isRemoving` and the `finally` block of a synchronous removal. */
    ghost predicate Core()
      reads this
    {
      && CreatedCount(log) == (if widgetCreated then 1 else 0)
      && (deleteToken.Some? ==> preview.Some?)
    }

    /** One state of the widget but the log and the callback slot. */
    predicate SameState(p: Option<AssetRef>, t: Option<string>, removing: bool, created: bool)
      reads this
    {
      preview == p && deleteToken == t && isRemoving == removing && widgetCreated == created
    }

    /** The open trigger (the drop zone) is rendered only while there is no preview,
        and so, under the invariant, never while a delete token is held. */
    predicate DropzoneShown(): (shown: bool)
      reads this
      ensures shown <==> preview.None?
      ensures shown && Core() ==> deleteToken.None?
    {
      preview.None?
    }

    /** The remove button is rendered with a preview, in place of the drop zone, and
        enabled unless a removal runs or the widget is disabled. */
    predicate RemoveButtonEnabled(disabled: bool): (enabled: bool)
      reads this
      ensures enabled ==> !DropzoneShown() && !isRemoving && !disabled
      ensures !DropzoneShown() && !isRemoving && !disabled ==> enabled
    {
      preview.Some? && !(isRemoving || disabled)
    }

    /** Mounting: the state starts from `value`, the effects run in declaration
        order, and the provider is created at once if its library is present;
        otherwise the poll starts. */
    constructor Mount(cloudName: string, uploadPreset: string, value: Option<AssetRef>,
                      onChange: Option<CallbackId>, libraryPresent: bool)
      ensures Valid()
      ensures this.cloudName == cloudName && this.uploadPreset == uploadPreset
      ensures preview == value && deleteToken.None? && !isRemoving
      ensures onChangeRef == onChange && mounted && pendingRemovals == 0
      ensures widgetCreated == libraryPresent && pollActive == !libraryPresent
      ensures log == if libraryPresent then [CreatedProvider(Config(cloudName, uploadPreset))] else []
    {
      this.cloudName := cloudName;
      this.uploadPreset := uploadPreset;
      preview := value;
      deleteToken := None;
      isRemoving := false;
      widgetCreated := false;
      onChangeRef := onChange;
      pollActive := false;
      mounted := true;
      pendingRemovals := 0;
      log := [];
      new;
      MountEffects(value, onChange, libraryPresent);
    }

    /** The effects of the first render, in declaration order: keep `onChange`
        (lines 20-22), sync `value` (lines 25-30), then try to create the provider
        and start the poll if that fails (lines 33-71). */
    method MountEffects(value: Option<AssetRef>, onChange: Option<CallbackId>, libraryPresent: bool)
      requires Valid() && mounted && log == [] && !widgetCreated && !pollActive && deleteToken.None?
      modifies this`onChangeRef, this`preview, this`deleteToken, this`widgetCreated, this`log, this`pollActive
      ensures Valid()
      ensures preview == value && deleteToken.None? && onChangeRef == onChange
      ensures widgetCreated == libraryPresent && pollActive == !libraryPresent
      ensures log == if libraryPresent then [CreatedProvider(Config(cloudName, uploadPreset))] else []
    {
      SetOnChange(onChange);
      SyncValue(value);
      var created := TryInitialize(libraryPresent);
      if !created {
        pollActive := true;
      }
    }

    /** The effect that keeps the latest `onChange` (lines 20-22). */
    method SetOnChange(onChange: Option<CallbackId>)
      requires Valid()
      modifies this`onChangeRef
      ensures Valid() && onChangeRef == onChange
    {
      onChangeRef := onChange;
    }

    /** The effect that syncs the external value into the preview (lines 25-30):
        the preview becomes `value`, the token is dropped only when `value` is
        null, and nothing is emitted. */
    method SyncValue(value: Option<AssetRef>)
      requires Valid()
      modifies this`preview, this`deleteToken
      ensures Valid()
      ensures preview == value
      ensures deleteToken == if value.None? then None else old(deleteToken)
    {
      preview := value;
      if value.None? {
        deleteToken := None;
      }
    }

    /** `initializeWidget` (lines 36-63): creates the provider widget exactly when
        the library is present and none exists; otherwise it changes nothing. */
    method TryInitialize(libraryPresent: bool) returns (created: bool)
      requires Core()
      modifies this`widgetCreated, this`log
      ensures Core()
      ensures created == (libraryPresent && !old(widgetCreated))
      ensures widgetCreated == (old(widgetCreated) || created)
      ensures log == if created then old(log) + [CreatedProvider(Config(cloudName, uploadPreset))] else old(log)
    {
      if !libraryPresent || widgetCreated {
        return false;
      }
      CreatedCountAppend(log, [CreatedProvider(Config(cloudName, uploadPreset))]);
      log := log + [CreatedProvider(Config(cloudName, uploadPreset))];
      widgetCreated := true;
      created := true;
    }

    /** One firing of the 500 ms interval (lines 67-71); a cleared interval no
        longer fires. The first successful attempt clears it. */
    method PollTick(libraryPresent: bool)
      requires Valid()
      modifies this`widgetCreated, this`log, this`pollActive
      ensures Valid()
      ensures !old(pollActive) ==> widgetCreated == old(widgetCreated) && log == old(log) && !pollActive
      ensures old(pollActive) ==>
        && widgetCreated == libraryPresent
        && pollActive == !libraryPresent
        && log == if libraryPresent then old(log) + [CreatedProvider(Config(cloudName, uploadPreset))] else old(log)
    {
      if !pollActive {
        return;
      }
      var created := TryInitialize(libraryPresent);
      if created {
        pollActive := false;
      }
    }

    /** Unmounting runs the init effect's cleanup, which clears the interval (line 73).
        Nothing else is cancelled. */
    method Unmount()
      requires Valid()
      modifies this`pollActive, this`mounted
      ensures Valid() && !pollActive && !mounted
    {
      pollActive := false;
      mounted := false;
    }

    /** `openWidget` (lines 76-80): `open()` is called exactly when the widget is
        not disabled and the provider widget exists. */
    method Open(disabled: bool)
      requires Valid()
      modifies this`log
      ensures Valid()
      ensures log == if !disabled && widgetCreated then old(log) + [OpenedProvider] else old(log)
    {
      if !disabled && widgetCreated {
        CreatedCountAppend(log, [OpenedProvider]);
        log := log + [OpenedProvider];
      }
    }

    /** The drop zone's click handler (line 131): the drop zone is rendered only
        while there is no preview, and a click on it calls `openWidget`. */
    method DropzoneClick(disabled: bool)
      requires Valid()
      modifies this`log
      ensures Valid()
      ensures log == if old(DropzoneShown()) && !disabled && widgetCreated
                     then old(log) + [OpenedProvider] else old(log)
    {
      if DropzoneShown() {
        Open(disabled);
      }
    }

    /** The drop zone's key handler (lines 132-137): while the drop zone is
        rendered, Enter and Space call `openWidget`; other keys do nothing. */
    method DropzoneKeyDown(key: string, disabled: bool)
      requires Valid()
      modifies this`log
      ensures Valid()
      ensures log == if old(DropzoneShown()) && (key == "Enter" || key == " ") && !disabled && widgetCreated
                     then old(log) + [OpenedProvider] else old(log)
    {
      if DropzoneShown() && (key == "Enter" || key == " ") {
        Open(disabled);
      }
    }

    /** `onChangeRef.current?.(value)` (lines 57 and 105): the value goes to the
        callback the latest render supplied, or nowhere when there is none. */
    method Emit(value: Option<AssetRef>)
      requires Core()
      modifies this`log
      ensures Core() && log == old(log) + Emission(onChangeRef, value)
    {
      CreatedCountAppend(log, Emission(onChangeRef, value));
      log := log + Emission(onChangeRef, value);
    }

    /** The provider's result callback (lines 48-59). With no error and event
        "success", the preview becomes `{secure_url, public_id}`, the token becomes
        `delete_token` (null if absent), and that payload is emitted once through
        the current `onChange`; no other field of `info` is read. Anything else
        changes nothing. */
    method UploadResult(error: bool, event: string, info: UploadInfo)
      requires Valid()
      modifies this`preview, this`deleteToken, this`log
      ensures Valid()
      ensures !error && event == "success" ==>
        && preview == Some(AssetRef(info.secureUrl, info.publicId))
        && deleteToken == info.deleteToken
        && log == old(log) + Emission(onChangeRef, Some(AssetRef(info.secureUrl, info.publicId)))
      ensures !(!error && event == "success") ==>
        preview == old(preview) && deleteToken == old(deleteToken) && log == old(log)
    {
      if !error && event == "success" {
        var payload := AssetRef(info.secureUrl, info.publicId);
        preview := Some(payload);
        deleteToken := info.deleteToken;
        assert Core();
        Emit(Some(payload));
        assert Valid();
      }
    }

    /** The `finally` block of `removeFromCloudinary` (lines 102-107). */
    method RemoveFinally()
      requires Core() && (pollActive ==> mounted && !widgetCreated)
      modifies this`preview, this`deleteToken, this`isRemoving, this`log
      ensures Valid()
      ensures preview.None? && deleteToken.None? && !isRemoving
      ensures log == old(log) + Emission(onChangeRef, None)
    {
      preview := None;
      deleteToken := None;
      Emit(None);
      isRemoving := false;
    }

    /** `removeFromCloudinary` up to its `await` (lines 82-99). Without a preview it
        does nothing. Otherwise, with a truthy token it posts `token` to
        delete_by_token and suspends with `isRemoving` set; without one the `try`
        block has nothing to await and the `finally` block runs at once. */
    method RemoveStart()
      requires Valid()
      modifies this`preview, this`deleteToken, this`isRemoving, this`log, this`pendingRemovals
      ensures Valid()
      ensures old(preview).None? ==>
        SameState(old(preview), old(deleteToken), old(isRemoving), old(widgetCreated))
        && log == old(log) && pendingRemovals == old(pendingRemovals)
      ensures old(preview).Some? && Truthy(old(deleteToken)) ==>
        && SameState(old(preview), old(deleteToken), true, old(widgetCreated))
        && pendingRemovals == old(pendingRemovals) + 1
        && log == old(log) + [PostedDelete(DeleteUrl(cloudName), old(deleteToken).value)]
      ensures old(preview).Some? && !Truthy(old(deleteToken)) ==>
        && SameState(None, None, false, old(widgetCreated))
        && pendingRemovals == old(pendingRemovals)
        && log == old(log) + Emission(onChangeRef, None)
    {
      if preview.None? {
        return;
      }
      isRemoving := true;
      if Truthy(deleteToken) {
        var post := PostedDelete(DeleteUrl(cloudName), deleteToken.value);
        CreatedCountAppend(log, [post]);
        log := log + [post];
        pendingRemovals := pendingRemovals + 1;
      } else {
        RemoveFinally();
      }
    }

    /** The suspended removal resumes after `fetch` settles, however it settled
        (lines 100-107): the preview and the token are cleared, `isRemoving` is
        reset and `onChange(null)` is emitted once. Nothing checks `mounted`. */
    method RemoveFinish(outcome: FetchOutcome)
      requires Valid() && pendingRemovals > 0
      modifies this`preview, this`deleteToken, this`isRemoving, this`log, this`pendingRemovals
      ensures Valid()
      ensures SameState(None, None, false, old(widgetCreated))
      ensures pendingRemovals == old(pendingRemovals) - 1
      ensures log == old(log) + Emission(onChangeRef, None)
    {
      pendingRemovals := pendingRemovals - 1;
      RemoveFinally();
    }

    /** A click on the remove button (lines 116-124): a disabled button ignores it. */
    method ClickRemove(disabled: bool)
      requires Valid()
      modifies this`preview, this`deleteToken, this`isRemoving, this`log, this`pendingRemovals
      ensures Valid()
      ensures !old(RemoveButtonEnabled(disabled)) ==>
        SameState(old(preview), old(deleteToken), old(isRemoving), old(widgetCreated))
        && log == old(log) && pendingRemovals == old(pendingRemovals)
      ensures old(RemoveButtonEnabled(disabled)) && Truthy(old(deleteToken)) ==>
        && SameState(old(preview), old(deleteToken), true, old(widgetCreated))
        && pendingRemovals == old(pendingRemovals) + 1
        && log == old(log) + [PostedDelete(DeleteUrl(cloudName), old(deleteToken).value)]
      ensures old(RemoveButtonEnabled(disabled)) && !Truthy(old(deleteToken)) ==>
        && SameState(None, None, false, old(widgetCreated))
        && pendingRemovals == old(pendingRemovals)
        && log == old(log) + Emission(onChangeRef, None)
    {
      if RemoveButtonEnabled(disabled) {
        RemoveStart();
      }
    }
  }

  // ---------------------------------------------------------------------------
  // Client scenarios: what a caller can conclude from the contracts alone.

  /** A click before the provider library has loaded opens nothing; after three
      poll ticks the library appears, and the next click opens it exactly once. */
  method ScenarioLateLibrary() {
    var w := new Widget.Mount("demo", "preset", None, Some(1), false);
    assert w.log == [] && w.pollActive && !w.widgetCreated;
    w.DropzoneClick(false);
    assert w.log == [];
    w.PollTick(false);
    assert w.log == [] && w.pollActive;
    w.PollTick(false);
    assert w.log == [] && w.pollActive;
    w.PollTick(true);
    var created := [CreatedProvider(Config("demo", "preset"))];
    assert !w.pollActive && w.widgetCreated && w.log == created;
    w.PollTick(true);
    assert w.log == created && w.preview.None?;
    w.DropzoneKeyDown(" ", false);
    assert w.log == created + [OpenedProvider];
  }

  /** Upload then removal with a delete token: one emission of the payload, one
      POST carrying the token, and whatever the network says, one `onChange(null)`. */
  method ScenarioUploadThenRemove(outcome: FetchOutcome) {
    var w := new Widget.Mount("demo", "preset", None, Some(1), true);
    var created := w.log;
    w.UploadResult(false, "success", UploadInfo("https://x/y.png", "abc123", Some("tok1"), map["bytes" := "42"]));
    var asset := AssetRef("https://x/y.png", "abc123");
    assert w.preview == Some(asset) && w.deleteToken == Some("tok1");
    assert w.log == created + [Emitted(1, Some(asset))];
    w.ClickRemove(false);
    assert w.isRemoving;
    w.ClickRemove(false);  // the button is disabled while removing
    assert w.log == created + [Emitted(1, Some(asset)), PostedDelete(DeleteUrl("demo"), "tok1")];
    w.RemoveFinish(outcome);
    assert w.preview.None? && w.deleteToken.None? && !w.isRemoving;
    assert w.log == created + [Emitted(1, Some(asset)), PostedDelete(DeleteUrl("demo"), "tok1"), Emitted(1, None)];
  }

  /** While a preview is shown the drop zone is not rendered, so neither a key
      press nor a click on it opens the provider. */
  method ScenarioDropzoneHidden() {
    var asset := AssetRef("https://x/z.png", "z");
    var w := new Widget.Mount("demo", "preset", Some(asset), Some(1), true);
    var before := w.log;
    w.DropzoneKeyDown("Enter", false);
    w.DropzoneClick(false);
    assert w.log == before;
    w.ClickRemove(false);
    w.DropzoneKeyDown("Enter", false);
    assert w.log[|w.log| - 1] == OpenedProvider;
  }

  /** Removing a value supplied by the parent: no token is known, so nothing is
      posted, and `onChange(null)` still fires through the latest callback. */
  method ScenarioExternalValueRemove() {
    var asset := AssetRef("https://x/z.png", "z");
    var w := new Widget.Mount("demo", "preset", Some(asset), Some(1), true);
    var created := w.log;
    w.SetOnChange(Some(2));
    w.ClickRemove(false);
    assert w.preview.None? && w.log == created + [Emitted(2, None)];
  }

  /** A failed or cancelled upload changes nothing; an external sync to a new value
      keeps the token, a sync to null drops it. */
  method ScenarioSync() {
    var w := new Widget.Mount("demo", "preset", None, Some(1), true);
    var before := w.log;
    w.UploadResult(true, "success", UploadInfo("u", "p", Some("t"), map[]));
    w.UploadResult(false, "close", UploadInfo("u", "p", Some("t"), map[]));
    assert w.preview.None? && w.log == before;
    w.UploadResult(false, "success", UploadInfo("u", "p", Some("t"), map[]));
    var emitted := w.log;
    w.SyncValue(Some(AssetRef("v", "q")));
    assert w.deleteToken == Some("t") && w.log == emitted;
    w.SyncValue(None);
    assert w.deleteToken.None? && w.preview.None? && w.log == emitted;
  }
}
