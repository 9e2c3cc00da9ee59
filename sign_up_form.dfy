/**
 * The registration form (src/components/refine-ui/form/sign-up-form.tsx): the
 * schema's rules, the default values, the adapter between the two form fields
 * `image` / `imageCldPubId` and the upload widget's value, the payload sent on
 * submit, and what the form does with the registration response.
 */
module SignUpForm {
  import opened Common
  import UploadWidget

  type AssetRef = UploadWidget.AssetRef

  /** The roles a user can register with (`USER_ROLES`). */
  datatype Role = Student | Teacher | Admin

  /** The form's field store. `image` and `imageCldPubId` are optional strings. */
  datatype FormValues = FormValues(
    email: string,
    password: string,
    name: string,
    role: Role,
    image: Option<string>,
    imageCldPubId: Option<string>)

  /** `defaultValues`: every text field empty, the role STUDENT. */
  function DefaultValues(): (v: FormValues)
    ensures v.email == "" && v.password == "" && v.name == "" && v.role == Student
    ensures v.image == Some("") && v.imageCldPubId == Some("")
  {
    FormValues("", "", "", Student, Some(""), Some(""))
  }

  // ---------------------------------------------------------------------------
  // registerSchema

  datatype FieldError = FieldError(field: string, message: string)

  const PasswordMinLength: nat := 8
  const NameMinLength: nat := 3

  /** The errors the schema reports, in field order. The email rule belongs to
      the validation library and is a parameter here. */
  function SchemaErrors(v: FormValues, isEmail: string -> bool): (errs: seq<FieldError>)
    ensures errs == [] <==> isEmail(v.email) && |v.password| >= PasswordMinLength && |v.name| >= NameMinLength
    ensures forall i :: 0 <= i < |errs| ==> errs[i].field != "image" && errs[i].field != "imageCldPubId"
    ensures |errs| <= 3
  {
    (if isEmail(v.email) then [] else [FieldError("email", "Invalid email address")])
    + (if |v.password| >= PasswordMinLength then []
       else [FieldError("password", "Password must be at least 8 characters")])
    + (if |v.name| >= NameMinLength then []
       else [FieldError("name", "Full name must be at least 3 characters")])
  }

  /** The image fields are optional: they never decide whether the form validates. */
  lemma ImageFieldsOptional(v: FormValues, isEmail: string -> bool, image: Option<string>, pubId: Option<string>)
    ensures SchemaErrors(v.(image := image, imageCldPubId := pubId), isEmail) == SchemaErrors(v, isEmail)
  {
  }

  /** The untouched form does not validate: its password and its name are too short. */
  lemma DefaultsRejected(isEmail: string -> bool)
    ensures var errs := SchemaErrors(DefaultValues(), isEmail);
      && errs[|errs| - 2] == FieldError("password", "Password must be at least 8 characters")
      && errs[|errs| - 1] == FieldError("name", "Full name must be at least 3 characters")
  {
  }

  // ---------------------------------------------------------------------------
  // the upload widget adapter

  /** The value handed to the widget: null while `image` is empty, otherwise the
      image URL with the stored public id (the empty string when there is none). */
  function WidgetValue(image: Option<string>, imageCldPubId: Option<string>): (r: Option<AssetRef>)
    ensures r.None? <==> !Truthy(image)
    ensures r.Some? ==> r.value.url == image.value && r.value.publicId == imageCldPubId.GetOr("")
  {
    if Truthy(image) then Some(UploadWidget.AssetRef(image.value, imageCldPubId.GetOr(""))) else None
  }

  /** The widget's `onChange` as applied to the field store: a file sets both image
      fields from it, null clears both, and no other field changes. */
  function ApplyWidgetChange(v: FormValues, file: Option<AssetRef>): (w: FormValues)
    ensures w.email == v.email && w.password == v.password && w.name == v.name && w.role == v.role
    ensures file.Some? ==> w.image == Some(file.value.url) && w.imageCldPubId == Some(file.value.publicId)
    ensures file.None? ==> w.image == Some("") && w.imageCldPubId == Some("")
  {
    match file
    case Some(f) => v.(image := Some(f.url), imageCldPubId := Some(f.publicId))
    case None => v.(image := Some(""), imageCldPubId := Some(""))
  }

  /** What the widget emits comes back as its value: a file with a non-empty URL
      reads back as that file, null reads back as null. */
  lemma WidgetValueRoundTrip(v: FormValues, file: Option<AssetRef>)
    requires file.Some? ==> file.value.url != ""
    ensures var w := ApplyWidgetChange(v, file); WidgetValue(w.image, w.imageCldPubId) == file
  {
  }

  /** A file with an empty URL is stored but reads back as no file. */
  lemma EmptyUrlReadsBackNull(v: FormValues, file: AssetRef)
    requires file.url == ""
    ensures var w := ApplyWidgetChange(v, Some(file)); WidgetValue(w.image, w.imageCldPubId).None?
  {
  }

  /** Conversely, feeding the widget's value back through the adapter leaves a
      field store unchanged when both image fields are set and an empty image comes
      with an empty id, as the defaults and every adapter write but one with an
      empty URL and a non-empty id leave it. */
  lemma FieldsRoundTrip(v: FormValues)
    requires v.image.Some? && v.imageCldPubId.Some?
    requires v.image.value == "" ==> v.imageCldPubId.value == ""
    ensures ApplyWidgetChange(v, WidgetValue(v.image, v.imageCldPubId)) == v
  {
  }

  // ---------------------------------------------------------------------------
  // onSubmit

  /** The object passed to `register`; `None` stands for `undefined`. */
  datatype RegisterPayload = RegisterPayload(
    email: string,
    password: string,
    name: string,
    role: Role,
    image: Option<string>,
    imageCldPubId: Option<string>)

  /** An empty or absent string becomes `undefined`; any other passes through. */
  function OrUndefined(s: Option<string>): (r: Option<string>)
    ensures r.None? <==> !Truthy(s)
    ensures r.Some? ==> r == s
  {
    if Truthy(s) then s else None
  }

  /** The submit payload: the form values with an empty image URL or image id sent
      as `undefined`; every other field passes unchanged. */
  function SubmitPayload(v: FormValues): (p: RegisterPayload)
    ensures p.email == v.email && p.password == v.password && p.name == v.name && p.role == v.role
    ensures p.image == OrUndefined(v.image) && p.imageCldPubId == OrUndefined(v.imageCldPubId)
  {
    RegisterPayload(v.email, v.password, v.name, v.role, OrUndefined(v.image), OrUndefined(v.imageCldPubId))
  }

  /** A profile photo set through the widget is submitted as its URL and id; a
      removed one is submitted as `undefined` for both. */
  lemma PayloadAfterWidgetChange(v: FormValues, file: Option<AssetRef>)
    ensures var p := SubmitPayload(ApplyWidgetChange(v, file));
      && (file.Some? && file.value.url != "" ==> p.image == Some(file.value.url))
      && (file.Some? && file.value.publicId != "" ==> p.imageCldPubId == Some(file.value.publicId))
      && (file.None? ==> p.image.None? && p.imageCldPubId.None?)
  {
  }

  /** The response of `register` as the success handler reads it. */
  datatype RegisterResponse = RegisterResponse(success: Option<bool>, errorMessage: Option<string>)

  datatype Toast = ErrorToast(error: Option<string>) | SuccessToast(message: string)

  const CreatedMessage: string := "Account created successfully!"
  const FailedMessage: string := "Registration failed"

  /** The submit button: disabled, and labelled "Creating Account...", exactly
      while the form submits or a registration is pending. */
  function SubmitButton(isSubmitting: bool, isRegistering: bool): (button: (bool, string))
    ensures button.0 <==> isSubmitting || isRegistering
    ensures button.1 == "Creating Account..." <==> button.0
    ensures !button.0 ==> button.1 == "Create Account"
  {
    var busy := isSubmitting || isRegistering;
    (busy, if busy then "Creating Account..." else "Create Account")
  }

  /** The form as react-hook-form keeps it: a field store updated in place, and
      the toasts shown. */
  class RegisterForm {
    var values: FormValues
    var toasts: seq<Toast>

    constructor ()
      ensures values == DefaultValues() && toasts == []
    {
      values := DefaultValues();
      toasts := [];
    }

    /** The `value` prop of the profile photo's widget: null while the stored image
        is empty, otherwise the stored image with its public id. */
    function WidgetProp(): (p: Option<AssetRef>)
      reads this
      ensures p.None? <==> !Truthy(values.image)
      ensures p.Some? ==> p.value.url == values.image.value && p.value.publicId == values.imageCldPubId.GetOr("")
    {
      WidgetValue(values.image, values.imageCldPubId)
    }

    /** The `onChange` prop of the profile photo's widget. */
    method WidgetOnChange(file: Option<AssetRef>)
      modifies this`values
      ensures values == ApplyWidgetChange(old(values), file)
    {
      if file.Some? {
        values := values.(image := Some(file.value.url));
        values := values.(imageCldPubId := Some(file.value.publicId));
      } else {
        values := values.(image := Some(""));
        values := values.(imageCldPubId := Some(""));
      }
    }

    /** Submitting: `register` is called with the payload only
        when the schema reports no error. */
    function SubmitRequest(isEmail: string -> bool): (r: Option<RegisterPayload>)
      reads this
      ensures r.Some? <==> SchemaErrors(values, isEmail) == []
      ensures r.Some? ==> r.value == SubmitPayload(values)
    {
      if SchemaErrors(values, isEmail) == [] then Some(SubmitPayload(values)) else None
    }

    /** The `onSuccess` callback: a response with `success === false` shows its
        error and keeps the form; any other response shows the success toast and
        resets the form to its defaults. */
    method OnRegisterSuccess(data: RegisterResponse)
      modifies this
      ensures data.success == Some(false) ==>
        values == old(values) && toasts == old(toasts) + [ErrorToast(data.errorMessage)]
      ensures data.success != Some(false) ==>
        values == DefaultValues() && toasts == old(toasts) + [SuccessToast(CreatedMessage)]
    {
      if data.success == Some(false) {
        toasts := toasts + [ErrorToast(data.errorMessage)];
        return;
      }
      toasts := toasts + [SuccessToast(CreatedMessage)];
      values := DefaultValues();
    }

    /** The `catch` of `onSubmit`: a synchronous failure of `register` shows a
        generic error and keeps the form. */
    method OnSubmitThrew()
      modifies this`toasts
      ensures toasts == old(toasts) + [ErrorToast(Some(FailedMessage))]
    {
      toasts := toasts + [ErrorToast(Some(FailedMessage))];
    }
  }

  /** The form and its profile-photo widget together: the widget's emissions go
      into the field store, and the store's value flows back into the widget.
      After an upload the widget keeps its delete token; after a removal the
      value comes back as null and the token stays cleared. */
  method ScenarioProfilePhoto() {
    var form := new RegisterForm();
    var w := new UploadWidget.Widget.Mount("demo", "preset", form.WidgetProp(), Some(7), true);
    var info := UploadWidget.UploadInfo("https://x/y.png", "abc123", Some("tok1"), map[]);
    w.UploadResult(false, "success", info);
    var asset := UploadWidget.AssetRef("https://x/y.png", "abc123");
    form.WidgetOnChange(Some(asset));
    assert form.WidgetProp() == Some(asset);
    w.SyncValue(form.WidgetProp());
    assert w.deleteToken == Some("tok1");
    assert SubmitPayload(form.values).image == Some("https://x/y.png");
    w.ClickRemove(false);
    w.RemoveFinish(UploadWidget.Threw("network down"));
    form.WidgetOnChange(None);
    w.SyncValue(form.WidgetProp());
    assert w.preview.None? && w.deleteToken.None?;
    assert SubmitPayload(form.values).image.None?;
  }
}
