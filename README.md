# Classroom dashboard: image-upload widget, class pages and sign-up form

This project models, in Dafny, the parts of the classroom admin dashboard that carry logic of their own.

- **The image-upload widget** (`UploadWidget`) is modelled as the class `UploadWidget.Widget`. The widget lets a user attach an image through the Cloudinary upload widget. It shows the uploaded image, and it revokes the upload with the delete token when the user removes it. Each React effect, callback and handler is a method:
  - creation of the provider widget, and the 500 ms readiness poll;
  - syncing the external `value`, and keeping the latest `onChange`;
  - opening the provider;
  - the provider's result callback;
  - the two halves of the asynchronous removal.

  Every outward action goes into the ordered field `log`: provider created, provider opened, delete-by-token POST, and each `onChange` emission together with the callback it went through. The invariant `Valid()` ties the log to the state: the provider is created at most once per mount, the poll runs only while no provider exists, a delete token is held only with a preview, and `isRemoving` is set only while a removal is suspended.
- **The classes list page** (`ClassList`) covers how the refine filters are built from the subject, teacher and search selections, and the status badge variant.
- **The class details page** (`ClassShow`) covers the student initials, the teacher initials, the placeholder image address, the banner choice, the state message, and the status badge.
- **The registration form** (`SignUpForm`) covers:
  - the schema's rules and the defaults;
  - the adapter between the `image` / `imageCldPubId` fields and the widget value, as a round trip in both directions;
  - the submit payload;
  - the handling of the registration response, with the field store as the class `RegisterForm`.
- **`Common`** holds the JavaScript string operations these pages use: `split` on one character, `filter(Boolean)`, `trim` with the ECMAScript whitespace set, `includes`, ASCII `toUpperCase`, and `encodeURIComponent` through UTF-8 percent-escapes.

Client methods (`ScenarioLateLibrary`, `ScenarioUploadThenRemove`, `ScenarioDropzoneHidden`, `ScenarioExternalValueRemove`, `ScenarioSync`, `ScenarioProfilePhoto`) show what a caller can conclude from the contracts alone. Their cases are:
- a click before the library loads, then three poll ticks and a key press that opens the provider;
- an upload followed by a removal whose network result is arbitrary, with a second click during the removal;
- a preview hiding the drop zone, so that neither a click nor a key press opens anything until the preview is removed;
- removing a value the parent supplied, which has no token;
- a failed and a cancelled upload, which change nothing;
- a sync to a new value, which keeps the token, and a sync to null, which drops it;
- the form and the widget wired together.

Three behaviours of the widget follow directly from the code:
- The delete token is dropped only when the new value is null (upload-widget.tsx:27-29). An external change to another asset keeps the old token.
- Nothing guards a removal that resumes after unmount. `RemoveFinish` updates the state and emits `onChange(null)` whether or not `Unmount` ran.
- An empty-string delete token is falsy. Removal then posts nothing and finishes at once, as it does with no token.

## Model

| member | source | states |
|---|---|---|
| `UploadWidget.Config` | src/components/upload-widget.tsx:40-47 | the provider is created single-file, in folder "uploads", with a 5,000,000-byte limit and formats png/jpg/jpeg, for the given cloud name and preset |
| `UploadWidget.Emission` | src/components/upload-widget.tsx:57 | an emission through the current callback is exactly one `Emitted` of that callback and value, or nothing when no callback is set |
| `UploadWidget.DeleteUrl` | src/components/upload-widget.tsx:93 | the endpoint is "https://api.cloudinary.com/v1_1/", then the cloud name, then "/delete_by_token", and nothing else |
| `UploadWidget.Widget.DropzoneShown` | src/components/upload-widget.tsx:112-131 | the drop zone is rendered exactly when there is no preview; under the invariant no delete token is then held |
| `UploadWidget.Widget.RemoveButtonEnabled` | src/components/upload-widget.tsx:112-121 | the remove button is enabled exactly when the preview is shown instead of the drop zone, no removal runs and the widget is not disabled |
| `UploadWidget.Widget.Emit` | src/components/upload-widget.tsx:57 | `onChangeRef.current?.(v)`: the log grows by exactly the emission of `v` through the current callback slot, and the invariant on the log is kept |
| `UploadWidget.Widget.Mount` | src/components/upload-widget.tsx:12-71 | the state starts from `value` with no token and not removing. The provider is created at once exactly when the library is present; otherwise the poll starts. The invariant holds |
| `UploadWidget.Widget.MountEffects` | src/components/upload-widget.tsx:20-71 | the first render's effects in order: the callback slot becomes `onChange`, the preview `value`, and the provider is created iff the library is present, otherwise the poll is left running; the invariant holds |
| `UploadWidget.Widget.SetOnChange` | src/components/upload-widget.tsx:20-22 | the callback slot becomes the newly supplied `onChange`; every later emission goes through it |
| `UploadWidget.Widget.SyncValue` | src/components/upload-widget.tsx:25-30 | the preview becomes exactly `value`. The token is cleared when `value` is null and kept otherwise. Nothing is emitted |
| `UploadWidget.Widget.TryInitialize` | src/components/upload-widget.tsx:36-63 | creates the provider (one `CreatedProvider` in the log) iff the library is present and none exists. Otherwise it returns false and changes nothing |
| `UploadWidget.Widget.PollTick` | src/components/upload-widget.tsx:67-71 | a cleared interval does nothing. An active one creates the provider iff the library is present, and is cleared by that success. Creation stays at most once |
| `UploadWidget.Widget.Unmount` | src/components/upload-widget.tsx:73 | cleanup always clears the interval; nothing else is cancelled |
| `UploadWidget.Widget.Open` | src/components/upload-widget.tsx:76-80 | `open()` is logged exactly when not disabled and the provider exists; otherwise nothing changes |
| `UploadWidget.Widget.DropzoneClick` | src/components/upload-widget.tsx:126-131 | the drop zone exists only while there is no preview; a click on it opens the provider exactly when it is shown, not disabled and the provider exists, and otherwise changes nothing |
| `UploadWidget.Widget.DropzoneKeyDown` | src/components/upload-widget.tsx:126-137 | while the drop zone is shown, Enter and Space open the provider under the same conditions as a click; other keys, or any key while a preview is shown, do nothing |
| `UploadWidget.Widget.UploadResult` | src/components/upload-widget.tsx:48-59 | with no error and event "success": the preview is `{secure_url, public_id}`, the token is `delete_token` (null if absent), and that payload is emitted once through the current callback; no other info field is read. Otherwise state and log are unchanged |
| `UploadWidget.Widget.RemoveStart` | src/components/upload-widget.tsx:82-99 | no preview: nothing changes. With a truthy token: `isRemoving` is set and exactly one POST carrying that token is logged. Without one: no POST, and the cleared end state comes at once with one `onChange(null)` |
| `UploadWidget.Widget.RemoveFinally` | src/components/upload-widget.tsx:102-107 | preview and token are cleared, `isRemoving` is false, and exactly one `onChange(null)` goes through the current callback |
| `UploadWidget.Widget.RemoveFinish` | src/components/upload-widget.tsx:100-107 | for any fetch outcome, preview and token end null, `isRemoving` ends false and `onChange(null)` is emitted once; `mounted` is not consulted |
| `UploadWidget.Widget.ClickRemove` | src/components/upload-widget.tsx:116-124 | a click while removing or disabled does nothing, so a second click during a removal posts nothing more; otherwise it is `RemoveStart` |
| `Common.Split` | src/pages/classes/show.tsx:120 | split on one character yields at least one part |
| `Common.JoinSplit` | src/pages/classes/show.tsx:120 | re-joining the parts of a split with the separator gives back the original string |
| `Common.SplitPartsLackSeparator` | src/pages/classes/show.tsx:120 | no part of a split contains the separator |
| `Common.Join` | src/pages/classes/show.tsx:120 | the join starts with the first part; with `JoinSplit` and `SplitJoin` it is the inverse of `Split` |
| `Common.SplitJoin` | src/pages/classes/show.tsx:120 | splitting the join of parts that lack the separator gives back exactly those parts |
| `Common.NonEmpty` | src/pages/classes/show.tsx:121 | `filter(Boolean)` keeps exactly the non-empty parts: every kept part is non-empty and comes from the input, and every non-empty input part is kept; `NonEmptyAppend` fixes the order |
| `Common.NonEmptyAppend` | src/pages/classes/show.tsx:121 | filtering a concatenation is the concatenation of the filtered halves, so the kept parts stay in input order |
| `Common.Words` | src/pages/classes/show.tsx:120-121 | every word is non-empty and holds no space; `WordsEmpty`, `WordsAround` and `SingleWord` determine the words of every string |
| `Common.SingleWord` | src/pages/classes/show.tsx:120-121 | a non-empty string without spaces is exactly one word, itself |
| `Common.WordsEmpty` | src/pages/classes/show.tsx:252-253 | a string has no words iff it consists of spaces only |
| `Common.WordsAround` | src/pages/classes/show.tsx:252 | the words of `x + " " + y` are the words of `x` followed by the words of `y` |
| `Common.TrimStart` | src/pages/classes/show.tsx:252 | a suffix of the input that does not start with whitespace; everything cut off is whitespace |
| `Common.TrimEnd` | src/pages/classes/show.tsx:252 | a prefix of the input that does not end with whitespace; everything cut off is whitespace |
| `Common.Trim` | src/pages/classes/show.tsx:252 | trim leaves a string that neither starts nor ends with whitespace, empty iff the input is all whitespace |
| `Common.TrimIsSlice` | src/pages/classes/show.tsx:252 | what trim leaves is a contiguous slice of the input, with only whitespace before and after it |
| `Common.TrimAround` | src/pages/classes/show.tsx:252 | trimming whitespace + m + whitespace gives exactly m, when m starts and ends with non-whitespace |
| `Common.Includes` | src/pages/classes/show.tsx:136 | `s.includes(sub)` holds iff `sub` occurs in `s` at some index `i`, i.e. `s[i..i+|sub|] == sub` |
| `Common.UpperChar` | src/pages/classes/show.tsx:123 | exactly the lower-case ASCII letters change, each to the upper-case letter at the same place in the alphabet; no lower-case letter is left |
| `Common.Upper` | src/pages/classes/show.tsx:174 | upper-casing keeps the length, maps each character, and leaves no lower-case ASCII letter |
| `Common.EncodeChar` | src/pages/classes/show.tsx:126-128 | one character encodes to a non-empty well-formed string that reads back as the character itself when unreserved, and as the octets of its UTF-8 form otherwise |
| `Common.EncodeUriComponent` | src/pages/classes/show.tsx:126-128 | the result is well formed: only unreserved characters and `%XY` escapes with two upper-case hex digits. Read back, it gives each unreserved character of the input as it is, and every other character as the octets of its UTF-8 form. It is never shorter than the input |
| `Common.PercentByte` | src/pages/classes/show.tsx:126-128 | an octet is written as one `%XY` escape that reads back as that octet |
| `Common.Utf8RoundTrip` | src/pages/classes/show.tsx:126-128 | the UTF-8 lead byte gives the sequence length, and decoding the bytes gives back the character |
| `Common.EscapedAppend` | src/pages/classes/show.tsx:126-128 | well-formed encodings concatenate, and the units of a concatenation are the concatenated units |
| `Common.UnitsInjective` | src/pages/classes/show.tsx:126-128 | different strings never have the same units |
| `Common.EncodeInjective` | src/pages/classes/show.tsx:126-128 | different strings never encode alike, so the query of the placeholder address determines its text |
| `Common.EncodeUnreserved` | src/pages/classes/show.tsx:126-128 | a string of unreserved characters encodes to itself |
| `ClassShow.GetInitials` | src/pages/classes/show.tsx:251-258 | at most two characters, empty iff the name is empty or all whitespace |
| `ClassShow.InitialsOfParts` | src/pages/classes/show.tsx:253-257 | the branch on the parts gives at most two characters, and nothing exactly when there are no parts |
| `ClassShow.InitialsOfPair` | src/pages/classes/show.tsx:255-257 | two or more parts give the upper-cased first letters of the first and the last part |
| `ClassShow.InitialsOfOneWord` | src/pages/classes/show.tsx:252-254 | a single word, surrounded by any whitespace that trim removes, gives its upper-cased first letter |
| `ClassShow.InitialsFirstAndLast` | src/pages/classes/show.tsx:252-257 | a name of two or more words gives the upper-cased first letters of its first and last word. This holds for any whitespace around the name, for a single space between two words ("John Smith"), and for anything in between when there are more words |
| `ClassShow.WordsFirstAndLast` | src/pages/classes/show.tsx:253 | the words of `first + " " + middle + last` begin with `first` and end with `last` (middle empty or ending with a space) |
| `ClassShow.TeacherName` | src/pages/classes/show.tsx:118 | the teacher's name, or "Unknown" when absent |
| `ClassShow.FirstLetters` | src/pages/classes/show.tsx:123-124 | one upper-cased first letter per word, in order |
| `ClassShow.TeacherInitials` | src/pages/classes/show.tsx:119-124 | as many letters as words, at most two, each the upper-cased first letter of the corresponding word |
| `ClassShow.TeacherInitialsFirstTwo` | src/pages/classes/show.tsx:119-124 | with three or more words the teacher initials are those of the first two words, not of the first and the last |
| `ClassShow.PlaceholderText` | src/pages/classes/show.tsx:127 | the initials when they are non-empty, and "NA" when they are empty |
| `ClassShow.PlaceholderUrl` | src/pages/classes/show.tsx:126-128 | the placehold.co base followed only by URI-safe characters |
| `ClassShow.PlaceholderQuery` | src/pages/classes/show.tsx:126-128 | the query after the base is a well-formed encoding that reads back as the units of the placeholder text |
| `ClassShow.PlaceholderOfUnreserved` | src/pages/classes/show.tsx:126-128 | initials made of unreserved characters (e.g. ASCII letters) appear in the address as they are: the address is the base followed by the placeholder text |
| `ClassShow.NoTeacherPlaceholder` | src/pages/classes/show.tsx:118-128 | a class without a teacher gets the placeholder text "U" (from "Unknown") |
| `ClassShow.BlankTeacherPlaceholder` | src/pages/classes/show.tsx:119-128 | a teacher name made only of spaces gets the placeholder text "NA" |
| `ClassShow.InstructorImage` | src/pages/classes/show.tsx:184 | the teacher's image when present, else the placeholder address |
| `ClassShow.ChooseBanner` | src/pages/classes/show.tsx:135-154 | the Cloudinary image iff the URL is non-empty, on res.cloudinary.com and a public id is non-empty; else a plain image iff the URL is non-empty; else the placeholder |
| `ClassShow.ShowState` | src/pages/classes/show.tsx:103-116 | loading before error before not-found; the details iff none applies |
| `ClassShow.StatusBadge` | src/pages/classes/show.tsx:168-175 | variant "default" iff the status is "active", "secondary" otherwise; the label is the status upper-cased |
| `ClassList.SelectFilters` | src/pages/classes/list.tsx:172-192 | empty iff the selection is "all"; otherwise exactly one eq filter on the given field (subject or teacher) with the selection |
| `ClassList.SearchFilters` | src/pages/classes/list.tsx:194-202 | empty iff the query is the empty string; otherwise exactly one name/contains filter on it |
| `ClassList.Permanent` | src/pages/classes/list.tsx:214 | at most three filters, no field named twice |
| `ClassList.PermanentOrder` | src/pages/classes/list.tsx:214 | subject, then teacher, then search, one per active selection |
| `ClassList.SelectionsOfPermanent` | src/pages/classes/list.tsx:172-214 | the selections can be read back from the permanent filters, so different selections never give the same filters |
| `ClassList.InitialFiltersEmpty` | src/pages/classes/list.tsx:39-41 | the initial selections "all", "all" and "" give no filters |
| `ClassList.StatusVariant` | src/pages/classes/list.tsx:83 | "default" iff the status is "active", otherwise "secondary" |
| `SignUpForm.DefaultValues` | src/components/refine-ui/form/sign-up-form.tsx:48-55 | every text field empty, role STUDENT |
| `SignUpForm.SchemaErrors` | src/components/refine-ui/form/sign-up-form.tsx:31-38 | no error iff the email passes the email rule, the password has at least 8 characters and the name at least 3; the image fields never produce an error |
| `SignUpForm.ImageFieldsOptional` | src/components/refine-ui/form/sign-up-form.tsx:36-37 | changing the image fields never changes the schema's verdict |
| `SignUpForm.DefaultsRejected` | src/components/refine-ui/form/sign-up-form.tsx:33-34 | the untouched form fails on password and name |
| `SignUpForm.WidgetValue` | src/components/refine-ui/form/sign-up-form.tsx:153-159 | null iff `image` is empty; otherwise the image URL with the public id, defaulting to "" |
| `SignUpForm.ApplyWidgetChange` | src/components/refine-ui/form/sign-up-form.tsx:161-175 | a file sets `image` and `imageCldPubId` from it, null sets both to ""; no other field changes |
| `SignUpForm.WidgetValueRoundTrip` | src/components/refine-ui/form/sign-up-form.tsx:153-175 | after `onChange(file)` with a non-empty URL the widget value is that file; after `onChange(null)` it is null |
| `SignUpForm.EmptyUrlReadsBackNull` | src/components/refine-ui/form/sign-up-form.tsx:153-167 | a file with an empty URL reads back as null |
| `SignUpForm.FieldsRoundTrip` | src/components/refine-ui/form/sign-up-form.tsx:153-175 | passing the widget value back through the adapter leaves the stored fields unchanged (when both are set and an empty image has an empty id) |
| `SignUpForm.OrUndefined` | src/components/refine-ui/form/sign-up-form.tsx:66-67 | an empty or absent string becomes undefined; any other passes through unchanged |
| `SignUpForm.SubmitPayload` | src/components/refine-ui/form/sign-up-form.tsx:62-68 | the image fields are normalised to undefined when empty; the other fields pass unchanged |
| `SignUpForm.PayloadAfterWidgetChange` | src/components/refine-ui/form/sign-up-form.tsx:62-68 | an uploaded photo is submitted as its URL and id; a removed one as undefined for both |
| `SignUpForm.SubmitButton` | src/components/refine-ui/form/sign-up-form.tsx:236-240 | disabled, and labelled "Creating Account...", exactly while submitting or registering |
| `SignUpForm.RegisterForm.constructor` | src/components/refine-ui/form/sign-up-form.tsx:46-56 | the form starts at the defaults with no toasts |
| `SignUpForm.RegisterForm.WidgetProp` | src/components/refine-ui/form/sign-up-form.tsx:153-159 | the widget's `value` prop is null iff the stored image is falsy; otherwise it is the stored image with the stored public id, or "" when there is none |
| `SignUpForm.RegisterForm.WidgetOnChange` | src/components/refine-ui/form/sign-up-form.tsx:161-175 | the field store becomes the adapter's update of the old store |
| `SignUpForm.RegisterForm.SubmitRequest` | src/components/refine-ui/form/sign-up-form.tsx:60-68 | `register` receives the normalised payload iff the schema reports no error |
| `SignUpForm.RegisterForm.OnRegisterSuccess` | src/components/refine-ui/form/sign-up-form.tsx:70-82 | `success === false` shows its error and keeps the values; any other response shows the success toast and resets to the defaults |
| `SignUpForm.RegisterForm.OnSubmitThrew` | src/components/refine-ui/form/sign-up-form.tsx:85-90 | a synchronous failure shows "Registration failed" and keeps the values |

## Left out

- React rendering, JSX markup and the hooks machinery are left out; only the values they compute are modelled. The `useMemo` column definitions and the `useTable` / `useList` / `useShow` data fetching are left out too, including the student table's fixed role filter.
- React's dependency check on effects is not modelled: `SyncValue` and `SetOnChange` run whenever the caller invokes them. React compares with `Object.is`, and the sign-up form builds a new value object on every render.
- The default action of the drop zone's key event is not modelled: the `event.preventDefault()` for Enter and Space (upload-widget.tsx:134) has no effect on the widget's state or on what it sends.
- The server-side-rendering guard at upload-widget.tsx:34 is left out. The model is always client side.
- Real time is left out. The 500 ms interval is the `PollTick` event.
- The provider's modal flow is left out. Its result arrives as the `UploadResult` event. `UploadResult` does not require the provider to exist.
- The network is left out. The `fetch` outcome is an arbitrary `FetchOutcome` that nothing reads. The `console.error` in the `catch` block is not modelled.
- Closures are not modelled. The removal handler reads `preview` and `deleteToken` as of the last render. The model reads the current fields, which is the same thing when each update is rendered before the next event.
- `Common.UpperChar`: maps only the ASCII letters, like `Common.Upper` below; a lower-case letter outside ASCII (for example "é") is left as it is.
- `Common.Upper`: maps only the ASCII letters. Unicode case mapping is not modelled; it can change a string's length (for example "ß" becomes "SS").
- Lengths and first characters count Unicode scalar values, not UTF-16 code units. This affects the `[0]` in getInitials, the teacher initials and the schema's `min` rules, and differs only outside the Basic Multilingual Plane.
- Lone surrogates cannot be represented: Dafny's `char` is a Unicode scalar value. So the model has no URIError path. A teacher name starting with a character outside the Basic Multilingual Plane (for example "😀 Smith") has a lone high surrogate as the first code unit of its first word, and `encodeURIComponent` (show.tsx:126) then throws a URIError, which breaks the page render. The model returns an address instead.
- The email rule of the validation library is a parameter (`isEmail`) of `SignUpForm.SchemaErrors`. The role rule is the type `Role`.
- The `shouldValidate` / `shouldDirty` options of `setValue` are not modelled, nor the field's dirty and touched state. The toasts' `richColors` option is not modelled either.
- The widget's default props `value = null` and `disabled = false` (upload-widget.tsx:8-10) are not modelled: `Mount` takes `value` explicitly, and every handler takes `disabled` from its caller.
- getInitials' default parameter is not modelled: `ClassShow.GetInitials` takes a string, and a missing name is the empty string.
- src/lib/cloudinary.tsx, the builder behind the Cloudinary banner image, is not part of this model. `ClassShow.ChooseBanner` returns the public id and the course name it would be given.
- src/lib/auth-client.ts, src/constants/index.ts and src/components/refine-ui/form/sign-in-form.tsx are not part of this model. They hold configuration, static data and library glue. The 3 MB `MAX_FILE_SIZE` and the `ALLOWED_TYPES` list in the constants are not used by the widget, which fixes 5,000,000 bytes and png/jpg/jpeg itself.
