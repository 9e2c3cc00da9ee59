/**
 * The class details page (src/pages/classes/show.tsx): the initials shown for a
 * student and for the teacher, the placeholder image address, the choice of
 * banner, the state message shown instead of the details, and the status badge.
 */
module ClassShow {
  import opened Common

  // ---------------------------------------------------------------------------
  // getInitials (student avatars)

  /** `getInitials(name)`: the trimmed name split on spaces; nothing for no word,
      the upper-cased first letter of a single word, and otherwise the upper-cased
      first letters of the first and the last word. The result is at most two
      characters long and is empty exactly when the name is all whitespace. */
  function GetInitials(name: string): (r: string)
    ensures |r| <= 2
    ensures r == "" <==> AllWhitespace(name)
  {
    var t := Trim(name);
    WordsEmpty(t);
    assert t != [] ==> t[0] != ' ';
    InitialsOfParts(Words(t))
  }

  /** The branch of `getInitials` on its parts (lines 253-257). */
  function InitialsOfParts(parts: seq<string>): (r: string)
    requires forall i :: 0 <= i < |parts| ==> parts[i] != ""
    ensures |r| <= 2
    ensures r == "" <==> parts == []
  {
    if |parts| == 0 then ""
    else if |parts| == 1 then [UpperChar(parts[0][0])]
    else Upper([parts[0][0], parts[|parts| - 1][0]])
  }

  /** Two or more parts give the upper-cased first letters of the first and the
      last part. */
  lemma InitialsOfPair(parts: seq<string>)
    requires forall i :: 0 <= i < |parts| ==> parts[i] != ""
    requires |parts| >= 2
    ensures InitialsOfParts(parts) == [UpperChar(parts[0][0]), UpperChar(parts[|parts| - 1][0])]
  {
    var u := Upper([parts[0][0], parts[|parts| - 1][0]]);
    assert u[0] == UpperChar(parts[0][0]) && u[1] == UpperChar(parts[|parts| - 1][0]);
  }

  /** `getInitials` of a name whose trimmed form has at least two words: the
      first letters of the first and the last word. */
  lemma InitialsOfTrimmed(name: string, m: string, a: char, b: char)
    requires Trim(name) == m
    requires var ws := Words(m); |ws| >= 2 && ws[0][0] == a && ws[|ws| - 1][0] == b
    ensures GetInitials(name) == [UpperChar(a), UpperChar(b)]
  {
    InitialsOfPair(Words(m));
  }

  /** A single word, possibly surrounded by whitespace that `trim` removes, gives
      its own upper-cased first letter. */
  lemma InitialsOfOneWord(lead: string, w: string, trail: string)
    requires AllWhitespace(lead) && AllWhitespace(trail)
    requires w != "" && ' ' !in w
    requires !IsJsWhitespace(w[0]) && !IsJsWhitespace(w[|w| - 1])
    ensures GetInitials(lead + w + trail) == [UpperChar(w[0])]
  {
    TrimAround(lead, w, trail);
    SingleWord(w);
  }

  /** The words of `first + " " + middle + last`, where `middle` is empty or ends
      with a space, begin with `first` and end with `last`. */
  lemma WordsFirstAndLast(first: string, middle: string, last: string)
    requires first != "" && ' ' !in first
    requires last != "" && ' ' !in last
    requires middle == "" || middle[|middle| - 1] == ' '
    ensures var ws := Words(first + " " + middle + last);
      |ws| >= 2 && ws[0] == first && ws[|ws| - 1] == last
  {
    assert first + " " + middle + last == first + " " + (middle + last);
    WordsAround(first, middle + last);
    SingleWord(first);
    WordsEndingWith(middle, last);
  }

  /** The words of `middle + last`, where `middle` is empty or ends with a space,
      end with `last`. */
  lemma WordsEndingWith(middle: string, last: string)
    requires last != "" && ' ' !in last
    requires middle == "" || middle[|middle| - 1] == ' '
    ensures var ws := Words(middle + last);
      |ws| >= 1 && ws[|ws| - 1] == last
  {
    SingleWord(last);
    if middle == "" {
      assert middle + last == last;
    } else {
      var m0 := middle[..|middle| - 1];
      assert middle + last == m0 + " " + last;
      WordsAround(m0, last);
    }
  }

  /** With two or more words the initials are those of the first and the last
      word, whatever whitespace surrounds the name and whatever stands between
      the two: `middle` is empty (one space between them, as in "John Smith") or
      ends with a space. */
  lemma InitialsFirstAndLast(lead: string, first: string, middle: string, last: string, trail: string)
    requires AllWhitespace(lead) && AllWhitespace(trail)
    requires first != "" && ' ' !in first && !IsJsWhitespace(first[0])
    requires last != "" && ' ' !in last && !IsJsWhitespace(last[|last| - 1])
    requires middle == "" || middle[|middle| - 1] == ' '
    ensures GetInitials(lead + first + " " + middle + last + trail) == [UpperChar(first[0]), UpperChar(last[0])]
  {
    var m := first + " " + middle + last;
    assert lead + first + " " + middle + last + trail == lead + m + trail;
    assert m[0] == first[0] && m[|m| - 1] == last[|last| - 1];
    WordsFirstAndLast(first, middle, last);
    InitialsOfPadded(lead, m, trail, first[0], last[0]);
  }

  /** A name of two or more words surrounded by whitespace gives the initials of
      its first and its last word. */
  lemma InitialsOfPadded(lead: string, m: string, trail: string, a: char, b: char)
    requires AllWhitespace(lead) && AllWhitespace(trail)
    requires m != [] && !IsJsWhitespace(m[0]) && !IsJsWhitespace(m[|m| - 1])
    requires var ws := Words(m); |ws| >= 2 && ws[0][0] == a && ws[|ws| - 1][0] == b
    ensures GetInitials(lead + m + trail) == [UpperChar(a), UpperChar(b)]
  {
    TrimAround(lead, m, trail);
    InitialsOfTrimmed(lead + m + trail, m, a, b);
  }

  // ---------------------------------------------------------------------------
  // teacher initials and placeholder image

  /** The teacher's name, or "Unknown" for a class without one. */
  function TeacherName(name: Option<string>): (r: string)
    ensures name.Some? ==> r == name.value
    ensures name.None? ==> r == "Unknown"
  {
    name.GetOr("Unknown")
  }

  /** The upper-cased first letter of each (non-empty) word, glued together. */
  function FirstLetters(ws: seq<string>): (r: string)
    requires forall i :: 0 <= i < |ws| ==> ws[i] != ""
    ensures |r| == |ws|
    ensures forall i :: 0 <= i < |r| ==> r[i] == UpperChar(ws[i][0])
    decreases |ws|
  {
    if ws == [] then "" else [UpperChar(ws[0][0])] + FirstLetters(ws[1..])
  }

  /** The teacher initials: the upper-cased first letters of the first two words, not of the first and
      the last, and without trimming other whitespace first. */
  function TeacherInitials(teacherName: string): (r: string)
    ensures |r| == if |Words(teacherName)| < 2 then |Words(teacherName)| else 2
    ensures forall i :: 0 <= i < |r| ==> r[i] == UpperChar(Words(teacherName)[i][0])
  {
    var ws := Words(teacherName);
    FirstLetters(ws[..if |ws| < 2 then |ws| else 2])
  }

  /** Of three or more words the teacher initials take the first two. */
  lemma TeacherInitialsFirstTwo(first: string, second: string, rest: string)
    requires first != "" && ' ' !in first
    requires second != "" && ' ' !in second
    ensures TeacherInitials(first + " " + second + " " + rest) == [UpperChar(first[0]), UpperChar(second[0])]
  {
    var s := first + " " + (second + " " + rest);
    assert s == first + " " + second + " " + rest;
    WordsAround(first, second + " " + rest);
    WordsAround(second, rest);
    SingleWord(first);
    SingleWord(second);
    assert Words(s) == [first, second] + Words(rest);
  }

  /** The placeholder text: the initials, or "NA" when they are empty; never empty. */
  function PlaceholderText(initials: string): (r: string)
    ensures r != ""
    ensures initials != "" ==> r == initials
    ensures initials == "" ==> r == "NA"
  {
    if initials != "" then initials else "NA"
  }

  const PlaceholderBase: string := "https://placehold.co/600x400?text="

  /** The placeholder image address: the placehold.co base with the URI-encoded
      placeholder text as its query value. */
  function PlaceholderUrl(initials: string): (r: string)
    ensures |r| > |PlaceholderBase| && r[..|PlaceholderBase|] == PlaceholderBase
    ensures forall i :: |PlaceholderBase| <= i < |r| ==> IsUriSafe(r[i])
  {
    var e := EncodeUriComponent(PlaceholderText(initials));
    SafeSuffix(PlaceholderBase, e);
    PlaceholderBase + e
  }

  /** Appending URI-safe characters to a prefix keeps the prefix and adds only
      URI-safe characters. */
  lemma SafeSuffix(base: string, e: string)
    requires e != [] && forall i :: 0 <= i < |e| ==> IsUriSafe(e[i])
    ensures var r := base + e;
      |r| > |base| && r[..|base|] == base && forall i :: |base| <= i < |r| ==> IsUriSafe(r[i])
  {
    var r := base + e;
    assert forall i :: |base| <= i < |r| ==> r[i] == e[i - |base|];
  }

  /** The query of the placeholder address is the encoded placeholder text, and
      it reads back as the units of that text. */
  lemma PlaceholderQuery(initials: string)
    ensures var q := PlaceholderUrl(initials)[|PlaceholderBase|..];
      Escaped(q) && DecodeUnits(q) == Units(PlaceholderText(initials))
  {
    var e := EncodeUriComponent(PlaceholderText(initials));
    assert (PlaceholderBase + e)[|PlaceholderBase|..] == e;
  }

  /** Initials made of unreserved characters (every ASCII-letter initial) appear
      in the placeholder address as they are. */
  lemma PlaceholderOfUnreserved(initials: string)
    requires forall i :: 0 <= i < |initials| ==> IsUnreserved(initials[i])
    ensures PlaceholderUrl(initials) == PlaceholderBase + PlaceholderText(initials)
  {
    EncodeUnreserved(PlaceholderText(initials));
  }

  /** A class without a teacher shows the placeholder for "Unknown", that is "U". */
  lemma NoTeacherPlaceholder()
    ensures PlaceholderUrl(TeacherInitials(TeacherName(None))) == PlaceholderBase + "U"
  {
    SingleWord("Unknown");
    assert TeacherInitials("Unknown") == "U";
    EncodeUnreserved("U");
  }

  /** A teacher whose name has no word (empty, or spaces only) gets "NA". */
  lemma BlankTeacherPlaceholder(name: string)
    requires forall i :: 0 <= i < |name| ==> name[i] == ' '
    ensures PlaceholderUrl(TeacherInitials(TeacherName(Some(name)))) == PlaceholderBase + "NA"
  {
    WordsEmpty(name);
    EncodeUnreserved("NA");
  }

  /** The instructor image: the teacher's own image, else the placeholder. */
  function InstructorImage(teacherImage: Option<string>, initials: string): (src: string)
    ensures teacherImage.Some? ==> src == teacherImage.value
    ensures teacherImage.None? ==> src == PlaceholderUrl(initials)
  {
    teacherImage.GetOr(PlaceholderUrl(initials))
  }

  // ---------------------------------------------------------------------------
  // banner

  datatype Banner =
    | CloudinaryImage(publicId: string, courseName: string) // <AdvancedImage cldImg={bannerPhoto(...)}>
    | PlainImage(src: string, alt: string)                  // <img src={bannerUrl}>
    | PlaceholderDiv                                        // <div className="placeholder">

  /** The banner: the Cloudinary image when the URL is on res.cloudinary.com and a
      public id is known, else a plain image when there is a URL, else the
      placeholder. */
  function ChooseBanner(bannerUrl: Option<string>, bannerCldPubId: Option<string>, courseName: string): (b: Banner)
    ensures b.CloudinaryImage? <==>
      Truthy(bannerUrl) && Includes(bannerUrl.value, "res.cloudinary.com") && Truthy(bannerCldPubId)
    ensures b.PlainImage? <==>
      Truthy(bannerUrl) && !(Includes(bannerUrl.value, "res.cloudinary.com") && Truthy(bannerCldPubId))
    ensures b.PlaceholderDiv? <==> !Truthy(bannerUrl)
    ensures b.CloudinaryImage? ==> b == CloudinaryImage(bannerCldPubId.value, courseName)
    ensures b.PlainImage? ==> b == PlainImage(bannerUrl.value, courseName)
  {
    if Truthy(bannerUrl) then
      if Includes(bannerUrl.value, "res.cloudinary.com") && Truthy(bannerCldPubId) then
        CloudinaryImage(bannerCldPubId.GetOr(""), courseName)
      else PlainImage(bannerUrl.value, courseName)
    else PlaceholderDiv
  }

  // ---------------------------------------------------------------------------
  // state message

  datatype ShowScreen = StateMessage(text: string) | Details

  const LoadingMessage: string := "Loading class details..."
  const ErrorMessage: string := "Failed to load class details."
  const NotFoundMessage: string := "Class details not found."

  /** What the page renders: loading wins over an error, an error over a missing
      record, and the details appear only when none of the three applies. */
  function ShowState(isLoading: bool, isError: bool, hasDetails: bool): (screen: ShowScreen)
    ensures screen.Details? <==> !isLoading && !isError && hasDetails
    ensures isLoading ==> screen == StateMessage(LoadingMessage)
    ensures !isLoading && isError ==> screen == StateMessage(ErrorMessage)
    ensures !isLoading && !isError && !hasDetails ==> screen == StateMessage(NotFoundMessage)
  {
    if isLoading || isError || !hasDetails then
      StateMessage(if isLoading then LoadingMessage else if isError then ErrorMessage else NotFoundMessage)
    else Details
  }

  // ---------------------------------------------------------------------------
  // status badge

  datatype Badge = Badge(variant: string, text: string)

  /** The status badge: the "default" variant for an active class, "secondary"
      otherwise, and the status upper-cased as its label. */
  function StatusBadge(status: string): (b: Badge)
    ensures b.variant == "default" <==> status == "active"
    ensures b.variant == "default" || b.variant == "secondary"
    ensures |b.text| == |status|
    ensures forall i :: 0 <= i < |status| ==> b.text[i] == UpperChar(status[i])
    ensures forall i :: 0 <= i < |status| ==> !('a' <= b.text[i] <= 'z')
  {
    Badge(if status == "active" then "default" else "secondary", Upper(status))
  }
}
