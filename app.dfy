/**
 * The `App` component: six pieces of state (`banners`, `form`, `errors`,
 * `isPopupOpen`, `isEdit`, `selectedFile`) and the event handlers that
 * overwrite them.  Server round trips are parameters: a handler that reloads
 * the list receives what the server returned and reports, in order, the
 * requests it made.
 */
module AppController {
  import opened Wrappers
  import opened Base64
  import opened BannerModel
  import BannerService

  // ---------------------------------------------------------------------
  // Decimal numerals, as a template literal prints a non-negative integer

  function DigitChar(d: int): char
    requires 0 <= d < 10
  {
    ('0' as int + d) as char
  }

  function DecimalString(n: nat): (s: string)
    ensures |s| >= 1
    ensures forall i :: 0 <= i < |s| ==> '0' <= s[i] <= '9'
  {
    if n < 10 then [DigitChar(n)] else DecimalString(n / 10) + [DigitChar(n % 10)]
  }

  /** Reads a numeral back: the partner of `DecimalString`. */
  function DecimalValue(s: string): int {
    if s == [] then 0 else DecimalValue(s[..|s| - 1]) * 10 + (s[|s| - 1] as int - '0' as int)
  }

  lemma {:induction false} DecimalRoundTrip(n: nat)
    ensures DecimalValue(DecimalString(n)) == n
  {
    if n >= 10 {
      var s := DecimalString(n);
      assert s[..|s| - 1] == DecimalString(n / 10);
      DecimalRoundTrip(n / 10);
    }
  }

  // ---------------------------------------------------------------------
  // Error keys and messages

  /** The properties of the `errors` object that the handlers write. */
  datatype ErrorKey =
    | GroupKey | NameKey | LinkKey | OrderKey | StatusKey | ImageKey
    | TextKey(index: nat)

  /** The property name each key stands for; exactly the text keys are named `texts_${i}`. */
  function KeyName(k: ErrorKey): (name: string)
    ensures k.TextKey? <==> |name| > 6 && name[..6] == "texts_"
  {
    match k
    case GroupKey => "group"
    case NameKey => "name"
    case LinkKey => "link"
    case OrderKey => "order"
    case StatusKey => "status"
    case ImageKey => "image"
    case TextKey(i) => "texts_" + DecimalString(i)
  }

  /** Distinct keys are distinct property names, so a map over `ErrorKey` is the `errors` object. */
  lemma KeyNameInjective(a: ErrorKey, b: ErrorKey)
    requires KeyName(a) == KeyName(b)
    ensures a == b
  {
    if a.TextKey? && b.TextKey? {
      assert KeyName(a)[6..] == DecimalString(a.index);
      assert KeyName(b)[6..] == DecimalString(b.index);
      DecimalRoundTrip(a.index);
      DecimalRoundTrip(b.index);
    }
  }

  const GroupMessage: string := "Vui lòng chọn nhóm banner."
  const NameMessage: string := "Tên banner không được để trống."
  const LinkMessage: string := "Liên kết không hợp lệ. Hãy nhập một URL hợp lệ."
  const OrderMessage: string := "Thứ tự phải là một số lớn hơn 0."
  const ImageMessage: string := "Tên tệp hình ảnh không được để trống."

  /** The text around the line number in the message for a blank text line. */
  const TextMessageHead: string := "Văn bản "
  const TextMessageTail: string := " không được để trống."

  /** The message `Văn bản ${index + 1} không được để trống.`: the number it shows reads back as i + 1. */
  function TextMessage(i: nat): (m: string)
    ensures |m| > |TextMessageHead| + |TextMessageTail|
    ensures DecimalValue(m[|TextMessageHead|..|m| - |TextMessageTail|]) == i + 1
  {
    var d := DecimalString(i + 1);
    DecimalRoundTrip(i + 1);
    var m := TextMessageHead + d + TextMessageTail;
    assert m[|TextMessageHead|..|m| - |TextMessageTail|] == d;
    m
  }

  /** Around the number, every text-line message carries the same fixed text. */
  lemma TextMessageFrame(i: nat)
    ensures var m := TextMessage(i);
            m[..|TextMessageHead|] == TextMessageHead && m[|m| - |TextMessageTail|..] == TextMessageTail
  {
    var m := TextMessage(i);
    assert m == TextMessageHead + DecimalString(i + 1) + TextMessageTail;
  }

  // ---------------------------------------------------------------------
  // String.prototype.trim and the link pattern

  /** ECMAScript WhiteSpace and LineTerminator: what `trim()` removes. */
  predicate IsTrimmable(c: char) {
    var n := c as int;
    n == 0x09 || n == 0x0A || n == 0x0B || n == 0x0C || n == 0x0D || n == 0x20
    || n == 0xA0 || n == 0x1680 || (0x2000 <= n <= 0x200A) || n == 0x2028 || n == 0x2029
    || n == 0x202F || n == 0x205F || n == 0x3000 || n == 0xFEFF
  }

  /** Drops the leading white space: what is left is empty or starts with another character. */
  function TrimStart(s: string): (r: string)
    ensures |r| <= |s|
    ensures r != [] ==> !IsTrimmable(r[0])
  {
    if s != [] && IsTrimmable(s[0]) then TrimStart(s[1..]) else s
  }

  /** Drops the trailing white space: what is left is empty or ends with another character. */
  function TrimEnd(s: string): (r: string)
    ensures |r| <= |s|
    ensures r != [] ==> !IsTrimmable(r[|r| - 1])
  {
    if s != [] && IsTrimmable(s[|s| - 1]) then TrimEnd(s[..|s| - 1]) else s
  }

  /** `s.trim()` */
  function Trim(s: string): string {
    TrimEnd(TrimStart(s))
  }

  /** `trim()` returns a piece of s that neither starts nor ends with white space. */
  lemma TrimmedEnds(s: string)
    ensures |Trim(s)| <= |s|
    ensures Trim(s) != [] ==> !IsTrimmable(Trim(s)[0]) && !IsTrimmable(Trim(s)[|Trim(s)| - 1])
  {
    TrimEndPrefix(TrimStart(s));
  }

  lemma {:induction false} TrimEndPrefix(s: string)
    ensures TrimEnd(s) == s[..|TrimEnd(s)|]
  {
    if s != [] && IsTrimmable(s[|s| - 1]) {
      TrimEndPrefix(s[..|s| - 1]);
    }
  }

  ghost predicate IsBlank(s: string) {
    forall i :: 0 <= i < |s| ==> IsTrimmable(s[i])
  }

  lemma {:induction false} TrimStartBlank(s: string)
    ensures TrimStart(s) == [] <==> IsBlank(s)
    ensures TrimStart(s) != [] ==> !IsTrimmable(TrimStart(s)[0])
  {
    if s != [] && IsTrimmable(s[0]) {
      TrimStartBlank(s[1..]);
      if !IsBlank(s) {
        var i :| 0 <= i < |s| && !IsTrimmable(s[i]);
        assert s[1..][i - 1] == s[i];
      }
    }
  }

  lemma {:induction false} TrimEndKeepsFirst(s: string)
    requires s != [] && !IsTrimmable(s[0])
    ensures TrimEnd(s) != []
  {
    if IsTrimmable(s[|s| - 1]) {
      TrimEndKeepsFirst(s[..|s| - 1]);
    }
  }

  /** `!s.trim()` holds exactly for strings made only of white space. */
  lemma TrimEmptyIffBlank(s: string)
    ensures Trim(s) == "" <==> IsBlank(s)
  {
    TrimStartBlank(s);
    if TrimStart(s) != [] {
      TrimEndKeepsFirst(TrimStart(s));
    }
  }

  function HasPrefix(s: string, p: string): bool {
    |p| <= |s| && s[..|p|] == p
  }

  /** `/^https?:\/\/.+$/.test(link)`: the scheme, then at least one character that `.` matches, to the end. */
  predicate MatchesHttpUrl(link: string): (b: bool)
    ensures b ==> |link| >= 8 && (HasPrefix(link, "http://") || HasPrefix(link, "https://"))
  {
    var rest := if HasPrefix(link, "https://") then link[8..]
                else if HasPrefix(link, "http://") then link[7..]
                else "";
    |rest| >= 1 && forall i :: 0 <= i < |rest| ==> !IsLineTerminator(rest[i])
  }

  predicate LinkRejected(link: string) {
    Trim(link) == "" || !MatchesHttpUrl(link)
  }

  /** The trimmed-emptiness test adds nothing: a link is rejected exactly when it does not match. */
  lemma LinkRejectedIffNoMatch(link: string)
    ensures LinkRejected(link) <==> !MatchesHttpUrl(link)
  {
    TrimEmptyIffBlank(link);
    if MatchesHttpUrl(link) {
      assert link[0] == 'h';
    }
  }

  /** `Object.keys(form.image).length` */
  function ImageKeyCount(img: ImageRef): (n: nat)
    ensures n == 0 <==> img.name.None? && img.data.None?
    ensures n <= 2
  {
    (if img.name.Some? then 1 else 0) + (if img.data.Some? then 1 else 0)
  }

  // ---------------------------------------------------------------------
  // validateForm

  /** The rules of `validateForm`, stated as what a valid form satisfies. */
  ghost predicate FormIsValid(f: Banner) {
    && f.group != ""
    && Trim(f.name) != ""
    && !LinkRejected(f.link)
    && f.order > 0
    && (forall i :: 0 <= i < |f.texts| ==> Trim(f.texts[i]) != "")
    && ImageKeyCount(f.image) > 0
  }

  /**
   * errs is the error map that validating f produces: a key for each failed
   * rule with that rule's message, `texts_i` exactly for the blank lines i,
   * and no other key.
   */
  ghost predicate ReportsErrors(f: Banner, errs: map<ErrorKey, string>) {
    && (GroupKey in errs <==> f.group == "")
    && (NameKey in errs <==> Trim(f.name) == "")
    && (LinkKey in errs <==> LinkRejected(f.link))
    && (OrderKey in errs <==> f.order <= 0)
    && (ImageKey in errs <==> ImageKeyCount(f.image) == 0)
    && StatusKey !in errs
    && (forall i: nat :: TextKey(i) in errs <==> i < |f.texts| && Trim(f.texts[i]) == "")
    && (GroupKey in errs ==> errs[GroupKey] == GroupMessage)
    && (NameKey in errs ==> errs[NameKey] == NameMessage)
    && (LinkKey in errs ==> errs[LinkKey] == LinkMessage)
    && (OrderKey in errs ==> errs[OrderKey] == OrderMessage)
    && (ImageKey in errs ==> errs[ImageKey] == ImageMessage)
    && (forall i: nat :: TextKey(i) in errs ==> errs[TextKey(i)] == TextMessage(i))
  }

  /** Builds `newErrors` rule by rule, with one pass over the text lines. */
  method CollectErrors(f: Banner) returns (newErrors: map<ErrorKey, string>)
    ensures ReportsErrors(f, newErrors)
  {
    newErrors := map[];
    if f.group == "" {
      newErrors := newErrors[GroupKey := GroupMessage];
    }
    if Trim(f.name) == "" {
      newErrors := newErrors[NameKey := NameMessage];
    }
    if Trim(f.link) == "" || !MatchesHttpUrl(f.link) {
      newErrors := newErrors[LinkKey := LinkMessage];
    }
    if f.order <= 0 {
      newErrors := newErrors[OrderKey := OrderMessage];
    }
    var index := 0;
    while index < |f.texts|
      invariant 0 <= index <= |f.texts|
      invariant GroupKey in newErrors <==> f.group == ""
      invariant NameKey in newErrors <==> Trim(f.name) == ""
      invariant LinkKey in newErrors <==> LinkRejected(f.link)
      invariant OrderKey in newErrors <==> f.order <= 0
      invariant ImageKey !in newErrors && StatusKey !in newErrors
      invariant forall i: nat :: (TextKey(i) in newErrors <==> i < index && Trim(f.texts[i]) == "")
                                  && (TextKey(i) in newErrors ==> newErrors[TextKey(i)] == TextMessage(i))
      invariant GroupKey in newErrors ==> newErrors[GroupKey] == GroupMessage
      invariant NameKey in newErrors ==> newErrors[NameKey] == NameMessage
      invariant LinkKey in newErrors ==> newErrors[LinkKey] == LinkMessage
      invariant OrderKey in newErrors ==> newErrors[OrderKey] == OrderMessage
    {
      ghost var before := newErrors;
      if Trim(f.texts[index]) == "" {
        newErrors := newErrors[TextKey(index) := TextMessage(index)];
      }
      assert forall i: nat :: i != index ==> (TextKey(i) in newErrors <==> TextKey(i) in before);
      index := index + 1;
    }
    if ImageKeyCount(f.image) == 0 {
      newErrors := newErrors[ImageKey := ImageMessage];
    }
  }

  /** `validateForm` returns true exactly when the map it stores is empty, which is exactly when the form is valid. */
  lemma NoErrorsIffValid(f: Banner, errs: map<ErrorKey, string>)
    requires ReportsErrors(f, errs)
    ensures errs == map[] <==> FormIsValid(f)
  {
    if errs != map[] {
      var k :| k in errs;
      if k.TextKey? {
        assert Trim(f.texts[k.index]) == "";
      }
    } else {
      forall i | 0 <= i < |f.texts| ensures Trim(f.texts[i]) != "" {
        assert TextKey(i) !in errs;
      }
    }
  }

  /**
   * The rules fix the whole map: whatever errors were shown before, the map
   * after validation depends on the form alone.
   */
  lemma ReportsDetermined(f: Banner, e1: map<ErrorKey, string>, e2: map<ErrorKey, string>)
    requires ReportsErrors(f, e1) && ReportsErrors(f, e2)
    ensures e1 == e2
  {
    forall k | k in e1 ensures k in e2 && e1[k] == e2[k] {
      if k.TextKey? {
        assert TextKey(k.index) in e1;
      }
    }
    forall k | k in e2 ensures k in e1 {
      if k.TextKey? {
        assert TextKey(k.index) in e2;
      }
    }
    assert e1.Keys == e2.Keys;
  }

  // ---------------------------------------------------------------------
  // The form and the handlers

  /** The status a new banner starts with. */
  const Shown: string := "Hiển thị"

  /** The form `useState` starts with and every reset restores; `today` is the locale date stamp. */
  function DefaultForm(today: string): (f: Banner)
    ensures f.id.None? && f.group == "" && f.name == "" && f.link == ""
    ensures f.order == 0 && f.texts == [""]
    ensures ImageKeyCount(f.image) == 0 && f.status == Shown && f.createDate == today
  {
    Banner(None, "", "", "", 0, [""], ImageRef(None, None), Shown, today)
  }

  /** Validating the reset form reports every field and its single empty line. */
  lemma DefaultFormErrors(today: string, errs: map<ErrorKey, string>)
    requires ReportsErrors(DefaultForm(today), errs)
    ensures errs.Keys == {GroupKey, NameKey, LinkKey, OrderKey, ImageKey, TextKey(0)}
  {
    var f := DefaultForm(today);
    TrimEmptyIffBlank("");
    assert TextKey(0) in errs;
    forall k | k in errs ensures k in {GroupKey, NameKey, LinkKey, OrderKey, ImageKey, TextKey(0)} {
      if k.TextKey? {
        assert TextKey(k.index) in errs;
      }
    }
  }

  /** `texts.filter((_, i) => i !== index)`: keeps every line whose position is not index. */
  function WithoutIndex(texts: seq<string>, index: int): (r: seq<string>)
    ensures |r| == if 0 <= index < |texts| then |texts| - 1 else |texts|
  {
    if texts == [] then []
    else (if index == 0 then [] else [texts[0]]) + WithoutIndex(texts[1..], index - 1)
  }

  /** Removal by filtering drops only position index, keeps the rest in order, and is a no-op out of range. */
  lemma {:induction false} WithoutIndexRemoves(texts: seq<string>, index: int)
    ensures WithoutIndex(texts, index)
            == if 0 <= index < |texts| then texts[..index] + texts[index + 1..] else texts
  {
    if texts != [] {
      WithoutIndexRemoves(texts[1..], index - 1);
      if 0 < index < |texts| {
        assert texts[..index] == [texts[0]] + texts[1..][..index - 1];
        assert texts[index + 1..] == texts[1..][index..];
      } else if index != 0 {
        assert texts == [texts[0]] + texts[1..];
      }
    }
  }

  /** A scalar field edit, as `handleChange` receives it from the input's `name` and `value`. */
  datatype FieldEdit =
    | SetGroup(value: string)
    | SetName(value: string)
    | SetLink(value: string)
    | SetOrder(order: int)
    | SetStatus(value: string)

  /** The key of the edited field, whose error `handleChange` blanks: never the image or a text line. */
  function FieldKey(e: FieldEdit): (k: ErrorKey)
    ensures k != ImageKey && !k.TextKey?
  {
    match e
    case SetGroup(_) => GroupKey
    case SetName(_) => NameKey
    case SetLink(_) => LinkKey
    case SetOrder(_) => OrderKey
    case SetStatus(_) => StatusKey
  }

  /** The requests a handler sends to the banner endpoint, in the order it awaits them. */
  datatype Request =
    | ListBanners
    | CreateBanner(banner: Banner)
    | UpdateBanner(id: Option<string>, banner: Banner)
    | DeleteBanner(bannerId: string)

  /**
   * What `handleEdit` can throw: the `InvalidCharacterError` of `atob`, or the
   * `InvalidStateError` of a file input given a value other than "".
   */
  datatype EditError = DecodeFailed | FileInputRejected

  /** `if (banner.image.data)`: present and not the empty string, so the image has a key. */
  predicate HasImageData(img: ImageRef): (b: bool)
    ensures b ==> ImageKeyCount(img) > 0
  {
    img.data.Some? && img.data.value != ""
  }

  /** `banner.image.name!` as the `File` constructor sees it: a missing name becomes "undefined". */
  function FileNameOf(name: Option<string>): (n: string)
    ensures name.Some? ==> n == name.value
    ensures n == "" <==> name == Some("")
  {
    match name
    case Some(n) => n
    case None => "undefined"
  }

  class App {
    var banners: seq<Banner>
    var form: Banner
    var errors: map<ErrorKey, string>
    var isPopupOpen: bool
    var isEdit: bool
    var selectedFile: Option<File>

    /** The list only ever holds what `getBanners` returns: no paused banner, largest `order` first. */
    ghost predicate Valid()
      reads this
    {
      && BannerService.NoPaused(banners)
      && BannerService.SortedByOrderDesc(banners)
    }

    constructor (today: string)
      ensures Valid()
      ensures banners == [] && form == DefaultForm(today) && errors == map[]
      ensures !isPopupOpen && !isEdit && selectedFile.None?
    {
      banners := [];
      selectedFile := None;
      form := DefaultForm(today);
      isPopupOpen := false;
      isEdit := false;
      errors := map[];
    }

    /** The effect run on mount: load the list. */
    method Mount(fetched: seq<Banner>) returns (requests: seq<Request>)
      requires Valid()
      modifies this`banners
      ensures Valid()
      ensures requests == [ListBanners]
      ensures banners == BannerService.GetBanners(fetched)
    {
      requests := [ListBanners];
      banners := BannerService.GetBanners(fetched);
    }

    method HandleOpenPopup()
      requires Valid()
      modifies this`isPopupOpen
      ensures Valid()
      ensures isPopupOpen
    {
      isPopupOpen := true;
    }

    method HandleClosePopup(today: string)
      requires Valid()
      modifies this`selectedFile, this`isEdit, this`form, this`isPopupOpen
      ensures Valid()
      ensures selectedFile.None? && !isEdit && form == DefaultForm(today) && !isPopupOpen
    {
      selectedFile := None;
      isEdit := false;
      form := DefaultForm(today);
      isPopupOpen := false;
    }

    /** Sets one scalar field and blanks that field's error message. */
    method HandleChange(edit: FieldEdit)
      requires Valid()
      modifies this`form, this`errors
      ensures Valid()
      ensures form == match edit
                      case SetGroup(v) => old(form).(group := v)
                      case SetName(v) => old(form).(name := v)
                      case SetLink(v) => old(form).(link := v)
                      case SetOrder(n) => old(form).(order := n)
                      case SetStatus(v) => old(form).(status := v)
      ensures errors == old(errors)[FieldKey(edit) := ""]
    {
      match edit {
        case SetGroup(v) => form := form.(group := v);
        case SetName(v) => form := form.(name := v);
        case SetLink(v) => form := form.(link := v);
        case SetOrder(n) => form := form.(order := n);
        case SetStatus(v) => form := form.(status := v);
      }
      errors := errors[FieldKey(edit) := ""];
    }

    /**
     * The chosen files and the outcome of encoding the first one (`None` when
     * the read failed, which is only logged).
     */
    method HandleChangeImage(files: seq<File>, encoded: Option<string>)
      requires Valid()
      modifies this`selectedFile, this`form, this`errors
      ensures Valid()
      ensures files == [] ==> selectedFile == old(selectedFile) && form == old(form) && errors == old(errors)
      ensures files != [] ==> selectedFile == Some(files[0])
      ensures files != [] && encoded.Some? ==>
                form == old(form).(image := ImageRef(Some(files[0].name), encoded))
                && errors == old(errors)[ImageKey := ""]
      ensures files != [] && encoded.None? ==> form == old(form) && errors == old(errors)
    {
      if |files| > 0 {
        var file := files[0];
        selectedFile := Some(file);
        if encoded.Some? {
          form := form.(image := ImageRef(Some(file.name), encoded));
          errors := errors[ImageKey := ""];
        }
      }
    }

    method HandleTextChange(index: nat, value: string)
      requires Valid()
      requires index < |form.texts|
      modifies this`form, this`errors
      ensures Valid()
      ensures |form.texts| == |old(form.texts)| && form.texts[index] == value
      ensures forall i :: 0 <= i < |form.texts| && i != index ==> form.texts[i] == old(form.texts[i])
      ensures form == old(form).(texts := form.texts)
      ensures errors == old(errors)[TextKey(index) := ""]
    {
      var updatedTexts := form.texts[index := value];
      form := form.(texts := updatedTexts);
      errors := errors[TextKey(index) := ""];
    }

    method HandleAddText()
      requires Valid()
      modifies this`form
      ensures Valid()
      ensures form.texts == old(form.texts) + [""]
      ensures form == old(form).(texts := form.texts)
    {
      form := form.(texts := form.texts + [""]);
    }

    /** No guard against removing the last line: only the view hides the button then. */
    method HandleRemoveText(index: int)
      requires Valid()
      modifies this`form
      ensures Valid()
      ensures form.texts == WithoutIndex(old(form.texts), index)
      ensures form == old(form).(texts := form.texts)
    {
      var updatedTexts := WithoutIndex(form.texts, index);
      form := form.(texts := updatedTexts);
    }

    method HandleFileRemove()
      requires Valid()
      modifies this`selectedFile, this`form
      ensures Valid()
      ensures selectedFile.None?
      ensures form == old(form).(image := ImageRef(None, None))
    {
      selectedFile := None;
      form := form.(image := ImageRef(None, None));
    }

    /** Replaces the whole error map and returns whether it is empty. */
    method ValidateForm() returns (ok: bool)
      requires Valid()
      modifies this`errors
      ensures Valid()
      ensures ReportsErrors(form, errors)
      ensures ok <==> errors == map[]
      ensures ok <==> FormIsValid(form)
    {
      var newErrors := CollectErrors(form);
      errors := newErrors;
      ok := |newErrors| == 0;
      NoErrorsIffValid(form, newErrors);
    }

    /**
     * Validates; on failure changes nothing but the errors.  Otherwise
     * creates or updates by the form's id, then reloads the list, then resets
     * the form and closes the popup.
     */
    method HandleSubmit(fetched: seq<Banner>, today: string) returns (requests: seq<Request>)
      requires Valid()
      modifies this
      ensures Valid()
      ensures ReportsErrors(old(form), errors)
      ensures !FormIsValid(old(form)) ==>
                && requests == []
                && form == old(form) && banners == old(banners)
                && isEdit == old(isEdit) && isPopupOpen == old(isPopupOpen)
                && selectedFile == old(selectedFile)
      ensures FormIsValid(old(form)) ==>
                && requests == [if old(isEdit) then UpdateBanner(old(form).id, old(form))
                                else CreateBanner(old(form)),
                                ListBanners]
                && banners == BannerService.GetBanners(fetched)
                && form == DefaultForm(today) && errors == map[]
                && !isEdit && !isPopupOpen && selectedFile.None?
    {
      ghost var submittedForm := form;
      var ok := ValidateForm();
      ghost var reported := errors;
      assert ReportsErrors(submittedForm, reported);
      assert ok <==> FormIsValid(submittedForm);
      if !ok {
        assert !FormIsValid(old(form)) && unchanged(this`form, this`banners, this`isEdit, this`isPopupOpen, this`selectedFile);
        return [];
      }
      assert FormIsValid(old(form)) && ok;
      var submitted := if !isEdit then CreateBanner(form) else UpdateBanner(form.id, form);
      requests := [submitted] + [ListBanners];
      var shown := BannerService.GetBanners(fetched);
      assert BannerService.NoPaused(shown) && BannerService.SortedByOrderDesc(shown);
      banners := shown;
      selectedFile := None;
      form := DefaultForm(today);
      HandleClosePopup(today);
      assert errors == reported;
    }

    /**
     * Enters edit mode, then, when the banner has image data, selects the
     * file `base64ToFile` rebuilds from it and writes the image name into the
     * file input; then loads the banner into the form and opens the popup.
     * Two steps can throw out of the handler, after which the remaining
     * steps do not run but the state already set stays set:
     *  - `atob` rejects the stored data (`DecodeFailed`): only edit mode is set;
     *  - the file input exists (it is rendered only inside the open popup) and
     *    refuses a value other than "" (`FileInputRejected`): edit mode and
     *    the selected file are set, the form is not replaced.
     */
    method HandleEdit(banner: Banner) returns (thrown: Option<EditError>)
      requires Valid()
      modifies this`isEdit, this`selectedFile, this`form, this`isPopupOpen
      ensures Valid()
      ensures isEdit
      ensures !HasImageData(banner.image) ==>
                thrown.None? && selectedFile == old(selectedFile) && form == banner && isPopupOpen
      ensures HasImageData(banner.image) ==>
                var decoded := DataUriToFile(banner.image.data.value, FileNameOf(banner.image.name));
                && (decoded.Err? ==>
                      thrown == Some(DecodeFailed) && selectedFile == old(selectedFile)
                      && form == old(form) && isPopupOpen == old(isPopupOpen))
                && (decoded.Ok? ==> selectedFile == Some(decoded.value))
                && (decoded.Ok? && old(isPopupOpen) && FileNameOf(banner.image.name) != "" ==>
                      thrown == Some(FileInputRejected) && form == old(form) && isPopupOpen)
                && (decoded.Ok? && (!old(isPopupOpen) || FileNameOf(banner.image.name) == "") ==>
                      thrown.None? && form == banner && isPopupOpen)
    {
      isEdit := true;
      if HasImageData(banner.image) {
        var file := Base64ToFile(banner.image.data.value, FileNameOf(banner.image.name));
        if file.Err? {
          return Some(DecodeFailed);
        }
        selectedFile := Some(file.value);
        if isPopupOpen && FileNameOf(banner.image.name) != "" {
          return Some(FileInputRejected);
        }
      }
      form := banner;
      HandleOpenPopup();
      thrown := None;
    }

    method HandleDelete(id: string, fetched: seq<Banner>) returns (requests: seq<Request>)
      requires Valid()
      modifies this`banners
      ensures Valid()
      ensures requests == [DeleteBanner(id), ListBanners]
      ensures banners == BannerService.GetBanners(fetched)
    {
      requests := [DeleteBanner(id), ListBanners];
      banners := BannerService.GetBanners(fetched);
    }
  }
}
