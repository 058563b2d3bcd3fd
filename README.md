# Banner manager: form controller, list post-processing and data-URI decoding

This project models the logic of a small banner-management screen.

- `App` (`app.dfy`, module `AppController`) is the React component.
  - It is a class with six fields: `banners`, `form`, `errors`, `isPopupOpen`, `isEdit` and `selectedFile`.
  - It has one method per event handler. Each method overwrites the fields the handler sets.
  - Every handler keeps the class invariant `Valid`: the list holds only what `getBanners` returns, with no paused banner and the largest `order` first.
  - `validateForm` rebuilds the error map rule by rule, with a loop over the text lines. Its result is pinned down exactly by `ReportsErrors`: which keys appear, under which condition, and with which message.
  - Server round trips are parameters. A handler that reloads the list receives what the server returned. It assigns `banners` from that, and returns the requests it made, in the order it awaited them.
- `getBanners` (`banner_service.dfy`, module `BannerService`) drops every banner whose status is `Tạm dừng`. It then sorts the rest with the comparator `b.order - a.order`.
  - The sort is a stable insertion sort, because `Array.prototype.sort` is stable.
  - The model proves that the result is exclusive of paused banners, non-increasing in `order`, and a permutation of the filtered input. It also proves that ties keep the server's order.
- `base64ToFile` (`banner.dfy`, module `BannerModel`) turns a `data:<mime>;base64,<payload>` string (section 3 of RFC 2397) back into a file. It is a method with the source's countdown copy loop, proved equal to the specification function `DataUriToFile`. The model includes:
  - `split(',')`;
  - the MIME type extracted by `/:(.*?);/`, with leftmost, lazy match semantics and `.` not crossing a line terminator;
  - the normalisation that the `File` constructor applies to its `type`.
- `atob` (`base64.dfy`, module `Base64`) is modelled as the forgiving-base64 decode of the WHATWG Infra Standard, over the alphabet of section 4 of RFC 4648.
  - Its partner is the padded encoder `Encode`, which is what `FileReader.readAsDataURL` produces.
  - `DecodeEncode` proves that decoding undoes encoding.
  - `DataUriRoundTrip` lifts that to whole data URIs: the file comes back with its name, exactly its bytes, and its MIME type normalised, for a type without parameters.

`trim()` is modelled exactly, with the ECMAScript WhiteSpace and LineTerminator code points. So is the regular-expression atom `.`, which matches anything except `\n`, `\r`, U+2028 and U+2029.

Three behaviours of the code are worth stating:

- The sort is stable, so banners with the same `order` keep the order the server listed them in (`GetBannersStable`).
- A payload that `atob` rejects makes `base64ToFile` throw. `atob` rejects a stripped length of 1 modulo 4, or a character outside the alphabet.
  - `atob` throws `InvalidCharacterError`, and `DataUriToFile` returns `Err`.
  - This includes a string with no comma at all. There `arr[1]` is `undefined`, `atob` receives the nine characters "undefined", and that length is 1 modulo 4 (`MissingPayloadFails`). This case is therefore an error path, not a precondition.
  - Other malformed payloads decode silently to unrelated bytes, and a head without `:…;` gives the type "". A plain-text data URI such as `data:text/plain,abcdef` yields a file of four bytes (`AlphabetPayloadDecodes`, `PlainTextDecodesQuietly`).
- A form may end up with no text lines: `handleRemoveText` has no guard against removing the last line.

## Model

| member | source | states |
|---|---|---|
| `AppController.App.constructor` | src/App.tsx:15-30 | The initial state: an empty list, the default form, an empty error map, the popup closed, not editing, and no selected file. |
| `AppController.App.Mount` | src/App.tsx:12-14 | The mount effect issues one list request, and `banners` becomes the `getBanners` result for what the server returned. |
| `AppController.App.HandleOpenPopup` | src/App.tsx:31-33 | Opens the popup and changes nothing else. |
| `AppController.App.HandleClosePopup` | src/App.tsx:35-53 | Clears the selected file, leaves edit mode, resets the form to the defaults and closes the popup. |
| `AppController.App.HandleChange` | src/App.tsx:54-60 | The edited field takes the new value, every other form field is kept, and that field's error becomes "" while the other errors are kept. |
| `AppController.App.HandleChangeImage` | src/App.tsx:62-79 | With no file, nothing changes. Otherwise the first file is selected. If encoding succeeds, `image` becomes `{name, data}` and the image error is blanked. If encoding fails, form and errors are kept. |
| `AppController.App.HandleTextChange` | src/App.tsx:81-86 | Only `texts[i]` changes, to `v`; the length and every other line are kept; `errors["texts_i"]` becomes "" and no other field changes. |
| `AppController.App.HandleAddText` | src/App.tsx:88-90 | Appends exactly one empty line and leaves the rest of the form unchanged. |
| `AppController.App.ValidateForm` | src/App.tsx:91-119 | Stores the error map that `ReportsErrors` prescribes for the form, and returns true exactly when that map is empty, which is exactly when the form is valid. |
| `AppController.CollectErrors` | src/App.tsx:92-116 | The map that is built has a key exactly for each failed rule, with that rule's message. `texts_i` is present exactly for the blank lines i, and no other key appears. |
| `AppController.NoErrorsIffValid` | src/App.tsx:117-118 | The map is empty if and only if every rule passes. |
| `AppController.ReportsDetermined` | src/App.tsx:92-117 | The map depends on the form alone, so a key that passed on a previous run is gone afterwards. |
| `AppController.DefaultFormErrors` | src/App.tsx:17-26 | Validating the default form reports exactly group, name, link, order, image and `texts_0`. |
| `AppController.KeyNameInjective` | src/App.tsx:108 | Distinct error keys have distinct property names, including the `texts_${index}` keys. |
| `AppController.DecimalRoundTrip` | src/App.tsx:108-110 | The decimal numeral printed in a key or message reads back as the index it was made from. |
| `AppController.TrimEmptyIffBlank` | src/App.tsx:97 | `trim()` gives "" exactly for strings made only of ECMAScript white space and line terminators. |
| `AppController.LinkRejectedIffNoMatch` | src/App.tsx:100 | The link is rejected exactly when it fails `^https?:\/\/.+$`; the emptiness test adds nothing. |
| `AppController.ImageKeyCount` | src/App.tsx:113 | `Object.keys(form.image).length` is 0 exactly when neither `name` nor `data` is set. |
| `AppController.DecimalString` | src/App.tsx:108-110 | The numeral printed by a template literal is non-empty and made only of the digits 0 to 9. |
| `AppController.KeyName` | src/App.tsx:108 | The property name of a key starts with `texts_` exactly when the key is a text-line key. |
| `AppController.TextMessage` | src/App.tsx:108-110 | The number shown in the message for line i reads back as i + 1. |
| `AppController.TextMessageFrame` | src/App.tsx:108-110 | Every text-line message starts with `Văn bản ` and ends with ` không được để trống.` |
| `AppController.Trim` | src/App.tsx:97 | `trim()` drops the leading and then the trailing ECMAScript white space. Its properties are stated by `TrimmedEnds` and `TrimEmptyIffBlank`. |
| `AppController.TrimmedEnds` | src/App.tsx:97 | The trimmed string is no longer than the input and, when non-empty, neither starts nor ends with white space. |
| `AppController.MatchesHttpUrl` | src/App.tsx:100 | A link that matches `^https?:\/\/.+$` starts with `http://` or `https://` and has at least one more character. |
| `AppController.LinkRejected` | src/App.tsx:100 | The link test of `validateForm`: blank after `trim()`, or not matching the pattern. `LinkRejectedIffNoMatch` states its meaning. |
| `AppController.ReportsErrors` | src/App.tsx:92-116 | The specification of the map `validateForm` builds: a key exactly for each failed rule, with that rule's message, `texts_i` exactly for the blank lines i, and no status key. `CollectErrors`, `NoErrorsIffValid` and `ReportsDetermined` state its consequences. |
| `AppController.DefaultForm` | src/App.tsx:17-26 | The defaults: no id, empty `group`, `name` and `link`, `order` 0, texts `[""]`, an image with no keys, status `Hiển thị`, and the given date stamp. |
| `AppController.WithoutIndexRemoves` | src/App.tsx:164 | Filtering out index i removes exactly position i and keeps the order of the rest. It is the identity when i is out of range, and it also empties a one-line list. |
| `AppController.WithoutIndex` | src/App.tsx:164 | The filtered list is one line shorter when the index is in range, and unchanged in length otherwise. |
| `AppController.FieldKey` | src/App.tsx:59 | The error that `handleChange` blanks is the edited field's own, and never the image's or a text line's. |
| `AppController.HasImageData` | src/App.tsx:150 | `banner.image.data` is truthy: present and non-empty. An image with data has at least one key. |
| `AppController.FileNameOf` | src/App.tsx:151-153 | `banner.image.name!` as the `File` constructor and the file input see it: the name itself when present, "undefined" when missing. It is "" exactly when the name is present and empty. |
| `AppController.App.HandleRemoveText` | src/App.tsx:163-166 | `texts` becomes the list without position i, and the rest of the form is unchanged. |
| `AppController.App.HandleFileRemove` | src/App.tsx:168-174 | Clears the selected file, sets `image` to `{}`, and leaves the rest of the form unchanged. |
| `AppController.App.HandleSubmit` | src/App.tsx:120-146 | If validation fails: no request, and form, list, flags and file are unchanged. If it passes: a create (or an update by `form.id` when editing) and then one reload, in that order. After that, the list is the reload's result, the form is reset, the popup is closed, and there is no edit mode and no file. The error map is what validation prescribed. |
| `AppController.App.HandleEdit` | src/App.tsx:148-157 | Edit mode is always entered. Without image data, the form becomes the banner and the popup opens. With image data, if `atob` throws, the handler stops and nothing else changes. Otherwise the selected file is the file `base64ToFile` builds, named by the image name. Then, if the popup is open and the name is not "", the file input rejects the name with `InvalidStateError`, and form and popup are kept. In every other case the form becomes the banner and the popup opens. |
| `AppController.App.HandleDelete` | src/App.tsx:159-162 | One delete request for the id, then one reload, and `banners` becomes the `getBanners` result. |
| `BannerService.RemovePaused` | src/BannerService.ts:14 | The filter keeps exactly the input records whose status is not `Tạm dừng`, and is no longer than its input. |
| `BannerService.RemovePausedCounts` | src/BannerService.ts:14 | The filter keeps each non-paused record as many times as the input holds it, and no paused one. |
| `BannerService.Insert` | src/BannerService.ts:14 | Inserting into a non-increasing list keeps it non-increasing and adds exactly that one element. |
| `BannerService.SortByOrderDesc` | src/BannerService.ts:14 | The result is non-increasing in `order` and a permutation of the input. |
| `BannerService.GetBanners` | src/BannerService.ts:14 | No paused banner, non-increasing in `order`, and a permutation of the filtered input. |
| `BannerService.GetBannersMembers` | src/BannerService.ts:14 | A record is listed exactly when the server returned it unmodified and it is not paused. The list is no longer than the server's. |
| `BannerService.RemovePausedNone` | src/BannerService.ts:14 | The filter is the identity on an input with no paused banner. |
| `BannerService.AllShownSortedPermutation` | src/BannerService.ts:14 | An input with no paused banner yields a sorted permutation of the whole input. |
| `BannerService.InsertWithOrder` | src/BannerService.ts:14 | Insertion places the new element in front of every element with the same `order`. |
| `BannerService.SortKeepsTies` | src/BannerService.ts:14 | The sort keeps the relative order of banners with equal `order`. |
| `BannerService.GetBannersStable` | src/BannerService.ts:14 | The listed banners with a given `order` are the server's non-paused banners with that `order`, in the server's order. |
| `BannerModel.Split` | src/Banner.ts:17 | The pieces contain no separator, there is at least one piece, and joining them with the separator gives back the input. |
| `BannerModel.SplitJoin` | src/Banner.ts:17 | Splitting undoes joining separator-free pieces. |
| `BannerModel.LazyEnd` | src/Banner.ts:18 | The lazy `.*?` ends at the first `;` unless a line terminator comes first. |
| `BannerModel.FirstMatch` | src/Banner.ts:18 | Finds the leftmost `:` from which `:(.*?);` matches, or reports that none exists. |
| `BannerModel.MimeType` | src/Banner.ts:18 | The text between the leftmost matching `:` and the next `;`, or "" when nothing matches. |
| `BannerModel.MimeOfDataUriHead` | src/Banner.ts:17-18 | For `data:M;base64` with no `;` or line terminator in M, the extracted type is exactly M. |
| `BannerModel.MissingPayloadFails` | src/Banner.ts:17-19 | Without a comma, `atob` receives "undefined", whose nine characters leave remainder 1 modulo 4, and the call fails with `InvalidCharacterError`. |
| `BannerModel.AlphabetPayloadDecodes` | src/Banner.ts:17-26 | A payload of alphabet characters whose length is not 1 modulo 4 always decodes, with 6/8 of its length in bytes. This holds even if it was never base64. A head without `;` gives the type "". |
| `BannerModel.PlainTextDecodesQuietly` | src/Banner.ts:16-27 | `data:text/plain,abcdef` does not throw: it yields a file of type "" holding four unrelated bytes. |
| `BannerModel.OnlySecondPieceDecoded` | src/Banner.ts:17-19 | Anything after a second comma is ignored. |
| `BannerModel.ToUint8` | src/Banner.ts:24 | Storing a character code below 256 into a `Uint8Array` keeps it unchanged. |
| `BannerModel.Uint8Codes` | src/Banner.ts:21-24 | The array has one byte per character of the binary string, and each code below 256 is stored unchanged. |
| `BannerModel.Payload` | src/Banner.ts:17-19 | `arr[1]`: the second piece of the split, or "undefined" when there is no comma. `MissingPayloadFails` states what then reaches `atob`. |
| `BannerModel.CopyBinaryString` | src/Banner.ts:23-25 | Copying the codes of a decoded binary string restores the bytes it was decoded to. |
| `BannerModel.FileType` | src/Banner.ts:26 | A non-empty extracted type gives "" exactly when it holds a character outside U+0020..U+007E. Otherwise the type keeps its length, every uppercase ASCII letter is lowered and every other character is kept. |
| `BannerModel.FileTypeKeeps` | src/Banner.ts:26 | A printable lowercase ASCII type is kept unchanged. |
| `BannerModel.FileTypeIdempotent` | src/Banner.ts:26 | Normalising twice is normalising once. |
| `BannerModel.DataUriToFile` | src/Banner.ts:16-27 | The specification of `base64ToFile`: an error exactly when `atob` throws on the payload, and otherwise a file with the given name. |
| `BannerModel.Base64ToFile` | src/Banner.ts:16-27 | The method's result, computed with the countdown copy loop, is the file that `DataUriToFile` describes, or `InvalidCharacterError` when `atob` throws. Loop invariant: indices at or above n are filled and those below n are still 0. |
| `BannerModel.DecodedFile` | src/Banner.ts:19-26 | The call fails exactly when `atob` throws. Otherwise the file has the given name and the normalised extracted type, and one byte per decoded character, equal to that character's code. |
| `BannerModel.DataUriRoundTrip` | src/Banner.ts:16-27 | A data URI made from a type free of `;`, `,` and line terminators and from the base64 of some bytes gives back a file with that name, that type (normalised) and exactly those bytes. |
| `Base64.SextetChar` | src/Banner.ts:19 | Each 6-bit value has an alphabet character that reads back as that value. |
| `Base64.DecodeSextets` | src/Banner.ts:19 | Every four 6-bit values give three bytes, and a trailing group of 3 or 2 values gives 2 or 1 bytes. |
| `Base64.Atob` | src/Banner.ts:19 | After whitespace and padding are stripped, `atob` fails exactly on a length with remainder 1 modulo 4 or a character outside the alphabet. Otherwise every code is below 256 and the length is 6/8 of the stripped length. |
| `Base64.EncodeDigits` | src/Banner.ts:31 | The unpadded digits are in the alphabet, and their length never leaves remainder 1 modulo 4. |
| `Base64.Encode` | src/Banner.ts:31 | The padded encoding is 4 characters per started 3-byte group and contains no comma. |
| `Base64.DecodeEncodeSextets` | src/Banner.ts:19 | Decoding the 6-bit values of some bytes gives those bytes back. |
| `Base64.CleanedEncoding` | src/Banner.ts:19 | Stripping whitespace and padding from an encoding leaves exactly its digits. |
| `Base64.DecodeEncode` | src/Banner.ts:19 | `atob` of the encoding of any byte sequence is the binary string of those bytes. |

## Left out

- The JSX markup, the table and the modal (src/App.tsx:175-422) are rendering. The handlers they call are modelled.
- `axios`, the environment-based URL selection, and `getBannerById`, `createBanner`, `updateBanner` and `deleteBanner` are network I/O.
  - A handler returns the `Request` values it would send, in order.
  - The list the server returns is a parameter.
  - Transport failures are not modelled.
- `convertToBase64` depends on `FileReader` callbacks. Its outcome is a parameter of `HandleChangeImage`. The encoder `Base64.Encode` stands for what `readAsDataURL` produces, as the partner of `atob`.
- `AppController.App.HandleEdit` models the file input by the popup flag: the input, and so `fileInputRef.current`, exists only while the popup is open. The assignment of a name other than "" to its `value` is modelled as the `InvalidStateError` it throws. The `value = ""` writes in `handleClosePopup`, `handleFileRemove` and `handleSubmit` reset an input that is not otherwise modelled, and the console output is a side effect with no state.
- The date from `toLocaleDateString("en-GB")` is a clock and locale effect. It is an opaque string parameter (`today`).
- Async interleaving is not modelled: double submits, and the stale `form` captured across `await` in `handleChangeImage`. Each handler runs to completion on the state it starts from.
- `AppController.FieldEdit`: `order` is the integer the number input's value converts to. The string the input actually stores, JavaScript's coercion of it in `form.order <= 0` and in the comparator, and non-integer numbers are not modelled.
- `AppController.App.HandleTextChange` requires `index < |form.texts|`, the only indices the view passes. The array growth that JavaScript performs for a larger index is not modelled.
- A handler that throws is modelled as returning the error. The updates it queued before the throw are applied, and the error reaching the browser console is not modelled.
- The `Uint8Array` and the `File` are modelled by their contents: the byte sequence, the name and the normalised type. The blob's other attributes (size, last-modified time) are not modelled.
- Strings are sequences of Unicode scalar values, while JavaScript strings are sequences of UTF-16 code units. Every character that `trim()` removes, and every line terminator, lies in the Basic Multilingual Plane, and every non-ASCII character fails the alphabet check of `atob`, so no modelled behaviour depends on the difference. A lone surrogate, which a JavaScript string can hold, cannot be represented.
