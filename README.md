# Meme generator core in Dafny

This project models the state-keeping core of a mobile meme generator. The core has three parts.

- **The meme store** (`contexts/MemeContext.tsx`). It is an in-memory list of saved meme records, mirrored as one serialised list under the key `saved_memes` of a persistent key/value store. Saving, deleting, updating and toggling a favourite each work the same way. First the next list is computed with a prepend, a filter or a map. Then memory is set to it. Only then is the whole list written to the store. A failed write is reported to the caller, but memory keeps the new list, because nothing is rolled back. Loading sorts the stored records by creation time, newest first. Clearing empties memory and removes the key.
- **The URL field of the image selector** (`components/ImageSelector.tsx`). The typed text is trimmed and refused when blank, then refused when the device is offline. Otherwise it is checked against the image-URL pattern `^https?://.+\.(jpg|jpeg|png|gif|webp)(\?.*)?$` with the `i` flag, and handed to the selection callback. The field is cleared only after a successful selection. The busy flag is raised around the check and lowered on every exit. Six preset Pexels URLs are offered as popular images.
- **The caption-editing dialog** (`components/EditMemeModal.tsx`). Its fields start as the record's captions and accept at most 50 UTF-16 code units. Saving builds a copy of the record with the trimmed captions and a fresh update time, and hands it to the store's update. The dialog closes only if that update succeeds. The busy flag is lowered on both paths.

The files are:

- `wrappers.dfy`: the `Option` type.
- `text.dfy` (`Text`): JavaScript's `String.prototype.trim`, over the exact white-space and line-terminator set of ECMAScript, and JavaScript's `length` in UTF-16 code units.
- `meme_context.dfy` (`MemeContext`): the record type, the next-list functions with their lemmas, the stable newest-first sort, and the `MemeProvider` class.
- `image_selector.dfy` (`ImageSelection`): the pattern's meaning as a decomposition of the string, a decision procedure proved equivalent to it, the presets, and the `ImageSelector` class.
- `edit_meme_modal.dfy` (`EditMeme`): the edited-record construction and the `EditMemeModal` class.

Storage outcomes, connectivity, and whether a callback throws are boolean parameters of the methods that meet them. Time is an integer parameter. The provider's mount-time load (`contexts/MemeContext.tsx:33-35`) appears in the scenario methods `ReloadAfterSave`, `ReloadAfterClear` and `UpdateWriteFails`, each of which mounts a provider as `new` followed by `LoadMemes`.

## Model

| member | source | states |
|---|---|---|
| Text.Trim | components/ImageSelector.tsx:77 | The trimmed text is no longer than the input. It is empty exactly when the input is all white space or line terminators. Otherwise it begins and ends with a character that is neither. |
| Text.TrimStrips | components/ImageSelector.tsx:96 | The trimmed text is a contiguous slice of the input, and everything cut off on either side is white space. |
| Text.TrimIdempotent | components/EditMemeModal.tsx:32-33 | Trimming a trimmed string changes nothing. |
| Text.Utf16Length | components/EditMemeModal.tsx:99 | JavaScript `length` counts each character once, or twice when it lies outside the Basic Multilingual Plane. So it lies between the character count and twice that count. |
| Text.Utf16LengthTrim | components/EditMemeModal.tsx:32-33 | Trimming never lengthens a caption, counted in code units. |
| MemeContext.Without | contexts/MemeContext.tsx:67 | Deleting by id keeps exactly the records whose id differs. The list shrinks exactly when some record carries the id. |
| MemeContext.Replaced | contexts/MemeContext.tsx:73-75 | The update keeps the length. Every record with the updated id becomes the new record. Every other record is untouched. |
| MemeContext.Toggled | contexts/MemeContext.tsx:81-83 | The toggle keeps the length. Records differ from the originals only in the favourite flag, and that flag changes exactly on the records with the given id. |
| MemeContext.InsertDesc | contexts/MemeContext.tsx:42-44 | Inserting into a newest-first list gives a newest-first list holding the same records plus the new one. |
| MemeContext.SortByCreatedDesc | contexts/MemeContext.tsx:42-44 | Loading's sort yields a newest-first permutation of the stored records. |
| MemeContext.SortStable | contexts/MemeContext.tsx:42-44 | Records with equal creation times keep their stored relative order, as the stable `Array.prototype.sort` guarantees. |
| MemeContext.SortSortedIdentity | contexts/MemeContext.tsx:42-44 | An already newest-first list loads back unchanged. |
| MemeContext.InsertDescAtTime | contexts/MemeContext.tsx:42-44 | Inserting one record adds it to its timestamp's group ahead of the equal-time records and leaves every other group alone. |
| MemeContext.WithoutAppend | contexts/MemeContext.tsx:67 | Deleting distributes over concatenation, so relative order is kept. |
| MemeContext.WithoutIdempotent | contexts/MemeContext.tsx:66-70 | Deleting the same id twice is deleting it once. |
| MemeContext.WithoutNoMatch | contexts/MemeContext.tsx:67 | Deleting an id no record carries leaves the list as it is. |
| MemeContext.WithoutKeepsSorted | contexts/MemeContext.tsx:66-70 | Deleting keeps the list newest first. |
| MemeContext.WithoutKeepsUnique | contexts/MemeContext.tsx:66-70 | Deleting keeps the ids distinct. |
| MemeContext.ReplacedNoMatch | contexts/MemeContext.tsx:73-75 | Updating with an id no record carries leaves the list as it is. |
| MemeContext.ReplacedIdempotent | contexts/MemeContext.tsx:72-78 | Updating twice with the same record is updating once. |
| MemeContext.ReplacedKeepsInvariants | contexts/MemeContext.tsx:72-78 | Updating with any record keeps every id in place and keeps the ids distinct. It keeps the list newest first when the new record carries the creation time of the records it replaces. |
| MemeContext.ToggledInvolution | contexts/MemeContext.tsx:80-86 | Toggling the same id twice restores the list. |
| MemeContext.ToggledKeepsInvariants | contexts/MemeContext.tsx:80-86 | Toggling keeps the list newest first and its ids distinct. |
| MemeContext.SavedKeepsSorted | contexts/MemeContext.tsx:61 | Prepending to a sorted list keeps it sorted if and only if the new record is at least as new as the old head. |
| MemeContext.NewestAheadOfSorted | contexts/MemeContext.tsx:40-44 | A record at least as new as every stored one, placed in front of the sorted collection, survives another load's sort unchanged. |
| MemeContext.MemeProvider.constructor | contexts/MemeContext.tsx:31 | A provider starts with an empty in-memory list over whatever the store holds. |
| MemeContext.MemeProvider.LoadMemes | contexts/MemeContext.tsx:37-49 | A successful read of a present key sets memory to the stored list sorted newest first. A missing key or a failed read leaves memory as it was. |
| MemeContext.MemeProvider.SaveMemes | contexts/MemeContext.tsx:51-58 | A successful write stores exactly the given list. A failed write leaves the store as it was and is reported to the caller. |
| MemeContext.MemeProvider.SaveMeme | contexts/MemeContext.tsx:60-64 | Memory becomes the new record followed by the old list, whether or not the write succeeds. The store holds memory exactly when the write succeeds. |
| MemeContext.MemeProvider.DeleteMeme | contexts/MemeContext.tsx:66-70 | Memory becomes the list without the id's records, even when the write fails. The store holds memory exactly when the write succeeds. |
| MemeContext.MemeProvider.UpdateMeme | contexts/MemeContext.tsx:72-78 | Memory becomes the list with the id's records replaced, even when the write fails. The store holds memory exactly when the write succeeds. |
| MemeContext.MemeProvider.ToggleFavorite | contexts/MemeContext.tsx:80-86 | Memory becomes the list with the id's favourite flags flipped, even when the write fails. The store holds memory exactly when the write succeeds. |
| MemeContext.MemeProvider.ClearAllMemes | contexts/MemeContext.tsx:88-91 | Memory is emptied unconditionally. The key is removed exactly when the removal succeeds. |
| MemeContext.MemeProvider.RefreshMemes | contexts/MemeContext.tsx:93-95 | Refreshing is loading again. |
| MemeContext.ReloadAfterSave | contexts/MemeContext.tsx:33-64 | Mount over any stored collection, save a record at least as new as every stored one, and restart. Memory holds the new record ahead of the loaded list sorted newest first, and the restart loads back exactly that list. |
| MemeContext.ReloadAfterClear | contexts/MemeContext.tsx:33-91 | Mount over any stored value, then clear successfully. A restart then loads nothing. |
| MemeContext.UpdateWriteFails | contexts/MemeContext.tsx:33-78 | Mount over a stored collection, then update with a failed write. Memory holds the update of the loaded, sorted list, while the store keeps the collection exactly as it was, unsorted if it was unsorted. |
| ImageSelection.IsImageUrlMatchesPattern | components/ImageSelector.tsx:95-96 | The decision procedure accepts a string exactly when the string is `http` or `https` (any case), then `://`, then a non-empty body, then a dot and one of the five extensions (any case), then an optional `?` query. The body and query must contain no line terminators, and nothing else may follow. |
| ImageSelection.IsImageUrl | components/ImageSelector.tsx:95-96 | The URL test as a decision procedure. Every URL it accepts is at least twelve characters long, the length of `http://a.gif`. Its full meaning is `IsImageUrlMatchesPattern`. |
| ImageSelection.IsImageUrlSound | components/ImageSelector.tsx:95 | Every string the decision procedure accepts decomposes as the pattern requires. |
| ImageSelection.IsImageUrlComplete | components/ImageSelector.tsx:95 | Every string that decomposes as the pattern requires is accepted by the decision procedure. |
| ImageSelection.PopularImagesAccepted | components/ImageSelector.tsx:110-117 | There are six presets, and every one of them matches the URL pattern. |
| ImageSelection.PexelsUrlAccepted | components/ImageSelector.tsx:110-117 | Every preset-shaped URL whose photo path has no line terminator matches the pattern. |
| ImageSelection.ImageSelector.constructor | components/ImageSelector.tsx:17-18 | The field starts empty and the busy flag lowered. |
| ImageSelection.ImageSelector.SetUrlInput | components/ImageSelector.tsx:151-152 | Typing into the URL field sets the field to the typed text, uncapped. |
| ImageSelection.ImageSelector.LoadImageFromUrl | components/ImageSelector.tsx:76-108 | A blank field is refused first and an offline device second, and both change nothing. Otherwise the busy flag is raised and then lowered on every exit. The outcome is an invalid URL, a thrown selection, or a selection of the trimmed text. The field is cleared only after a successful selection. |
| ImageSelection.SelectedUriProperties | components/ImageSelector.tsx:96-101 | What the selection callback receives matches the pattern, is already trimmed, and neither begins nor ends with white space. |
| EditMeme.Capped | components/EditMemeModal.tsx:99 | A caption field holds at most 50 UTF-16 code units, which is what `maxLength` and JavaScript `length` count. It holds a prefix of the entered text: all of it exactly when it fits, and otherwise the longest prefix that fits without splitting a surrogate pair. |
| EditMeme.Edited | components/EditMemeModal.tsx:30-35 | The saved record differs from the original only in the two captions and the update time. In particular `id`, `createdAt`, `isFavorite` and the rendered `memeUri` are kept. The captions are the trimmed field texts, and the update time is the save time. |
| EditMeme.EditedIdempotent | components/EditMemeModal.tsx:30-35 | Saving the dialog again at the same instant, without editing, yields the same record. |
| EditMeme.EditKeepsInvariants | components/EditMemeModal.tsx:37 | Passing the edited record to the store's update changes no other record and puts the edit where the original stood. It keeps the list newest first and its ids distinct. |
| EditMeme.EditMemeModal.constructor | components/EditMemeModal.tsx:18-20 | The fields start as the record's captions, with the busy flag lowered. |
| EditMeme.EditMemeModal.SetTopText | components/EditMemeModal.tsx:97-99 | Entering text into the top field leaves it holding the capped text. |
| EditMeme.EditMemeModal.SetBottomText | components/EditMemeModal.tsx:109-111 | Entering text into the bottom field leaves it holding the capped text. |
| EditMeme.EditMemeModal.HandleSave | components/EditMemeModal.tsx:22-45 | The busy flag is raised, then lowered on both paths. The store's update receives the edited record. The dialog closes if and only if the update's write succeeds. The store's list becomes the update of the old list with that record. |
| EditMeme.SaveAfterTyping | components/EditMemeModal.tsx:18-37 | Whatever is entered, each saved caption is at most 50 UTF-16 code units long and is the trimmed capped text. The record keeps its id, its creation time and its rendered image. |

## Left out

- Rendering, styles, themes, icons, alerts, haptics and the `toUpperCase` display of captions are not modelled. They produce no state that the core reads back.
- Image picking, camera capture, permission requests, sharing and media-library export are not modelled. They are platform calls, and the model has no state for them.
- `components/MemeEditor.tsx` is not part of this model. Its generation step is a single call to an opaque rasteriser.
- `contexts/NetworkContext.tsx`, the network banner, the loading spinner, and the font and colour selectors are not part of this model. Connectivity enters only as the `isConnected` parameter.
- JSON serialisation and ISO date text are not modelled. Timestamps are integers whose order matches the order of the dates, and the store holds the list itself rather than its text. A stored value that fails to parse is covered by the failed-read branch of `LoadMemes`.
- MemeContext.MemeProvider.LoadMemes: a present but empty stored string is folded into the absent case. The provider only ever writes a serialised array, which is never empty.
- Concurrency is not modelled. Each handler runs to completion, so two overlapping saves that read the same stale list are not captured.
- The dialog's save button is disabled while a save is in flight. The model runs saves one at a time, so it does not need that guard.
- The presets are written as one `https://` prefix, a photo path and one shared suffix. Their concatenation spells exactly the six URLs of the source.
- Case-insensitive matching folds only ASCII letters, as a regular expression with `i` and without `u` does. The `.` of the pattern excludes the four ECMAScript line terminators.
- `ImageSelection.ImageSelector.LoadImageFromUrl`: the device's connectivity is read once per press and cannot change during it.
- EditMeme.Capped: entering text is modelled as the field receiving the whole new text, cut at its end. The platform cuts text inserted in the middle of a full field at the cursor instead, and that case is not modelled.
- EditMeme.EditMemeModal.SetTopText: the cap follows `EditMeme.Capped`, so text inserted mid-field is cut at its end rather than at the cursor.
- EditMeme.EditMemeModal.SetBottomText: the cap follows `EditMeme.Capped`, so text inserted mid-field is cut at its end rather than at the cursor.
- EditMeme.SaveAfterTyping: the caption bound holds for entered text capped as `EditMeme.Capped` describes. The initial captions are not capped, because `maxLength` limits typing only.
- The update time is the integer `now`, not the text of `new Date().toISOString()`.
- A store write that fails leaves memory ahead of the store until the next successful write or a reload, because the source has no rollback. The model states that behaviour (`UpdateWriteFails`) rather than a rollback.
