# User form state and card initials

This project models the two pieces of logic in the users front-end of
`alx-project-0x01`. Everything else in that front-end is markup or a one-shot fetch.

* **The "Add New User" modal** (`components/common/UserModal.tsx`). It holds one nested
  user record, `formData`, whose leaves all start as `""`. Every input event carries
  an input `name`. A name without a dot replaces a top-level key. A dotted name is
  split on `.`, and only the first three pieces are used. The value is merged one or
  two levels deep by object spreads, so every sibling at every level is kept. Submit
  hands the record, unchanged, to the caller's `onSubmit` callback and then calls
  `onClose`.
* **The avatar initials on a user card** (`components/common/UserCard.tsx`, line 19).
  The name is split on `' '`. Each piece contributes its first character, or nothing
  when the piece is empty. The characters are joined with no separator.

Files:

* `split.dfy`, module `StringSplit`: JavaScript's `split` with a one-character
  separator, and its inverse `Join`. Both the modal and the card use it.
* `user_modal.dfy`, module `UserModal`:
  * the record as a tree of values, `Val = Str(string) | Obj(map<string, Val>)`;
  * the parsing of input names into paths (`ParsePath`);
  * the pure updater (`Update`);
  * what an input displays (`Get`);
  * a `Modal` class whose `formData` field each `HandleInputChange` replaces, and whose
    `HandleSubmit` records the calls to `onSubmit` and `onClose`.
* `user_card.dfy`, module `UserCard`: `Initials`, proved equal to an independent
  definition that scans the name for word starts.

An object spread followed by one computed key, `{...obj, [k]: v}`, is modelled as the
map update `obj[k := v]`. Spreading `undefined` adds no keys, so it is the empty map
(`SpreadAt`).

## Model

| member | source | states |
|---|---|---|
| `StringSplit.Split` | alx-project-0x01/components/common/UserModal.tsx:32 | There is always at least one piece. |
| `StringSplit.SplitCount` | alx-project-0x01/components/common/UserModal.tsx:32 | There are at least two pieces exactly when the string holds the separator. |
| `StringSplit.SplitPiecesLackSeparator` | alx-project-0x01/components/common/UserModal.tsx:32 | No piece holds the separator. |
| `StringSplit.JoinSplit` | alx-project-0x01/components/common/UserModal.tsx:32 | Joining the pieces of a split with the separator gives back the original string. |
| `StringSplit.SplitJoin` | alx-project-0x01/components/common/UserModal.tsx:32 | Splitting a join of separator-free pieces gives back the pieces. |
| `StringSplit.SplitPrefix` | alx-project-0x01/components/common/UserModal.tsx:32 | A separator-free prefix joins the first piece of what follows it. |
| `StringSplit.SplitConcat` | alx-project-0x01/components/common/UserCard.tsx:19 | Splitting `a + sep + b` gives the pieces of `a` followed by the pieces of `b`. |
| `UserModal.Initial` | alx-project-0x01/components/common/UserModal.tsx:5-26 | The initial record has exactly the top-level keys `name, username, email, address, phone, website, company`. |
| `UserModal.InitialRecord` | alx-project-0x01/components/common/UserModal.tsx:5-26 | `address` has exactly the keys `street, suite, city, zipcode, geo`, `geo` has `lat, lng`, and `company` has `name, catchPhrase, bs`. |
| `UserModal.InitialLeavesEmpty` | alx-project-0x01/components/common/UserModal.tsx:5-26 | Every leaf of the initial record is `""`. |
| `UserModal.Segments` | alx-project-0x01/components/common/UserModal.tsx:32 | A path has one to three pieces. |
| `UserModal.WellFormedIsRoundTrip` | alx-project-0x01/components/common/UserModal.tsx:31-37 | A path is well-formed exactly when parsing its own dotted name gives it back. |
| `UserModal.ParsePath` | alx-project-0x01/components/common/UserModal.tsx:31-37 | A name parses to a top-level key exactly when it has no dot. The parsed path is well-formed: no piece holds a dot, and a third piece is never empty. |
| `UserModal.ParseRender` | alx-project-0x01/components/common/UserModal.tsx:31-37 | Parsing the dotted name of a well-formed path gives that path back. |
| `UserModal.ExtraSegmentsIgnored` | alx-project-0x01/components/common/UserModal.tsx:32 | A name with more than three pieces parses like its first three pieces. |
| `UserModal.EmptyThirdSegment` | alx-project-0x01/components/common/UserModal.tsx:37 | `"f.s."` has an empty, falsy third piece, so it takes the two-level update on `f`, `s`. |
| `UserModal.Get` | alx-project-0x01/components/common/UserModal.tsx:90-295 | An input shows a value only when the first piece of its name is a top-level key. A top-level name bound to a string shows it (`formData.name`). A two-piece name shows the string at `rec[f][s]` (`formData.address.street`), and a three-piece name the string at `rec[f][s][n]` (`formData.address.geo.lat`). |
| `UserModal.LeafApplicable` | alx-project-0x01/components/common/UserModal.tsx:33-51 | An event on any well-formed path that reaches an existing leaf can run: it spreads no string and reads no key of `undefined`. |
| `UserModal.NamesInitialLeaf` | alx-project-0x01/components/common/UserModal.tsx:5-26 | The dotted name of a well-formed path that reaches an empty initial leaf parses back to that path and reads `""`. |
| `UserModal.FormFieldsResolve` | alx-project-0x01/components/common/UserModal.tsx:89-294 | Each of the fourteen input names is the canonical name of its path and reads `""` in the initial record. |
| `UserModal.Update` | alx-project-0x01/components/common/UserModal.tsx:28-53 | After the update, reading the same name gives `value` (read-after-write). The same event can be applied again. The top-level keys are the old ones plus the first piece of the name. |
| `UserModal.UpdateKeyFrame` | alx-project-0x01/components/common/UserModal.tsx:47-51 | A dot-free name sets that top-level key to `value`. Every other top-level key is unchanged. |
| `UserModal.UpdateMemberFrame` | alx-project-0x01/components/common/UserModal.tsx:33-46 | `f.s` sets `rec[f][s]` to `value`. The other keys of `rec[f]` and every other top-level key are unchanged. The key sets grow only by `f` and `s`. |
| `UserModal.UpdateNestedFrame` | alx-project-0x01/components/common/UserModal.tsx:33-46 | `f.s.n` sets `rec[f][s][n]` to `value`. Siblings inside `rec[f][s]`, the other keys of `rec[f]` and all other top-level keys are unchanged. The top-level key set is unchanged. |
| `UserModal.DisjointHead` | alx-project-0x01/components/common/UserModal.tsx:33-51 | A one-piece path parts ways with another only by a different first piece. |
| `UserModal.DisjointTail` | alx-project-0x01/components/common/UserModal.tsx:33-51 | Two paths that part ways and share a first piece part ways after it. |
| `UserModal.UpdateKeepsOtherLeaves` | alx-project-0x01/components/common/UserModal.tsx:33-51 | Every leaf on a path that parts ways with the updated path reads the same as before. |
| `UserModal.LastWriteWins` | alx-project-0x01/components/common/UserModal.tsx:33-51 | Two updates of the same name leave only the second value. |
| `UserModal.UpdateIdempotent` | alx-project-0x01/components/common/UserModal.tsx:33-51 | Applying the same event twice gives the same record as applying it once. |
| `UserModal.ShapeReplace` | alx-project-0x01/components/common/UserModal.tsx:33-51 | Replacing one entry by a value of the same shape keeps the object's shape. |
| `UserModal.ShapeEntries` | alx-project-0x01/components/common/UserModal.tsx:5-26 | Two objects of the same shape have the same keys, and their entries have matching shapes. |
| `UserModal.SameShapeSameLeaves` | alx-project-0x01/components/common/UserModal.tsx:5-26 | Values of the same shape have leaves at the same paths. |
| `UserModal.UpdateLeafKeepsShape` | alx-project-0x01/components/common/UserModal.tsx:33-51 | An event on a name that reaches an existing leaf can run, and it keeps the record's shape. |
| `UserModal.FormEventKeepsShape` | alx-project-0x01/components/common/UserModal.tsx:28-53 | On a record of the user shape, any input of the form can fire, and the record keeps the user shape. |
| `UserModal.FormEventsApplicable` | alx-project-0x01/components/common/UserModal.tsx:28-53 | On a record of the user shape, every input of the form can fire. |
| `UserModal.UserShapedKeys` | alx-project-0x01/components/common/UserModal.tsx:5-26 | A record of the user shape has the initial keys at every level. Every input name reaches one of its leaves. |
| `UserModal.LeavesDisjoint` | alx-project-0x01/components/common/UserModal.tsx:33-51 | Two different paths that both reach leaves part ways somewhere. |
| `UserModal.FormFieldsIndependent` | alx-project-0x01/components/common/UserModal.tsx:33-51 | On a user-shaped record, an event on one input leaves what every other input shows unchanged. |
| `UserModal.Replay` | alx-project-0x01/components/common/UserModal.tsx:28-53 | Any stream of form events, applied in order, keeps the record user-shaped. |
| `UserModal.ReplayShowsLastWrite` | alx-project-0x01/components/common/UserModal.tsx:28-53 | After any stream of form events, each input shows the value of its last event, or its earlier value when it had no event. |
| `UserModal.ReplayKeepsKeys` | alx-project-0x01/components/common/UserModal.tsx:5-53 | Starting from the initial record, any stream of form events keeps the key set identical at every level. |
| `UserModal.Modal.constructor` | alx-project-0x01/components/common/UserModal.tsx:5-26 | The modal starts with the initial record and no callback calls. The record is user-shaped, so every input of the form can fire. |
| `UserModal.Modal.HandleInputChange` | alx-project-0x01/components/common/UserModal.tsx:28-53 | It runs for any event that can run, and for every input of the form while the modal is valid. `formData` becomes `Update(old formData, name, value)`. No callback is called. An input of the form keeps the modal valid. |
| `UserModal.Modal.HandleSubmit` | alx-project-0x01/components/common/UserModal.tsx:55-59 | The current record goes to `onSubmit` unchanged and unvalidated, and then `onClose` is called. `formData` is unchanged, so the modal stays valid. |
| `UserCard.Head` | alx-project-0x01/components/common/UserCard.tsx:19 | A piece contributes a prefix of itself of at most one character. The contribution is empty exactly when the piece is empty, as `n[0]` is `undefined` and joins as `""`. |
| `UserCard.JoinHeads` | alx-project-0x01/components/common/UserCard.tsx:19 | Joining the contributions gives at most one character per piece. |
| `UserCard.Initials` | alx-project-0x01/components/common/UserCard.tsx:19 | The initials hold no space and only characters of the name, and they are no longer than the name. |
| `UserCard.WordStartsFrom` | alx-project-0x01/components/common/UserCard.tsx:19 | The word starts hold no space. Each of them is a character of the input, and there are no more of them than input characters. |
| `UserCard.ScanMatchesSplit` | alx-project-0x01/components/common/UserCard.tsx:19 | The word-start scan equals the joined first characters of the split pieces. After a space it covers all pieces; inside a word it covers all pieces but the current one. |
| `UserCard.InitialsAreWordStarts` | alx-project-0x01/components/common/UserCard.tsx:19 | The initials are exactly the non-space characters that start the name or follow a space. |
| `UserCard.NonEmpty` | alx-project-0x01/components/common/UserCard.tsx:19 | The filtered pieces are all non-empty. |
| `UserCard.JoinHeadsOfNonEmpty` | alx-project-0x01/components/common/UserCard.tsx:19 | Joining the contributions gives one character per non-empty piece: its first, in piece order. |
| `UserCard.InitialsAreTokenHeads` | alx-project-0x01/components/common/UserCard.tsx:19 | The initials are the first characters of the non-empty space-separated pieces, in order. Their length is the number of such pieces. |
| `UserCard.JoinHeadsAppend` | alx-project-0x01/components/common/UserCard.tsx:19 | Joining contributions distributes over concatenation of the piece lists. |
| `UserCard.InitialsConcat` | alx-project-0x01/components/common/UserCard.tsx:19 | The initials of `a + " " + b` are the initials of `a` followed by those of `b`. |
| `UserCard.EmptyName` | alx-project-0x01/components/common/UserCard.tsx:19 | An empty name gives empty initials. |
| `UserCard.LeadingSpaceIgnored` | alx-project-0x01/components/common/UserCard.tsx:19 | A leading space makes an empty first piece, which contributes nothing. |
| `UserCard.TrailingSpaceIgnored` | alx-project-0x01/components/common/UserCard.tsx:19 | A trailing space makes an empty last piece, which contributes nothing. |
| `UserCard.DoubledSpaceIgnored` | alx-project-0x01/components/common/UserCard.tsx:19 | A doubled space makes an empty middle piece, which contributes nothing. |
| `UserCard.SingleWord` | alx-project-0x01/components/common/UserCard.tsx:19 | A name without spaces gives its first character, or nothing when it is empty. |
| `UserCard.SingleWordName` | alx-project-0x01/components/common/UserCard.tsx:19 | `"Madonna"` gives `"M"`. |
| `UserCard.TwoWords` | alx-project-0x01/components/common/UserCard.tsx:19 | Two non-empty words joined by one space give the first letter of each word. |
| `UserCard.TwoWordName` | alx-project-0x01/components/common/UserCard.tsx:19 | `"Leanne Graham"` gives `"LG"`. |

## Left out

- `UserModal.Update`: requires `Applicable`. This excludes spreading a string into an object, as `"name.x"` would do on the user shape. It also excludes the depth-three update when `rec[field]` is absent: line 39 then reads a key of `undefined`, which throws a `TypeError`. Neither can happen for the form's own inputs (`FormEventKeepsShape`). A two-piece name whose first piece is absent is modelled as JavaScript runs it: a new top-level object holding one key.
- `UserModal.Modal.HandleInputChange`: it requires that the event can run (`Applicable`), or that the modal is valid and the name is one of the form's inputs. React's `setFormData(prev => ...)` scheduling is modelled as an immediate assignment, with events applied in arrival order. Re-rendering is not modelled.
- `UserModal.Modal.HandleSubmit`: `e.preventDefault()` and the browser's `required`-field check, which can block a submit before the handler runs, are not modelled. The callbacks `onSubmit` and `onClose` belong to the caller, so the model records the calls in order in the `calls` field.
- Adding the submitted user to the displayed list with id `length + 1`: the code that does this is not part of the files modelled here.
- `getStaticProps` (`pages/users/index.tsx:20-29`): a network fetch and a JSON parse, which is I/O.
- The users page list (`pages/users/index.tsx:5-18`) and `components/layout/Header.tsx` and `Footer.tsx`: markup with no logic.
- All JSX markup in both components, including the `mailto:` and `https://` link templates in `UserCard.tsx` (lines 34 and 48): presentation only.
- `UserCard.Initials`: strings are sequences of characters, so the UTF-16 surrogate halves that `n[0]` can return for characters outside the Basic Multilingual Plane are not modelled.
