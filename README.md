# TimeLine page of timeline-visualizer, modelled in Dafny

The timeline-visualizer app keeps a list of milestones. Each milestone has a date, a name, a category, a note and an optional image. The list lives in the browser's local storage. The `TimeLine` page shows the milestones grouped by year, newest year first. Within a year they appear in date order. A modal form adds a milestone or edits one. The form checks that the date, the category and the note are filled in and shows an error under each missing field. A two-step confirmation deletes the milestone being edited.

This project models that page:

- `wrappers.dfy` holds `Option`.
- `seqs.dfy` holds a generic order-preserving `Filter` and its laws. These stand for JavaScript's `Array.prototype.filter`.
- `milestones.dfy` holds the milestone record and `emptyForm`. It also holds the pure operations the handlers apply:
  - field update and error clearing;
  - JavaScript's `trim`;
  - the required-field validation;
  - the edit-mode replace by id, the create-mode append with a fresh id, and the delete-by-id filter.
- `dates.dfy` models `parseDate`:
  - `split("-")`;
  - a strict `YYYY-MM-DD` reading of a real calendar day;
  - the day-first reassembly `${year}-${month}-${day}`, where a missing piece reads as the text `undefined`.
- `dateorder.dfy` models `sortedMilestones`. The engine's sort is stable, so the model is a stable insertion sort keyed by the parsed date.
- `yeargroups.dfy` models the `groupedByYear` reduce as a loop that pushes each item onto its year's bucket. It also models the descending sort of the bucket keys at line 141.
- `timeline.dfy` has class `TimeLine`. Its fields are the component's state: `mileStones`, `showModal`, `formData`, `isEdit`, `showConfirmDel` and `errors`, plus the storage slot. Its methods are the event handlers and the buttons that fire them. Each handler's `requires` names the UI state in which the page renders its control. For example, "Delete" exists only while an edit form is open. The invariant `Valid()` says two things:
  - the collection always mirrors the storage slot;
  - an open edit form holds the id of a stored milestone.

`openAddModal` (lines 37-41) resets the draft and the mode but does not clear `errors`, so the messages of an earlier failed save reappear when the form is opened again. The model's `OpenAddModal` leaves the error map as it was. A missing storage entry, or stored text that parses to a falsy value (`null`, `0`, `false`, `""`), falls back to `[]` (line 26); `JSON.parse` throws on malformed text. The model's slot is either empty or holds an array, so it covers the missing-entry case; the falsy stored texts are listed under "Left out".

## Model

| member | source | states |
|---|---|---|
| Seqs.Filter | timeline-visualizer/src/pages/TimeLine.jsx:102 | `filter` keeps exactly the input's elements that satisfy the predicate and never lengthens the input. FilterSnoc and FilterConcat fix the kept elements' order as the input's. |
| Seqs.FilterSnoc | timeline-visualizer/src/pages/TimeLine.jsx:102 | Filtering a sequence with one more element at the end gives the old filter, followed by that element exactly when the predicate holds for it. |
| Seqs.FilterConcat | timeline-visualizer/src/pages/TimeLine.jsx:109 | Filtering distributes over concatenation, so the kept elements keep their input order. |
| Seqs.FilterKeepsOrder | timeline-visualizer/src/pages/TimeLine.jsx:109 | Any relation between every earlier and every later element still holds in the filtered sequence. |
| Milestones.SetField | timeline-visualizer/src/pages/TimeLine.jsx:70-72 | The named field takes the new value. The other two text fields, the id, the name and the image stay the same. |
| Milestones.ClearError | timeline-visualizer/src/pages/TimeLine.jsx:54-56 | The error map keeps its keys. The touched field's message becomes "" if it had one. Every other message stays. |
| Milestones.TrimStart | timeline-visualizer/src/pages/TimeLine.jsx:81 | The result is a suffix of the input. Everything removed is JavaScript whitespace. The result does not begin with whitespace. |
| Milestones.TrimEnd | timeline-visualizer/src/pages/TimeLine.jsx:81 | The result is a prefix of the input. Everything removed is JavaScript whitespace. The result does not end with whitespace. |
| Milestones.Trim | timeline-visualizer/src/pages/TimeLine.jsx:81 | The result is the infix of the input that starts after its leading whitespace. Everything before and after that infix is JavaScript whitespace. |
| Milestones.TrimEndsNonBlank | timeline-visualizer/src/pages/TimeLine.jsx:81 | A non-empty trimmed result ends in a non-whitespace character, so the trailing whitespace is removed as well (together with Trim, the result is exactly the infix between the leading and the trailing whitespace). |
| Milestones.TrimEmptyIffBlank | timeline-visualizer/src/pages/TimeLine.jsx:81 | `trim()` yields the empty (falsy) string exactly when the string is all whitespace. |
| Milestones.Validate | timeline-visualizer/src/pages/TimeLine.jsx:77-83 | There is an error for the date exactly when it is empty, for the category exactly when it is empty, and for the note exactly when it trims to empty. Every message is "This field is required". The map is empty exactly when all three checks pass. |
| Milestones.ValidateMeaning | timeline-visualizer/src/pages/TimeLine.jsx:79-86 | The note error appears exactly for a blank note. The error map is empty, which lets the save go ahead, exactly for a complete draft. |
| Milestones.AllMissingRejected | timeline-visualizer/src/pages/TimeLine.jsx:77-83 | A draft with an empty date, an empty category and a blank note gets "This field is required" on all three fields. |
| Milestones.EmptyFormRejected | timeline-visualizer/src/pages/TimeLine.jsx:6-13 | `emptyForm` has a `null` id, an empty name and no image, and every field an input writes is empty. Saving it untouched reports all three required fields. |
| Milestones.ReplaceById | timeline-visualizer/src/pages/TimeLine.jsx:90 | The length is kept. Each position holds the draft if its id equals the draft's id, and otherwise its old element. |
| Milestones.AppendNew | timeline-visualizer/src/pages/TimeLine.jsx:92 | The old collection is an unchanged prefix. One element follows: the draft with its id replaced by the fresh id. |
| Milestones.Commit | timeline-visualizer/src/pages/TimeLine.jsx:88-93 | The save's commit in either mode keeps ids unique when the collection's ids are unique and, in create mode, the fresh id is not already used. |
| Milestones.RemoveById | timeline-visualizer/src/pages/TimeLine.jsx:102 | The survivors are exactly the elements whose id differs from the draft's. An id that is not present leaves the collection unchanged. |
| Milestones.ReplaceKeepsIds | timeline-visualizer/src/pages/TimeLine.jsx:90 | An edit leaves the sequence of ids unchanged, so unique ids stay unique. |
| Milestones.ReplaceIsPointUpdate | timeline-visualizer/src/pages/TimeLine.jsx:90 | With unique ids, an edit changes exactly the one element carrying the draft's id. |
| Milestones.AppendFreshKeepsUnique | timeline-visualizer/src/pages/TimeLine.jsx:92 | Adding appends the fresh id to the ids. When the ids were unique and the fresh id unused, they stay unique. |
| Milestones.RemoveConcat | timeline-visualizer/src/pages/TimeLine.jsx:102 | A delete distributes over concatenation, so the survivors keep their original order. |
| Milestones.RemoveKeepsUnique | timeline-visualizer/src/pages/TimeLine.jsx:102 | A delete never makes two ids equal. |
| Milestones.RemoveExactlyOne | timeline-visualizer/src/pages/TimeLine.jsx:101-105 | With unique ids, deleting a present id shortens the collection by exactly one. |
| Dates.Split | timeline-visualizer/src/pages/TimeLine.jsx:112 | `split("-")` yields at least one piece. No piece contains a hyphen. Joining the pieces with hyphens gives back the input. |
| Dates.SplitJoin | timeline-visualizer/src/pages/TimeLine.jsx:112-115 | Splitting a hyphen-join of hyphen-free pieces gives back those pieces. |
| Dates.IsoParse | timeline-visualizer/src/pages/TimeLine.jsx:113 | A successful reading has the `YYYY-MM-DD` shape and names a day that exists, in years 0 to 9999. The text read is exactly the zero-padded ISO text of the date it yields. |
| Dates.PadDigits | timeline-visualizer/src/pages/TimeLine.jsx:113 | Zero-padding a digit string's value to the string's own width gives the string back. |
| Dates.IsoShapeCanonical | timeline-visualizer/src/pages/TimeLine.jsx:113 | A `YYYY-MM-DD`-shaped digit string equals the padded text of its three numbers. |
| Dates.Piece | timeline-visualizer/src/pages/TimeLine.jsx:115-116 | A present destructured piece is that piece. A missing one interpolates as the nine-letter text "undefined". Neither contains a hyphen when the pieces come from a split. |
| Dates.ParseDate | timeline-visualizer/src/pages/TimeLine.jsx:111-117 | Every date `parseDate` yields is a day that exists. |
| Dates.DayFirstMatchesIso | timeline-visualizer/src/pages/TimeLine.jsx:111-117 | Two texts made of the same pieces parse to the same date: `dd-mm-yyyy` through the reassembly branch and `yyyy-mm-dd` through the ISO branch. |
| Dates.IsoRoundTrip | timeline-visualizer/src/pages/TimeLine.jsx:113 | The ISO reading inverts the zero-padded ISO text of every date. |
| Dates.ParseFormatted | timeline-visualizer/src/pages/TimeLine.jsx:111-117 | Every date of years 0 to 9999 written as ISO text or as day-first text parses back to itself. |
| Dates.NoHyphenUnparsable | timeline-visualizer/src/pages/TimeLine.jsx:115-116 | A date with no hyphen never parses, because its reassembly lacks the month and the year. |
| Dates.MissingPiecesUnparsable | timeline-visualizer/src/pages/TimeLine.jsx:112-116 | Under the strict `YYYY-MM-DD` reading, a date with fewer than three hyphen pieces parses in neither branch. The engine itself also reads forms such as `YYYY-MM`, so this is a property of the model's reading (see "Left out"). |
| Dates.FirstOfMarchExample | timeline-visualizer/src/pages/TimeLine.jsx:111-117 | "2024-03-01" and "01-03-2024" both parse to 1 March 2024. |
| DateOrder.DateKey | timeline-visualizer/src/pages/TimeLine.jsx:118 | The comparator's key for a milestone is `parseDate` of its date. |
| DateOrder.SortBy | timeline-visualizer/src/pages/TimeLine.jsx:110-119 | The result is ordered by key and is a permutation of the input. |
| DateOrder.InsertStable | timeline-visualizer/src/pages/TimeLine.jsx:110-119 | Inserting into a sorted list keeps the order of the elements of each key. The new element goes after the elements with its key. |
| DateOrder.SortStable | timeline-visualizer/src/pages/TimeLine.jsx:110-119 | The sort is stable: the elements sharing a key keep their relative input order. |
| DateOrder.SortedMilestones | timeline-visualizer/src/pages/TimeLine.jsx:108-119 | The view is a permutation of the milestones that have a date. A milestone is in it exactly when it is in the collection with a non-empty date. Parsable dates appear in chronological order, with the unparsable ones after them. This is the page's order only when every dated milestone parses; otherwise the page guarantees no order (see the "DateOrder.SortBy" line under "Left out"). |
| DateOrder.SortedMilestonesStable | timeline-visualizer/src/pages/TimeLine.jsx:108-119 | Milestones with the same parsed date appear in collection order. |
| DateOrder.BothFormatsSortAlike | timeline-visualizer/src/pages/TimeLine.jsx:111-118 | The ISO text and the day-first text of the same day get equal sort keys. |
| YearGroups.Bucket | timeline-visualizer/src/pages/TimeLine.jsx:122-128 | A year's bucket holds exactly the items of the view that have that year. |
| YearGroups.GroupedPush | timeline-visualizer/src/pages/TimeLine.jsx:125-126 | Pushing an item of year `y` onto bucket `y`, opened if new, keeps every bucket equal to the items so far of its year and the key list duplicate-free. |
| YearGroups.GroupByYear | timeline-visualizer/src/pages/TimeLine.jsx:122-128 | The keys are exactly the years that occur, items whose year is NaN excluded. Each bucket is the items of its year in view order. The key list names each bucket once. |
| YearGroups.BucketConcat | timeline-visualizer/src/pages/TimeLine.jsx:126 | Bucketing distributes over concatenation, so each bucket keeps the view's order. |
| YearGroups.BucketKeepsDateOrder | timeline-visualizer/src/pages/TimeLine.jsx:122-128 | Each bucket of a date-sorted view is date-sorted. |
| YearGroups.InsertDescending | timeline-visualizer/src/pages/TimeLine.jsx:141 | Inserting a new year into a descending list gives a descending list with exactly one more element, that year. |
| YearGroups.YearsDescending | timeline-visualizer/src/pages/TimeLine.jsx:140-141 | The bucket keys sorted newest first are strictly descending, hold the same years and have the same length. |
| TimeLinePage.Loaded | timeline-visualizer/src/pages/TimeLine.jsx:26 | The stored array when the slot holds one, and the empty array when it holds nothing. |
| TimeLinePage.TimeLine.constructor | timeline-visualizer/src/pages/TimeLine.jsx:16-28 | The initial hook state (closed form, empty draft, no errors) followed by the mount load. The collection is the stored array, or empty when nothing is stored. |
| TimeLinePage.TimeLine.SaveToStorage | timeline-visualizer/src/pages/TimeLine.jsx:31-34 | The storage slot and the collection both become the given array. |
| TimeLinePage.TimeLine.OpenAddModal | timeline-visualizer/src/pages/TimeLine.jsx:37-41 | The draft becomes the empty form, the mode becomes create and the form opens. The invariant is kept. |
| TimeLinePage.TimeLine.OpenEditModal | timeline-visualizer/src/pages/TimeLine.jsx:44-48 | The draft becomes a copy of the clicked milestone, the mode becomes edit and the form opens. The draft's id is then a stored id. |
| TimeLinePage.TimeLine.HandleChange | timeline-visualizer/src/pages/TimeLine.jsx:51-73 | A text input clears the touched field's error and then writes that field of the draft alone. |
| TimeLinePage.TimeLine.HandleSave | timeline-visualizer/src/pages/TimeLine.jsx:76-98 | An incomplete draft only replaces the error map with the validation result; the collection and storage are unchanged and the form stays open. A complete draft is committed, stored and the form closes with no errors. Unique ids stay unique. |
| TimeLinePage.TimeLine.CloseModal | timeline-visualizer/src/pages/TimeLine.jsx:261 | "Cancel" closes the form and changes nothing else. |
| TimeLinePage.TimeLine.RequestDelete | timeline-visualizer/src/pages/TimeLine.jsx:251-260 | "Delete", offered only while editing, opens the confirmation. |
| TimeLinePage.TimeLine.CancelDelete | timeline-visualizer/src/pages/TimeLine.jsx:278-280 | The confirmation's "Cancel" closes it without deleting. |
| TimeLinePage.TimeLine.HandleDelete | timeline-visualizer/src/pages/TimeLine.jsx:101-105 | The collection loses exactly the milestones with the draft's id and is stored. The form closes. Unique ids stay unique. With unique ids and an open edit form, exactly one milestone goes. |
| TimeLinePage.TimeLine.ConfirmDelete | timeline-visualizer/src/pages/TimeLine.jsx:282-288 | "Yes, Delete" performs the delete and closes both the form and the confirmation. |
| TimeLinePage.TimeLine.Render | timeline-visualizer/src/pages/TimeLine.jsx:140-146 | The headings are the occurring years, strictly descending. Each heading's cards are the sorted view's items of that year, in date order. The date order is the page's only when every dated milestone parses (see the "DateOrder.SortBy" line under "Left out"). |

## Left out

- The JSX markup, the CSS and the routing. Only the state the handlers change and the values the render computes are modelled.
- The JSON (de)serialisation of the storage slot. The slot holds the array itself. A stored text that `JSON.parse` rejects (the page would throw) is not modelled. Neither are stored texts that parse to a falsy value (`null`, `0`, `false`, `""`), which the page also turns into `[]`, nor ones that parse to a truthy non-array value.
- The image upload: the `FileReader` branch of `handleChange` (lines 58-69) is asynchronous browser I/O. The form's value inputs are `date` (lines 166-171), `category` (lines 180-193) and `note` (lines 202-207); the model's `Field` names exactly these three. The fourth input is the file input `image` (lines 216-222). The record's `name` has no input on the page, so it is carried along but never written. An "image" change without a file writes an extra `image` key in the source; the model has no such field.
- `showImgModal` and the image preview (lines 21, 226-247) only show or hide a picture.
- `Date.now()` (line 92) becomes the parameter `freshId` of `HandleSave`. In create mode the method requires that `freshId` is not already used, which the clock makes overwhelmingly likely but does not guarantee.
- Dates.IsoParse: JavaScript's `Date` is not modelled in full. `new Date(text)` is modelled as a strict `YYYY-MM-DD` reading of a day that exists, in years 0 to 9999. The ECMAScript date-time string format also makes the engine accept `YYYY` and `YYYY-MM`, each date-only form (`YYYY`, `YYYY-MM`, `YYYY-MM-DD`) followed by `THH:mm[:ss[.sss]]` with an optional offset (such as `2024-03T10:00`, which has a hyphen and a four-character first piece and so reaches the ISO branch), and the extended years `±YYYYYY`; the model reads all of these as unparsable. Engines also fall back to their own legacy parsers, and the day-first branch reaches them: a stored "1-3-2024" reassembles to "2024-3-1", which V8 reads as 1 March 2024 in local time, while the model reads it as unparsable. Such engine-specific forms (unpadded months and days, for example) are not modelled either. So "2024-03" is 1 March 2024 for the engine but unparsable here, and the unparsability lemmas hold only for the strict reading.
- `new Date(item.date).getFullYear()` (line 123) depends on the engine and the time zone. It is the parameter `yearOf` of `GroupByYear` and `Render`, with `None` for NaN.
- DateOrder.SortBy: the source's comparator yields NaN when either date is unparsable. The comparator is then not consistent, and ECMAScript leaves the whole order to the engine, including the order of the parsable dates among themselves. For the collection [2024-06-01, "soon", 2024-01-01], V8's TimSort sees no comparison below 0, treats all three as one ascending run and leaves the array as it is, so bucket 2024 shows June before January. The model puts unparsable dates after every parsable one and sorts the parsable ones chronologically. The chronological clauses of SortBy, SortedMilestones, BucketKeepsDateOrder and Render therefore describe the page only when every dated milestone parses.
- JavaScript's `null` and `undefined` ids are both `None`: the empty form's `null` id and a stored record with no id. In the source `null === undefined` is false, so an edit (line 90) or a delete (line 102) of a stored record with no `id` leaves alone a record stored with `"id": null`, and the reverse. The model's ReplaceById and RemoveById treat both as `None` and change both.
- `STORAGE_KEY` (line 4): the page uses the one slot it names, so the slot is a field and the key is not modelled.
- The date and note inputs deliver only strings, so the `note` of a record loaded without one (where `trim` would throw) is not modelled.
- The step `acc[year] = acc[year] || []` followed by `push` (lines 125-126) is written as one branch per case: an existing bucket gets the item appended, a new year's bucket starts as the item alone.
