# PawfectHome in Dafny

PawfectHome is a pet-adoption web application. It has an Express/Mongoose
backend and a React front end. This project models its core in Dafny and
proves properties of the model:

- **Authentication** (`auth_controller.dfy`, `user_model.dfy`). Covers sign-up,
  adding an admin, log-in, reading and updating the caller's profile, and
  seeding the configured admin account. The user collection is a `UserStore`
  class whose invariant keeps e-mails unique and ids distinct.
- **Pet schema and collection** (`pet_model.dfy`). Covers the pet record, the
  document validation the schema performs on save, and a `PetStore` class. The
  store keeps a ghost log of the calls made to the remote image service.
- **Pet handlers, remote-image revision** (`pet_routes.dfy`). Covers the GET, POST,
  PUT and DELETE routes. The routes upload to the image service, derive the
  public id of an old asset from its URL, and destroy that asset.
- **Pet handlers, local-disk revision** (`pet_controller.dfy`). Covers add,
  update and delete. Files are stored under `uploads/`, and updates are written
  without validation.
- **Upload middleware** (`upload.dfy`). Covers the image-type filter, the
  generated file name, the destination and the size limit.
- **Admin page** (`admin_panel.dfy`, `admin_form.dfy`). Covers the display
  image, the "good with" parser, search with filters and a stable sort, the
  dashboard counts and the type drop-down. It also covers the add/edit form as
  an `AdminEditor` class, together with the multipart request it sends.
- **Adoption wizard** (`start_adoption.dfy`). Covers the five-step wizard as an
  `AdoptionWizard` class: step clamping, field updates, step content with the
  review listing, and the submit gate.

Supporting modules:

- `strings.dfy` covers JavaScript's `split`/`join`/`trim`/`toLowerCase`/`includes`.
- `js.dfy` covers truthiness, `||`, `??` and the `=== "true"` coercion.
- `formstate.dfy` models React state objects as ordered key/value entries.

The clock, the random source, the image service's answer and the identity
attached by the token middleware are parameters.

## Model

| member | source | states |
|---|---|---|
| UserModel.ParseRole | backend/models/User.js:8 | a role text is accepted exactly when it is "user" or "admin", and it maps back to itself |
| UserModel.RoleRoundTrip | backend/models/User.js:8 | every role survives being stored as text and checked by the enum |
| UserModel.CreateUser | backend/models/User.js:5-8 | a document saves exactly when e-mail and password are non-empty; the user keeps the password as given and gets role "user" unless "admin" is asked for |
| UserModel.FindByEmail | backend/controllers/authController.js:22 | the first user with that e-mail, or none when no user has it |
| UserModel.FindById | backend/controllers/authController.js:155 | a user with that id, or none when no user has it |
| UserModel.UniqueCount | backend/models/User.js:6 | with unique e-mails an address occurs at most once, and exactly once iff the lookup finds it |
| UserModel.NoneCount | backend/models/User.js:6 | an address the lookup does not find occurs zero times |
| UserModel.AppendKeepsUnique | backend/models/User.js:6 | adding a user whose e-mail is not present keeps e-mails unique |
| AuthController.Project | backend/controllers/authController.js:39-44 | the returned user carries id, name, e-mail and role of the stored user, and no password |
| AuthController.GenerateToken | backend/controllers/authController.js:6-8 | the token carries the id and the role it was signed with |
| AuthController.LocalPart | backend/controllers/authController.js:117 | `email.split("@")[0]` is the prefix of the e-mail up to its first "@" |
| AuthController.GetProfile | backend/controllers/authController.js:132-146 | 404 without a caller; otherwise 200 with the caller's id, name, e-mail, role and avatar |
| AuthController.SeedUsers | backend/controllers/authController.js:186-205 | seeding keeps every existing user and adds at most one; it adds one exactly when no user has the admin e-mail and e-mail and password are set, and that one is the admin "Admin" with the configured password |
| AuthController.SeedIdempotent | backend/controllers/authController.js:186-205 | seeding a second time leaves the collection as the first seeding left it |
| AuthController.SeedLeavesOne | backend/controllers/authController.js:188-200 | after one or two seedings exactly one user has the admin e-mail; a fresh one is the admin "Admin" with the configured password |
| AuthController.UserStore.constructor | backend/models/User.js:13 | an empty collection satisfies the store invariant |
| AuthController.UserStore.Insert | backend/controllers/authController.js:34 | saving appends exactly the new user and keeps e-mails unique |
| AuthController.UserStore.Signup | backend/controllers/authController.js:14-49 | a missing field gives 400; a known e-mail gives 400; both change nothing; otherwise exactly one user with role "user" is added, whatever role the body names, and a token and projection are returned |
| AuthController.UserStore.AddAdmin | backend/controllers/authController.js:56-93 | a caller that is absent or not an admin gets 403 before any field check; then the field and e-mail checks behave as in sign-up; otherwise one admin is added |
| AuthController.UserStore.Login | backend/controllers/authController.js:99-125 | a missing e-mail or password gives 400; the reply is 200 iff a user has that e-mail and exactly that password, with the name falling back to the e-mail's local part; otherwise 401 |
| AuthController.UserStore.UpdateProfile | backend/controllers/authController.js:153-180 | only non-empty name and avatar replace the old ones; the password changes only when given; nothing else and no other user changes; an unknown caller gives 404 |
| AuthController.UserStore.SeedAdmin | backend/controllers/authController.js:186-205 | an existing admin e-mail changes nothing; an unset e-mail or password makes the save fail; otherwise one admin is added |
| AuthController.SeedTwice | backend/controllers/authController.js:186-205 | two seedings in a row leave exactly one account with the admin e-mail |
| PetModel.Validate | backend/models/Pet.js:6-15 | a document saves iff name and type are non-empty and the gender, when given, is "Male" or "Female"; flags default to false and every other field is kept |
| PetModel.PetStore.constructor | backend/models/Pet.js:20 | an empty collection with an empty remote log |
| PetModel.PetStore.Insert | backend/controllers/petController.js:37 | a saved pet gets a fresh id and is the only record added |
| PetRoutes.SegmentStartUnique | backend/routes/petRoutes.js:34-35 | the last "/"-segment of a URL starts at exactly one place |
| PetRoutes.GetPublicIdFromUrl | backend/routes/petRoutes.js:32-41 | the public id is "pawfecthome/" followed by the URL's last "/"-segment cut before its first "." |
| PetRoutes.PublicIdHasOneSlash | backend/routes/petRoutes.js:37 | the only "/" of a public id is the one closing the folder |
| PetRoutes.DestroyEvents | backend/routes/petRoutes.js:136-139 | an old image is destroyed exactly when it is a non-empty URL on the image service, and then by its public id |
| PetRoutes.CreateGoodWith | backend/routes/petRoutes.js:95-98 | a string is split on "," and each piece trimmed; anything else gives [] |
| PetRoutes.CreateImage | backend/routes/petRoutes.js:80-84 | the uploaded URL wins, else a non-empty body image, else "" |
| PetRoutes.CreateDoc | backend/routes/petRoutes.js:80-100 | a given field stores the body's value and an absent or null one stores nothing; both flags are always written as the body's coercion; a string goodWith is split and trimmed, anything else gives []; the image is the upload, else a non-empty body image, else "" |
| PetRoutes.UpdateImage | backend/routes/petRoutes.js:128-134 | the uploaded URL wins, else a non-empty body image, else the old image |
| PetRoutes.Merge | backend/routes/petRoutes.js:128-154 | a given field replaces the old value and an absent or null one keeps it; a string goodWith is split and trimmed, any other keeps the old list; the image is the upload, else a non-empty body image, else the old image; the flags become the body's coercion |
| PetRoutes.MergeIdempotent | backend/routes/petRoutes.js:142-154 | applying the same update twice gives the same pet as once |
| PetRoutes.GetOne | backend/routes/petRoutes.js:54-62 | 200 with the pet when it exists, otherwise 404 "Pet not found" |
| PetRoutes.Create | backend/routes/petRoutes.js:65-107 | an uploaded file is logged first; a document that fails validation answers 400 and stores nothing; otherwise exactly one pet is added with 201 |
| PetRoutes.Update | backend/routes/petRoutes.js:110-161 | an unknown id gives 404 with no remote call; otherwise the upload and the destruction of a remote old image happen before validation; an invalid merge answers 400 and keeps the record |
| PetRoutes.Delete | backend/routes/petRoutes.js:164-182 | an unknown id gives 404; otherwise a remote image is destroyed and exactly that record is removed |
| PetController.LocalImagePath | backend/controllers/petController.js:21 | the stored path is the upload middleware's destination directory followed by the file name |
| PetController.ControllerGoodWith | backend/controllers/petController.js:33 | a falsy value gives []; an array is kept; a string is split on "," untrimmed; any other truthy value makes the handler fail |
| PetController.ControllerGoodWithJoins | backend/controllers/petController.js:33 | the pieces of a string goodWith join back to that string |
| PetController.AddImage | backend/controllers/petController.js:20-22 | an uploaded file wins, else a non-empty body image, else "" |
| PetController.UpdateImagePath | backend/controllers/petController.js:50-52 | an uploaded file wins, else a non-empty body image; otherwise no image key is written |
| PetController.AddDoc | backend/controllers/petController.js:20-35 | a given field stores the body's value and an absent or null one stores nothing; both flags are always written as the body's coercion; the normalised goodWith is stored; the image is the "uploads/" path of a file, else a non-empty body image, else "" |
| PetController.ApplyUpdate | backend/controllers/petController.js:54-69 | an absent key keeps the field, a null key clears it, a value sets it; the flags and goodWith are always overwritten; the image changes only when a path is given |
| PetController.UpdateResetsFlags | backend/controllers/petController.js:54-69 | absent flags become false, an absent goodWith becomes [], the image stays without file or URL, an absent name stays and a null name clears it |
| PetController.AddPet | backend/controllers/petController.js:14-42 | a goodWith without `split` answers 400 before saving; otherwise the document is validated and saved with 201, or refused with 400 and nothing stored |
| PetController.UpdatePet | backend/controllers/petController.js:45-75 | a goodWith without `split` answers 400; an unknown id answers a null body with 200; otherwise the record is replaced by the unvalidated update |
| PetController.DeletePet | backend/controllers/petController.js:78-85 | always answers "Pet deleted" with 200, and removes at most that record |
| Upload.LastIndexOf | backend/middleware/upload.js:10 | the position of the last occurrence of a character, or none when it is absent |
| Upload.Basename | backend/middleware/upload.js:10 | the last component of a path, trailing slashes ignored, holds no "/" |
| Upload.BasenameIsLast | backend/middleware/upload.js:10 | the last component is the end of the path without its trailing slashes, and what comes before it ends with "/" |
| Upload.Extname | backend/middleware/upload.js:10 | the extension is empty or a "." followed by a text without "." or "/", and is a proper suffix of the last component |
| Upload.Filename | backend/middleware/upload.js:9-13 | the stored name ends with the original's extension and has the same extension |
| Upload.FilenameStem | backend/middleware/upload.js:10-12 | the stored name is the decimal arrival time (no leading zero), a "-", the decimal rounded random number, then the extension |
| Upload.StemValue | backend/middleware/upload.js:11 | a time, "-", number text reads back as the two numbers, split at the "-" |
| Upload.Round | backend/middleware/upload.js:11 | `Math.round` on a non-negative number lies within half a unit of it |
| Upload.FilenameExtname | backend/middleware/upload.js:12 | a stem with no "/" or "." followed by an extension has exactly that extension |
| Upload.MatchesImageType | backend/middleware/upload.js:18 | the pattern test holds iff "jpeg", "jpg", "png" or "gif" occurs anywhere in the text |
| Upload.MatchIsUnanchored | backend/middleware/upload.js:18 | any text containing "png" matches, whatever surrounds it |
| Upload.FileFilter | backend/middleware/upload.js:17-26 | a file is accepted iff its lower-cased extension and its mimetype as sent both match; otherwise the error "Only images are allowed" |
| Upload.StoredNamePassesFilter | backend/middleware/upload.js:9-26 | the generated name passes the extension test exactly when the original does |
| Upload.HandleFile | backend/middleware/upload.js:28-32 | the filter decides first; an accepted file above the limit is refused as too large; otherwise it is stored in "uploads/" under the name Filename builds from the arrival time, the random number and the original name, which keeps the original extension |
| Upload.HandleFileLimit | backend/middleware/upload.js:31 | an accepted file of exactly 3 MiB is stored and one of 3 MiB plus one byte is refused as too large |
| Upload.ExtnameEmpty | backend/middleware/upload.js:10 | the extension is non-empty exactly when the last component is not ".." and has a "." after its first character |
| AdminPanel.OrEmpty | src/pages/Admin.jsx:191 | an absent text becomes "" and a present one is kept |
| AdminPanel.FieldOrEmpty | src/pages/Admin.jsx:256 | an absent or `null` text becomes "" and a present one is kept |
| AdminPanel.ToDisplayImage | src/pages/Admin.jsx:103-107 | no image gives the placeholder; an "http" address is kept; anything else is prefixed with the API address |
| AdminPanel.DisplayImageIsHttp | src/pages/Admin.jsx:103-107 | every displayed image is an "http" address |
| AdminPanel.DisplayImageIdempotent | src/pages/Admin.jsx:103-107 | resolving a displayed address again changes nothing |
| AdminPanel.NonEmpty | src/pages/Admin.jsx:134 | `filter(Boolean)` keeps only non-empty texts from the list, and keeps a list without empty texts whole |
| AdminPanel.NonEmptyMembers | src/pages/Admin.jsx:134 | a text is kept exactly when it is in the list and not empty |
| AdminPanel.NonEmptyAppend | src/pages/Admin.jsx:134 | filtering keeps the order: filtering a concatenation filters each part in turn |
| AdminPanel.ParseGoodWith | src/pages/Admin.jsx:134 | every parsed label is non-empty, trimmed and free of "," |
| AdminPanel.ParseGoodWithOne | src/pages/Admin.jsx:134 | a text without "," gives its trimmed self as the only label, or no label when that is empty |
| AdminPanel.ParseGoodWithComma | src/pages/Admin.jsx:134 | the labels of `a,b` are the labels of `a` followed by the labels of `b` |
| AdminPanel.ParseGoodWithJoin | src/pages/Admin.jsx:134 | joining non-empty, trimmed labels free of "," with "," and parsing gives exactly those labels back |
| AdminPanel.ParseGoodWithRoundTrip | src/pages/Admin.jsx:134 | joining labels with "," and parsing again gives the same labels |
| AdminPanel.Show | src/pages/Admin.jsx:249 | a text field renders as its value, a `null` one as "null" and an absent one as "undefined" |
| AdminPanel.ShowAge | src/pages/Admin.jsx:249 | the age renders as its decimal text, a `null` age as "null" and an absent one as "undefined" |
| AdminPanel.Hay | src/pages/Admin.jsx:249 | the search text holds no upper-case letter |
| AdminPanel.HayFields | src/pages/Admin.jsx:249 | the search text is the lower-cased name, type, breed, age and gender, in that order, separated by single spaces |
| AdminPanel.HayHasFields | src/pages/Admin.jsx:249-250 | a query found in any one lower-cased field is found in the search text |
| AdminPanel.HayShowsNull | src/pages/Admin.jsx:249-250 | a pet whose age the server sent as `null` is found by the query "null" |
| AdminPanel.Query | src/pages/Admin.jsx:243 | the query is the lower-cased trimmed search; it is trimmed, holds no upper-case letter, and is empty exactly when the trimmed search is |
| AdminPanel.Matches | src/pages/Admin.jsx:246-266 | a pet matches exactly when the query is empty or occurs in its search text, its type equals the chosen type up to case, and it agrees with each chosen status, vaccinated and neutered setting; with no filter active every pet matches |
| AdminPanel.Keep | src/pages/Admin.jsx:247-266 | the kept pets are a sub-multiset of the pets, and a pet is kept iff it passes the search and every active filter |
| AdminPanel.KeepAll | src/pages/Admin.jsx:247-266 | with no filter active every pet is kept, in order |
| AdminPanel.KeepTies | src/pages/Admin.jsx:247-266 | the kept pets that tie with any pet are exactly the tied pets of the whole list that pass the filters, in the same order |
| AdminPanel.LeqTotal | src/pages/Admin.jsx:269-277 | every two pets are ordered one way or the other under each sort mode |
| AdminPanel.LeqTransitive | src/pages/Admin.jsx:269-277 | the comparator of each sort mode is transitive |
| AdminPanel.LeqTies | src/pages/Admin.jsx:269-277 | pets equal in name, status and creation time tie both ways under every mode, so the stable sort keeps them in place |
| AdminPanel.Insert | src/pages/Admin.jsx:269 | inserting keeps the multiset and the neighbour order |
| AdminPanel.InsertTies | src/pages/Admin.jsx:269-277 | inserting a pet places it ahead of every pet it ties with, and leaves the order among those pets as it was |
| AdminPanel.SortPets | src/pages/Admin.jsx:269-277 | the sort is a permutation in comparator order, and stable: for every pet, the pets that tie with it come out in the order they went in |
| AdminPanel.AdjSortedIsSorted | src/pages/Admin.jsx:269-277 | neighbour order implies order between every earlier and later pet |
| AdminPanel.SortKeepsTies | src/pages/Admin.jsx:269 | when all pets tie the stable sort leaves them in place |
| AdminPanel.InsertUndated | src/pages/Admin.jsx:273-276 | under "newest", inserting a pet places it ahead of every undated pet when it is undated, and leaves the undated pets in their order |
| AdminPanel.NewestKeepsUndated | src/pages/Admin.jsx:273-276 | under "newest", the pets without a creation time keep their relative order in any list, dated pets among them or not |
| AdminPanel.FilteredPets | src/pages/Admin.jsx:242-280 | the list is a permutation of the kept pets: a pet is listed exactly when it contains the query and passes the type (up to case), status, vaccinated and neutered filters; the list is in sorted order; for every pet, the listed pets tying with it are the tied pets of the input that pass the filters, in their input order; with no filter active it is a permutation of the pets |
| AdminPanel.NameSearchKeeps | src/pages/Admin.jsx:246-251 | with only the search set, a pet whose lower-cased name holds the query is listed |
| AdminPanel.ComputeStats | src/pages/Admin.jsx:282-288 | the total is the number of pets; available, adopted and pending are the counts of pets with exactly that status, and add up to at most the total |
| AdminPanel.CountStatus | src/pages/Admin.jsx:284-286 | a count is at most the number of pets; it is 0 exactly when no pet has that status, and all of them exactly when every pet has it |
| AdminPanel.StatusCountsBound | src/pages/Admin.jsx:284-286 | no pet is counted under two statuses |
| AdminPanel.CountIsFilterLength | src/pages/Admin.jsx:284-286 | a status count equals the number of pets the status filter alone keeps |
| AdminPanel.CountIsFilteredPetsLength | src/pages/Admin.jsx:258-260 | a dashboard count equals the length of the manage list filtered by that status |
| AdminPanel.Capitalize | src/pages/Admin.jsx:236 | the first character is upper-cased and the rest kept |
| AdminPanel.CapitalizeTrimmed | src/pages/Admin.jsx:236 | capitalising a trimmed text keeps it trimmed |
| AdminPanel.TypeTexts | src/pages/Admin.jsx:234 | the trimmed type of every pet, in order |
| AdminPanel.Labels | src/pages/Admin.jsx:235-236 | the labels of trimmed texts are non-empty and trimmed |
| AdminPanel.LabelsComplete | src/pages/Admin.jsx:235-236 | every non-empty text contributes its capitalised label |
| AdminPanel.LabelsSound | src/pages/Admin.jsx:235-236 | every label is the capitalised form of some non-empty text |
| AdminPanel.TypeLabels | src/pages/Admin.jsx:233-236 | every type label is non-empty and trimmed |
| AdminPanel.TypeLabelsComplete | src/pages/Admin.jsx:233-236 | every pet with a non-blank type contributes its label |
| AdminPanel.TypeLabelsSound | src/pages/Admin.jsx:233-236 | every label comes from the type of some pet |
| AdminPanel.NoDupDistinct | src/pages/Admin.jsx:232 | in a set-like list no two positions hold the same text |
| AdminPanel.TwiceCounted | src/pages/Admin.jsx:232 | a text at two positions is counted at least twice |
| AdminPanel.Dedup | src/pages/Admin.jsx:232 | `new Set` keeps each text once and loses none |
| AdminPanel.InsertStr | src/pages/Admin.jsx:238 | inserting a text keeps the multiset and the order |
| AdminPanel.SortStrings | src/pages/Admin.jsx:238 | the sort is a permutation in order |
| AdminPanel.SameMembers | src/pages/Admin.jsx:238 | a permutation holds the same texts |
| AdminPanel.SortedTypes | src/pages/Admin.jsx:232-238 | the options after "All" are exactly the type labels, once each, in sorted order |
| AdminPanel.TypeOptions | src/pages/Admin.jsx:231-239 | the drop-down is "All" followed by the sorted types |
| AdminPanel.UntrimmedTypeNotSelected | src/pages/Admin.jsx:231-257 | a pet whose type has white space at an end contributes an option, yet choosing that option filters the pet out |
| AdminForm.DefaultForm | src/pages/Admin.jsx:109-122 | the reset form has the eleven form fields in order |
| AdminForm.EditAge | src/pages/Admin.jsx:194 | an absent, `null` or zero age shows as an empty field, any other age as itself |
| AdminForm.EditForm | src/pages/Admin.jsx:189-202 | the edit form has the eleven form fields in order |
| AdminForm.EditBarePet | src/pages/Admin.jsx:189-202 | editing a pet with no optional field gives the reset form |
| AdminForm.ChangeOnlyNamed | src/pages/Admin.jsx:129-139 | a change sets the named field (parsed labels for goodWith, checked or value otherwise), leaves every other field, and adds no key |
| AdminForm.ChangeForm | src/pages/Admin.jsx:129-139 | a change adds at most one entry and keeps every key at its place, so the form fields stay in front |
| AdminForm.ValueText | src/pages/Admin.jsx:162-168 | a text is sent as is; a number as its decimal digits, with "-" when negative; a flag as "true" or "false", which the server reads back as the flag; labels free of "," split back into the labels |
| AdminForm.Serialize | src/pages/Admin.jsx:162-168 | one multipart field per form entry, in order, with the entry's text |
| AdminForm.BuildRequest | src/pages/Admin.jsx:156-169 | PUT to the pet's address while editing, POST to the collection otherwise, carrying the serialised form and the file |
| AdminForm.GoodWithReachesServer | src/pages/Admin.jsx:164 | non-empty labels reach both server revisions unchanged; an empty list is stored as [""] by the remote-image revision and as [] by the local-disk one |
| AdminForm.AdminEditor.constructor | src/pages/Admin.jsx:37-52 | the page starts with the reset form, no pet being edited and no file |
| AdminForm.AdminEditor.ResetForm | src/pages/Admin.jsx:109-126 | the form is reset and the edit id and the file are cleared |
| AdminForm.AdminEditor.HandleChange | src/pages/Admin.jsx:129-139 | the form becomes the changed form and keeps its fields in place; nothing else changes |
| AdminForm.AdminEditor.HandleFileChange | src/pages/Admin.jsx:141-150 | only the chosen file changes |
| AdminForm.AdminEditor.HandleEdit | src/pages/Admin.jsx:189-208 | the form is filled from the pet, its id is remembered and the file cleared |
| AdminForm.AdminEditor.HandleSubmit | src/pages/Admin.jsx:152-187 | the request is built from the state before the call and opens with the eleven form fields in order; a successful answer resets the form, a failed one leaves the state alone |
| StartAdoption.Next | src/pages/StartAdoption.jsx:186 | the next step is one more, but never beyond 5 |
| StartAdoption.Back | src/pages/StartAdoption.jsx:187 | the previous step is one less, but never below 1 |
| StartAdoption.BackUndoesNext | src/pages/StartAdoption.jsx:186-187 | below step 5, Back after Next returns to the original step |
| StartAdoption.Run | src/pages/StartAdoption.jsx:157-187 | from a step in 1..5 any sequence of Next and Back stays in 1..5 |
| StartAdoption.RunNexts | src/pages/StartAdoption.jsx:186 | pressing Next n times moves n steps forward, stopping at step 5 |
| StartAdoption.InitialForm | src/pages/StartAdoption.jsx:158-169 | the application starts with nine empty answers and the terms unaccepted |
| StartAdoption.LabelDropSpaces | src/pages/StartAdoption.jsx:120 | the spaced label of a key without spaces gives the key back once its spaces are dropped |
| StartAdoption.DropSpacesAppend | src/pages/StartAdoption.jsx:120 | dropping spaces distributes over concatenation |
| StartAdoption.LabelNoCapitals | src/pages/StartAdoption.jsx:120 | a key without capitals is its own label |
| StartAdoption.ShowValue | src/pages/StartAdoption.jsx:120 | a falsy value shows as "N/A", a non-empty text as itself, `true` as nothing |
| StartAdoption.ReviewLines | src/pages/StartAdoption.jsx:117-123 | the review has at most one line per entry |
| StartAdoption.ReviewLinesAll | src/pages/StartAdoption.jsx:117-123 | without a consent entry, line i is entry i's label and shown value |
| StartAdoption.ReviewLinesSound | src/pages/StartAdoption.jsx:117-123 | every review line comes from an entry other than termsAccepted |
| StartAdoption.ReviewLinesComplete | src/pages/StartAdoption.jsx:117-123 | every entry other than termsAccepted has its line in the review |
| StartAdoption.ReviewLinesConsentLast | src/pages/StartAdoption.jsx:117-123 | with the consent entry last, the review lists every other entry, in order |
| StartAdoption.StepContent | src/pages/StartAdoption.jsx:16-148 | nothing is shown exactly for a step outside 1..5; step 4 is the review with the consent box; step 5 names the pet |
| StartAdoption.SubmitEnabled | src/pages/StartAdoption.jsx:293-304 | the submit button is usable iff the step is the last and termsAccepted is truthy |
| StartAdoption.FreshFormCannotSubmit | src/pages/StartAdoption.jsx:168 | a fresh application cannot be submitted |
| StartAdoption.LookupLast | src/pages/StartAdoption.jsx:304 | a key found only in the last entry is looked up there |
| StartAdoption.ConsentEnablesSubmit | src/pages/StartAdoption.jsx:125-134 | ticking the consent box at the last step enables submitting |
| StartAdoption.ConfirmationPath | src/pages/StartAdoption.jsx:199 | the path is "/adoption/confirmation/" followed by the pet id |
| StartAdoption.AdoptionWizard.constructor | src/pages/StartAdoption.jsx:157-169 | the wizard starts at step 1 with the initial application |
| StartAdoption.AdoptionWizard.HandleNext | src/pages/StartAdoption.jsx:186 | the step moves by Next, stays in 1..5, and the answers are unchanged |
| StartAdoption.AdoptionWizard.HandleBack | src/pages/StartAdoption.jsx:187 | the step moves by Back, stays in 1..5, and the answers are unchanged |
| StartAdoption.AdoptionWizard.HandleChange | src/pages/StartAdoption.jsx:189-195 | only the named field changes: a checkbox stores `checked`, any other input its value |
| StartAdoption.AdoptionWizard.HandleSubmit | src/pages/StartAdoption.jsx:197-200 | submitting goes to the confirmation page of the pet |
| FormState.Keys | src/pages/StartAdoption.jsx:117 | the keys of the state, in insertion order |
| FormState.Lookup | src/pages/StartAdoption.jsx:304 | a key is found iff it is among the keys, and then with its value |
| FormState.Set | src/pages/StartAdoption.jsx:191-194 | a spread update adds at most one entry, keeps every key at its place, leaves every entry of another key untouched, and holds the new entry |
| FormState.SetLookup | src/pages/StartAdoption.jsx:191-194 | after a spread update the key holds the new value and every other key its old one |
| FormState.SetKeys | src/pages/StartAdoption.jsx:191-194 | an existing key keeps its place; a new key goes last |
| FormState.SetKeepsDistinct | src/pages/StartAdoption.jsx:191-194 | a spread update keeps the keys distinct |
| FormState.EventValue | src/pages/StartAdoption.jsx:193 | a checkbox gives `checked`, any other input its value |
| Js.Truthy | backend/controllers/petController.js:33 | exactly undefined, null, false, 0 and "" are falsy |
| Js.FlagTrue | backend/routes/petRoutes.js:93-94 | only the text "true" and the boolean true count as set, and both are truthy |
| Js.Stored | backend/routes/petRoutes.js:86-92 | a schema field stores a value exactly when the body gives one |
| Js.OrElse | backend/controllers/authController.js:117 | a non-empty text is kept and an empty one gives the fallback |
| Js.KeepUnlessGiven | backend/routes/petRoutes.js:142-147 | `??` keeps the old value unless the body gives one |
| Js.ApplyField | backend/controllers/petController.js:56-62 | an update key that is undefined leaves the field, null clears it, a value sets it |
| Strings.Includes | backend/routes/petRoutes.js:136 | the scan answers true iff the needle occurs somewhere in the text |
| Strings.Split | backend/routes/petRoutes.js:34 | a split has at least one piece and no piece holds the separator |
| Strings.SplitOne | backend/routes/petRoutes.js:36 | a text splits into one piece iff it has no separator, and that piece is the text |
| Strings.SplitAppend | src/pages/Admin.jsx:134 | splitting at a separator splits the two sides separately, the pieces of the left first |
| Strings.JoinSplit | backend/controllers/petController.js:33 | joining the pieces of a split gives the text back |
| Strings.SplitJoin | src/pages/Admin.jsx:164 | splitting a join of separator-free pieces gives the pieces back |
| Strings.JoinEnds | src/pages/Admin.jsx:164 | a join starts with the first text and ends with the last, with the separator right after the first when there are two or more |
| Strings.FirstPiece | backend/routes/petRoutes.js:36 | the first piece is the text before the first separator |
| Strings.LastPiece | backend/routes/petRoutes.js:35 | the last piece is the text after the last separator |
| Strings.Trim | src/pages/Admin.jsx:134 | the result is trimmed and is the text with only white space removed from both ends |
| Strings.TrimOfTrimmed | src/pages/Admin.jsx:134 | trimming a trimmed text changes nothing |
| Strings.TrimKeepsAbsent | backend/routes/petRoutes.js:97 | trimming adds no character |
| Strings.SplitTrimmed | backend/routes/petRoutes.js:97 | the trimmed pieces are trimmed, free of the separator, and as many as the pieces |
| Strings.SplitTrimmedJoin | backend/routes/petRoutes.js:97 | splitting and trimming a join of trimmed, separator-free texts gives them back |
| Strings.ToLower | src/pages/Admin.jsx:249 | each character is lower-cased in place |
| Strings.ToLowerIdempotent | src/pages/Admin.jsx:256 | lower-casing twice is lower-casing once |
| Strings.NatToString | backend/middleware/upload.js:11 | the decimal text of a number is non-empty and all digits |
| Strings.IntToString | src/pages/Admin.jsx:249 | the decimal text of an integer has no "/", "." or "," |
| Strings.NatToStringValue | backend/middleware/upload.js:11 | the decimal text of a number denotes that number and starts with "0" only for 0 |
| Strings.IntToStringValue | src/pages/Admin.jsx:249 | the text of an integer starts with "-" exactly when it is negative, and the digits denote its magnitude with no leading zero |
| Strings.StrLeqTotal | src/pages/Admin.jsx:238 | the text order stands in for `localeCompare` and is total |
| Strings.StrLeqTransitive | src/pages/Admin.jsx:238 | the text order is transitive |
| Strings.StrLeqAntisymmetric | src/pages/Admin.jsx:238 | the text order is antisymmetric |

## Left out

- Network, database and browser I/O are not modelled: `fetch`, `axios`, navigation, `alert`, `localStorage`, scrolling and toasts. A store is a Dafny class, and a reply is a value.
- JSON Web Tokens are only the pair (id, role) they encode. The secret, the signature and the seven-day expiry are not modelled, and neither is the token middleware (`protect`, `admin`).
- The image service's internals are not modelled. Uploading is an input (the secure URL it returns), and a destroy call is an entry in a ghost log. Failures of either call are not modelled.
- Environment variables are parameters. An unset ADMIN_EMAIL or ADMIN_PASSWORD is the empty text.
- A malformed object id is not modelled. In the source it makes Mongoose throw (400 or 500, depending on the handler). Ids here are natural numbers handed out by the store.
- backend/routes/petRoutes.js reads `req.file.buffer`, but backend/middleware/upload.js uses disk storage, which gives a file no `buffer`. The model takes the uploaded URL as given and does not model that mismatch.
- Mongoose's string-to-number cast of `age` from a multipart body is not modelled. Age is an integer field, or absent or null. In the same way, Pet.js has no `status` field, so a submitted status is dropped. The admin page's `status` is modelled only on the client side.
- An update document's keys are handled as the ORM does by default: an `undefined` key leaves the field and `null` clears it. PetController.UpdatePet runs no validators, as `findByIdAndUpdate` does not by default.
- PetController.UpdatePet: a record deleted concurrently between lookup and write is not modelled, and neither is any other concurrency.
- Sorting by `localeCompare` is modelled as code-point lexicographic order (Strings.StrLeq). An invalid date, which gives NaN, is not modelled; a creation time is an integer or absent. The in-place `arr.sort` on a local copy is modelled on values by a stable insertion sort.
- Case mapping (`toLowerCase`, `toUpperCase`) covers ASCII letters only.
- Upload.FilenameStem and Upload.Round take `Math.random() * 1e9` as an exact product of reals rather than a double-precision one. The two can differ only when the exact product lies within one unit in the last place of a half-integer, where rounding could then go the other way.
- AuthController.AuthBody and AuthController.ProfileBody hold texts only, "" standing for an absent field. A JSON body can carry other values, and the handlers then compare them as JavaScript does. A numeric password 123 is saved and later read back as the text "123", so the strict `!==` at backend/controllers/authController.js:108 refuses the log-in with 401. An object such as `{"$ne": ""}` in `email` reaches `User.findOne` at lines 22, 67 and 107 as a query operator rather than an address. Neither case is modelled.
- JsValue arrays hold strings only. Nested arrays and objects in a request body are not modelled.
- React rendering is not modelled: markup, classes, animations, preview URLs (`URL.createObjectURL`) and the loading and "Pet not found" screens. StepContent gives the fields and lines a step shows, not its markup.
- The removal and listing of admins and users (`removeAdmin`, `getAdmins` and the accounts tab) lie outside the modelled core, and so do `getPets`/GET all.
- Form submission by pressing Enter at an earlier step of the wizard is not modelled. The wizard submits only through HandleSubmit.
- Bytes of uploaded files and multer's streaming are not modelled. HandleFile receives the file's name, mimetype and size.
- AdminForm.GoodWithReachesServer states an observation rather than a defect: when the admin page submits no labels, the remote-image revision stores [""]. It does so because `"".split(",")` is `[""]`.
