# Customer records: a verified model

This project models the core of a small customer-record application: an
Express/Mongoose back end that stores customers with a list of addresses,
and the two React pages that register customers and list them.

- **Schema** (`schema.dfy`, `document.dfy`): the customer and address
  sub-document rules (required fields, length limits, enumerations, the
  pincode and mobile patterns, the date of birth), the address-list methods
  (`addAddress`, `updateAddress`, `deleteAddress`, `setDefaultAddress`), the
  two pre-save hooks (`dateUpdated`, `isSingleAddress`), and the `fullName`
  and `defaultAddress` virtuals. A stored document is a class whose `Save`
  validates before any hook runs.
- **Controllers** (`controllers.dfy`, `store.dfy`, `query.dfy`,
  `ordering.dfy`): every endpoint is a pure function from the stored records
  and a fresh-id counter to a reply and the new store. Class
  `CustomerStore` carries the store and performs each step in place, and
  each of its methods is proved equal to the function. The listing endpoint
  is modelled as a filter that is built key by key, then a sort (a sorted
  permutation), then a skip/limit window with its pagination block.
- **Error middleware** (`errors.dfy`): the status and message rewrites of
  `errorHandler`, `validationErrorHandler`, `AppError` and the log-line
  layout.
- **Register page** (`register_form.dfy`): class `RegisterPage` holds the
  form state. `validateForm` reports every rule under its own key, and the
  address-list editing keeps exactly one default address.
- **Home page** (`home_page.dfy`): class `ListPage` holds the list state.
  Page movement, infinite-scroll merging, and the fetches that React's
  effects start after each render are modelled explicitly.

Shared pieces: `wrappers.dfy` (Option), `text.dfy` (JavaScript `trim`,
ASCII lower-casing, substring search, `join`, decimal rendering) and
`patterns.dfy` (the pincode, mobile and e-mail regular expressions).

Where the code and its accompanying design description disagree, the
model follows the code:

- City, state and pincode are each satisfied by *some* address, not
  necessarily the same one (`Query.LocationTestsIndependent`).
- Registration installs the parsed address list as given. No default
  address is forced (`Controllers.BuiltRecord`).
- Edit and status change go through `findByIdAndUpdate`, so no save hook
  runs. In particular `dateUpdated` is not refreshed
  (`Controllers.EditedFields`).
- Deleting an unknown address id is no error: the reply is 200, the save
  still stamps `dateUpdated`, and the first address becomes default when
  none is. Setting an unknown address id as default clears every default
  flag (`Controllers.SetDefaultOutcomes`).
- The duplicate pre-check of registration compares the raw mobile number,
  while the unique index holds the trimmed one
  (`Controllers.PaddedMobileReachesIndex`).
- A validation failure in `updateAddress` and `deleteAddress` answers 500,
  not 400.

## Model

| member | source | states |
|---|---|---|
| Text.Trim | frontend/src/pages/Register/Register.js:82-92 | the result is empty exactly for blank input, otherwise it starts and ends with a non-space |
| Text.TrimStrips | frontend/src/pages/Register/Register.js:82-92 | the result is the input with a whitespace prefix and a whitespace suffix removed (with `Text.Trim`: exactly its leading and trailing whitespace) |
| Text.SkipSpaces | backend/models/usersSchema.js:52-58 | the forward scan stops at the first non-whitespace character, and every character it passes is whitespace |
| Text.SkipSpacesBack | backend/models/usersSchema.js:52-58 | the backward scan stops just after the last non-whitespace character, and every character it passes is whitespace |
| Text.TrimUnchanged | backend/models/usersSchema.js:52-58 | text without surrounding whitespace is left as it is |
| Text.TrimIdempotent | backend/models/usersSchema.js:52-58 | trimming twice is trimming once |
| Text.Lower | backend/models/usersSchema.js:66-77 | lower-casing keeps the length |
| Text.LowerMaps | backend/models/usersSchema.js:66-77 | lower-casing maps each character by `LowerChar`, position by position |
| Text.ContainsAt | backend/Controllers/usersControllers.js:147-155 | the left-to-right scan finds `needle` exactly when it occurs at some offset |
| Text.JoinEmpty | backend/middleware/errorHandler.js:108-111 | a join with a non-empty separator is empty exactly when there is no part, or one empty part |
| Text.NatToString | frontend/src/pages/Register/Register.js:115-130 | an index is rendered as a non-empty run of digits |
| Text.NatToStringRoundTrip | frontend/src/pages/Register/Register.js:115-130 | reading back a rendered index gives the index |
| Text.LeadingDigitBounds | backend/models/usersSchema.js:30-39 | the leading digit of a digit string bounds its value |
| Patterns.PincodeAsNumber | backend/models/usersSchema.js:30-39 | a pincode matches its pattern exactly when it is six digits denoting at least 100000 |
| Patterns.MobileAsNumber | backend/models/usersSchema.js:78-88 | a mobile number matches exactly when it is ten digits denoting at least 6000000000 |
| Patterns.IndexOf | frontend/src/pages/Register/Register.js:63-66 | the result is the first position of the character, or the length when it is absent |
| Patterns.ValidEmailIffPattern | frontend/src/pages/Register/Register.js:63-66 | splitting at the first '@' accepts exactly the strings the e-mail regular expression matches |
| Patterns.ValidEmailHasSplit | frontend/src/pages/Register/Register.js:63-66 | an e-mail the form accepts splits at its first '@' as the regular expression requires |
| Patterns.SplitIsValidEmail | frontend/src/pages/Register/Register.js:63-66 | any split the regular expression finds makes the form accept the e-mail |
| Schema.EmptyInputDefaults | backend/models/usersSchema.js:5-49 | an address given nothing is of type "home", in "India", and not default |
| Schema.PatchKeepsUnsupplied | backend/models/usersSchema.js:194-201 | a patch keeps the address id and every field it does not supply; the empty patch changes nothing |
| Schema.AddressErrorsEmpty | backend/models/usersSchema.js:5-49 | an address yields no validation error exactly when it satisfies the sub-schema |
| Schema.AddressListErrorsEmpty | backend/models/usersSchema.js:105 | the list yields no error exactly when every address satisfies the sub-schema |
| Schema.CustomerErrorsEmpty | backend/models/usersSchema.js:51-142 | saving reports no error exactly when the document satisfies every rule of the schema |
| Schema.PathErrorsEmpty | backend/models/usersSchema.js:51-142 | the validators of one path report nothing exactly when that path's rule holds |
| Schema.ErrorsAlongEmpty | backend/models/usersSchema.js:51-142 | validating a run of paths reports nothing exactly when the rule of each path holds |
| Schema.SchemaPathsComplete | backend/models/usersSchema.js:51-142 | every path of the schema is among the paths validated |
| Schema.SchemaPathsCover | backend/models/usersSchema.js:51-142 | a document satisfies the schema exactly when the rule of every path holds |
| Schema.NameAcceptedAfterTrim | backend/models/usersSchema.js:52-58 | a name is accepted exactly when it has 2 to 50 characters after trimming |
| Schema.DefaultCountAppend | backend/models/usersSchema.js:184-191 | the default count of a concatenation is the sum of the counts |
| Schema.DefaultCountPositive | backend/models/usersSchema.js:207 | counting defaults agrees with the `some(isDefault)` test |
| Schema.IdCountUnique | backend/models/usersSchema.js:194-201 | with unique ids an id occurs at most once, and exactly when some address has it |
| Schema.PushedShape | backend/models/usersSchema.js:184-191 | adding appends one address, keeps the others, and makes the first address default |
| Schema.PushedDefaults | backend/models/usersSchema.js:184-191 | the first address becomes the only default; a later one adds a default only when flagged |
| Schema.PushedUniqueIds | backend/models/usersSchema.js:184-191 | adding an address with a fresh id keeps the ids unique |
| Schema.FindAddress | backend/models/usersSchema.js:195 | the result is the first position holding the id, or the length when no address has it |
| Schema.PatchedChangesOnlyTarget | backend/models/usersSchema.js:194-201 | the update fails exactly for an unknown id; otherwise only the target address changes, by the patch |
| Schema.Without | backend/models/usersSchema.js:205 | `pull` keeps exactly the addresses without the id, and removes as many as carry it |
| Schema.WithoutSingle | backend/models/usersSchema.js:205 | `pull` keeps a single address exactly when it lacks the id |
| Schema.WithoutAppend | backend/models/usersSchema.js:205 | `pull` distributes over concatenation, so the kept addresses stay in their order and multiplicity |
| Schema.WithoutDefaultCount | backend/models/usersSchema.js:204-211 | pulling never adds a default |
| Schema.WithoutUniqueIds | backend/models/usersSchema.js:204-211 | pulling keeps the ids unique |
| Schema.DeletedShape | backend/models/usersSchema.js:204-211 | deleting removes every address with the id, keeps the rest as `pull` does with at most the first re-flagged as default, and leaves a non-empty list with a default |
| Schema.DeletedGone | backend/models/usersSchema.js:204-211 | after a delete no address carries the id, and a non-empty list has a default address |
| Schema.WithoutNoMatch | backend/models/usersSchema.js:204-211 | pulling an unknown id removes nothing |
| Schema.DeletedKeepsOneDefault | backend/models/usersSchema.js:204-211 | from exactly one default, deleting leaves exactly one unless the list becomes empty |
| Schema.DeletedUniqueIds | backend/models/usersSchema.js:204-211 | deleting keeps the ids unique |
| Schema.DefaultSetToCount | backend/models/usersSchema.js:214-219 | after setting the default, as many addresses are default as carry the id |
| Schema.DefaultSetToExactlyOne | backend/models/usersSchema.js:214-219 | with unique ids, a known id leaves exactly one default and an unknown id leaves none |
| Schema.DefaultSetToIdempotent | backend/models/usersSchema.js:214-219 | setting the default twice is setting it once, and only the flags change |
| Schema.SingleFlagMeaning | backend/models/usersSchema.js:164-171 | the flag says "one address" for a non-empty list; an empty list keeps the previous flag |
| Schema.LastAddressDeletedKeepsFlag | backend/models/usersSchema.js:164-171 | deleting the only address leaves no address and `isSingleAddress` still true |
| Schema.FirstDefault | backend/models/usersSchema.js:179-181 | the result is the first default position, or the length when there is none |
| Schema.DefaultAddressMeaning | backend/models/usersSchema.js:179-181 | the virtual exists exactly for a non-empty list, is a default address when there is one, and follows `setDefaultAddress` |
| Schema.FullNameSplits | backend/models/usersSchema.js:174-176 | a full name splits back into the two names at its first space |
| Document.ValidatedMeaning | backend/models/usersSchema.js:51-142 | validation succeeds exactly for a valid document, and a failure carries errors |
| Document.UserDocument.Create | backend/Controllers/usersControllers.js:89-101 | a built document holds the given value, new and unmodified |
| Document.UserDocument.Load | backend/Controllers/usersControllers.js:450-477 | a loaded document holds the stored value, not new and unmodified |
| Document.UserDocument.Save | backend/models/usersSchema.js:156-171 | validation comes first; an invalid document is untouched, and a valid one gets both hooks applied |
| Document.UserDocument.Commit | backend/models/usersSchema.js:155-171 | a save that passed validation runs both hooks, then the document counts as stored and unmodified |
| Document.UserDocument.RunHooks | backend/models/usersSchema.js:155-171 | the hooks run in the order registered: the date stamp, then the address-count flag |
| Document.UserDocument.StampUpdated | backend/models/usersSchema.js:156-161 | only a modified document that was already stored gets `dateUpdated` set to now; nothing else changes |
| Document.UserDocument.FlagSingle | backend/models/usersSchema.js:164-171 | one address sets `isSingleAddress`, several clear it, none leave it; nothing else changes |
| Document.UserDocument.AddAddress | backend/models/usersSchema.js:184-191 | the address is pushed (default when first), then the document is saved |
| Document.UserDocument.PushAddress | backend/models/usersSchema.js:184-189 | the new address is appended, made default when the list was empty, and the document is marked modified |
| Document.UserDocument.UpdateAddress | backend/models/usersSchema.js:194-201 | "Address not found" for an unknown id with nothing changed, otherwise the patch is applied and saved |
| Document.UserDocument.PatchAddress | backend/models/usersSchema.js:194-200 | reports whether an address has the id; if so only that address is patched, otherwise nothing changes |
| Document.UserDocument.DeleteAddress | backend/models/usersSchema.js:204-211 | the id is pulled, the first remaining address is made default when none is, and the document is saved |
| Document.UserDocument.PullAddress | backend/models/usersSchema.js:204-209 | every address with the id goes, the first remaining one becomes default when none is, and the document is marked modified |
| Document.UserDocument.SetDefaultAddress | backend/models/usersSchema.js:214-219 | exactly the addresses with the id are flagged, then the document is saved |
| Document.UserDocument.FlagDefault | backend/models/usersSchema.js:215-217 | each flag becomes "has the id", and the document is modified exactly when a flag changed |
| Ordering.TextLeTotal | backend/Controllers/usersControllers.js:200-207 | any two strings are comparable |
| Ordering.TextLeTransitive | backend/Controllers/usersControllers.js:200-207 | string order is transitive |
| Ordering.KeyLeTotal | backend/Controllers/usersControllers.js:200-207 | any two sort keys are comparable across types |
| Ordering.KeyLeTransitive | backend/Controllers/usersControllers.js:200-207 | the cross-type key order is transitive |
| Ordering.KeyBeforeTotal | backend/Controllers/usersControllers.js:200-207 | in either direction any two keys are comparable |
| Ordering.KeyBeforeTransitive | backend/Controllers/usersControllers.js:200-207 | in either direction the order is transitive |
| Ordering.Insert | backend/Controllers/usersControllers.js:210-214 | inserting adds exactly the one record |
| Ordering.InsertSorted | backend/Controllers/usersControllers.js:210-214 | inserting into a sorted sequence keeps it sorted |
| Ordering.ConsSorted | backend/Controllers/usersControllers.js:210-214 | a record that precedes every record of a sorted list can go in front of it |
| Ordering.SortByKey | backend/Controllers/usersControllers.js:210-214 | the result is sorted by the key and is a permutation of the input |
| Ordering.SortRecords | backend/Controllers/usersControllers.js:200-214 | `.sort(spec)` yields a sorted permutation of the records |
| Query.BuildQuery | backend/Controllers/usersControllers.js:143-193 | the filter built key by key selects exactly the records the request's parameters select |
| Query.FilterFields | backend/Controllers/usersControllers.js:143-193 | a filter with exactly the request's effective keys selects what the request selects |
| Query.AllMeansUnfiltered | backend/Controllers/usersControllers.js:158-184 | "All" for gender, status or address type selects as much as no filter |
| Query.NoFilterSelectsAll | backend/Controllers/usersControllers.js:143-193 | a request without filter parameters selects every record |
| Query.LocationTestsIndependent | backend/Controllers/usersControllers.js:168-179 | city and state may be met by different addresses of one customer |
| Query.SortSpecOf | backend/Controllers/usersControllers.js:200-207 | "name" sorts by first name, no field sorts by creation date, and the order is descending unless asked otherwise |
| Query.Where | backend/Controllers/usersControllers.js:210-214 | the result holds exactly the records that pass the test |
| Query.WhereAll | backend/Controllers/usersControllers.js:210-214 | a test every record passes keeps every record |
| Query.WhereAgree | backend/Controllers/usersControllers.js:210-214 | tests that agree on the records select the same records |
| Query.CeilDivMeaning | backend/Controllers/usersControllers.js:216 | `ceil(count/limit)` is the fewest pages of `limit` that hold `count` records |
| Query.WindowIndex | backend/Controllers/usersControllers.js:196-214 | the window holds the records from `skip` on, at most `limit` of them |
| Query.SortedLength | backend/Controllers/usersControllers.js:200-214 | sorting keeps the number of records |
| Query.PagedFailsIff | backend/Controllers/usersControllers.js:196-241 | a page fails exactly when a page below 1 is asked with a positive limit |
| Query.SkipNegative | backend/Controllers/usersControllers.js:196 | the skip is negative exactly for a page below 1 with a positive limit |
| Query.PageSkip | backend/Controllers/usersControllers.js:196 | from page 1 on the skip is not negative, and the next page starts `limit` records later |
| Query.PagedSound | backend/Controllers/usersControllers.js:196-238 | every record on a page matched, and the page is in the requested order |
| Query.PagedCounts | backend/Controllers/usersControllers.js:196-238 | the page size, `totalItems`, `totalPages` and both page flags match the count |
| Query.HasNextMeaning | backend/Controllers/usersControllers.js:216-238 | `hasNextPage` holds exactly when records remain after the page |
| Query.PagedCover | backend/Controllers/usersControllers.js:196-214 | with a positive limit, position `r` of page `page` holds record `(page - 1) * limit + r` of one fixed sorted sequence |
| Query.PagedEmpty | backend/Controllers/usersControllers.js:196-238 | with nothing matched, page 1 is empty with 0 pages and neither flag |
| Query.PagedWithoutLimit | backend/Controllers/usersControllers.js:196-238 | limit 0 returns every record, sorted, with `totalPages` Infinity (NaN when empty) |
| Query.ListSound | backend/Controllers/usersControllers.js:122-238 | every listed record is stored and selected, and the listing is in the requested order |
| Query.ListCountsSelection | backend/Controllers/usersControllers.js:197 | `totalItems` counts every selected record, not just the page |
| Query.ClearIsDefaultListing | backend/Controllers/usersControllers.js:589-619 | clearing the filters gives the listing asked only for the page and limit |
| Query.AddressCountStatics | backend/models/usersSchema.js:240-251 | the two statics split the records with an address and agree with the listing's `isSingleAddress` filter |
| Query.BuildLocationQuery | backend/models/usersSchema.js:222-237 | the static's filter selects exactly the location matches |
| Query.LocationSearchAgreesWithListing | backend/Controllers/usersControllers.js:570-586 | the location search selects what the listing filtered by location selects |
| Controllers.Actor | backend/Controllers/usersControllers.js:100 | the actor is the user's id when there is one, otherwise "system", and is never empty |
| Controllers.Position | backend/Controllers/usersControllers.js:62-73 | `findOne` finds the first record that passes the test, or none |
| Controllers.Find | backend/Controllers/usersControllers.js:246-276 | `findById` finds the record with the id, or reports that none has it |
| Controllers.ErrorMessages | backend/Controllers/usersControllers.js:108-115 | the messages of a validation error, one per entry, in order |
| Controllers.NewAddresses | backend/Controllers/usersControllers.js:76-101 | parsed addresses get distinct fresh ids, one per input, all below the advanced counter |
| Controllers.NewAddressesElements | backend/Controllers/usersControllers.js:76-101 | the `k`-th parsed address is built from the `k`-th input with the `k`-th fresh id |
| Controllers.RegisterConflict | backend/Controllers/usersControllers.js:62-73 | the pre-check finds the first record with the lower-cased e-mail or the raw mobile |
| Controllers.AdmitOutcomes | backend/Controllers/usersControllers.js:103-117 | saving succeeds exactly for a valid document with no index clash, appending it with hooks applied; 400 and 500 otherwise, changing nothing |
| Controllers.AdmitSaved | backend/Controllers/usersControllers.js:103-105 | a valid document with no clash is appended with its hooks applied, and the counter passes it and its addresses |
| Controllers.AppendKeepsValid | backend/models/usersSchema.js:145-146 | appending a record with the next id, fresh address ids and an unused e-mail and mobile keeps the store valid |
| Controllers.AppendedKeepsValid | backend/models/usersSchema.js:145-146 | the same, for the store a step produces |
| Controllers.AdmitKeepsValid | backend/Controllers/usersControllers.js:103-117 | saving a built document with a fresh id keeps ids, e-mails and mobiles unique |
| Controllers.RegisterPrecedence | backend/Controllers/usersControllers.js:45-118 | missing fields (400), then a duplicate (409), then unparsable addresses (400), then the save |
| Controllers.RegisterOutcomes | backend/Controllers/usersControllers.js:45-118 | registration succeeds exactly when every check passes, and any failure leaves the store unchanged |
| Controllers.RegisteredRecord | backend/Controllers/usersControllers.js:89-105 | success appends the built record, hooks applied, and the record satisfies the schema |
| Controllers.BuiltRecord | backend/Controllers/usersControllers.js:76-101 | the stored record holds the fresh id, the trimmed input and the parsed addresses as given |
| Controllers.PaddedMobileReachesIndex | backend/Controllers/usersControllers.js:62-73 | a mobile padded with a space passes the pre-check and is refused with 500 by the index |
| Controllers.EditConflict | backend/Controllers/usersControllers.js:302-319 | the conflict check finds the first other record holding a supplied e-mail or mobile |
| Controllers.UpdateErrorsEmpty | backend/Controllers/usersControllers.js:333-342 | the update validators pass exactly when every field the update sets passes its rule |
| Controllers.EditKeepsRecordValid | backend/Controllers/usersControllers.js:321-342 | a checked edit of a valid record gives a valid record |
| Controllers.EditedFields | backend/Controllers/usersControllers.js:321-331 | empty fields are kept, supplied ones stored trimmed, and addresses, dates and the flag untouched |
| Controllers.ApplyEditOutcomes | backend/Controllers/usersControllers.js:333-358 | 400 exactly for a failing set field, 500 on an index clash; success changes only the target record |
| Controllers.ApplyEditStatus | backend/Controllers/usersControllers.js:333-358 | a checked update answers 200, 400 or 500 |
| Controllers.EditRefusals | backend/Controllers/usersControllers.js:292-319 | an unknown id is 404, and a 404 or 409 leaves the store unchanged |
| Controllers.EditConflictRefusal | backend/Controllers/usersControllers.js:301-319 | on a known record, 409 exactly when another record holds a supplied e-mail or mobile |
| Controllers.EditProceeds | backend/Controllers/usersControllers.js:279-342 | an edit without refusal is the checked update of the record |
| Controllers.StatusOutcomes | backend/Controllers/usersControllers.js:396-444 | an invalid status is 400 before lookup, an unknown id 404, otherwise only status and `updatedBy` change |
| Controllers.DeleteOutcomes | backend/Controllers/usersControllers.js:363-393 | unknown id is 404; otherwise exactly that record is removed and returned |
| Controllers.SingleUserOutcomes | backend/Controllers/usersControllers.js:246-276 | the record is returned exactly when one has the id |
| Controllers.ReplaceKeepsValid | backend/models/usersSchema.js:145-146 | replacing a record by one with the same id and no clash keeps the store valid |
| Controllers.ReplacedKeepsValid | backend/models/usersSchema.js:145-146 | the same, for the store a step produces |
| Controllers.RemoveKeepsValid | backend/Controllers/usersControllers.js:374 | removing one record keeps the store valid |
| Controllers.AddAddressOutcomes | backend/Controllers/usersControllers.js:450-477 | 404 for an unknown record, 400 for an invalid result, otherwise the address appended with fresh id |
| Controllers.AddAddressSaved | backend/Controllers/usersControllers.js:450-477 | the successful branch stores the saved document and advances the counter |
| Controllers.PushedKeepsIds | backend/models/usersSchema.js:184-189 | pushing an address with the next id keeps address ids unique and below the advanced counter |
| Controllers.UpdateAddressOutcomes | backend/Controllers/usersControllers.js:480-505 | 404 for unknown record or address, 500 when invalid, otherwise that address patched |
| Controllers.UpdateAddressSaved | backend/Controllers/usersControllers.js:493-495 | the successful branch stores the saved document in place of the record |
| Controllers.PatchedKeepsIds | backend/models/usersSchema.js:194-200 | patching an address keeps address ids unique and below the counter |
| Controllers.DeleteAddressOutcomes | backend/Controllers/usersControllers.js:508-526 | on success no address has the id and a non-empty list has a default |
| Controllers.DeleteAddressSaved | backend/Controllers/usersControllers.js:520-522 | the successful branch stores the saved document in place of the record |
| Controllers.DeletedKeepsIds | backend/models/usersSchema.js:204-209 | deleting an address keeps address ids unique and below the counter |
| Controllers.DeleteAddressKeepsValid | backend/Controllers/usersControllers.js:508-526 | deleting an address keeps the store valid |
| Controllers.SetDefaultOutcomes | backend/Controllers/usersControllers.js:529-547 | on success one default for a known address id, none for an unknown one |
| Controllers.SetDefaultSaved | backend/Controllers/usersControllers.js:541-543 | the successful branch stores the saved document in place of the record |
| Controllers.DefaultSetKeepsIds | backend/models/usersSchema.js:214-218 | setting the default keeps address ids unique and below the counter |
| Controllers.RegisterKeepsValid | backend/Controllers/usersControllers.js:45-118 | registration keeps ids, e-mails and mobiles unique |
| Controllers.EditKeepsValid | backend/Controllers/usersControllers.js:279-360 | editing keeps ids, e-mails and mobiles unique |
| Controllers.StatusKeepsValid | backend/Controllers/usersControllers.js:396-444 | a status change keeps the store valid |
| Controllers.DeleteKeepsValid | backend/Controllers/usersControllers.js:363-393 | deleting keeps the store valid |
| Controllers.ListOutcomes | backend/Controllers/usersControllers.js:122-243 | 500 exactly for a page below 1 with a positive limit; otherwise only selected records; clearing is the unfiltered listing |
| Controllers.LocationOutcomes | backend/Controllers/usersControllers.js:570-586 | 400 exactly without parameters; otherwise exactly the matching stored records |
| Controllers.StaticsPartition | backend/Controllers/usersControllers.js:550-567 | a record with an address is returned by exactly one of the two statics |
| Store.CustomerStore.constructor | backend/models/usersSchema.js:51-146 | the collection starts empty and valid |
| Store.CreateAndSave | backend/Controllers/usersControllers.js:89-103 | a new document is validated, and a valid one is returned with its hooks applied |
| Store.AddAddressTo | backend/models/usersSchema.js:184-191 | `addAddress` on a record: push, then validate, then the hooks |
| Store.UpdateAddressOf | backend/models/usersSchema.js:194-201 | `updateAddress` on a record: "Address not found" for an unknown id, otherwise patch, validate and hooks |
| Store.DeleteAddressOf | backend/models/usersSchema.js:204-211 | `deleteAddress` on a record: pull and re-default, then validate and hooks |
| Store.SetDefaultOf | backend/models/usersSchema.js:214-219 | `setDefaultAddress` on a record: flag exactly the id, then validate and hooks |
| Store.CustomerStore.StoreRecord | backend/Controllers/usersControllers.js:463-465 | storing an address-changed record in place keeps the store valid |
| Store.CustomerStore.StoreEdited | backend/Controllers/usersControllers.js:333-340 | storing an edited record with no clashing e-mail or mobile keeps the store valid |
| Store.CustomerStore.StoreAppended | backend/Controllers/usersControllers.js:103 | appending a new record with a fresh id and no clash keeps the store valid |
| Store.CustomerStore.Register | backend/Controllers/usersControllers.js:45-118 | performs registration as specified and keeps the store valid |
| Store.CustomerStore.Insert | backend/Controllers/usersControllers.js:103-105 | saves a built record as specified and keeps the store valid |
| Store.CustomerStore.Edit | backend/Controllers/usersControllers.js:279-360 | performs the edit as specified and keeps the store valid |
| Store.CustomerStore.EditAt | backend/Controllers/usersControllers.js:321-358 | the update validators, the index check and the write, as specified, keeping the store valid |
| Store.CustomerStore.ChangeStatus | backend/Controllers/usersControllers.js:396-444 | performs the status change as specified and keeps the store valid |
| Store.CustomerStore.Delete | backend/Controllers/usersControllers.js:363-393 | performs the deletion as specified and keeps the store valid |
| Store.CustomerStore.AddAddress | backend/Controllers/usersControllers.js:450-477 | performs `addAddress` as specified and keeps the store valid |
| Store.CustomerStore.AddAddressAt | backend/Controllers/usersControllers.js:460-470 | the document part of `addAddress`, as specified |
| Store.CustomerStore.UpdateAddress | backend/Controllers/usersControllers.js:480-505 | performs `updateAddress` as specified and keeps the store valid |
| Store.CustomerStore.DeleteAddress | backend/Controllers/usersControllers.js:508-526 | performs `deleteAddress` as specified and keeps the store valid |
| Store.CustomerStore.SetDefaultAddress | backend/Controllers/usersControllers.js:529-547 | performs `setDefaultAddress` as specified and keeps the store valid |
| Errors.Rewrites | backend/middleware/errorHandler.js:96-122 | at most five rewrites apply, in the middleware's order |
| Errors.ErrorHandler | backend/middleware/errorHandler.js:78-129 | the reply has the effective status and message, never succeeds, and carries the stack only in development |
| Errors.CastErrorIsNotFound | backend/middleware/errorHandler.js:96-105 | a bad object id is 404 "Resource not found", unless the duplicate code overrides it |
| Errors.DuplicateKeyIsBadRequest | backend/middleware/errorHandler.js:102-105 | code 11000 is 400 "Duplicate field value entered" unless a later test matches |
| Errors.ValidationIsBadRequest | backend/middleware/errorHandler.js:108-111 | a validation error is 400 with the joined messages, or "Server Error" when they are empty |
| Errors.TokenErrorsAreUnauthorised | backend/middleware/errorHandler.js:114-122 | both token errors are 401 with their own message |
| Errors.UnrecognisedKeepsOwnFields | backend/middleware/errorHandler.js:124-128 | any other error keeps its status (500 when missing) and message ("Server Error" when empty) |
| Errors.StatusRange | backend/middleware/errorHandler.js:78-129 | the status is a mapped code or the error's own non-zero status |
| Errors.AppError.constructor | backend/middleware/errorHandler.js:181-189 | an application error holds its message and status and is operational |
| Errors.AppError.AsThrown | backend/middleware/errorHandler.js:181-189 | the middleware sees the error's name, message and status, and no code |
| Errors.AppErrorReply | backend/middleware/errorHandler.js:124-128 | an application error reaches the client with its own status and message |
| Errors.Shown | backend/middleware/errorHandler.js:170-174 | an entry shows its message, or the value itself when the message is empty |
| Errors.LastWithMeaning | backend/middleware/errorHandler.js:162-169 | a path is found exactly when some element has it, and the message is the last such one |
| Errors.ValidationErrorHandler | backend/middleware/errorHandler.js:162-178 | an array keeps the last message per non-empty path, an object maps each key, anything else gives nothing |
| Errors.DistinctPathsAllKept | backend/middleware/errorHandler.js:162-169 | with distinct paths every element with a path is kept |
| Errors.LogLevel.Name | backend/middleware/errorHandler.js:15-20 | each level has its own name: Error is "ERROR", Warn "WARN", Info "INFO" and Debug "DEBUG", and each name belongs to that level only |
| Errors.FormatMessageLayout | backend/middleware/errorHandler.js:28-32 | the line starts with the bracketed timestamp and level, then the message, then the metadata only when present |
| RegisterForm.BlankAddress | frontend/src/pages/Register/Register.js:32-41 | a new entry is empty, of type "home", in "India", with the given default flag |
| RegisterForm.WithField | frontend/src/pages/Register/Register.js:184-188 | writing a field keeps the default flag |
| RegisterForm.WithFieldChangesOnlyField | frontend/src/pages/Register/Register.js:184-188 | writing a field sets that field and leaves every other field as it was |
| RegisterForm.KeyTextInjective | frontend/src/pages/Register/Register.js:78-130 | distinct error keys are written as distinct strings |
| RegisterForm.FieldNameInjective | frontend/src/pages/Register/Register.js:82-112 | distinct fields have distinct names |
| RegisterForm.AddressKeyInjective | frontend/src/pages/Register/Register.js:115-130 | `address_${i}_${suffix}` determines the index and the check |
| RegisterForm.SplitAtSeparator | frontend/src/pages/Register/Register.js:115-130 | digits followed by `_` split back at the first `_` |
| RegisterForm.SuffixInjective | frontend/src/pages/Register/Register.js:115-130 | distinct checks have distinct key suffixes |
| RegisterForm.OneDefaultAt | frontend/src/pages/Register/Register.js:196-202 | one flagged entry and no other means a default count of one |
| RegisterForm.NoDefaults | frontend/src/pages/Register/Register.js:196-202 | no flagged entry means a count of zero |
| RegisterForm.TheDefault | frontend/src/pages/Register/Register.js:173-182 | a count of one means exactly one entry is flagged |
| RegisterForm.ZeroDefaults | frontend/src/pages/Register/Register.js:173-182 | a count of zero means no entry is flagged |
| RegisterForm.RemovedShape | frontend/src/pages/Register/Register.js:173-182 | a single entry stays; otherwise exactly that entry goes, and the first takes over a removed default |
| RegisterForm.RemovedKeepsOneDefault | frontend/src/pages/Register/Register.js:173-182 | removing from a list with one default leaves a non-empty list with one default |
| RegisterForm.DefaultAtMeaning | frontend/src/pages/Register/Register.js:196-202 | an index in range makes its entry the only default, one out of range leaves none, twice is once |
| RegisterForm.Cleared | frontend/src/pages/Register/Register.js:189-193 | clearing keeps the keys, blanks the given key's message and changes no other |
| RegisterForm.LineOneErrorSurvivesAsWritten | frontend/src/pages/Register/Register.js:116-117 | as written, editing line 1 leaves its "required" message in place |
| RegisterForm.AsWrittenAgreesExceptLineOne | frontend/src/pages/Register/Register.js:184-194 | for city, state and pincode the page's key is the reported key |
| RegisterForm.EditClearsItsError | frontend/src/pages/Register/Register.js:184-194 | corrected: after an edit the edited field's message is never shown |
| RegisterForm.Report | frontend/src/pages/Register/Register.js:79-130 | a message is stored under its key exactly when there is one, and no other key changes |
| RegisterForm.BasicFieldErrors | frontend/src/pages/Register/Register.js:82-112 | each non-address field's message is reported under its own key, and nothing else |
| RegisterForm.ReportFields | frontend/src/pages/Register/Register.js:82-112 | six reports in source order report every field |
| RegisterForm.EveryFieldReported | frontend/src/pages/Register/Register.js:82-112 | reports for the six fields are reports for every field |
| RegisterForm.ReportChecks | frontend/src/pages/Register/Register.js:115-130 | an entry's four checks are reported under their keys and no other key changes |
| RegisterForm.RegisterPage.constructor | frontend/src/pages/Register/Register.js:18-42 | empty inputs, status Active, no picture, one blank default entry, no errors |
| RegisterForm.RegisterPage.ValidateForm | frontend/src/pages/Register/Register.js:78-134 | every rule is reported under its key, and the form is accepted exactly when nothing was reported, exactly when it is valid |
| RegisterForm.RegisterPage.AddAddress | frontend/src/pages/Register/Register.js:160-171 | one blank non-default entry is appended, and one default remains |
| RegisterForm.RegisterPage.RemoveAddress | frontend/src/pages/Register/Register.js:173-182 | the entry is removed as `Removed` says, and one default remains |
| RegisterForm.RegisterPage.UpdateAddressAsWritten | frontend/src/pages/Register/Register.js:184-194 | as written: the one field is set, and the message under `address_${index}_${field}` is cleared, which for line 1 is not the key its check reports under |
| RegisterForm.RegisterPage.UpdateAddress | frontend/src/pages/Register/Register.js:184-194 | corrected: the one field is set, and the message of its check is cleared |
| RegisterForm.RegisterPage.SetDefaultAddress | frontend/src/pages/Register/Register.js:196-202 | exactly the entry at the index becomes default |
| RegisterForm.RegisterPage.SubmitSucceeded | frontend/src/pages/Register/Register.js:237-260 | after a 200 reply the form returns to its initial state |
| RegisterForm.FormValidIffNothingReported | frontend/src/pages/Register/Register.js:132-133 | a dictionary holding exactly the rules' reports is empty exactly when the form is valid |
| RegisterForm.NothingReportedIffNoMessage | frontend/src/pages/Register/Register.js:132-133 | the dictionary is empty exactly when no field and no entry's check has a message |
| RegisterForm.EveryField | frontend/src/pages/Register/Register.js:82-112 | a property of every field is the property of each of the six |
| RegisterForm.EveryCheck | frontend/src/pages/Register/Register.js:115-130 | a property of every check is the property of each of the four |
| RegisterForm.BasicValidIff | frontend/src/pages/Register/Register.js:82-112 | the non-address fields are acceptable exactly when none has a message |
| RegisterForm.NameRule | frontend/src/pages/Register/Register.js:82-92 | a name has no message exactly when it has two characters after trimming |
| RegisterForm.EmailRule | frontend/src/pages/Register/Register.js:94-98 | an e-mail has no message exactly when the pattern accepts it |
| RegisterForm.MobileRule | frontend/src/pages/Register/Register.js:100-104 | a mobile number has no message exactly when the pattern accepts it |
| RegisterForm.AddressCompleteIff | frontend/src/pages/Register/Register.js:115-130 | an entry is complete exactly when none of its four checks has a message |
| RegisterForm.CheckReports | frontend/src/pages/Register/Register.js:115-130 | no check reports on a complete entry |
| RegisterForm.DigitsNotBlank | frontend/src/pages/Register/Register.js:68-76 | a pincode or mobile accepted by its pattern is not blank |
| RegisterForm.EmailNotBlank | frontend/src/pages/Register/Register.js:63-66 | an e-mail accepted by the pattern is not blank |
| HomePage.PreviousPage | frontend/src/pages/Home/Home.js:181-186 | page 1 stays and any other page goes back, never below 1 |
| HomePage.NextPage | frontend/src/pages/Home/Home.js:189-194 | the page stays exactly at the page count and otherwise goes on; inside the range it stays inside |
| HomePage.PreviousUndoesNext | frontend/src/pages/Home/Home.js:181-194 | on and back returns to the page, unless it was the last |
| HomePage.NextUndoesPrevious | frontend/src/pages/Home/Home.js:181-194 | back and on returns to the page, unless it was the first |
| HomePage.Merged | frontend/src/pages/Home/Home.js:70-74 | a reset shows the reply alone; otherwise the reply follows the shown list |
| HomePage.LoadedIsConcatenation | frontend/src/pages/Home/Home.js:70-74 | infinite scroll shows the fetched pages in order, none dropped or repeated |
| HomePage.Effects | frontend/src/pages/Home/Home.js:173-207 | at most two fetches, all for the current state; appends only on a page change, resets only on a filter or limit change |
| HomePage.EffectsFire | frontend/src/pages/Home/Home.js:173-207 | a page change above 1 fetches and appends, a filter or limit change refetches and replaces, each exactly once |
| HomePage.QuietRender | frontend/src/pages/Home/Home.js:173-207 | a render that changes nothing starts no fetch |
| HomePage.LocationSearchAsWritten | frontend/src/pages/Home/Home.js:143-150 | as written, a location search fetches the page from before `setPage(1)` |
| HomePage.LocationSearchFetchesStalePage | frontend/src/pages/Home/Home.js:143-150 | from page 3 the search fetches page 3, not page 1 |
| HomePage.LocationSearch | frontend/src/pages/Home/Home.js:143-150 | corrected: the search fetches page 1, replacing the list, and needs a location |
| HomePage.LocationSearchAgreesOnFirstPage | frontend/src/pages/Home/Home.js:143-150 | the two agree exactly when the search starts from page 1 or does nothing |
| HomePage.ListPage.constructor | frontend/src/pages/Home/Home.js:20-43 | nothing shown, default filters, page 1 of 0, ten a page |
| HomePage.ListPage.Opened | frontend/src/pages/Home/Home.js:202-207 | on opening the filter effect fetches the current page, replacing the list |
| HomePage.ListPage.Begin | frontend/src/pages/Home/Home.js:57-60 | a fetch sets `loading` and changes nothing else |
| HomePage.ListPage.Receive | frontend/src/pages/Home/Home.js:61-89 | a reply is merged with page count and total, more remains exactly before the last page; loading ends |
| HomePage.ListPage.HandlePrevious | frontend/src/pages/Home/Home.js:181-186 | the page goes back as `PreviousPage` says, and the page effect's fetches follow |
| HomePage.ListPage.HandleNext | frontend/src/pages/Home/Home.js:189-194 | the page goes on as `NextPage` says, and the page effect's fetches follow |
| HomePage.ListPage.HandleLimitChange | frontend/src/pages/Home/Home.js:197-200 | the new limit from page 1, refetched when the limit changed |
| HomePage.ListPage.ClearAllFilters | frontend/src/pages/Home/Home.js:126-140 | every filter back to its default, page 1, and refetched when something changed |
| HomePage.ListPage.ChangeFilters | frontend/src/pages/Home/Home.js:202-207 | a filter change refetches the current page, replacing the list |
| HomePage.ListPage.HandleLocationSearch | frontend/src/pages/Home/Home.js:143-150 | corrected: without a location nothing changes; otherwise page 1 is fetched once, replacing the list |
| HomePage.ListPage.LoadMore | frontend/src/pages/Home/Home.js:166-177 | the next page only when idle with more to show, fetched and appended |

## Left out

- Request parsing edge cases: the "User ID is required" guard and the 400 for a malformed id. Ids are naturals here, so no malformed id reaches a handler.
- `parseInt` of a non-numeric page or limit (NaN), and a negative limit: the limit is a natural number.
- Logging, `NODE_ENV`, `requestLogger`, `asyncHandler` and the log file writes are I/O. The clock and the JSON serialisation of `formatMessage` are parameters.
- `validationErrorHandler` given `null` or `undefined`: the model's input is an array, an object or a scalar.
- The `filters` object echoed back in the listing reply.
- The race between the duplicate pre-check and the insert: handlers run one at a time.
- Unicode case mapping: `Lower` maps ASCII letters only. `validator.isEmail` on the server is approximated by the page's e-mail pattern.
- Image upload and the `profile` file name: a picture is a flag on the form and a string on the record.
- The profile page, the API client module and the table component are not part of this model.
- Address sub-document timestamps (`_id`, `createdAt` and `updatedAt` are reduced to a numeric id).
- handleSearchChange's 500 ms debounce timer: a search text change is modelled through `ChangeFilters`.
- The error clearing of `setInputValue` and `setProfile` on the register page, and the status dropdown.
- `deleteUser` on the home page: its `window.confirm`, its toast, and its `userGet()` append are not modelled.
- JSX rendering, toasts, navigation and the spinner timeout.
- HomePage.ListPage.Receive: `totalPages` is a natural number, so the Infinity and NaN a limit of 0 can produce do not reach the page.
- HomePage.NextPage: `pageCount` 0 (no result yet) lets the page move past the last page. This is stated, not corrected, since the listing answers an empty page.
- HomePage.ListPage.HandlePrevious: going back from page 3 to 2 fetches page 2 and appends it after pages 1 to 3. The model states this and does not call it a defect, because the list is an infinite scroll.
- Query.PagedCover: the order among records whose sort keys tie. The database promises none, and each page is a separate query, so with `sortBy` on gender, status or an equal `datecreated` two requests may disagree on that order and pages may overlap or skip records. The model sorts once and pages over that one sequence.
- Query.BuildQuery, Query.BuildLocationQuery and Controllers.LocationOutcomes: `search`, `city` and `state` reach the database as `$regex` patterns. The model reads each as a literal case-insensitive substring, so metacharacters are not interpreted, and an invalid pattern (such as `(`), which the database rejects and `handleError` turns into a 500, is not modelled.
- Ordering.FieldKey and Query.SortSpecOf: a raw `sortBy` that names none of the record's scalar fields reads as missing on every record, so all records tie. The database instead sorts the array paths `addresses.city`, `addresses.pincode` and the like by the least (ascending) or greatest (descending) element of the array, sorts `__v` as a number, and rejects an empty `sortBy=`, which the listing's catch turns into a 500 that the model does not give. The page's own sort menu offers only fields the model covers.
- Schema.NameAcceptedAfterTrim and RegisterForm.NameRule: lengths are counted in Unicode code points, while `minlength`, `maxlength` and `trim().length` count UTF-16 code units, so names with characters at or above U+10000 can be judged differently (one emoji passes the minimum of 2 in the source and fails here).
- Controllers.LocationOutcomes: the `.populate('addresses')` of the location static is left out; addresses are embedded in the record here.
- Controllers.PaddedMobileReachesIndex: a padded duplicate mobile number gets 500 instead of 409. The model states this and does not correct it, since the server still refuses the duplicate.

## Findings

| source | as written | input that shows it | evidently intended | confidence | as-written member | corrected member |
|---|---|---|---|---|---|---|
| frontend/src/pages/Register/Register.js:184-194 | typing in address line 1 clears the key `address_${index}_addressLine1`, but validation reports under `address_${index}_line1` | submit with an empty line 1, then type in line 1: "Address line 1 is required" stays shown | the edit clears the line-1 message, as it does for city, state and pincode | not executed | RegisterForm.LineOneErrorSurvivesAsWritten | RegisterForm.EditClearsItsError |
| frontend/src/pages/Home/Home.js:143-150 | `userGet(true)` runs inside the handler, so it uses the page from before `setPage(1)` | on page 3, enter a city and search: page 3 of the results replaces the list while the indicator shows page 1 | the location search fetches page 1 | not executed | HomePage.LocationSearchFetchesStalePage | HomePage.LocationSearch |
