/**
 * The request handlers of the customer API, each as the outcome it has on
 * the stored records: the reply (status, message, payload) and the store
 * after it. The store is the sequence of customer records in insertion
 * order together with the next fresh identifier; identifiers for records
 * and for address sub-documents are drawn from the same counter.
 */
module Controllers {
  import opened Wrappers
  import opened Text
  import opened Patterns
  import opened Schema
  import opened Document
  import opened Ordering
  import opened Query

  /** What a reply carries besides its status and message. */
  datatype Payload =
    | NoData
    | One(record: Customer)
    | Many(records: seq<Customer>)
    | Page(listing: Listing)
    | Messages(errors: seq<string>)

  /** A JSON reply: `success` is `status == 200`. */
  datatype Reply = Reply(status: nat, message: string, payload: Payload)

  /** A handler's reply and the store it leaves behind. */
  datatype Step = Step(reply: Reply, users: seq<Customer>, nextId: nat)

  function Fail(status: nat, message: string): Reply {
    Reply(status, message, NoData)
  }

  /** `req.user?.id || 'system'`. */
  function Actor(user: Option<string>): (r: string)
    ensures r != ""
    ensures user.Some? && user.value != "" ==> r == user.value
  {
    if user.Some? && user.value != "" then user.value else "system"
  }

  /** The position of the first record `keep` accepts (what `findOne` returns), or `|s|`. */
  function Position(s: seq<Customer>, keep: Customer -> bool): (k: nat)
    ensures k <= |s|
    ensures k < |s| ==> keep(s[k])
    ensures forall j :: 0 <= j < k ==> !keep(s[j])
    decreases |s|
  {
    if s == [] then 0 else if keep(s[0]) then 0 else 1 + Position(s[1..], keep)
  }

  /** `findById`: the position of the record with id `id`, or `|users|`. */
  function Find(users: seq<Customer>, id: nat): (k: nat)
    ensures k <= |users|
    ensures k < |users| ==> users[k].id == id
    ensures k == |users| <==> forall j :: 0 <= j < |users| ==> users[j].id != id
  {
    Position(users, (c: Customer) => c.id == id)
  }

  /** Every address id is below `bound`. */
  predicate AddressIdsBelow(s: seq<Address>, bound: nat) {
    forall k :: 0 <= k < |s| ==> s[k].id < bound
  }

  /**
   * The store's invariant: record ids, e-mails and mobile numbers are
   * unique (the `_id` and the two unique indexes), every id handed out is
   * below the next fresh one, and the addresses of a record have distinct ids.
   */
  predicate ValidStore(users: seq<Customer>, nextId: nat) {
    && (forall i, j :: 0 <= i < j < |users| ==> users[i].id != users[j].id)
    && (forall i, j :: 0 <= i < j < |users| ==> users[i].email != users[j].email)
    && (forall i, j :: 0 <= i < j < |users| ==> users[i].mobile != users[j].mobile)
    && (forall i :: 0 <= i < |users| ==>
          users[i].id < nextId && AddressIdsBelow(users[i].addresses, nextId) && UniqueIds(users[i].addresses))
  }

  /** The messages of a ValidationError's entries, in order (`Object.values(error.errors).map(err => err.message)`). */
  function ErrorMessages(errors: seq<FieldError>): (m: seq<string>)
    ensures |m| == |errors|
    ensures forall i :: 0 <= i < |errors| ==> m[i] == errors[i].message
  {
    seq(|errors|, i requires 0 <= i < |errors| => errors[i].message)
  }

  /**
   * Some record other than the one with id `except` already holds `email`
   * or `mobile`: writing them would violate a unique index.
   */
  predicate IndexClash(users: seq<Customer>, email: string, mobile: string, except: Option<nat>) {
    exists j :: 0 <= j < |users| && (except.None? || users[j].id != except.value) &&
                (users[j].email == email || users[j].mobile == mobile)
  }

  // userpost ------------------------------------------------------------------

  /** The `addresses` form field: absent, parsed into inputs, or text that is not JSON. */
  datatype AddressesField = NotGiven | Parsed(inputs: seq<AddressInput>) | Unparsable

  /** The body of a registration; an absent string field is "". */
  datatype RegisterRequest = RegisterRequest(
    fname: string,
    lname: string,
    email: string,
    mobile: string,
    gender: string,
    status: string,
    file: string,
    location: Option<string>,
    dateOfBirth: Option<Time>,
    addresses: AddressesField)

  const MissingFieldsMessage := "Required fields: First name, Last name, Email, Mobile, Gender, Status, and Profile picture are required"

  predicate MissingRequired(q: RegisterRequest) {
    q.fname == "" || q.lname == "" || q.email == "" || q.mobile == "" ||
    q.gender == "" || q.status == "" || q.file == ""
  }

  function InputsOf(field: AddressesField): seq<AddressInput> {
    if field.Parsed? then field.inputs else []
  }

  /** The parsed addresses cast into sub-documents, with ids `first`, `first + 1`, ... */
  function NewAddresses(inputs: seq<AddressInput>, first: nat): (r: seq<Address>)
    ensures |r| == |inputs|
    ensures forall k :: 0 <= k < |r| ==> r[k].id == first + k
    ensures UniqueIds(r)
    ensures forall k :: 0 <= k < |r| ==> first <= r[k].id < first + |inputs|
    decreases |inputs|
  {
    if inputs == [] then []
    else [NewAddress(first, inputs[0])] + NewAddresses(inputs[1..], first + 1)
  }

  /** The `k`-th built address is made from the `k`-th input and takes the `k`-th fresh id. */
  lemma {:induction false} NewAddressesElements(inputs: seq<AddressInput>, first: nat)
    ensures forall k :: 0 <= k < |inputs| ==> NewAddresses(inputs, first)[k] == NewAddress(first + k, inputs[k])
    decreases |inputs|
  {
    if inputs != [] {
      NewAddressesElements(inputs[1..], first + 1);
      var r := NewAddresses(inputs, first);
      forall k | 0 <= k < |inputs| ensures r[k] == NewAddress(first + k, inputs[k]) {
        if k > 0 {
          assert r[k] == NewAddresses(inputs[1..], first + 1)[k - 1];
          assert inputs[k] == inputs[1..][k - 1];
        }
      }
    }
  }

  /**
   * The document `userpost` builds: the names and mobile trimmed, the e-mail
   * lower-cased and trimmed (and lower-cased again by the schema), the
   * addresses installed as parsed, no default address forced.
   */
  function NewCustomer(q: RegisterRequest, actor: Option<string>, id: nat, now: Time): Customer {
    Customer(
      id, Trim(q.fname), Trim(q.lname), Lower(Trim(Lower(q.email))), Trim(q.mobile),
      q.gender, q.status, q.file,
      NewAddresses(InputsOf(q.addresses), id + 1),
      Trim(q.location.GetOr("")), q.dateOfBirth,
      false, now, now, Actor(actor), "system")
  }

  /** The first record the duplicate pre-check finds: same lower-cased e-mail or same raw mobile. */
  function RegisterConflict(users: seq<Customer>, q: RegisterRequest): (k: nat)
    ensures k <= |users|
    ensures k < |users| ==> users[k].email == Lower(q.email) || users[k].mobile == q.mobile
    ensures forall i :: 0 <= i < k ==> users[i].email != Lower(q.email) && users[i].mobile != q.mobile
  {
    var email := Lower(q.email);
    Position(users, (c: Customer) => c.email == email || c.mobile == q.mobile)
  }

  /** The last steps of `userpost`, once the document `c` is built: `save()` validates it, then the unique indexes are checked. */
  function Admit(users: seq<Customer>, nextId: nat, c: Customer, now: Time): Step {
    var v := Validated(c, now);
    if v.Invalid? then Step(Reply(400, "Validation failed", Messages(ErrorMessages(v.errors))), users, nextId)
    else
      var saved := Hooked(c, true, false, now);
      if IndexClash(users, saved.email, saved.mobile, None) then Step(Fail(500, "Failed to create customer"), users, nextId)
      else Step(Reply(200, "Customer created successfully", One(saved)), users + [saved], nextId + 1 + |c.addresses|)
  }

  /** The outcome of `userpost`. */
  function RegisterOutcome(users: seq<Customer>, nextId: nat, q: RegisterRequest, actor: Option<string>, now: Time): Step {
    if MissingRequired(q) then Step(Fail(400, MissingFieldsMessage), users, nextId)
    else
      var k := RegisterConflict(users, q);
      if k < |users| then
        Step(Fail(409, if users[k].email == Lower(q.email) then "User with this email already exists"
                       else "User with this mobile number already exists"), users, nextId)
      else if q.addresses.Unparsable? then Step(Fail(400, "Invalid address format"), users, nextId)
      else Admit(users, nextId, NewCustomer(q, actor, nextId, now), now)
  }

  /**
   * Saving a built document succeeds exactly when it satisfies the schema
   * and no stored record holds its e-mail or mobile; success appends it
   * with its hooks applied and moves the fresh id past it and its
   * addresses, and a failure changes nothing.
   */
  lemma AdmitOutcomes(users: seq<Customer>, nextId: nat, c: Customer, now: Time)
    ensures var s := Admit(users, nextId, c, now);
            && (s.reply.status != 200 ==> s.users == users && s.nextId == nextId)
            && (s.reply.status == 200 || s.reply.status == 400 || s.reply.status == 500)
            && (s.reply.status == 400 <==> !ValidCustomer(c, now))
            && (s.reply.status == 500 ==> s.reply == Fail(500, "Failed to create customer"))
            && (s.reply.status == 200 <==> ValidCustomer(c, now) && !IndexClash(users, c.email, c.mobile, None))
            && (s.reply.status == 200 ==>
                  && s.users == users + [Hooked(c, true, false, now)]
                  && s.reply.payload == One(Hooked(c, true, false, now))
                  && s.nextId == nextId + 1 + |c.addresses|)
  {
    ValidatedMeaning(c, now);
  }

  /** The successful branch of a save at registration, stated on its own: the record appended with its hooks applied. */
  lemma AdmitSaved(users: seq<Customer>, nextId: nat, c: Customer, now: Time, saved: Customer)
    requires Validated(c, now).Saved? && saved == Hooked(c, true, false, now)
    requires !IndexClash(users, saved.email, saved.mobile, None)
    ensures Admit(users, nextId, c, now)
              == Step(Reply(200, "Customer created successfully", One(saved)), users + [saved], nextId + 1 + |c.addresses|)
  {
    assert !Validated(c, now).Invalid?;
  }

  /**
   * Appending a record whose id is the next fresh one, whose address ids are
   * unique and below the new bound, and whose e-mail and mobile no stored
   * record holds, keeps the store valid.
   */
  lemma AppendKeepsValid(users: seq<Customer>, nextId: nat, r: Customer, bound: nat)
    requires ValidStore(users, nextId) && r.id == nextId && nextId < bound
    requires UniqueIds(r.addresses) && AddressIdsBelow(r.addresses, bound)
    requires !IndexClash(users, r.email, r.mobile, None)
    ensures ValidStore(users + [r], bound)
  {
    var s := users + [r];
    forall i | 0 <= i < |s|
      ensures s[i].id < bound && AddressIdsBelow(s[i].addresses, bound) && UniqueIds(s[i].addresses)
    {
      if i < |users| {
        assert s[i] == users[i];
      }
    }
  }

  /** AppendKeepsValid, for a store given as the result of a step. */
  lemma AppendedKeepsValid(users: seq<Customer>, nextId: nat, r: Customer, after: seq<Customer>, bound: nat)
    requires ValidStore(users, nextId) && r.id == nextId && nextId < bound
    requires UniqueIds(r.addresses) && AddressIdsBelow(r.addresses, bound)
    requires !IndexClash(users, r.email, r.mobile, None) && after == users + [r]
    ensures ValidStore(after, bound)
  {
    AppendKeepsValid(users, nextId, r, bound);
  }

  /** A save at registration keeps the store valid, given a fresh id and address ids below the new bound. */
  lemma AdmitKeepsValid(users: seq<Customer>, nextId: nat, c: Customer, now: Time)
    requires ValidStore(users, nextId) && c.id == nextId && UniqueIds(c.addresses)
    requires AddressIdsBelow(c.addresses, nextId + 1 + |c.addresses|)
    ensures var s := Admit(users, nextId, c, now);
            ValidStore(s.users, s.nextId)
  {
    var s := Admit(users, nextId, c, now);
    var saved := Hooked(c, true, false, now);
    if Validated(c, now).Invalid? || IndexClash(users, saved.email, saved.mobile, None) {
      assert s.users == users && s.nextId == nextId;
    } else {
      AdmitSaved(users, nextId, c, now, saved);
      AppendedKeepsValid(users, nextId, saved, s.users, s.nextId);
    }
  }

  /**
   * Registration's checks in order of precedence: missing fields (400),
   * then a record with the same e-mail or mobile (409), then unparsable
   * addresses (400); a request that passes them is saved.
   */
  lemma RegisterPrecedence(users: seq<Customer>, nextId: nat, q: RegisterRequest, actor: Option<string>, now: Time)
    ensures var s := RegisterOutcome(users, nextId, q, actor, now);
            && (MissingRequired(q) ==> s.reply == Fail(400, MissingFieldsMessage))
            && (!MissingRequired(q) ==>
                  (s.reply.status == 409 <==>
                     exists j :: 0 <= j < |users| && (users[j].email == Lower(q.email) || users[j].mobile == q.mobile)))
            && (!MissingRequired(q) && s.reply.status != 409 && q.addresses.Unparsable? ==>
                  s.reply == Fail(400, "Invalid address format"))
            && (!MissingRequired(q) && s.reply.status != 409 && !q.addresses.Unparsable? ==>
                  s == Admit(users, nextId, NewCustomer(q, actor, nextId, now), now))
  {
    var k := RegisterConflict(users, q);
    AdmitOutcomes(users, nextId, NewCustomer(q, actor, nextId, now), now);
    if !MissingRequired(q) && exists j :: 0 <= j < |users| && (users[j].email == Lower(q.email) || users[j].mobile == q.mobile) {
      var j :| 0 <= j < |users| && (users[j].email == Lower(q.email) || users[j].mobile == q.mobile);
      assert k <= j;
    }
  }

  /**
   * Registration succeeds exactly when every check passes and the built
   * document satisfies the schema without colliding with a stored e-mail
   * or mobile; any failure leaves the store as it was.
   */
  lemma RegisterOutcomes(users: seq<Customer>, nextId: nat, q: RegisterRequest, actor: Option<string>, now: Time)
    ensures var s := RegisterOutcome(users, nextId, q, actor, now);
            var c := NewCustomer(q, actor, nextId, now);
            && (s.reply.status != 200 ==> s.users == users && s.nextId == nextId)
            && (s.reply.status == 200 <==>
                  && !MissingRequired(q)
                  && (forall j :: 0 <= j < |users| ==> users[j].email != Lower(q.email) && users[j].mobile != q.mobile)
                  && !q.addresses.Unparsable?
                  && ValidCustomer(c, now) && !IndexClash(users, c.email, c.mobile, None))
            && (s.reply.status == 200 ==> s == Admit(users, nextId, c, now))
  {
    RegisterPrecedence(users, nextId, q, actor, now);
    var s := RegisterOutcome(users, nextId, q, actor, now);
    var c := NewCustomer(q, actor, nextId, now);
    if !MissingRequired(q) && s.reply.status != 409 && !q.addresses.Unparsable? {
      AdmitOutcomes(users, nextId, c, now);
    }
  }

  /** A successful registration appends the built document, hooks applied, and it satisfies the schema. */
  lemma RegisteredRecord(users: seq<Customer>, nextId: nat, q: RegisterRequest, actor: Option<string>, now: Time)
    requires RegisterOutcome(users, nextId, q, actor, now).reply.status == 200
    ensures var s := RegisterOutcome(users, nextId, q, actor, now);
            var r := Hooked(NewCustomer(q, actor, nextId, now), true, false, now);
            && s.users == users + [r] && s.reply.payload == One(r)
            && s.nextId == nextId + 1 + |InputsOf(q.addresses)|
            && ValidCustomer(r, now)
  {
    RegisterOutcomes(users, nextId, q, actor, now);
    var c := NewCustomer(q, actor, nextId, now);
    AdmitOutcomes(users, nextId, c, now);
  }

  /**
   * The record registration stores: its id is the fresh one, its text
   * fields are the trimmed input, and its addresses are the parsed ones as
   * given (one address makes it a single-address customer; no address is
   * made default that the client did not flag).
   */
  lemma BuiltRecord(q: RegisterRequest, actor: Option<string>, id: nat, now: Time)
    ensures var r := Hooked(NewCustomer(q, actor, id, now), true, false, now);
            var inputs := InputsOf(q.addresses);
            && r.id == id
            && r.fname == Trim(q.fname) && r.lname == Trim(q.lname)
            && r.email == Lower(Trim(Lower(q.email))) && r.mobile == Trim(q.mobile)
            && r.createdBy == Actor(actor) && r.updatedBy == "system"
            && r.datecreated == now && r.dateUpdated == now
            && |r.addresses| == |inputs|
            && (forall k :: 0 <= k < |inputs| ==> r.addresses[k] == NewAddress(id + 1 + k, inputs[k]))
            && r.isSingleAddress == (|inputs| == 1)
            && ((forall k :: 0 <= k < |inputs| ==> inputs[k].isDefault != Some(true)) ==> !HasDefault(r.addresses))
  {
    SingleFlagMeaning(|InputsOf(q.addresses)|, false);
    NewAddressesElements(InputsOf(q.addresses), id + 1);
  }

  /**
   * The duplicate pre-check compares the raw mobile number while the index
   * holds the trimmed one: a mobile number that differs from a stored one
   * only by a leading space passes the pre-check and is refused by the
   * unique index with a 500 instead of a 409.
   */
  lemma PaddedMobileReachesIndex(users: seq<Customer>, nextId: nat, q: RegisterRequest, actor: Option<string>, now: Time, j: nat)
    requires j < |users| && ValidMobile(users[j].mobile)
    requires forall i :: 0 <= i < |users| ==> ValidMobile(users[i].mobile) && users[i].email != Lower(q.email)
    requires q.mobile == " " + users[j].mobile
    requires !MissingRequired(q) && !q.addresses.Unparsable?
    requires ValidCustomer(NewCustomer(q, actor, nextId, now), now)
    ensures RegisterOutcome(users, nextId, q, actor, now).reply == Fail(500, "Failed to create customer")
  {
    var m := users[j].mobile;
    assert q.mobile[1..] == m;
    assert IsSpace(q.mobile[0]) && !IsSpace(q.mobile[1]) && !IsSpace(q.mobile[|q.mobile| - 1]);
    assert Trim(q.mobile) == m;
    forall i | 0 <= i < |users| ensures users[i].mobile != q.mobile {
      assert users[i].mobile[0] != q.mobile[0];
    }
    RegisterPrecedence(users, nextId, q, actor, now);
    var c := NewCustomer(q, actor, nextId, now);
    assert c.mobile == m;
    assert IndexClash(users, c.email, c.mobile, None);
    AdmitOutcomes(users, nextId, c, now);
  }

  // useredit ------------------------------------------------------------------

  /** The body of an edit; an absent string field is "", `location` keeps absent apart from empty. */
  datatype EditRequest = EditRequest(
    fname: string,
    lname: string,
    email: string,
    mobile: string,
    gender: string,
    location: Option<string>,
    status: string,
    file: string)

  /** The `updateData` object: a value for each truthy field (for `location`, each supplied one), and `updatedBy` always. */
  datatype Update = Update(
    fname: Option<string>,
    lname: Option<string>,
    email: Option<string>,
    mobile: Option<string>,
    gender: Option<string>,
    location: Option<string>,
    status: Option<string>,
    profile: Option<string>,
    updatedBy: string)

  function UpdateOf(q: EditRequest, actor: Option<string>): Update {
    Update(
      if q.fname != "" then Some(Trim(q.fname)) else None,
      if q.lname != "" then Some(Trim(q.lname)) else None,
      if q.email != "" then Some(Lower(Trim(Lower(q.email)))) else None,
      if q.mobile != "" then Some(Trim(q.mobile)) else None,
      if q.gender != "" then Some(q.gender) else None,
      if q.location.Some? then Some(Trim(q.location.value)) else None,
      if q.status != "" then Some(q.status) else None,
      if q.file != "" then Some(q.file) else None,
      Actor(actor))
  }

  /** `findByIdAndUpdate`: the fields the update sets are overwritten, the others kept. */
  function Apply(c: Customer, u: Update): Customer {
    c.(fname := u.fname.GetOr(c.fname), lname := u.lname.GetOr(c.lname),
       email := u.email.GetOr(c.email), mobile := u.mobile.GetOr(c.mobile),
       gender := u.gender.GetOr(c.gender), location := u.location.GetOr(c.location),
       status := u.status.GetOr(c.status), profile := u.profile.GetOr(c.profile),
       updatedBy := u.updatedBy)
  }

  /**
   * The update validators (`runValidators`): only the paths the update
   * sets are checked, in schema order. A profile set by an edit is never
   * empty, so its required rule cannot fail.
   */
  function UpdateErrors(u: Update): seq<FieldError> {
    (if u.fname.Some? then NameErrors("fname", "First name", u.fname.value) else [])
    + (if u.lname.Some? then NameErrors("lname", "Last name", u.lname.value) else [])
    + (if u.email.Some? then CheckedErrors("email", "Email is required", u.email.value, ValidEmail(u.email.value),
                                            "Please provide a valid email address") else [])
    + (if u.mobile.Some? then CheckedErrors("mobile", "Mobile number is required", u.mobile.value, ValidMobile(u.mobile.value),
                                             "Please provide a valid 10-digit mobile number starting with 6-9") else [])
    + (if u.gender.Some? then EnumErrors("gender", "Gender is required", u.gender.value, IsGender(u.gender.value)) else [])
    + (if u.status.Some? then EnumErrors("status", "Status is required", u.status.value, IsStatus(u.status.value)) else [])
  }

  /** `c` is another record holding the e-mail or the mobile number the edit supplies. */
  predicate Clashes(c: Customer, id: nat, q: EditRequest) {
    c.id != id && ((q.email != "" && c.email == Lower(q.email)) || (q.mobile != "" && c.mobile == q.mobile))
  }

  /** The first other record the conflict check finds: a supplied e-mail (lower-cased) or a supplied mobile. */
  function EditConflict(users: seq<Customer>, id: nat, q: EditRequest): (j: nat)
    ensures j <= |users|
    ensures j < |users| ==> Clashes(users[j], id, q)
    ensures forall i :: 0 <= i < j ==> !Clashes(users[i], id, q)
  {
    Position(users, (c: Customer) => Clashes(c, id, q))
  }

  /** The last steps of `useredit` on the record at `k`: the update validators, then the unique indexes. */
  function ApplyEdit(users: seq<Customer>, nextId: nat, k: nat, u: Update): Step
    requires k < |users|
  {
    var errors := UpdateErrors(u);
    if errors != [] then Step(Reply(400, "Validation failed", Messages(ErrorMessages(errors))), users, nextId)
    else
      var updated := Apply(users[k], u);
      if IndexClash(users, updated.email, updated.mobile, Some(users[k].id)) then Step(Fail(500, "Failed to update user"), users, nextId)
      else Step(Reply(200, "User updated successfully", One(updated)), users[k := updated], nextId)
  }

  /** The outcome of `useredit`; no save hook runs on this path. */
  function EditOutcome(users: seq<Customer>, nextId: nat, id: nat, q: EditRequest, actor: Option<string>): Step {
    var k := Find(users, id);
    if k == |users| then Step(Fail(404, "User not found"), users, nextId)
    else
      var j := EditConflict(users, id, q);
      if (q.email != "" || q.mobile != "") && j < |users| then
        Step(Fail(409, if q.email != "" && users[j].email == Lower(q.email) then "Email already exists for another user"
                       else "Mobile number already exists for another user"), users, nextId)
      else ApplyEdit(users, nextId, k, UpdateOf(q, actor))
  }

  /** No update error is reported exactly when every field the update sets passes its rule. */
  lemma UpdateErrorsEmpty(u: Update)
    ensures UpdateErrors(u) == [] <==>
              && (u.fname.Some? ==> ValidName(u.fname.value)) && (u.lname.Some? ==> ValidName(u.lname.value))
              && (u.email.Some? ==> ValidEmail(u.email.value)) && (u.mobile.Some? ==> ValidMobile(u.mobile.value))
              && (u.gender.Some? ==> IsGender(u.gender.value)) && (u.status.Some? ==> IsStatus(u.status.value))
  {
  }

  /** An edit that passes its validators, applied to a record that satisfies the schema, yields a record that still does. */
  lemma EditKeepsRecordValid(c: Customer, q: EditRequest, actor: Option<string>, now: Time)
    requires ValidCustomer(c, now) && UpdateErrors(UpdateOf(q, actor)) == []
    ensures ValidCustomer(Apply(c, UpdateOf(q, actor)), now)
  {
    UpdateErrorsEmpty(UpdateOf(q, actor));
  }

  /**
   * The record an edit writes: every field the request leaves empty keeps
   * its value, a supplied one is stored trimmed, and the fields an edit
   * never touches (addresses, the single-address flag, `dateUpdated`, the
   * creation audit) stay as they were, since no save hook runs on this path.
   */
  lemma EditedFields(c: Customer, q: EditRequest, actor: Option<string>)
    ensures var r := Apply(c, UpdateOf(q, actor));
            && r.id == c.id && r.addresses == c.addresses
            && r.isSingleAddress == c.isSingleAddress && r.dateUpdated == c.dateUpdated
            && r.datecreated == c.datecreated && r.createdBy == c.createdBy
            && r.dateOfBirth == c.dateOfBirth && r.updatedBy == Actor(actor)
            && (q.fname == "" ==> r.fname == c.fname) && (q.fname != "" ==> r.fname == Trim(q.fname))
            && (q.lname == "" ==> r.lname == c.lname) && (q.lname != "" ==> r.lname == Trim(q.lname))
            && (q.email == "" ==> r.email == c.email) && (q.email != "" ==> r.email == Lower(Trim(Lower(q.email))))
            && (q.mobile == "" ==> r.mobile == c.mobile) && (q.mobile != "" ==> r.mobile == Trim(q.mobile))
            && (q.gender == "" ==> r.gender == c.gender) && (q.status == "" ==> r.status == c.status)
            && (q.file == "" ==> r.profile == c.profile)
            && (q.location.None? ==> r.location == c.location)
  {
  }

  /**
   * Applying a checked update: 400 exactly when a set field breaks its
   * rule, 500 when another record holds the new e-mail or mobile; on
   * success only the record at `k` changes. The store stays valid.
   */
  lemma ApplyEditOutcomes(users: seq<Customer>, nextId: nat, k: nat, u: Update)
    requires k < |users|
    ensures var s := ApplyEdit(users, nextId, k, u);
            && s.nextId == nextId
            && (s.reply.status != 200 ==> s.users == users)
            && (s.reply.status == 200 || s.reply.status == 400 || s.reply.status == 500)
            && (s.reply.status == 400 <==> UpdateErrors(u) != [])
            && (s.reply.status == 200 ==>
                  s.users == users[k := Apply(users[k], u)] && s.reply.payload == One(Apply(users[k], u)))
    ensures ValidStore(users, nextId) ==> ValidStore(ApplyEdit(users, nextId, k, u).users, nextId)
  {
    var s := ApplyEdit(users, nextId, k, u);
    if s.reply.status == 200 && ValidStore(users, nextId) {
      var r := Apply(users[k], u);
      assert !IndexClash(users, r.email, r.mobile, Some(users[k].id));
      ReplaceKeepsValid(users, nextId, k, r, nextId);
    }
  }

  /** A checked update answers 200, 400 or 500. */
  lemma ApplyEditStatus(users: seq<Customer>, nextId: nat, k: nat, u: Update)
    requires k < |users|
    ensures var s := ApplyEdit(users, nextId, k, u);
            s.reply.status == 200 || s.reply.status == 400 || s.reply.status == 500
  {
  }

  /** Another record holds the e-mail or the mobile number the edit supplies. */
  predicate EditClash(users: seq<Customer>, id: nat, q: EditRequest) {
    exists j :: 0 <= j < |users| && Clashes(users[j], id, q)
  }

  /** Edit's refusals: an unknown id is 404, and a refusal leaves the store as it was. */
  lemma EditRefusals(users: seq<Customer>, nextId: nat, id: nat, q: EditRequest, actor: Option<string>)
    ensures var s := EditOutcome(users, nextId, id, q, actor);
            && (Find(users, id) == |users| <==> s.reply == Fail(404, "User not found"))
            && (s.reply.status == 404 || s.reply.status == 409 ==> s.users == users)
  {
    var k := Find(users, id);
    if k < |users| {
      var j := EditConflict(users, id, q);
      if !((q.email != "" || q.mobile != "") && j < |users|) {
        EditProceeds(users, nextId, id, q, actor);
        ApplyEditStatus(users, nextId, k, UpdateOf(q, actor));
      }
    }
  }

  /** On a known record, the edit is refused with 409 exactly when another record holds the e-mail or mobile it supplies. */
  lemma EditConflictRefusal(users: seq<Customer>, nextId: nat, id: nat, q: EditRequest, actor: Option<string>)
    requires Find(users, id) < |users|
    ensures EditOutcome(users, nextId, id, q, actor).reply.status == 409 <==> EditClash(users, id, q)
  {
    var k := Find(users, id);
    var j := EditConflict(users, id, q);
    if (q.email != "" || q.mobile != "") && j < |users| {
      assert Clashes(users[j], id, q);
    } else {
      EditProceeds(users, nextId, id, q, actor);
      ApplyEditStatus(users, nextId, k, UpdateOf(q, actor));
      forall i | 0 <= i < |users| ensures !Clashes(users[i], id, q) {
        if q.email != "" || q.mobile != "" {
          assert i < j;
        }
      }
    }
  }

  /**
   * An edit of a known record whose conflict search finds nothing (or is
   * skipped, when neither e-mail nor mobile is supplied) is the checked
   * update of that record.
   */
  lemma EditProceeds(users: seq<Customer>, nextId: nat, id: nat, q: EditRequest, actor: Option<string>)
    requires Find(users, id) < |users|
    requires q.email != "" || q.mobile != "" ==> EditConflict(users, id, q) == |users|
    ensures EditOutcome(users, nextId, id, q, actor) == ApplyEdit(users, nextId, Find(users, id), UpdateOf(q, actor))
  {
  }

  // userstatus ----------------------------------------------------------------

  /** The outcome of `userstatus`: the status is checked before the record is looked up. */
  function StatusOutcome(users: seq<Customer>, nextId: nat, id: nat, data: string, actor: Option<string>): Step {
    if !IsStatus(data) then Step(Fail(400, "Valid status (Active/InActive) is required"), users, nextId)
    else
      var k := Find(users, id);
      if k == |users| then Step(Fail(404, "User not found"), users, nextId)
      else
        var updated := users[k].(status := data, updatedBy := Actor(actor));
        Step(Reply(200, "User status updated to " + data, One(updated)), users[k := updated], nextId)
  }

  /**
   * A status other than "Active" or "InActive" is refused with 400 whether
   * or not the record exists; a valid status on an unknown id is 404;
   * otherwise exactly the target's status and `updatedBy` change.
   */
  lemma StatusOutcomes(users: seq<Customer>, nextId: nat, id: nat, data: string, actor: Option<string>, now: Time)
    ensures var s := StatusOutcome(users, nextId, id, data, actor);
            var k := Find(users, id);
            && s.nextId == nextId
            && (s.reply.status != 200 ==> s.users == users)
            && (!IsStatus(data) <==> s.reply.status == 400)
            && (IsStatus(data) && k == |users| <==> s.reply == Fail(404, "User not found"))
            && (s.reply.status == 200 ==>
                  && s.users == users[k := users[k].(status := data, updatedBy := Actor(actor))]
                  && s.reply.message == "User status updated to " + data
                  && (ValidCustomer(users[k], now) ==> ValidCustomer(s.users[k], now)))
  {
  }

  // userdelete / singleuserget ------------------------------------------------

  /** The outcome of `userdelete`. */
  function DeleteOutcome(users: seq<Customer>, nextId: nat, id: nat): Step {
    var k := Find(users, id);
    if k == |users| then Step(Fail(404, "User not found"), users, nextId)
    else Step(Reply(200, "User deleted successfully", One(users[k])), users[..k] + users[k + 1..], nextId)
  }

  /**
   * Deleting an unknown id is 404 and changes nothing; deleting a known id
   * removes exactly that record, returns it, and leaves no record with the id.
   */
  lemma DeleteOutcomes(users: seq<Customer>, nextId: nat, id: nat)
    requires ValidStore(users, nextId)
    ensures var s := DeleteOutcome(users, nextId, id);
            && s.nextId == nextId
            && ((forall j :: 0 <= j < |users| ==> users[j].id != id) <==> s.reply == Fail(404, "User not found"))
            && (s.reply.status != 200 ==> s.users == users)
            && (s.reply.status == 200 ==>
                  && s.reply.payload.One? && s.reply.payload.record.id == id
                  && multiset(s.users) + multiset{s.reply.payload.record} == multiset(users)
                  && forall j :: 0 <= j < |s.users| ==> s.users[j].id != id)
  {
    var k := Find(users, id);
    if k < |users| {
      assert users == users[..k] + [users[k]] + users[k + 1..];
      var r := users[..k] + users[k + 1..];
      forall j | 0 <= j < |r| ensures r[j].id != id {
        if j < k {
          assert r[j] == users[j];
        } else {
          assert r[j] == users[j + 1];
        }
      }
    }
  }

  /** The outcome of `singleuserget`. */
  function SingleUserOutcome(users: seq<Customer>, id: nat): Reply {
    var k := Find(users, id);
    if k == |users| then Fail(404, "User not found") else Reply(200, "User details retrieved successfully", One(users[k]))
  }

  /** The record is returned exactly when one has the id, and it is that record. */
  lemma SingleUserOutcomes(users: seq<Customer>, id: nat)
    ensures SingleUserOutcome(users, id).status == 200 <==> exists j :: 0 <= j < |users| && users[j].id == id
    ensures SingleUserOutcome(users, id).status == 200 ==>
              SingleUserOutcome(users, id).payload.One? &&
              SingleUserOutcome(users, id).payload.record in users &&
              SingleUserOutcome(users, id).payload.record.id == id
  {
  }

  // Address handlers ----------------------------------------------------------

  /** The outcome of `addAddress`; the new address takes the next fresh id. */
  function AddAddressOutcome(users: seq<Customer>, nextId: nat, id: nat, input: AddressInput, now: Time): Step {
    var k := Find(users, id);
    if k == |users| then Step(Fail(404, "User not found"), users, nextId)
    else
      var changed := users[k].(addresses := Pushed(users[k].addresses, NewAddress(nextId, input)));
      var v := Validated(changed, now);
      if v.Invalid? then Step(Reply(400, "Address validation failed", Messages(ErrorMessages(v.errors))), users, nextId)
      else
        var saved := Hooked(changed, false, true, now);
        Step(Reply(200, "Address added successfully", One(saved)), users[k := saved], nextId + 1)
  }

  /** The outcome of `updateAddress`; a validation failure is reported as a server error. */
  function UpdateAddressOutcome(users: seq<Customer>, nextId: nat, id: nat, addressId: nat, patch: AddressPatch, now: Time): Step {
    var k := Find(users, id);
    if k == |users| then Step(Fail(404, "User not found"), users, nextId)
    else
      var list := Patched(users[k].addresses, addressId, patch);
      if list.None? then Step(Fail(404, "Address not found"), users, nextId)
      else
        var changed := users[k].(addresses := list.value);
        if Validated(changed, now).Invalid? then Step(Fail(500, "Failed to update address"), users, nextId)
        else
          var saved := Hooked(changed, false, list.value != users[k].addresses, now);
          Step(Reply(200, "Address updated successfully", One(saved)), users[k := saved], nextId)
  }

  /** The outcome of `deleteAddress`; an unknown address id still saves the record. */
  function DeleteAddressOutcome(users: seq<Customer>, nextId: nat, id: nat, addressId: nat, now: Time): Step {
    var k := Find(users, id);
    if k == |users| then Step(Fail(404, "User not found"), users, nextId)
    else
      var changed := users[k].(addresses := Deleted(users[k].addresses, addressId));
      if Validated(changed, now).Invalid? then Step(Fail(500, "Failed to delete address"), users, nextId)
      else
        var saved := Hooked(changed, false, true, now);
        Step(Reply(200, "Address deleted successfully", One(saved)), users[k := saved], nextId)
  }

  /** The outcome of `setDefaultAddress`; an unknown address id clears every default flag. */
  function SetDefaultOutcome(users: seq<Customer>, nextId: nat, id: nat, addressId: nat, now: Time): Step {
    var k := Find(users, id);
    if k == |users| then Step(Fail(404, "User not found"), users, nextId)
    else
      var list := DefaultSetTo(users[k].addresses, addressId);
      var changed := users[k].(addresses := list);
      if Validated(changed, now).Invalid? then Step(Fail(500, "Failed to set default address"), users, nextId)
      else
        var saved := Hooked(changed, false, list != users[k].addresses, now);
        Step(Reply(200, "Default address updated successfully", One(saved)), users[k := saved], nextId)
  }

  /** ReplaceKeepsValid, for a store given as the result of a step. */
  lemma ReplacedKeepsValid(users: seq<Customer>, nextId: nat, k: nat, r: Customer, after: seq<Customer>, bound: nat)
    requires ValidStore(users, nextId) && k < |users| && nextId <= bound
    requires r.id == users[k].id
    requires forall j :: 0 <= j < |users| && j != k ==> users[j].email != r.email && users[j].mobile != r.mobile
    requires UniqueIds(r.addresses) && AddressIdsBelow(r.addresses, bound) && after == users[k := r]
    ensures ValidStore(after, bound)
  {
    ReplaceKeepsValid(users, nextId, k, r, bound);
  }

  /** Replacing one record by another with the same id and unclashing e-mail and mobile keeps the store valid. */
  lemma ReplaceKeepsValid(users: seq<Customer>, nextId: nat, k: nat, r: Customer, bound: nat)
    requires ValidStore(users, nextId) && k < |users| && nextId <= bound
    requires r.id == users[k].id
    requires forall j :: 0 <= j < |users| && j != k ==> users[j].email != r.email && users[j].mobile != r.mobile
    requires UniqueIds(r.addresses) && AddressIdsBelow(r.addresses, bound)
    ensures ValidStore(users[k := r], bound)
  {
  }

  /** Deleting an address keeps the list's ids unique and below the bound: the remaining ids are a subset of the previous ones. */
  lemma DeletedKeepsIds(s: seq<Address>, id: nat, bound: nat)
    requires UniqueIds(s) && AddressIdsBelow(s, bound)
    ensures UniqueIds(Deleted(s, id)) && AddressIdsBelow(Deleted(s, id), bound)
  {
    DeletedUniqueIds(s, id);
    var kept := Without(s, id);
    forall k | 0 <= k < |kept| ensures kept[k].id < bound {
      assert kept[k] in s;
    }
  }

  /**
   * Adding an address: 404 for an unknown record, 400 with the validation
   * messages when the record with the new address breaks the schema,
   * otherwise the record stored with the address appended (default when it
   * is the first), `dateUpdated` stamped and the single-address flag
   * recomputed. The store stays valid.
   */
  lemma AddAddressOutcomes(users: seq<Customer>, nextId: nat, id: nat, input: AddressInput, now: Time)
    requires ValidStore(users, nextId)
    ensures var s := AddAddressOutcome(users, nextId, id, input, now);
            var k := Find(users, id);
            && ValidStore(s.users, s.nextId)
            && (k == |users| <==> s.reply == Fail(404, "User not found"))
            && (s.reply.status != 200 ==> s.users == users && s.nextId == nextId)
            && (k < |users| ==>
                  (s.reply.status == 200 <==>
                     ValidCustomer(users[k].(addresses := Pushed(users[k].addresses, NewAddress(nextId, input))), now)))
            && (s.reply.status == 200 ==>
                  k < |users| && k < |s.users| &&
                  var old_ := users[k];
                  var r := s.users[k];
                  && s.users == users[k := r] && s.nextId == nextId + 1
                  && r == old_.(addresses := Pushed(old_.addresses, NewAddress(nextId, input)),
                                isSingleAddress := SingleFlag(|old_.addresses| + 1, old_.isSingleAddress),
                                dateUpdated := now)
                  && (old_.addresses == [] ==> DefaultCount(r.addresses) == 1))
  {
    var k := Find(users, id);
    if k < |users| {
      var c := users[k];
      var a := NewAddress(nextId, input);
      var changed := c.(addresses := Pushed(c.addresses, a));
      ValidatedMeaning(changed, now);
      PushedDefaults(c.addresses, a);
      if Validated(changed, now).Saved? {
        var saved := Hooked(changed, false, true, now);
        AddAddressSaved(users, nextId, id, input, now, k, changed, saved);
        PushedKeepsIds(c.addresses, a, nextId);
        ReplaceKeepsValid(users, nextId, k, saved, nextId + 1);
      }
    }
  }

  /** The successful branch of `addAddress`, stated on its own: the record at `k` replaced by the saved document and the counter advanced. */
  lemma AddAddressSaved(users: seq<Customer>, nextId: nat, id: nat, input: AddressInput, now: Time, k: nat, changed: Customer, saved: Customer)
    requires k == Find(users, id) && k < |users|
    requires changed == users[k].(addresses := Pushed(users[k].addresses, NewAddress(nextId, input)))
    requires Validated(changed, now).Saved? && saved == Hooked(changed, false, true, now)
    ensures AddAddressOutcome(users, nextId, id, input, now)
              == Step(Reply(200, "Address added successfully", One(saved)), users[k := saved], nextId + 1)
  {
    assert !Validated(changed, now).Invalid?;
  }

  /** Pushing an address whose id is the next fresh one keeps the list's ids unique and below the advanced bound. */
  lemma PushedKeepsIds(s: seq<Address>, a: Address, bound: nat)
    requires UniqueIds(s) && AddressIdsBelow(s, bound) && a.id == bound
    ensures UniqueIds(Pushed(s, a)) && AddressIdsBelow(Pushed(s, a), bound + 1)
  {
    assert !HasId(s, bound);
    PushedUniqueIds(s, a);
    assert forall i :: 0 <= i < |s| ==> Pushed(s, a)[i] == s[i];
  }

  /**
   * Updating an address: 404 for an unknown record or an unknown address
   * id, 500 when the patched record breaks the schema, otherwise the record
   * stored with that address patched and the hooks applied. The store stays valid.
   */
  lemma UpdateAddressOutcomes(users: seq<Customer>, nextId: nat, id: nat, addressId: nat, patch: AddressPatch, now: Time)
    requires ValidStore(users, nextId)
    ensures var s := UpdateAddressOutcome(users, nextId, id, addressId, patch, now);
            var k := Find(users, id);
            && ValidStore(s.users, s.nextId) && s.nextId == nextId
            && (s.reply.status != 200 ==> s.users == users)
            && (k < |users| ==> (s.reply == Fail(404, "Address not found") <==> !HasId(users[k].addresses, addressId)))
            && (s.reply.status == 200 ==>
                  k < |users| && k < |s.users| &&
                  var list := Patched(users[k].addresses, addressId, patch).value;
                  && HasId(users[k].addresses, addressId)
                  && s.users == users[k := Hooked(users[k].(addresses := list), false, list != users[k].addresses, now)]
                  && ValidCustomer(s.users[k], now))
  {
    var k := Find(users, id);
    if k < |users| {
      var c := users[k];
      PatchedChangesOnlyTarget(c.addresses, addressId, patch);
      var list := Patched(c.addresses, addressId, patch);
      if list.Some? {
        ValidatedMeaning(c.(addresses := list.value), now);
        if Validated(c.(addresses := list.value), now).Saved? {
          var saved := Hooked(c.(addresses := list.value), false, list.value != c.addresses, now);
          UpdateAddressSaved(users, nextId, id, addressId, patch, now, k, saved);
          PatchedKeepsIds(c.addresses, addressId, patch, nextId);
          ReplaceKeepsValid(users, nextId, k, saved, nextId);
        }
      }
    }
  }

  /** The successful branch of `updateAddress`, stated on its own: the record at `k` replaced by the saved document. */
  lemma UpdateAddressSaved(users: seq<Customer>, nextId: nat, id: nat, addressId: nat, patch: AddressPatch, now: Time,
                           k: nat, saved: Customer)
    requires k == Find(users, id) && k < |users|
    requires Patched(users[k].addresses, addressId, patch).Some?
    requires var list := Patched(users[k].addresses, addressId, patch).value;
             var changed := users[k].(addresses := list);
             Validated(changed, now).Saved? && saved == Hooked(changed, false, list != users[k].addresses, now)
    ensures UpdateAddressOutcome(users, nextId, id, addressId, patch, now)
              == Step(Reply(200, "Address updated successfully", One(saved)), users[k := saved], nextId)
  {
    var list := Patched(users[k].addresses, addressId, patch);
    var changed := users[k].(addresses := list.value);
    assert !Validated(changed, now).Invalid?;
  }

  /** Patching an address keeps the list's ids unique and below the bound. */
  lemma PatchedKeepsIds(s: seq<Address>, id: nat, p: AddressPatch, bound: nat)
    requires UniqueIds(s) && AddressIdsBelow(s, bound) && Patched(s, id, p).Some?
    ensures UniqueIds(Patched(s, id, p).value) && AddressIdsBelow(Patched(s, id, p).value, bound)
  {
    PatchedChangesOnlyTarget(s, id, p);
  }

  /**
   * Deleting an address: 404 for an unknown record, 500 when the remaining
   * record breaks the schema; on success no address with the id remains and
   * a non-empty list has a default address.
   */
  lemma DeleteAddressOutcomes(users: seq<Customer>, nextId: nat, id: nat, addressId: nat, now: Time)
    ensures var s := DeleteAddressOutcome(users, nextId, id, addressId, now);
            var k := Find(users, id);
            && s.nextId == nextId
            && (k == |users| <==> s.reply == Fail(404, "User not found"))
            && (s.reply.status != 200 ==> s.users == users)
            && (s.reply.status == 200 ==>
                  k < |users| && k < |s.users| &&
                  var r := s.users[k];
                  && s.users == users[k := r]
                  && r.addresses == Deleted(users[k].addresses, addressId)
                  && !HasId(r.addresses, addressId)
                  && (r.addresses != [] ==> HasDefault(r.addresses))
                  && r.dateUpdated == now)
  {
    var k := Find(users, id);
    if k < |users| {
      var c := users[k];
      var changed := c.(addresses := Deleted(c.addresses, addressId));
      if Validated(changed, now).Saved? {
        DeleteAddressSaved(users, nextId, id, addressId, now, k, Hooked(changed, false, true, now));
        DeletedGone(c.addresses, addressId);
      }
    }
  }

  /** Deleting an address keeps the store valid. */
  lemma DeleteAddressKeepsValid(users: seq<Customer>, nextId: nat, id: nat, addressId: nat, now: Time)
    requires ValidStore(users, nextId)
    ensures var s := DeleteAddressOutcome(users, nextId, id, addressId, now);
            ValidStore(s.users, s.nextId)
  {
    var k := Find(users, id);
    if k < |users| {
      var c := users[k];
      var changed := c.(addresses := Deleted(c.addresses, addressId));
      if Validated(changed, now).Saved? {
        var saved := Hooked(changed, false, true, now);
        DeleteAddressSaved(users, nextId, id, addressId, now, k, saved);
        DeletedKeepsIds(c.addresses, addressId, nextId);
        ReplacedKeepsValid(users, nextId, k, saved, users[k := saved], nextId);
      }
    }
  }

  /** The successful branch of `deleteAddress`, stated on its own: the record at `k` replaced by the saved document. */
  lemma DeleteAddressSaved(users: seq<Customer>, nextId: nat, id: nat, addressId: nat, now: Time, k: nat, saved: Customer)
    requires k == Find(users, id) && k < |users|
    requires var changed := users[k].(addresses := Deleted(users[k].addresses, addressId));
             Validated(changed, now).Saved? && saved == Hooked(changed, false, true, now)
    ensures DeleteAddressOutcome(users, nextId, id, addressId, now)
              == Step(Reply(200, "Address deleted successfully", One(saved)), users[k := saved], nextId)
  {
    var changed := users[k].(addresses := Deleted(users[k].addresses, addressId));
    assert !Validated(changed, now).Invalid?;
  }

  /**
   * Setting the default address: 404 for an unknown record, 500 when the
   * record breaks the schema; on success exactly one address is default
   * when the id is known and none when it is not, and the store stays valid.
   */
  lemma SetDefaultOutcomes(users: seq<Customer>, nextId: nat, id: nat, addressId: nat, now: Time)
    requires ValidStore(users, nextId)
    ensures var s := SetDefaultOutcome(users, nextId, id, addressId, now);
            var k := Find(users, id);
            && ValidStore(s.users, s.nextId) && s.nextId == nextId
            && (k == |users| <==> s.reply == Fail(404, "User not found"))
            && (s.reply.status != 200 ==> s.users == users)
            && (s.reply.status == 200 ==>
                  k < |users| && k < |s.users| &&
                  var r := s.users[k];
                  && s.users == users[k := r]
                  && r.addresses == DefaultSetTo(users[k].addresses, addressId)
                  && DefaultCount(r.addresses) == (if HasId(users[k].addresses, addressId) then 1 else 0))
  {
    var k := Find(users, id);
    if k < |users| {
      var c := users[k];
      var list := DefaultSetTo(c.addresses, addressId);
      ValidatedMeaning(c.(addresses := list), now);
      DefaultSetToExactlyOne(c.addresses, addressId);
      if Validated(c.(addresses := list), now).Saved? {
        var saved := Hooked(c.(addresses := list), false, list != c.addresses, now);
        SetDefaultSaved(users, nextId, id, addressId, now, k, saved);
        DefaultSetKeepsIds(c.addresses, addressId, nextId);
        ReplaceKeepsValid(users, nextId, k, saved, nextId);
      }
    }
  }

  /** The successful branch of `setDefaultAddress`, stated on its own: the record at `k` replaced by the saved document. */
  lemma SetDefaultSaved(users: seq<Customer>, nextId: nat, id: nat, addressId: nat, now: Time, k: nat, saved: Customer)
    requires k == Find(users, id) && k < |users|
    requires var list := DefaultSetTo(users[k].addresses, addressId);
             var changed := users[k].(addresses := list);
             Validated(changed, now).Saved? && saved == Hooked(changed, false, list != users[k].addresses, now)
    ensures SetDefaultOutcome(users, nextId, id, addressId, now)
              == Step(Reply(200, "Default address updated successfully", One(saved)), users[k := saved], nextId)
  {
    var changed := users[k].(addresses := DefaultSetTo(users[k].addresses, addressId));
    assert !Validated(changed, now).Invalid?;
  }

  /** Setting the default flags keeps the list's ids unique and below the bound. */
  lemma DefaultSetKeepsIds(s: seq<Address>, id: nat, bound: nat)
    requires UniqueIds(s) && AddressIdsBelow(s, bound)
    ensures UniqueIds(DefaultSetTo(s, id)) && AddressIdsBelow(DefaultSetTo(s, id), bound)
  {
    var list := DefaultSetTo(s, id);
    assert forall i :: 0 <= i < |list| ==> list[i].id == s[i].id;
  }

  // Store invariant for the record handlers -----------------------------------

  /** Registration keeps the store valid. */
  lemma RegisterKeepsValid(users: seq<Customer>, nextId: nat, q: RegisterRequest, actor: Option<string>, now: Time)
    requires ValidStore(users, nextId)
    ensures var s := RegisterOutcome(users, nextId, q, actor, now);
            ValidStore(s.users, s.nextId)
  {
    RegisterOutcomes(users, nextId, q, actor, now);
    var c := NewCustomer(q, actor, nextId, now);
    AdmitKeepsValid(users, nextId, c, now);
  }

  /** Editing keeps the store valid. */
  lemma EditKeepsValid(users: seq<Customer>, nextId: nat, id: nat, q: EditRequest, actor: Option<string>)
    requires ValidStore(users, nextId)
    ensures var s := EditOutcome(users, nextId, id, q, actor);
            ValidStore(s.users, s.nextId)
  {
    var k := Find(users, id);
    if k < |users| && !((q.email != "" || q.mobile != "") && EditConflict(users, id, q) < |users|) {
      EditProceeds(users, nextId, id, q, actor);
      ApplyEditOutcomes(users, nextId, k, UpdateOf(q, actor));
    }
  }

  /** A status change keeps the store valid. */
  lemma StatusKeepsValid(users: seq<Customer>, nextId: nat, id: nat, data: string, actor: Option<string>)
    requires ValidStore(users, nextId)
    ensures var s := StatusOutcome(users, nextId, id, data, actor);
            ValidStore(s.users, s.nextId)
  {
    var k := Find(users, id);
    if IsStatus(data) && k < |users| {
      ReplaceKeepsValid(users, nextId, k, users[k].(status := data, updatedBy := Actor(actor)), nextId);
    }
  }

  /** Deleting a record keeps the store valid. */
  lemma DeleteKeepsValid(users: seq<Customer>, nextId: nat, id: nat)
    requires ValidStore(users, nextId)
    ensures var s := DeleteOutcome(users, nextId, id);
            ValidStore(s.users, s.nextId)
  {
    var k := Find(users, id);
    if k < |users| {
      RemoveKeepsValid(users, nextId, k);
    }
  }

  /** Removing the record at `k` keeps the store valid: the remaining records are the others, in order. */
  lemma RemoveKeepsValid(users: seq<Customer>, nextId: nat, k: nat)
    requires ValidStore(users, nextId) && k < |users|
    ensures ValidStore(users[..k] + users[k + 1..], nextId)
  {
    var r := users[..k] + users[k + 1..];
    forall j | 0 <= j < |r| ensures r[j] == users[if j < k then j else j + 1] {
    }
    forall i, j | 0 <= i < j < |r|
      ensures r[i].id != r[j].id && r[i].email != r[j].email && r[i].mobile != r[j].mobile
    {
      var i', j' := if i < k then i else i + 1, if j < k then j else j + 1;
      assert i' < j' && r[i] == users[i'] && r[j] == users[j'];
    }
  }

  // Read-only handlers --------------------------------------------------------

  /** The outcome of `userget`. */
  function ListOutcome(users: seq<Customer>, r: ListRequest): Reply {
    match ListSpec(r, users)
    case Listed(l) => Reply(200, "Users retrieved successfully", Page(l))
    case ListFailed => Fail(500, "Failed to retrieve users")
  }

  /** The outcome of `clearFilters`. */
  function ClearOutcome(users: seq<Customer>, page: Option<int>, limit: Option<nat>): Reply {
    match ClearSpec(page, limit, users)
    case Listed(l) => Reply(200, "All users retrieved successfully", Page(l))
    case ListFailed => Fail(500, "Failed to retrieve users")
  }

  /**
   * The listing fails exactly for a page below 1 with a positive limit;
   * otherwise it lists only selected records, and clearing the filters
   * gives the unfiltered listing under a different message.
   */
  lemma ListOutcomes(users: seq<Customer>, r: ListRequest)
    ensures ListOutcome(users, r).status == 500 <==> r.page.GetOr(1) < 1 && r.limit.GetOr(10) > 0
    ensures ListOutcome(users, r).status == 200 ==>
              forall c :: c in ListOutcome(users, r).payload.listing.users ==> c in users && Selected(r, c)
    ensures ClearOutcome(users, r.page, r.limit).status == ListOutcome(users, PageRequest(r.page, r.limit)).status
  {
    var matched := Where(users, (c: Customer) => Selected(r, c));
    PagedFailsIff(matched, SortSpecOf(r), r.page.GetOr(1), r.limit.GetOr(10));
    if ListSpec(r, users).Listed? {
      ListSound(r, users);
    }
    ClearIsDefaultListing(r.page, r.limit, users);
  }

  /** The outcome of `searchByLocation`. */
  function LocationOutcome(users: seq<Customer>, city: string, state: string, pincode: string): Reply {
    if city == "" && state == "" && pincode == "" then
      Fail(400, "At least one location parameter (city, state, pincode) is required")
    else Reply(200, "Location search completed successfully", Many(SearchByLocation(city, state, pincode, users)))
  }

  /** The search needs a parameter, and then returns exactly the stored records that match, in store order. */
  lemma LocationOutcomes(users: seq<Customer>, city: string, state: string, pincode: string)
    ensures LocationOutcome(users, city, state, pincode).status == 400 <==> city == "" && state == "" && pincode == ""
    ensures LocationOutcome(users, city, state, pincode).status == 200 ==>
              forall c :: c in LocationOutcome(users, city, state, pincode).payload.records <==>
                            c in users && LocationMatches(city, state, pincode, c)
  {
  }

  /** The outcomes of the two address-count statics. */
  function MultipleOutcome(users: seq<Customer>): Reply {
    Reply(200, "Multiple address customers retrieved successfully", Many(MultipleAddressCustomers(users)))
  }

  function SingleOutcome(users: seq<Customer>): Reply {
    Reply(200, "Single address customers retrieved successfully", Many(SingleAddressCustomers(users)))
  }

  /** Every stored record with at least one address is returned by exactly one of the two statics. */
  lemma StaticsPartition(users: seq<Customer>, c: Customer)
    requires c in users && c.addresses != []
    ensures (c in MultipleOutcome(users).payload.records) != (c in SingleOutcome(users).payload.records)
  {
    AddressCountStatics(users);
  }
}
