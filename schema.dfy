/**
 * The customer document: its address sub-documents, the field validators
 * and defaults of the schema, the derived `isSingleAddress` flag, the
 * `fullName` and `defaultAddress` virtuals, and the address-list rules of
 * `addAddress`, `updateAddress`, `deleteAddress` and `setDefaultAddress`
 * stated as functions on the list (the document class applies them in place).
 */
module Schema {
  import opened Wrappers
  import opened Text
  import opened Patterns

  /** Milliseconds since the epoch; the clock is always passed in. */
  type Time = int

  /**
   * One element of a customer's `addresses` array. `id` is its `_id`; a
   * string field that was never supplied is held as "" (every rule that
   * reads such a field treats absent and empty alike).
   */
  datatype Address = Address(
    id: nat,
    addressType: string,
    addressLine1: string,
    addressLine2: string,
    city: string,
    state: string,
    pincode: string,
    country: string,
    isDefault: bool)

  /** The fields a client sends for a new address; `None` is an absent field. */
  datatype AddressInput = AddressInput(
    addressType: Option<string>,
    addressLine1: Option<string>,
    addressLine2: Option<string>,
    city: Option<string>,
    state: Option<string>,
    pincode: Option<string>,
    country: Option<string>,
    isDefault: Option<bool>)

  /** The fields an address update supplies (`Object.assign` copies exactly these). */
  datatype AddressPatch = AddressPatch(
    addressType: Option<string>,
    addressLine1: Option<string>,
    addressLine2: Option<string>,
    city: Option<string>,
    state: Option<string>,
    pincode: Option<string>,
    country: Option<string>,
    isDefault: Option<bool>)

  /** A customer record as stored. */
  datatype Customer = Customer(
    id: nat,
    fname: string,
    lname: string,
    email: string,
    mobile: string,
    gender: string,
    status: string,
    profile: string,
    addresses: seq<Address>,
    location: string,
    dateOfBirth: Option<Time>,
    isSingleAddress: bool,
    datecreated: Time,
    dateUpdated: Time,
    createdBy: string,
    updatedBy: string)

  /** One entry of a validation error: the path that failed and its message. */
  datatype FieldError = FieldError(path: string, message: string)

  // ---------------------------------------------------------------------------
  // Defaults and casting

  /**
   * Casting client input into an address sub-document: `addressType`
   * defaults to "home", `country` to "India", `isDefault` to false, and the
   * paths declared with `trim` are trimmed.
   */
  function NewAddress(id: nat, input: AddressInput): Address {
    Address(
      id,
      input.addressType.GetOr("home"),
      Trim(input.addressLine1.GetOr("")),
      Trim(input.addressLine2.GetOr("")),
      Trim(input.city.GetOr("")),
      Trim(input.state.GetOr("")),
      input.pincode.GetOr(""),
      Trim(input.country.GetOr("India")),
      input.isDefault.GetOr(false))
  }

  /** `Object.assign(address, patch)`: the supplied fields are overwritten (through the same `trim` setters), the rest are kept. */
  function ApplyPatch(a: Address, p: AddressPatch): Address {
    Address(
      a.id,
      p.addressType.GetOr(a.addressType),
      if p.addressLine1.Some? then Trim(p.addressLine1.value) else a.addressLine1,
      if p.addressLine2.Some? then Trim(p.addressLine2.value) else a.addressLine2,
      if p.city.Some? then Trim(p.city.value) else a.city,
      if p.state.Some? then Trim(p.state.value) else a.state,
      p.pincode.GetOr(a.pincode),
      if p.country.Some? then Trim(p.country.value) else a.country,
      p.isDefault.GetOr(a.isDefault))
  }

  /** An address built from input that supplies nothing takes the schema's defaults. */
  lemma EmptyInputDefaults(id: nat)
    ensures var a := NewAddress(id, AddressInput(None, None, None, None, None, None, None, None));
            a.addressType == "home" && a.country == "India" && !a.isDefault
  {
    TrimUnchanged("India");
  }

  /** A patch changes no address id and leaves every field it does not supply as it was. */
  lemma PatchKeepsUnsupplied(a: Address, p: AddressPatch)
    ensures ApplyPatch(a, p).id == a.id
    ensures p.city.None? ==> ApplyPatch(a, p).city == a.city
    ensures p.state.None? ==> ApplyPatch(a, p).state == a.state
    ensures p.pincode.None? ==> ApplyPatch(a, p).pincode == a.pincode
    ensures p.isDefault.None? ==> ApplyPatch(a, p).isDefault == a.isDefault
    ensures p == AddressPatch(None, None, None, None, None, None, None, None) ==> ApplyPatch(a, p) == a
  {
  }

  // ---------------------------------------------------------------------------
  // Field validators

  predicate IsAddressType(s: string) {
    s == "home" || s == "work" || s == "billing" || s == "shipping"
  }

  predicate IsGender(s: string) {
    s == "Male" || s == "Female" || s == "Other"
  }

  predicate IsStatus(s: string) {
    s == "Active" || s == "InActive"
  }

  /** A trimmed name is acceptable when it has 2 to 50 characters. */
  predicate ValidName(s: string) {
    2 <= |s| <= 50
  }

  /** `dateOfBirth` is absent or strictly before `now`. */
  predicate ValidDateOfBirth(dob: Option<Time>, now: Time) {
    dob.None? || dob.value < now
  }

  /** Every rule of the address sub-schema. */
  predicate ValidAddress(a: Address) {
    && IsAddressType(a.addressType)
    && a.addressLine1 != "" && a.city != "" && a.state != ""
    && ValidPincode(a.pincode)
  }

  /** Every rule of the customer schema. */
  predicate ValidCustomer(c: Customer, now: Time) {
    && ValidName(c.fname) && ValidName(c.lname)
    && ValidEmail(c.email) && ValidMobile(c.mobile)
    && IsGender(c.gender) && IsStatus(c.status)
    && c.profile != ""
    && (forall i :: 0 <= i < |c.addresses| ==> ValidAddress(c.addresses[i]))
    && ValidDateOfBirth(c.dateOfBirth, now)
  }

  function EnumMessage(value: string, path: string): string {
    "`" + value + "` is not a valid enum value for path `" + path + "`."
  }

  function RequiredMessage(path: string): string {
    "Path `" + path + "` is required."
  }

  /** The required/minlength/maxlength validators of `fname` or `lname`, in that order; the first failure is reported. */
  function NameErrors(path: string, title: string, value: string): seq<FieldError> {
    if value == "" then [FieldError(path, title + " is required")]
    else if |value| < 2 then [FieldError(path, title + " must be at least 2 characters")]
    else if |value| > 50 then [FieldError(path, title + " cannot exceed 50 characters")]
    else []
  }

  /** A required string path that also has a custom validator. */
  function CheckedErrors(path: string, required: string, value: string, ok: bool, invalid: string): seq<FieldError> {
    if value == "" then [FieldError(path, required)]
    else if !ok then [FieldError(path, invalid)]
    else []
  }

  /** A required path restricted to an enumeration. */
  function EnumErrors(path: string, required: string, value: string, ok: bool): seq<FieldError> {
    if value == "" then [FieldError(path, required)]
    else if !ok then [FieldError(path, EnumMessage(value, path))]
    else []
  }

  /** The errors of the address at position `index`, in the sub-schema's path order. */
  function AddressErrors(a: Address, index: nat): seq<FieldError> {
    var prefix := "addresses." + NatToString(index) + ".";
    (if IsAddressType(a.addressType) then []
     else [FieldError(prefix + "addressType", EnumMessage(a.addressType, "addressType"))])
    + (if a.addressLine1 == "" then [FieldError(prefix + "addressLine1", RequiredMessage("addressLine1"))] else [])
    + (if a.city == "" then [FieldError(prefix + "city", RequiredMessage("city"))] else [])
    + (if a.state == "" then [FieldError(prefix + "state", RequiredMessage("state"))] else [])
    + CheckedErrors(prefix + "pincode", RequiredMessage("pincode"), a.pincode, ValidPincode(a.pincode),
                    "Pincode must be 6 digits and not start with 0")
  }

  /** The errors of `s`, whose first element sits at position `from` of the array. */
  function AddressListErrors(s: seq<Address>, from: nat): seq<FieldError>
    decreases |s|
  {
    if s == [] then [] else AddressErrors(s[0], from) + AddressListErrors(s[1..], from + 1)
  }

  /** The top-level paths of the customer schema that carry validators. */
  datatype SchemaPath = FNamePath | LNamePath | EmailPath | MobilePath | GenderPath | StatusPath
                      | ProfilePath | AddressesPath | DateOfBirthPath

  /** The paths in the order the schema declares them, which is the order validation reports errors in. */
  const SchemaPaths: seq<SchemaPath> :=
    [FNamePath, LNamePath, EmailPath, MobilePath, GenderPath, StatusPath, ProfilePath, AddressesPath, DateOfBirthPath]

  /** The errors the validators of one path report. */
  function PathErrors(c: Customer, now: Time, p: SchemaPath): seq<FieldError> {
    match p
    case FNamePath => NameErrors("fname", "First name", c.fname)
    case LNamePath => NameErrors("lname", "Last name", c.lname)
    case EmailPath =>
      CheckedErrors("email", "Email is required", c.email, ValidEmail(c.email), "Please provide a valid email address")
    case MobilePath =>
      CheckedErrors("mobile", "Mobile number is required", c.mobile, ValidMobile(c.mobile),
                    "Please provide a valid 10-digit mobile number starting with 6-9")
    case GenderPath => EnumErrors("gender", "Gender is required", c.gender, IsGender(c.gender))
    case StatusPath => EnumErrors("status", "Status is required", c.status, IsStatus(c.status))
    case ProfilePath => if c.profile == "" then [FieldError("profile", "Profile picture is required")] else []
    case AddressesPath => AddressListErrors(c.addresses, 0)
    case DateOfBirthPath =>
      if ValidDateOfBirth(c.dateOfBirth, now) then [] else [FieldError("dateOfBirth", "Date of birth cannot be in the future")]
  }

  /** The rule of one path, as a predicate. */
  predicate PathValid(c: Customer, now: Time, p: SchemaPath) {
    match p
    case FNamePath => ValidName(c.fname)
    case LNamePath => ValidName(c.lname)
    case EmailPath => ValidEmail(c.email)
    case MobilePath => ValidMobile(c.mobile)
    case GenderPath => IsGender(c.gender)
    case StatusPath => IsStatus(c.status)
    case ProfilePath => c.profile != ""
    case AddressesPath => forall i :: 0 <= i < |c.addresses| ==> ValidAddress(c.addresses[i])
    case DateOfBirthPath => ValidDateOfBirth(c.dateOfBirth, now)
  }

  /** The errors of the paths in `paths`, path after path. */
  function ErrorsAlong(c: Customer, now: Time, paths: seq<SchemaPath>): seq<FieldError>
    decreases |paths|
  {
    if paths == [] then [] else PathErrors(c, now, paths[0]) + ErrorsAlong(c, now, paths[1..])
  }

  /** Every validation error of the document, in schema path order (the `errors` of a ValidationError). */
  function CustomerErrors(c: Customer, now: Time): seq<FieldError> {
    ErrorsAlong(c, now, SchemaPaths)
  }

  /** An address yields no error exactly when it satisfies the sub-schema. */
  lemma AddressErrorsEmpty(a: Address, index: nat)
    ensures AddressErrors(a, index) == [] <==> ValidAddress(a)
  {
  }

  /** The address list yields no error exactly when every address satisfies the sub-schema. */
  lemma {:induction false} AddressListErrorsEmpty(s: seq<Address>, from: nat)
    ensures AddressListErrors(s, from) == [] <==> forall i :: 0 <= i < |s| ==> ValidAddress(s[i])
    decreases |s|
  {
    if s != [] {
      AddressErrorsEmpty(s[0], from);
      AddressListErrorsEmpty(s[1..], from + 1);
      assert forall i :: 1 <= i < |s| ==> s[i] == s[1..][i - 1];
    }
  }

  /** A path reports no error exactly when its rule holds. */
  lemma PathErrorsEmpty(c: Customer, now: Time, p: SchemaPath)
    ensures PathErrors(c, now, p) == [] <==> PathValid(c, now, p)
  {
    match p
    case FNamePath =>
    case LNamePath =>
    case EmailPath =>
    case MobilePath =>
    case GenderPath =>
    case StatusPath =>
    case ProfilePath =>
    case AddressesPath => AddressListErrorsEmpty(c.addresses, 0);
    case DateOfBirthPath =>
  }

  /** A run of paths reports no error exactly when the rule of each of them holds. */
  lemma {:induction false} ErrorsAlongEmpty(c: Customer, now: Time, paths: seq<SchemaPath>)
    ensures ErrorsAlong(c, now, paths) == [] <==> forall p :: p in paths ==> PathValid(c, now, p)
    decreases |paths|
  {
    if paths != [] {
      PathErrorsEmpty(c, now, paths[0]);
      ErrorsAlongEmpty(c, now, paths[1..]);
      assert forall p :: p in paths <==> p == paths[0] || p in paths[1..];
    }
  }

  /** Every path that carries validators is listed, so validation visits all of them. */
  lemma SchemaPathsComplete(p: SchemaPath)
    ensures p in SchemaPaths
  {
    var ps := SchemaPaths;
    match p
    case FNamePath => assert ps[0] == p;
    case LNamePath => assert ps[1] == p;
    case EmailPath => assert ps[2] == p;
    case MobilePath => assert ps[3] == p;
    case GenderPath => assert ps[4] == p;
    case StatusPath => assert ps[5] == p;
    case ProfilePath => assert ps[6] == p;
    case AddressesPath => assert ps[7] == p;
    case DateOfBirthPath => assert ps[8] == p;
  }

  /** The document satisfies the schema exactly when the rule of every path holds. */
  lemma SchemaPathsCover(c: Customer, now: Time)
    ensures ValidCustomer(c, now) <==> forall p :: PathValid(c, now, p)
  {
    if forall p :: PathValid(c, now, p) {
      assert PathValid(c, now, FNamePath) && PathValid(c, now, LNamePath) && PathValid(c, now, EmailPath);
      assert PathValid(c, now, MobilePath) && PathValid(c, now, GenderPath) && PathValid(c, now, StatusPath);
      assert PathValid(c, now, ProfilePath) && PathValid(c, now, AddressesPath) && PathValid(c, now, DateOfBirthPath);
    }
    if ValidCustomer(c, now) {
      forall p ensures PathValid(c, now, p) {
        match p
        case FNamePath =>
        case LNamePath =>
        case EmailPath =>
        case MobilePath =>
        case GenderPath =>
        case StatusPath =>
        case ProfilePath =>
        case AddressesPath =>
        case DateOfBirthPath =>
      }
    }
  }

  /** Saving reports no validation error exactly when the document satisfies every rule of the schema. */
  lemma CustomerErrorsEmpty(c: Customer, now: Time)
    ensures CustomerErrors(c, now) == [] <==> ValidCustomer(c, now)
  {
    ErrorsAlongEmpty(c, now, SchemaPaths);
    forall p ensures p in SchemaPaths {
      SchemaPathsComplete(p);
    }
    SchemaPathsCover(c, now);
  }

  /** A name given by a client is accepted when it has 2 to 50 characters once trimmed. */
  lemma NameAcceptedAfterTrim(raw: string)
    ensures NameErrors("fname", "First name", Trim(raw)) == [] <==> 2 <= |Trim(raw)| <= 50
  {
  }

  // ---------------------------------------------------------------------------
  // The address list and its default flag

  predicate HasId(s: seq<Address>, id: nat) {
    exists i :: 0 <= i < |s| && s[i].id == id
  }

  /** The `some(addr => addr.isDefault)` test. */
  predicate HasDefault(s: seq<Address>) {
    exists i :: 0 <= i < |s| && s[i].isDefault
  }

  /** No two addresses share an `_id`. */
  predicate UniqueIds(s: seq<Address>) {
    forall i, j :: 0 <= i < j < |s| ==> s[i].id != s[j].id
  }

  /** How many addresses are flagged default. */
  function DefaultCount(s: seq<Address>): nat
    decreases |s|
  {
    if s == [] then 0 else (if s[0].isDefault then 1 else 0) + DefaultCount(s[1..])
  }

  /** How many addresses carry the id `id`. */
  function IdCount(s: seq<Address>, id: nat): nat
    decreases |s|
  {
    if s == [] then 0 else (if s[0].id == id then 1 else 0) + IdCount(s[1..], id)
  }

  lemma {:induction false} DefaultCountAppend(s: seq<Address>, t: seq<Address>)
    ensures DefaultCount(s + t) == DefaultCount(s) + DefaultCount(t)
    decreases |s|
  {
    if s != [] {
      assert (s + t)[0] == s[0];
      assert (s + t)[1..] == s[1..] + t;
      DefaultCountAppend(s[1..], t);
    } else {
      assert s + t == t;
    }
  }

  /** Counting defaults agrees with the `some` test. */
  lemma {:induction false} DefaultCountPositive(s: seq<Address>)
    ensures DefaultCount(s) > 0 <==> HasDefault(s)
    decreases |s|
  {
    if s != [] {
      DefaultCountPositive(s[1..]);
      if HasDefault(s[1..]) {
        var i :| 0 <= i < |s[1..]| && s[1..][i].isDefault;
        assert s[i + 1].isDefault;
      }
      if HasDefault(s) && !s[0].isDefault {
        var i :| 0 <= i < |s| && s[i].isDefault;
        assert s[1..][i - 1].isDefault;
      }
    }
  }

  /** With unique ids an id occurs at most once, and it occurs exactly when some address has it. */
  lemma {:induction false} IdCountUnique(s: seq<Address>, id: nat)
    requires UniqueIds(s)
    ensures IdCount(s, id) <= 1
    ensures IdCount(s, id) == 1 <==> HasId(s, id)
    decreases |s|
  {
    if s != [] {
      IdCountUnique(s[1..], id);
      if HasId(s[1..], id) {
        var i :| 0 <= i < |s[1..]| && s[1..][i].id == id;
        assert s[i + 1].id == id;
      }
      if HasId(s, id) && s[0].id != id {
        var i :| 0 <= i < |s| && s[i].id == id;
        assert s[1..][i - 1].id == id;
      }
    }
  }

  // addAddress ----------------------------------------------------------------

  /** `addAddress`: push `a`, forcing its default flag when the list was empty. */
  function Pushed(s: seq<Address>, a: Address): seq<Address> {
    s + [if s == [] then a.(isDefault := true) else a]
  }

  /**
   * Adding appends exactly one address and leaves the earlier ones as they
   * were; the new address is default when the list was empty and otherwise
   * keeps the caller's flag.
   */
  lemma PushedShape(s: seq<Address>, a: Address)
    ensures |Pushed(s, a)| == |s| + 1 && Pushed(s, a)[..|s|] == s
    ensures Pushed(s, a)[|s|] == a.(isDefault := s == [] || a.isDefault)
  {
  }

  /**
   * Default bookkeeping of `addAddress`: the first address becomes the one
   * default; later additions keep a single default unless the caller flags
   * the new address, in which case two addresses are default.
   */
  lemma PushedDefaults(s: seq<Address>, a: Address)
    ensures DefaultCount(Pushed(s, a)) == DefaultCount(s) + (if s == [] || a.isDefault then 1 else 0)
    ensures s == [] ==> DefaultCount(Pushed(s, a)) == 1
  {
    var b := if s == [] then a.(isDefault := true) else a;
    DefaultCountAppend(s, [b]);
    assert DefaultCount([b]) == (if b.isDefault then 1 else 0) by {
      assert [b][1..] == [];
    }
  }

  /** A fresh id keeps the ids unique. */
  lemma PushedUniqueIds(s: seq<Address>, a: Address)
    requires UniqueIds(s) && !HasId(s, a.id)
    ensures UniqueIds(Pushed(s, a))
  {
    var r := Pushed(s, a);
    forall i, j | 0 <= i < j < |r| ensures r[i].id != r[j].id {
      if j == |s| {
        assert s[i].id != a.id;
      }
    }
  }

  // updateAddress -------------------------------------------------------------

  /** The position of the first address with id `id` (`addresses.id(addressId)`), or `|s|`. */
  function FindAddress(s: seq<Address>, id: nat): (k: nat)
    ensures k <= |s|
    ensures k < |s| ==> s[k].id == id
    ensures forall j :: 0 <= j < k ==> s[j].id != id
    decreases |s|
  {
    if s == [] then 0 else if s[0].id == id then 0 else 1 + FindAddress(s[1..], id)
  }

  /** `updateAddress`: the list with the patch applied to the address with id `id`, or `None` ("Address not found"). */
  function Patched(s: seq<Address>, id: nat, p: AddressPatch): Option<seq<Address>> {
    var k := FindAddress(s, id);
    if k == |s| then None else Some(s[k := ApplyPatch(s[k], p)])
  }

  /**
   * An update fails exactly when no address has the id; otherwise it
   * rewrites that one address with the patch, keeps every id, and changes
   * no other address.
   */
  lemma PatchedChangesOnlyTarget(s: seq<Address>, id: nat, p: AddressPatch)
    ensures Patched(s, id, p).None? <==> !HasId(s, id)
    ensures Patched(s, id, p).Some? ==>
              var r := Patched(s, id, p).value;
              && |r| == |s|
              && (forall i :: 0 <= i < |s| ==> r[i].id == s[i].id)
              && (forall i :: 0 <= i < |s| && s[i].id != id ==> r[i] == s[i])
              && (forall i :: 0 <= i < |s| && s[i].id == id && UniqueIds(s) ==> r[i] == ApplyPatch(s[i], p))
  {
    var k := FindAddress(s, id);
    if HasId(s, id) {
      var i :| 0 <= i < |s| && s[i].id == id;
      assert k <= i;
    }
  }

  // deleteAddress -------------------------------------------------------------

  /** `addresses.pull(id)`: every address with id `id` removed, the others kept in order. */
  function Without(s: seq<Address>, id: nat): (r: seq<Address>)
    ensures |r| + IdCount(s, id) == |s|
    ensures forall a :: a in r <==> a in s && a.id != id
    decreases |s|
  {
    if s == [] then [] else (if s[0].id == id then [] else [s[0]]) + Without(s[1..], id)
  }

  /** `pull` keeps a single address exactly when it lacks the id. */
  lemma WithoutSingle(x: Address, id: nat)
    ensures Without([x], id) == (if x.id == id then [] else [x])
  {
    assert [x][1..] == [];
  }

  /**
   * `pull` distributes over concatenation; with WithoutSingle this makes it
   * a filter, so the kept addresses stay in their order and with their
   * multiplicity.
   */
  lemma {:induction false} WithoutAppend(a: seq<Address>, b: seq<Address>, id: nat)
    ensures Without(a + b, id) == Without(a, id) + Without(b, id)
    decreases |a|
  {
    if a == [] {
      assert a + b == b;
    } else {
      WithoutAppend(a[1..], b, id);
      WithoutCons(a, b, id);
    }
  }

  /** One step of WithoutAppend: the first address of `a` is the first of `a + b`. */
  lemma WithoutCons(a: seq<Address>, b: seq<Address>, id: nat)
    requires a != [] && Without(a[1..] + b, id) == Without(a[1..], id) + Without(b, id)
    ensures Without(a + b, id) == Without(a, id) + Without(b, id)
  {
    var head := if a[0].id == id then [] else [a[0]];
    var x, y := Without(a[1..], id), Without(b, id);
    AppendFirst(a, b);
    assert Without(a + b, id) == head + (x + y);
    assert Without(a, id) == head + x;
    AppendAssociates(head, x, y);
  }

  lemma AppendFirst(a: seq<Address>, b: seq<Address>)
    requires a != []
    ensures (a + b)[0] == a[0] && (a + b)[1..] == a[1..] + b
  {
  }

  lemma AppendAssociates(h: seq<Address>, x: seq<Address>, y: seq<Address>)
    ensures h + (x + y) == (h + x) + y
  {
  }

  /** `deleteAddress`: pull, then flag the first remaining address when none is default. */
  function Deleted(s: seq<Address>, id: nat): seq<Address> {
    var kept := Without(s, id);
    if |kept| > 0 && !HasDefault(kept) then kept[0 := kept[0].(isDefault := true)] else kept
  }

  lemma {:induction false} WithoutDefaultCount(s: seq<Address>, id: nat)
    ensures DefaultCount(Without(s, id)) <= DefaultCount(s)
    decreases |s|
  {
    if s != [] {
      WithoutDefaultCount(s[1..], id);
      var head := if s[0].id == id then [] else [s[0]];
      DefaultCountAppend(head, Without(s[1..], id));
      assert head != [] ==> head[1..] == [];
    }
  }

  lemma {:induction false} WithoutUniqueIds(s: seq<Address>, id: nat)
    requires UniqueIds(s)
    ensures UniqueIds(Without(s, id))
    decreases |s|
  {
    if s != [] {
      assert UniqueIds(s[1..]);
      WithoutUniqueIds(s[1..], id);
      var rest := Without(s[1..], id);
      var r := Without(s, id);
      if s[0].id != id {
        assert r == [s[0]] + rest;
        forall a | a in rest ensures a.id != s[0].id {
          var m :| 0 <= m < |s[1..]| && s[1..][m] == a;
          assert s[m + 1] == a;
        }
        forall i, j | 0 <= i < j < |r| ensures r[i].id != r[j].id {
          assert r[j] == rest[j - 1];
          if i > 0 {
            assert r[i] == rest[i - 1];
          }
        }
      }
    }
  }

  /**
   * Deleting removes every address with the id (an unknown id removes
   * nothing and is no error), keeps the others, and leaves a non-empty list
   * with at least one default address.
   */
  lemma DeletedShape(s: seq<Address>, id: nat)
    ensures forall a :: a in Deleted(s, id) ==> a.id != id
    ensures |Deleted(s, id)| == |s| - IdCount(s, id)
    ensures !HasId(s, id) && HasDefault(s) ==> Deleted(s, id) == s
    ensures |Deleted(s, id)| > 0 ==> HasDefault(Deleted(s, id))
    ensures || Deleted(s, id) == Without(s, id)
            || (Without(s, id) != [] && Deleted(s, id) == Without(s, id)[0 := Without(s, id)[0].(isDefault := true)])
  {
    var kept := Without(s, id);
    var r := Deleted(s, id);
    if |kept| > 0 && !HasDefault(kept) {
      assert r[0].isDefault;
      forall a | a in r ensures a.id != id {
        var i :| 0 <= i < |r| && r[i] == a;
        assert i == 0 || r[i] == kept[i];
        assert kept[i] in kept;
      }
    }
    if !HasId(s, id) {
      WithoutNoMatch(s, id);
    }
  }

  /** After a delete no address has the id, and a non-empty list has a default address. */
  lemma DeletedGone(s: seq<Address>, id: nat)
    ensures !HasId(Deleted(s, id), id)
    ensures Deleted(s, id) != [] ==> HasDefault(Deleted(s, id))
  {
    DeletedShape(s, id);
    var r := Deleted(s, id);
    forall i | 0 <= i < |r| ensures r[i].id != id {
      assert r[i] in r;
    }
  }

  lemma {:induction false} WithoutNoMatch(s: seq<Address>, id: nat)
    requires !HasId(s, id)
    ensures Without(s, id) == s
    decreases |s|
  {
    if s != [] {
      forall i | 0 <= i < |s[1..]| ensures s[1..][i].id != id {
        assert s[1..][i] == s[i + 1];
      }
      WithoutNoMatch(s[1..], id);
    }
  }

  /** Deleting from a list with exactly one default leaves exactly one default, unless the list becomes empty (invariant I1). */
  lemma DeletedKeepsOneDefault(s: seq<Address>, id: nat)
    requires DefaultCount(s) == 1
    ensures |Deleted(s, id)| > 0 ==> DefaultCount(Deleted(s, id)) == 1
  {
    var kept := Without(s, id);
    WithoutDefaultCount(s, id);
    DefaultCountPositive(kept);
    if |kept| > 0 && !HasDefault(kept) {
      var r := Deleted(s, id);
      assert r[1..] == kept[1..];
      assert DefaultCount(kept) == 0;
    }
  }

  lemma DeletedUniqueIds(s: seq<Address>, id: nat)
    requires UniqueIds(s)
    ensures UniqueIds(Deleted(s, id))
  {
    WithoutUniqueIds(s, id);
  }

  // setDefaultAddress ---------------------------------------------------------

  /** `setDefaultAddress`: each address is default exactly when its id is `id`. */
  function DefaultSetTo(s: seq<Address>, id: nat): seq<Address> {
    seq(|s|, i requires 0 <= i < |s| => s[i].(isDefault := s[i].id == id))
  }

  /** After setting the default, as many addresses are default as carry the id. */
  lemma {:induction false} DefaultSetToCount(s: seq<Address>, id: nat)
    ensures DefaultCount(DefaultSetTo(s, id)) == IdCount(s, id)
    decreases |s|
  {
    if s != [] {
      assert DefaultSetTo(s, id)[1..] == DefaultSetTo(s[1..], id);
      DefaultSetToCount(s[1..], id);
    }
  }

  /**
   * With unique ids, setting the default to a known id leaves exactly one
   * default address, and to an unknown id leaves none.
   */
  lemma DefaultSetToExactlyOne(s: seq<Address>, id: nat)
    requires UniqueIds(s)
    ensures HasId(s, id) ==> DefaultCount(DefaultSetTo(s, id)) == 1
    ensures !HasId(s, id) ==> DefaultCount(DefaultSetTo(s, id)) == 0
  {
    DefaultSetToCount(s, id);
    IdCountUnique(s, id);
  }

  /** Setting the default twice is the same as setting it once, and only default flags change. */
  lemma DefaultSetToIdempotent(s: seq<Address>, id: nat)
    ensures DefaultSetTo(DefaultSetTo(s, id), id) == DefaultSetTo(s, id)
    ensures forall i :: 0 <= i < |s| ==> DefaultSetTo(s, id)[i].(isDefault := s[i].isDefault) == s[i]
  {
  }

  // ---------------------------------------------------------------------------
  // Derived values

  /** The single-address pre-save hook: true for one address, false for several, unchanged for none. */
  function SingleFlag(count: nat, previous: bool): bool {
    if count == 1 then true else if count > 1 then false else previous
  }

  /** The flag agrees with the list length whenever the list is not empty, and an empty list keeps whatever it had. */
  lemma SingleFlagMeaning(count: nat, previous: bool)
    ensures count > 0 ==> (SingleFlag(count, previous) <==> count == 1)
    ensures count == 0 ==> SingleFlag(count, previous) == previous
  {
  }

  /** Deleting the only address of a one-address customer leaves `isSingleAddress` true with no address at all. */
  lemma LastAddressDeletedKeepsFlag(a: Address)
    ensures |Deleted([a], a.id)| == 0
    ensures SingleFlag(|Deleted([a], a.id)|, SingleFlag(1, false))
  {
    assert Without([a], a.id) == [] + Without([], a.id);
  }

  /** The position of the first default address, or `|s|` when none is. */
  function FirstDefault(s: seq<Address>): (k: nat)
    ensures k <= |s|
    ensures k < |s| ==> s[k].isDefault
    ensures forall j :: 0 <= j < k ==> !s[j].isDefault
    decreases |s|
  {
    if s == [] then 0 else if s[0].isDefault then 0 else 1 + FirstDefault(s[1..])
  }

  /** The `defaultAddress` virtual: the first default address, otherwise the first address. */
  function DefaultAddress(s: seq<Address>): Option<Address> {
    var k := FirstDefault(s);
    if k < |s| then Some(s[k]) else if s != [] then Some(s[0]) else None
  }

  /**
   * The default address exists exactly for a non-empty list; it is a
   * default-flagged address when one exists, and after setting the default
   * to a known id it is the address with that id.
   */
  lemma DefaultAddressMeaning(s: seq<Address>, id: nat)
    ensures DefaultAddress(s).Some? <==> s != []
    ensures HasDefault(s) ==> DefaultAddress(s).value.isDefault && DefaultAddress(s).value in s
    ensures HasId(s, id) ==> DefaultAddress(DefaultSetTo(s, id)).Some? &&
                             DefaultAddress(DefaultSetTo(s, id)).value.id == id
  {
    if HasDefault(s) {
      var i :| 0 <= i < |s| && s[i].isDefault;
      assert FirstDefault(s) <= i;
    }
    if HasId(s, id) {
      var t := DefaultSetTo(s, id);
      var i :| 0 <= i < |s| && s[i].id == id;
      assert t[i].isDefault;
      assert FirstDefault(t) <= i;
    }
  }

  /** The `fullName` virtual. */
  function FullName(c: Customer): string {
    c.fname + " " + c.lname
  }

  /** When the first name holds no space, the full name splits back into the two names at its first space. */
  lemma FullNameSplits(c: Customer)
    requires forall i :: 0 <= i < |c.fname| ==> c.fname[i] != ' '
    ensures var n := FullName(c);
            var k := IndexOf(n, ' ');
            k < |n| && n[..k] == c.fname && n[k + 1..] == c.lname
  {
    var n := FullName(c);
    var k := IndexOf(n, ' ');
    assert n[|c.fname|] == ' ';
    assert k == |c.fname|;
  }
}
