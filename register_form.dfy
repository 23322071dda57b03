/**
 * The registration page's own state and rules: the client-side field
 * checks, the error dictionary they fill, and the editable list of
 * address entries with exactly one flagged default.
 */
module RegisterForm {
  import opened Wrappers
  import opened Text
  import opened Patterns

  /** One address entry of the form; every field is text except the default flag. */
  datatype FormAddress = FormAddress(
    addressType: string,
    addressLine1: string,
    addressLine2: string,
    city: string,
    state: string,
    pincode: string,
    country: string,
    isDefault: bool)

  /** The entry the form starts with and `addAddress` appends. */
  function BlankAddress(isDefault: bool): (a: FormAddress)
    ensures a.addressLine1 == a.city == a.state == a.pincode == ""
    ensures a.addressType == "home" && a.country == "India" && a.isDefault == isDefault
  {
    FormAddress("home", "", "", "", "", "", "India", isDefault)
  }

  /** The text inputs of the form. */
  datatype FormInput = FormInput(
    fname: string,
    lname: string,
    email: string,
    mobile: string,
    gender: string,
    location: string,
    dateOfBirth: string)

  const EmptyInput := FormInput("", "", "", "", "", "", "")

  /** The fields `updateAddress` is called with, by their property names. */
  datatype AddressField = AddressType | AddressLine1 | AddressLine2 | City | State | Pincode | Country {
    function Name(): string {
      match this
      case AddressType => "addressType"
      case AddressLine1 => "addressLine1"
      case AddressLine2 => "addressLine2"
      case City => "city"
      case State => "state"
      case Pincode => "pincode"
      case Country => "country"
    }
  }

  /** `newAddresses[index][field] = value` on one entry. */
  function WithField(a: FormAddress, field: AddressField, value: string): (r: FormAddress)
    ensures r.isDefault == a.isDefault
  {
    match field
    case AddressType => a.(addressType := value)
    case AddressLine1 => a.(addressLine1 := value)
    case AddressLine2 => a.(addressLine2 := value)
    case City => a.(city := value)
    case State => a.(state := value)
    case Pincode => a.(pincode := value)
    case Country => a.(country := value)
  }

  /** The value of one field of an entry. */
  function FieldValue(a: FormAddress, field: AddressField): string {
    match field
    case AddressType => a.addressType
    case AddressLine1 => a.addressLine1
    case AddressLine2 => a.addressLine2
    case City => a.city
    case State => a.state
    case Pincode => a.pincode
    case Country => a.country
  }

  /** Writing a field sets that field and leaves every other field and the flag as they were. */
  lemma WithFieldChangesOnlyField(a: FormAddress, field: AddressField, value: string)
    ensures FieldValue(WithField(a, field, value), field) == value
    ensures forall g :: g != field ==> FieldValue(WithField(a, field, value), g) == FieldValue(a, g)
    ensures WithField(a, field, value).isDefault == a.isDefault
  {
  }

  /** The four per-address checks, named by the suffix of their error key. */
  datatype AddressCheck = LineOneCheck | CityCheck | StateCheck | PincodeCheck {
    function Suffix(): string {
      match this
      case LineOneCheck => "line1"
      case CityCheck => "city"
      case StateCheck => "state"
      case PincodeCheck => "pincode"
    }
  }

  /** The fields that are not addresses, by their error keys. */
  datatype BasicField = FName | LName | EmailField | MobileField | GenderField | ProfileField {
    function Name(): string {
      match this
      case FName => "fname"
      case LName => "lname"
      case EmailField => "email"
      case MobileField => "mobile"
      case GenderField => "gender"
      case ProfileField => "profile"
    }
  }

  /** A key of the error dictionary: a basic field, or one check of the entry at an index. */
  datatype ErrorKey = FieldKey(field: BasicField) | AddressKey(index: nat, check: AddressCheck)

  /** The key as the page writes it: the field's name, or `address_${index}_${suffix}`. */
  function KeyText(k: ErrorKey): string {
    match k
    case FieldKey(f) => f.Name()
    case AddressKey(i, c) => "address_" + NatToString(i) + "_" + c.Suffix()
  }

  /** Distinct keys are written as distinct strings, so the dictionary can be keyed by `ErrorKey`. */
  lemma KeyTextInjective(k: ErrorKey, l: ErrorKey)
    requires KeyText(k) == KeyText(l)
    ensures k == l
  {
    match k
    case FieldKey(f) =>
      assert KeyText(k)[0] != 'a';
      FieldNameInjective(f, l.field);
    case AddressKey(i, c) =>
      assert KeyText(l)[0] == 'a';
      AddressKeyInjective(i, c, l.index, l.check);
  }

  lemma FieldNameInjective(f: BasicField, g: BasicField)
    requires f.Name() == g.Name()
    ensures f == g
  {
    assert f.Name()[0] == g.Name()[0];
  }

  lemma AddressKeyInjective(i: nat, c: AddressCheck, j: nat, d: AddressCheck)
    requires KeyText(AddressKey(i, c)) == KeyText(AddressKey(j, d))
    ensures i == j && c == d
  {
    var a, b := NatToString(i), NatToString(j);
    var x, y := c.Suffix(), d.Suffix();
    assert KeyText(AddressKey(i, c)) == "address_" + (a + "_" + x);
    assert KeyText(AddressKey(j, d)) == "address_" + (b + "_" + y);
    PrefixCancels("address_", a + "_" + x, b + "_" + y);
    SplitAtSeparator(a, x, b, y);
    NatToStringRoundTrip(i);
    NatToStringRoundTrip(j);
    SuffixInjective(c, d);
  }

  lemma PrefixCancels(p: string, u: string, v: string)
    requires p + u == p + v
    ensures u == v
  {
    assert u == (p + u)[|p|..];
  }

  /** Digits followed by `_` can be split back: the digit run ends at the first `_`. */
  lemma SplitAtSeparator(a: string, x: string, b: string, y: string)
    requires AllDigits(a) && AllDigits(b) && a + "_" + x == b + "_" + y
    ensures a == b && x == y
  {
    var s, t := a + "_" + x, b + "_" + y;
    assert s[|a|] == '_' && t[|b|] == '_';
    assert a == s[..|a|] && b == t[..|b|];
    assert x == s[|a| + 1..] && y == t[|b| + 1..];
  }

  lemma SuffixInjective(c: AddressCheck, d: AddressCheck)
    requires c.Suffix() == d.Suffix()
    ensures c == d
  {
    assert c.Suffix()[0] == d.Suffix()[0];
  }

  /** The message the form shows for a name field: required, then at least two characters after trimming. */
  function NameError(value: string, title: string): Option<string> {
    if Trim(value) == "" then Some(title + " is required")
    else if |Trim(value)| < 2 then Some(title + " must be at least 2 characters")
    else None
  }

  function EmailError(value: string): Option<string> {
    if Trim(value) == "" then Some("Email is required")
    else if !ValidEmail(value) then Some("Please enter a valid email address")
    else None
  }

  function MobileError(value: string): Option<string> {
    if Trim(value) == "" then Some("Mobile number is required")
    else if !ValidMobile(value) then Some("Please enter a valid 10-digit mobile number starting with 6-9")
    else None
  }

  function AddressError(a: FormAddress, c: AddressCheck): Option<string> {
    match c
    case LineOneCheck => if Trim(a.addressLine1) == "" then Some("Address line 1 is required") else None
    case CityCheck => if Trim(a.city) == "" then Some("City is required") else None
    case StateCheck => if Trim(a.state) == "" then Some("State is required") else None
    case PincodeCheck =>
      if Trim(a.pincode) == "" then Some("Pincode is required")
      else if !ValidPincode(a.pincode) then Some("Please enter a valid 6-digit pincode")
      else None
  }

  /** The message for a basic field, when its rule is violated. */
  function BasicError(f: BasicField, input: FormInput, hasImage: bool): Option<string> {
    match f
    case FName => NameError(input.fname, "First name")
    case LName => NameError(input.lname, "Last name")
    case EmailField => EmailError(input.email)
    case MobileField => MobileError(input.mobile)
    case GenderField => if input.gender == "" then Some("Gender is required") else None
    case ProfileField => if !hasImage then Some("Profile picture is required") else None
  }

  /** `key` holds `message`'s text exactly when there is a message. */
  predicate Reported(errors: map<ErrorKey, string>, key: ErrorKey, message: Option<string>) {
    (key in errors <==> message.Some?) && (key in errors ==> errors[key] == message.value)
  }

  /** An entry the form accepts. */
  predicate AddressComplete(a: FormAddress) {
    Trim(a.addressLine1) != "" && Trim(a.city) != "" && Trim(a.state) != "" && ValidPincode(a.pincode)
  }

  /** The fields that are not addresses are acceptable. */
  predicate BasicValid(input: FormInput, hasImage: bool) {
    && |Trim(input.fname)| >= 2 && |Trim(input.lname)| >= 2
    && ValidEmail(input.email) && ValidMobile(input.mobile)
    && input.gender != "" && hasImage
  }

  /** The form as a whole is acceptable: every rule, stated on its own. */
  predicate FormValid(input: FormInput, hasImage: bool, addresses: seq<FormAddress>) {
    BasicValid(input, hasImage) && forall i :: 0 <= i < |addresses| ==> AddressComplete(addresses[i])
  }

  /** The number of entries flagged default. */
  function DefaultCount(list: seq<FormAddress>): nat {
    if |list| == 0 then 0 else DefaultCount(list[..|list| - 1]) + (if list[|list| - 1].isDefault then 1 else 0)
  }

  /** Exactly one default means: the entry at `i` is the default and no other is. */
  lemma {:induction false} OneDefaultAt(list: seq<FormAddress>, i: nat)
    requires i < |list| && list[i].isDefault
    requires forall j :: 0 <= j < |list| && j != i ==> !list[j].isDefault
    ensures DefaultCount(list) == 1
    decreases |list|
  {
    var n := |list| - 1;
    if i < n {
      OneDefaultAt(list[..n], i);
    } else {
      NoDefaults(list[..n]);
    }
  }

  lemma {:induction false} NoDefaults(list: seq<FormAddress>)
    requires forall j :: 0 <= j < |list| ==> !list[j].isDefault
    ensures DefaultCount(list) == 0
    decreases |list|
  {
    if |list| > 0 {
      NoDefaults(list[..|list| - 1]);
    }
  }

  /** With exactly one default there is an index holding it. */
  lemma {:induction false} TheDefault(list: seq<FormAddress>) returns (i: nat)
    requires DefaultCount(list) == 1
    ensures i < |list| && list[i].isDefault
    ensures forall j :: 0 <= j < |list| && j != i ==> !list[j].isDefault
    decreases |list|
  {
    var n := |list| - 1;
    if list[n].isDefault {
      i := n;
      ZeroDefaults(list[..n]);
      assert forall j :: 0 <= j < n ==> list[j] == list[..n][j];
    } else {
      i := TheDefault(list[..n]);
      assert forall j :: 0 <= j < n ==> list[j] == list[..n][j];
    }
  }

  lemma {:induction false} ZeroDefaults(list: seq<FormAddress>)
    requires DefaultCount(list) == 0
    ensures forall j :: 0 <= j < |list| ==> !list[j].isDefault
    decreases |list|
  {
    if |list| > 0 {
      var n := |list| - 1;
      ZeroDefaults(list[..n]);
      assert forall j :: 0 <= j < n ==> list[j] == list[..n][j];
    }
  }

  /** `removeAddress(index)`: the list without that entry; the first remaining entry takes over a removed default. */
  function Removed(list: seq<FormAddress>, index: nat): seq<FormAddress>
    requires |list| <= 1 || index < |list|
  {
    if |list| <= 1 then list
    else
      var rest := list[..index] + list[index + 1..];
      if list[index].isDefault then rest[0 := rest[0].(isDefault := true)] else rest
  }

  /**
   * Removing keeps at least one entry: a single entry is never removed,
   * otherwise exactly the entry at `index` goes and the others keep their
   * order and contents, except that the first takes the default flag when
   * the removed entry held it.
   */
  lemma RemovedShape(list: seq<FormAddress>, index: nat)
    requires |list| <= 1 || index < |list|
    ensures var r := Removed(list, index);
            && (|list| <= 1 ==> r == list)
            && (|list| > 1 ==>
                  && |r| == |list| - 1
                  && (forall j :: 0 <= j < |r| ==> r[j].(isDefault := false) == (if j < index then list[j] else list[j + 1]).(isDefault := false))
                  && (forall j :: 0 <= j < |r| ==> r[j].isDefault == ((if j < index then list[j] else list[j + 1]).isDefault || (j == 0 && list[index].isDefault))))
  {
  }

  /** Removing an entry from a list with exactly one default leaves exactly one default, and never empties it. */
  lemma RemovedKeepsOneDefault(list: seq<FormAddress>, index: nat)
    requires |list| >= 1 && DefaultCount(list) == 1
    requires |list| <= 1 || index < |list|
    ensures |Removed(list, index)| >= 1 && DefaultCount(Removed(list, index)) == 1
  {
    var r := Removed(list, index);
    if |list| > 1 {
      var d := TheDefault(list);
      RemovedShape(list, index);
      if d == index {
        OneDefaultAt(r, 0);
      } else {
        var e := if d < index then d else d - 1;
        assert r[e].isDefault;
        OneDefaultAt(r, e);
      }
    }
  }

  /** `setDefaultAddress(index)`: every entry keeps its fields and is flagged default exactly when it sits at `index`. */
  function DefaultAt(list: seq<FormAddress>, index: nat): seq<FormAddress> {
    seq(|list|, (i: int) requires 0 <= i < |list| => list[i].(isDefault := i == index))
  }

  /** A default set at an index in range is the only one; one out of range leaves none; setting twice is setting once. */
  lemma DefaultAtMeaning(list: seq<FormAddress>, index: nat)
    ensures |DefaultAt(list, index)| == |list|
    ensures index < |list| ==> DefaultCount(DefaultAt(list, index)) == 1 && DefaultAt(list, index)[index].isDefault
    ensures index >= |list| ==> DefaultCount(DefaultAt(list, index)) == 0
    ensures DefaultAt(DefaultAt(list, index), index) == DefaultAt(list, index)
  {
    var r := DefaultAt(list, index);
    if index < |list| {
      OneDefaultAt(r, index);
    } else {
      NoDefaults(r);
    }
  }

  /** The key text `updateAddress` clears, as the page builds it: `address_${index}_${field}`. */
  function ClearedTextAsWritten(index: nat, field: AddressField): string {
    "address_" + NatToString(index) + "_" + field.Name()
  }

  /** `if (errors[key]) errors = {...errors, [key]: ""}`, with the key given by its text, as the page does it. */
  function ClearedAsWritten(errors: map<ErrorKey, string>, index: nat, field: AddressField): map<ErrorKey, string> {
    map k | k in errors :: if KeyText(k) == ClearedTextAsWritten(index, field) then "" else errors[k]
  }

  /** The check whose error an edit of `field` should clear, when the field has one. */
  function CheckOf(field: AddressField): Option<AddressCheck> {
    match field
    case AddressLine1 => Some(LineOneCheck)
    case City => Some(CityCheck)
    case State => Some(StateCheck)
    case Pincode => Some(PincodeCheck)
    case _ => None
  }

  /** The key an edit of `field` should clear: the one its check reports under. */
  function ClearedKey(index: nat, field: AddressField): Option<ErrorKey> {
    if CheckOf(field).Some? then Some(AddressKey(index, CheckOf(field).value)) else None
  }

  /** `if (errors[key]) errors = {...errors, [key]: ""}`. */
  function Cleared(errors: map<ErrorKey, string>, key: Option<ErrorKey>): (r: map<ErrorKey, string>)
    ensures r.Keys == errors.Keys
    ensures key.Some? && key.value in r ==> r[key.value] == ""
    ensures forall k :: k in r && Some(k) != key ==> r[k] == errors[k]
  {
    if key.Some? && key.value in errors && errors[key.value] != "" then errors[key.value := ""] else errors
  }

  /**
   * As written, typing in address line 1 clears the key `address_${index}_addressLine1`,
   * which no check reports under, so the "Address line 1 is required"
   * message of that entry stays on screen.
   */
  lemma LineOneErrorSurvivesAsWritten(errors: map<ErrorKey, string>, index: nat)
    requires AddressKey(index, LineOneCheck) in errors
    ensures ClearedAsWritten(errors, index, AddressLine1)[AddressKey(index, LineOneCheck)] == errors[AddressKey(index, LineOneCheck)]
  {
    var key := AddressKey(index, LineOneCheck);
    assert |KeyText(key)| == 8 + |NatToString(index)| + 1 + 5;
    assert |ClearedTextAsWritten(index, AddressLine1)| == 8 + |NatToString(index)| + 1 + 12;
  }

  /** For city, state and pincode the page's key text is the reported key's, so as written it clears the right message. */
  lemma AsWrittenAgreesExceptLineOne(errors: map<ErrorKey, string>, index: nat, field: AddressField)
    requires CheckOf(field).Some? && field != AddressLine1
    requires forall k :: k in errors ==> errors[k] != ""
    ensures ClearedAsWritten(errors, index, field) == Cleared(errors, ClearedKey(index, field))
  {
    var key := AddressKey(index, CheckOf(field).value);
    assert KeyText(key) == ClearedTextAsWritten(index, field);
    forall k | k in errors && KeyText(k) == ClearedTextAsWritten(index, field)
      ensures k == key
    {
      KeyTextInjective(k, key);
    }
  }

  /** The corrected clearing: after an edit, the message of the edited field's check is never shown. */
  lemma EditClearsItsError(errors: map<ErrorKey, string>, index: nat, field: AddressField)
    requires CheckOf(field).Some?
    ensures var key := AddressKey(index, CheckOf(field).value);
            var r := Cleared(errors, ClearedKey(index, field));
            (key in r ==> r[key] == "") && r.Keys == errors.Keys
  {
  }

  /** `newErrors[key] = message` when the rule has a message, nothing otherwise. */
  function Report(errors: map<ErrorKey, string>, key: ErrorKey, message: Option<string>): (r: map<ErrorKey, string>)
    requires key !in errors
    ensures Reported(r, key, message)
    ensures r.Keys <= errors.Keys + {key}
    ensures forall k :: k != key ==> (k in r <==> k in errors) && (k in r ==> r[k] == errors[k])
  {
    if message.Some? then errors[key := message.value] else errors
  }

  /** The checks of the fields that are not addresses, each reported under its own key. */
  method BasicFieldErrors(input: FormInput, hasImage: bool) returns (e: map<ErrorKey, string>)
    ensures forall f :: Reported(e, FieldKey(f), BasicError(f, input, hasImage))
    ensures forall k :: k in e ==> k.FieldKey?
  {
    e := ReportFields(f => BasicError(f, input, hasImage));
  }

  /** The six checks in the order the form runs them, each reporting `message(f)` under its field's key. */
  method ReportFields(message: BasicField -> Option<string>) returns (e: map<ErrorKey, string>)
    ensures forall f :: Reported(e, FieldKey(f), message(f))
    ensures forall k :: k in e ==> k.FieldKey?
  {
    e := map[];
    e := Report(e, FieldKey(FName), message(FName));
    e := Report(e, FieldKey(LName), message(LName));
    e := Report(e, FieldKey(EmailField), message(EmailField));
    e := Report(e, FieldKey(MobileField), message(MobileField));
    e := Report(e, FieldKey(GenderField), message(GenderField));
    e := Report(e, FieldKey(ProfileField), message(ProfileField));
    EveryFieldReported(e, message);
  }

  /** Six reports, one per field, cover every field. */
  lemma EveryFieldReported(e: map<ErrorKey, string>, message: BasicField -> Option<string>)
    requires Reported(e, FieldKey(FName), message(FName))
    requires Reported(e, FieldKey(LName), message(LName))
    requires Reported(e, FieldKey(EmailField), message(EmailField))
    requires Reported(e, FieldKey(MobileField), message(MobileField))
    requires Reported(e, FieldKey(GenderField), message(GenderField))
    requires Reported(e, FieldKey(ProfileField), message(ProfileField))
    ensures forall f :: Reported(e, FieldKey(f), message(f))
  {
    forall f
      ensures Reported(e, FieldKey(f), message(f))
    {
      match f
      case FName =>
      case LName =>
      case EmailField =>
      case MobileField =>
      case GenderField =>
      case ProfileField =>
    }
  }

  /** The four checks of entry `i` in the order the form runs them, each reporting `message(c)` under its key. */
  method ReportChecks(errors: map<ErrorKey, string>, i: nat, message: AddressCheck -> Option<string>) returns (e: map<ErrorKey, string>)
    requires forall c :: AddressKey(i, c) !in errors
    ensures forall c :: Reported(e, AddressKey(i, c), message(c))
    ensures forall k: ErrorKey :: !(k.AddressKey? && k.index == i) ==> (k in e <==> k in errors) && (k in e ==> e[k] == errors[k])
  {
    e := Report(errors, AddressKey(i, LineOneCheck), message(LineOneCheck));
    e := Report(e, AddressKey(i, CityCheck), message(CityCheck));
    e := Report(e, AddressKey(i, StateCheck), message(StateCheck));
    e := Report(e, AddressKey(i, PincodeCheck), message(PincodeCheck));
    forall c
      ensures Reported(e, AddressKey(i, c), message(c))
    {
      match c
      case LineOneCheck =>
      case CityCheck =>
      case StateCheck =>
      case PincodeCheck =>
    }
  }

  /**
   * The registration page. `hasImage` stands for a chosen profile picture;
   * the error dictionary maps keys to the messages shown under the fields.
   */
  class RegisterPage {
    var input: FormInput
    var status: string
    var hasImage: bool
    var addresses: seq<FormAddress>
    var errors: map<ErrorKey, string>

    /** The address list is never empty and has exactly one default. */
    predicate Valid()
      reads this
    {
      |addresses| >= 1 && DefaultCount(addresses) == 1
    }

    /** The initial state: empty inputs, status Active, no picture, one blank default entry, no errors. */
    constructor ()
      ensures Valid()
      ensures input == EmptyInput && status == "Active" && !hasImage
      ensures addresses == [BlankAddress(true)] && errors == map[]
    {
      input := EmptyInput;
      status := "Active";
      hasImage := false;
      addresses := [BlankAddress(true)];
      errors := map[];
      new;
      OneDefaultAt(addresses, 0);
    }

    /**
     * `validateForm`: every rule is checked (none stops the others), each
     * violation is reported under its key with its message, the dictionary
     * replaces the shown errors, and the form is accepted exactly when
     * nothing was reported, which is exactly when every rule holds.
     */
    method ValidateForm() returns (ok: bool)
      modifies this
      ensures input == old(input) && hasImage == old(hasImage) && addresses == old(addresses) && status == old(status)
      ensures forall f :: Reported(errors, FieldKey(f), BasicError(f, input, hasImage))
      ensures forall i, c :: 0 <= i < |addresses| ==> Reported(errors, AddressKey(i, c), AddressError(addresses[i], c))
      ensures forall k :: k in errors && k.AddressKey? ==> k.index < |addresses|
      ensures ok <==> errors == map[]
      ensures ok <==> FormValid(input, hasImage, addresses)
    {
      var e := BasicFieldErrors(input, hasImage);
      for i := 0 to |addresses|
        invariant unchanged(this)
        invariant forall f :: Reported(e, FieldKey(f), BasicError(f, input, hasImage))
        invariant forall j, c :: 0 <= j < i ==> Reported(e, AddressKey(j, c), AddressError(addresses[j], c))
        invariant forall k :: k in e && k.AddressKey? ==> k.index < i
      {
        var a := addresses[i];
        e := ReportChecks(e, i, c => AddressError(a, c));
      }
      errors := e;
      ok := |e| == 0;
      FormValidIffNothingReported(e, input, hasImage, addresses);
    }

    /** `addAddress`: one blank, non-default entry at the end. */
    method AddAddress()
      requires Valid()
      modifies this
      ensures Valid()
      ensures addresses == old(addresses) + [BlankAddress(false)]
      ensures input == old(input) && errors == old(errors) && hasImage == old(hasImage) && status == old(status)
    {
      addresses := addresses + [BlankAddress(false)];
      assert addresses[..|addresses| - 1] == old(addresses);
    }

    /** `removeAddress(index)`. */
    method RemoveAddress(index: nat)
      requires Valid()
      requires |addresses| <= 1 || index < |addresses|
      modifies this
      ensures Valid()
      ensures addresses == Removed(old(addresses), index)
      ensures input == old(input) && errors == old(errors) && hasImage == old(hasImage) && status == old(status)
    {
      RemovedKeepsOneDefault(addresses, index);
      if |addresses| > 1 {
        var next := addresses[..index] + addresses[index + 1..];
        if addresses[index].isDefault {
          next := next[0 := next[0].(isDefault := true)];
        }
        addresses := next;
      }
    }

    /**
     * `updateAddress(index, field, value)` as written: the one field set, and
     * the message under the key text `address_${index}_${field}` cleared,
     * which for address line 1 is not the key its check reports under.
     */
    method UpdateAddressAsWritten(index: nat, field: AddressField, value: string)
      requires Valid() && index < |addresses|
      modifies this
      ensures Valid()
      ensures addresses == old(addresses)[index := WithField(old(addresses)[index], field, value)]
      ensures errors == ClearedAsWritten(old(errors), index, field)
      ensures input == old(input) && hasImage == old(hasImage) && status == old(status)
    {
      var d := TheDefault(addresses);
      addresses := addresses[index := WithField(addresses[index], field, value)];
      OneDefaultAt(addresses, d);
      var text := ClearedTextAsWritten(index, field);
      errors := map k | k in errors :: if KeyText(k) == text then "" else errors[k];
    }

    /** `updateAddress(index, field, value)`, corrected: the one field set, and the message of its check cleared. */
    method UpdateAddress(index: nat, field: AddressField, value: string)
      requires Valid() && index < |addresses|
      modifies this
      ensures Valid()
      ensures addresses == old(addresses)[index := WithField(old(addresses)[index], field, value)]
      ensures errors == Cleared(old(errors), ClearedKey(index, field))
      ensures input == old(input) && hasImage == old(hasImage) && status == old(status)
    {
      var d := TheDefault(addresses);
      addresses := addresses[index := WithField(addresses[index], field, value)];
      OneDefaultAt(addresses, d);
      var key := ClearedKey(index, field);
      if key.Some? && key.value in errors && errors[key.value] != "" {
        errors := errors[key.value := ""];
      }
    }

    /** `setDefaultAddress(index)`. */
    method SetDefaultAddress(index: nat)
      requires Valid()
      modifies this
      ensures index < |old(addresses)| ==> Valid()
      ensures addresses == DefaultAt(old(addresses), index)
      ensures input == old(input) && errors == old(errors) && hasImage == old(hasImage) && status == old(status)
    {
      DefaultAtMeaning(addresses, index);
      addresses := DefaultAt(addresses, index);
    }

    /** The reset after a 200 reply: the page returns to its initial state. */
    method SubmitSucceeded()
      modifies this
      ensures Valid()
      ensures input == EmptyInput && status == "Active" && !hasImage
      ensures addresses == [BlankAddress(true)] && errors == map[]
    {
      input := EmptyInput;
      status := "Active";
      hasImage := false;
      addresses := [BlankAddress(true)];
      errors := map[];
      OneDefaultAt(addresses, 0);
    }
  }

  /** A dictionary holding exactly the reports of the rules is empty exactly when the form is acceptable. */
  lemma FormValidIffNothingReported(e: map<ErrorKey, string>, input: FormInput, hasImage: bool, addresses: seq<FormAddress>)
    requires forall f :: Reported(e, FieldKey(f), BasicError(f, input, hasImage))
    requires forall i, c :: 0 <= i < |addresses| ==> Reported(e, AddressKey(i, c), AddressError(addresses[i], c))
    requires forall k :: k in e && k.AddressKey? ==> k.index < |addresses|
    ensures |e| == 0 <==> FormValid(input, hasImage, addresses)
  {
    var basic := f => BasicError(f, input, hasImage);
    NothingReportedIffNoMessage(e, basic, AddressError, addresses);
    BasicValidIff(input, hasImage);
    assert basic(FName) == BasicError(FName, input, hasImage) && basic(LName) == BasicError(LName, input, hasImage);
    assert basic(EmailField) == BasicError(EmailField, input, hasImage) && basic(MobileField) == BasicError(MobileField, input, hasImage);
    assert basic(GenderField) == BasicError(GenderField, input, hasImage) && basic(ProfileField) == BasicError(ProfileField, input, hasImage);
    forall i | 0 <= i < |addresses|
      ensures AddressComplete(addresses[i]) <==> AllChecksPass(AddressError, addresses[i])
    {
      AddressCompleteIff(addresses[i]);
    }
  }

  /** None of the four checks has a message for `a`. */
  predicate AllChecksPass(check: (FormAddress, AddressCheck) -> Option<string>, a: FormAddress) {
    check(a, LineOneCheck).None? && check(a, CityCheck).None? && check(a, StateCheck).None? && check(a, PincodeCheck).None?
  }

  /**
   * With every field and every entry's checks reported under their keys and
   * no other key present, the dictionary is empty exactly when no rule has a message.
   */
  lemma NothingReportedIffNoMessage(e: map<ErrorKey, string>, basic: BasicField -> Option<string>,
                                    check: (FormAddress, AddressCheck) -> Option<string>, addresses: seq<FormAddress>)
    requires forall f :: Reported(e, FieldKey(f), basic(f))
    requires forall i, c :: 0 <= i < |addresses| ==> Reported(e, AddressKey(i, c), check(addresses[i], c))
    requires forall k :: k in e && k.AddressKey? ==> k.index < |addresses|
    ensures |e| == 0 <==>
              && basic(FName).None? && basic(LName).None? && basic(EmailField).None?
              && basic(MobileField).None? && basic(GenderField).None? && basic(ProfileField).None?
              && forall i :: 0 <= i < |addresses| ==> AllChecksPass(check, addresses[i])
  {
    EveryField(basic);
    forall i | 0 <= i < |addresses|
      ensures AllChecksPass(check, addresses[i]) <==> forall c :: check(addresses[i], c).None?
    {
      EveryCheck(check, addresses[i]);
    }
    if (forall f :: basic(f).None?) && (forall i, c :: 0 <= i < |addresses| ==> check(addresses[i], c).None?) {
      forall k | k in e
        ensures false
      {
        match k
        case FieldKey(f) =>
        case AddressKey(i, c) =>
      }
      assert e == map[];
    } else if f :| basic(f).Some? {
      assert FieldKey(f) in e;
    } else {
      var i, c :| 0 <= i < |addresses| && check(addresses[i], c).Some?;
      assert AddressKey(i, c) in e;
    }
  }

  /** A property of every field is the property of each of the six. */
  lemma EveryField(message: BasicField -> Option<string>)
    ensures (forall f :: message(f).None?) <==>
              && message(FName).None? && message(LName).None? && message(EmailField).None?
              && message(MobileField).None? && message(GenderField).None? && message(ProfileField).None?
  {
    if message(FName).None? && message(LName).None? && message(EmailField).None?
       && message(MobileField).None? && message(GenderField).None? && message(ProfileField).None? {
      forall f
        ensures message(f).None?
      {
        match f
        case FName =>
        case LName =>
        case EmailField =>
        case MobileField =>
        case GenderField =>
        case ProfileField =>
      }
    }
  }

  /** A property of every check is the property of each of the four. */
  lemma EveryCheck(check: (FormAddress, AddressCheck) -> Option<string>, a: FormAddress)
    ensures (forall c :: check(a, c).None?) <==> AllChecksPass(check, a)
  {
    if AllChecksPass(check, a) {
      forall c
        ensures check(a, c).None?
      {
        match c
        case LineOneCheck =>
        case CityCheck =>
        case StateCheck =>
        case PincodeCheck =>
      }
    }
  }

  /** The fields that are not addresses are acceptable exactly when none of them has a message. */
  lemma BasicValidIff(input: FormInput, hasImage: bool)
    ensures BasicValid(input, hasImage) <==>
              && BasicError(FName, input, hasImage).None? && BasicError(LName, input, hasImage).None?
              && BasicError(EmailField, input, hasImage).None? && BasicError(MobileField, input, hasImage).None?
              && BasicError(GenderField, input, hasImage).None? && BasicError(ProfileField, input, hasImage).None?
  {
    NameRule(input.fname, "First name");
    NameRule(input.lname, "Last name");
    EmailRule(input.email);
    MobileRule(input.mobile);
  }

  /** A name has no message exactly when it has at least two characters after trimming. */
  lemma NameRule(value: string, title: string)
    ensures NameError(value, title).None? <==> |Trim(value)| >= 2
  {
  }

  /** An email has no message exactly when the pattern accepts it. */
  lemma EmailRule(value: string)
    ensures EmailError(value).None? <==> ValidEmail(value)
  {
    EmailNotBlank(value);
  }

  /** A mobile number has no message exactly when the pattern accepts it. */
  lemma MobileRule(value: string)
    ensures MobileError(value).None? <==> ValidMobile(value)
  {
    DigitsNotBlank(value);
  }

  /** An entry is complete exactly when none of the four checks has a message for it. */
  lemma AddressCompleteIff(a: FormAddress)
    ensures AddressComplete(a) <==>
              && AddressError(a, LineOneCheck).None? && AddressError(a, CityCheck).None?
              && AddressError(a, StateCheck).None? && AddressError(a, PincodeCheck).None?
  {
    DigitsNotBlank(a.pincode);
  }

  /** Some check reports on an incomplete entry, and none on a complete one. */
  lemma CheckReports(a: FormAddress, c: AddressCheck)
    ensures AddressComplete(a) ==> AddressError(a, c).None?
  {
    AddressCompleteIff(a);
  }

  /** Text made of digits (six or ten of them in the patterns) is not blank after trimming. */
  lemma DigitsNotBlank(s: string)
    ensures ValidPincode(s) || ValidMobile(s) ==> Trim(s) != ""
  {
    if ValidPincode(s) || ValidMobile(s) {
      assert !IsSpace(s[0]);
      assert !IsBlank(s);
    }
  }

  /** An address the email pattern accepts has no white space, so it is not blank. */
  lemma EmailNotBlank(s: string)
    ensures ValidEmail(s) ==> Trim(s) != ""
  {
    if ValidEmail(s) {
      assert |s| > 0 && !IsSpace(s[0]);
      assert !IsBlank(s);
    }
  }
}
