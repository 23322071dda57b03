/**
 * A customer document held in memory: the instance methods `addAddress`,
 * `updateAddress`, `deleteAddress` and `setDefaultAddress` change its
 * address array in place and then save it; saving validates the whole
 * document and, when it is valid, runs the two pre-save hooks (the
 * `dateUpdated` stamp and the `isSingleAddress` flag).
 */
module Document {
  import opened Wrappers
  import opened Schema

  /** What `save()` settles to: success, or a ValidationError with its entries. */
  datatype SaveResult = Saved | Invalid(errors: seq<FieldError>) | AddressNotFound

  /** The validation step of `save()`. */
  function Validated(c: Customer, now: Time): SaveResult {
    var errors := CustomerErrors(c, now);
    if errors == [] then Saved else Invalid(errors)
  }

  /** Saving succeeds exactly for a document that satisfies every rule of the schema, and a failure always carries an error. */
  lemma ValidatedMeaning(c: Customer, now: Time)
    ensures Validated(c, now).Saved? <==> ValidCustomer(c, now)
    ensures !Validated(c, now).Saved? ==> Validated(c, now).Invalid? && Validated(c, now).errors != []
  {
    CustomerErrorsEmpty(c, now);
  }

  /**
   * A record as a successful `save()` leaves it: the `dateUpdated` hook
   * stamps `now` on a modified document that was already stored, and the
   * `isSingleAddress` hook recomputes the flag from the address count.
   */
  function Hooked(c: Customer, wasNew: bool, wasModified: bool, now: Time): Customer {
    c.(isSingleAddress := SingleFlag(|c.addresses|, c.isSingleAddress),
       dateUpdated := if wasModified && !wasNew then now else c.dateUpdated)
  }

  class UserDocument {
    /** The fields no instance method changes. */
    const initial: Customer
    var addresses: seq<Address>
    var isSingleAddress: bool
    var dateUpdated: Time
    /** Not yet stored (`isNew`). */
    var isNew: bool
    /** Changed since it was loaded or last saved (`isModified()`). */
    var modified: bool

    /** The document's current value. */
    function Value(): Customer
      reads this`addresses, this`isSingleAddress, this`dateUpdated
    {
      initial.(addresses := addresses, isSingleAddress := isSingleAddress, dateUpdated := dateUpdated)
    }

    /** `new users({...})`: a document not yet stored. */
    constructor Create(c: Customer)
      ensures Value() == c && isNew && !modified
    {
      initial := c;
      addresses := c.addresses;
      isSingleAddress := c.isSingleAddress;
      dateUpdated := c.dateUpdated;
      isNew := true;
      modified := false;
    }

    /** `users.findById(id)`: a stored document, unmodified. */
    constructor Load(c: Customer)
      ensures Value() == c && !isNew && !modified
    {
      initial := c;
      addresses := c.addresses;
      isSingleAddress := c.isSingleAddress;
      dateUpdated := c.dateUpdated;
      isNew := false;
      modified := false;
    }

    /**
     * `save()`: validation first; an invalid document is left untouched and
     * no hook runs. A valid one gets the two hooks applied and afterwards
     * counts as stored and unmodified.
     */
    method Save(now: Time) returns (result: SaveResult)
      modifies this
      ensures result == Validated(old(Value()), now)
      ensures result.Saved? ==> Value() == Hooked(old(Value()), old(isNew), old(modified), now) && !isNew && !modified
      ensures !result.Saved? ==> unchanged(this)
    {
      result := Validated(Value(), now);
      if result.Saved? {
        Commit(now);
      }
    }

    /** What a save that passed validation does: the hooks run, then the document counts as stored and unmodified. */
    method Commit(now: Time)
      modifies this
      ensures Value() == Hooked(old(Value()), old(isNew), old(modified), now) && !isNew && !modified
    {
      RunHooks(now);
      isNew := false;
      modified := false;
    }

    /** The pre-save hooks, in the order the schema registers them. */
    method RunHooks(now: Time)
      modifies this
      ensures Value() == Hooked(old(Value()), old(isNew), old(modified), now)
      ensures isNew == old(isNew) && modified == old(modified)
    {
      StampUpdated(now);
      FlagSingle();
    }

    /** The first pre-save hook: a modified document that is already stored gets `dateUpdated := now`. */
    method StampUpdated(now: Time)
      modifies this
      ensures Value() == old(Value()).(dateUpdated := if old(modified) && !old(isNew) then now else old(dateUpdated))
      ensures isNew == old(isNew) && modified == old(modified)
    {
      if modified && !isNew {
        dateUpdated := now;
      }
    }

    /** The second pre-save hook: one address sets `isSingleAddress`, more clear it, none leave it as it is. */
    method FlagSingle()
      modifies this
      ensures Value() == old(Value()).(isSingleAddress := SingleFlag(|old(addresses)|, old(isSingleAddress)))
      ensures isNew == old(isNew) && modified == old(modified)
    {
      if |addresses| == 1 {
        isSingleAddress := true;
      } else if |addresses| > 1 {
        isSingleAddress := false;
      }
    }

    /** `addAddress`: the address is pushed, then the document saved. */
    method AddAddress(id: nat, input: AddressInput, now: Time) returns (result: SaveResult)
      modifies this
      ensures var changed := old(Value()).(addresses := Pushed(old(addresses), NewAddress(id, input)));
              && result == Validated(changed, now)
              && Value() == (if result.Saved? then Hooked(changed, old(isNew), true, now) else changed)
    {
      PushAddress(id, input);
      result := Save(now);
    }

    /** The push of `addAddress`: the first address of an empty list is forced to be default. */
    method PushAddress(id: nat, input: AddressInput)
      modifies this
      ensures Value() == old(Value()).(addresses := Pushed(old(addresses), NewAddress(id, input)))
      ensures isNew == old(isNew) && modified
    {
      var data := input;
      if |addresses| == 0 {
        data := data.(isDefault := Some(true));
      }
      addresses := addresses + [NewAddress(id, data)];
      modified := true;
    }

    /** `updateAddress`: "Address not found" for an unknown id, otherwise the patch is applied to that address and the document saved. */
    method UpdateAddress(id: nat, patch: AddressPatch, now: Time) returns (result: SaveResult)
      modifies this
      ensures Patched(old(addresses), id, patch).None? ==> result == AddressNotFound && unchanged(this)
      ensures Patched(old(addresses), id, patch).Some? ==>
                var list := Patched(old(addresses), id, patch).value;
                var changed := old(Value()).(addresses := list);
                && result == Validated(changed, now)
                && Value() == (if result.Saved? then Hooked(changed, old(isNew), old(modified) || list != old(addresses), now)
                               else changed)
    {
      var found := PatchAddress(id, patch);
      if !found {
        return AddressNotFound;
      }
      result := Save(now);
    }

    /** The lookup and `Object.assign` of `updateAddress`; the document counts as modified when the address changed. */
    method PatchAddress(id: nat, patch: AddressPatch) returns (found: bool)
      modifies this
      ensures found == Patched(old(addresses), id, patch).Some?
      ensures !found ==> unchanged(this)
      ensures found ==>
                var list := Patched(old(addresses), id, patch).value;
                && Value() == old(Value()).(addresses := list)
                && isNew == old(isNew) && modified == (old(modified) || list != old(addresses))
    {
      var k := FindAddress(addresses, id);
      if k == |addresses| {
        return false;
      }
      var updated := addresses[k := ApplyPatch(addresses[k], patch)];
      modified := modified || updated != addresses;
      addresses := updated;
      found := true;
    }

    /** `deleteAddress`: the id is pulled, a default restored, and the document saved. */
    method DeleteAddress(id: nat, now: Time) returns (result: SaveResult)
      modifies this
      ensures var changed := old(Value()).(addresses := Deleted(old(addresses), id));
              && result == Validated(changed, now)
              && Value() == (if result.Saved? then Hooked(changed, old(isNew), true, now) else changed)
    {
      PullAddress(id);
      result := Save(now);
    }

    /** The pull of `deleteAddress`: every address with the id goes, and the first remaining one becomes default when none is. */
    method PullAddress(id: nat)
      modifies this
      ensures Value() == old(Value()).(addresses := Deleted(old(addresses), id))
      ensures isNew == old(isNew) && modified
    {
      addresses := Without(addresses, id);
      modified := true;
      if |addresses| > 0 && !HasDefault(addresses) {
        addresses := addresses[0 := addresses[0].(isDefault := true)];
      }
    }

    /** `setDefaultAddress`: flag exactly the addresses whose id is `id`, then save. */
    method SetDefaultAddress(id: nat, now: Time) returns (result: SaveResult)
      modifies this
      ensures var list := DefaultSetTo(old(addresses), id);
              var changed := old(Value()).(addresses := list);
              && result == Validated(changed, now)
              && Value() == (if result.Saved? then Hooked(changed, old(isNew), old(modified) || list != old(addresses), now)
                             else changed)
    {
      FlagDefault(id);
      result := Save(now);
    }

    /** The `forEach` of `setDefaultAddress`: each address's flag becomes whether its id is `id`; the document counts as modified when a flag changed. */
    method FlagDefault(id: nat)
      modifies this
      ensures Value() == old(Value()).(addresses := DefaultSetTo(old(addresses), id))
      ensures isNew == old(isNew) && modified == (old(modified) || addresses != old(addresses))
    {
      var i := 0;
      var changed := false;
      while i < |addresses|
        invariant 0 <= i <= |addresses| == |old(addresses)|
        invariant forall j :: 0 <= j < i ==> addresses[j] == old(addresses)[j].(isDefault := old(addresses)[j].id == id)
        invariant forall j :: i <= j < |addresses| ==> addresses[j] == old(addresses)[j]
        invariant changed <==> exists j :: 0 <= j < i && addresses[j] != old(addresses)[j]
        invariant isSingleAddress == old(isSingleAddress)
        invariant dateUpdated == old(dateUpdated) && isNew == old(isNew) && modified == old(modified)
      {
        var flagged := addresses[i].(isDefault := addresses[i].id == id);
        changed := changed || flagged != addresses[i];
        addresses := addresses[i := flagged];
        i := i + 1;
      }
      assert addresses == DefaultSetTo(old(addresses), id);
      assert changed <==> addresses != old(addresses) by {
        if addresses != old(addresses) {
          var j :| 0 <= j < |addresses| && addresses[j] != old(addresses)[j];
        }
      }
      modified := modified || changed;
    }
  }
}
