/**
 * The customer collection as mutable state, and the handlers that change
 * it, step by step as the controllers run them: early returns for each
 * refusal, a document loaded or created and saved for registration and
 * the address handlers, a direct update for edit and status changes.
 * Each handler's reply and new state are those of its outcome function,
 * and each keeps the store's invariant.
 */
module Store {
  import opened Wrappers
  import opened Text
  import opened Schema
  import opened Document
  import opened Controllers

  class CustomerStore {
    /** The stored records, in insertion order. */
    var users: seq<Customer>
    /** The next identifier to hand out. */
    var nextId: nat

    predicate Valid()
      reads this
    {
      ValidStore(users, nextId)
    }

    /** An empty collection. */
    constructor ()
      ensures Valid() && users == [] && nextId == 0
    {
      users := [];
      nextId := 0;
    }

    /** `userpost`: the request checks, then the built document saved. */
    method Register(q: RegisterRequest, actor: Option<string>, now: Time) returns (reply: Reply)
      requires Valid()
      modifies this
      ensures Valid()
      ensures Step(reply, users, nextId) == RegisterOutcome(old(users), old(nextId), q, actor, now)
    {
      if MissingRequired(q) {
        return Fail(400, MissingFieldsMessage);
      }
      var k := RegisterConflict(users, q);
      if k < |users| {
        return Fail(409, if users[k].email == Lower(q.email) then "User with this email already exists"
                         else "User with this mobile number already exists");
      }
      if q.addresses.Unparsable? {
        return Fail(400, "Invalid address format");
      }
      var c := NewCustomer(q, actor, nextId, now);
      reply := Insert(c, now);
    }

    /** `new users(...).save()` for a built record: validate, hook, check the unique indexes, append. */
    method Insert(c: Customer, now: Time) returns (reply: Reply)
      requires Valid() && c.id == nextId && UniqueIds(c.addresses)
      requires AddressIdsBelow(c.addresses, nextId + 1 + |c.addresses|)
      modifies this
      ensures Valid()
      ensures Step(reply, users, nextId) == Admit(old(users), old(nextId), c, now)
    {
      var result, saved := CreateAndSave(c, now);
      if !result.Saved? {
        return Reply(400, "Validation failed", Messages(ErrorMessages(result.errors)));
      }
      if IndexClash(users, saved.email, saved.mobile, None) {
        return Fail(500, "Failed to create customer");
      }
      ghost var before, counter := users, nextId;
      StoreAppended(saved, nextId + 1 + |c.addresses|);
      AdmitSaved(before, counter, c, now, saved);
      reply := Reply(200, "Customer created successfully", One(saved));
    }

    /** Stores `r` in place of the record at `k`, which it keeps the id and addresses of, when no other record holds its e-mail or mobile. */
    method StoreEdited(k: nat, r: Customer)
      requires Valid() && k < |users|
      requires r.id == users[k].id && r.addresses == users[k].addresses
      requires !IndexClash(users, r.email, r.mobile, Some(users[k].id))
      modifies this
      ensures Valid() && users == old(users)[k := r] && nextId == old(nextId)
    {
      assert forall j :: 0 <= j < |users| && j != k ==> users[j].id != users[k].id;
      ReplaceKeepsValid(users, nextId, k, r, nextId);
      users := users[k := r];
    }

    /** Appends `r`, which takes the next fresh id and no stored e-mail or mobile, and moves the counter up to `bound`. */
    method StoreAppended(r: Customer, bound: nat)
      requires Valid() && r.id == nextId && nextId < bound
      requires UniqueIds(r.addresses) && AddressIdsBelow(r.addresses, bound)
      requires !IndexClash(users, r.email, r.mobile, None)
      modifies this
      ensures Valid() && users == old(users) + [r] && nextId == bound
    {
      AppendKeepsValid(users, nextId, r, bound);
      users, nextId := users + [r], bound;
    }

    /** `useredit`. */
    method Edit(id: nat, q: EditRequest, actor: Option<string>) returns (reply: Reply)
      requires Valid()
      modifies this
      ensures Valid()
      ensures Step(reply, users, nextId) == EditOutcome(old(users), old(nextId), id, q, actor)
    {
      var k := Find(users, id);
      if k == |users| {
        return Fail(404, "User not found");
      }
      if q.email != "" || q.mobile != "" {
        var j := EditConflict(users, id, q);
        if j < |users| {
          return Fail(409, if q.email != "" && users[j].email == Lower(q.email) then "Email already exists for another user"
                           else "Mobile number already exists for another user");
        }
      }
      EditProceeds(users, nextId, id, q, actor);
      reply := EditAt(k, UpdateOf(q, actor));
    }

    /** The rest of `useredit` once the record at `k` passed the conflict check: the update validators, the unique indexes, the write. */
    method EditAt(k: nat, u: Update) returns (reply: Reply)
      requires Valid() && k < |users|
      modifies this
      ensures Valid()
      ensures Step(reply, users, nextId) == ApplyEdit(old(users), old(nextId), k, u)
    {
      var errors := UpdateErrors(u);
      if errors != [] {
        return Reply(400, "Validation failed", Messages(ErrorMessages(errors)));
      }
      var updated := Apply(users[k], u);
      if IndexClash(users, updated.email, updated.mobile, Some(users[k].id)) {
        return Fail(500, "Failed to update user");
      }
      StoreEdited(k, updated);
      reply := Reply(200, "User updated successfully", One(updated));
    }

    /** `userstatus`. */
    method ChangeStatus(id: nat, data: string, actor: Option<string>) returns (reply: Reply)
      requires Valid()
      modifies this
      ensures Valid()
      ensures Step(reply, users, nextId) == StatusOutcome(old(users), old(nextId), id, data, actor)
    {
      StatusKeepsValid(users, nextId, id, data, actor);
      if !IsStatus(data) {
        return Fail(400, "Valid status (Active/InActive) is required");
      }
      var k := Find(users, id);
      if k == |users| {
        return Fail(404, "User not found");
      }
      var updated := users[k].(status := data, updatedBy := Actor(actor));
      users := users[k := updated];
      reply := Reply(200, "User status updated to " + data, One(updated));
    }

    /** `userdelete`. */
    method Delete(id: nat) returns (reply: Reply)
      requires Valid()
      modifies this
      ensures Valid()
      ensures Step(reply, users, nextId) == DeleteOutcome(old(users), old(nextId), id)
    {
      DeleteKeepsValid(users, nextId, id);
      var k := Find(users, id);
      if k == |users| {
        return Fail(404, "User not found");
      }
      reply := Reply(200, "User deleted successfully", One(users[k]));
      users := users[..k] + users[k + 1..];
    }

    /** `addAddress`: look the record up, then add through its document. */
    method AddAddress(id: nat, input: AddressInput, now: Time) returns (reply: Reply)
      requires Valid()
      modifies this
      ensures Valid()
      ensures Step(reply, users, nextId) == AddAddressOutcome(old(users), old(nextId), id, input, now)
    {
      var k := Find(users, id);
      if k == |users| {
        return Fail(404, "User not found");
      }
      reply := AddAddressAt(k, id, input, now);
    }

    /**
     * Stores `r` in place of the record at `k`, which it keeps the id, e-mail
     * and mobile number of, and moves the counter up to `bound`.
     */
    method StoreRecord(k: nat, r: Customer, bound: nat)
      requires Valid() && k < |users| && nextId <= bound
      requires r.id == users[k].id && r.email == users[k].email && r.mobile == users[k].mobile
      requires UniqueIds(r.addresses) && AddressIdsBelow(r.addresses, bound)
      modifies this
      ensures Valid() && users == old(users)[k := r] && nextId == bound
    {
      ReplaceKeepsValid(users, nextId, k, r, bound);
      users, nextId := users[k := r], bound;
    }

    /** The rest of `addAddress` once the record is found at `k`. */
    method AddAddressAt(k: nat, id: nat, input: AddressInput, now: Time) returns (reply: Reply)
      requires Valid() && k == Find(users, id) && k < |users|
      modifies this
      ensures Valid()
      ensures Step(reply, users, nextId) == AddAddressOutcome(old(users), old(nextId), id, input, now)
    {
      var result, saved := AddAddressTo(users[k], nextId, input, now);
      if !result.Saved? {
        return Reply(400, "Address validation failed", Messages(ErrorMessages(result.errors)));
      }
      ghost var before, counter := users, nextId;
      PushedKeepsIds(users[k].addresses, NewAddress(nextId, input), nextId);
      StoreRecord(k, saved, nextId + 1);
      AddAddressSaved(before, counter, id, input, now, k, before[k].(addresses := Pushed(before[k].addresses, NewAddress(counter, input))), saved);
      reply := Reply(200, "Address added successfully", One(saved));
    }

    /** `updateAddress`. */
    method UpdateAddress(id: nat, addressId: nat, patch: AddressPatch, now: Time) returns (reply: Reply)
      requires Valid()
      modifies this
      ensures Valid()
      ensures Step(reply, users, nextId) == UpdateAddressOutcome(old(users), old(nextId), id, addressId, patch, now)
    {
      var k := Find(users, id);
      if k == |users| {
        return Fail(404, "User not found");
      }
      var result, saved := UpdateAddressOf(users[k], addressId, patch, now);
      if result.AddressNotFound? {
        return Fail(404, "Address not found");
      }
      if !result.Saved? {
        return Fail(500, "Failed to update address");
      }
      ghost var before := users;
      PatchedKeepsIds(users[k].addresses, addressId, patch, nextId);
      StoreRecord(k, saved, nextId);
      UpdateAddressSaved(before, nextId, id, addressId, patch, now, k, saved);
      reply := Reply(200, "Address updated successfully", One(saved));
    }

    /** `deleteAddress`. */
    method DeleteAddress(id: nat, addressId: nat, now: Time) returns (reply: Reply)
      requires Valid()
      modifies this
      ensures Valid()
      ensures Step(reply, users, nextId) == DeleteAddressOutcome(old(users), old(nextId), id, addressId, now)
    {
      var k := Find(users, id);
      if k == |users| {
        return Fail(404, "User not found");
      }
      var result, saved := DeleteAddressOf(users[k], addressId, now);
      if !result.Saved? {
        return Fail(500, "Failed to delete address");
      }
      ghost var before := users;
      DeletedKeepsIds(users[k].addresses, addressId, nextId);
      StoreRecord(k, saved, nextId);
      DeleteAddressSaved(before, nextId, id, addressId, now, k, saved);
      reply := Reply(200, "Address deleted successfully", One(saved));
    }

    /** `setDefaultAddress`. */
    method SetDefaultAddress(id: nat, addressId: nat, now: Time) returns (reply: Reply)
      requires Valid()
      modifies this
      ensures Valid()
      ensures Step(reply, users, nextId) == SetDefaultOutcome(old(users), old(nextId), id, addressId, now)
    {
      var k := Find(users, id);
      if k == |users| {
        return Fail(404, "User not found");
      }
      var result, saved := SetDefaultOf(users[k], addressId, now);
      if !result.Saved? {
        return Fail(500, "Failed to set default address");
      }
      ghost var before := users;
      DefaultSetKeepsIds(users[k].addresses, addressId, nextId);
      StoreRecord(k, saved, nextId);
      SetDefaultSaved(before, nextId, id, addressId, now, k, saved);
      reply := Reply(200, "Default address updated successfully", One(saved));
    }
  }

  // A stored record's document: loaded (or created), changed by one
  // instance method and saved; `saved` is its value afterwards.

  /** `new users(c).save()`. */
  method CreateAndSave(c: Customer, now: Time) returns (result: SaveResult, saved: Customer)
    ensures result == Validated(c, now)
    ensures result.Saved? ==> saved == Hooked(c, true, false, now)
  {
    var doc := new UserDocument.Create(c);
    result := doc.Save(now);
    saved := doc.Value();
  }

  /** `user.addAddress(input)` on the record `c`; the new address takes the id `id`. */
  method AddAddressTo(c: Customer, id: nat, input: AddressInput, now: Time) returns (result: SaveResult, saved: Customer)
    ensures var changed := c.(addresses := Pushed(c.addresses, NewAddress(id, input)));
            && result == Validated(changed, now)
            && (result.Saved? ==> saved == Hooked(changed, false, true, now))
  {
    var doc := new UserDocument.Load(c);
    result := doc.AddAddress(id, input, now);
    saved := doc.Value();
  }

  /** `user.updateAddress(addressId, patch)` on the record `c`. */
  method UpdateAddressOf(c: Customer, addressId: nat, patch: AddressPatch, now: Time) returns (result: SaveResult, saved: Customer)
    ensures Patched(c.addresses, addressId, patch).None? ==> result == AddressNotFound
    ensures Patched(c.addresses, addressId, patch).Some? ==>
              var list := Patched(c.addresses, addressId, patch).value;
              && result == Validated(c.(addresses := list), now)
              && (result.Saved? ==> saved == Hooked(c.(addresses := list), false, list != c.addresses, now))
  {
    var doc := new UserDocument.Load(c);
    result := doc.UpdateAddress(addressId, patch, now);
    saved := doc.Value();
  }

  /** `user.deleteAddress(addressId)` on the record `c`. */
  method DeleteAddressOf(c: Customer, addressId: nat, now: Time) returns (result: SaveResult, saved: Customer)
    ensures var changed := c.(addresses := Deleted(c.addresses, addressId));
            && result == Validated(changed, now)
            && (result.Saved? ==> saved == Hooked(changed, false, true, now))
  {
    var doc := new UserDocument.Load(c);
    result := doc.DeleteAddress(addressId, now);
    saved := doc.Value();
  }

  /** `user.setDefaultAddress(addressId)` on the record `c`. */
  method SetDefaultOf(c: Customer, addressId: nat, now: Time) returns (result: SaveResult, saved: Customer)
    ensures var list := DefaultSetTo(c.addresses, addressId);
            && result == Validated(c.(addresses := list), now)
            && (result.Saved? ==> saved == Hooked(c.(addresses := list), false, list != c.addresses, now))
  {
    var doc := new UserDocument.Load(c);
    result := doc.SetDefaultAddress(addressId, now);
    saved := doc.Value();
  }
}
