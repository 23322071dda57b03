/**
 * The order the listing sorts records in: the value of one field per
 * record, compared the way the database compares values of mixed types
 * (a missing or null value first, then strings, object ids, booleans and
 * dates), ascending or descending.
 */
module Ordering {
  import opened Wrappers
  import opened Schema

  /** A field value as the sort sees it. */
  datatype SortKey = Missing | Text(s: string) | ObjectId(n: nat) | Flag(b: bool) | Date(t: Time)

  /** The position of each kind of value in the database's cross-type order. */
  function Rank(k: SortKey): nat {
    match k
    case Missing => 0
    case Text(_) => 1
    case ObjectId(_) => 2
    case Flag(_) => 3
    case Date(_) => 4
  }

  /** Strings compared character by character by character code, a proper prefix first. */
  predicate TextLe(a: string, b: string)
    decreases |a|
  {
    a == [] || (b != [] && (a[0] < b[0] || (a[0] == b[0] && TextLe(a[1..], b[1..]))))
  }

  lemma {:induction false} TextLeTotal(a: string, b: string)
    ensures TextLe(a, b) || TextLe(b, a)
    decreases |a|
  {
    if a != [] && b != [] && a[0] == b[0] {
      TextLeTotal(a[1..], b[1..]);
    }
  }

  lemma {:induction false} TextLeTransitive(a: string, b: string, c: string)
    requires TextLe(a, b) && TextLe(b, c)
    ensures TextLe(a, c)
    decreases |a|
  {
    if a != [] && b != [] && c != [] && a[0] == b[0] && b[0] == c[0] {
      TextLeTransitive(a[1..], b[1..], c[1..]);
    }
  }

  /** Whether `a` may precede `b` in ascending order. */
  predicate KeyLe(a: SortKey, b: SortKey) {
    if Rank(a) != Rank(b) then Rank(a) < Rank(b)
    else match (a, b)
      case (Text(x), Text(y)) => TextLe(x, y)
      case (ObjectId(x), ObjectId(y)) => x <= y
      case (Flag(x), Flag(y)) => !x || y
      case (Date(x), Date(y)) => x <= y
      case _ => true
  }

  /** Any two keys are comparable. */
  lemma KeyLeTotal(a: SortKey, b: SortKey)
    ensures KeyLe(a, b) || KeyLe(b, a)
  {
    if a.Text? && b.Text? {
      TextLeTotal(a.s, b.s);
    }
  }

  lemma KeyLeTransitive(a: SortKey, b: SortKey, c: SortKey)
    requires KeyLe(a, b) && KeyLe(b, c)
    ensures KeyLe(a, c)
  {
    if a.Text? && b.Text? && c.Text? {
      TextLeTransitive(a.s, b.s, c.s);
    }
  }

  /**
   * The value of the scalar field named `field` of a record. Any other name,
   * including the array paths under `addresses`, `__v` and the empty name,
   * reads as missing on every record.
   */
  function FieldKey(c: Customer, field: string): SortKey {
    if field == "_id" then ObjectId(c.id)
    else if field == "fname" then Text(c.fname)
    else if field == "lname" then Text(c.lname)
    else if field == "email" then Text(c.email)
    else if field == "mobile" then Text(c.mobile)
    else if field == "gender" then Text(c.gender)
    else if field == "status" then Text(c.status)
    else if field == "profile" then Text(c.profile)
    else if field == "location" then Text(c.location)
    else if field == "createdBy" then Text(c.createdBy)
    else if field == "updatedBy" then Text(c.updatedBy)
    else if field == "datecreated" then Date(c.datecreated)
    else if field == "dateUpdated" then Date(c.dateUpdated)
    else if field == "dateOfBirth" then (if c.dateOfBirth.Some? then Date(c.dateOfBirth.value) else Missing)
    else if field == "isSingleAddress" then Flag(c.isSingleAddress)
    else Missing
  }

  /** A sort object with one field: `{ field: 1 }` or `{ field: -1 }`. */
  datatype SortSpec = SortSpec(field: string, descending: bool)

  /** Whether a record keyed `a` may precede one keyed `b`. */
  predicate KeyBefore(a: SortKey, b: SortKey, descending: bool) {
    if descending then KeyLe(b, a) else KeyLe(a, b)
  }

  lemma KeyBeforeTotal(a: SortKey, b: SortKey, descending: bool)
    ensures KeyBefore(a, b, descending) || KeyBefore(b, a, descending)
  {
    KeyLeTotal(a, b);
  }

  lemma KeyBeforeTransitive(a: SortKey, b: SortKey, c: SortKey, descending: bool)
    requires KeyBefore(a, b, descending) && KeyBefore(b, c, descending)
    ensures KeyBefore(a, c, descending)
  {
    if descending {
      KeyLeTransitive(c, b, a);
    } else {
      KeyLeTransitive(a, b, c);
    }
  }

  /** Whether `a` may precede `b` under `spec`. */
  predicate Before(a: Customer, b: Customer, spec: SortSpec) {
    KeyBefore(FieldKey(a, spec.field), FieldKey(b, spec.field), spec.descending)
  }

  predicate SortedBy(s: seq<Customer>, spec: SortSpec) {
    forall i, j :: 0 <= i < j < |s| ==> Before(s[i], s[j], spec)
  }

  /** `s` is ordered by the keys `key` gives its records. */
  predicate SortedByKey(s: seq<Customer>, key: Customer -> SortKey, descending: bool) {
    forall i, j :: 0 <= i < j < |s| ==> KeyBefore(key(s[i]), key(s[j]), descending)
  }

  /** `x` placed into `s` after every record that does not strictly follow it. */
  function Insert(x: Customer, s: seq<Customer>, key: Customer -> SortKey, descending: bool): (r: seq<Customer>)
    ensures multiset(r) == multiset(s) + multiset{x}
    decreases |s|
  {
    if s == [] then [x]
    else if KeyBefore(key(x), key(s[0]), descending) && !KeyBefore(key(s[0]), key(x), descending) then [x] + s
    else
      assert s == [s[0]] + s[1..];
      [s[0]] + Insert(x, s[1..], key, descending)
  }

  /** Inserting into a sorted sequence keeps it sorted. */
  lemma {:induction false} InsertSorted(x: Customer, s: seq<Customer>, key: Customer -> SortKey, descending: bool)
    requires SortedByKey(s, key, descending)
    ensures SortedByKey(Insert(x, s, key, descending), key, descending)
    decreases |s|
  {
    if s == [] {
    } else if KeyBefore(key(x), key(s[0]), descending) && !KeyBefore(key(s[0]), key(x), descending) {
      forall j | 0 <= j < |s| ensures KeyBefore(key(x), key(s[j]), descending) {
        if j > 0 {
          KeyBeforeTransitive(key(x), key(s[0]), key(s[j]), descending);
        }
      }
      ConsSorted(x, s, key, descending);
    } else {
      KeyBeforeTotal(key(x), key(s[0]), descending);
      assert SortedByKey(s[1..], key, descending);
      InsertSorted(x, s[1..], key, descending);
      var rest := Insert(x, s[1..], key, descending);
      forall j | 0 <= j < |rest| ensures KeyBefore(key(s[0]), key(rest[j]), descending) {
        var y := rest[j];
        assert y in multiset(rest);
        if y != x {
          assert y in multiset(s[1..]);
          var m :| 0 <= m < |s[1..]| && s[1..][m] == y;
          assert s[m + 1] == y;
        }
      }
      ConsSorted(s[0], rest, key, descending);
    }
  }

  /** A record that precedes every record of a sorted sequence can be put in front of it. */
  lemma ConsSorted(y: Customer, t: seq<Customer>, key: Customer -> SortKey, descending: bool)
    requires SortedByKey(t, key, descending)
    requires forall j :: 0 <= j < |t| ==> KeyBefore(key(y), key(t[j]), descending)
    ensures SortedByKey([y] + t, key, descending)
  {
    var r := [y] + t;
    forall i, j | 0 <= i < j < |r| ensures KeyBefore(key(r[i]), key(r[j]), descending) {
      assert r[j] == t[j - 1];
      if i > 0 {
        assert r[i] == t[i - 1];
      }
    }
  }


  /** Insertion sort by `key`: a sorted permutation of `s`. */
  function SortByKey(s: seq<Customer>, key: Customer -> SortKey, descending: bool): (r: seq<Customer>)
    ensures SortedByKey(r, key, descending)
    ensures multiset(r) == multiset(s)
    decreases |s|
  {
    if s == [] then []
    else
      assert s == s[..|s| - 1] + [s[|s| - 1]];
      var sorted := SortByKey(s[..|s| - 1], key, descending);
      InsertSorted(s[|s| - 1], sorted, key, descending);
      Insert(s[|s| - 1], sorted, key, descending)
  }

  /** `.sort(spec)`: the records ordered by `spec`, a sorted permutation of `s`. */
  function SortRecords(s: seq<Customer>, spec: SortSpec): (r: seq<Customer>)
    ensures SortedBy(r, spec)
    ensures multiset(r) == multiset(s)
  {
    var key := c => FieldKey(c, spec.field);
    var r := SortByKey(s, key, spec.descending);
    assert forall c :: key(c) == FieldKey(c, spec.field);
    r
  }
}
