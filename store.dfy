/**
 * The item tables and the keyed upsert the importer issues against them:
 * Django's QuerySet.update_or_create(die_roll=key, defaults=...) over a table
 * whose rows satisfy the column constraints of Models.
 */
module Store {
  import opened Wrappers
  import opened Models

  /** What a failed write raises. */
  datatype RowError =
    | IntegrityError          // NOT NULL or CHECK (>= 0) violated
    | DataError               // a string longer than its VARCHAR(255) column
    | MultipleObjectsReturned // the lookup by die_roll matched two or more rows

  /** What one update_or_create call does. */
  datatype UpsertResult = Created | Updated | Failed(error: RowError)

  /** The `defaults` mapping: every non-key column the importer sets. */
  datatype Defaults = Defaults(
    name: Option<string>,
    purchase: Option<int>,
    sale: Option<int>,
    extra: Extra)

  /** The error the database raises when asked to store `item`, if any. */
  function Violation(item: Item): (r: Option<RowError>)
    ensures r.None? <==> ValidItem(item)
    ensures r == Some(IntegrityError) <==> !SatisfiesIntegrity(item)
  {
    if !SatisfiesIntegrity(item) then Some(IntegrityError)
    else if !FitsColumns(item) then Some(DataError)
    else None
  }

  /** The record `create(die_roll=key, **defaults)` inserts. */
  function Create(key: int, d: Defaults): (r: Item)
    ensures HasKey(r, key) && ModelOf(r.extra) == ModelOf(d.extra)
  {
    Item(BaseItem(d.name, d.purchase, d.sale, Some(key)), d.extra)
  }

  /**
   * The record after `setattr(obj, k, v)` for every default and `save()`: it keeps
   * the key and the model, and when the defaults are of the record's own model it
   * is the very record a create of its key with them would insert.
   */
  function Overwrite(item: Item, d: Defaults): (r: Item)
    ensures r.base.dieRoll == item.base.dieRoll && ModelOf(r.extra) == ModelOf(item.extra)
    ensures item.base.dieRoll.Some? && ModelOf(d.extra) == ModelOf(item.extra) ==> r == Create(item.base.dieRoll.value, d)
  {
    // Defaults of another model never reach a table (Table.UpdateOrCreate requires
    // the table's own model, which BuildDefaults always gives); Django would raise
    // FieldError for them, so this branch only keeps the function total.
    var extra := if ModelOf(d.extra) == ModelOf(item.extra) then d.extra else item.extra;
    Item(BaseItem(d.name, d.purchase, d.sale, item.base.dieRoll), extra)
  }

  predicate HasKey(item: Item, key: int) {
    item.base.dieRoll == Some(key)
  }

  /** filter(die_roll=key): the records with that key, in table order. */
  function Matches(records: seq<Item>, key: int): (r: seq<Item>)
    ensures |r| <= |records|
    ensures forall i :: 0 <= i < |r| ==> HasKey(r[i], key)
  {
    if records == [] then []
    else (if HasKey(records[0], key) then [records[0]] else []) + Matches(records[1..], key)
  }

  /** Position of the first record with that key. */
  function FirstMatch(records: seq<Item>, key: int): (i: nat)
    requires |Matches(records, key)| > 0
    ensures i < |records| && HasKey(records[i], key)
    ensures forall j :: 0 <= j < i ==> !HasKey(records[j], key)
    ensures records[i] == Matches(records, key)[0]
  {
    if HasKey(records[0], key) then 0 else 1 + FirstMatch(records[1..], key)
  }

  /**
   * update_or_create(die_roll=key, defaults=d) inside its transaction: no match
   * inserts Create(key, d), one match overwrites that record's non-key columns,
   * two or more raise MultipleObjectsReturned, and a write the constraints refuse
   * raises and is rolled back. A failed call leaves the records as they were.
   */
  function Upsert(records: seq<Item>, key: int, d: Defaults): (r: (UpsertResult, seq<Item>))
    ensures |r.1| == |records| + (if r.0 == Created then 1 else 0)
  {
    var found := Matches(records, key);
    if |found| == 0 then
      var item := Create(key, d);
      match Violation(item)
      case Some(e) => (Failed(e), records)
      case None => (Created, records + [item])
    else if |found| == 1 then
      var i := FirstMatch(records, key);
      var item := Overwrite(records[i], d);
      match Violation(item)
      case Some(e) => (Failed(e), records)
      case None => (Updated, records[i := item])
    else
      (Failed(MultipleObjectsReturned), records)
  }

  lemma {:induction false} MatchesAppend(records: seq<Item>, x: Item, key: int)
    ensures Matches(records + [x], key) == Matches(records, key) + (if HasKey(x, key) then [x] else [])
  {
    if records == [] {
      assert records + [x] == [x];
    } else {
      assert (records + [x])[0] == records[0];
      assert (records + [x])[1..] == records[1..] + [x];
      MatchesAppend(records[1..], x, key);
    }
  }

  /** Replacing a record by one that agrees on whether it has `key` keeps the other records' matches. */
  lemma {:induction false} MatchesUpdateOther(records: seq<Item>, i: nat, y: Item, key: int)
    requires i < |records| && !HasKey(records[i], key) && !HasKey(y, key)
    ensures Matches(records[i := y], key) == Matches(records, key)
  {
    var s := records[i := y];
    assert s[0] == (if i == 0 then y else records[0]);
    if i == 0 {
      assert s[1..] == records[1..];
    } else {
      assert s[1..] == records[1..][i - 1 := y];
      MatchesUpdateOther(records[1..], i - 1, y, key);
    }
  }

  lemma {:induction false} MatchesNonEmpty(records: seq<Item>, i: nat, key: int)
    requires i < |records| && HasKey(records[i], key)
    ensures |Matches(records, key)| > 0
  {
    if i > 0 && !HasKey(records[0], key) {
      MatchesNonEmpty(records[1..], i - 1, key);
    }
  }

  /** The lookup returns exactly the records that have the key. */
  lemma {:induction false} MatchesMembers(records: seq<Item>, key: int, x: Item)
    ensures x in Matches(records, key) <==> x in records && HasKey(x, key)
  {
    if records != [] {
      MatchesMembers(records[1..], key, x);
      assert records == [records[0]] + records[1..];
    }
  }

  /** The lookup returns nothing exactly when no record has the key. */
  lemma MatchesNone(records: seq<Item>, key: int)
    ensures |Matches(records, key)| == 0 <==> forall i :: 0 <= i < |records| ==> !HasKey(records[i], key)
  {
    if exists i :: 0 <= i < |records| && HasKey(records[i], key) {
      var i :| 0 <= i < |records| && HasKey(records[i], key);
      MatchesNonEmpty(records, i, key);
    }
    if |Matches(records, key)| > 0 {
      var i := FirstMatch(records, key);
      assert HasKey(records[i], key);
    }
  }

  /** The lookup returns two or more records exactly when two positions of the table have the key. */
  lemma {:induction false} MatchesSeveral(records: seq<Item>, key: int)
    ensures |Matches(records, key)| >= 2 <==>
      exists i, j :: 0 <= i < j < |records| && HasKey(records[i], key) && HasKey(records[j], key)
  {
    if records != [] {
      var tail := records[1..];
      MatchesSeveral(tail, key);
      if |Matches(records, key)| >= 2 {
        if HasKey(records[0], key) {
          var k := FirstMatch(tail, key);
          assert HasKey(records[0], key) && HasKey(records[k + 1], key);
        } else {
          var i, j :| 0 <= i < j < |tail| && HasKey(tail[i], key) && HasKey(tail[j], key);
          assert HasKey(records[i + 1], key) && HasKey(records[j + 1], key);
        }
      }
      if exists i, j :: 0 <= i < j < |records| && HasKey(records[i], key) && HasKey(records[j], key) {
        var i, j :| 0 <= i < j < |records| && HasKey(records[i], key) && HasKey(records[j], key);
        if i == 0 {
          MatchesNonEmpty(tail, j - 1, key);
        } else {
          assert HasKey(tail[i - 1], key) && HasKey(tail[j - 1], key);
        }
      }
    }
  }

  /** Overwriting the one record with `key` by another record with `key` leaves exactly that one. */
  lemma {:induction false} MatchesUpdateSole(records: seq<Item>, i: nat, y: Item, key: int)
    requires i < |records| && HasKey(records[i], key) && HasKey(y, key)
    requires |Matches(records, key)| == 1
    ensures Matches(records[i := y], key) == [y]
  {
    var s := records[i := y];
    if i == 0 {
      assert s[1..] == records[1..];
    } else {
      if HasKey(records[0], key) {
        MatchesNonEmpty(records[1..], i - 1, key);
        assert false;
      }
      assert s[0] == records[0];
      assert s[1..] == records[1..][i - 1 := y];
      MatchesUpdateSole(records[1..], i - 1, y, key);
    }
  }

  /** An upsert of one key leaves the records with any other key as they were. */
  lemma UpsertKeepsOtherKeys(records: seq<Item>, key: int, d: Defaults, other: int)
    requires other != key
    ensures Matches(Upsert(records, key, d).1, other) == Matches(records, other)
  {
    var (o, s) := Upsert(records, key, d);
    if o == Created {
      MatchesAppend(records, Create(key, d), other);
    } else if o == Updated {
      var i := FirstMatch(records, key);
      MatchesUpdateOther(records, i, Overwrite(records[i], d), other);
    }
  }

  /**
   * What one upsert does to the table: the outcome is decided by how many records
   * carry the key and whether the written record satisfies the constraints; a
   * failure writes nothing; a create appends the new record; an update keeps the
   * table's length and every record with another key in place, and leaves the
   * overwritten record as the only one with the key.
   */
  lemma UpsertCases(records: seq<Item>, key: int, d: Defaults)
    ensures var (o, s) := Upsert(records, key, d);
      var found := Matches(records, key);
      && (o == Created <==> |found| == 0 && ValidItem(Create(key, d)))
      && (o == Updated <==> |found| == 1 && ValidItem(Overwrite(found[0], d)))
      && (o == Failed(MultipleObjectsReturned) <==> |found| >= 2)
      && (o.Failed? ==> s == records)
      && (o == Created ==> s == records + [Create(key, d)] && Matches(s, key) == [Create(key, d)])
      && (o == Updated ==> |s| == |records| && Matches(s, key) == [Overwrite(found[0], d)])
      && (forall i :: 0 <= i < |records| && !HasKey(records[i], key) ==> i < |s| && s[i] == records[i])
      && (forall k :: k != key ==> Matches(s, k) == Matches(records, k))
  {
    var (o, s) := Upsert(records, key, d);
    var found := Matches(records, key);
    forall k | k != key ensures Matches(s, k) == Matches(records, k) {
      UpsertKeepsOtherKeys(records, key, d, k);
    }
    if o == Created {
      MatchesAppend(records, Create(key, d), key);
    } else if o == Updated {
      var i := FirstMatch(records, key);
      MatchesUpdateSole(records, i, Overwrite(records[i], d), key);
    }
  }

  /** The outcome an upsert reports when it is repeated right away. */
  function Repeated(o: UpsertResult): UpsertResult {
    if o == Created then Updated else o
  }

  /**
   * The records with `key` are such that upserting `key` with `d` again changes
   * nothing: several of them, or one that `d` already describes, or a record the
   * constraints refuse.
   */
  predicate Settled(found: seq<Item>, key: int, d: Defaults) {
    || |found| >= 2
    || (|found| == 0 && !ValidItem(Create(key, d)))
    || (|found| == 1 && (!ValidItem(Overwrite(found[0], d)) || Overwrite(found[0], d) == found[0]))
  }

  /** An upsert whose key is settled writes nothing and creates nothing. */
  lemma SettledUpsertWritesNothing(records: seq<Item>, key: int, d: Defaults)
    requires Settled(Matches(records, key), key, d)
    ensures Upsert(records, key, d).1 == records
    ensures Upsert(records, key, d).0 != Created
  {
  }

  /** Only the records with `key` decide what an upsert of `key` reports. */
  lemma UpsertOutcomeByMatches(records: seq<Item>, other: seq<Item>, key: int, d: Defaults)
    requires Matches(records, key) == Matches(other, key)
    ensures Upsert(records, key, d).0 == Upsert(other, key, d).0
  {
  }

  /** Every upsert settles its key, and repeating it reports Updated where it reported Created. */
  lemma UpsertSettles(records: seq<Item>, key: int, d: Defaults)
    ensures var (o, s) := Upsert(records, key, d);
      Settled(Matches(s, key), key, d) && Upsert(s, key, d).0 == Repeated(o)
  {
    var (o, s) := Upsert(records, key, d);
    UpsertCases(records, key, d);
    if o == Created {
      var c := Create(key, d);
      assert Overwrite(c, d) == c;
      assert s[FirstMatch(s, key)] == c;
    } else if o == Updated {
      var y := Overwrite(Matches(records, key)[0], d);
      assert Overwrite(y, d) == y;
      assert Matches(s, key) == [y];
    }
  }

  /** Records stored in the table of `model`: constraint-abiding and of that model's shape. */
  predicate Stored(model: Model, item: Item) {
    ValidItem(item) && ModelOf(item.extra) == model
  }

  predicate AllStored(model: Model, records: seq<Item>) {
    forall i :: 0 <= i < |records| ==> Stored(model, records[i])
  }

  /** Upserting defaults of the table's own model keeps every record storable and of that model. */
  lemma UpsertKeepsStored(model: Model, records: seq<Item>, key: int, d: Defaults)
    requires AllStored(model, records) && ModelOf(d.extra) == model
    ensures AllStored(model, Upsert(records, key, d).1)
  {
  }

  /** One item table: the rows of one concrete model. */
  class Table {
    const model: Model
    var records: seq<Item>

    /** The table's rows are of its model and satisfy the column constraints. */
    ghost predicate Valid()
      reads this
    {
      AllStored(model, records)
    }

    constructor (model: Model)
      ensures this.model == model && records == [] && Valid()
    {
      this.model := model;
      records := [];
    }

    /** update_or_create(die_roll=key, defaults=d) on this table. */
    method UpdateOrCreate(key: int, d: Defaults) returns (result: UpsertResult)
      requires Valid() && ModelOf(d.extra) == model
      modifies this
      ensures Valid()
      ensures (result, records) == Upsert(old(records), key, d)
    {
      UpsertKeepsStored(model, records, key, d);
      var found := Matches(records, key);
      if |found| == 0 {
        var item := Create(key, d);
        var error := Violation(item);
        if error.Some? {
          return Failed(error.value);
        }
        records := records + [item];
        result := Created;
      } else if |found| == 1 {
        var i := FirstMatch(records, key);
        var item := Overwrite(records[i], d);
        var error := Violation(item);
        if error.Some? {
          return Failed(error.value);
        }
        records := records[i := item];
        result := Updated;
      } else {
        result := Failed(MultipleObjectsReturned);
      }
    }
  }

  /** The four item tables. */
  class Database {
    const greaterPotions: Table
    const lesserPotions: Table
    const magicItems: Table
    const magicWeaponsOrArmour: Table

    /** The table a model's objects manager reaches. */
    function TableFor(model: Model): Table {
      match model
      case GreaterPotion => greaterPotions
      case LesserPotion => lesserPotions
      case MagicItem => magicItems
      case MagicWeaponOrArmour => magicWeaponsOrArmour
    }

    function Tables(): set<Table> {
      {greaterPotions, lesserPotions, magicItems, magicWeaponsOrArmour}
    }

    /** Each model has its own valid table. */
    ghost predicate Valid()
      reads Tables()
    {
      forall m: Model :: TableFor(m).model == m && TableFor(m).Valid()
    }

    constructor ()
      ensures Valid() && fresh(Tables())
      ensures forall m: Model :: TableFor(m).records == []
    {
      greaterPotions := new Table(GreaterPotion);
      lesserPotions := new Table(LesserPotion);
      magicItems := new Table(MagicItem);
      magicWeaponsOrArmour := new Table(MagicWeaponOrArmour);
    }
  }
}
