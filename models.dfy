/**
 * The catalogue's item records (django_backend/core/models.py): the abstract
 * BaseItem columns, the four concrete item models and the column constraints
 * the database enforces on every stored row.
 */
module Models {
  import opened Wrappers

  /** max_length of every CharField in the catalogue. */
  const MaxCharLength := 255

  /** The four concrete subclasses of BaseItem that the importer can write. */
  datatype Model = GreaterPotion | LesserPotion | MagicItem | MagicWeaponOrArmour

  /**
   * BaseItem's columns. An unsaved model instance may hold None in any of
   * them; ValidItem says which values the database accepts.
   */
  datatype BaseItem = BaseItem(
    name: Option<string>,
    purchase: Option<int>,
    sale: Option<int>,
    dieRoll: Option<int>)

  /** The columns each concrete model adds to BaseItem. */
  datatype Extra =
    | GreaterPotionFields(ingredientCost: Option<int>)
    | LesserPotionFields
    | MagicItemFields
    | MagicWeaponOrArmourFields(effects: Option<string>)

  /** One row of one of the four item tables. */
  datatype Item = Item(base: BaseItem, extra: Extra)

  /** The model whose table a record with these extra columns belongs to. */
  function ModelOf(extra: Extra): Model {
    match extra
    case GreaterPotionFields(_) => GreaterPotion
    case LesserPotionFields => LesserPotion
    case MagicItemFields => MagicItem
    case MagicWeaponOrArmourFields(_) => MagicWeaponOrArmour
  }

  /** PositiveIntegerField(null=True): NULL or a value the CHECK (>= 0) accepts. */
  predicate NonNegative(v: Option<int>) {
    v.None? || v.value >= 0
  }

  /** CharField(max_length=255), nullable or not. */
  predicate FitsCharField(s: Option<string>) {
    s.None? || |s.value| <= MaxCharLength
  }

  /** NOT NULL on name and the CHECK (>= 0) constraints of the integer columns. */
  predicate SatisfiesIntegrity(item: Item) {
    && item.base.name.Some?
    && NonNegative(item.base.purchase)
    && NonNegative(item.base.sale)
    && NonNegative(item.base.dieRoll)
    && (item.extra.GreaterPotionFields? ==> NonNegative(item.extra.ingredientCost))
  }

  /** Every string fits its VARCHAR(255) column. */
  predicate FitsColumns(item: Item) {
    && FitsCharField(item.base.name)
    && (item.extra.MagicWeaponOrArmourFields? ==> FitsCharField(item.extra.effects))
  }

  /** A record the database stores without raising. */
  predicate ValidItem(item: Item) {
    SatisfiesIntegrity(item) && FitsColumns(item)
  }

  /** BaseItem.__str__: an item prints as its name (which a stored item always has). */
  function Str(item: Item): string
    requires item.base.name.Some?
  {
    item.base.name.value
  }

  /** A record the database accepts prints as its name, in at most 255 characters. */
  lemma StrOfValidItem(item: Item)
    requires ValidItem(item)
    ensures Some(Str(item)) == item.base.name && |Str(item)| <= MaxCharLength
  {
  }

  /** Code-point lexicographic order on names, the order Meta.ordering = ["name"] sorts by. */
  predicate NameLe(a: string, b: string)
    decreases |a|
  {
    |a| == 0 || (|b| > 0 && (a[0] < b[0] || (a[0] == b[0] && NameLe(a[1..], b[1..]))))
  }

  lemma {:induction false} NameLeTotal(a: string, b: string)
    ensures NameLe(a, b) || NameLe(b, a)
    decreases |a|
  {
    if |a| > 0 && |b| > 0 && a[0] == b[0] {
      NameLeTotal(a[1..], b[1..]);
    }
  }

  /** Every record has a name, as every stored record does. */
  predicate Named(items: seq<Item>) {
    forall i :: 0 <= i < |items| ==> items[i].base.name.Some?
  }

  predicate SortedByName(items: seq<Item>)
    requires Named(items)
  {
    forall i :: 0 < i < |items| ==> NameLe(Str(items[i - 1]), Str(items[i]))
  }

  /** Inserts `x` into a name-ordered sequence after every record whose name sorts strictly first. */
  function InsertByName(x: Item, items: seq<Item>): (r: seq<Item>)
    requires x.base.name.Some? && Named(items) && SortedByName(items)
    ensures Named(r) && SortedByName(r)
    ensures multiset(r) == multiset(items) + multiset{x}
    ensures |r| == |items| + 1
    ensures r[0] == x || (|items| > 0 && r[0] == items[0])
  {
    if items == [] then [x]
    else if NameLe(Str(x), Str(items[0])) then [x] + items
    else
      NameLeTotal(Str(x), Str(items[0]));
      assert items == [items[0]] + items[1..];
      [items[0]] + InsertByName(x, items[1..])
  }

  /**
   * A table's records in the default order of Meta.ordering = ["name"]: sorted by
   * name and holding exactly the same records.
   */
  function OrderByName(items: seq<Item>): (r: seq<Item>)
    requires Named(items)
    ensures Named(r) && SortedByName(r)
    ensures multiset(r) == multiset(items)
  {
    if items == [] then []
    else
      assert items == [items[0]] + items[1..];
      InsertByName(items[0], OrderByName(items[1..]))
  }

  /** Treasure table (models.py); the importer never writes it. */
  datatype Treasure = Treasure(
    dieRoll: Option<int>,
    gold: Option<int>,
    multiplyGoldByD20: bool,
    result: Option<string>)

  /** RandomSpell table (models.py); the importer never writes it. */
  datatype RandomSpell = RandomSpell(
    dieRoll: Option<int>,
    secondDie1To5: Option<string>,
    secondDie6To10: Option<string>,
    secondDie11To15: Option<string>,
    secondDie16To20: Option<string>)
}
