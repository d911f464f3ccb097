/**
 * The load_items management command
 * (django_backend/core/management/commands/load_items.py): choose the item
 * model from the item-type argument, check the CSV header, then upsert every
 * data row keyed by its die_roll, counting creates and updates.
 */
module LoadItems {
  import opened Wrappers
  import opened Models
  import opened Coercion
  import opened Store

  /** MODEL_MAP: item-type argument to model. */
  const ModelMap: map<string, Model> := map[
    "greaterpotion" := GreaterPotion,
    "lesserpotion" := LesserPotion,
    "magicitem" := MagicItem,
    "magicweaponorarmour" := MagicWeaponOrArmour]

  /** The item-type argument that selects a model. */
  function Key(model: Model): string {
    match model
    case GreaterPotion => "greaterpotion"
    case LesserPotion => "lesserpotion"
    case MagicItem => "magicitem"
    case MagicWeaponOrArmour => "magicweaponorarmour"
  }

  function LowerChar(c: char): char {
    if 'A' <= c <= 'Z' then ((c as int) + 32) as char else c
  }

  /** str.lower() on ASCII letters. */
  function Lower(s: string): string {
    seq(|s|, i requires 0 <= i < |s| => LowerChar(s[i]))
  }

  /** MODEL_MAP.get(item_type.lower()): a model exactly for a key of the map, and then the model of that key. */
  function ModelFor(itemType: string): (r: Option<Model>)
    ensures r.Some? <==> Lower(itemType) in ModelMap
    ensures r.Some? ==> Key(r.value) == Lower(itemType)
  {
    var key := Lower(itemType);
    if key in ModelMap then Some(ModelMap[key]) else None
  }

  /** An item type selects a model exactly when, lowercased, it is that model's key. */
  lemma ModelForIsKeyLookup(itemType: string, model: Model)
    ensures ModelFor(itemType) == Some(model) <==> Lower(itemType) == Key(model)
  {
  }

  lemma {:induction false} LowerKeepsLowercase(s: string)
    requires forall i :: 0 <= i < |s| ==> !('A' <= s[i] <= 'Z')
    ensures Lower(s) == s
  {
  }

  /** Each model's key selects it. */
  lemma ModelForKey(model: Model)
    ensures ModelFor(Key(model)) == Some(model)
  {
    match model
    case GreaterPotion => LowerKeepsLowercase("greaterpotion");
    case LesserPotion => LowerKeepsLowercase("lesserpotion");
    case MagicItem => LowerKeepsLowercase("magicitem");
    case MagicWeaponOrArmour => LowerKeepsLowercase("magicweaponorarmour");
  }

  /** Letter case in the item type does not matter. */
  lemma ModelForIgnoresCase(itemType: string)
    ensures ModelFor(itemType) == ModelFor(Lower(itemType))
  {
    assert Lower(Lower(itemType)) == Lower(itemType);
  }

  lemma UnknownItemType()
    ensures ModelFor("unknown") == None
  {
    assert Lower("unknown")[0] == 'u';
  }

  /** The columns the header must contain. */
  const RequiredHeaders: seq<string> := ["die_roll", "name", "purchase", "sale"]

  predicate HasRequiredHeaders(fieldnames: seq<string>) {
    forall h :: h in RequiredHeaders ==> h in fieldnames
  }

  /**
   * A data row as csv.DictReader yields it: column name to cell. A short row
   * maps its missing columns to None.
   */
  type Row = map<string, Option<string>>

  /** The opened CSV file: fieldnames is None for an empty file. */
  datatype CsvFile = CsvFile(fieldnames: Option<seq<string>>, rows: seq<Row>)

  /** The CommandErrors that end the run before any row is processed. */
  datatype CommandError =
    | InvalidItemType(key: string)
    | FileNotFound
    | NoHeaderRow
    | MissingRequiredHeaders

  /** The model to write and the rows to write it from. */
  datatype Plan = Plan(model: Model, rows: seq<Row>)

  /**
   * The structural checks of handle, in its order: the item type is checked
   * before the file is opened, whatever the file holds; the run proceeds exactly
   * when the type is known, the file exists and has a header, and the header
   * names all four required columns.
   */
  function Validate(itemType: string, file: Option<CsvFile>): (r: Result<Plan, CommandError>)
    ensures ModelFor(itemType).None? ==> r == Failure(InvalidItemType(Lower(itemType)))
    ensures r.Success? <==>
      && ModelFor(itemType).Some?
      && file.Some? && file.value.fieldnames.Some?
      && (forall h :: h in RequiredHeaders ==> h in file.value.fieldnames.value)
    ensures r.Success? ==> r.value == Plan(ModelFor(itemType).value, file.value.rows)
  {
    match ModelFor(itemType)
    case None => Failure(InvalidItemType(Lower(itemType)))
    case Some(model) =>
      if file.None? then Failure(FileNotFound)
      else if file.value.fieldnames.None? then Failure(NoHeaderRow)
      else if !HasRequiredHeaders(file.value.fieldnames.value) then Failure(MissingRequiredHeaders)
      else Success(Plan(model, file.value.rows))
  }

  /** A header without the purchase column fails the run. */
  lemma MissingPurchaseFails(itemType: string, fieldnames: seq<string>, rows: seq<Row>)
    requires ModelFor(itemType).Some? && "purchase" !in fieldnames
    ensures Validate(itemType, Some(CsvFile(Some(fieldnames), rows))) == Failure(MissingRequiredHeaders)
  {
    assert "purchase" in RequiredHeaders;
  }

  /** row.get(column): None for a column the row lacks, otherwise its cell. */
  function Get(row: Row, column: string): (r: Option<string>)
    ensures column !in row ==> r.None?
    ensures r.Some? ==> column in row && row[column] == r
  {
    if column in row then row[column] else None
  }

  /** row.get(column, default): `default` for a column the row lacks, otherwise its cell (None in a short row). */
  function GetWithDefault(row: Row, column: string, default: string): (r: Option<string>)
    ensures column !in row ==> r == Some(default)
    ensures column in row ==> r == row[column]
  {
    if column in row then row[column] else Some(default)
  }

  /** The coerced die_roll of a row: its lookup key, or None when the row is skipped. */
  function RowKey(row: Row): Option<int> {
    ToIntOrNone(Get(row, "die_roll"))
  }

  /**
   * The defaults mapping of a row: name, coerced purchase and sale, plus
   * effects for MagicWeaponOrArmour and coerced ingredient_cost for
   * GreaterPotion. Its extra fields are exactly those of the chosen model.
   */
  function BuildDefaults(model: Model, row: Row): (d: Defaults)
    ensures ModelOf(d.extra) == model
  {
    var extra := match model
      case MagicWeaponOrArmour => MagicWeaponOrArmourFields(GetWithDefault(row, "effects", ""))
      case GreaterPotion => GreaterPotionFields(ToIntOrNone(Get(row, "ingredient_cost")))
      case LesserPotion => LesserPotionFields
      case MagicItem => MagicItemFields;
    Defaults(GetWithDefault(row, "name", ""), ToIntOrNone(Get(row, "purchase")), ToIntOrNone(Get(row, "sale")), extra)
  }

  /** The columns whose cells the defaults of a model are built from. */
  function ColumnsRead(model: Model): set<string> {
    {"name", "purchase", "sale"} +
      match model
      case GreaterPotion => {"ingredient_cost"}
      case MagicWeaponOrArmour => {"effects"}
      case LesserPotion => {}
      case MagicItem => {}
  }

  /** Any other column, such as ingredient_cost for a LesserPotion, is ignored. */
  lemma DefaultsReadOnlyTheirColumns(model: Model, row: Row, column: string, cell: Option<string>)
    requires column !in ColumnsRead(model)
    ensures BuildDefaults(model, row[column := cell]) == BuildDefaults(model, row)
  {
  }

  lemma SmallNumbers()
    ensures ToIntOrNone(Some("5")) == Some(5)
    ensures ToIntOrNone(Some("20")) == Some(20)
    ensures ToIntOrNone(Some("50")) == Some(50)
    ensures ToIntOrNone(Some("100")) == Some(100)
  {
    assert NatToDigits(1) == "1" && NatToDigits(2) == "2" && NatToDigits(5) == "5";
    assert NatToDigits(10) == "10" && NatToDigits(20) == "20" && NatToDigits(50) == "50";
    assert NatToDigits(100) == "100";
    assert DigitLength(5) == 1 && DigitLength(20) == 2 && DigitLength(50) == 2 && DigitLength(100) == 3;
    ShowIntRoundTrip(5);
    ShowIntRoundTrip(20);
    ShowIntRoundTrip(50);
    ShowIntRoundTrip(100);
  }

  /** The GreaterPotion row of the example keeps its ingredient_cost; the same row as a LesserPotion drops it. */
  lemma ElixirExample(row: Row)
    requires "die_roll" in row && row["die_roll"] == Some("5")
    requires "name" in row && row["name"] == Some("Elixir")
    requires "purchase" in row && row["purchase"] == Some("100")
    requires "sale" in row && row["sale"] == Some("50")
    requires "ingredient_cost" in row && row["ingredient_cost"] == Some("20")
    ensures var base := BaseItem(Some("Elixir"), Some(100), Some(50), Some(5));
      && RowKey(row) == Some(5)
      && Create(5, BuildDefaults(GreaterPotion, row)) == Item(base, GreaterPotionFields(Some(20)))
      && Create(5, BuildDefaults(LesserPotion, row)) == Item(base, LesserPotionFields)
  {
    assert RowKey(row) == Some(5) by { SmallNumbers(); }
    assert ToIntOrNone(Get(row, "purchase")) == Some(100) by { SmallNumbers(); }
    assert ToIntOrNone(Get(row, "sale")) == Some(50) by { SmallNumbers(); }
    assert ToIntOrNone(Get(row, "ingredient_cost")) == Some(20) by { SmallNumbers(); }
  }

  /** What the command reports for one row. */
  datatype RowOutcome = Skipped | Upserted(result: UpsertResult)

  /** What one row asks of the table: its coerced die_roll (None: skip it) and its defaults. */
  datatype Request = Request(key: Option<int>, defaults: Defaults)

  function RequestOf(model: Model, row: Row): Request {
    Request(RowKey(row), BuildDefaults(model, row))
  }

  /** The requests of the rows of a file, in file order. */
  function Requests(model: Model, rows: seq<Row>): (reqs: seq<Request>)
    ensures |reqs| == |rows|
  {
    seq(|rows|, i requires 0 <= i < |rows| => RequestOf(model, rows[i]))
  }

  /**
   * One iteration of the row loop: skip the row, or upsert its key with its
   * defaults. A row is upserted exactly when it has a key, and grows the table
   * by one record exactly when it reports a creation.
   */
  function Apply(records: seq<Item>, req: Request): (r: (RowOutcome, seq<Item>))
    ensures r.0.Upserted? <==> req.key.Some?
    ensures |r.1| == |records| + (if r.0 == Upserted(Created) then 1 else 0)
  {
    match req.key
    case None => (Skipped, records)
    case Some(key) =>
      var (result, after) := Upsert(records, key, req.defaults);
      (Upserted(result), after)
  }

  /** The table and the per-row outcomes after some rows. */
  datatype Progress = Progress(records: seq<Item>, outcomes: seq<RowOutcome>)

  /** The row loop after its first n iterations, starting from the table `records`: one outcome per row, and no record removed. */
  function Run(records: seq<Item>, reqs: seq<Request>, n: nat): (p: Progress)
    requires n <= |reqs|
    ensures |p.outcomes| == n
    ensures |p.records| >= |records|
  {
    if n == 0 then Progress(records, [])
    else
      var prev := Run(records, reqs, n - 1);
      var (outcome, after) := Apply(prev.records, reqs[n - 1]);
      Progress(after, prev.outcomes + [outcome])
  }

  /** The whole row loop over the rows of a file: one outcome per row. */
  function Import(model: Model, records: seq<Item>, rows: seq<Row>): (p: Progress)
    ensures |p.outcomes| == |rows|
    ensures |p.records| >= |records|
  {
    Run(records, Requests(model, rows), |rows|)
  }

  /** The final summary: created_count, updated_count and the row outcomes. */
  datatype Summary = Summary(created: nat, updated: nat, outcomes: seq<RowOutcome>)

  /** How many of the outcomes are `o`. */
  function Count(outcomes: seq<RowOutcome>, o: RowOutcome): nat {
    if outcomes == [] then 0
    else Count(outcomes[..|outcomes| - 1], o) + (if outcomes[|outcomes| - 1] == o then 1 else 0)
  }

  function Summarize(outcomes: seq<RowOutcome>): Summary {
    Summary(Count(outcomes, Upserted(Created)), Count(outcomes, Upserted(Updated)), outcomes)
  }

  /**
   * handle(item_type, csv_file_path): structural failures raise before any row
   * is written; otherwise every row of the file goes through the loop and the
   * chosen table ends as Import says, the other tables untouched.
   */
  method Handle(db: Database, itemType: string, file: Option<CsvFile>) returns (r: Result<Summary, CommandError>)
    requires db.Valid()
    modifies db.Tables()
    ensures db.Valid()
    ensures r.Failure? <==> Validate(itemType, file).Failure?
    ensures r.Failure? ==> r.error == Validate(itemType, file).error && unchanged(db.Tables())
    ensures r.Success? ==>
      var plan := Validate(itemType, file).value;
      var p := Import(plan.model, old(db.TableFor(plan.model).records), plan.rows);
      && db.TableFor(plan.model).records == p.records
      && r.value == Summarize(p.outcomes)
      && unchanged(db.Tables() - {db.TableFor(plan.model)})
  {
    var plan := Validate(itemType, file);
    if plan.Failure? {
      return Failure(plan.error);
    }
    var table := db.TableFor(plan.value.model);
    var summary := LoadRows(table, plan.value.rows);
    r := Success(summary);
  }

  /** The `for row in reader` loop of handle, over the chosen table. */
  method LoadRows(table: Table, rows: seq<Row>) returns (summary: Summary)
    requires table.Valid()
    modifies table
    ensures table.Valid()
    ensures var p := Import(table.model, old(table.records), rows);
      table.records == p.records && summary == Summarize(p.outcomes)
  {
    ghost var reqs := Requests(table.model, rows);
    var created, updated := 0, 0;
    var outcomes: seq<RowOutcome> := [];
    for i := 0 to |rows|
      invariant table.Valid()
      invariant table.records == Run(old(table.records), reqs, i).records
      invariant outcomes == Run(old(table.records), reqs, i).outcomes
      invariant created == Count(outcomes, Upserted(Created))
      invariant updated == Count(outcomes, Upserted(Updated))
    {
      assert reqs[i] == RequestOf(table.model, rows[i]);
      var outcome := LoadRow(table, rows[i]);
      CountAppend(outcomes, outcome);
      if outcome == Upserted(Created) {
        created := created + 1;
      } else if outcome == Upserted(Updated) {
        updated := updated + 1;
      }
      outcomes := outcomes + [outcome];
    }
    summary := Summary(created, updated, outcomes);
  }

  /** The body of the row loop: skip a row without a die_roll, otherwise upsert it. */
  method LoadRow(table: Table, row: Row) returns (outcome: RowOutcome)
    requires table.Valid()
    modifies table
    ensures table.Valid()
    ensures (outcome, table.records) == Apply(old(table.records), RequestOf(table.model, row))
  {
    var dieRoll := ToIntOrNone(Get(row, "die_roll"));
    if dieRoll.None? {
      return Skipped;
    }
    var defaults := BuildDefaults(table.model, row);
    var result := table.UpdateOrCreate(dieRoll.value, defaults);
    outcome := Upserted(result);
  }

  // ---------------------------------------------------------------------------
  // Properties of the row loop

  lemma CountAppend(outcomes: seq<RowOutcome>, o: RowOutcome)
    ensures Count(outcomes + [o], Upserted(Created)) == Count(outcomes, Upserted(Created)) + (if o == Upserted(Created) then 1 else 0)
    ensures Count(outcomes + [o], Upserted(Updated)) == Count(outcomes, Upserted(Updated)) + (if o == Upserted(Updated) then 1 else 0)
  {
    assert (outcomes + [o])[..|outcomes|] == outcomes;
  }

  /** The outcome of request j is decided by the table as the requests before it left it, and stays in place. */
  lemma {:induction false} OutcomeAt(records: seq<Item>, reqs: seq<Request>, j: nat, n: nat)
    requires j < n <= |reqs|
    ensures Run(records, reqs, n).outcomes[j] == Apply(Run(records, reqs, j).records, reqs[j]).0
    decreases n
  {
    if n > j + 1 {
      OutcomeAt(records, reqs, j, n - 1);
    }
  }

  /** What one request does: skip exactly without a key; a skip or failure writes nothing; a creation appends; an update keeps the length. */
  lemma ApplyEffect(records: seq<Item>, req: Request)
    ensures var (o, after) := Apply(records, req);
      && (o == Skipped <==> req.key.None?)
      && (o == Skipped || (o.Upserted? && o.result.Failed?) ==> after == records)
      && (o == Upserted(Created) ==> after == records + [Create(req.key.value, req.defaults)])
      && (o == Upserted(Updated) ==> |after| == |records|)
  {
    if req.key.Some? {
      UpsertCases(records, req.key.value, req.defaults);
    }
  }

  /**
   * What row j of a file did: it is skipped exactly when its die_roll does not
   * coerce, a skipped or failed row writes nothing, a created row appends the
   * record of its key and defaults, and an updated row keeps the table's length.
   */
  lemma RowEffect(model: Model, records: seq<Item>, rows: seq<Row>, j: nat)
    requires j < |rows|
    ensures var reqs := Requests(model, rows);
      var o := Import(model, records, rows).outcomes[j];
      var before := Run(records, reqs, j).records;
      var after := Run(records, reqs, j + 1).records;
      && (o == Skipped <==> RowKey(rows[j]).None?)
      && (o == Skipped || (o.Upserted? && o.result.Failed?) ==> after == before)
      && (o == Upserted(Created) ==> after == before + [Create(RowKey(rows[j]).value, BuildDefaults(model, rows[j]))])
      && (o == Upserted(Updated) ==> |after| == |before|)
  {
    var reqs := Requests(model, rows);
    OutcomeAt(records, reqs, j, |rows|);
    assert reqs[j] == RequestOf(model, rows[j]);
    ApplyEffect(Run(records, reqs, j).records, reqs[j]);
  }

  /** One more iteration counts at most one more created or updated row, and grows the table only by a creation. */
  lemma RunStep(records: seq<Item>, reqs: seq<Request>, n: nat)
    requires 0 < n <= |reqs|
    ensures var prev, p := Run(records, reqs, n - 1), Run(records, reqs, n);
      && Count(p.outcomes, Upserted(Created)) + Count(p.outcomes, Upserted(Updated))
         <= Count(prev.outcomes, Upserted(Created)) + Count(prev.outcomes, Upserted(Updated)) + 1
      && |p.records| - Count(p.outcomes, Upserted(Created)) == |prev.records| - Count(prev.outcomes, Upserted(Created))
  {
    var prev := Run(records, reqs, n - 1);
    CountAppend(prev.outcomes, Apply(prev.records, reqs[n - 1]).0);
  }

  /**
   * Exactly one of created and updated counts each row that was written, so
   * their sum is at most the number of rows; the table grows by the number created.
   */
  lemma {:induction false} RunTally(records: seq<Item>, reqs: seq<Request>, n: nat)
    requires n <= |reqs|
    ensures var p := Run(records, reqs, n);
      && Count(p.outcomes, Upserted(Created)) + Count(p.outcomes, Upserted(Updated)) <= n
      && |p.records| == |records| + Count(p.outcomes, Upserted(Created))
  {
    if n > 0 {
      RunTally(records, reqs, n - 1);
      RunStep(records, reqs, n);
    }
  }

  lemma ImportTally(model: Model, records: seq<Item>, rows: seq<Row>)
    ensures var p := Import(model, records, rows);
      && Count(p.outcomes, Upserted(Created)) + Count(p.outcomes, Upserted(Updated)) <= |rows|
      && |p.records| == |records| + Count(p.outcomes, Upserted(Created))
  {
    RunTally(records, Requests(model, rows), |rows|);
  }

  /** Every request carries the extra fields of `model`. */
  predicate OfModel(model: Model, reqs: seq<Request>) {
    forall i :: 0 <= i < |reqs| ==> ModelOf(reqs[i].defaults.extra) == model
  }

  /** The loop keeps every record of the table storable and of the table's model. */
  lemma {:induction false} RunKeepsStored(model: Model, records: seq<Item>, reqs: seq<Request>, n: nat)
    requires AllStored(model, records) && OfModel(model, reqs) && n <= |reqs|
    ensures AllStored(model, Run(records, reqs, n).records)
  {
    if n > 0 {
      var prev := Run(records, reqs, n - 1);
      RunKeepsStored(model, records, reqs, n - 1);
      var req := reqs[n - 1];
      if req.key.Some? {
        UpsertKeepsStored(model, prev.records, req.key.value, req.defaults);
      }
    }
  }

  lemma ImportKeepsStored(model: Model, records: seq<Item>, rows: seq<Row>)
    requires AllStored(model, records)
    ensures AllStored(model, Import(model, records, rows).records)
  {
    var reqs := Requests(model, rows);
    assert OfModel(model, reqs) by {
      forall i | 0 <= i < |reqs| ensures ModelOf(reqs[i].defaults.extra) == model {
        assert reqs[i] == RequestOf(model, rows[i]);
      }
    }
    RunKeepsStored(model, records, reqs, |rows|);
  }

  /** No two rows of the file share a coerced die_roll. */
  predicate DistinctKeys(rows: seq<Row>) {
    forall i, j :: 0 <= i < j < |rows| && RowKey(rows[i]).Some? ==> RowKey(rows[i]) != RowKey(rows[j])
  }

  /** No two requests share a key. */
  predicate DistinctRequestKeys(reqs: seq<Request>) {
    forall i, j :: 0 <= i < j < |reqs| && reqs[i].key.Some? ==> reqs[i].key != reqs[j].key
  }

  lemma DistinctKeysRequests(model: Model, rows: seq<Row>)
    requires DistinctKeys(rows)
    ensures DistinctRequestKeys(Requests(model, rows))
  {
    var reqs := Requests(model, rows);
    forall i, j | 0 <= i < j < |reqs| && reqs[i].key.Some? ensures reqs[i].key != reqs[j].key {
      assert reqs[i] == RequestOf(model, rows[i]) && reqs[j] == RequestOf(model, rows[j]);
    }
  }

  /** Request m-1, when its key is not `key`, leaves the records of `key` as the requests before it left them. */
  lemma RequestKeepsOtherKeys(records: seq<Item>, reqs: seq<Request>, m: nat, key: int)
    requires 0 < m <= |reqs| && reqs[m - 1].key != Some(key)
    ensures Matches(Run(records, reqs, m).records, key) == Matches(Run(records, reqs, m - 1).records, key)
  {
    var req := reqs[m - 1];
    if req.key.Some? {
      UpsertKeepsOtherKeys(Run(records, reqs, m - 1).records, req.key.value, req.defaults, key);
    }
  }

  /** Requests j+1 to m-1, none of which has request j's key, leave the records with that key alone. */
  lemma {:induction false} KeyMatchesPersist(records: seq<Item>, reqs: seq<Request>, j: nat, m: nat)
    requires j < m <= |reqs| && reqs[j].key.Some?
    requires forall i :: j < i < m ==> reqs[i].key != reqs[j].key
    ensures var key := reqs[j].key.value;
      Matches(Run(records, reqs, m).records, key) == Matches(Run(records, reqs, j + 1).records, key)
    decreases m
  {
    if m > j + 1 {
      KeyMatchesPersist(records, reqs, j, m - 1);
      RequestKeepsOtherKeys(records, reqs, m, reqs[j].key.value);
    }
  }

  /** The outcome a row reports when the same file is imported again. */
  function RepeatedRow(o: RowOutcome): RowOutcome {
    match o
    case Skipped => Skipped
    case Upserted(result) => Upserted(Repeated(result))
  }

  /** Each request of the second pass leaves the first pass's table as it is and repeats its first outcome. */
  lemma SecondPassRow(records: seq<Item>, reqs: seq<Request>, m: nat)
    requires DistinctRequestKeys(reqs) && m < |reqs|
    ensures var first := Run(records, reqs, |reqs|);
      Apply(first.records, reqs[m]) == (RepeatedRow(first.outcomes[m]), first.records)
  {
    var first := Run(records, reqs, |reqs|);
    OutcomeAt(records, reqs, m, |reqs|);
    var req := reqs[m];
    if req.key.Some? {
      var key, d := req.key.value, req.defaults;
      var before := Run(records, reqs, m).records;
      var after := Run(records, reqs, m + 1).records;
      UpsertSettles(before, key, d);
      KeyMatchesPersist(records, reqs, m, |reqs|);
      SettledUpsertWritesNothing(first.records, key, d);
      UpsertOutcomeByMatches(first.records, after, key, d);
    }
  }

  /** The first m requests of the second pass leave the table as the first pass left it, each repeating its outcome. */
  lemma {:induction false} SecondPass(records: seq<Item>, reqs: seq<Request>, m: nat)
    requires DistinctRequestKeys(reqs) && m <= |reqs|
    ensures var first := Run(records, reqs, |reqs|);
      var second := Run(first.records, reqs, m);
      && second.records == first.records
      && forall j :: 0 <= j < m ==> second.outcomes[j] == RepeatedRow(first.outcomes[j])
  {
    if m > 0 {
      SecondPass(records, reqs, m - 1);
      SecondPassRow(records, reqs, m - 1);
    }
  }

  lemma {:induction false} RepeatedCounts(first: seq<RowOutcome>, second: seq<RowOutcome>)
    requires |first| == |second|
    requires forall j :: 0 <= j < |first| ==> second[j] == RepeatedRow(first[j])
    ensures Count(second, Upserted(Created)) == 0
    ensures Count(second, Upserted(Updated)) == Count(first, Upserted(Created)) + Count(first, Upserted(Updated))
  {
    if first != [] {
      var n := |first|;
      RepeatedCounts(first[..n - 1], second[..n - 1]);
    }
  }

  /**
   * Importing a file whose die_rolls are distinct a second time, right after
   * the first, leaves the table as the first import left it, creates nothing,
   * and updates exactly the rows the first import created or updated.
   */
  lemma ImportTwice(model: Model, records: seq<Item>, rows: seq<Row>)
    requires DistinctKeys(rows)
    ensures var first := Import(model, records, rows);
      var second := Import(model, first.records, rows);
      && second.records == first.records
      && Summarize(second.outcomes).created == 0
      && Summarize(second.outcomes).updated == Summarize(first.outcomes).created + Summarize(first.outcomes).updated
  {
    var reqs := Requests(model, rows);
    DistinctKeysRequests(model, rows);
    SecondPass(records, reqs, |reqs|);
    var first := Run(records, reqs, |reqs|);
    RepeatedCounts(first.outcomes, Run(first.records, reqs, |reqs|).outcomes);
  }
}
