# Frostgrave item importer, modelled in Dafny

This project models the bulk item importer of the Frostgrave Reborn catalogue.
The importer is the Django management command `load_items`. It takes an item-type
argument and a CSV file. It picks one of the four item models: GreaterPotion,
LesserPotion, MagicItem or MagicWeaponOrArmour. It checks that the CSV header names
`die_roll`, `name`, `purchase` and `sale`. Then, for every data row, it coerces the
`die_roll` cell to an integer and upserts the row into that model's table, keyed by
the roll. A row without a usable roll is skipped. The command counts how many rows
were created and how many were updated.

The model has five modules:

- `Wrappers` holds `Option` and `Result`.
- `Models` holds the item records of `core/models.py`:
  - the BaseItem columns and the columns each variant adds;
  - the NOT NULL, CHECK (>= 0) and VARCHAR(255) constraints the database enforces;
  - `__str__`;
  - the default ordering by name.
- `Coercion` holds `to_int_or_none`, together with the part of Python's base-10
  `int()` on a `str` that it relies on:
  - ASCII whitespace stripped from both ends;
  - an optional sign;
  - digits, with a single underscore allowed between two digits.
- `Store` holds `update_or_create(die_roll=key, defaults=...)` as a function
  `Upsert` over a table's records:
  - no match: create;
  - one match: overwrite the non-key columns;
  - two or more matches: `MultipleObjectsReturned`;
  - a write the constraints refuse: `IntegrityError`/`DataError`, rolled back.

  It also holds the mutable `Table` and `Database` classes that the command writes through.
- `LoadItems` holds the command itself:
  - `MODEL_MAP` and the case-insensitive lookup of the item type;
  - the structural checks (`Validate`);
  - the per-model `defaults` mapping (`BuildDefaults`);
  - the row loop as imperative methods (`Handle`, `LoadRows`, `LoadRow`) over a `Table`.

  Each method is proved against a specification: the function `Import`, a left fold
  `Run` of the per-row step `Apply` over the rows' requests (the coerced key plus the
  defaults). Lemmas about `Run` give:
  - the outcome of each row;
  - the tallies;
  - the preserved table invariant;
  - idempotence of a second import of the same file.

The file system, the CSV reader and `apps.get_model` are outside the model. An open
file is a `CsvFile` value: the header as `fieldnames`, `None` for an empty file, and
the rows as maps from column to cell. A row's cell is `None` where csv.DictReader fills
a short row.

## Model

| member | source | states |
|---|---|---|
| Coercion.ToIntOrNone | django_backend/core/management/commands/load_items.py:10-20 | None and "" give None; any other cell has its commas removed and is parsed by int(), a failure giving None; a value comes only from a cell that holds a digit and at most 4300 digits in all, and a negative value only from one that holds a minus sign |
| Coercion.Remove | django_backend/core/management/commands/load_items.py:18 | str.replace(c, ""): the result is never longer than the input (RemoveMembers gives its characters) |
| Coercion.Strip | django_backend/core/management/commands/load_items.py:18 | the whitespace int() ignores is stripped: the result is never longer, and neither starts nor ends with whitespace |
| Coercion.ParseInt | django_backend/core/management/commands/load_items.py:18 | int(s) in base 10: it yields a value only for a string with at most 4300 digits, the default limit of int() on a str |
| Coercion.StripKeepsDigitCount | django_backend/core/management/commands/load_items.py:18 | stripping whitespace keeps every digit, so int() counts the digits of the cell itself |
| Coercion.RemoveKeepsDigitCount | django_backend/core/management/commands/load_items.py:18 | removing the commas keeps every digit |
| Coercion.ParseDigitPartMeaning | django_backend/core/management/commands/load_items.py:18 | int()'s digit scan accepts exactly the non-empty runs of digits in which each underscore sits between two digits, and yields the decimal value of the digits |
| Coercion.TrimStartDropsSpaces | django_backend/core/management/commands/load_items.py:18 | the leading whitespace int() ignores: the result is a suffix of the input that does not start with whitespace, and everything dropped is whitespace |
| Coercion.TrimEndDropsSpaces | django_backend/core/management/commands/load_items.py:18 | the trailing whitespace int() ignores: the result is a prefix of the input that does not end with whitespace, and everything dropped is whitespace |
| Coercion.RemoveMembers | django_backend/core/management/commands/load_items.py:18 | after replace(",", "") a character occurs exactly when it occurred before and is not a comma |
| Coercion.RemoveAppend | django_backend/core/management/commands/load_items.py:18 | removing commas works piecewise: on a concatenation it is the concatenation of the pieces with their commas removed |
| Coercion.RemoveIdempotent | django_backend/core/management/commands/load_items.py:18 | removing commas twice is the same as removing them once |
| Coercion.CoercedCellWitness | django_backend/core/management/commands/load_items.py:17-20 | a cell that parses after its commas are removed holds a digit, and one that parses to a negative number holds a minus sign |
| Coercion.ParseIntOfDigits | django_backend/core/management/commands/load_items.py:18 | int() reads the decimal digits of a natural number back as that number when there are at most 4300 of them, and raises (None) when there are more |
| Coercion.ParseIntOfNegated | django_backend/core/management/commands/load_items.py:18 | int() reads a minus sign followed by the digits of n as -n when there are at most 4300 digits, and raises (None) when there are more |
| Coercion.ShowIntRoundTrip | django_backend/core/management/commands/load_items.py:10-20 | an integer written in decimal, with a minus sign when negative, coerces back to itself exactly when it has at most 4300 digits; a longer one coerces to None |
| Coercion.UngroupThousands | django_backend/core/management/commands/load_items.py:18 | removing the commas from digits grouped in threes gives back the digits |
| Coercion.ShowGroupedRoundTrip | django_backend/core/management/commands/load_items.py:10-20 | an integer written with thousands separators coerces back to itself exactly when it has at most 4300 digits; a longer one coerces to None |
| Coercion.CommasAreIgnored | django_backend/core/management/commands/load_items.py:18 | two cells that differ only in where their commas are coerce to the same result |
| Coercion.EmptyCellsAreNone | django_backend/core/management/commands/load_items.py:15-16 | a missing cell and an empty cell both give None |
| Coercion.LettersAreNone | django_backend/core/management/commands/load_items.py:17-20 | a cell of letters gives None instead of raising |
| Coercion.ThousandsSeparatorExample | django_backend/core/management/commands/load_items.py:18 | "1,234" coerces to 1234 |
| Models.NameLeTotal | django_backend/core/models.py:23-25 | the name order compares any two names |
| Models.InsertByName | django_backend/core/models.py:23-25 | inserting a named record into a name-ordered table keeps it ordered, and adds exactly that record |
| Models.OrderByName | django_backend/core/models.py:23-25 | a table listed in its default order is sorted by name and holds exactly the table's records |
| Models.Str | django_backend/core/models.py:27-28 | __str__ returns the name; it is defined on records that have one |
| Models.StrOfValidItem | django_backend/core/models.py:27-28 | a record the database accepts prints as its name, in at most 255 characters |
| Models.SatisfiesIntegrity | django_backend/core/models.py:11-36 | the NOT NULL constraint on name and the non-negative CHECK on purchase, sale, die_roll and ingredient_cost, each nullable |
| Models.FitsColumns | django_backend/core/models.py:11-65 | name and effects fit their VARCHAR(255) columns |
| Models.ValidItem | django_backend/core/models.py:5-65 | a record the database stores without raising: both of the above |
| Store.Violation | django_backend/core/models.py:11-65 | a record is stored without error exactly when its name is present, every integer column is NULL or non-negative and every string fits 255 characters; IntegrityError exactly when the NOT NULL or CHECK constraints fail |
| Store.Matches | django_backend/core/management/commands/load_items.py:110 | the lookup by die_roll returns only records with that roll, and no more records than the table has (MatchesMembers, MatchesNone and MatchesSeveral give the converse) |
| Store.FirstMatch | django_backend/core/management/commands/load_items.py:129-131 | the record the lookup finds is a record of the table with that roll, no earlier record has the roll, and it is the first record the lookup returns |
| Store.MatchesMembers | django_backend/core/management/commands/load_items.py:110 | a record is returned by the lookup exactly when it is in the table and has the roll |
| Store.MatchesNone | django_backend/core/management/commands/load_items.py:129-131 | the lookup returns nothing exactly when no record of the table has the roll, the case in which update_or_create creates |
| Store.MatchesSeveral | django_backend/core/management/commands/load_items.py:129-131 | the lookup returns two or more records exactly when two positions of the table hold the roll, the case in which update_or_create raises MultipleObjectsReturned |
| Store.Create | django_backend/core/management/commands/load_items.py:129-131 | the record a create inserts has the looked-up roll and the model of the defaults |
| Store.Overwrite | django_backend/core/management/commands/load_items.py:129-131 | an update keeps the record's roll and model, and with defaults of that model gives exactly the record a create of the roll would insert |
| Store.Upsert | django_backend/core/management/commands/load_items.py:129-131 | update_or_create(die_roll=key, defaults=d): the table grows by one record on a create and keeps its length otherwise (UpsertCases gives the full case split) |
| Store.UpsertCases | django_backend/core/management/commands/load_items.py:129-131 | update_or_create creates exactly when no record has the roll and the new record is valid, updates exactly when one has it and the overwritten record is valid, and reports MultipleObjectsReturned exactly for two or more; a failure writes nothing; a create appends its record; an update keeps the length; records with other rolls stay in place |
| Store.UpsertKeepsOtherKeys | django_backend/core/management/commands/load_items.py:129-131 | an upsert of one roll leaves the records of every other roll as they were |
| Store.UpsertSettles | django_backend/core/management/commands/load_items.py:129-140 | repeating an upsert at once writes nothing further, and reports Updated where the first call reported Created and the same outcome otherwise |
| Store.SettledUpsertWritesNothing | django_backend/core/management/commands/load_items.py:129-131 | an upsert whose roll is already settled leaves the table as it is and creates nothing |
| Store.UpsertOutcomeByMatches | django_backend/core/management/commands/load_items.py:129-131 | only the records with the roll decide what an upsert of that roll reports |
| Store.UpsertKeepsStored | django_backend/core/management/commands/load_items.py:129-131 | upserting defaults of the table's own model keeps every record valid and of that model |
| Store.Table.UpdateOrCreate | django_backend/core/management/commands/load_items.py:129-131 | the method's result and the table's new records are those Upsert gives for the old records, and the table stays valid |
| LoadItems.ModelForIsKeyLookup | django_backend/core/management/commands/load_items.py:56-61 | the item type selects a model exactly when its lowercase form is that model's key in MODEL_MAP |
| LoadItems.ModelForKey | django_backend/core/management/commands/load_items.py:30-35 | each of the four keys of MODEL_MAP selects its model |
| LoadItems.ModelForIgnoresCase | django_backend/core/management/commands/load_items.py:56 | the letter case of the item type does not change the model chosen |
| LoadItems.UnknownItemType | django_backend/core/management/commands/load_items.py:59-61 | an item type outside MODEL_MAP selects no model |
| LoadItems.ModelFor | django_backend/core/management/commands/load_items.py:56-59 | MODEL_MAP.get(item_type.lower()): a model exactly when the lowercased type is a key of the map, and then the model whose key it is |
| LoadItems.Validate | django_backend/core/management/commands/load_items.py:56-92 | an unknown item type fails as InvalidItemType whatever the file holds; otherwise the run proceeds exactly when the file exists, has a header row and the header names all four required columns, with the chosen model and all the file's rows |
| LoadItems.MissingPurchaseFails | django_backend/core/management/commands/load_items.py:86-92 | a header without purchase fails the run |
| LoadItems.Get | django_backend/core/management/commands/load_items.py:98 | row.get(column): None for a column the row lacks, and otherwise only the row's own cell |
| LoadItems.GetWithDefault | django_backend/core/management/commands/load_items.py:115 | row.get(column, default): the default for a column the row lacks, otherwise the row's cell (None in a short row) |
| LoadItems.BuildDefaults | django_backend/core/management/commands/load_items.py:114-126 | the defaults carry the extra columns of exactly the chosen model |
| LoadItems.DefaultsReadOnlyTheirColumns | django_backend/core/management/commands/load_items.py:114-126 | changing any cell outside name, purchase, sale and the model's own extra column leaves the defaults unchanged |
| LoadItems.SmallNumbers | django_backend/core/management/commands/load_items.py:18 | "5", "20", "50" and "100" coerce to 5, 20, 50 and 100 |
| LoadItems.ElixirExample | django_backend/core/management/commands/load_items.py:98-126 | a GreaterPotion row with ingredient_cost 20 creates a record with that cost; the same row loaded as a LesserPotion drops it |
| LoadItems.Handle | django_backend/core/management/commands/load_items.py:52-172 | the command fails exactly when Validate fails, with its error and nothing written; otherwise the chosen table ends as Import says, the summary counts Import's outcomes and the other three tables are untouched |
| LoadItems.LoadRows | django_backend/core/management/commands/load_items.py:94-157 | the row loop leaves the table as Import says and returns the created and updated counts of Import's outcomes |
| LoadItems.LoadRow | django_backend/core/management/commands/load_items.py:98-157 | one loop iteration reports and writes what Apply gives for the row's request: a skip without a die_roll, otherwise the upsert's result |
| LoadItems.Apply | django_backend/core/management/commands/load_items.py:98-157 | one iteration of the loop: a row is upserted exactly when its die_roll coerces, and the table grows by one record exactly when the row reports a creation |
| LoadItems.Run | django_backend/core/management/commands/load_items.py:94-157 | the loop after n rows: one outcome per row, and no record ever removed |
| LoadItems.Import | django_backend/core/management/commands/load_items.py:94-157 | the loop over a whole file: one outcome per row, and no record ever removed |
| LoadItems.OutcomeAt | django_backend/core/management/commands/load_items.py:97-157 | the outcome recorded for row j is decided by the table as the rows before j left it, and later rows do not change it |
| LoadItems.ApplyEffect | django_backend/core/management/commands/load_items.py:98-157 | a request is skipped exactly when it has no key; a skip or a failure writes nothing; a create appends the new record; an update keeps the table's length |
| LoadItems.RowEffect | django_backend/core/management/commands/load_items.py:98-157 | row j of a file is skipped exactly when its die_roll does not coerce; a skipped or failed row writes nothing; a created row appends the record of its roll and defaults; an updated row keeps the table's length |
| LoadItems.CountAppend | django_backend/core/management/commands/load_items.py:135-140 | one more outcome raises the created count exactly when it is a create, and the updated count exactly when it is an update |
| LoadItems.RunStep | django_backend/core/management/commands/load_items.py:128-140 | each iteration adds at most one to created plus updated, and grows the table by exactly the creates it counts |
| LoadItems.RunTally | django_backend/core/management/commands/load_items.py:94-140 | after n rows, created plus updated is at most n, and the table has grown by exactly the created count |
| LoadItems.ImportTally | django_backend/core/management/commands/load_items.py:94-172 | for a whole file, created plus updated is at most the number of rows, and the table grows by exactly the created count |
| LoadItems.RunKeepsStored | django_backend/core/management/commands/load_items.py:114-131 | the loop keeps every record of the table valid and of the table's model |
| LoadItems.ImportKeepsStored | django_backend/core/management/commands/load_items.py:114-131 | importing a file keeps every record of the chosen table valid and of its model |
| LoadItems.DistinctKeysRequests | django_backend/core/management/commands/load_items.py:98-110 | rows with distinct die_rolls give requests with distinct keys |
| LoadItems.RequestKeepsOtherKeys | django_backend/core/management/commands/load_items.py:128-131 | a row with another die_roll, or none, leaves the records of a roll as they were |
| LoadItems.KeyMatchesPersist | django_backend/core/management/commands/load_items.py:97-131 | rows after row j whose rolls differ from j's leave the records with j's roll as row j left them |
| LoadItems.SecondPassRow | django_backend/core/management/commands/load_items.py:97-140 | on a re-import of a file with distinct rolls, each row writes nothing and reports Updated where it first reported Created, and the same outcome otherwise |
| LoadItems.SecondPass | django_backend/core/management/commands/load_items.py:97-140 | the first m rows of the re-import leave the table as the first import left it, each repeating its first outcome that way |
| LoadItems.RepeatedCounts | django_backend/core/management/commands/load_items.py:135-140 | outcomes repeated that way count no creates, and as many updates as the first outcomes had creates and updates together |
| LoadItems.ImportTwice | django_backend/core/management/commands/load_items.py:94-172 | importing a file with distinct die_rolls again, right after the first import, leaves the table unchanged, creates nothing and updates exactly the rows the first import created or updated |

## Left out

- Reading the file: opening it, UTF-8 decoding and CSV tokenising are outside the model. The file is given as a `CsvFile` value, and a missing file is `None`. A decoding or CSV error in the middle of the file, which aborts the run after some rows are written, is not modelled.
- Argument parsing (`add_arguments`, the argparse `choices` check) is not modelled. `Handle` takes the item type as given and performs the command's own `MODEL_MAP` check.
- `apps.get_model` is not modelled: every model in `MODEL_MAP` exists in the app, so its LookupError branch cannot be reached.
- Output is not modelled: the messages on stdout and stderr and their styling. Only the created/updated counts and the per-row outcomes are kept.
- Error wrapping is not modelled: the command's outer `except Exception` re-raises structural failures as a CommandError with a different message. `CommandError` keeps only the kind of failure.
- int() whitespace and digits: only the six ASCII whitespace characters and the ASCII digits are modelled; the Unicode whitespace and decimal digits int() accepts are not.
- Lower: str.lower() is modelled on ASCII letters only; other characters are left as they are.
- int() digit limit: int() is modelled with its default limit of 4300 digits (`MaxStrDigits`). A limit changed through PYTHONINTMAXSTRDIGITS, `-X int_max_str_digits` or sys.set_int_max_str_digits is not modelled.
- Integer range: the upper bound of the integer columns is not modelled. A die_roll or price beyond the database's integer range raises an overflow, which the per-row handler reports as a failed row.
- Store.Violation: raises DataError for a string over 255 characters, as PostgreSQL does. SQLite does not enforce VARCHAR lengths. When a record breaks both kinds of constraint, the model reports IntegrityError. PostgreSQL checks the VARCHAR(255) length first and raises DataError, for example for a NULL name with 300-character effects. Only the error inside `Failed` differs; nothing is written either way.
- Models.OrderByName: compares names by code point and places equal names in insertion order. The database's collation and its order among equal names are not modelled.
- Primary key: the `id` column is not modelled. The upsert identifies records by die_roll and by position in the table.
- Concurrency: two imports running at the same time are not modelled. Neither is the row lock that update_or_create takes.
- Treasure and RandomSpell: their records are declared. The importer never writes them, so no operation on them is modelled.
- Store.Table.UpdateOrCreate: requires the defaults to carry the table's own model's extra columns. `BuildDefaults` always meets this. The source's behaviour for a foreign field, a FieldError, is not modelled.
- LoadItems.ImportTwice: is stated for files whose die_rolls, as coerced, are pairwise distinct. The model states nothing about re-importing a file in which two rows share a roll.
