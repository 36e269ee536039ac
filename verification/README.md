# Drush CSV import commands, modelled in Dafny

A Drush command file imports nutrition data from CSV files into a Drupal
site. It creates or updates fast-food chain nodes, master product nodes and
year product nodes, and it copies every master product forward into a
product for a given year. This project models those commands as pure
functions over an immutable store:

- **Store** (`store.dfy`) holds content nodes in creation order. A node's
  storage key is its position. Each node is published or not and holds one
  of three bundles: fast-food chain, master product or year product.
  - An entity query hands back its matches in ascending storage key, and the
    commands take the first one.
  - Upsert lookups (`FindLive`) match published nodes by natural key: chain
    ID; master product ID; or the (product ID, year) pair.
  - The chain resolver (`ResolveChain`) matches chain nodes by chain ID,
    published or not.
  - The three term resolvers (`ResolveTerm`) match "food_group" terms by
    food-group, major-category or minor-category ID.
  - No match leaves the reference empty (`NoRef`).
- **Classification** (`classification.dfy`): product rows carry three codes.
  Column 6 is a food group, column 8 a major category, column 10 a minor
  category. A code counts when it is not PHP-empty (`""` or `"0"`). For the
  major and minor codes, the character pair at 2–3 and at 4–5 respectively
  must also differ from `"00"`. A column missing from a short row counts as
  empty, and a code too short to reach its pair is compared with what it
  has. The codes are applied in that order. Each
  code that counts overwrites the single classification reference, even
  when its term does not exist.
- **Row upsert** (`upsert.dfy`): look up the row's natural key.
  - Found: rewrite that node from the row; `updated` goes up by one.
  - Not found and the title is non-empty: create a published node;
    `created` goes up by one.
  - Not found and the title is empty: nothing changes.
- **Import** (`import.dfy`): the three CSV commands fold the upsert over the
  rows and count each row as processed. A missing or unopenable file ends
  the command with an error and leaves the store untouched.
- **Copy forward** (`copy_forward.dfy`): for every published master product,
  in storage-key order, create a year product for the requested year.

`prelude.dfy` holds first-match search over a sequence and PHP's `empty()`
on strings.

## Model

| member | source | states |
|---|---|---|
| `Store.FindLive` | DrushCommandTest.php:166-173 | The node an upsert loads is the first published node with the natural key; there is one exactly when the key is present. The same lookup serves the chain query here, the master query at 286-294 and the year-product query at 487-496 |
| `Store.ResolveChain` | DrushCommandTest.php:757-771 | The chain resolver gives the first chain node with the domain ID, whether published or not; it gives no reference exactly when no chain node has that ID |
| `Store.ResolveTerm` | DrushCommandTest.php:777-825 | A term resolver gives the term id of the first "food_group" term whose chosen field holds the code; it gives no reference exactly when no term matches |
| `Classification.Override` | DrushCommandTest.php:310-340 | Applying the levels in order leaves the target of the last given level, or the prior value when no level is given |
| `Classification.OverrideIsHighestPriority` | DrushCommandTest.php:318-339 | Overwriting in source order equals taking the highest-priority given level from the reversed list |
| `Classification.Classify` | DrushCommandTest.php:312-340 | A usable minor code decides the classification. Otherwise a usable major code decides. Otherwise a non-empty food-group code decides. Otherwise the prior value stays |
| `Classification.ClassifyIsHighestPriority` | DrushCommandTest.php:370-398 | A row's classification is the highest-priority usable level in the order minor, major, food group |
| `Classification.ShortRowKeepsClassification` | DrushCommandTest.php:310-340 | Code columns past the end of a row of at most 6 columns count as empty, so the row gives no code and leaves the classification as it was |
| `Classification.ShortCodesAreUsable` | DrushCommandTest.php:318-336 | A non-empty major code of at most 3 characters, or minor code of at most 5, never reads as the "00" sentinel and so is usable |
| `Classification.MissingTermClears` | DrushCommandTest.php:795-825 | When the deciding code has no matching term, the classification becomes empty, whatever it was before |
| `RowUpsert.ChainField` | DrushCommandTest.php:509-514 | An empty chain column keeps the reference. Otherwise the reference becomes the chain resolver's result, the first chain node with the ID, and it is empty exactly when no chain node has the ID |
| `RowUpsert.ChainFieldTwice` | DrushCommandTest.php:603-615 | Running the chain block twice equals running it once, and with a non-empty column the result does not depend on the old reference |
| `RowUpsert.Fresh` | DrushCommandTest.php:587-685 | A created node answers to the row's natural key and carries the row's title. A product also carries the row's name, the chain block's result and the row's classification from an empty start; running the chain block twice in the year-product branch changes nothing. A year product also carries columns 11-40 verbatim and is flagged as holding all information |
| `RowUpsert.Revise` | DrushCommandTest.php:305-344 | An updated node keeps its natural key and takes the row's title. A master keeps its chain reference; a year product gets the chain block applied to its old reference. Both products take the row's name and get the row's classification applied to their old one. A year product also takes the 30 detail columns verbatim and is flagged as holding all information |
| `RowUpsert.Upsert` | DrushCommandTest.php:164-203 | Per-row counter accounting. Key present: `updated` +1, the store size is unchanged, and the first live match becomes the revision of itself, still published. Key absent with a title: `created` +1 and exactly one published node is appended. Key absent without a title: store and counters unchanged. Only the first live match can change, and no existing node changes its live key |
| `RowUpsert.UpsertPresence` | DrushCommandTest.php:171-201 | After a row, its key is present exactly when it was already present or the row had a title; every other key keeps its presence |
| `RowUpsert.UpsertKeepsKeysUnique` | DrushCommandTest.php:299-304 | An upsert never creates a second published node for a natural key |
| `RowUpsert.MasterUpdateKeepsChain` | DrushCommandTest.php:305-366 | The master update branch leaves the chain reference as it was; the create branch sets it from the chain column |
| `RowUpsert.YearRowFieldsWritten` | DrushCommandTest.php:502-584 | After a year-product row with a title or an existing key, the node found by the key carries the row's title, its name and its 30 detail columns verbatim, and is flagged as holding all information |
| `Import.ImportRows` | DrushCommandTest.php:132-140 | `processed` grows by the row count. `created` + `updated` grow by at most the row count, and by exactly the row count when every row has a title. The store grows by exactly the number created, and no existing node changes its live key |
| `Import.ImportFile` | DrushCommandTest.php:100-155 | A missing file gives FileNotFound and an unopenable one FileOpenFailure, both with the store unchanged. A readable file leaves the store and counters of importing its rows in order. It reports `processed` = row count, `created + updated ≤ processed` and store growth equal to `created`, and afterwards every titled row's key is present |
| `Import.ImportFileTwice` | DrushCommandTest.php:100-155 | Running a command a second time on the same readable file creates nothing and processes every row; for any file the second run does not grow the store |
| `Import.ImportKeepsPresent` | DrushCommandTest.php:178-184 | A key present before an import is present after it |
| `Import.ImportCoversRow` | DrushCommandTest.php:186-201 | After an import, the key of any row with a title is present |
| `Import.ImportCoversTitledRows` | DrushCommandTest.php:251-259 | After an import, the keys of all rows with titles are present |
| `Import.CoveredRowsCreateNothing` | DrushCommandTest.php:292-348 | Rows whose keys are present, or that have no title, create nothing |
| `Import.ReimportCreatesNothing` | DrushCommandTest.php:171-186 | Running the same rows again on the store the first run left gives `created` = 0 and `processed` = row count, and the store does not grow |
| `Import.ImportKeepsKeysUnique` | DrushCommandTest.php:300-304 | Importing into a store with unique live keys keeps them unique, so repeated rows collapse onto one node |
| `Import.DistinctYearsStayApart` | DrushCommandTest.php:487-496 | Two new year-product rows with the same ID but different years create two nodes and report counts (2, 2, 0) |
| `Import.SameYearCollapses` | DrushCommandTest.php:487-507 | Two year-product rows with the same (ID, year) leave exactly one live node with that key. That node carries the later row's title and detail columns, and the counts are (2, 1, 1) |
| `Import.ChainRowTwice` | DrushCommandTest.php:176-200 | The row ["McDonald's", "7"] into a store without chain 7 reports (1, 1, 0); importing it again reports (1, 0, 1) and creates nothing |
| `CopyForward.MastersFrom` | DrushCommandTest.php:705-709 | The query lists exactly the storage keys of published master products, each once and in ascending order |
| `CopyForward.CopyOf` | DrushCommandTest.php:727-738 | A copy answers to (master's product ID, requested year). It carries the master's title, name, chain reference and food-group reference; the detail columns are left empty and the all-information flag unset |
| `CopyForward.CopyLoop` | DrushCommandTest.php:721-744 | Each listed master gets one published copy appended in list order; `processed` and `created` both grow by the list length; existing nodes are untouched |
| `CopyForward.CopiesMatchMasters` | DrushCommandTest.php:727-738 | Every listed master has its copy among the added nodes, and every added node is a copy of a published master |
| `CopyForward.CopyForward` | DrushCommandTest.php:702-749 | `created` = `processed` and nothing is updated. Existing nodes are unchanged. Every published master has its copy, and every new node is a copy of a published master |
| `CopyForward.CopyMakesKeysPresent` | DrushCommandTest.php:734-740 | After copying forward, the key (master's ID, year) of every published master is present |
| `CopyForward.CopyThenImportUpdates` | DrushCommandTest.php:734-740 | A year-product row for a copied master's ID and the copy's year is counted as an update, not a creation |
| `CopyForward.MastersFromLength` | DrushCommandTest.php:705-721 | The query lists as many storage keys as the recursive count of published master products |
| `CopyForward.PublishedMastersCount` | DrushCommandTest.php:705-707 | The set of published master products has as many elements as the recursive count |
| `CopyForward.CopyCountsMasters` | DrushCommandTest.php:742-747 | The number created is the number of published master products |
| `CopyForward.CopyIgnoresExisting` | DrushCommandTest.php:727-740 | Copying into a year that already has a published product for a master's ID leaves two published nodes with the same key: the command never updates |

## Left out

- Console output: `hello`, `readCSV` (reads a file and prints it) and every `writeln` are left out. The reported counters are returned as a `Tally`.
- CSV tokenising (`fgetcsv`) and file handles: the input is the already-split rows. `file_exists` and `fopen` are reduced to the `CsvSource` cases `Missing` and `Unopenable`.
- Drupal's entity API (`entityQuery`, `load`, `create`, `save`) is replaced by the position-ordered store. The real query order is not specified by the code; the model fixes it as ascending storage key.
- Newly created nodes are modelled as published, which is Drupal's default for nodes. The `uid` set on creation is not modelled.
- Key comparison is exact string equality. A database collation that compares case-insensitively is not modelled.
- Short rows: the code columns 4, 6, 8 and 10 are read only behind `empty()`, so a missing one counts as empty (`Col`). Every other column a command uses is read without a check. `RowFits` therefore requires 2 columns for chain and master rows and 41 for year rows. A shorter row would make PHP store null fields with a notice; the model leaves that behaviour out.
- Short codes: a code character past the end of the code reads as "" (`CharAt`), as PHP's uninitialised string offset does, so the sentinel check sees a shorter string. The notice PHP emits is not modelled.
- Code characters: PHP indexes a code by bytes, while the model indexes Dafny characters. The two agree when the first six characters of the major and minor codes are ASCII, as the domain's numeric codes are. A code with multi-byte characters in those positions is not modelled faithfully.
- The 30 nutrition and note columns (11–40) of a year product are kept as one verbatim slice, `details`. A copied product leaves them unset, written `[]`, and leaves `allInformation` unset, written `false`.
- The chain resolver returns `FALSE` and the term resolvers return `null` when nothing matches. Both are modelled as `NoRef`, the empty reference.
- A blank CSV line reaches the commands as a one-column row whose missing columns read as null. It is a short row like any other and is excluded by `RowFits`.
- A failing save is not modelled: the code does not catch it, so it aborts the command.
