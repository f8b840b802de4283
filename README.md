# Inventory, sales and users: the persistence-and-integrity core

This project models the core of a small console system that keeps an inventory of
products, a register of sales and a list of user accounts in flat delimited files. It is
written as a set of Dafny modules and proves properties of them:

- `Allocation`: the per-entity id counter (a class attribute in the original). Every
  construction either takes the counter's value and moves it up by one, or takes an explicit
  id and moves the counter past it. The counter stays above every id issued or observed.
- `ProductModel`, `SaleModel`, `UserModel`: the three records as classes. Read-only
  attributes are `const`, setters are methods that change exactly one field, and
  `total` is price times quantity.
- `UserStore`: the user list as a class holding a `seq<User>`. It covers:
  - the two seed accounts;
  - case-insensitive lookup by name, search, add with duplicate-name refusal, and update of
    only the fields supplied;
  - the store's own id rule (largest id + 1);
  - the users file codec.
- `SaleStore`: the sale list as a class. It covers add, the statistics report and the sales
  file codec.
- Both stores keep, as part of their invariant, that no two stored entries share an id:
  seeding, adding, updating and loading all preserve it, so saving a store and loading the
  file written always gives it back.
- `SaleStatistics`: revenue and item sums, and the top-3 rankings of products and buyers.
  The rankings follow `collections.Counter.most_common`: by count, highest first, with ties
  kept in order of first appearance.
- `CsvFiles`: a file is its list of rows, and the file system is a map from path to rows.
  It holds the path rule ("a path without a `.csv` suffix is a directory that receives the
  default file name") and the write of a file in overwrite or append mode.
- `Validator`: the input checks and parsers (blank checks, the name pattern, positive
  integers, the decimal shape, unique names, yes/no answers).
- `Text`: the string built-ins those checks and the files rely on (`strip`, `lower`, `in` on
  strings, `int()` and `str()` on integers, `float()` and `str()` on whole-number floats).
- `Wrappers`: `Option` and `Result`.

Loading a file is modelled twice: a pure fold over the rows (`DecodeUsers`, `DecodeSales`)
states what a load means, and an imperative loop (`LoadRows`) is proved equal to it. The
round trips `load(save(xs)) == xs` are proved for lists whose ids are pairwise distinct, and
only for them (`RoundTripIff`). The messages printed while loading are returned as a
sequence of `Warning` values.

## Model

| member | source | states |
|---|---|---|
| Allocation.Advance | Models/Product.py:7-10 | after an explicit id the counter is past that id and never moves backwards; it is either unchanged or id + 1 |
| Allocation.Allocator.constructor | Models/Product.py:2 | the counter starts at 1 with nothing issued |
| Allocation.Allocator.Issue | Models/Product.py:4-6 | an id taken from the counter is the old counter value and is above every id seen before; the counter rises by exactly 1; ids issued in sequence stay strictly increasing |
| Allocation.Allocator.Observe | Models/Product.py:7-10 | an explicit id moves the counter to max(counter, id + 1) and is recorded as seen; the counter invariant is kept |
| Allocation.NextAfter | Services/UserService.py:18-19 | the store's next id is above every stored id; it is 1 for an empty list and otherwise the largest id + 1 |
| ProductModel.Product.constructor | Models/Product.py:3-15 | without an id the product gets the old counter and the counter rises by 1; with one it gets that id and the counter becomes max(counter, id + 1); afterwards the counter exceeds the id; the fields are stored as given |
| ProductModel.Product.SetName | Models/Product.py:23-25 | only `name` changes, to the value given |
| ProductModel.Product.SetAuthor | Models/Product.py:29-31 | only `author` changes, to the value given |
| ProductModel.Product.SetCategory | Models/Product.py:35-37 | only `category` changes, to the value given |
| ProductModel.Product.SetQuantity | Models/Product.py:41-43 | only `quantity` changes, and `total` is then price times the new quantity |
| ProductModel.Product.SetPrice | Models/Product.py:47-52 | only `price` changes, and `total` is then the new price times quantity |
| SaleModel.Sale.constructor | Models/Sale.py:5-18 | the same id rule as products; username, product, quantity, price and role are stored as given |
| SaleModel.Sale.SetQuantity | Models/Sale.py:36-38 | only `quantity` changes (username, product and role are `const`), and `total` follows it |
| SaleModel.Sale.SetPrice | Models/Sale.py:44-46 | only `price` changes, and `total` follows it |
| UserModel.User.constructor | Models/User.py:5-16 | the same id rule as products; name, username, password and role are stored as given |
| UserModel.User.SetName | Models/User.py:26-28 | only `name` changes (`userID` is `const`) |
| UserModel.User.SetUsername | Models/User.py:34-36 | only `username` changes |
| UserModel.User.SetPassword | Models/User.py:43-45 | only `password` changes |
| UserModel.User.SetRole | Models/User.py:51-53 | only `role` changes |
| UserStore.Snap | Services/UserService.py:10 | no property of its own: the stored users viewed as values; `UserService.AddUser`, `UpdateUser` and `LoadCSV` state the new state of the store through it |
| UserStore.IdsOf | Services/UserService.py:19 | no property of its own: the ids that `_next_id` takes the maximum of; `Allocation.NextAfter` states that the next id is above each of them |
| UserStore.SearchResults | Services/UserService.py:37-41 | the operation; its meaning is stated by `UserStore.SearchResultsIff` (exactly the matching users) and `SearchResultsAppend` (in list order) |
| UserStore.IndexOfName | Services/UserService.py:31-35 | the first position whose name equals the query ignoring case, or none exactly when no name matches |
| UserStore.SearchResultsIff | Services/UserService.py:37-41 | a user is in the search result exactly when it is stored and its name or username contains the query ignoring case, or its id's decimal text equals the query |
| UserStore.SearchResultsAppend | Services/UserService.py:39-41 | searching a concatenated list gives the two results in list order, one after the other |
| UserStore.SearchEmptyQuery | Services/UserService.py:40 | the empty query matches every user |
| UserStore.Updated | Services/UserService.py:70-77 | an update never changes the id |
| UserStore.UpdatedIdempotent | Services/UserService.py:70-77 | applying the same update twice equals applying it once; an update supplying nothing (all absent or blank, role absent) changes nothing |
| UserStore.EncodeUsers | Services/UserService.py:96-97 | no property of its own: the rows a save writes; `UserStore.RoundTripIff` and `DecodeEncodeUsers` state that they load back to the list exactly when its ids are distinct |
| UserStore.EncodeUser | Services/UserService.py:97 | the operation; its meaning is stated by `UserStore.ParseEncodedUser`: the row written for a user reads back as that user |
| UserStore.EncodeUsersSnoc | Services/UserService.py:96-97 | saving one more user adds exactly its row at the end |
| UserStore.ParseUserRow | Services/UserService.py:118-138 | a row is blank exactly when empty and has the wrong column count exactly when non-empty and not 5 cells long; a parsed user carries the id read from column 1 |
| UserStore.ParseEncodedUser | Services/UserService.py:96-134 | the row written for a user parses back to that user |
| UserStore.LoadUserRow | Services/UserService.py:117-138 | one row adds at most one user at the end; a user is added only if its id was not loaded before, and that id is then recorded; every non-blank row adds a user or a warning |
| UserStore.LoadStepKeepsIds | Services/UserService.py:125-136 | one load step keeps the loaded-id set equal to the ids of the list, and the ids pairwise distinct |
| UserStore.DecodeKeepsIdsUnique | Services/UserService.py:116-138 | after a load the list holds each id at most once and the loaded-id set is exactly its ids |
| UserStore.DecodeProvenance | Services/UserService.py:116-138 | every loaded user is what some row of the file fully parses to |
| UserStore.DecodeKeepsFirst | Services/UserService.py:124-127 | the first row that fully parses with a given id is always loaded; a later duplicate never displaces it |
| UserStore.DecodeOnePerId | Services/UserService.py:125-127 | two loaded users never share an id |
| UserStore.DecodeStep | Services/UserService.py:117 | the load of the first i + 1 rows is the load of the first i followed by row i, reported as file line i + 2 |
| UserStore.DecodeAccounting | Services/UserService.py:117-138 | loaded users plus warnings plus blank rows account for every row after the header |
| UserStore.DecodeUsers | Services/UserService.py:116-138 | the operation; its meaning is stated by `UserStore.DecodeKeepsIdsUnique`, `DecodeProvenance`, `DecodeKeepsFirst`, `DecodeAccounting` and `RoundTripIff` |
| UserStore.DecodePrefix | Services/UserService.py:116-138 | extra rows at the end of a file never remove or reorder users loaded from the rows before them |
| UserStore.DecodeEncodeUsers | Services/UserService.py:96-138 | loading the rows written for a list with distinct ids gives that list, its id set and no warnings |
| UserStore.DecodeEncodeStep | Services/UserService.py:96-138 | saving one more user with a new id loads back as the earlier users followed by that user |
| UserStore.LoadFreshRow | Services/UserService.py:124-136 | the row written for a user whose id is new is loaded as that user |
| UserStore.RoundTripIff | Services/UserService.py:96-138 | the rows written for a list load back to the same list exactly when its ids are pairwise distinct |
| UserStore.LastIdIsNew | Services/UserService.py:125-127 | in a list with distinct ids the last id is not among the earlier ones |
| UserStore.IdSetSnoc | Services/UserService.py:136 | appending a user adds exactly its id to the id set |
| UserStore.UniqueIdsSnoc | Services/UserService.py:125-136 | appending a user whose id is new keeps the ids pairwise distinct |
| UserStore.LoadMissingKeeps | Services/UserService.py:102-104 | loading from a missing file leaves the list as it was |
| UserStore.LoadedUsers | Services/UserService.py:100-138 | the operation; its meaning is stated by `UserStore.LoadMissingKeeps` (a missing file changes nothing) and `SaveThenLoad` (what a save wrote loads back) |
| UserStore.DefaultFileNameIsCsv | Services/UserService.py:85-87 | the default name `Users.csv` is a plain file name with the `.csv` suffix |
| UserStore.SaveThenLoad | Services/UserService.py:82-138 | saving in overwrite mode to any path and loading from the resolved path gives back the list, when its ids are distinct |
| UserStore.AppendKeepsLoaded | Services/UserService.py:90-97 | appending rows to an existing file never loses or reorders what loading it gave before |
| UserStore.UserService.constructor | Services/UserService.py:8-13 | the store starts with the two seed accounts, ids 1 and 2 |
| UserStore.UserService.NextId | Services/UserService.py:18-19 | the next id is above every stored id; 1 when empty, otherwise the largest id + 1 |
| UserStore.UserService.FindUserByName | Services/UserService.py:31-35 | returns the user at the first name match ignoring case, or null when there is none |
| UserStore.UserService.UserExists | Services/UserService.py:15-16 | true exactly when some stored name equals the query ignoring case |
| UserStore.UserService.AddUser | Services/UserService.py:21-29 | refuses a name already present ignoring case and then changes nothing; otherwise appends exactly one user, with the store's next id and the fields given, keeping all earlier entries; the ids stay pairwise distinct |
| UserStore.UserService.SearchUser | Services/UserService.py:37-48 | the users found are, in list order, exactly the stored users matching the query |
| UserStore.UserService.ApplyUpdate | Services/UserService.py:70-77 | the user's fields become the update of its old fields |
| UserStore.UserService.UpdateUser | Services/UserService.py:61-80 | succeeds exactly when a name matches ignoring case; then only that first match changes, by the supplied non-blank fields and role; otherwise nothing changes; the ids stay pairwise distinct |
| UserStore.UserService.SaveCSV | Services/UserService.py:82-98 | the resolved file becomes the header followed by one row per user (overwrite, or a new file), or gains those rows at its end (append to an existing file); no other file changes |
| UserStore.UserService.WriteRows | Services/UserService.py:96-97 | the rows written are the given rows followed by one row per user in list order |
| UserStore.UserService.Append | Services/UserService.py:135 | given an id not yet stored, exactly one new user with the given fields is added at the end and the ids stay pairwise distinct |
| UserStore.UserService.LoadRow | Services/UserService.py:117-138 | one pass of the load loop does what the row fold does on one row |
| UserStore.UserService.LoadRows | Services/UserService.py:116-138 | the loop leaves exactly the users and warnings of the row fold |
| UserStore.UserService.LoadCSV | Services/UserService.py:100-145 | a missing or empty file changes nothing and warns nothing; otherwise the list becomes what the rows after the header decode to |
| UserStore.UserService.SaveThenLoadCSV | Services/UserService.py:82-138 | saving in overwrite mode and loading the file written gives back exactly the users the store held, with no warnings, since a store never holds two users with one id |
| SaleStore.Snap | Services/SaleService.py:10 | no property of its own: the stored sales viewed as values; `SaleService.AddSale` and `LoadCSV` state the new state of the store through it |
| SaleStore.IdsOf | Services/SaleService.py:13 | no property of its own: the ids that `_next_id` takes the maximum of; `Allocation.NextAfter` states that the next id is above each of them |
| SaleStore.IdSetSnoc | Services/SaleService.py:108 | appending a sale adds exactly its id to the id set |
| SaleStore.UniqueIdsSnoc | Services/SaleService.py:98-108 | appending a sale whose id is new keeps the ids pairwise distinct |
| SaleStore.LastIdIsNew | Services/SaleService.py:98-100 | in a list with distinct ids the last id is not among the earlier ones |
| SaleStore.EncodeSale | Services/SaleService.py:70 | a sale's row has 7 cells, the last one its total written as a float, the whole number followed by `.0` |
| SaleStore.EncodeSales | Services/SaleService.py:69-70 | no property of its own: the rows a save writes; `SaleStore.RoundTripIff` and `DecodeEncodeSales` state that they load back to the list exactly when its ids are distinct |
| SaleStore.EncodeSalesSnoc | Services/SaleService.py:69-70 | saving one more sale adds exactly its row at the end |
| SaleStore.ParseSaleRow | Services/SaleService.py:91-110 | a row is blank exactly when empty and too short exactly when non-empty with fewer than 6 cells; a parsed sale carries the id read from column 1; the price cell is read with `float()` |
| SaleStore.ParseEncodedSale | Services/SaleService.py:69-106 | the row written for a sale parses back to that sale |
| SaleStore.TotalColumnIgnored | Services/SaleService.py:97-106 | whatever follows the sixth cell (the written total included) has no effect on the parsed sale |
| SaleStore.WrittenRowExample | Services/SaleService.py:69-106 | the row the original writes for a sale, with price `10.0` and total `20.0`, loads back as that sale |
| SaleStore.ExampleTexts | Services/SaleService.py:70 | the cells written for that example: `1`, `2`, `3`, and the floats as `10.0` and `20.0` |
| SaleStore.LoadSaleRow | Services/SaleService.py:90-110 | one row adds at most one sale at the end, only with an id not loaded before, and records that id; every non-blank row adds a sale or a warning |
| SaleStore.LoadStepKeepsIds | Services/SaleService.py:98-108 | one load step keeps the loaded-id set equal to the ids of the list, and the ids pairwise distinct |
| SaleStore.DecodeKeepsIdsUnique | Services/SaleService.py:89-110 | after a load each id occurs at most once |
| SaleStore.DecodeProvenance | Services/SaleService.py:89-110 | every loaded sale is what some row fully parses to |
| SaleStore.DecodeKeepsFirst | Services/SaleService.py:97-100 | the first row that fully parses with a given id is always loaded; a later duplicate never displaces it |
| SaleStore.DecodeStep | Services/SaleService.py:90 | the load of the first i + 1 rows is the load of the first i followed by row i, reported as file line i + 2 |
| SaleStore.DecodeAccounting | Services/SaleService.py:90-110 | loaded sales plus warnings plus blank rows account for every row after the header |
| SaleStore.DecodeSales | Services/SaleService.py:89-110 | the operation; its meaning is stated by `SaleStore.DecodeKeepsIdsUnique`, `DecodeProvenance`, `DecodeKeepsFirst`, `DecodeAccounting` and `RoundTripIff` |
| SaleStore.DecodePrefix | Services/SaleService.py:89-110 | extra rows at the end never remove or reorder sales loaded before them |
| SaleStore.DecodeEncodeSales | Services/SaleService.py:69-108 | loading the rows written for a list with distinct ids gives that list, its id set and no warnings |
| SaleStore.DecodeEncodeStep | Services/SaleService.py:69-108 | saving one more sale with a new id loads back as the earlier sales followed by that sale |
| SaleStore.LoadFreshRow | Services/SaleService.py:97-108 | the row written for a sale whose id is new is loaded as that sale |
| SaleStore.RoundTripIff | Services/SaleService.py:69-108 | the rows written for a list load back to the same list exactly when its ids are pairwise distinct |
| SaleStore.SaveThenLoad | Services/SaleService.py:55-110 | saving in overwrite mode to any path and loading from the resolved path gives back the list, when its ids are distinct |
| SaleStore.LoadedSales | Services/SaleService.py:73-110 | the operation; its meaning is stated by `SaleStore.SaveThenLoad` (what a save wrote loads back) and `SaleService.LoadCSV` (a missing or empty file changes nothing) |
| SaleStore.AppendKeepsLoaded | Services/SaleService.py:63-70 | appending rows to an existing file never loses or reorders what loading it gave before |
| SaleStore.SaleService.constructor | Services/SaleService.py:9-10 | the store starts empty |
| SaleStore.SaleService.NextId | Services/SaleService.py:12-13 | the next id is above every stored id; 1 when empty, otherwise the largest id + 1 |
| SaleStore.SaleService.AddSale | Services/SaleService.py:15-19 | always appends exactly one sale, with the store's next id and the fields given, keeps the earlier entries and returns the new sale, whose total is price times quantity; the ids stay pairwise distinct |
| SaleStore.SaleService.DisplayStatistics | Services/SaleService.py:30-39 | no report exactly when there are no sales; otherwise the report of the current sales |
| SaleStore.SaleService.SaveCSV | Services/SaleService.py:55-71 | the resolved file becomes the header followed by one row per sale (overwrite, or a new file), or gains those rows at its end (append to an existing file); no other file changes |
| SaleStore.SaleService.WriteRows | Services/SaleService.py:69-70 | the rows written are the given rows followed by one row per sale in list order |
| SaleStore.SaleService.Append | Services/SaleService.py:106-107 | given an id not yet stored, exactly one new sale with the given fields is added at the end and the ids stay pairwise distinct |
| SaleStore.SaleService.LoadRow | Services/SaleService.py:90-110 | one pass of the load loop does what the row fold does on one row |
| SaleStore.SaleService.LoadRows | Services/SaleService.py:89-110 | the loop leaves exactly the sales and warnings of the row fold |
| SaleStore.SaleService.LoadCSV | Services/SaleService.py:73-117 | a missing or empty file changes nothing and warns nothing; otherwise the list becomes what the rows after the header decode to |
| SaleStore.SaleService.SaveThenLoadCSV | Services/SaleService.py:55-117 | saving in overwrite mode and loading the file written gives back exactly the sales the store held, with no warnings, since a store never holds two sales with one id |
| SaleStatistics.RevenueAppend | Services/SaleService.py:34 | revenue is additive over concatenation of sale lists |
| SaleStatistics.ItemsSoldAppend | Services/SaleService.py:35 | items sold is additive over concatenation of sale lists |
| SaleStatistics.SumsNonNegative | Services/SaleService.py:34-35 | with non-negative prices and quantities both sums are non-negative |
| SaleStatistics.Revenue | Services/SaleService.py:34 | the operation; its meaning is stated by `SaleStatistics.RevenueAppend`, `SumsNonNegative` and `ExampleSums` |
| SaleStatistics.ItemsSold | Services/SaleService.py:35 | the operation; its meaning is stated by `SaleStatistics.ItemsSoldAppend`, `SumsNonNegative` and `ExampleSums` |
| SaleStatistics.DedupSpec | Services/SaleService.py:36-37 | the keys in first-appearance order are distinct and are exactly the keys that occur |
| SaleStatistics.KeysOf | Services/SaleService.py:36-37 | no property of its own: the keys of a tally; `SaleStatistics.TallyKeys` states that they are the counted keys in order of first appearance |
| SaleStatistics.BumpKeys | Services/SaleService.py:36-37 | counting one more key keeps the key order and adds a new key at the end |
| SaleStatistics.BumpCount | Services/SaleService.py:36-37 | counting a key raises its count by one and no other count |
| SaleStatistics.BumpPositive | Services/SaleService.py:36-37 | counting keeps every count positive |
| SaleStatistics.CountOfEntry | Services/SaleService.py:36-37 | in a tally with distinct keys, looking a key up gives its entry's count |
| SaleStatistics.TallyKeys | Services/SaleService.py:36-37 | the tally's keys are the keys in order of first appearance |
| SaleStatistics.TallyCounts | Services/SaleService.py:36-37 | the tally's count of a key is its number of occurrences |
| SaleStatistics.TallyPositive | Services/SaleService.py:36-37 | every tally entry has a positive count |
| SaleStatistics.TallySpec | Services/SaleService.py:36-37 | the tally has distinct keys in first-appearance order, exactly the keys that occur, each with its number of occurrences |
| SaleStatistics.Tally | Services/SaleService.py:36-37 | the operation; its meaning is stated by `SaleStatistics.TallySpec`: distinct keys in first-appearance order, each with its number of occurrences |
| SaleStatistics.FirstMax | Services/SaleService.py:38-39 | the selected position is inside the tally |
| SaleStatistics.FirstMaxSpec | Services/SaleService.py:38-39 | the selected entry has the highest count, and every entry before it has a strictly lower count |
| SaleStatistics.WithCountAppend | Services/SaleService.py:38-39 | selecting entries with a given count distributes over concatenation |
| SaleStatistics.WithCountNone | Services/SaleService.py:38-39 | when no entry has the count, none is selected |
| SaleStatistics.WithCountSingle | Services/SaleService.py:38-39 | a single entry is selected exactly when it has the count |
| SaleStatistics.WithCountRemove | Services/SaleService.py:38-39 | removing the first entry of its count removes exactly the head of that count's entries |
| SaleStatistics.MostCommonLength | Services/SaleService.py:38-39 | the ranking has min(n, number of keys) entries |
| SaleStatistics.RemoveAtIndex | Services/SaleService.py:38-39 | removal shifts later entries down by one |
| SaleStatistics.FirstMaxBoundsRest | Services/SaleService.py:38-39 | once the first maximum is taken out, no remaining entry has a higher count |
| SaleStatistics.ConsDescending | Services/SaleService.py:38-39 | an entry whose count is at least every count of a descending ranking can head it |
| SaleStatistics.MostCommonBounded | Services/SaleService.py:38-39 | no ranked entry exceeds a bound that holds for the whole tally |
| SaleStatistics.MostCommonSorted | Services/SaleService.py:38-39 | the ranking is ordered by count, highest first |
| SaleStatistics.MostCommonTop | Services/SaleService.py:38-39 | an entry left out of the ranking has a count no higher than any ranked entry |
| SaleStatistics.MostCommonTies | Services/SaleService.py:38-39 | among entries with equal count, the ranked ones are the earliest in tally order: ties go to the key seen first |
| SaleStatistics.MostCommon | Services/SaleService.py:38-39 | the operation; its meaning is stated by `SaleStatistics.MostCommonLength`, `MostCommonSorted`, `MostCommonTop`, `MostCommonTies` and `MostCommonKeysDistinct` |
| SaleStatistics.Products | Services/SaleService.py:36 | no property of its own: the product of each sale; `SaleStatistics.RankingCounts`, `RankingDistinct` and `RankingOrder` state what ranking them gives |
| SaleStatistics.Buyers | Services/SaleService.py:37 | no property of its own: the buyer of each sale; `SaleStatistics.RankingCounts`, `RankingDistinct` and `RankingOrder` state what ranking them gives |
| SaleStatistics.Statistics | Services/SaleService.py:30-39 | there is no report exactly when there are no sales |
| SaleStatistics.MostCommonIn | Services/SaleService.py:38-39 | every ranked entry comes from the tally |
| SaleStatistics.RemoveAtDistinct | Services/SaleService.py:36-39 | taking an entry out of a tally with distinct keys keeps the keys distinct and removes that key |
| SaleStatistics.MostCommonAvoids | Services/SaleService.py:38-39 | a key absent from a tally is absent from its ranking |
| SaleStatistics.ConsDistinct | Services/SaleService.py:38-39 | an entry with a new key can head a ranking with distinct keys |
| SaleStatistics.MostCommonKeysDistinct | Services/SaleService.py:38-39 | ranking a tally with distinct keys gives distinct keys |
| SaleStatistics.RankingCounts | Services/SaleService.py:36-39 | a top-n ranking has min(n, distinct keys) entries, each an occurring key with its number of occurrences |
| SaleStatistics.RankingDistinct | Services/SaleService.py:36-39 | no key appears twice in a ranking |
| SaleStatistics.RankingOrder | Services/SaleService.py:36-39 | the ranking is ordered by count, highest first, and every key left out occurs no more often than any ranked key |
| SaleStatistics.Ranking | Services/SaleService.py:36-39 | the operation; its meaning is stated by `SaleStatistics.RankingCounts`, `RankingDistinct` and `RankingOrder` |
| SaleStatistics.ExampleSums | Services/SaleService.py:34-35 | on a three-sale example the revenue is 35 and the items sold 4 |
| SaleStatistics.ExampleProducts | Services/SaleService.py:36-38 | on the example the product ranking is productA (2) then productB (1) |
| SaleStatistics.ExampleBuyerTally | Services/SaleService.py:37 | on the example the buyer tally is userX (2), userY (1) in first-appearance order |
| SaleStatistics.ExampleBuyers | Services/SaleService.py:37-39 | on the example the buyer ranking is userX (2) then userY (1) |
| SaleStatistics.StatisticsExample | Services/SaleService.py:30-39 | the full report on the example |
| CsvFiles.LastIndexOf | Services/UserService.py:85 | the last position of a character, or -1 when absent |
| CsvFiles.Suffix | Services/UserService.py:85 | the operation; its meaning is stated by `CsvFiles.SuffixJoin` and `CsvName`; the path is not normalised first (see "## Left out") |
| CsvFiles.Join | Services/UserService.py:87 | the operation; its meaning is stated by `CsvFiles.BaseNameJoin` and `SuffixJoin`; the path is not normalised first (see "## Left out") |
| CsvFiles.ResolvePath | Services/UserService.py:83-89 | the operation; its meaning is stated by `CsvFiles.ResolvedPathIsCsv` and `ResolvePathIdempotent` |
| CsvFiles.BaseNameJoin | Services/UserService.py:87 | the last component of `dir / name` is `name` |
| CsvFiles.SuffixJoin | Services/UserService.py:85-87 | a file name placed in a directory keeps its suffix |
| CsvFiles.CsvName | Services/UserService.py:87 | a plain stem followed by `.csv` is a file name with the `.csv` suffix |
| CsvFiles.ResolvedPathIsCsv | Services/UserService.py:83-89 | the resolved path always has a `.csv` suffix in some letter case |
| CsvFiles.ResolvePathIdempotent | Services/UserService.py:83-89 | resolving a resolved path changes nothing |
| CsvFiles.WriteCsv | Services/UserService.py:90-97 | the written file holds the old rows followed by the new ones when appending to an existing file, otherwise the header followed by them; no other file changes |
| Validator.NonEmptyStringIff | Utils/Validator.py:17-19 | a value is non-empty exactly when it is present and some character is not whitespace |
| Validator.IsNonEmptyString | Utils/Validator.py:17-19 | the operation; its meaning is stated by `Validator.NonEmptyStringIff` |
| Validator.CleanStringIdempotent | Utils/Validator.py:22-24 | cleaning a cleaned value changes nothing |
| Validator.CleanStringShape | Utils/Validator.py:22-24 | a cleaned value neither starts nor ends with whitespace and is empty exactly for a missing or blank value |
| Validator.CleanString | Utils/Validator.py:22-24 | the operation; its meaning is stated by `Validator.CleanStringShape` and `CleanStringIdempotent` |
| Validator.ValidNameIsNonBlank | Utils/Validator.py:27-41 | a valid name is non-blank and its cleaned form does not start with a digit |
| Validator.EmptyNameRefused | Utils/Validator.py:27-41 | the empty name is refused even with a minimum length of 0 |
| Validator.ValidNameAtDefaults | Utils/Validator.py:30-41 | with the default bounds 1 and 100, a name is valid exactly when its cleaned form matches the pattern and is at most 100 characters long |
| Validator.IsValidName | Utils/Validator.py:30-41 | the operation; its meaning is stated by `Validator.ValidNameIsNonBlank` and `EmptyNameRefused` |
| Validator.PositiveIntStrIff | Utils/Validator.py:58-68 | the check holds exactly when the stripped text is all digits with at least one non-zero digit |
| Validator.IsPositiveIntStr | Utils/Validator.py:58-68 | the operation; its meaning is stated by `Validator.PositiveIntStrIff` and `PositiveIntStrParses` |
| Validator.ParsePositiveInt | Utils/Validator.py:71-82 | the result is `int(value)` when that is above 0; "not an integer" exactly when `int()` fails; "not positive" exactly when it gives a value of 0 or below |
| Validator.PositiveIntStrParses | Utils/Validator.py:58-82 | what the string check accepts the parser turns into the digits' value |
| Validator.SignedPositiveParsesButFailsCheck | Utils/Validator.py:58-82 | "+5" is parsed as 5 but refused by the string check |
| Validator.ParsePositiveIntToString | Utils/Validator.py:71-82 | the decimal text of every positive integer parses back to it |
| Validator.RemoveSpaces | Utils/Validator.py:92 | removing spaces leaves no space and keeps a final non-space character last |
| Validator.DecimalCandidateNoNewline | Utils/Validator.py:85-93 | after strip and space removal, the pattern's allowance for a final newline never applies |
| Validator.DecimalCandidate | Utils/Validator.py:92 | the operation; its meaning is stated by `Validator.RemoveSpaces` and `DecimalCandidateNoNewline` |
| Validator.UnsignedDecimalChars | Utils/Validator.py:85 | an unsigned decimal ends with a digit and has only digits and at most one separator |
| Validator.DecimalShapeChars | Utils/Validator.py:85 | a decimal ends with a digit and uses only digits, a leading sign and at most one separator |
| Validator.DigitsAreDecimal | Utils/Validator.py:85 | every digit string has the decimal shape |
| Validator.MatchesDecimalPattern | Utils/Validator.py:85 | the operation; its meaning is stated by `Validator.UnsignedDecimalChars`, `DecimalShapeChars` and `DigitsAreDecimal` |
| Validator.BlankNameNotUnique | Utils/Validator.py:130-136 | a blank name is never unique, even against an empty container |
| Validator.UniqueNameDiffersIgnoringCase | Utils/Validator.py:130-138 | a unique name differs from every element ignoring case |
| Validator.IsUniqueName | Utils/Validator.py:130-138 | the operation; its meaning is stated by `Validator.BlankNameNotUnique` and `UniqueNameDiffersIgnoringCase` |
| Validator.WordsDisjoint | Utils/Validator.py:161-162 | no answer is both a yes word and a no word |
| Validator.ParseBool | Utils/Validator.py:152-167 | true exactly on the yes words, false exactly on the no words, none otherwise (after strip and lower-casing) |
| Validator.ParseBoolIgnoresCase | Utils/Validator.py:160 | the answer does not depend on letter case |
| Validator.ParseBoolIgnoresPadding | Utils/Validator.py:160 | the answer does not depend on surrounding whitespace |
| Text.TrimLeft | Utils/Validator.py:19 | removes exactly the leading whitespace |
| Text.TrimRight | Utils/Validator.py:19 | removes exactly the trailing whitespace |
| Text.StripShape | Utils/Validator.py:19 | a stripped text is a slice of the input that neither starts nor ends with whitespace |
| Text.StripEmptyIff | Utils/Validator.py:19 | a text strips to empty exactly when it is all whitespace |
| Text.StripIdempotent | Utils/Validator.py:24 | stripping twice equals stripping once |
| Text.Strip | Utils/Validator.py:19 | the operation; its meaning is stated by `Text.StripShape`, `StripEmptyIff` and `StripIdempotent` |
| Text.Lower | Services/UserService.py:33 | no property of its own: `lower()`; `Text.LowerIdempotent`, `LowerAppend`, `LowerKeepsSpace` and `StripLower` state how it behaves |
| Text.LowerIdempotent | Services/UserService.py:33 | lower-casing twice equals lower-casing once |
| Text.LowerAppend | Services/UserService.py:33 | lower-casing distributes over concatenation |
| Text.LowerKeepsSpace | Utils/Validator.py:160 | lower-casing neither creates nor removes whitespace |
| Text.TrimLeftLower | Utils/Validator.py:160 | trimming the left and lower-casing commute |
| Text.TrimRightLower | Utils/Validator.py:160 | trimming the right and lower-casing commute |
| Text.StripLower | Utils/Validator.py:137 | stripping and lower-casing commute |
| Text.DigitsPositiveIff | Utils/Validator.py:63-66 | a digit run has a positive value exactly when some digit is not 0 |
| Text.ContainsEmpty | Services/UserService.py:40 | the empty text is contained in every text |
| Text.ContainsIff | Services/UserService.py:40 | containment holds exactly when the needle occurs at some position |
| Text.Contains | Services/UserService.py:40 | the operation; its meaning is stated by `Text.ContainsIff` and `ContainsEmpty` |
| Text.DigitChar | Services/UserService.py:40 | the digit character for a value below 10 has that value |
| Text.NatToString | Services/UserService.py:40 | the decimal text of a natural number is a digit run with that value and no leading zero |
| Text.ParseIntShape | Services/UserService.py:124 | `int()` succeeds exactly on a stripped text of digits with an optional sign |
| Text.NoSpaceStrip | Utils/Validator.py:19 | a text without whitespace strips to itself |
| Text.DigitsHaveNoSpace | Services/UserService.py:124 | a digit run holds no whitespace |
| Text.SignedHasNoSpace | Services/UserService.py:124 | a signed digit run holds no whitespace |
| Text.ParseIntToString | Services/UserService.py:124 | `int(str(n)) == n` for every integer |
| Text.IntToStringInjective | Services/UserService.py:40 | distinct integers have distinct decimal texts |
| Text.IntToString | Services/UserService.py:40 | the operation; its meaning is stated by `Text.ParseIntToString` and `IntToStringInjective` |
| Text.ParseInt | Services/UserService.py:124 | the operation; its meaning is stated by `Text.ParseIntShape` and `ParseIntToString` |
| Text.SignedDigitsToString | Services/UserService.py:124 | the decimal text of an integer, read as an optional sign and digits, gives back the integer |
| Text.IntToStringChars | Services/UserService.py:40 | the decimal text of an integer holds only digits and a leading minus sign |
| Text.DotIndex | Services/SaleService.py:104 | the position of the first point, or the length when there is none |
| Text.DotAfter | Services/SaleService.py:104 | in a text without a point followed by a point, the first point is the one that follows |
| Text.PointZeroStrips | Services/SaleService.py:104 | a signed digit run followed by `.0` has no surrounding whitespace |
| Text.PointZeroValue | Services/SaleService.py:104 | a signed digit run followed by `.0` is a whole-number float text with the run's value |
| Text.FloatToStringStrips | Services/SaleService.py:70 | the text written for a whole-number float has no surrounding whitespace |
| Text.FloatToStringPointZeros | Services/SaleService.py:70 | the text written for a whole-number float is its digits, a point and a zero |
| Text.ParseWholeFloat | Services/SaleService.py:104 | the operation; its meaning is stated by `Text.ParseWholeFloatToString` and `ParseWholeFloatOfInt` |
| Text.FloatToString | Services/SaleService.py:70 | the operation; its meaning is stated by `Text.ParseWholeFloatToString` |
| Text.ParseWholeFloatToString | Services/SaleService.py:70-104 | `float(str(x)) == x` for every whole-number float x: the price and total written by a save read back |
| Text.ParseWholeFloatOfInt | Services/SaleService.py:104 | `float()` accepts every text `int()` accepts, with the same value |

## Left out

- Floating point: `price`, `total` and the revenue are whole numbers here. Coercion with
  `float()` outside the sales file, rounding, and the `:.2f` formatting are not modelled.
- `SaleStore.ParseSaleRow`: the price cell is read with `float()` only when it denotes a whole
  number: an optional sign and digits, optionally followed by a point and zeros (`10`,
  `10.0`). A fractional price (`10.5`), an exponent, `inf`, `nan`, underscores, or a point
  with no digits before it make the row a warning here, where the original loads the row.
- `SaleStore.EncodeSale`: price and total are written as the whole number followed by `.0`,
  as Python's `str()` writes such a float below 10^16; the exponent form Python uses from
  10^16 on is not modelled.
- `Text.ParseWholeFloat`: `float()` only on whole-number texts, for the same reason: it gives
  none for `10.5`, an exponent, `inf`, `nan`, underscores or a point with no digits before it.
- `Text.FloatToString`: `str()` of a whole-number float below 10^16 only, for the same reason.
- `SaleModel.Sale.constructor`: it stores quantity, price and role as the numbers given. The
  original coerces them with `int()`/`float()`, which can raise; the model's typed parameters
  leave no such failure.
- The byte level of the files: quoting and escaping by the `csv` module, UTF-8, line ends.
  A file is its list of rows. A file written with a cell that contains a line break or a
  delimiter is assumed to read back as the same row.
- Directories: `mkdir` calls and existence checks beyond "the path is a key of the map".
  A path without a `.csv` suffix is joined with the default name. No check is made that it is
  not also a file.
- The outer `except Exception` of both loads. It can leave a list already cleared or partly
  refilled when an unexpected error (for example an I/O error) occurs part-way through. The
  model has no such failure.
- All printed output and its colours. The load warnings are returned as values; the success
  and "no valid rows" messages are not.
- `displaySales` and `displayUsers`: they only print.
- `SaleStore.SaleService.DisplayStatistics`: it returns the report that the original prints.
- `UserStore.UserService.SearchUser`: it returns the matching users. The original prints them
  and returns nothing, or `None` when there is no match.
- `Text.ParseInt`: it models `int()` on ASCII digits with an optional sign and surrounding
  whitespace. Underscore separators and non-ASCII digits are not accepted.
- `Validator.IsPositiveIntStr`: its digits are ASCII `0`-`9`. Python's `isdigit()` also
  accepts other Unicode digits (`is_positive_int_str("٣")` holds in the original and not
  here).
- `Validator.MatchesDecimalPattern`: its `\d` is ASCII `0`-`9`, where the `re` module also
  matches other Unicode decimal digits.
- `CsvFiles.Suffix`: it reads the suffix of the path text as given. pathlib first normalises
  the path, so `Path("out.csv/").suffix` is `.csv` while the model finds no suffix there.
- `CsvFiles.Join`: the joined text is not normalised: `data/` joined with `Users.csv` is
  `data//Users.csv` here and `data/Users.csv` in the original.
- `CsvFiles.ResolvePath`: a file is keyed by the path text, so spellings that pathlib treats
  as one file (`./x.csv` and `x.csv`, a doubled or trailing `/`) are different files here.
- `Text.Lower`: it covers ASCII and the Latin-1 upper-case range. Other Unicode case mappings
  are not modelled. `IsSpace` is Python's full set of whitespace characters.
- `is_valid_number` and the int-argument `is_positive_int`: they are run-time type tests,
  with no counterpart in a typed model.
- `is_positive_decimal`, `is_valid_decimal` and `parse_positive_decimal`: only their
  pattern stage is modelled (`DecimalCandidate`, `MatchesDecimalPattern`). The `float()`
  conversion and the comparison with 0 are not.
- `format_decimal`: float formatting.
- The text after line 167 of `Utils/Validator.py` is prose, not code.
- Services/Inventory.py is not part of this model. Products are modelled only through their
  record class.
- Services/menu.py (the console menu, login and purchase flow) is not part of this model.
- `Allocation.Allocator`: one allocator per entity kind is passed explicitly to every
  construction, in place of a class attribute shared by all instances.
