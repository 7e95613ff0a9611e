# Second-hand trading system — a verified Dafny model

This project models the core of the second-hand trading system in two generations.

- **ver2.0** is a Tkinter application over SQLite. Its parts:
  - `models.py` holds the marketplace store: users with a pending/approved life cycle, item categories with an attribute template, items, the "want" ledger and per-item message threads.
  - `database.py` holds the schema constraints, column defaults and category seeding.
  - `gui_components.py` holds the authorisation and lock rules embedded in the window handlers.
  - `main.py` holds the login classification and the session.
- **ver1.0** `items.py` is an in-memory item table with logical deletion, copy-on-revise and a save to a workbook.

## Layout

| file | module | contents |
|---|---|---|
| `common.dfy` | `Common` | `Option`, Python's `str.strip` and `split("\n")`, `float()` on decimal numerals, `str(n)`, and a generic `Filter`/`First` (SQL `WHERE` and list comprehensions) |
| `schema.dfy` | `Schema` | row datatypes of the five tables, the role/status domains, column defaults, the default categories, and the `UNIQUE`/`PRIMARY KEY` constraints as predicates |
| `queries.dfy` | `Queries` | every read-only method of `UserManager`, `CategoryManager` and `ItemManager`, as functions over a snapshot of the tables |
| `store.dfy` | `Store` | class `Store`: the five tables as `seq` fields, the id counters and a clock; one method per mutating operation, plus `init_db` |
| `gui.dfy` | `Gui` | the handler guards and flows of `MainView`, the category, user and registration windows, and the item form |
| `app.dfy` | `Application` | class `App` of `main.py`: startup view, `attempt_login`, `logout`, the admin menu and the create-admin view's submit |
| `itemtable.dfy` | `ItemTable` | ver1.0 classes `Item` and `ItemTable` over a `seq` of objects whose `valid` flag is updated in place |

### Modelling decisions

- **Tables.** Each SQLite table is a sequence of rows in rowid order.
  - An `INSERT` appends a row with the next id.
  - `UPDATE` and `DELETE` are pointwise maps and filters.
  - A command that violates a `UNIQUE` constraint is modelled as the error path the source takes (`IntegrityError` turned into a message, or `False`).
  - `Store.Valid()` is the invariant every method preserves. It has two groups of conjuncts.
    - The schema's constraints (`Constrained`): unique usernames, unique category names, unique (user, item) wants, strictly increasing ids in every table, and strictly increasing message timestamps.
    - Invariants derived from the code, which no schema constraint enforces:
      - every id is below its table's next-id counter;
      - every message's `created_at` is below the clock;
      - no item is `reserved`;
      - an item is `sold` exactly when it has a buyer;
      - every item's owner id names an existing user.
- **Password hashing.** `pbkdf2_hmac` is the store's `kdf` function value, and the salt is an input of each method that inserts a user.
- **Joins.** `_fetch_items` is an inner join of items with their category and owner, with `want_count` as the number of want rows for the item. An item whose category or owner row is gone is not returned. Foreign keys are not enforced on the connections the managers use, so no operation checks references.
- **Timestamps.** `created_at` is the store's `clock`. Each message takes the current value and the clock then advances.
- **Dialogs.** What a handler reads from a dialog (a confirmation, an offer, a chosen buyer) is a parameter of the modelled handler.
- **Failed lookups.** Where a handler stops at a failed lookup, its outcome datatype names the stop.

## Model

| member | source | states |
|---|---|---|
| Common.Strip | ver2.0/gui_components.py:49 | the result is the slice of the input left after dropping leading and trailing whitespace, with no whitespace at either end. Whitespace is the set Python's `str.isspace` accepts, non-ASCII spaces included, as `str.strip` uses on every form field |
| Common.SplitLines | ver2.0/gui_components.py:255 | `split("\n")` yields at least one piece, no piece holds a newline, and joining the pieces with newlines gives back the input |
| Common.ParseNumber | ver2.0/gui_components.py:731-735 | `float(price)`: a string of digits parses to its integer value; anything accepted is non-empty and made only of digits, a point and a leading sign |
| Common.IndexOfAt | ver2.0/gui_components.py:731-735 | the first point of a numeral is found where it stands when none comes before it |
| Common.FractionBelowOne | ver2.0/gui_components.py:731-735 | the digits after the point are worth less than one unit |
| Common.DecimalValue | ver2.0/gui_components.py:731-735 | the value of `w.f` lies between `w` and `w + 1` |
| Common.UnsignedFraction | ver2.0/gui_components.py:731-735 | the unsigned form `w.f` parses to the decimal value of `w` and `f` |
| Common.ParseFraction | ver2.0/gui_components.py:731-735 | `float` accepts digits with one point and at least one digit in all (".5", "1.", "2.25") and returns `w + f / 10^len(f)` |
| Common.ParseNegative | ver2.0/gui_components.py:731-735 | a leading "-" is accepted on any unsigned numeral and negates its value; refused exactly when the unsigned part is |
| Common.ParsePositive | ver2.0/gui_components.py:731-735 | a leading "+" is accepted on any unsigned numeral and keeps its value |
| Common.ParseNegativeFraction | ver2.0/gui_components.py:731-735 | "-w.f" parses to minus the value of `w.f` |
| Common.ParsePositiveFraction | ver2.0/gui_components.py:731-735 | "+w.f" parses to the value of `w.f` |
| Common.ParseSignedInteger | ver2.0/gui_components.py:731-735 | "-12" parses to -12.0 and "+12" to 12.0 |
| Common.NatToString | ver2.0/gui_components.py:892 | `str(n)` is a non-empty digit string whose decimal value is `n`, with no leading zero unless `n` is 0 |
| Common.Filter | ver2.0/models.py:268-313 | a `WHERE` filter keeps exactly the rows satisfying the predicate and nothing else |
| Common.First | ver2.0/models.py:113-121 | a `fetchone` lookup returns a matching row, and None only when no row matches |
| Common.FilterPairwise | ver2.0/models.py:536-550 | filtering keeps every order relation between earlier and later rows |
| Common.FirstAppend | ver2.0/models.py:113-121 | inserting a row does not change what an existing lookup finds |
| Schema.WantPairUnique | ver2.0/database.py:94-98 | under `UNIQUE(user_id, item_id)` two wants of the same user for the same item are the same row |
| Schema.UsersAppend | ver2.0/database.py:32-42 | appending a user with a fresh id and an unused username keeps the users-table constraints |
| Schema.CategoriesAppend | ver2.0/database.py:45-51 | appending a category with a fresh id and an unused name keeps the categories-table constraints |
| Schema.ItemsAppend | ver2.0/database.py:67-86 | appending an item with a fresh id keeps the items-table constraints |
| Schema.WantsAppend | ver2.0/database.py:89-100 | appending a want with a fresh id and a new (user, item) pair keeps the wants-table constraints |
| Schema.MessagesAppend | ver2.0/database.py:103-115 | appending a message with a fresh id and a later timestamp keeps the messages-table constraints |
| Queries.UserRowKeyed | ver2.0/database.py:35 | under the constraints a user row is determined by its username or its id |
| Queries.CategoryRowKeyed | ver2.0/database.py:48 | under the constraints a category row is determined by its name or its id |
| Queries.UsersKeyed | ver2.0/models.py:113-121 | under the constraints the lookup by name or by id of every user finds exactly that row |
| Queries.CategoriesKeyed | ver2.0/models.py:235-244 | under the constraints the lookup by name or by id of every category finds exactly that row |
| Queries.GetUser | ver2.0/models.py:113-121 | `get_user` returns a user with that name, and None exactly when no row has the name |
| Queries.Authenticate | ver2.0/models.py:97-111 | `authenticate` returns None for an unknown name; for the row with the name it returns that user exactly when `kdf(password, salt)` equals the stored hash, and None otherwise |
| Queries.HasAdmin | ver2.0/models.py:177-184 | `has_admin` holds exactly when some user has role admin |
| Queries.GetAllCategories | ver2.0/models.py:218-220 | one name per category row, and a name is listed exactly when a category has it |
| Queries.GetAttributesForCategory | ver2.0/models.py:235-244 | the template of the category with the name, and `[]` when no category has it |
| Queries.Fetch | ver2.0/models.py:268-313 | `_fetch_items` returns exactly the joined views of the rows the `WHERE` clause selects |
| Queries.SearchItems | ver2.0/models.py:351-374 | `[]` for an unknown category; otherwise exactly the joined items of that category whose name, description or owner name contains the keyword, or all of them for an empty keyword |
| Queries.SearchItemsCategory | ver2.0/models.py:351-374 | every item `search_items` returns belongs to the category of that name |
| Queries.FindItemById | ver2.0/models.py:376-378 | the joined view of the item with the id, and None exactly when no row with that id survives the join |
| Queries.GetUserWants | ver2.0/models.py:450-489 | exactly the joined items the user has a want row for |
| Queries.GetAllItems | ver2.0/models.py:347-349 | exactly the joined views of the items whose category and owner rows exist |
| Queries.WantCount | ver2.0/models.py:279 | the `want_count` subquery counts at most every want row, and is 0 exactly when no want row names the item |
| Queries.DisplayName | ver2.0/models.py:60-61 | a non-empty joined name is shown as is; an empty one is replaced by `str(id)`, a digit string worth the id |
| Queries.WantersOf | ver2.0/models.py:437-448 | `get_item_wanters` lists exactly the users behind the item's want rows whose user row exists |
| Queries.GetItemWanters | ver2.0/models.py:437-448 | the users listed are exactly the users of the item's want rows whose user row exists |
| Queries.ReceivedIn | ver2.0/models.py:491-515 | `get_received_wants` lists exactly the wants on the owner's items whose item and buyer exist, with the buyer's contact and offer |
| Queries.GetReceivedWants | ver2.0/models.py:491-515 | the entries are exactly those of the want rows on the owner's items whose item and buyer rows exist |
| Queries.Thread | ver2.0/models.py:536-550 | `get_messages` returns messages of that item only, and every message of the item whose sender exists |
| Queries.GetMessages | ver2.0/models.py:536-550 | only messages of the item, each a joined message row, and every message of the item whose sender exists |
| Queries.ThreadBelow | ver2.0/models.py:536-550 | every returned message is older than any bound the stored messages respect |
| Queries.AscendingAppend | ver2.0/models.py:536-550 | appending a message later than all others keeps a thread in ascending time order |
| Queries.ThreadOrdered | ver2.0/models.py:536-550 | under the schema's increasing timestamps every thread is ordered by `created_at` ascending |
| Queries.GetMessagesOrdered | ver2.0/models.py:536-550 | `get_messages` is ordered by `created_at` ascending |
| Store.ApprovedIn | ver2.0/models.py:168-175 | approving maps the users table pointwise and keeps its length |
| Store.WithTemplate | ver2.0/models.py:246-254 | the template update maps the categories table pointwise and keeps its length |
| Store.SoldIn | ver2.0/models.py:517-523 | the sale update maps the items table pointwise and keeps its length |
| Store.CategoriesWithout | ver2.0/models.py:256-261 | `DELETE FROM categories WHERE name = ?` keeps exactly the categories with another name |
| Store.Without | ver2.0/models.py:380-385 | `DELETE FROM items WHERE id = ?` keeps exactly the items whose id is not deleted |
| Store.Revised | ver2.0/models.py:387-422 | a revision never touches the id, category, owner, status or buyer of an item |
| Store.RevisedIn | ver2.0/models.py:387-422 | the revision update maps the items table pointwise and keeps its length |
| Store.NameStep | ver2.0/models.py:395-397 | adding the `name = ?` clause sets the name exactly when the key is present |
| Store.DescriptionStep | ver2.0/models.py:398-400 | adding the `description = ?` clause sets the description exactly when the key is present |
| Store.PriceStep | ver2.0/models.py:401-403 | adding the `price = ?` clause sets the price exactly when the key is present |
| Store.CanBargainStep | ver2.0/models.py:404-406 | adding the `can_bargain = ?` clause sets the flag exactly when the key is present |
| Store.AddressStep | ver2.0/models.py:407-409 | adding the `address = ?` clause sets the address exactly when the key is present |
| Store.ImagesStep | ver2.0/models.py:410-412 | adding the `image_paths = ?` clause sets the images exactly when the key is present |
| Store.AttributesStep | ver2.0/models.py:413-415 | adding the `specific_attributes = ?` clause sets the attributes exactly when the key is present |
| Store.ApplyAssignments | ver2.0/models.py:387-422 | the `UPDATE` built step by step from the present keys sets exactly those fields |
| Store.NoKeysNoChange | ver2.0/models.py:417-422 | no `SET` clause is built exactly when `data` has none of the keys, and then nothing changes |
| Store.RevisedInFrame | ver2.0/models.py:387-422 | `revise_item` leaves every other item unchanged, keeps every id, and sets a given name on the item |
| Store.Store.constructor | ver2.0/database.py:16-117 | a fresh database has no users, items, wants or messages, holds the four seeded categories, and satisfies every constraint |
| Store.Store.InitDb | ver2.0/database.py:53-64 | `init_db` seeds the four default categories only when the table is empty, and otherwise changes nothing |
| Store.Store.Register | ver2.0/models.py:123-141 | `register` succeeds exactly when the name is unused; it then appends a pending regular user with the derived hash, after which authentication with that password returns them; a taken name gives "用户名已存在" and changes nothing |
| Store.Store.RegisterUser | ver2.0/models.py:143-149 | `register_user` raises exactly when the name is taken, changing nothing, and otherwise registers with the three contact fields and advances the user counter by one |
| Store.Store.CreateAdmin | ver2.0/models.py:186-203 | `create_admin` succeeds exactly when the name is unused, appends an approved admin with the next id and advances the counter, after which `has_admin` holds; otherwise changes nothing |
| Store.Store.InsertUser | ver2.0/models.py:123-141 | inserting a user with an unused name keeps the constraints, and authentication with any password that derives the hash returns that user |
| Store.Store.ApproveUser | ver2.0/models.py:168-175 | `approve_user` always returns True and sets that user's status to approved |
| Store.Store.AddCategory | ver2.0/models.py:222-233 | `add_category` returns False and changes nothing when the name exists, and otherwise appends the category with the next id and advances the counter |
| Store.Store.UpdateCategory | ver2.0/models.py:246-254 | `update_category` replaces the template of the category with that name |
| Store.Store.DeleteCategory | ver2.0/models.py:256-261 | `delete_category` removes the named category and leaves the items untouched |
| Store.Store.CreateItem | ver2.0/models.py:315-345 | `create_item` raises and inserts nothing when the category or the owner is unknown, the counter unchanged; otherwise it appends one active item without buyer, with `[]` for missing images, and advances the counter |
| Store.Store.InsertItem | ver2.0/models.py:336-343 | inserting an active item without buyer appends it and keeps the constraints |
| Store.Store.DeleteItem | ver2.0/models.py:380-385 | `delete_item` removes exactly the rows with that id |
| Store.Store.ReviseItem | ver2.0/models.py:387-422 | `revise_item` applies the revision to the item with the id |
| Store.Store.AddWant | ver2.0/models.py:424-435 | `add_want` returns True exactly for a new (user, item) pair, appending the want with the next id, advancing the counter and raising `want_count` by one; otherwise returns False and changes nothing |
| Store.Store.InsertWant | ver2.0/models.py:428-431 | inserting a new (user, item) pair appends it, advances the counter and keeps the constraints |
| Store.Store.ConfirmSold | ver2.0/models.py:517-523 | `confirm_sold` marks the item sold to the buyer whatever its status was |
| Store.Store.AddMessage | ver2.0/models.py:525-534 | `add_message` appends the message with the next id and the current time; the id counter advances by one and the time advances |
| Store.Store.FetchItems | ver2.0/models.py:268-313 | the row loop of `_fetch_items` builds exactly the joined views the query selects |
| Store.SeedRowsConstrained | ver2.0/database.py:53-64 | the seed has four categories with distinct names and four attributes each |
| Store.ApprovedKeepsIds | ver2.0/models.py:168-175 | approving never removes a user |
| Store.RevisedPreserves | ver2.0/models.py:387-422 | a revision keeps the items-table constraints |
| Store.WantCountAppend | ver2.0/models.py:279 | a new want row raises the `want_count` of its item by one and of no other item |
| Store.ItemRowKeyed | ver2.0/database.py:69 | under the constraints an item row is determined by its id |
| Store.WithoutNothing | ver2.0/models.py:380-385 | deleting no id changes nothing |
| Store.WithoutUnion | ver2.0/gui_components.py:1047-1058 | deleting ids one after another is deleting them all at once |
| Store.FindAfterWithout | ver2.0/models.py:376-385 | after deleting the ids, a deleted id is found no more and any other id is found as before |
| Store.WithTemplateConstrained | ver2.0/models.py:246-254 | a template update keeps the categories-table constraints |
| Store.TemplateAfterUpdate | ver2.0/models.py:235-254 | after `update_category` the attributes of that category are the new template |
| Store.TemplateOthersKept | ver2.0/models.py:246-254 | `update_category` leaves the attributes of every other category unchanged |
| Store.TemplateAfterAdd | ver2.0/models.py:222-244 | after `add_category` its attributes are the given template |
| Store.ApprovedUser | ver2.0/models.py:168-175 | approving keeps the constraints, turns that user approved and changes nothing else about them; approving an unknown name changes nothing |
| Store.ApprovedConstrained | ver2.0/models.py:168-175 | approving keeps the users-table constraints |
| Store.ApproveIdempotent | ver2.0/models.py:168-175 | approving twice is approving once |
| Store.SoldIsFinal | ver2.0/models.py:387-422 | no revision, sale or deletion turns a sold item back: sold stays sold |
| Store.SoldInEffect | ver2.0/models.py:517-523 | `confirm_sold` sets that item sold with that buyer and changes no other item |
| Store.WantersAfterAdd | ver2.0/models.py:424-448 | after a want is added its user is among the item's wanters |
| Store.ThreadAfterAdd | ver2.0/models.py:525-550 | a message from a known sender extends its item's thread by itself at the end and changes no other thread |
| Store.ThreadSameUsers | ver2.0/models.py:536-550 | a thread depends on the users table only through the sender names |
| Store.DeleteCategoryHidesItems | ver2.0/models.py:256-313 | after deleting a category none of its items is listed, and none is found by the join |
| Gui.EditDecision | ver2.0/gui_components.py:923-944 | the edit form opens exactly for an existing item whose user is its owner or an admin and which is unlocked unless the user is an admin; a missing item is reported as such |
| Gui.EditDecisionAsWritten | ver2.0/gui_components.py:931-944 | as written the handler raises on a missing item and otherwise decides as `EditDecision` |
| Gui.EditAfterCategoryDeleteRaises | ver2.0/gui_components.py:931-944 | an item whose category was deleted makes the handler as written raise, where the intended check reports it missing |
| Gui.DeleteDecision | ver2.0/gui_components.py:1049-1058 | an item is deleted exactly when it exists, the user is its owner or an admin, and it is unlocked unless the user is an admin; denied exactly when missing or neither owner nor admin |
| Gui.EditAndDeleteAgree | ver2.0/gui_components.py:934-941 | editing and deleting an existing item apply the same ownership and lock rules |
| Gui.AdminBypassesLock | ver2.0/gui_components.py:939-941 | an admin may always edit and delete; a non-admin may never edit or delete a sold or wanted item |
| Gui.MayPublish | ver2.0/gui_components.py:917-921 | the publish button exists exactly for a non-admin |
| Gui.StatusDisplay | ver2.0/gui_components.py:883-893 | a sold item gets the sold tag, an unsold unwanted item the active tag, and otherwise the text is the want count followed by "人想要" |
| Gui.StatusTextDeterminesTag | ver2.0/gui_components.py:883-893 | the shown status text determines the tag, and for a wanted item the want count |
| Gui.WantedTextShape | ver2.0/gui_components.py:892 | the wanted text ends with "人想要" after the count's digits |
| Gui.NonEmptyStrippedSound | ver2.0/gui_components.py:255 | every entry the list comprehension keeps is a stripped line of the text and is neither empty nor padded |
| Gui.NonEmptyStrippedComplete | ver2.0/gui_components.py:255 | every line that is not blank is kept, stripped |
| Gui.ParseAttributes | ver2.0/gui_components.py:255 | the attributes are the stripped non-blank lines of the stripped text box |
| Gui.StripIdempotent | ver2.0/gui_components.py:255 | stripping twice is stripping once |
| Gui.SplitJoin | ver2.0/gui_components.py:235 | splitting newline-joined lines gives them back |
| Gui.IndexOfJoin | ver2.0/gui_components.py:235 | the first newline of a join is right after its first line |
| Gui.NonEmptyStrippedClean | ver2.0/gui_components.py:255 | a clean template survives the comprehension unchanged |
| Gui.JoinEnds | ver2.0/gui_components.py:235 | a joined clean template has no whitespace at its ends |
| Gui.ShownTextStrips | ver2.0/gui_components.py:235-255 | the text widget's copy of a joined clean template, trailing newline included, strips back to the joined lines |
| Gui.EmptyShownText | ver2.0/gui_components.py:242-255 | an empty text box, read back as a lone newline, gives an empty attribute list |
| Gui.ParseShownTemplate | ver2.0/gui_components.py:229-255 | a template shown in the text box by `on_category_select` and read back by `save_category`, with the newline the text widget adds at the end, is the same template |
| Gui.ShownLines | ver2.0/gui_components.py:235-255 | the stripped non-empty lines of a joined clean template, read back with the trailing newline, are the template itself |
| Gui.SaveCategory | ver2.0/gui_components.py:245-267 | an empty name changes nothing; an existing name gets the parsed template, a new one is appended with the next id and the counter advanced; afterwards the category's attributes are the parsed lines |
| Gui.StoreCategory | ver2.0/gui_components.py:258-265 | an existing name gets the given template with the counter unchanged, a new name is appended with the next id and the counter advanced; either way the category's attributes are the given ones |
| Gui.DeleteReports | ver2.0/gui_components.py:1047-1058 | one decision per selected item |
| Gui.DeletedIdsExactly | ver2.0/gui_components.py:1047-1058 | an id is deleted exactly when it is selected and its decision at its turn is Deleted |
| Gui.DeleteTurn | ver2.0/gui_components.py:1047-1058 | one turn of the loop decides the next selected item on the table as the earlier turns left it |
| Gui.DeleteSelectedItem | ver2.0/gui_components.py:1037-1060 | nothing happens without a selection or confirmation; otherwise each selected item is decided in turn, and exactly the items decided Deleted are removed |
| Gui.ApprovedAll | ver2.0/gui_components.py:324-354 | approving the selection maps the users table pointwise |
| Gui.ApprovedAllPointwise | ver2.0/gui_components.py:336-346 | after the loop a user is approved exactly when a pending row of the selection names them, and no other user changes |
| Gui.ApproveEach | ver2.0/gui_components.py:333-345 | the loop approves exactly the pending rows of the selection in order, and counts them; approved and skipped rows add up to the selection |
| Gui.ApproveTurn | ver2.0/gui_components.py:336-345 | one turn of the loop extends the approvals and the counts from the rows before it to one more row; approved and skipped still add up to the rows seen |
| Gui.ApproveRow | ver2.0/gui_components.py:341-345 | a pending row is approved through `approve_user`, which always succeeds, and counted; any other row is passed over with no change |
| Gui.ApprovedAllSnoc | ver2.0/gui_components.py:336-345 | each further row is approved when pending and passed over otherwise |
| Gui.PendingCountSnoc | ver2.0/gui_components.py:336-345 | one more row adds one to the approved count exactly when it is shown as pending |
| Gui.ApproveSelected | ver2.0/gui_components.py:324-354 | `approve_selected` approves the pending names of the selection and reports how many it approved, or that none was selected or pending |
| Gui.BuyRefusal | ver2.0/gui_components.py:965-975 | buying is refused for a missing item and for one's own item; it proceeds exactly for another user's active item |
| Gui.WantLocksItem | ver2.0/gui_components.py:939-941 | after a want, the item is still found, with its count one higher, and is locked |
| Gui.BuyResult | ver2.0/gui_components.py:957-992 | after the refusals, a bargainable item needs an offer, the user must confirm, and the want is sent unless one exists; the offer is the answer when bargaining is allowed and 0 otherwise, never negative |
| Gui.BuyItem | ver2.0/gui_components.py:957-992 | the handler ends as `BuyResult` decides; only a sent want adds a row and advances the want counter, after which the item is locked; otherwise wants and counter are unchanged |
| Gui.RecordWant | ver2.0/gui_components.py:988-992 | adding the want of an existing item succeeds exactly for a new pair, advancing the counter and locking the item; otherwise nothing changes |
| Gui.SellRefusal | ver2.0/gui_components.py:1002-1019 | confirming a sale is refused for a missing item, for a non-owner and for a sold item; it proceeds exactly when the owner's unsold item has wanters |
| Gui.SellResult | ver2.0/gui_components.py:994-1027 | after the refusals, a chosen and confirmed buyer is the chosen entry of the wanters list |
| Gui.SaleShown | ver2.0/gui_components.py:1021-1025 | after the sale the item is found sold to that buyer, its other fields and count unchanged |
| Gui.ConfirmSale | ver2.0/gui_components.py:994-1027 | the handler ends as `SellResult` decides; only a sale changes the items table, and then the item shows as sold to the buyer |
| Gui.RecordSale | ver2.0/gui_components.py:1021-1025 | recording the sale of an existing item makes it show as sold to that buyer |
| Gui.RegisterRefusal | ver2.0/gui_components.py:49-56 | registration is refused when a stripped field is empty, and when the stripped passwords differ; it proceeds otherwise |
| Gui.DoRegister | ver2.0/gui_components.py:45-70 | after the form checks, registration succeeds exactly when the stripped name is unused, storing the stripped values as a pending user who can then authenticate with the stripped password and advancing the counter; otherwise the users and the counter are unchanged |
| Gui.AdminFormCheck | ver2.0/gui_components.py:107-117 | the admin form is refused when the stripped name or the raw password is empty, and proceeds exactly when both are present and the passwords agree |
| Gui.UnicodeBlankNameRefused | ver2.0/gui_components.py:108-113 | a name made only of an ideographic space and a no-break space strips to nothing and is refused as blank |
| Gui.CheckItemForm | ver2.0/gui_components.py:723-735 | the item form is refused when a common field or the category is empty, and when the stripped price is not a number; otherwise the price is its value |
| Gui.RevisionReplacesAll | ver2.0/gui_components.py:761-771 | an edit sets every editable field from the form and keeps id, category, owner, status and buyer |
| Gui.SaveItem | ver2.0/gui_components.py:719-794 | a rejected form changes nothing; an edit revises the item with every field of the form; a new item is created exactly when the category and user resolve, with the stripped fields, status active and no buyer, and the counter advanced; an unknown category or user raises its error; the item counter moves only when an item is created |
| Gui.SaveChecked | ver2.0/gui_components.py:760-790 | once the checks pass, an edit revises the item with every field of the form and a new item is created exactly when the category and user resolve, else the unknown category or user is raised with nothing changed; the item counter moves only on a create |
| Gui.CreateFromForm | ver2.0/gui_components.py:774-790 | a new item is created exactly when the category and user resolve, with the stripped fields, status active and no buyer, and the counter advanced; otherwise the unknown category, or else the unknown user, is raised and nothing changes |
| Gui.SendMessage | ver2.0/gui_components.py:592-600 | a blank message changes nothing; otherwise the stripped text is appended with the next id, the counters advance and, for a known sender, it shows as the last message of the item's thread |
| Application.LoginOutcomeFor | ver2.0/main.py:72-91 | an unknown name is reported as such; for the existing user a wrong password is reported, and otherwise the outcome follows the user's status (logged in when approved, waiting when pending) |
| Application.ApprovalLetsIn | ver2.0/main.py:72-91 | a user waiting for approval with the right password logs in once approved |
| Application.RegisteredIsPending | ver2.0/main.py:87-88 | a freshly registered user with the right password is told to wait for approval |
| Application.App.constructor | ver2.0/main.py:10-33 | the first view is the create-admin view exactly when no admin exists, and otherwise the login view; nobody is logged in |
| Application.App.AttemptLogin | ver2.0/main.py:72-91 | only an approved user with the right password becomes the current user and reaches the main view; any other outcome leaves the session unchanged |
| Application.App.Logout | ver2.0/main.py:93-98 | logging out clears the current user and shows the login view |
| Application.App.AdminMenuShown | ver2.0/main.py:114-118 | the management menu exists exactly when the current user is an admin |
| Application.App.CreateAdminSubmit | ver2.0/gui_components.py:107-125 | after the form checks the admin is created exactly when the stripped name is unused, with the counter advanced, after which `has_admin` holds and the login view is shown; otherwise the users, the counter and the view are unchanged |
| ItemTable.Item.constructor | ver1.0/items.py:10-31 | a new item holds the given fields and is valid |
| ItemTable.EntriesOf | ver1.0/items.py:25-29 | the observable fields of each item, in list order |
| ItemTable.FirstValid | ver1.0/items.py:137-138 | the position of the first valid item with the id, and None exactly when there is none |
| ItemTable.FirstWithId | ver1.0/items.py:166-176 | the position of the first item with the id, valid or not, and None exactly when there is none |
| ItemTable.AfterRevise | ver1.0/items.py:123-160 | with no valid entry for the id nothing changes; otherwise that entry is invalidated, its revised copy appended, valid and with the same id, and every other entry kept |
| ItemTable.AfterDelete | ver1.0/items.py:166-176 | only the flag may change and only be cleared, only on entries with the id, and the first entry with the id ends invalid |
| ItemTable.AfterDeleteValid | ver1.0/items.py:166-176 | only the flag of a valid entry with the id may be cleared, and the first valid entry with the id ends invalid |
| ItemTable.CreateKeeps | ver1.0/items.py:103-106 | appending an item with id `current_num + 1` keeps one valid entry per id, and its id exceeds every earlier id |
| ItemTable.ReviseKeeps | ver1.0/items.py:123-160 | revising keeps at most one valid entry per id; with no valid entry for the id nothing changes; otherwise the list grows by one revised copy at the end and no earlier entry with the id stays valid |
| ItemTable.ClearKeeps | ver1.0/items.py:166-176 | clearing a valid flag keeps at most one valid entry per id |
| ItemTable.DeleteValidRemovesId | ver1.0/items.py:163-176 | deleting the first valid match hides the id from the valid entries and keeps every other valid entry |
| ItemTable.DeleteAfterReviseKeepsCopy | ver1.0/items.py:166-176 | as written, deleting an id after revising it clears the stale copy again and the revised copy stays valid |
| ItemTable.DeleteValidAfterReviseRemoves | ver1.0/items.py:166-176 | deleting the first valid match after a revision hides the id |
| ItemTable.SavedRows | ver1.0/items.py:234-246 | one saved row per valid entry |
| ItemTable.LoadedEntries | ver1.0/items.py:64-91 | one loaded entry per saved row |
| ItemTable.SaveLoadRoundTrip | ver1.0/items.py:64-91 | loading what `save_and_close` wrote gives back exactly the valid entries, with the counter restored when one exists |
| ItemTable.SaveLoadKeepsConsistent | ver1.0/items.py:64-91 | reopening the workbook of a table with one valid entry per id and ids within the counter gives such a table again |
| ItemTable.ItemTable.constructor | ver1.0/items.py:45-91 | the table starts with the entries and counter of the saved workbook |
| ItemTable.ItemTable.CreateNewItem | ver1.0/items.py:93-106 | the counter grows by one and one valid item with the new counter as id is appended; one valid entry per id is kept |
| ItemTable.ItemTable.ReviseItem | ver1.0/items.py:123-160 | the first valid entry with the id is invalidated and a revised valid copy appended and returned, falsy arguments keeping old values; None and no change when none is valid; the counter is unchanged and one valid entry per id is kept |
| ItemTable.ItemTable.Replace | ver1.0/items.py:138-149 | invalidating the found entry and appending its revised copy |
| ItemTable.ItemTable.Invalidate | ver1.0/items.py:139 | clearing the valid flag of one entry and nothing else |
| ItemTable.ItemTable.DeleteItem | ver1.0/items.py:163-176 | the first entry with the id, valid or not, is invalidated and nothing else changes |
| ItemTable.ItemTable.DeleteValidItem | ver1.0/items.py:163-176 | the first valid entry with the id is invalidated and nothing else changes |
| ItemTable.ItemTable.ScanItems | ver1.0/items.py:212-221 | the loop yields exactly the matching items, valid or not, in list order; an integer looked up in a text field raises on the first item |
| ItemTable.ItemTable.FindItem | ver1.0/items.py:179-226 | as written: None for an unknown field; a text field compared with an integer over a non-empty list raises; otherwise the matching items in order, and a `TypeError` from `display_list(None)` when nothing matches |
| ItemTable.ItemTable.FindItemIntended | ver1.0/items.py:179-226 | with `display_list` testing its argument: the same, except that a search matching nothing returns None |
| ItemTable.ItemTable.GetAllItems | ver1.0/items.py:228-232 | exactly the valid items, in list order, as the very objects of the list |
| ItemTable.ItemTable.SaveAndClose | ver1.0/items.py:234-246 | the saved rows are exactly the valid entries, without their valid flag |
| ItemTable.ValidIn | ver1.0/items.py:232 | the comprehension keeps exactly the valid items, in order |
| ItemTable.ValidInMembers | ver1.0/items.py:232 | the comprehension returns the list's own item objects: every one it returns is in the list and valid, and every valid one is returned |

## Left out

- Widget construction, layout, message boxes and callbacks. The dialogs a handler consults are parameters. `main.py`'s `_switch_view` is abstracted to the `view` field.
- ver1.0/GUI.py is not part of this model. It is widget wiring over `find_item` and `get_all_items`.
- Image handling in `save_item`: copying the chosen files, uuid file names and thumbnails. These are file-system I/O, so the stored image list is a parameter of `Gui.SaveItem`.
- SQLite mechanics: connections, commits, SQL strings, and the JSON encoding of templates, contact data and attribute maps.
- `Queries.SearchItems`: SQL `LIKE` is ASCII case-insensitive and treats `%` and `_` as wildcards. The model uses a plain substring test.
- `PRAGMA foreign_keys` is turned on only on `init_db`'s own connection, so references are not checked. Dangling rows are only dropped by the joins.
- `pbkdf2_hmac` and `os.urandom`. The key derivation is the uninterpreted `kdf`, the salt is an input, and comparison timing is not modelled.
- Prices and offers are `real`. Floating-point rounding is not modelled.
- `Common.ParseNumber` accepts only ASCII decimal numerals with an optional sign and point. Python's `float()` also accepts exponents, `inf`, `nan`, underscores, surrounding whitespace and non-ASCII decimal digits (such as full-width "１２"); those forms are refused here.
- `created_at` is a strictly increasing clock, so two messages never share a timestamp.
- `CategoryManager.get_all` is the categories table itself (`Tables.categories`). `get_pending_users`, `get_all_users` and `MyWantsWindow`/`ReceivedWantsWindow` are plain displays.
- The items table's defaults for `price` (0.0), `can_bargain` (0), `specific_attributes` ('{}') and `image_paths` ('[]') never apply, because `create_item` supplies those columns; the model writes the supplied values. The `status` default 'active' does apply and is `Schema.DefaultItemStatus`. The items' own `created_at` is not modelled, since nothing reads it.
- The `reserved` item status is declared by the schema but produced by no code. No transition to it is modelled.
- The ver1.0 workbook persistence: pandas/Excel reading and writing, append mode, and the `str()` conversions on load. Loading is modelled from the saved rows, and `current_num` is read from the first saved row, or 0 for an empty sheet.
- Logging in ver1.0.
- `ItemTable.ItemTable.FindItem`: the search value is an integer or a string. Other value types, and the `TypeError`s they would raise, are not modelled.
- `display_list`'s log output is not modelled; only its return value and the `TypeError` it raises on `None` are.
- `Application.App.AttemptLogin`: the username and password are passed unstripped, as `LoginView.attempt_login` does. `do_register` stores the stripped password, so a password with surrounding spaces registers under a different string than the one typed at login. The model records both behaviours without reconciling them.

## Findings

| source | as written | input that shows it | evidently intended | confidence | as-written member | corrected member |
|---|---|---|---|---|---|---|
| ver1.0/items.py:166-176 | `delete_item` invalidates the first entry with the id even when that entry is already invalid | create an item, revise it (the original turns invalid and a valid copy is appended), then delete its id: the stale original is hit again and the revised copy stays listed | delete the first valid entry with the id, so a deleted item disappears | not executed | ItemTable.DeleteAfterReviseKeepsCopy (with ItemTable.ItemTable.DeleteItem) | ItemTable.DeleteValidAfterReviseRemoves (with ItemTable.ItemTable.DeleteValidItem) |
| ver1.0/items.py:180-190 | `display_list` tests the builtin `list` against `None` instead of its argument `items`, so the test is always false; `find_item` calls `display_list()` when nothing matches, and the loop then iterates `None` | `find_item('item_name', 'zzz')` on a table where no name contains "zzz", or any search on an empty table, raises `TypeError` | test `items is None`, so a search that matches nothing lists the whole table and returns None | not executed | ItemTable.ItemTable.FindItem | ItemTable.ItemTable.FindItemIntended |
| ver2.0/gui_components.py:934-943 | `open_edit_item_window` reads `owner_username` of the looked-up item before its `if item_to_edit` test, so a missing item raises `AttributeError` | an admin deletes a category while its item is listed; selecting that item and pressing edit finds no item | check the lookup first and report the missing item | not executed | Gui.EditDecisionAsWritten (with Gui.EditAfterCategoryDeleteRaises) | Gui.EditDecision |
