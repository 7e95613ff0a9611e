/**
 * The five SQLite tables of ver2.0/database.py held by one object, with the
 * state-changing operations of ver2.0/models.py as methods. Each table is a
 * sequence of rows in rowid order; every AUTOINCREMENT column is a counter of
 * the next free id; CURRENT_TIMESTAMP on messages is a clock that grows with
 * each insert. The read-only operations are the functions of module Queries,
 * applied to Snapshot().
 */
module Store {
  import opened Common
  import opened Schema
  import opened Queries

  // ---------------------------------------------------------------------
  // Pure descriptions of the table updates
  // ---------------------------------------------------------------------

  /** UPDATE users SET status = 'approved' WHERE username = ? */
  function ApprovedIn(users: seq<UserRow>, username: string): (r: seq<UserRow>)
    ensures |r| == |users|
  {
    seq(|users|, k requires 0 <= k < |users| =>
      if users[k].username == username then users[k].(status := Approved) else users[k])
  }

  /** UPDATE categories SET attributes_template = ? WHERE name = ? */
  function WithTemplate(categories: seq<CategoryRow>, name: string, template: seq<string>): (r: seq<CategoryRow>)
    ensures |r| == |categories|
  {
    seq(|categories|, k requires 0 <= k < |categories| =>
      if categories[k].name == name then categories[k].(template := template) else categories[k])
  }

  /** UPDATE items SET status = 'sold', buyer_id = ? WHERE id = ? */
  function SoldIn(items: seq<ItemRow>, itemId: Id, buyerId: Id): (r: seq<ItemRow>)
    ensures |r| == |items|
  {
    seq(|items|, k requires 0 <= k < |items| =>
      if items[k].id == itemId then items[k].(status := Sold, buyerId := Some(buyerId)) else items[k])
  }

  function OtherName(name: string): CategoryRow -> bool {
    (c: CategoryRow) => c.name != name
  }

  /** DELETE FROM categories WHERE name = ? */
  function CategoriesWithout(categories: seq<CategoryRow>, name: string): (r: seq<CategoryRow>)
    ensures forall c | c in r :: c in categories && c.name != name
    ensures forall c | c in categories && c.name != name :: c in r
  {
    Filter(categories, OtherName(name))
  }

  function Outside(ids: set<Id>): ItemRow -> bool {
    (i: ItemRow) => i.id !in ids
  }

  /** DELETE FROM items WHERE id = ?, once per id of `ids`: the rows left, in order. */
  function Without(items: seq<ItemRow>, ids: set<Id>): (r: seq<ItemRow>)
    ensures forall i | i in r :: i in items && i.id !in ids
    ensures forall i | i in items && i.id !in ids :: i in r
  {
    Filter(items, Outside(ids))
  }

  /**
   * The keys revise_item looks for in its `data` dictionary; an absent key is
   * None. specific_attributes and image_paths are stored as JSON text in the
   * source and as values here.
   */
  datatype ItemUpdate = ItemUpdate(
    name: Option<string>, description: Option<string>, price: Option<real>,
    canBargain: Option<bool>, address: Option<string>, images: Option<seq<string>>,
    attributes: Option<map<string, string>>)

  const NoUpdate := ItemUpdate(None, None, None, None, None, None, None)

  /** The reference meaning of revise_item on one row: present keys replace, absent keys keep. */
  function Revised(row: ItemRow, d: ItemUpdate): (r: ItemRow)
    ensures r.id == row.id && r.categoryId == row.categoryId && r.ownerId == row.ownerId
    ensures r.status == row.status && r.buyerId == row.buyerId
  {
    row.(name := if d.name.Some? then d.name.value else row.name,
         description := if d.description.Some? then d.description.value else row.description,
         price := if d.price.Some? then d.price.value else row.price,
         canBargain := if d.canBargain.Some? then d.canBargain.value else row.canBargain,
         address := if d.address.Some? then d.address.value else row.address,
         images := if d.images.Some? then d.images.value else row.images,
         attributes := if d.attributes.Some? then d.attributes.value else row.attributes)
  }

  function RevisedIn(items: seq<ItemRow>, itemId: Id, d: ItemUpdate): (r: seq<ItemRow>)
    ensures |r| == |items|
  {
    seq(|items|, k requires 0 <= k < |items| =>
      if items[k].id == itemId then Revised(items[k], d) else items[k])
  }

  /** One "column = ?" entry of the SET clause revise_item builds. */
  datatype Assignment =
    | SetName(name: string)
    | SetDescription(description: string)
    | SetPrice(price: real)
    | SetCanBargain(canBargain: bool)
    | SetAddress(address: string)
    | SetImages(images: seq<string>)
    | SetAttributes(attributes: map<string, string>)

  function Assign(row: ItemRow, a: Assignment): ItemRow {
    match a
    case SetName(v) => row.(name := v)
    case SetDescription(v) => row.(description := v)
    case SetPrice(v) => row.(price := v)
    case SetCanBargain(v) => row.(canBargain := v)
    case SetAddress(v) => row.(address := v)
    case SetImages(v) => row.(images := v)
    case SetAttributes(v) => row.(attributes := v)
  }

  /**
   * The `fields` list revise_item builds, one entry appended after another:
   * NoColumns is the empty list and Then(init, a) is `init` with `a` appended.
   */
  datatype Clause = NoColumns | Then(init: Clause, last: Assignment)

  /** Executing a SET clause: its assignments, first to last. */
  function Apply(row: ItemRow, fields: Clause): ItemRow {
    match fields
    case NoColumns => row
    case Then(init, a) => Assign(Apply(row, init), a)
  }

  /** Appends "name = ?" when `data` has that key. */
  function NameEntry(fields: Clause, d: ItemUpdate): Clause {
    if d.name.Some? then Then(fields, SetName(d.name.value)) else fields
  }

  /** Appends "description = ?" when `data` has that key. */
  function DescriptionEntry(fields: Clause, d: ItemUpdate): Clause {
    if d.description.Some? then Then(fields, SetDescription(d.description.value)) else fields
  }

  /** Appends "price = ?" when `data` has that key. */
  function PriceEntry(fields: Clause, d: ItemUpdate): Clause {
    if d.price.Some? then Then(fields, SetPrice(d.price.value)) else fields
  }

  /** Appends "can_bargain = ?" when `data` has that key. */
  function CanBargainEntry(fields: Clause, d: ItemUpdate): Clause {
    if d.canBargain.Some? then Then(fields, SetCanBargain(d.canBargain.value)) else fields
  }

  /** Appends "address = ?" when `data` has that key. */
  function AddressEntry(fields: Clause, d: ItemUpdate): Clause {
    if d.address.Some? then Then(fields, SetAddress(d.address.value)) else fields
  }

  /** Appends "image_paths = ?" when `data` has that key. */
  function ImagesEntry(fields: Clause, d: ItemUpdate): Clause {
    if d.images.Some? then Then(fields, SetImages(d.images.value)) else fields
  }

  /** Appends "specific_attributes = ?" when `data` has that key. */
  function AttributesEntry(fields: Clause, d: ItemUpdate): Clause {
    if d.attributes.Some? then Then(fields, SetAttributes(d.attributes.value)) else fields
  }

  /** The SET clause for `d`, in the order revise_item tests the keys. */
  function Assignments(d: ItemUpdate): Clause {
    var c := NameEntry(NoColumns, d);
    var c := DescriptionEntry(c, d);
    var c := PriceEntry(c, d);
    var c := CanBargainEntry(c, d);
    var c := AddressEntry(c, d);
    var c := ImagesEntry(c, d);
    AttributesEntry(c, d)
  }

  // Appending one key's entry to any clause.

  lemma NameStep(row: ItemRow, c: Clause, d: ItemUpdate)
    ensures Apply(row, NameEntry(c, d)) == if d.name.Some? then Apply(row, c).(name := d.name.value) else Apply(row, c)
  {
  }

  lemma DescriptionStep(row: ItemRow, c: Clause, d: ItemUpdate)
    ensures Apply(row, DescriptionEntry(c, d)) == if d.description.Some? then Apply(row, c).(description := d.description.value) else Apply(row, c)
  {
  }

  lemma PriceStep(row: ItemRow, c: Clause, d: ItemUpdate)
    ensures Apply(row, PriceEntry(c, d)) == if d.price.Some? then Apply(row, c).(price := d.price.value) else Apply(row, c)
  {
  }

  lemma CanBargainStep(row: ItemRow, c: Clause, d: ItemUpdate)
    ensures Apply(row, CanBargainEntry(c, d)) == if d.canBargain.Some? then Apply(row, c).(canBargain := d.canBargain.value) else Apply(row, c)
  {
  }

  lemma AddressStep(row: ItemRow, c: Clause, d: ItemUpdate)
    ensures Apply(row, AddressEntry(c, d)) == if d.address.Some? then Apply(row, c).(address := d.address.value) else Apply(row, c)
  {
  }

  lemma ImagesStep(row: ItemRow, c: Clause, d: ItemUpdate)
    ensures Apply(row, ImagesEntry(c, d)) == if d.images.Some? then Apply(row, c).(images := d.images.value) else Apply(row, c)
  {
  }

  lemma AttributesStep(row: ItemRow, c: Clause, d: ItemUpdate)
    ensures Apply(row, AttributesEntry(c, d)) == if d.attributes.Some? then Apply(row, c).(attributes := d.attributes.value) else Apply(row, c)
  {
  }

  /** The SET clause built key by key updates exactly the present keys. */
  lemma ApplyAssignments(row: ItemRow, d: ItemUpdate)
    ensures Apply(row, Assignments(d)) == Revised(row, d)
  {
    var c1 := NameEntry(NoColumns, d);
    var c2 := DescriptionEntry(c1, d);
    var c3 := PriceEntry(c2, d);
    var c4 := CanBargainEntry(c3, d);
    var c5 := AddressEntry(c4, d);
    var c6 := ImagesEntry(c5, d);
    NameStep(row, NoColumns, d);
    DescriptionStep(row, c1, d);
    PriceStep(row, c2, d);
    CanBargainStep(row, c3, d);
    AddressStep(row, c4, d);
    ImagesStep(row, c5, d);
    AttributesStep(row, c6, d);
    var r1 := if d.name.Some? then row.(name := d.name.value) else row;
    var r2 := if d.description.Some? then r1.(description := d.description.value) else r1;
    var r3 := if d.price.Some? then r2.(price := d.price.value) else r2;
    var r4 := if d.canBargain.Some? then r3.(canBargain := d.canBargain.value) else r3;
    var r5 := if d.address.Some? then r4.(address := d.address.value) else r4;
    var r6 := if d.images.Some? then r5.(images := d.images.value) else r5;
    assert Revised(row, d) == if d.attributes.Some? then r6.(attributes := d.attributes.value) else r6;
  }

  /** "if fields:" — an update with no keys issues no statement, and is a no-op. */
  lemma NoKeysNoChange(items: seq<ItemRow>, itemId: Id, d: ItemUpdate)
    ensures Assignments(d) == NoColumns <==> d == NoUpdate
    ensures d == NoUpdate ==> RevisedIn(items, itemId, d) == items
  {
  }

  /** A revision only touches the rows with that id, and leaves their keys and state alone. */
  lemma RevisedInFrame(items: seq<ItemRow>, itemId: Id, d: ItemUpdate)
    ensures forall k | 0 <= k < |items| && items[k].id != itemId :: RevisedIn(items, itemId, d)[k] == items[k]
    ensures forall k | 0 <= k < |items| :: RevisedIn(items, itemId, d)[k].id == items[k].id
    ensures forall k | 0 <= k < |items| && items[k].id == itemId && d.name.Some? ::
              RevisedIn(items, itemId, d)[k].name == d.name.value
  {
  }

  // ---------------------------------------------------------------------
  // The store
  // ---------------------------------------------------------------------

  /** The error create_item raises (ValueError). */
  datatype CreateItemError = CategoryNotFound(category: string) | UserNotFound(username: string)

  const RegisterOk := "注册成功，请等待管理员审核"
  const UsernameTaken := "用户名已存在"
  const AdminCreated := "管理员创建成功"
  /** str(e) of the IntegrityError raised by the UNIQUE constraint on users.username. */
  const UsernameUniqueFailed := "UNIQUE constraint failed: users.username"

  class Store {
    /** PBKDF2-HMAC-SHA256 with 100000 rounds, left uninterpreted. */
    const kdf: Kdf

    var users: seq<UserRow>
    var categories: seq<CategoryRow>
    var items: seq<ItemRow>
    var wants: seq<WantRow>
    var messages: seq<MessageRow>

    var nextUserId: Id
    var nextCategoryId: Id
    var nextItemId: Id
    var nextWantId: Id
    var nextMessageId: Id
    /** CURRENT_TIMESTAMP, as a counter that every message insert advances. */
    var clock: nat

    function Snapshot(): Tables
      reads this
    {
      Tables(users, categories, items, wants, messages)
    }

    /**
     * The schema constraints, AUTOINCREMENT ids below their counters, creation
     * times below the clock, and what the operations keep true of items: no
     * code produces 'reserved', an item is sold exactly when it has a buyer,
     * and every item's owner resolves (users are never deleted).
     */
    ghost predicate Valid()
      reads this
    {
      && Constrained(Snapshot())
      && (forall u | u in users :: u.id < nextUserId)
      && (forall c | c in categories :: c.id < nextCategoryId)
      && (forall i | i in items :: i.id < nextItemId)
      && (forall w | w in wants :: w.id < nextWantId)
      && (forall m | m in messages :: m.id < nextMessageId && m.createdAt < clock)
      && (forall i | i in items :: i.status != Reserved && (i.status == Sold <==> i.buyerId.Some?))
      && (forall i | i in items :: UserById(users, i.ownerId).Some?)
    }

    /** A fresh database file: init_db creates the empty tables and seeds the categories. */
    constructor (kdf: Kdf)
      ensures Valid()
      ensures this.kdf == kdf
      ensures users == [] && items == [] && wants == [] && messages == []
      ensures categories == SeedRows(1)
    {
      this.kdf := kdf;
      users, categories, items, wants, messages := [], [], [], [], [];
      nextUserId, nextCategoryId, nextItemId, nextWantId, nextMessageId := 1, 1, 1, 1, 1;
      clock := 0;
      new;
      InitDb();
    }

    /**
     * init_db's seeding: only when the categories table is empty, insert the
     * four default categories in order. On a non-empty table nothing changes,
     * so running it again adds nothing.
     */
    method InitDb()
      requires Valid()
      modifies this`categories, this`nextCategoryId
      ensures Valid()
      ensures old(categories) == [] ==>
                categories == SeedRows(old(nextCategoryId)) && nextCategoryId == old(nextCategoryId) + 4
      ensures old(categories) != [] ==> categories == old(categories) && nextCategoryId == old(nextCategoryId)
    {
      if |categories| == 0 {
        var first := nextCategoryId;
        var k := 0;
        while k < |DefaultCategories|
          invariant 0 <= k <= |DefaultCategories|
          invariant nextCategoryId == first + k
          invariant categories == SeedRows(first)[..k]
        {
          var (name, attrs) := DefaultCategories[k];
          categories := categories + [CategoryRow(nextCategoryId, name, attrs)];
          nextCategoryId := nextCategoryId + 1;
          k := k + 1;
        }
        assert categories == SeedRows(first);
        SeedRowsConstrained(first);
      }
    }

    // ---------------- UserManager ----------------

    /**
     * register: a new username gets a pending, non-admin row whose hash is the
     * KDF of the password under the given salt; a taken username is refused and
     * the table is unchanged.
     */
    method Register(username: string, password: string, salt: Bytes, contact: Contact)
      returns (ok: bool, msg: string)
      requires Valid()
      modifies this`users, this`nextUserId
      ensures Valid()
      ensures ok <==> old(UserByName(users, username)).None?
      ensures ok ==> msg == RegisterOk && nextUserId == old(nextUserId) + 1
      ensures ok ==> users == old(users) + [UserRow(old(nextUserId), username, kdf(password, salt), salt,
                                                    RegularUser, Pending, contact)]
      ensures !ok ==> msg == UsernameTaken && users == old(users) && nextUserId == old(nextUserId)
      ensures ok ==> Authenticate(Snapshot(), kdf, username, password)
                       == Some(User(old(nextUserId), username, RegularUser, Pending, contact))
    {
      if UserByName(users, username).Some? {
        return false, UsernameTaken;
      }
      var row := UserRow(nextUserId, username, kdf(password, salt), salt, RegularUser, Pending, contact);
      InsertUser(row);
      ok, msg := true, RegisterOk;
    }

    /** register_user: register with the three contact fields; a refusal is raised as ValueError(msg). */
    method RegisterUser(username: string, password: string, salt: Bytes,
                        address: string, phone: string, email: string)
      returns (error: Option<string>)
      requires Valid()
      modifies this`users, this`nextUserId
      ensures Valid()
      ensures error.None? <==> old(UserByName(users, username)).None?
      ensures error.Some? ==> error.value == UsernameTaken && users == old(users) && nextUserId == old(nextUserId)
      ensures error.None? ==> nextUserId == old(nextUserId) + 1
      ensures error.None? ==> users == old(users) + [UserRow(old(nextUserId), username, kdf(password, salt), salt,
                                RegularUser, Pending, map["address" := address, "phone" := phone, "email" := email])]
      ensures error.None? ==> Authenticate(Snapshot(), kdf, username, password)
                                == Some(User(old(nextUserId), username, RegularUser, Pending,
                                             map["address" := address, "phone" := phone, "email" := email]))
    {
      var ok, msg := Register(username, password, salt,
                              map["address" := address, "phone" := phone, "email" := email]);
      error := if ok then None else Some(msg);
    }

    /**
     * create_admin: an approved admin with the fixed "System" contact; a taken
     * username fails with the database's message. On success has_admin holds.
     */
    method CreateAdmin(username: string, password: string, salt: Bytes) returns (ok: bool, msg: string)
      requires Valid()
      modifies this`users, this`nextUserId
      ensures Valid()
      ensures ok <==> old(UserByName(users, username)).None?
      ensures ok ==> msg == AdminCreated && nextUserId == old(nextUserId) + 1
      ensures ok ==> users == old(users) + [UserRow(old(nextUserId), username, kdf(password, salt), salt,
                                                    Admin, Approved, AdminContact)]
      ensures !ok ==> msg == UsernameUniqueFailed && users == old(users) && nextUserId == old(nextUserId)
      ensures ok ==> HasAdmin(Snapshot())
    {
      if UserByName(users, username).Some? {
        return false, UsernameUniqueFailed;
      }
      var row := UserRow(nextUserId, username, kdf(password, salt), salt, Admin, Approved, AdminContact);
      InsertUser(row);
      assert row in users;
      ok, msg := true, AdminCreated;
    }

    /** The INSERT shared by register and create_admin, for a username not yet taken. */
    method InsertUser(row: UserRow)
      requires Valid()
      requires UserByName(users, row.username).None? && row.id == nextUserId
      modifies this`users, this`nextUserId
      ensures Valid()
      ensures users == old(users) + [row] && nextUserId == old(nextUserId) + 1
      ensures forall pw :: kdf(pw, row.salt) == row.passwordHash ==>
                Authenticate(Snapshot(), kdf, row.username, pw) == Some(UserOf(row))
    {
      UsersAppend(users, row);
      forall i | i in items ensures UserById(users + [row], i.ownerId).Some? {
        FirstAppend(users, row, (u: UserRow) => u.id == i.ownerId);
      }
      users := users + [row];
      nextUserId := nextUserId + 1;
      assert row in users;
      UsersKeyed(users);
    }

    /** approve_user: the named user becomes approved (nothing else changes); always True. */
    method ApproveUser(username: string) returns (ok: bool)
      requires Valid()
      modifies this`users
      ensures Valid()
      ensures ok
      ensures users == ApprovedIn(old(users), username)
    {
      var r := ApprovedIn(users, username);
      forall i | i in items ensures UserById(r, i.ownerId).Some? {
        ApprovedKeepsIds(users, username, i.ownerId);
      }
      users := r;
      ok := true;
    }

    // ---------------- CategoryManager ----------------

    /** add_category: False and no change when the name exists; otherwise one new row. */
    method AddCategory(name: string, template: seq<string>) returns (ok: bool)
      requires Valid()
      modifies this`categories, this`nextCategoryId
      ensures Valid()
      ensures ok <==> old(CategoryByName(categories, name)).None?
      ensures ok ==> categories == old(categories) + [CategoryRow(old(nextCategoryId), name, template)]
                     && nextCategoryId == old(nextCategoryId) + 1
      ensures !ok ==> categories == old(categories) && nextCategoryId == old(nextCategoryId)
    {
      if CategoryByName(categories, name).Some? {
        return false;
      }
      var row := CategoryRow(nextCategoryId, name, template);
      CategoriesAppend(categories, row);
      categories := categories + [row];
      nextCategoryId := nextCategoryId + 1;
      ok := true;
    }

    /** update_category: replaces the template of the category with that name. */
    method UpdateCategory(name: string, template: seq<string>)
      requires Valid()
      modifies this`categories
      ensures Valid()
      ensures categories == WithTemplate(old(categories), name, template)
    {
      categories := WithTemplate(categories, name, template);
    }

    /** delete_category: removes the row; items that referenced it are left in place. */
    method DeleteCategory(name: string)
      requires Valid()
      modifies this`categories
      ensures Valid()
      ensures categories == CategoriesWithout(old(categories), name)
      ensures items == old(items)
    {
      FilterPairwise(categories, OtherName(name),
                     (a: CategoryRow, b: CategoryRow) => a.id < b.id && a.name != b.name);
      categories := CategoriesWithout(categories, name);
    }

    // ---------------- ItemManager ----------------

    /**
     * create_item: resolves the category by name, then the owner by username,
     * raising when either is missing (nothing is inserted); otherwise appends one
     * active item with no buyer. The phone and email arguments are not stored.
     */
    method CreateItem(name: string, description: string, price: real, canBargain: bool,
                      address: string, phone: string, email: string, category: string,
                      ownerUsername: string, attributes: map<string, string>,
                      images: Option<seq<string>>)
      returns (error: Option<CreateItemError>)
      requires Valid()
      modifies this`items, this`nextItemId
      ensures Valid()
      ensures old(CategoryByName(categories, category)).None? ==>
                error == Some(CategoryNotFound(category)) && items == old(items)
      ensures old(CategoryByName(categories, category)).Some? && old(UserByName(users, ownerUsername)).None? ==>
                error == Some(UserNotFound(ownerUsername)) && items == old(items)
      ensures error.Some? ==> items == old(items) && nextItemId == old(nextItemId)
      ensures error.None? <==>
                old(CategoryByName(categories, category)).Some? && old(UserByName(users, ownerUsername)).Some?
      ensures error.None? ==>
                items == old(items) + [ItemRow(old(nextItemId), name, description,
                                               CategoryByName(categories, category).value.id,
                                               UserByName(users, ownerUsername).value.id,
                                               None, DefaultItemStatus, price, canBargain, address,
                                               attributes, if images.Some? then images.value else [])]
                && nextItemId == old(nextItemId) + 1
    {
      var cat := CategoryByName(categories, category);
      if cat.None? {
        return Some(CategoryNotFound(category));
      }
      var owner := UserByName(users, ownerUsername);
      if owner.None? {
        return Some(UserNotFound(ownerUsername));
      }
      var imagePaths := if images.None? then [] else images.value;
      var row := ItemRow(nextItemId, name, description, cat.value.id, owner.value.id,
                         None, DefaultItemStatus, price, canBargain, address, attributes, imagePaths);
      InsertItem(row, owner.value);
      error := None;
    }

    /** The INSERT of create_item, for a row whose owner has been resolved. */
    method InsertItem(row: ItemRow, owner: UserRow)
      requires Valid()
      requires row.id == nextItemId && owner in users && owner.id == row.ownerId
      requires row.status == Active && row.buyerId.None?
      modifies this`items, this`nextItemId
      ensures Valid()
      ensures items == old(items) + [row] && nextItemId == old(nextItemId) + 1
    {
      UsersKeyed(users);
      ItemsAppend(items, row);
      items := items + [row];
      nextItemId := nextItemId + 1;
    }

    /** delete_item: removes the rows with that id; wants and messages stay. */
    method DeleteItem(itemId: Id)
      requires Valid()
      modifies this`items
      ensures Valid()
      ensures items == Without(old(items), {itemId})
    {
      FilterPairwise(items, Outside({itemId}), (a: ItemRow, b: ItemRow) => a.id < b.id);
      items := Without(items, {itemId});
    }

    /**
     * revise_item: builds the SET clause from the keys present in `data`, then
     * applies it to the item; with no keys no statement runs.
     */
    method ReviseItem(itemId: Id, data: ItemUpdate)
      requires Valid()
      modifies this`items
      ensures Valid()
      ensures items == RevisedIn(old(items), itemId, data)
    {
      var fields := SetClause(data);
      if fields != NoColumns {
        var rows := items;
        var updated := seq(|rows|, k requires 0 <= k < |rows| =>
          if rows[k].id == itemId then Apply(rows[k], fields) else rows[k]);
        forall k | 0 <= k < |rows| ensures updated[k] == RevisedIn(rows, itemId, data)[k] {
          ApplyAssignments(rows[k], data);
        }
        assert updated == RevisedIn(rows, itemId, data);
        RevisedPreserves(items, itemId, data);
        items := updated;
      } else {
        NoKeysNoChange(items, itemId, data);
      }
    }

    /** The column assignments revise_item collects, one key test after another. */
    static method SetClause(data: ItemUpdate) returns (fields: Clause)
      ensures fields == Assignments(data)
    {
      fields := NoColumns;
      if data.name.Some? { fields := Then(fields, SetName(data.name.value)); }
      if data.description.Some? { fields := Then(fields, SetDescription(data.description.value)); }
      if data.price.Some? { fields := Then(fields, SetPrice(data.price.value)); }
      if data.canBargain.Some? { fields := Then(fields, SetCanBargain(data.canBargain.value)); }
      if data.address.Some? { fields := Then(fields, SetAddress(data.address.value)); }
      if data.images.Some? { fields := Then(fields, SetImages(data.images.value)); }
      if data.attributes.Some? { fields := Then(fields, SetAttributes(data.attributes.value)); }
    }

    /**
     * add_want: records the (user, item) intent with its offer and returns True,
     * or returns False and changes nothing when that pair is already recorded.
     */
    method AddWant(itemId: Id, userId: Id, offer: real) returns (ok: bool)
      requires Valid()
      modifies this`wants, this`nextWantId
      ensures Valid()
      ensures ok <==> !old(HasWant(wants, userId, itemId))
      ensures ok ==> wants == old(wants) + [WantRow(old(nextWantId), userId, itemId, offer)]
                     && nextWantId == old(nextWantId) + 1
      ensures !ok ==> wants == old(wants) && nextWantId == old(nextWantId)
      ensures ok ==> WantCount(wants, itemId) == old(WantCount(wants, itemId)) + 1
    {
      if HasWant(wants, userId, itemId) {
        return false;
      }
      var row := WantRow(nextWantId, userId, itemId, offer);
      WantCountAppend(wants, row, itemId);
      InsertWant(row);
      ok := true;
    }

    /** The INSERT of add_want, for a (user, item) pair not yet recorded. */
    method InsertWant(row: WantRow)
      requires Valid()
      requires row.id == nextWantId && !HasWant(wants, row.userId, row.itemId)
      modifies this`wants, this`nextWantId
      ensures Valid()
      ensures wants == old(wants) + [row] && nextWantId == old(nextWantId) + 1
    {
      WantsAppend(wants, row);
      wants := wants + [row];
      nextWantId := nextWantId + 1;
    }

    /** confirm_sold: the item becomes sold with that buyer, whatever its status was. */
    method ConfirmSold(itemId: Id, buyerId: Id)
      requires Valid()
      modifies this`items
      ensures Valid()
      ensures items == SoldIn(old(items), itemId, buyerId)
    {
      items := SoldIn(items, itemId, buyerId);
    }

    /** add_message: appends a message stamped with the current time. */
    method AddMessage(itemId: Id, senderId: Id, content: string, replyTo: Option<Id>)
      requires Valid()
      modifies this`messages, this`nextMessageId, this`clock
      ensures Valid()
      ensures messages == old(messages) + [MessageRow(old(nextMessageId), itemId, senderId, content, replyTo, old(clock))]
      ensures nextMessageId == old(nextMessageId) + 1
      ensures clock > old(clock)
    {
      var row := MessageRow(nextMessageId, itemId, senderId, content, replyTo, clock);
      MessagesAppend(messages, row);
      messages := messages + [row];
      nextMessageId := nextMessageId + 1;
      clock := clock + 1;
    }

    /**
     * _fetch_items: walks the joined rows in table order and collects those the
     * WHERE clause selects.
     */
    method FetchItems(w: Where) returns (r: seq<ItemView>)
      ensures r == Fetch(Snapshot(), items, w)
    {
      var t := Snapshot();
      r := [];
      var i := 0;
      while i < |items|
        invariant 0 <= i <= |items|
        invariant r == Fetch(t, items[..i], w)
      {
        assert items[..i + 1][..i] == items[..i];
        if Selected(t, items[i], w) {
          r := r + [ViewOf(t, items[i])];
        }
        i := i + 1;
      }
      assert items[..|items|] == items;
    }
  }

  /** The contact create_admin stores. */
  const AdminContact: Contact := map["address" := "System", "phone" := "", "email" := ""]

  // ---------------------------------------------------------------------
  // Lemmas about the updates
  // ---------------------------------------------------------------------

  /** The seed rows satisfy the categories constraints (distinct names, ascending ids). */
  lemma SeedRowsConstrained(first: Id)
    ensures CategoriesConstrained(SeedRows(first))
    ensures |SeedRows(first)| == 4
    ensures forall k | 0 <= k < 4 :: |SeedRows(first)[k].template| == 4
  {
    var r := SeedRows(first);
    assert r[0].name == "书籍" && r[1].name == "电子产品" && r[2].name == "食品" && r[3].name == "服装";
  }

  lemma ApprovedKeepsIds(users: seq<UserRow>, username: string, id: Id)
    requires UserById(users, id).Some?
    ensures UserById(ApprovedIn(users, username), id).Some?
  {
    var u := UserById(users, id).value;
    var k :| 0 <= k < |users| && users[k] == u;
    var r := ApprovedIn(users, username);
    assert r[k].id == id && r[k] in r;
  }

  lemma RevisedPreserves(items: seq<ItemRow>, itemId: Id, d: ItemUpdate)
    requires ItemsConstrained(items)
    ensures ItemsConstrained(RevisedIn(items, itemId, d))
  {
  }

  /** want_count of the item grows by one exactly when the new row names it. */
  lemma WantCountAppend(wants: seq<WantRow>, w: WantRow, itemId: Id)
    ensures WantCount(wants + [w], itemId) == WantCount(wants, itemId) + (if w.itemId == itemId then 1 else 0)
  {
    assert (wants + [w])[..|wants|] == wants;
  }

  /** With increasing ids, two item rows holding the same id are the same row. */
  lemma ItemRowKeyed(items: seq<ItemRow>, row: ItemRow, other: ItemRow)
    requires ItemsConstrained(items) && row in items && other in items && other.id == row.id
    ensures other == row
  {
    var i :| 0 <= i < |items| && items[i] == row;
    var j :| 0 <= j < |items| && items[j] == other;
    if i < j {
      assert false;
    } else if j < i {
      assert false;
    }
  }

  /** Deleting no id deletes nothing. */
  lemma {:induction false} WithoutNothing(items: seq<ItemRow>)
    ensures Without(items, {}) == items
    decreases |items|
  {
    if items != [] {
      WithoutNothing(items[..|items| - 1]);
    }
  }

  /** Deleting the ids of `b` after those of `a` leaves what deleting both at once leaves. */
  lemma {:induction false} WithoutUnion(items: seq<ItemRow>, a: set<Id>, b: set<Id>)
    ensures Without(Without(items, a), b) == Without(items, a + b)
    decreases |items|
  {
    if items != [] {
      var front, last := items[..|items| - 1], items[|items| - 1];
      WithoutUnion(front, a, b);
      assert Without(items, a) == Without(front, a) + (if last.id !in a then [last] else []);
      assert Without(items, a + b) == Without(front, a + b) + (if last.id !in a + b then [last] else []);
      if last.id !in a {
        FilterSnoc(Without(front, a), last, Outside(b));
        assert Outside(b)(last) == (last.id !in b);
      } else {
        assert Without(items, a) == Without(front, a);
      }
    }
  }

  /**
   * An item lookup after deleting `ids`: a deleted id is no longer found, any
   * other id is found exactly as before (the joins do not read the items table).
   */
  lemma FindAfterWithout(t: Tables, ids: set<Id>, id: Id)
    requires ItemsConstrained(t.items)
    ensures id in ids ==> FindItemById(t.(items := Without(t.items, ids)), id).None?
    ensures id !in ids ==> FindItemById(t.(items := Without(t.items, ids)), id) == FindItemById(t, id)
  {
    var t' := t.(items := Without(t.items, ids));
    var before, after := FindItemById(t, id), FindItemById(t', id);
    if id !in ids {
      if before.Some? {
        var row := before.value.row;
        assert row in t'.items && Joined(t', row).Some?;
        var row' := after.value.row;
        ItemRowKeyed(t.items, row, row');
      }
    }
  }

  /** update_category keeps every id and name, so it keeps the constraints. */
  lemma WithTemplateConstrained(categories: seq<CategoryRow>, name: string, template: seq<string>)
    requires CategoriesConstrained(categories)
    ensures CategoriesConstrained(WithTemplate(categories, name, template))
  {
    var cs := WithTemplate(categories, name, template);
    assert forall k | 0 <= k < |cs| :: cs[k].id == categories[k].id && cs[k].name == categories[k].name;
  }

  /** update_category: the named category now has the new template. */
  lemma TemplateAfterUpdate(t: Tables, name: string, template: seq<string>)
    requires CategoriesConstrained(t.categories)
    requires CategoryByName(t.categories, name).Some?
    ensures GetAttributesForCategory(t.(categories := WithTemplate(t.categories, name, template)), name) == template
  {
    var cs := WithTemplate(t.categories, name, template);
    WithTemplateConstrained(t.categories, name, template);
    var c := CategoryByName(t.categories, name).value;
    var k :| 0 <= k < |t.categories| && t.categories[k] == c;
    assert cs[k] in cs && cs[k].name == name && cs[k].template == template;
  }

  /** update_category replaces no other category's template. */
  lemma TemplateOthersKept(t: Tables, name: string, template: seq<string>, other: string)
    requires CategoriesConstrained(t.categories) && other != name
    ensures GetAttributesForCategory(t.(categories := WithTemplate(t.categories, name, template)), other)
            == GetAttributesForCategory(t, other)
  {
    var cs := WithTemplate(t.categories, name, template);
    WithTemplateConstrained(t.categories, name, template);
    if o :| o in t.categories && o.name == other {
      var j :| 0 <= j < |t.categories| && t.categories[j] == o;
      assert cs[j] == o && cs[j] in cs;
    } else {
      forall o | o in cs ensures o.name != other {
        var j :| 0 <= j < |cs| && cs[j] == o;
        assert t.categories[j] in t.categories;
      }
    }
  }

  /** add_category: a new name finds the template it was added with. */
  lemma TemplateAfterAdd(t: Tables, row: CategoryRow)
    requires CategoriesConstrained(t.categories + [row])
    ensures GetAttributesForCategory(t.(categories := t.categories + [row]), row.name) == row.template
  {
    assert row in t.categories + [row];
  }

  /** approve_user: the user with that name, if any, is now approved; nothing else about it changes. */
  lemma ApprovedUser(t: Tables, username: string)
    requires UsersConstrained(t.users)
    ensures UsersConstrained(ApprovedIn(t.users, username))
    ensures GetUser(t, username).Some? ==>
              GetUser(t.(users := ApprovedIn(t.users, username)), username)
              == Some(GetUser(t, username).value.(status := Approved))
    ensures GetUser(t, username).None? ==> ApprovedIn(t.users, username) == t.users
  {
    var r := ApprovedIn(t.users, username);
    ApprovedConstrained(t.users, username);
    if GetUser(t, username).Some? {
      var u := UserByName(t.users, username).value;
      var k :| 0 <= k < |t.users| && t.users[k] == u;
      assert r[k] == u.(status := Approved) && r[k] in r;
      UsersKeyed(r);
    }
  }

  /** approve_user keeps every id and username, so it keeps the constraints. */
  lemma ApprovedConstrained(users: seq<UserRow>, username: string)
    requires UsersConstrained(users)
    ensures UsersConstrained(ApprovedIn(users, username))
  {
    var r := ApprovedIn(users, username);
    assert forall k | 0 <= k < |r| :: r[k].id == users[k].id && r[k].username == users[k].username;
  }

  /** Approving twice is approving once. */
  lemma ApproveIdempotent(users: seq<UserRow>, username: string)
    ensures ApprovedIn(ApprovedIn(users, username), username) == ApprovedIn(users, username)
  {
  }

  /** A sold row stays sold under every update the store performs on items. */
  lemma SoldIsFinal(items: seq<ItemRow>, itemId: Id, buyerId: Id, d: ItemUpdate, ids: set<Id>)
    ensures forall k | 0 <= k < |items| && items[k].status == Sold :: RevisedIn(items, itemId, d)[k].status == Sold
    ensures forall k | 0 <= k < |items| && items[k].status == Sold :: SoldIn(items, itemId, buyerId)[k].status == Sold
    ensures forall row | row in Without(items, ids) && row.status == Sold :: row in items
  {
  }

  /** confirm_sold: every row with that id is sold to the buyer; every other row is untouched. */
  lemma SoldInEffect(items: seq<ItemRow>, itemId: Id, buyerId: Id)
    ensures forall k | 0 <= k < |items| && items[k].id == itemId ::
              SoldIn(items, itemId, buyerId)[k].status == Sold && SoldIn(items, itemId, buyerId)[k].buyerId == Some(buyerId)
    ensures forall k | 0 <= k < |items| && items[k].id != itemId :: SoldIn(items, itemId, buyerId)[k] == items[k]
    ensures forall k | 0 <= k < |items| :: SoldIn(items, itemId, buyerId)[k].id == items[k].id
  {
  }

  /** add_want: the new row's user, when it resolves, is among the item's wanters. */
  lemma WantersAfterAdd(t: Tables, w: WantRow)
    requires UserById(t.users, w.userId).Some?
    ensures UserOf(UserById(t.users, w.userId).value) in GetItemWanters(t.(wants := t.wants + [w]), w.itemId)
  {
    var ws := t.wants + [w];
    assert w in ws;
    assert w in Filter(ws, (x: WantRow) => x.itemId == w.itemId);
  }

  /** add_message: the new message joins the end of its item's thread; other threads are unchanged. */
  lemma ThreadAfterAdd(t: Tables, m: MessageRow)
    requires SenderKnown(t, m)
    ensures GetMessages(t.(messages := t.messages + [m]), m.itemId) == GetMessages(t, m.itemId) + [MessageOf(t, m)]
    ensures forall other | other != m.itemId ::
              GetMessages(t.(messages := t.messages + [m]), other) == GetMessages(t, other)
  {
    var t' := t.(messages := t.messages + [m]);
    assert (t.messages + [m])[..|t.messages|] == t.messages;
    ThreadSameUsers(t, t', t.messages, m.itemId);
    forall other | other != m.itemId ensures GetMessages(t', other) == GetMessages(t, other) {
      ThreadSameUsers(t, t', t.messages, other);
    }
  }

  /** A thread depends on the users table and the rows it is given, not on the messages table. */
  lemma {:induction false} ThreadSameUsers(t: Tables, t': Tables, ms: seq<MessageRow>, itemId: Id)
    requires t'.users == t.users
    ensures Thread(t', ms, itemId) == Thread(t, ms, itemId)
    decreases |ms|
  {
    if ms != [] {
      ThreadSameUsers(t, t', ms[..|ms| - 1], itemId);
    }
  }

  /**
   * delete_category leaves the items in place, but none of them is returned by
   * a query any longer once the category they reference is gone.
   */
  lemma DeleteCategoryHidesItems(t: Tables, name: string)
    requires CategoriesConstrained(t.categories)
    ensures forall v | v in GetAllItems(t.(categories := CategoriesWithout(t.categories, name))) ::
              CategoryById(t.categories, v.row.categoryId).value.name != name
    ensures forall row | row in t.items && CategoryById(t.categories, row.categoryId).Some?
                         && CategoryById(t.categories, row.categoryId).value.name == name ::
              Joined(t.(categories := CategoriesWithout(t.categories, name)), row).None?
  {
    var cs := CategoriesWithout(t.categories, name);
    var t' := t.(categories := cs);
    forall row | row in t.items && CategoryById(t.categories, row.categoryId).Some?
                 && CategoryById(t.categories, row.categoryId).value.name == name
      ensures Joined(t', row).None?
    {
      var c := CategoryById(t.categories, row.categoryId).value;
      if CategoryById(cs, row.categoryId).Some? {
        var c' := CategoryById(cs, row.categoryId).value;
        CategoryRowKeyed(t.categories, c, c');
      }
    }
    forall v | v in GetAllItems(t') ensures CategoryById(t.categories, v.row.categoryId).value.name != name {
      var c' := CategoryById(cs, v.row.categoryId).value;
      assert c' in t.categories;
      CategoriesKeyed(t.categories);
    }
  }
}
