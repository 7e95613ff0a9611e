/**
 * The relational schema of ver2.0/database.py: one datatype per table row, the
 * five tables together, the CHECK/UNIQUE constraints and the seed categories.
 * The CHECK constraints on role, user status and item status are carried by the
 * enumeration datatypes, so no row can hold a value outside those domains.
 */
module Schema {
  import opened Common

  type Id = nat
  type Bytes = seq<bv8>

  /**
   * The password key-derivation function (PBKDF2-HMAC-SHA256 over the UTF-8
   * password with 100000 rounds), left uninterpreted: password and salt to hash.
   */
  type Kdf = (string, Bytes) -> Bytes

  /** users.role: 'admin' or 'user'. */
  datatype Role = Admin | RegularUser

  /** users.status: 'pending' or 'approved'. */
  datatype UserStatus = Pending | Approved

  /** items.status: 'active', 'reserved' or 'sold'. */
  datatype ItemStatus = Active | Reserved | Sold

  /** users.contact_info, a JSON object of strings. */
  type Contact = map<string, string>

  /** Python's contact.get(key, ''). */
  function ContactField(c: Contact, key: string): string {
    if key in c then c[key] else ""
  }

  datatype UserRow = UserRow(
    id: Id, username: string, passwordHash: Bytes, salt: Bytes,
    role: Role, status: UserStatus, contact: Contact)

  datatype CategoryRow = CategoryRow(id: Id, name: string, template: seq<string>)

  datatype ItemRow = ItemRow(
    id: Id, name: string, description: string, categoryId: Id, ownerId: Id,
    buyerId: Option<Id>, status: ItemStatus, price: real, canBargain: bool,
    address: string, attributes: map<string, string>, images: seq<string>)

  datatype WantRow = WantRow(id: Id, userId: Id, itemId: Id, offer: real)

  /** created_at is modelled by a counter that grows with every insert. */
  datatype MessageRow = MessageRow(
    id: Id, itemId: Id, senderId: Id, content: string, replyTo: Option<Id>, createdAt: nat)

  datatype Tables = Tables(
    users: seq<UserRow>, categories: seq<CategoryRow>, items: seq<ItemRow>,
    wants: seq<WantRow>, messages: seq<MessageRow>)

  /** Column defaults an insert falls back on. */
  const DefaultItemStatus := Active
  const DefaultOffer := 0.0

  /** The categories init_db seeds into an empty categories table, in insertion order. */
  const DefaultCategories: seq<(string, seq<string>)> := [
    ("书籍", ["作者", "出版社", "ISBN", "出版年份"]),
    ("电子产品", ["品牌", "型号", "购买日期", "保修期"]),
    ("食品", ["保质期", "生产日期", "净含量", "成分"]),
    ("服装", ["尺码", "材质", "适用性别", "颜色"])
  ]

  /** The rows the seeding loop inserts when the next free category id is `firstId`. */
  function SeedRows(firstId: Id): seq<CategoryRow> {
    seq(|DefaultCategories|, k requires 0 <= k < |DefaultCategories| =>
      CategoryRow(firstId + k, DefaultCategories[k].0, DefaultCategories[k].1))
  }

  // ---------------------------------------------------------------------
  // Constraints (PRIMARY KEY AUTOINCREMENT, UNIQUE)
  // ---------------------------------------------------------------------

  /** users: ids increase in row order; username UNIQUE. */
  predicate UsersConstrained(users: seq<UserRow>) {
    forall i, j | 0 <= i < j < |users| ::
      users[i].id < users[j].id && users[i].username != users[j].username
  }

  /** categories: ids increase in row order; name UNIQUE. */
  predicate CategoriesConstrained(categories: seq<CategoryRow>) {
    forall i, j | 0 <= i < j < |categories| ::
      categories[i].id < categories[j].id && categories[i].name != categories[j].name
  }

  /** items: ids increase in row order. */
  predicate ItemsConstrained(items: seq<ItemRow>) {
    forall i, j | 0 <= i < j < |items| :: items[i].id < items[j].id
  }

  /** item_wants: ids increase in row order; UNIQUE(user_id, item_id). */
  predicate WantsConstrained(wants: seq<WantRow>) {
    forall i, j | 0 <= i < j < |wants| ::
      wants[i].id < wants[j].id
      && (wants[i].userId != wants[j].userId || wants[i].itemId != wants[j].itemId)
  }

  /** messages: ids and creation times increase in row order. */
  predicate MessagesConstrained(messages: seq<MessageRow>) {
    forall i, j | 0 <= i < j < |messages| ::
      messages[i].id < messages[j].id && messages[i].createdAt < messages[j].createdAt
  }

  predicate Constrained(t: Tables) {
    && UsersConstrained(t.users)
    && CategoriesConstrained(t.categories)
    && ItemsConstrained(t.items)
    && WantsConstrained(t.wants)
    && MessagesConstrained(t.messages)
  }

  /** At most one want row per (user, item), pointwise form of UNIQUE(user_id, item_id). */
  lemma WantPairUnique(wants: seq<WantRow>, a: WantRow, b: WantRow)
    requires WantsConstrained(wants)
    requires a in wants && b in wants && a.userId == b.userId && a.itemId == b.itemId
    ensures a == b
  {
    var i :| 0 <= i < |wants| && wants[i] == a;
    var j :| 0 <= j < |wants| && wants[j] == b;
    if i < j {
      assert false;
    } else if j < i {
      assert false;
    }
  }

  // ---------------------------------------------------------------------
  // An insert with a fresh AUTOINCREMENT id keeps the constraints
  // ---------------------------------------------------------------------

  lemma UsersAppend(users: seq<UserRow>, u: UserRow)
    requires UsersConstrained(users)
    requires forall x | x in users :: x.id < u.id && x.username != u.username
    ensures UsersConstrained(users + [u])
  {
    var r := users + [u];
    forall i, j | 0 <= i < j < |r| ensures r[i].id < r[j].id && r[i].username != r[j].username {
      assert r[i] == users[i];
      if j == |users| {
        assert users[i] in users;
      }
    }
  }

  lemma CategoriesAppend(categories: seq<CategoryRow>, c: CategoryRow)
    requires CategoriesConstrained(categories)
    requires forall x | x in categories :: x.id < c.id && x.name != c.name
    ensures CategoriesConstrained(categories + [c])
  {
    var r := categories + [c];
    forall i, j | 0 <= i < j < |r| ensures r[i].id < r[j].id && r[i].name != r[j].name {
      assert r[i] == categories[i];
      if j == |categories| {
        assert categories[i] in categories;
      }
    }
  }

  lemma ItemsAppend(items: seq<ItemRow>, it: ItemRow)
    requires ItemsConstrained(items)
    requires forall x | x in items :: x.id < it.id
    ensures ItemsConstrained(items + [it])
  {
    var r := items + [it];
    forall i, j | 0 <= i < j < |r| ensures r[i].id < r[j].id {
      assert r[i] == items[i];
      if j == |items| {
        assert items[i] in items;
      }
    }
  }

  lemma WantsAppend(wants: seq<WantRow>, w: WantRow)
    requires WantsConstrained(wants)
    requires forall x | x in wants :: x.id < w.id && (x.userId != w.userId || x.itemId != w.itemId)
    ensures WantsConstrained(wants + [w])
  {
    var r := wants + [w];
    forall i, j | 0 <= i < j < |r|
      ensures r[i].id < r[j].id && (r[i].userId != r[j].userId || r[i].itemId != r[j].itemId)
    {
      assert r[i] == wants[i];
      if j == |wants| {
        assert wants[i] in wants;
      }
    }
  }

  lemma MessagesAppend(messages: seq<MessageRow>, m: MessageRow)
    requires MessagesConstrained(messages)
    requires forall x | x in messages :: x.id < m.id && x.createdAt < m.createdAt
    ensures MessagesConstrained(messages + [m])
  {
    var r := messages + [m];
    forall i, j | 0 <= i < j < |r| ensures r[i].id < r[j].id && r[i].createdAt < r[j].createdAt {
      assert r[i] == messages[i];
      if j == |messages| {
        assert messages[i] in messages;
      }
    }
  }
}
