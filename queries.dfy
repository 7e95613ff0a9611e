/**
 * The read-only operations of ver2.0/models.py (UserManager, CategoryManager and
 * ItemManager queries) as functions of a snapshot of the five tables. Each SQL
 * query becomes a filter or projection over the rows; an inner JOIN drops the
 * rows whose reference does not resolve, and rows come out in table order.
 */
module Queries {
  import opened Common
  import opened Schema

  // ---------------------------------------------------------------------
  // Entities handed to callers
  // ---------------------------------------------------------------------

  /** models.User: a user row without its password verifier. */
  datatype User = User(id: Id, username: string, role: Role, status: UserStatus, contact: Contact)

  function UserOf(row: UserRow): User {
    User(row.id, row.username, row.role, row.status, row.contact)
  }

  /**
   * models.Item: an item row joined with its category name, its owner's
   * username and contact, and the number of want rows that name it.
   */
  datatype ItemView = ItemView(
    row: ItemRow, category: string, ownerUsername: string,
    phone: string, email: string, wantCount: nat)

  /** models.Message: a message row joined with its sender's username. */
  datatype Message = Message(
    id: Id, itemId: Id, senderId: Id, senderName: string,
    content: string, replyTo: Option<Id>, createdAt: nat)

  /** One entry of get_received_wants. */
  datatype ReceivedWant = ReceivedWant(
    itemName: string, buyerName: string, phone: string, address: string, offer: real)

  // ---------------------------------------------------------------------
  // Lookups by key
  // ---------------------------------------------------------------------

  function UserByName(users: seq<UserRow>, name: string): Option<UserRow> {
    First(users, (u: UserRow) => u.username == name)
  }

  function UserById(users: seq<UserRow>, id: Id): Option<UserRow> {
    First(users, (u: UserRow) => u.id == id)
  }

  function CategoryByName(categories: seq<CategoryRow>, name: string): Option<CategoryRow> {
    First(categories, (c: CategoryRow) => c.name == name)
  }

  function CategoryById(categories: seq<CategoryRow>, id: Id): Option<CategoryRow> {
    First(categories, (c: CategoryRow) => c.id == id)
  }

  /** Two rows holding the same key at different positions would break a UNIQUE constraint. */
  lemma UserRowKeyed(users: seq<UserRow>, row: UserRow, other: UserRow)
    requires UsersConstrained(users) && row in users && other in users
    requires other.username == row.username || other.id == row.id
    ensures other == row
  {
    var i :| 0 <= i < |users| && users[i] == row;
    var j :| 0 <= j < |users| && users[j] == other;
    if i < j {
      assert false;
    } else if j < i {
      assert false;
    }
  }

  lemma CategoryRowKeyed(categories: seq<CategoryRow>, row: CategoryRow, other: CategoryRow)
    requires CategoriesConstrained(categories) && row in categories && other in categories
    requires other.name == row.name || other.id == row.id
    ensures other == row
  {
    var i :| 0 <= i < |categories| && categories[i] == row;
    var j :| 0 <= j < |categories| && categories[j] == other;
    if i < j {
      assert false;
    } else if j < i {
      assert false;
    }
  }

  /** With UNIQUE keys, a lookup by username or by id finds the one row holding that key. */
  lemma {:induction false} UsersKeyed(users: seq<UserRow>)
    ensures UsersConstrained(users) ==> forall row | row in users ::
              UserByName(users, row.username) == Some(row) && UserById(users, row.id) == Some(row)
  {
    forall row | row in users && UsersConstrained(users)
      ensures UserByName(users, row.username) == Some(row) && UserById(users, row.id) == Some(row)
    {
      UserRowKeyed(users, row, UserByName(users, row.username).value);
      UserRowKeyed(users, row, UserById(users, row.id).value);
    }
  }

  /** With UNIQUE keys, a lookup by name or by id finds the one category holding that key. */
  lemma {:induction false} CategoriesKeyed(categories: seq<CategoryRow>)
    ensures CategoriesConstrained(categories) ==> forall row | row in categories ::
              CategoryByName(categories, row.name) == Some(row) && CategoryById(categories, row.id) == Some(row)
  {
    forall row | row in categories && CategoriesConstrained(categories)
      ensures CategoryByName(categories, row.name) == Some(row) && CategoryById(categories, row.id) == Some(row)
    {
      CategoryRowKeyed(categories, row, CategoryByName(categories, row.name).value);
      CategoryRowKeyed(categories, row, CategoryById(categories, row.id).value);
    }
  }

  // ---------------------------------------------------------------------
  // UserManager
  // ---------------------------------------------------------------------

  /** get_user: the user with that username, if any. */
  function GetUser(t: Tables, username: string): (r: Option<User>)
    ensures r.Some? ==> r.value.username == username
    ensures r.None? <==> forall u | u in t.users :: u.username != username
  {
    match UserByName(t.users, username)
    case None => None
    case Some(row) => Some(UserOf(row))
  }

  /**
   * authenticate: the stored user when the username exists and the key derived
   * from the password and the stored salt equals the stored hash; otherwise None.
   */
  function Authenticate(t: Tables, kdf: Kdf, username: string, password: string): (r: Option<User>)
    ensures (forall u | u in t.users :: u.username != username) ==> r.None?
    ensures UsersConstrained(t.users) ==> forall row | row in t.users && row.username == username ::
              r == if kdf(password, row.salt) == row.passwordHash then Some(UserOf(row)) else None
  {
    UsersKeyed(t.users);
    match UserByName(t.users, username)
    case None => None
    case Some(row) =>
      if kdf(password, row.salt) == row.passwordHash then Some(UserOf(row)) else None
  }

  /** has_admin: some user has role admin. */
  function HasAdmin(t: Tables): (r: bool)
    ensures r <==> exists u | u in t.users :: u.role == Admin
  {
    First(t.users, (u: UserRow) => u.role == Admin).Some?
  }

  // ---------------------------------------------------------------------
  // CategoryManager
  // ---------------------------------------------------------------------

  /** get_all_categories: the category names, in table order. */
  function GetAllCategories(t: Tables): (r: seq<string>)
    ensures |r| == |t.categories|
    ensures forall name :: name in r <==> CategoryByName(t.categories, name).Some?
  {
    var r := seq(|t.categories|, k requires 0 <= k < |t.categories| => t.categories[k].name);
    assert forall name :: name in r <==> exists c | c in t.categories :: c.name == name by {
      forall name | name in r ensures exists c | c in t.categories :: c.name == name {
        var k :| 0 <= k < |r| && r[k] == name;
        assert t.categories[k] in t.categories;
      }
      forall name | exists c | c in t.categories :: c.name == name ensures name in r {
        var c :| c in t.categories && c.name == name;
        var k :| 0 <= k < |t.categories| && t.categories[k] == c;
        assert r[k] == name;
      }
    }
    r
  }

  /** get_attributes_for_category: the template of the named category, [] when it is unknown. */
  function GetAttributesForCategory(t: Tables, name: string): (r: seq<string>)
    ensures (forall c | c in t.categories :: c.name != name) ==> r == []
    ensures CategoriesConstrained(t.categories) ==>
              forall c | c in t.categories && c.name == name :: r == c.template
  {
    match CategoryByName(t.categories, name)
    case None => []
    case Some(c) =>
      CategoriesKeyed(t.categories);
      c.template
  }

  // ---------------------------------------------------------------------
  // ItemManager: the joined item rows.
  // ---------------------------------------------------------------------

  /** want_count: the number of want rows naming the item. */
  function WantCount(wants: seq<WantRow>, itemId: Id): (r: nat)
    ensures r <= |wants|
    ensures r == 0 <==> forall w | w in wants :: w.itemId != itemId
  {
    var named := Filter(wants, (w: WantRow) => w.itemId == itemId);
    assert named != [] ==> named[0] in named;
    |named|
  }

  /** Whether a (user, item) want row exists. */
  predicate HasWant(wants: seq<WantRow>, userId: Id, itemId: Id) {
    exists w | w in wants :: w.userId == userId && w.itemId == itemId
  }

  /** models.Item shows str(id) in place of an empty joined name. */
  function DisplayName(name: string, id: Id): (r: string)
    ensures r != ""
    ensures name != "" ==> r == name
    ensures name == "" ==> AllDigits(r) && DigitsValue(r) == id
  {
    if name != "" then name else NatToString(id)
  }

  /** The inner JOINs with categories and users: both must resolve. */
  function Joined(t: Tables, row: ItemRow): Option<(CategoryRow, UserRow)> {
    match (CategoryById(t.categories, row.categoryId), UserById(t.users, row.ownerId))
    case (Some(c), Some(u)) => Some((c, u))
    case _ => None
  }

  function ViewOf(t: Tables, row: ItemRow): ItemView
    requires Joined(t, row).Some?
  {
    var (c, u) := Joined(t, row).value;
    ItemView(row, DisplayName(c.name, row.categoryId), DisplayName(u.username, row.ownerId),
             ContactField(u.contact, "phone"), ContactField(u.contact, "email"),
             WantCount(t.wants, row.id))
  }

  /** The WHERE clauses the item queries use. */
  datatype Where =
    | All                                       // get_all_items
    | ById(id: Id)                              // find_item_by_id
    | InCategory(categoryId: Id, keyword: string) // search_items
    | WantedBy(userId: Id)                      // get_user_wants

  /** The keyword filter of search_items: name, description or owner username contains it. */
  predicate KeywordHit(row: ItemRow, owner: UserRow, keyword: string) {
    Contains(row.name, keyword) || Contains(row.description, keyword) || Contains(owner.username, keyword)
  }

  /** A row is selected when both JOINs resolve and the WHERE clause holds. */
  predicate Selected(t: Tables, row: ItemRow, w: Where) {
    Joined(t, row).Some? &&
    match w
    case All => true
    case ById(id) => row.id == id
    case InCategory(cid, kw) => row.categoryId == cid && (kw == "" || KeywordHit(row, Joined(t, row).value.1, kw))
    case WantedBy(uid) => HasWant(t.wants, uid, row.id)
  }

  /** The rows of `rows` a query with WHERE clause `w` returns, joined, in table order. */
  function Fetch(t: Tables, rows: seq<ItemRow>, w: Where): (r: seq<ItemView>)
    ensures |r| <= |rows|
    ensures forall v | v in r :: v.row in rows && Selected(t, v.row, w) && v == ViewOf(t, v.row)
    ensures forall row | row in rows && Selected(t, row, w) :: ViewOf(t, row) in r
    decreases |rows|
  {
    if rows == [] then []
    else
      var front, last := rows[..|rows| - 1], rows[|rows| - 1];
      assert rows == front + [last];
      Fetch(t, front, w) + (if Selected(t, last, w) then [ViewOf(t, last)] else [])
  }

  /** get_all_items: every item whose category and owner resolve. */
  function GetAllItems(t: Tables): (r: seq<ItemView>)
    ensures forall v | v in r :: v.row in t.items && Joined(t, v.row).Some? && v == ViewOf(t, v.row)
    ensures forall row | row in t.items && Joined(t, row).Some? :: ViewOf(t, row) in r
  {
    Fetch(t, t.items, All)
  }

  /**
   * search_items: [] for an unknown category; otherwise exactly the joined items
   * of the category found by that name, narrowed by the keyword unless it is empty.
   */
  function SearchItems(t: Tables, categoryName: string, keyword: string): (r: seq<ItemView>)
    ensures CategoryByName(t.categories, categoryName).None? ==> r == []
    ensures forall v | v in r ::
              && v.row in t.items && Joined(t, v.row).Some? && v == ViewOf(t, v.row)
              && CategoryByName(t.categories, categoryName).Some?
              && v.row.categoryId == CategoryByName(t.categories, categoryName).value.id
              && (keyword != "" ==> KeywordHit(v.row, Joined(t, v.row).value.1, keyword))
    ensures forall row | row in t.items && Joined(t, row).Some? ::
              && CategoryByName(t.categories, categoryName).Some?
              && row.categoryId == CategoryByName(t.categories, categoryName).value.id
              && (keyword == "" || KeywordHit(row, Joined(t, row).value.1, keyword))
              ==> ViewOf(t, row) in r
  {
    match CategoryByName(t.categories, categoryName)
    case None => []
    case Some(c) => Fetch(t, t.items, InCategory(c.id, keyword))
  }

  /** Under the schema constraints the category of every search hit is the one searched for. */
  lemma SearchItemsCategory(t: Tables, categoryName: string, keyword: string)
    requires CategoriesConstrained(t.categories)
    ensures forall v | v in SearchItems(t, categoryName, keyword) ::
              Joined(t, v.row).value.0.name == categoryName
  {
    CategoriesKeyed(t.categories);
    forall v | v in SearchItems(t, categoryName, keyword)
      ensures Joined(t, v.row).value.0.name == categoryName
    {
      var c := CategoryByName(t.categories, categoryName).value;
      var found := Joined(t, v.row).value.0;
      CategoryRowKeyed(t.categories, c, found);
    }
  }

  /** find_item_by_id: the joined item with that id, None when there is none or a JOIN fails. */
  function FindItemById(t: Tables, id: Id): (r: Option<ItemView>)
    ensures r.Some? ==> r.value.row in t.items && r.value.row.id == id && Joined(t, r.value.row).Some?
                        && r.value == ViewOf(t, r.value.row)
    ensures r.None? <==> forall row | row in t.items && row.id == id :: Joined(t, row).None?
  {
    var found := Fetch(t, t.items, ById(id));
    if found == [] then None
    else
      assert found[0] in found;
      Some(found[0])
  }

  /** get_user_wants: the joined items the user has a want row for. */
  function GetUserWants(t: Tables, userId: Id): (r: seq<ItemView>)
    ensures forall v | v in r :: v.row in t.items && Joined(t, v.row).Some? && v == ViewOf(t, v.row)
                                 && HasWant(t.wants, userId, v.row.id)
    ensures forall row | row in t.items && Joined(t, row).Some? && HasWant(t.wants, userId, row.id) ::
              ViewOf(t, row) in r
  {
    Fetch(t, t.items, WantedBy(userId))
  }

  // ---------------------------------------------------------------------
  // ItemManager: intents and messages
  // ---------------------------------------------------------------------

  /** The buyers behind a sequence of want rows, skipping those whose user does not resolve. */
  function WantersOf(users: seq<UserRow>, ws: seq<WantRow>): (r: seq<User>)
    ensures |r| <= |ws|
    ensures forall u | u in r :: exists w | w in ws ::
              UserById(users, w.userId).Some? && u == UserOf(UserById(users, w.userId).value)
    ensures forall w | w in ws && UserById(users, w.userId).Some? :: UserOf(UserById(users, w.userId).value) in r
    decreases |ws|
  {
    if ws == [] then []
    else
      var front, last := ws[..|ws| - 1], ws[|ws| - 1];
      assert ws == front + [last];
      WantersOf(users, front) +
        match UserById(users, last.userId)
        case None => []
        case Some(u) => [UserOf(u)]
  }

  /** get_item_wanters: the users with a want row for the item, in ledger order. */
  function GetItemWanters(t: Tables, itemId: Id): (r: seq<User>)
    ensures forall u | u in r :: exists w | w in t.wants && w.itemId == itemId ::
              UserById(t.users, w.userId).Some? && u == UserOf(UserById(t.users, w.userId).value)
    ensures forall w | w in t.wants && w.itemId == itemId && UserById(t.users, w.userId).Some? ::
              UserOf(UserById(t.users, w.userId).value) in r
  {
    WantersOf(t.users, Filter(t.wants, (w: WantRow) => w.itemId == itemId))
  }

  /** The received-want entry a want row yields for an owner, if its JOINs resolve. */
  function ReceivedOf(t: Tables, ownerId: Id, w: WantRow): Option<ReceivedWant> {
    match (First(t.items, (i: ItemRow) => i.id == w.itemId), UserById(t.users, w.userId))
    case (Some(i), Some(u)) =>
      if i.ownerId == ownerId then
        Some(ReceivedWant(i.name, u.username, ContactField(u.contact, "phone"),
                          ContactField(u.contact, "address"), w.offer))
      else None
    case _ => None
  }

  function ReceivedIn(t: Tables, ownerId: Id, ws: seq<WantRow>): (r: seq<ReceivedWant>)
    ensures |r| <= |ws|
    ensures forall e | e in r :: exists w | w in ws :: ReceivedOf(t, ownerId, w) == Some(e)
    ensures forall w | w in ws && ReceivedOf(t, ownerId, w).Some? :: ReceivedOf(t, ownerId, w).value in r
    decreases |ws|
  {
    if ws == [] then []
    else
      var front, last := ws[..|ws| - 1], ws[|ws| - 1];
      assert ws == front + [last];
      ReceivedIn(t, ownerId, front) +
        match ReceivedOf(t, ownerId, last)
        case None => []
        case Some(e) => [e]
  }

  /**
   * get_received_wants: one entry per want row on an item the owner owns whose
   * buyer resolves (no JOIN with categories, so items of a deleted category count).
   */
  function GetReceivedWants(t: Tables, ownerId: Id): (r: seq<ReceivedWant>)
    ensures forall e | e in r :: exists w | w in t.wants :: ReceivedOf(t, ownerId, w) == Some(e)
    ensures forall w | w in t.wants && ReceivedOf(t, ownerId, w).Some? :: ReceivedOf(t, ownerId, w).value in r
  {
    ReceivedIn(t, ownerId, t.wants)
  }

  /** The sender of a message row resolves (the inner JOIN with users). */
  predicate SenderKnown(t: Tables, m: MessageRow) {
    UserById(t.users, m.senderId).Some?
  }

  function MessageOf(t: Tables, m: MessageRow): Message
    requires SenderKnown(t, m)
  {
    Message(m.id, m.itemId, m.senderId, UserById(t.users, m.senderId).value.username,
            m.content, m.replyTo, m.createdAt)
  }

  /** The messages of `ms` on the item whose sender resolves, joined, in row order. */
  function Thread(t: Tables, ms: seq<MessageRow>, itemId: Id): (r: seq<Message>)
    ensures |r| <= |ms|
    ensures forall m | m in r :: m.itemId == itemId
    ensures forall m | m in r :: exists row | row in ms :: SenderKnown(t, row) && m == MessageOf(t, row)
    ensures forall row | row in ms && row.itemId == itemId && SenderKnown(t, row) :: MessageOf(t, row) in r
    decreases |ms|
  {
    if ms == [] then []
    else
      var front, last := ms[..|ms| - 1], ms[|ms| - 1];
      assert ms == front + [last];
      Thread(t, front, itemId) +
        (if last.itemId == itemId && SenderKnown(t, last) then [MessageOf(t, last)] else [])
  }

  /** get_messages: the item's messages whose sender resolves (ordering: ThreadOrdered). */
  function GetMessages(t: Tables, itemId: Id): (r: seq<Message>)
    ensures forall m | m in r :: m.itemId == itemId
    ensures forall m | m in r :: exists row | row in t.messages :: SenderKnown(t, row) && m == MessageOf(t, row)
    ensures forall row | row in t.messages && row.itemId == itemId && SenderKnown(t, row) :: MessageOf(t, row) in r
  {
    Thread(t, t.messages, itemId)
  }

  /** Creation times strictly increase along a thread. */
  predicate Ascending(r: seq<Message>) {
    forall i, j | 0 <= i < j < |r| :: r[i].createdAt < r[j].createdAt
  }

  /** A thread holds no message created later than its rows. */
  lemma ThreadBelow(t: Tables, ms: seq<MessageRow>, itemId: Id, bound: nat)
    requires forall row | row in ms :: row.createdAt < bound
    ensures forall m | m in Thread(t, ms, itemId) :: m.createdAt < bound
  {
  }

  lemma AscendingAppend(f: seq<Message>, m: Message)
    requires Ascending(f) && forall x | x in f :: x.createdAt < m.createdAt
    ensures Ascending(f + [m])
  {
    var r := f + [m];
    forall i, j | 0 <= i < j < |r| ensures r[i].createdAt < r[j].createdAt {
      if j < |f| {
        assert r[i] == f[i] && r[j] == f[j];
      } else {
        assert r[i] == f[i] && f[i] in f;
      }
    }
  }

  /**
   * ORDER BY created_at ASC: since rows are stored in creation order, the
   * thread comes out with strictly increasing creation times.
   */
  lemma {:induction false} ThreadOrdered(t: Tables, ms: seq<MessageRow>, itemId: Id)
    requires MessagesConstrained(ms)
    ensures Ascending(Thread(t, ms, itemId))
    decreases |ms|
  {
    if ms != [] {
      var front, last := ms[..|ms| - 1], ms[|ms| - 1];
      assert ms == front + [last];
      assert MessagesConstrained(front) by {
        forall i, j | 0 <= i < j < |front| ensures front[i].createdAt < front[j].createdAt && front[i].id < front[j].id {
          assert front[i] == ms[i] && front[j] == ms[j];
        }
      }
      ThreadOrdered(t, front, itemId);
      var f := Thread(t, front, itemId);
      if last.itemId == itemId && SenderKnown(t, last) {
        var r := f + [MessageOf(t, last)];
        assert Thread(t, ms, itemId) == r;
        assert forall row | row in front :: row.createdAt < last.createdAt by {
          forall row | row in front ensures row.createdAt < last.createdAt {
            var a :| 0 <= a < |front| && front[a] == row;
            assert ms[a] == row;
          }
        }
        ThreadBelow(t, front, itemId, last.createdAt);
        AscendingAppend(f, MessageOf(t, last));
      } else {
        assert Thread(t, ms, itemId) == f;
      }
    }
  }

  /** get_messages orders a thread by creation time. */
  lemma GetMessagesOrdered(t: Tables, itemId: Id)
    requires MessagesConstrained(t.messages)
    ensures Ascending(GetMessages(t, itemId))
  {
    ThreadOrdered(t, t.messages, itemId);
  }
}
