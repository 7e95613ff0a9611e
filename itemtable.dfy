/**
 * The in-memory item table of ver1.0/items.py: an append-only list of Item
 * objects, each with a validity flag, and a counter for new ids. Revising an
 * item invalidates its entry and appends a valid copy under the same id;
 * deleting only clears a flag; saving keeps the valid entries. The Excel file
 * behind the table is reduced to the rows it holds.
 */
module ItemTable {
  import opened Common

  /** items.Item: the four attributes are set once; only the validity flag changes. */
  class Item {
    const itemId: int
    const name: string
    const description: string
    const contactInfo: string
    var valid: bool

    constructor (itemId: int, name: string, description: string, contactInfo: string)
      ensures this.itemId == itemId && this.name == name && this.description == description
      ensures this.contactInfo == contactInfo && valid
    {
      this.itemId := itemId;
      this.name := name;
      this.description := description;
      this.contactInfo := contactInfo;
      valid := true;
    }
  }

  /** The value an Item holds at one moment. */
  datatype Entry = Entry(id: int, name: string, description: string, contact: string, valid: bool)

  function EntriesOf(items: seq<Item>): (r: seq<Entry>)
    reads items
    ensures |r| == |items|
    ensures forall k | 0 <= k < |items| ::
              r[k] == Entry(items[k].itemId, items[k].name, items[k].description, items[k].contactInfo, items[k].valid)
  {
    seq(|items|, k requires 0 <= k < |items| reads items =>
      Entry(items[k].itemId, items[k].name, items[k].description, items[k].contactInfo, items[k].valid))
  }

  // ---------------------------------------------------------------------
  // The table as a sequence of entries
  // ---------------------------------------------------------------------

  /** The position of the first valid entry with that id, if any. */
  function FirstValid(es: seq<Entry>, id: int): (r: Option<nat>)
    ensures r.Some? ==> r.value < |es| && es[r.value].id == id && es[r.value].valid
    ensures r.Some? ==> forall k | 0 <= k < r.value :: !(es[k].id == id && es[k].valid)
    ensures r.None? <==> forall k | 0 <= k < |es| :: !(es[k].id == id && es[k].valid)
  {
    if es == [] then None
    else if es[0].id == id && es[0].valid then Some(0)
    else match FirstValid(es[1..], id)
      case None => None
      case Some(k) => Some(k + 1)
  }

  /** The position of the first entry with that id, valid or not. */
  function FirstWithId(es: seq<Entry>, id: int): (r: Option<nat>)
    ensures r.Some? ==> r.value < |es| && es[r.value].id == id
    ensures r.Some? ==> forall k | 0 <= k < r.value :: es[k].id != id
    ensures r.None? <==> forall k | 0 <= k < |es| :: es[k].id != id
  {
    if es == [] then None
    else if es[0].id == id then Some(0)
    else match FirstWithId(es[1..], id)
      case None => None
      case Some(k) => Some(k + 1)
  }

  /** A revise argument that is None or empty keeps the old value. */
  function Kept(arg: Option<string>, previous: string): string {
    if arg.Some? && arg.value != "" then arg.value else previous
  }

  /** The valid copy revise_item makes of an entry. */
  function RevisedEntry(e: Entry, name: Option<string>, description: Option<string>, contact: Option<string>): Entry {
    Entry(e.id, Kept(name, e.name), Kept(description, e.description), Kept(contact, e.contact), true)
  }

  /** revise_item on entries: the first valid entry with the id is invalidated and a revised copy appended. */
  function AfterRevise(es: seq<Entry>, id: int, name: Option<string>, description: Option<string>,
                       contact: Option<string>): (r: seq<Entry>)
    ensures FirstValid(es, id).None? ==> r == es
    ensures FirstValid(es, id).Some? ==>
              var k := FirstValid(es, id).value;
              && |r| == |es| + 1 && !r[k].valid
              && r[|es|] == RevisedEntry(es[k], name, description, contact) && r[|es|].id == id && r[|es|].valid
              && forall j | 0 <= j < |es| && j != k :: r[j] == es[j]
  {
    match FirstValid(es, id)
    case None => es
    case Some(k) => es[k := es[k].(valid := false)] + [RevisedEntry(es[k], name, description, contact)]
  }

  /** delete_item as written: the first entry with the id, valid or not, is invalidated. */
  function AfterDelete(es: seq<Entry>, id: int): (r: seq<Entry>)
    ensures |r| == |es|
    ensures forall k | 0 <= k < |es| :: r[k].(valid := es[k].valid) == es[k] && (r[k].valid ==> es[k].valid)
    ensures forall k | 0 <= k < |es| && r[k] != es[k] :: es[k].id == id
    ensures FirstWithId(es, id).None? ==> r == es
    ensures FirstWithId(es, id).Some? ==> !r[FirstWithId(es, id).value].valid
  {
    match FirstWithId(es, id)
    case None => es
    case Some(k) => es[k := es[k].(valid := false)]
  }

  /** delete_item as evidently intended: the valid entry with the id is invalidated. */
  function AfterDeleteValid(es: seq<Entry>, id: int): (r: seq<Entry>)
    ensures |r| == |es|
    ensures forall k | 0 <= k < |es| :: r[k].(valid := es[k].valid) == es[k] && (r[k].valid ==> es[k].valid)
    ensures forall k | 0 <= k < |es| && r[k] != es[k] :: es[k].id == id && es[k].valid
    ensures FirstValid(es, id).None? ==> r == es
    ensures FirstValid(es, id).Some? ==> !r[FirstValid(es, id).value].valid
  {
    match FirstValid(es, id)
    case None => es
    case Some(k) => es[k := es[k].(valid := false)]
  }

  function IsValid(e: Entry): bool {
    e.valid
  }

  /** get_all_items on entries: the valid ones, in list order. */
  function ValidEntries(es: seq<Entry>): seq<Entry> {
    Filter(es, IsValid)
  }

  /** The revise docstring's invariant: no two valid entries share an id. */
  predicate OneValidPerId(es: seq<Entry>) {
    forall i, j | 0 <= i < j < |es| && es[i].valid && es[j].valid :: es[i].id != es[j].id
  }

  /** Every id in the table has been handed out by the counter. */
  predicate IdsAtMost(es: seq<Entry>, n: int) {
    forall k | 0 <= k < |es| :: es[k].id <= n
  }

  // ---------------------------------------------------------------------
  // What each operation keeps
  // ---------------------------------------------------------------------

  /** create_new_item hands out an id above every id in the table and keeps both invariants. */
  lemma CreateKeeps(es: seq<Entry>, n: int, name: string, description: string, contact: string)
    requires OneValidPerId(es) && IdsAtMost(es, n)
    ensures var es' := es + [Entry(n + 1, name, description, contact, true)];
            OneValidPerId(es') && IdsAtMost(es', n + 1)
            && forall k | 0 <= k < |es| :: es[k].id < es'[|es|].id
  {
    var es' := es + [Entry(n + 1, name, description, contact, true)];
    forall i, j | 0 <= i < j < |es'| && es'[i].valid && es'[j].valid ensures es'[i].id != es'[j].id {
      if j < |es| {
        assert es'[i] == es[i] && es'[j] == es[j];
      } else {
        assert es'[i] == es[i];
      }
    }
  }

  /**
   * revise_item on a valid id: one entry more, and the revised copy is the only
   * valid entry with that id; with no valid entry nothing changes.
   */
  lemma ReviseKeeps(es: seq<Entry>, id: int, name: Option<string>, description: Option<string>,
                    contact: Option<string>)
    requires OneValidPerId(es)
    ensures OneValidPerId(AfterRevise(es, id, name, description, contact))
    ensures forall n | IdsAtMost(es, n) :: IdsAtMost(AfterRevise(es, id, name, description, contact), n)
    ensures FirstValid(es, id).None? ==> AfterRevise(es, id, name, description, contact) == es
    ensures FirstValid(es, id).Some? ==>
              var es' := AfterRevise(es, id, name, description, contact);
              && |es'| == |es| + 1
              && es'[|es|] == RevisedEntry(es[FirstValid(es, id).value], name, description, contact)
              && forall k | 0 <= k < |es| :: !(es'[k].id == id && es'[k].valid)
  {
    match FirstValid(es, id)
    case None =>
    case Some(m) =>
      var es' := AfterRevise(es, id, name, description, contact);
      assert forall k | 0 <= k < |es| && k != m :: es'[k] == es[k];
      forall k | 0 <= k < |es| ensures !(es'[k].id == id && es'[k].valid) {
        if k > m {
          assert es[m].valid;
        }
      }
  }

  /** Clearing one flag keeps both invariants. */
  lemma ClearKeeps(es: seq<Entry>, k: nat, n: int)
    requires k < |es| && OneValidPerId(es) && IdsAtMost(es, n)
    ensures OneValidPerId(es[k := es[k].(valid := false)]) && IdsAtMost(es[k := es[k].(valid := false)], n)
  {
    var es' := es[k := es[k].(valid := false)];
    assert forall j | 0 <= j < |es| :: es'[j].id == es[j].id && (es'[j].valid ==> es[j].valid);
  }

  /** The corrected delete leaves no valid entry with the id. */
  lemma DeleteValidRemovesId(es: seq<Entry>, id: int)
    requires OneValidPerId(es)
    ensures forall e | e in ValidEntries(AfterDeleteValid(es, id)) :: e.id != id
    ensures forall e | e in ValidEntries(es) && e.id != id :: e in ValidEntries(AfterDeleteValid(es, id))
  {
    var es' := AfterDeleteValid(es, id);
    forall e | e in ValidEntries(es') ensures e.id != id {
      var j :| 0 <= j < |es'| && es'[j] == e;
      assert IsValid(e);
      match FirstValid(es, id)
      case None =>
        assert es[j] == e;
      case Some(m) =>
        if j < m {
          assert es[j] == e;
        } else if j > m {
          assert es[j] == e && es[m].valid;
        }
    }
    forall e | e in ValidEntries(es) && e.id != id ensures e in ValidEntries(es') {
      var j :| 0 <= j < |es| && es[j] == e;
      assert es'[j] == e;
    }
  }

  /**
   * The discrepancy of delete_item as written: after a revise, the first entry
   * with the id is the invalidated original, so deleting clears nothing that
   * was valid and the revised copy stays among the valid entries.
   */
  lemma DeleteAfterReviseKeepsCopy(es: seq<Entry>, id: int, name: Option<string>,
                                   description: Option<string>, contact: Option<string>)
    requires OneValidPerId(es) && FirstValid(es, id).Some?
    ensures var es' := AfterRevise(es, id, name, description, contact);
            && AfterDelete(es', id) == es'
            && es'[|es|] in ValidEntries(AfterDelete(es', id))
            && es'[|es|].id == id
  {
    var m := FirstValid(es, id).value;
    ReviseKeeps(es, id, name, description, contact);
    var es' := AfterRevise(es, id, name, description, contact);
    assert es' == es[m := es[m].(valid := false)] + [RevisedEntry(es[m], name, description, contact)];
    assert es'[m].id == id;
    var f := FirstWithId(es', id).value;
    assert f <= m && !es'[f].valid;
    assert AfterDelete(es', id) == es'[f := es'[f].(valid := false)] == es';
    assert IsValid(es'[|es|]) && es'[|es|] in es';
  }

  /** The same sequence of calls with the corrected delete removes the item. */
  lemma DeleteValidAfterReviseRemoves(es: seq<Entry>, id: int, name: Option<string>,
                                      description: Option<string>, contact: Option<string>)
    requires OneValidPerId(es) && FirstValid(es, id).Some?
    ensures forall e | e in ValidEntries(AfterDeleteValid(AfterRevise(es, id, name, description, contact), id)) ::
              e.id != id
  {
    ReviseKeeps(es, id, name, description, contact);
    DeleteValidRemovesId(AfterRevise(es, id, name, description, contact), id);
  }

  // ---------------------------------------------------------------------
  // The saved workbook
  // ---------------------------------------------------------------------

  /** One row save_and_close writes: the counter and to_dict, which leaves out the flag. */
  datatype SavedRow = SavedRow(currentNum: int, id: int, name: string, description: string, contact: string)

  /** save_and_close: one row per valid entry, in list order, each carrying the counter. */
  function SavedRows(es: seq<Entry>, n: int): (r: seq<SavedRow>)
    ensures |r| == |ValidEntries(es)|
  {
    var vs := ValidEntries(es);
    seq(|vs|, k requires 0 <= k < |vs| => SavedRow(n, vs[k].id, vs[k].name, vs[k].description, vs[k].contact))
  }

  /** _load: every row becomes a valid entry. */
  function LoadedEntries(rows: seq<SavedRow>): (r: seq<Entry>)
    ensures |r| == |rows|
  {
    seq(|rows|, k requires 0 <= k < |rows| => Entry(rows[k].id, rows[k].name, rows[k].description, rows[k].contact, true))
  }

  /** _load: the counter of the first row, 0 for an empty sheet. */
  function LoadedNum(rows: seq<SavedRow>): int {
    if rows == [] then 0 else rows[0].currentNum
  }

  /**
   * Loading what save_and_close wrote gives back exactly the valid entries and,
   * unless none was left, the counter; with no valid entry the counter restarts at 0.
   */
  lemma SaveLoadRoundTrip(es: seq<Entry>, n: int)
    ensures LoadedEntries(SavedRows(es, n)) == ValidEntries(es)
    ensures ValidEntries(es) != [] ==> LoadedNum(SavedRows(es, n)) == n
    ensures ValidEntries(es) == [] ==> LoadedNum(SavedRows(es, n)) == 0
  {
    var vs := ValidEntries(es);
    assert forall e | e in vs :: e.valid;
    assert forall k | 0 <= k < |vs| :: vs[k] in vs;
  }

  /** Reopening the workbook of a consistent table gives a consistent table again. */
  lemma SaveLoadKeepsConsistent(es: seq<Entry>, n: int)
    requires OneValidPerId(es) && IdsAtMost(es, n)
    ensures var rows := SavedRows(es, n);
            OneValidPerId(LoadedEntries(rows)) && IdsAtMost(LoadedEntries(rows), LoadedNum(rows))
  {
    SaveLoadRoundTrip(es, n);
    var vs := ValidEntries(es);
    var distinct := (a: Entry, b: Entry) => a.valid && b.valid ==> a.id != b.id;
    FilterPairwise(es, IsValid, distinct);
    assert forall i, j | 0 <= i < j < |vs| :: distinct(vs[i], vs[j]);
    forall k | 0 <= k < |vs| ensures vs[k].id <= n {
      assert vs[k] in vs;
      var m :| 0 <= m < |es| && es[m] == vs[k];
    }
  }

  // ---------------------------------------------------------------------
  // find_item
  // ---------------------------------------------------------------------

  /** The value find_item is given: an integer or a string. */
  datatype Value = IntValue(n: int) | TextValue(s: string)

  /** What find_item returns: None, a non-empty list, or a TypeError. */
  datatype FindResult = NoneReturned | Found(items: seq<Item>) | FindRaises

  /** What find_item's loop ends with: the items it collected, or a TypeError. */
  datatype Scan = Scanned(found: seq<Item>) | ScanRaised

  const SearchFields: set<string> := {"item_id", "item_name", "item_description", "contact_info"}

  /** The fields find_item tests with `in`, which needs a string on its left. */
  predicate TextField(field: string) {
    field == "item_name" || field == "item_description" || field == "contact_info"
  }

  /** The match test of find_item: equality for the id, substring for the other fields; the flag is not read. */
  predicate ItemMatches(field: string, value: Value, item: Item) {
    || (field == "item_id" && value == IntValue(item.itemId))
    || (field == "item_name" && value.TextValue? && Contains(item.name, value.s))
    || (field == "item_description" && value.TextValue? && Contains(item.description, value.s))
    || (field == "contact_info" && value.TextValue? && Contains(item.contactInfo, value.s))
  }

  function Matches(field: string, value: Value): Item -> bool {
    (item: Item) => ItemMatches(field, value, item)
  }

  // ---------------------------------------------------------------------
  // items.ItemTable
  // ---------------------------------------------------------------------

  class ItemTable {
    var itemList: seq<Item>
    var currentNum: int

    /** The list never holds the same Item twice (every entry is a new object). */
    ghost predicate Valid()
      reads this
    {
      forall i, j | 0 <= i < j < |itemList| :: itemList[i] != itemList[j]
    }

    function Entries(): seq<Entry>
      reads this, itemList
    {
      EntriesOf(itemList)
    }

    /** Ids come from the counter and no two valid items share one. */
    ghost predicate Consistent()
      reads this, itemList
    {
      OneValidPerId(Entries()) && IdsAtMost(Entries(), currentNum)
    }

    /** __init__ with _load, given the rows of the workbook (none for a new file). */
    constructor (saved: seq<SavedRow>)
      ensures Valid()
      ensures Entries() == LoadedEntries(saved) && currentNum == LoadedNum(saved)
    {
      currentNum := if saved == [] then 0 else saved[0].currentNum;
      itemList := [];
      new;
      var i := 0;
      while i < |saved|
        invariant 0 <= i <= |saved| && |itemList| == i
        invariant Valid()
        invariant Entries() == LoadedEntries(saved)[..i]
        invariant fresh(itemList)
        invariant currentNum == LoadedNum(saved)
      {
        var row := saved[i];
        var item := new Item(row.id, row.name, row.description, row.contact);
        itemList := itemList + [item];
        i := i + 1;
      }
      assert LoadedEntries(saved)[..|saved|] == LoadedEntries(saved);
    }

    /** create_new_item: the counter goes up by one and a valid item with the new number is appended. */
    method CreateNewItem(name: string, description: string, contactInfo: string)
      requires Valid()
      modifies this
      ensures Valid()
      ensures currentNum == old(currentNum) + 1
      ensures Entries() == old(Entries()) + [Entry(currentNum, name, description, contactInfo, true)]
      ensures old(Consistent()) ==> Consistent()
    {
      if Consistent() {
        CreateKeeps(Entries(), currentNum, name, description, contactInfo);
      }
      currentNum := currentNum + 1;
      var item := new Item(currentNum, name, description, contactInfo);
      itemList := itemList + [item];
    }

    /**
     * revise_item: the first valid item with the id is invalidated and a
     * revised valid copy appended and returned; None when no valid item has the id.
     */
    method ReviseItem(itemId: int, name: Option<string>, description: Option<string>, contact: Option<string>)
      returns (r: Option<Item>)
      requires Valid()
      modifies this, itemList
      ensures Valid()
      ensures currentNum == old(currentNum)
      ensures Entries() == AfterRevise(old(Entries()), itemId, name, description, contact)
      ensures r.None? <==> FirstValid(old(Entries()), itemId).None?
      ensures r.Some? ==> fresh(r.value) && itemList == old(itemList) + [r.value]
      ensures r.None? ==> itemList == old(itemList)
      ensures old(Consistent()) ==> Consistent()
    {
      ghost var es := Entries();
      if Consistent() {
        ReviseKeeps(es, itemId, name, description, contact);
      }
      var i := 0;
      while i < |itemList|
        invariant 0 <= i <= |itemList|
        invariant forall k | 0 <= k < i :: !(es[k].id == itemId && es[k].valid)
      {
        if itemList[i].itemId == itemId && itemList[i].valid {
          assert FirstValid(es, itemId) == Some(i);
          var copy := Replace(i, name, description, contact);
          return Some(copy);
        }
        i := i + 1;
      }
      return None;
    }

    /** The body of revise_item's loop once it meets the first valid item with the id. */
    method Replace(i: nat, name: Option<string>, description: Option<string>, contact: Option<string>)
      returns (copy: Item)
      requires Valid() && i < |itemList| && FirstValid(Entries(), itemList[i].itemId) == Some(i)
      modifies this, itemList[i]
      ensures Valid()
      ensures currentNum == old(currentNum)
      ensures Entries() == AfterRevise(old(Entries()), old(itemList[i].itemId), name, description, contact)
      ensures fresh(copy) && itemList == old(itemList) + [copy]
    {
      var item := itemList[i];
      Invalidate(i);
      copy := new Item(item.itemId, Kept(name, item.name), Kept(description, item.description),
                       Kept(contact, item.contactInfo));
      itemList := itemList + [copy];
    }

    /** The in-place step of revise_item and delete_item: one item's flag is cleared. */
    method Invalidate(i: nat)
      requires Valid() && i < |itemList|
      modifies itemList[i]
      ensures Entries() == old(Entries())[i := old(Entries())[i].(valid := false)]
    {
      itemList[i].valid := false;
    }

    /** delete_item: clears the flag of the first item with the id, whether or not it was valid. */
    method DeleteItem(itemId: int)
      requires Valid()
      modifies itemList
      ensures Entries() == AfterDelete(old(Entries()), itemId)
      ensures old(Consistent()) ==> Consistent()
    {
      ghost var es := Entries();
      var i := 0;
      while i < |itemList|
        invariant 0 <= i <= |itemList|
        invariant forall k | 0 <= k < i :: es[k].id != itemId
      {
        if itemList[i].itemId == itemId {
          assert FirstWithId(es, itemId) == Some(i);
          if Consistent() {
            ClearKeeps(es, i, currentNum);
          }
          Invalidate(i);
          return;
        }
        i := i + 1;
      }
    }

    /** delete_item as evidently intended: clears the flag of the valid item with the id. */
    method DeleteValidItem(itemId: int)
      requires Valid()
      modifies itemList
      ensures Entries() == AfterDeleteValid(old(Entries()), itemId)
      ensures old(Consistent()) ==> Consistent()
    {
      ghost var es := Entries();
      var i := 0;
      while i < |itemList|
        invariant 0 <= i <= |itemList|
        invariant forall k | 0 <= k < i :: !(es[k].id == itemId && es[k].valid)
      {
        if itemList[i].itemId == itemId && itemList[i].valid {
          assert FirstValid(es, itemId) == Some(i);
          if Consistent() {
            ClearKeeps(es, i, currentNum);
          }
          Invalidate(i);
          return;
        }
        i := i + 1;
      }
    }

    /**
     * The for loop of find_item over the whole list, valid or not: the matches
     * in list order, or the TypeError that the first `in` test raises when an
     * integer is looked up in a text field.
     */
    method ScanItems(field: string, value: Value) returns (s: Scan)
      requires field in SearchFields
      ensures TextField(field) && value.IntValue? && itemList != [] ==> s == ScanRaised
      ensures !(TextField(field) && value.IntValue? && itemList != []) ==>
                s == Scanned(Filter(itemList, Matches(field, value)))
    {
      var found := [];
      var i := 0;
      while i < |itemList|
        invariant 0 <= i <= |itemList|
        invariant found == Filter(itemList[..i], Matches(field, value))
        invariant TextField(field) && value.IntValue? ==> i == 0
      {
        if TextField(field) && value.IntValue? {
          return ScanRaised;
        }
        FilterPrefixStep(itemList, i, Matches(field, value));
        if ItemMatches(field, value, itemList[i]) {
          found := found + [itemList[i]];
        }
        i := i + 1;
      }
      assert itemList[..|itemList|] == itemList;
      s := Scanned(found);
    }

    /**
     * find_item as written: None for a field outside the four, and the matching
     * items when there are some. With no match it calls display_list() with no
     * argument, whose test `list == None` compares the builtin type and never
     * holds, so it iterates its None argument and raises a TypeError.
     */
    method FindItem(field: string, value: Value) returns (r: FindResult)
      ensures field !in SearchFields ==> r == NoneReturned
      ensures field in SearchFields && TextField(field) && value.IntValue? && itemList != [] ==> r == FindRaises
      ensures field in SearchFields && !(TextField(field) && value.IntValue? && itemList != []) ==>
                r == (if Filter(itemList, Matches(field, value)) == [] then FindRaises
                      else Found(Filter(itemList, Matches(field, value))))
    {
      if field !in SearchFields {
        return NoneReturned;
      }
      var s := ScanItems(field, value);
      r := if s.ScanRaised? || s.found == [] then FindRaises else Found(s.found);
    }

    /**
     * find_item with display_list testing its argument for None, as evidently
     * intended: a search that matches nothing returns None.
     */
    method FindItemIntended(field: string, value: Value) returns (r: FindResult)
      ensures field !in SearchFields ==> r == NoneReturned
      ensures field in SearchFields && TextField(field) && value.IntValue? && itemList != [] ==> r == FindRaises
      ensures field in SearchFields && !(TextField(field) && value.IntValue? && itemList != []) ==>
                r == (if Filter(itemList, Matches(field, value)) == [] then NoneReturned
                      else Found(Filter(itemList, Matches(field, value))))
    {
      if field !in SearchFields {
        return NoneReturned;
      }
      var s := ScanItems(field, value);
      r := if s.ScanRaised? then FindRaises else if s.found == [] then NoneReturned else Found(s.found);
    }

    /** get_all_items: the valid items, in list order. */
    function GetAllItems(): (r: seq<Item>)
      reads this, itemList
      ensures EntriesOf(r) == ValidEntries(Entries())
      ensures forall x | x in r :: x in itemList && x.valid
      ensures forall x | x in itemList && x.valid :: x in r
    {
      ValidInMembers(itemList);
      ValidIn(itemList)
    }

    /** save_and_close: the rows written, one per valid item. */
    method SaveAndClose() returns (rows: seq<SavedRow>)
      ensures rows == SavedRows(Entries(), currentNum)
    {
      var valid := GetAllItems();
      rows := seq(|valid|, k requires 0 <= k < |valid| reads this, valid =>
        SavedRow(currentNum, valid[k].itemId, valid[k].name, valid[k].description, valid[k].contactInfo));
    }
  }

  /** The valid items of a list, in order. */
  function ValidIn(items: seq<Item>): (r: seq<Item>)
    reads items
    ensures EntriesOf(r) == ValidEntries(EntriesOf(items))
    decreases |items|
  {
    if items == [] then []
    else
      var front, last := items[..|items| - 1], items[|items| - 1];
      var es := EntriesOf(items);
      var tail := if last.valid then [last] else [];
      assert EntriesOf(front) == es[..|es| - 1];
      assert EntriesOf(tail) == if es[|es| - 1].valid then [es[|es| - 1]] else [];
      EntriesOfConcat(ValidIn(front), tail);
      ValidIn(front) + tail
  }

  /** The entries of two lists one after the other. */
  lemma EntriesOfConcat(a: seq<Item>, b: seq<Item>)
    ensures EntriesOf(a + b) == EntriesOf(a) + EntriesOf(b)
  {
    assert forall k | 0 <= k < |a + b| :: EntriesOf(a + b)[k] == (EntriesOf(a) + EntriesOf(b))[k];
  }

  /** The comprehension returns the list's own Item objects: exactly its valid ones. */
  lemma {:induction false} ValidInMembers(items: seq<Item>)
    ensures forall x | x in ValidIn(items) :: x in items && x.valid
    ensures forall x | x in items && x.valid :: x in ValidIn(items)
    decreases |items|
  {
    if items != [] {
      var front, last := items[..|items| - 1], items[|items| - 1];
      assert items == front + [last];
      ValidInMembers(front);
      assert ValidIn(items) == ValidIn(front) + (if last.valid then [last] else []);
    }
  }
}
