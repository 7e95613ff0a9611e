/**
 * The decisions taken by the Tk handlers of ver2.0/gui_components.py, without
 * the widgets: who may edit, delete, buy or confirm the sale of an item, how an
 * item's status is shown, how the category form's text becomes an attribute
 * list, and the checks a form passes before it reaches the store. Text typed
 * into a widget, a selection in a list and the answer to a dialog are
 * parameters; the store is the Store object the handlers call.
 */
module Gui {
  import opened Common
  import opened Schema
  import opened Queries
  import opened Store

  // ---------------------------------------------------------------------
  // Authorisation and the lock rule
  // ---------------------------------------------------------------------

  predicate IsAdmin(user: User) {
    user.role == Admin
  }

  /** Ownership is decided by the joined owner name, compared with the user's name. */
  predicate IsOwner(item: ItemView, user: User) {
    item.ownerUsername == user.username
  }

  /** The lock rule: an item that is sold or that somebody wants. */
  predicate Locked(item: ItemView) {
    item.row.status == Sold || item.wantCount > 0
  }

  /** What open_edit_item_window does with the looked-up item. */
  datatype EditOutcome = EditNotFound | EditDenied | EditLocked | EditOpened

  /**
   * open_edit_item_window with the evidently intended check for a missing item
   * first: only the owner or an admin gets the form, and a locked item only an
   * admin.
   */
  function EditDecision(item: Option<ItemView>, user: User): (r: EditOutcome)
    ensures r == EditNotFound <==> item.None?
    ensures r == EditOpened <==>
              item.Some? && (IsOwner(item.value, user) || IsAdmin(user)) && (IsAdmin(user) || !Locked(item.value))
  {
    if item.None? then EditNotFound
    else if !IsOwner(item.value, user) && !IsAdmin(user) then EditDenied
    else if Locked(item.value) && !IsAdmin(user) then EditLocked
    else EditOpened
  }

  /** A handler either returns normally with an outcome or raises. */
  datatype Handled<T> = Raised | Returned(outcome: T)

  /**
   * open_edit_item_window as written: the owner test reads an attribute of the
   * looked-up item before the test for None, so a missing item raises.
   */
  function EditDecisionAsWritten(item: Option<ItemView>, user: User): (r: Handled<EditOutcome>)
    ensures item.Some? ==> r == Returned(EditDecision(item, user))
    ensures item.None? ==> r == Raised
  {
    if item.None? then Raised
    else if item.value.ownerUsername != user.username && user.role != Admin then Returned(EditDenied)
    else if (item.value.row.status == Sold || item.value.wantCount > 0) && user.role != Admin then Returned(EditLocked)
    else Returned(EditOpened)
  }

  /**
   * The input that shows it: an item listed before an admin deleted its category
   * is no longer found by id, and opening it for editing raises.
   */
  lemma EditAfterCategoryDeleteRaises(t: Tables, row: ItemRow, user: User)
    requires Constrained(t) && row in t.items
    requires CategoryById(t.categories, row.categoryId).Some?
    ensures var t' := t.(categories := CategoriesWithout(t.categories, CategoryById(t.categories, row.categoryId).value.name));
            EditDecisionAsWritten(FindItemById(t', row.id), user) == Raised
            && EditDecision(FindItemById(t', row.id), user) == EditNotFound
  {
    var name := CategoryById(t.categories, row.categoryId).value.name;
    var t' := t.(categories := CategoriesWithout(t.categories, name));
    DeleteCategoryHidesItems(t, name);
    forall other | other in t'.items && other.id == row.id ensures Joined(t', other).None? {
      ItemRowKeyed(t.items, row, other);
    }
  }

  /** What delete_selected_item does with one looked-up item. */
  datatype DeleteOutcome = DeleteDenied | DeleteLocked | Deleted

  /** delete_selected_item, for one selected item: the owner or an admin, and a locked item only an admin. */
  function DeleteDecision(item: Option<ItemView>, user: User): (r: DeleteOutcome)
    ensures r == Deleted <==>
              item.Some? && (IsOwner(item.value, user) || IsAdmin(user)) && (IsAdmin(user) || !Locked(item.value))
    ensures r == DeleteDenied <==> item.None? || (!IsOwner(item.value, user) && !IsAdmin(user))
  {
    if item.Some? && (IsOwner(item.value, user) || IsAdmin(user)) then
      if Locked(item.value) && !IsAdmin(user) then DeleteLocked else Deleted
    else DeleteDenied
  }

  /** Editing and deleting apply one and the same rule to an item that exists. */
  lemma EditAndDeleteAgree(item: ItemView, user: User)
    ensures EditDecision(Some(item), user) == EditOpened <==> DeleteDecision(Some(item), user) == Deleted
    ensures EditDecision(Some(item), user) == EditLocked <==> DeleteDecision(Some(item), user) == DeleteLocked
    ensures EditDecision(Some(item), user) == EditDenied <==> DeleteDecision(Some(item), user) == DeleteDenied
  {
  }

  /** An admin bypasses both ownership and the lock rule; a non-admin never gets past a locked item. */
  lemma AdminBypassesLock(item: ItemView, user: User)
    ensures IsAdmin(user) ==> EditDecision(Some(item), user) == EditOpened && DeleteDecision(Some(item), user) == Deleted
    ensures !IsAdmin(user) && Locked(item) ==>
              EditDecision(Some(item), user) != EditOpened && DeleteDecision(Some(item), user) != Deleted
  {
  }

  /** open_add_item_window: admins do not publish items. */
  function MayPublish(user: User): (r: bool)
    ensures r <==> user.role != Admin
  {
    !IsAdmin(user)
  }

  // ---------------------------------------------------------------------
  // Status display (refresh_item_list and the detail window)
  // ---------------------------------------------------------------------

  datatype Tag = SoldTag | ActiveTag | WantedTag

  const SoldText := "已售出"
  const ActiveText := "在售"
  const WantedSuffix := "人想要"

  /** The status text and row tag of an item with that status and want count. */
  function StatusDisplay(status: ItemStatus, wantCount: nat): (r: (string, Tag))
    ensures r.1 == SoldTag <==> status == Sold
    ensures r.1 == ActiveTag <==> status != Sold && wantCount == 0
    ensures r.1 == WantedTag ==> r.0 == NatToString(wantCount) + WantedSuffix
  {
    if status == Sold then (SoldText, SoldTag)
    else if wantCount == 0 then (ActiveText, ActiveTag)
    else (NatToString(wantCount) + WantedSuffix, WantedTag)
  }

  /** The displayed text alone tells the tag, and for a wanted item the number of wanters. */
  lemma StatusTextDeterminesTag(s1: ItemStatus, w1: nat, s2: ItemStatus, w2: nat)
    requires StatusDisplay(s1, w1).0 == StatusDisplay(s2, w2).0
    ensures StatusDisplay(s1, w1).1 == StatusDisplay(s2, w2).1
    ensures StatusDisplay(s1, w1).1 == WantedTag ==> w1 == w2
  {
    var (t1, g1) := StatusDisplay(s1, w1);
    var (t2, g2) := StatusDisplay(s2, w2);
    if g1 == WantedTag {
      WantedTextShape(w1);
    }
    if g2 == WantedTag {
      WantedTextShape(w2);
    }
    if g1 == WantedTag && g2 == WantedTag {
      var a, b := NatToString(w1), NatToString(w2);
      assert |a| == |b|;
      assert a == t1[..|a|] && b == t2[..|b|];
    }
  }

  /** A wanted text is at least four characters long and ends with the wanted suffix. */
  lemma WantedTextShape(w: nat)
    ensures |NatToString(w) + WantedSuffix| >= 4
    ensures (NatToString(w) + WantedSuffix)[|NatToString(w)|..] == WantedSuffix
  {
  }

  // ---------------------------------------------------------------------
  // The category form (save_category)
  // ---------------------------------------------------------------------

  /** The stripped lines among `lines` that are not empty, in order. */
  function NonEmptyStripped(lines: seq<string>): seq<string>
    decreases |lines|
  {
    if lines == [] then []
    else
      var a := Strip(lines[|lines| - 1]);
      NonEmptyStripped(lines[..|lines| - 1]) + (if a != "" then [a] else [])
  }

  /** A piece of text with no whitespace at either end. */
  predicate Trimmed(a: string) {
    a != "" && !IsSpace(a[0]) && !IsSpace(a[|a| - 1])
  }

  /** Every kept entry is a trimmed, stripped line of `lines`. */
  lemma {:induction false} NonEmptyStrippedSound(lines: seq<string>)
    ensures forall a | a in NonEmptyStripped(lines) :: Trimmed(a) && exists l | l in lines :: Strip(l) == a
    decreases |lines|
  {
    if lines != [] {
      var front, last := lines[..|lines| - 1], lines[|lines| - 1];
      assert lines == front + [last];
      NonEmptyStrippedSound(front);
      var f := NonEmptyStripped(front);
      var a := Strip(last);
      var r := NonEmptyStripped(lines);
      assert r == f + (if a != "" then [a] else []);
      forall x | x in r ensures Trimmed(x) && exists l | l in lines :: Strip(l) == x {
        if x in f {
          var l :| l in front && Strip(l) == x;
          assert l in lines;
        } else {
          assert x == a && last in lines;
        }
      }
    }
  }

  /** Every line of `lines` that strips to something is kept, stripped. */
  lemma {:induction false} NonEmptyStrippedComplete(lines: seq<string>)
    ensures forall l | l in lines && Strip(l) != "" :: Strip(l) in NonEmptyStripped(lines)
    decreases |lines|
  {
    if lines != [] {
      var front, last := lines[..|lines| - 1], lines[|lines| - 1];
      assert lines == front + [last];
      NonEmptyStrippedComplete(front);
      var f := NonEmptyStripped(front);
      var a := Strip(last);
      var r := NonEmptyStripped(lines);
      assert r == f + (if a != "" then [a] else []);
      forall l | l in lines && Strip(l) != "" ensures Strip(l) in r {
        if l in front {
          assert Strip(l) in f;
        } else {
          assert l == last;
        }
      }
    }
  }

  /** The attribute list of the category form: the stripped, non-empty lines of its text. */
  function ParseAttributes(text: string): (r: seq<string>)
    ensures forall a | a in r :: Trimmed(a) && exists l | l in SplitLines(Strip(text)) :: Strip(l) == a
    ensures forall l | l in SplitLines(Strip(text)) && Strip(l) != "" :: Strip(l) in r
  {
    NonEmptyStrippedSound(SplitLines(Strip(text)));
    NonEmptyStrippedComplete(SplitLines(Strip(text)));
    NonEmptyStripped(SplitLines(Strip(text)))
  }

  lemma StripIdempotent(s: string)
    ensures Strip(Strip(s)) == Strip(s)
  {
    var r := Strip(s);
    assert StripLeft(r) == r;
    assert StripRight(r) == r;
  }

  /** What the form shows for a clean template, "\n".join, reads back as that template. */
  predicate CleanTemplate(template: seq<string>) {
    forall a | a in template :: a != "" && Strip(a) == a && '\n' !in a
  }

  lemma {:induction false} SplitJoin(parts: seq<string>)
    requires |parts| >= 1 && forall a | a in parts :: '\n' !in a
    ensures SplitLines(JoinLines(parts)) == parts
    decreases |parts|
  {
    if |parts| > 1 {
      var s := JoinLines(parts);
      var p0 := parts[0];
      assert s == p0 + "\n" + JoinLines(parts[1..]);
      assert '\n' in s by { assert s[|p0|] == '\n'; }
      IndexOfJoin(p0, JoinLines(parts[1..]));
      assert s[|p0| + 1..] == JoinLines(parts[1..]);
      assert s[..|p0|] == p0;
      SplitJoin(parts[1..]);
    } else {
      assert parts[0] in parts;
    }
  }

  lemma IndexOfJoin(a: string, b: string)
    requires '\n' !in a
    ensures '\n' in a + "\n" + b && IndexOf(a + "\n" + b, '\n') == |a|
  {
    var s := a + "\n" + b;
    assert s[|a|] == '\n';
  }

  lemma {:induction false} NonEmptyStrippedClean(lines: seq<string>)
    requires CleanTemplate(lines)
    ensures NonEmptyStripped(lines) == lines
    decreases |lines|
  {
    if lines != [] {
      var front := lines[..|lines| - 1];
      assert lines == front + [lines[|lines| - 1]];
      NonEmptyStrippedClean(front);
    }
  }

  lemma {:induction false} JoinEnds(parts: seq<string>)
    requires |parts| >= 1 && CleanTemplate(parts)
    ensures JoinLines(parts) != [] && !IsSpace(JoinLines(parts)[0])
    ensures !IsSpace(JoinLines(parts)[|JoinLines(parts)| - 1])
    decreases |parts|
  {
    assert parts[0] in parts;
    assert !IsSpace(parts[0][0]) && !IsSpace(parts[0][|parts[0]| - 1]) by {
      assert Strip(parts[0]) == parts[0] && parts[0] != "";
    }
    if |parts| > 1 {
      forall a | a in parts[1..] ensures a in parts {
        var k :| 0 <= k < |parts| - 1 && parts[1..][k] == a;
        assert parts[k + 1] == a;
      }
      JoinEnds(parts[1..]);
    }
  }

  /** The text widget's copy of a joined clean template strips back to the joined lines. */
  lemma ShownTextStrips(template: seq<string>)
    requires template != [] && CleanTemplate(template)
    ensures Strip(JoinLines(template) + "\n") == JoinLines(template)
  {
    var s := JoinLines(template);
    var shown := s + "\n";
    JoinEnds(template);
    assert shown[..|s|] == s;
    assert StripRight(shown) == StripRight(s) == s;
    assert StripLeft(shown) == shown;
  }

  /**
   * Selecting a category shows its attributes joined by newlines; saving that
   * text unchanged stores the same attributes again. The text widget hands the
   * shown text back with a trailing newline, which the strip removes.
   */
  lemma ParseShownTemplate(template: seq<string>)
    requires CleanTemplate(template)
    ensures template != [] ==> ParseAttributes(JoinLines(template) + "\n") == template
    ensures template == [] ==> ParseAttributes("\n") == template
  {
    if template != [] {
      ShownLines(template);
      ParsedAs(JoinLines(template) + "\n", template);
    } else {
      EmptyShownText();
    }
  }

  /** ParseAttributes is the stripped non-empty lines of the stripped text. */
  lemma ParsedAs(text: string, lines: seq<string>)
    requires NonEmptyStripped(SplitLines(Strip(text))) == lines
    ensures ParseAttributes(text) == lines
  {
  }

  /** The lines of a joined clean template, read back with the widget's newline, are the template. */
  lemma ShownLines(template: seq<string>)
    requires template != [] && CleanTemplate(template)
    ensures NonEmptyStripped(SplitLines(Strip(JoinLines(template) + "\n"))) == template
  {
    ShownTextStrips(template);
    SplitJoin(template);
    NonEmptyStrippedClean(template);
  }

  /** An empty text box, which the widget reads back as a lone newline, gives no attributes. */
  lemma EmptyShownText()
    ensures ParseAttributes("\n") == []
  {
    assert "\n"[1..] == "";
    assert Strip("\n") == "" && SplitLines("") == [""];
    assert NonEmptyStripped([""]) == NonEmptyStripped([]);
  }

  /** What save_category reports. */
  datatype CategorySave = CategoryNameEmpty | CategoryUpdated | CategoryCreated | CategoryCreateFailed

  /**
   * save_category: a non-empty stripped name, then an update when the name is
   * listed or an insert otherwise, with the parsed attribute lines.
   */
  method SaveCategory(store: Store, nameText: string, attributeText: string) returns (outcome: CategorySave)
    requires store.Valid()
    modifies store`categories, store`nextCategoryId
    ensures store.Valid()
    ensures Strip(nameText) == "" <==> outcome == CategoryNameEmpty
    ensures outcome == CategoryNameEmpty ==>
              store.categories == old(store.categories) && store.nextCategoryId == old(store.nextCategoryId)
    ensures outcome == CategoryUpdated ==>
              && store.categories == WithTemplate(old(store.categories), Strip(nameText), ParseAttributes(attributeText))
              && store.nextCategoryId == old(store.nextCategoryId)
    ensures outcome == CategoryCreated ==>
              && store.categories == old(store.categories) + [CategoryRow(old(store.nextCategoryId), Strip(nameText),
                                                                           ParseAttributes(attributeText))]
              && store.nextCategoryId == old(store.nextCategoryId) + 1
    ensures outcome == CategoryUpdated <==>
              Strip(nameText) != "" && old(CategoryByName(store.categories, Strip(nameText))).Some?
    ensures outcome != CategoryCreateFailed
    ensures outcome == CategoryUpdated || outcome == CategoryCreated ==>
              GetAttributesForCategory(store.Snapshot(), Strip(nameText)) == ParseAttributes(attributeText)
  {
    var name := Strip(nameText);
    if name == "" {
      return CategoryNameEmpty;
    }
    outcome := StoreCategory(store, name, ParseAttributes(attributeText));
  }

  /** The update-or-insert step of save_category for a non-empty name. */
  method StoreCategory(store: Store, name: string, attributes: seq<string>) returns (outcome: CategorySave)
    requires store.Valid() && name != ""
    modifies store`categories, store`nextCategoryId
    ensures store.Valid()
    ensures outcome == CategoryUpdated <==> old(CategoryByName(store.categories, name)).Some?
    ensures outcome == CategoryUpdated || outcome == CategoryCreated
    ensures outcome == CategoryUpdated ==>
              store.categories == WithTemplate(old(store.categories), name, attributes)
              && store.nextCategoryId == old(store.nextCategoryId)
    ensures outcome == CategoryCreated ==>
              store.categories == old(store.categories) + [CategoryRow(old(store.nextCategoryId), name, attributes)]
              && store.nextCategoryId == old(store.nextCategoryId) + 1
    ensures GetAttributesForCategory(store.Snapshot(), name) == attributes
  {
    ghost var t0 := store.Snapshot();
    if name in GetAllCategories(store.Snapshot()) {
      TemplateAfterUpdate(t0, name, attributes);
      store.UpdateCategory(name, attributes);
      assert store.Snapshot() == t0.(categories := WithTemplate(t0.categories, name, attributes));
      outcome := CategoryUpdated;
    } else {
      ghost var row := CategoryRow(store.nextCategoryId, name, attributes);
      var ok := store.AddCategory(name, attributes);
      assert store.Snapshot() == t0.(categories := t0.categories + [row]);
      TemplateAfterAdd(t0, row);
      outcome := if ok then CategoryCreated else CategoryCreateFailed;
    }
  }

  // ---------------------------------------------------------------------
  // delete_selected_item
  // ---------------------------------------------------------------------

  /** The ids among `selection` whose item may be deleted, each judged on the state `t`. */
  function DeletedIds(t: Tables, user: User, selection: seq<Id>): set<Id>
    decreases |selection|
  {
    if selection == [] then {}
    else
      var id := selection[|selection| - 1];
      DeletedIds(t, user, selection[..|selection| - 1])
        + (if DeleteDecision(FindItemById(t, id), user) == Deleted then {id} else {})
  }

  /**
   * What the handler reports for each selected id, in order: an id already
   * removed earlier in the same selection is no longer found.
   */
  function DeleteReports(t: Tables, user: User, selection: seq<Id>): (r: seq<DeleteOutcome>)
    ensures |r| == |selection|
    decreases |selection|
  {
    if selection == [] then []
    else
      var front, id := selection[..|selection| - 1], selection[|selection| - 1];
      DeleteReports(t, user, front)
        + [if id in DeletedIds(t, user, front) then DeleteDenied else DeleteDecision(FindItemById(t, id), user)]
  }

  /** An id is removed exactly when it is selected and its item may be deleted. */
  lemma {:induction false} DeletedIdsExactly(t: Tables, user: User, selection: seq<Id>)
    ensures forall id :: id in DeletedIds(t, user, selection) <==>
              id in selection && DeleteDecision(FindItemById(t, id), user) == Deleted
    decreases |selection|
  {
    if selection != [] {
      var front := selection[..|selection| - 1];
      assert selection == front + [selection[|selection| - 1]];
      DeletedIdsExactly(t, user, front);
    }
  }

  /** One turn of the deletion loop, judged on the state the earlier turns left. */
  lemma DeleteTurn(t0: Tables, user: User, selection: seq<Id>, i: nat)
    requires ItemsConstrained(t0.items) && i < |selection|
    ensures var done := DeletedIds(t0, user, selection[..i]);
            var d := DeleteDecision(FindItemById(t0.(items := Without(t0.items, done)), selection[i]), user);
            && DeleteReports(t0, user, selection[..i + 1]) == DeleteReports(t0, user, selection[..i]) + [d]
            && (d == Deleted ==> Without(Without(t0.items, done), {selection[i]})
                                 == Without(t0.items, DeletedIds(t0, user, selection[..i + 1])))
            && (d != Deleted ==> DeletedIds(t0, user, selection[..i + 1]) == done)
  {
    var done := DeletedIds(t0, user, selection[..i]);
    var id := selection[i];
    assert selection[..i + 1][..i] == selection[..i];
    FindAfterWithout(t0, done, id);
    WithoutUnion(t0.items, done, {id});
  }

  /**
   * delete_selected_item: once confirmed, each selected id is looked up and
   * deleted when the decision allows; the items of the other ids stay.
   */
  method DeleteSelectedItem(store: Store, user: User, selection: seq<Id>, confirmed: bool)
    returns (reports: seq<DeleteOutcome>)
    requires store.Valid()
    modifies store`items
    ensures store.Valid()
    ensures selection == [] || !confirmed ==> reports == [] && store.items == old(store.items)
    ensures selection != [] && confirmed ==>
              store.items == Without(old(store.items), DeletedIds(old(store.Snapshot()), user, selection))
    ensures selection != [] && confirmed ==> reports == DeleteReports(old(store.Snapshot()), user, selection)
  {
    if selection == [] || !confirmed {
      return [];
    }
    ghost var t0 := store.Snapshot();
    WithoutNothing(t0.items);
    reports := [];
    var i := 0;
    while i < |selection|
      invariant 0 <= i <= |selection|
      invariant store.Valid()
      invariant store.items == Without(t0.items, DeletedIds(t0, user, selection[..i]))
      invariant reports == DeleteReports(t0, user, selection[..i])
    {
      var id := selection[i];
      assert store.Snapshot() == t0.(items := store.items);
      var item := FindItemById(store.Snapshot(), id);
      var decision := DeleteDecision(item, user);
      DeleteTurn(t0, user, selection, i);
      if decision == Deleted {
        store.DeleteItem(id);
      }
      reports := reports + [decision];
      i := i + 1;
    }
    assert selection[..|selection|] == selection;
  }

  // ---------------------------------------------------------------------
  // approve_selected
  // ---------------------------------------------------------------------

  /** A row of the user list as shown: a username and the status it displayed. */
  datatype Listed = Listed(username: string, status: UserStatus)

  /** The users table after approving, in selection order, every listed user shown as pending. */
  function ApprovedAll(users: seq<UserRow>, selection: seq<Listed>): (r: seq<UserRow>)
    ensures |r| == |users|
    decreases |selection|
  {
    if selection == [] then users
    else
      var front, last := selection[..|selection| - 1], selection[|selection| - 1];
      if last.status == Pending then ApprovedIn(ApprovedAll(users, front), last.username)
      else ApprovedAll(users, front)
  }

  /** The usernames the selection shows as pending. */
  function PendingNames(selection: seq<Listed>): set<string> {
    set l | l in selection && l.status == Pending :: l.username
  }

  function PendingCount(selection: seq<Listed>): nat {
    |Filter(selection, IsPendingRow)|
  }

  predicate IsPendingRow(l: Listed) {
    l.status == Pending
  }

  /** One more row adds one to the pending count exactly when it is pending. */
  lemma PendingCountSnoc(selection: seq<Listed>, l: Listed)
    ensures PendingCount(selection + [l]) == PendingCount(selection) + (if l.status == Pending then 1 else 0)
  {
    FilterSnoc(selection, l, IsPendingRow);
  }

  /**
   * The reference meaning of the approval loop: a user whose name was listed as
   * pending is approved, every other row is unchanged.
   */
  lemma {:induction false} ApprovedAllPointwise(users: seq<UserRow>, selection: seq<Listed>)
    ensures forall k | 0 <= k < |users| ::
              ApprovedAll(users, selection)[k]
              == if users[k].username in PendingNames(selection) then users[k].(status := Approved) else users[k]
    decreases |selection|
  {
    if selection != [] {
      var front, last := selection[..|selection| - 1], selection[|selection| - 1];
      assert selection == front + [last];
      ApprovedAllPointwise(users, front);
      assert PendingNames(selection) == PendingNames(front) + (if last.status == Pending then {last.username} else {});
    }
  }

  datatype ApproveReport = NoneSelected | ApprovedUsers(count: nat) | NothingPending | ApproveFailed

  /**
   * approve_selected: approves every selected row shown as pending and counts
   * the others. Since approve_user always succeeds, the unknown-error report is
   * never reached.
   */
  method ApproveSelected(store: Store, selection: seq<Listed>) returns (report: ApproveReport)
    requires store.Valid()
    modifies store`users
    ensures store.Valid()
    ensures store.users == ApprovedAll(old(store.users), selection)
    ensures selection == [] ==> report == NoneSelected
    ensures selection != [] && PendingCount(selection) > 0 ==> report == ApprovedUsers(PendingCount(selection))
    ensures selection != [] && PendingCount(selection) == 0 ==> report == NothingPending
    ensures report != ApproveFailed
  {
    if selection == [] {
      return NoneSelected;
    }
    var approved, skipped := ApproveEach(store, selection);
    if approved > 0 {
      report := ApprovedUsers(approved);
    } else if skipped > 0 && approved == 0 {
      report := NothingPending;
    } else {
      report := ApproveFailed;
    }
  }

  /** One turn of the approval loop: approve_user for a pending row, true when it counts as approved. */
  method ApproveRow(store: Store, l: Listed) returns (counted: bool)
    requires store.Valid()
    modifies store`users
    ensures store.Valid()
    ensures counted <==> l.status == Pending
    ensures store.users == if l.status == Pending then ApprovedIn(old(store.users), l.username) else old(store.users)
  {
    counted := false;
    if l.status == Pending {
      counted := store.ApproveUser(l.username);
    }
  }

  /** One more row of the loop: approved when pending, passed over otherwise. */
  lemma ApprovedAllSnoc(users: seq<UserRow>, selection: seq<Listed>, l: Listed)
    ensures ApprovedAll(users, selection + [l])
            == if l.status == Pending then ApprovedIn(ApprovedAll(users, selection), l.username)
               else ApprovedAll(users, selection)
  {
    assert (selection + [l])[..|selection|] == selection;
  }

  /** The loop of approve_selected: approve_user for each pending row, counting approvals and skips. */
  method ApproveEach(store: Store, selection: seq<Listed>) returns (approved: nat, skipped: nat)
    requires store.Valid()
    modifies store`users
    ensures store.Valid()
    ensures store.users == ApprovedAll(old(store.users), selection)
    ensures approved == PendingCount(selection) && approved + skipped == |selection|
  {
    ghost var users0 := store.users;
    approved, skipped := 0, 0;
    var i := 0;
    while i < |selection|
      invariant 0 <= i <= |selection|
      invariant store.Valid()
      invariant store.users == ApprovedAll(users0, selection[..i])
      invariant approved == PendingCount(selection[..i]) && approved + skipped == i
    {
      approved, skipped := ApproveTurn(store, users0, selection, i, approved, skipped);
      i := i + 1;
    }
    assert selection[..|selection|] == selection;
  }

  /** Turn `i` of the approval loop carries its counts and the approvals from `selection[..i]` to `selection[..i + 1]`. */
  method ApproveTurn(store: Store, ghost users0: seq<UserRow>, selection: seq<Listed>, i: nat, approved: nat, skipped: nat)
    returns (approved': nat, skipped': nat)
    requires i < |selection| && store.Valid()
    requires store.users == ApprovedAll(users0, selection[..i])
    requires approved == PendingCount(selection[..i]) && approved + skipped == i
    modifies store`users
    ensures store.Valid()
    ensures store.users == ApprovedAll(users0, selection[..i + 1])
    ensures approved' == PendingCount(selection[..i + 1]) && approved' + skipped' == i + 1
  {
    assert selection[..i + 1] == selection[..i] + [selection[i]];
    PendingCountSnoc(selection[..i], selection[i]);
    ApprovedAllSnoc(users0, selection[..i], selection[i]);
    var counted := ApproveRow(store, selection[i]);
    if counted {
      approved', skipped' := approved + 1, skipped;
    } else {
      approved', skipped' := approved, skipped + 1;
    }
  }


  // ---------------------------------------------------------------------
  // buy_item
  // ---------------------------------------------------------------------

  /** How buy_item ends. */
  datatype BuyOutcome =
    | BuyNoItem             // the selected id is not found
    | BuyOwnItem            // the user published the item
    | BuyUnavailable        // the item is not active
    | BuyCancelled          // the offer dialog was cancelled
    | BuyDeclined           // the confirmation was answered no
    | WantSent(offer: real) // add_want recorded the intent
    | AlreadyWanted         // add_want found the (user, item) pair already recorded

  /** The refusals buy_item makes before any dialog; None lets the purchase go on. */
  function BuyRefusal(item: Option<ItemView>, user: User): (r: Option<BuyOutcome>)
    ensures r == Some(BuyNoItem) <==> item.None?
    ensures r == Some(BuyOwnItem) <==> item.Some? && IsOwner(item.value, user)
    ensures r.None? <==> item.Some? && !IsOwner(item.value, user) && item.value.row.status == Active
  {
    if item.None? then Some(BuyNoItem)
    else if item.value.ownerUsername == user.username then Some(BuyOwnItem)
    else if item.value.row.status != Active then Some(BuyUnavailable)
    else None
  }

  /** Once a want row names an item, its lookup shows one more wanter and the item is locked. */
  lemma WantLocksItem(t: Tables, w: WantRow)
    requires ItemsConstrained(t.items) && FindItemById(t, w.itemId).Some?
    ensures var v := FindItemById(t.(wants := t.wants + [w]), w.itemId);
            && v.Some? && v.value.row == FindItemById(t, w.itemId).value.row
            && v.value.wantCount == FindItemById(t, w.itemId).value.wantCount + 1
            && Locked(v.value)
  {
    var t' := t.(wants := t.wants + [w]);
    var row := FindItemById(t, w.itemId).value.row;
    assert Joined(t', row) == Joined(t, row);
    var v := FindItemById(t', w.itemId);
    ItemRowKeyed(t.items, row, v.value.row);
    WantCountAppend(t.wants, w, w.itemId);
  }

  /**
   * What buy_item ends with, given the looked-up item, the dialogs' answers and
   * whether the (user, item) pair is already recorded. The offer is the answer
   * for a bargainable item and 0 otherwise.
   */
  function BuyResult(item: Option<ItemView>, user: User, answer: Option<real>, confirmed: bool, wanted: bool)
    : (r: BuyOutcome)
    requires answer.Some? ==> answer.value >= 0.0
    ensures BuyRefusal(item, user).Some? ==> r == BuyRefusal(item, user).value
    ensures r == BuyCancelled <==> BuyRefusal(item, user).None? && item.value.row.canBargain && answer.None?
    ensures r == BuyDeclined <==>
              BuyRefusal(item, user).None? && (item.value.row.canBargain ==> answer.Some?) && !confirmed
    ensures r == AlreadyWanted <==>
              BuyRefusal(item, user).None? && (item.value.row.canBargain ==> answer.Some?) && confirmed && wanted
    ensures r.WantSent? <==>
              BuyRefusal(item, user).None? && (item.value.row.canBargain ==> answer.Some?) && confirmed && !wanted
    ensures r.WantSent? ==>
              r.offer >= 0.0 && r.offer == if item.value.row.canBargain then answer.value else DefaultOffer
  {
    match BuyRefusal(item, user)
    case Some(refusal) => refusal
    case None =>
      if item.value.row.canBargain && answer.None? then BuyCancelled
      else if !confirmed then BuyDeclined
      else if wanted then AlreadyWanted
      else WantSent(if item.value.row.canBargain then answer.value else DefaultOffer)
  }

  /**
   * buy_item for the selected id. `answer` is the offer dialog's answer (None
   * when it is cancelled; the dialog accepts no value below 0) and `confirmed`
   * the answer to the confirmation.
   */
  method BuyItem(store: Store, user: User, itemId: Id, answer: Option<real>, confirmed: bool)
    returns (outcome: BuyOutcome)
    requires store.Valid()
    requires answer.Some? ==> answer.value >= 0.0
    modifies store`wants, store`nextWantId
    ensures store.Valid()
    ensures outcome == BuyResult(FindItemById(old(store.Snapshot()), itemId), user, answer, confirmed,
                                 old(HasWant(store.wants, user.id, itemId)))
    ensures outcome.WantSent? ==>
              store.wants == old(store.wants) + [WantRow(old(store.nextWantId), user.id, itemId, outcome.offer)]
              && store.nextWantId == old(store.nextWantId) + 1
    ensures !outcome.WantSent? ==> store.wants == old(store.wants) && store.nextWantId == old(store.nextWantId)
    ensures outcome.WantSent? ==>
              FindItemById(store.Snapshot(), itemId).Some? && Locked(FindItemById(store.Snapshot(), itemId).value)
  {
    var item := FindItemById(store.Snapshot(), itemId);
    var refusal := BuyRefusal(item, user);
    if refusal.Some? {
      return refusal.value;
    }
    var offer := DefaultOffer;
    if item.value.row.canBargain {
      if answer.None? {
        return BuyCancelled;
      }
      offer := answer.value;
    }
    if !confirmed {
      return BuyDeclined;
    }
    var ok := RecordWant(store, itemId, user.id, offer);
    outcome := if ok then WantSent(offer) else AlreadyWanted;
  }

  /** The add_want call of buy_item, for an item the lookup found. */
  method RecordWant(store: Store, itemId: Id, userId: Id, offer: real) returns (ok: bool)
    requires store.Valid() && FindItemById(store.Snapshot(), itemId).Some?
    modifies store`wants, store`nextWantId
    ensures store.Valid()
    ensures ok <==> !old(HasWant(store.wants, userId, itemId))
    ensures ok ==> store.wants == old(store.wants) + [WantRow(old(store.nextWantId), userId, itemId, offer)]
                   && store.nextWantId == old(store.nextWantId) + 1
    ensures !ok ==> store.wants == old(store.wants) && store.nextWantId == old(store.nextWantId)
    ensures ok ==> FindItemById(store.Snapshot(), itemId).Some? && Locked(FindItemById(store.Snapshot(), itemId).value)
  {
    ghost var t0 := store.Snapshot();
    ghost var row := WantRow(store.nextWantId, userId, itemId, offer);
    ok := store.AddWant(itemId, userId, offer);
    if ok {
      WantLocksItem(t0, row);
      assert store.Snapshot() == t0.(wants := t0.wants + [row]);
    }
  }

  // ---------------------------------------------------------------------
  // confirm_sold (MainView) and the buyer selection window
  // ---------------------------------------------------------------------

  /** How the seller's confirm_sold ends. */
  datatype SellOutcome =
    | SellNoItem          // the selected id is not found
    | SellNotOwner        // only the owner may confirm a sale
    | SellAlreadySold     // the item is sold already
    | SellNoWanters       // nobody wants the item yet
    | NoBuyerChosen       // the buyer list was confirmed with no row selected
    | SaleDeclined        // the sale confirmation was answered no
    | SoldTo(buyer: User) // the store's confirm_sold ran for this buyer

  /** The refusals confirm_sold makes before the buyer list opens; None lets the sale go on. */
  function SellRefusal(item: Option<ItemView>, user: User, wanters: seq<User>): (r: Option<SellOutcome>)
    ensures r == Some(SellNoItem) <==> item.None?
    ensures r == Some(SellNotOwner) <==> item.Some? && !IsOwner(item.value, user)
    ensures r == Some(SellAlreadySold) <==> item.Some? && IsOwner(item.value, user) && item.value.row.status == Sold
    ensures r.None? <==> item.Some? && IsOwner(item.value, user) && item.value.row.status != Sold && wanters != []
  {
    if item.None? then Some(SellNoItem)
    else if item.value.ownerUsername != user.username then Some(SellNotOwner)
    else if item.value.row.status == Sold then Some(SellAlreadySold)
    else if wanters == [] then Some(SellNoWanters)
    else None
  }

  /**
   * What confirm_sold ends with, given the looked-up item, its wanters, the row
   * chosen in the buyer list (an index into the wanters shown) and the answer to
   * the sale confirmation. The buyer is always one of the wanters.
   */
  function SellResult(item: Option<ItemView>, user: User, wanters: seq<User>, choice: Option<nat>, confirmed: bool)
    : (r: SellOutcome)
    requires choice.Some? ==> choice.value < |wanters|
    ensures SellRefusal(item, user, wanters).Some? ==> r == SellRefusal(item, user, wanters).value
    ensures r == NoBuyerChosen <==> SellRefusal(item, user, wanters).None? && choice.None?
    ensures r == SaleDeclined <==> SellRefusal(item, user, wanters).None? && choice.Some? && !confirmed
    ensures r.SoldTo? <==> SellRefusal(item, user, wanters).None? && choice.Some? && confirmed
    ensures r.SoldTo? ==> r.buyer in wanters && r.buyer == wanters[choice.value]
  {
    match SellRefusal(item, user, wanters)
    case Some(refusal) => refusal
    case None =>
      if choice.None? then NoBuyerChosen
      else if !confirmed then SaleDeclined
      else SoldTo(wanters[choice.value])
  }

  /** After confirm_sold the item is still found, now sold to that buyer, with its wanters unchanged. */
  lemma SaleShown(t: Tables, itemId: Id, buyerId: Id)
    requires ItemsConstrained(t.items) && FindItemById(t, itemId).Some?
    ensures var v := FindItemById(t.(items := SoldIn(t.items, itemId, buyerId)), itemId);
            && v.Some?
            && v.value.row == FindItemById(t, itemId).value.row.(status := Sold, buyerId := Some(buyerId))
            && v.value.wantCount == FindItemById(t, itemId).value.wantCount
  {
    var t' := t.(items := SoldIn(t.items, itemId, buyerId));
    var row := FindItemById(t, itemId).value.row;
    var k :| 0 <= k < |t.items| && t.items[k] == row;
    var sold := t'.items[k];
    assert sold == row.(status := Sold, buyerId := Some(buyerId));
    assert sold in t'.items && Joined(t', sold) == Joined(t, row);
    var v := FindItemById(t', itemId);
    var j :| 0 <= j < |t'.items| && t'.items[j] == v.value.row;
    assert t.items[j] in t.items && t.items[j].id == itemId;
    ItemRowKeyed(t.items, row, t.items[j]);
  }

  /**
   * confirm_sold for the selected id; `choice` is the row selected in the buyer
   * list, which shows exactly the wanters, and `confirmed` the answer to the
   * sale confirmation.
   */
  method ConfirmSale(store: Store, user: User, itemId: Id, choice: Option<nat>, confirmed: bool)
    returns (outcome: SellOutcome)
    requires store.Valid()
    requires choice.Some? ==> choice.value < |GetItemWanters(store.Snapshot(), itemId)|
    modifies store`items
    ensures store.Valid()
    ensures outcome == SellResult(FindItemById(old(store.Snapshot()), itemId), user,
                                  GetItemWanters(old(store.Snapshot()), itemId), choice, confirmed)
    ensures outcome.SoldTo? ==> store.items == SoldIn(old(store.items), itemId, outcome.buyer.id)
    ensures !outcome.SoldTo? ==> store.items == old(store.items)
    ensures outcome.SoldTo? ==>
              FindItemById(store.Snapshot(), itemId).Some?
              && FindItemById(store.Snapshot(), itemId).value.row.status == Sold
              && FindItemById(store.Snapshot(), itemId).value.row.buyerId == Some(outcome.buyer.id)
  {
    var item := FindItemById(store.Snapshot(), itemId);
    var wanters := GetItemWanters(store.Snapshot(), itemId);
    var refusal := SellRefusal(item, user, wanters);
    if refusal.Some? {
      return refusal.value;
    }
    if choice.None? {
      return NoBuyerChosen;
    }
    if !confirmed {
      return SaleDeclined;
    }
    var buyer := wanters[choice.value];
    RecordSale(store, itemId, buyer.id);
    outcome := SoldTo(buyer);
  }

  /** The store's confirm_sold call, for an item the lookup found. */
  method RecordSale(store: Store, itemId: Id, buyerId: Id)
    requires store.Valid() && FindItemById(store.Snapshot(), itemId).Some?
    modifies store`items
    ensures store.Valid()
    ensures store.items == SoldIn(old(store.items), itemId, buyerId)
    ensures FindItemById(store.Snapshot(), itemId).Some?
            && FindItemById(store.Snapshot(), itemId).value.row.status == Sold
            && FindItemById(store.Snapshot(), itemId).value.row.buyerId == Some(buyerId)
  {
    ghost var t0 := store.Snapshot();
    store.ConfirmSold(itemId, buyerId);
    SaleShown(t0, itemId, buyerId);
    assert store.Snapshot() == t0.(items := SoldIn(t0.items, itemId, buyerId));
  }

  // ---------------------------------------------------------------------
  // The registration form (do_register)
  // ---------------------------------------------------------------------

  /** The six entries of the registration form, as typed. */
  datatype RegisterForm = RegisterForm(
    username: string, password: string, confirm: string,
    address: string, phone: string, email: string)

  datatype RegisterOutcome =
    | FieldsEmpty                      // some entry is blank once stripped
    | PasswordsDiffer                  // the two stripped passwords differ
    | Registered                       // register_user accepted the form
    | RegisterRefused(message: string) // register_user raised ValueError(message)

  /** Every entry holds something once stripped. */
  predicate Filled(f: RegisterForm) {
    && Strip(f.username) != "" && Strip(f.password) != "" && Strip(f.confirm) != ""
    && Strip(f.address) != "" && Strip(f.phone) != "" && Strip(f.email) != ""
  }

  /** The checks do_register makes before it calls the store; None lets the registration go on. */
  function RegisterRefusal(f: RegisterForm): (r: Option<RegisterOutcome>)
    ensures r == Some(FieldsEmpty) <==> !Filled(f)
    ensures r == Some(PasswordsDiffer) <==> Filled(f) && Strip(f.password) != Strip(f.confirm)
    ensures r.None? <==> Filled(f) && Strip(f.password) == Strip(f.confirm)
  {
    if !Filled(f) then Some(FieldsEmpty)
    else if Strip(f.password) != Strip(f.confirm) then Some(PasswordsDiffer)
    else None
  }

  /** The contact do_register stores: the three stripped contact entries. */
  function FormContact(f: RegisterForm): Contact {
    map["address" := Strip(f.address), "phone" := Strip(f.phone), "email" := Strip(f.email)]
  }

  /**
   * do_register: the stripped entries are checked, then registered; a taken
   * username comes back as the store's message. Logging in afterwards with the
   * stripped name and password finds the new, pending user.
   */
  method DoRegister(store: Store, f: RegisterForm, salt: Bytes) returns (outcome: RegisterOutcome)
    requires store.Valid()
    modifies store`users, store`nextUserId
    ensures store.Valid()
    ensures RegisterRefusal(f).Some? ==> outcome == RegisterRefusal(f).value
    ensures RegisterRefusal(f).None? ==>
              (outcome == Registered <==> old(UserByName(store.users, Strip(f.username))).None?)
    ensures outcome != Registered ==>
              store.users == old(store.users) && store.nextUserId == old(store.nextUserId)
    ensures outcome.RegisterRefused? ==> outcome.message == UsernameTaken
    ensures outcome == Registered ==>
              store.users == old(store.users) + [UserRow(old(store.nextUserId), Strip(f.username),
                                                         store.kdf(Strip(f.password), salt), salt,
                                                         RegularUser, Pending, FormContact(f))]
              && store.nextUserId == old(store.nextUserId) + 1
    ensures outcome == Registered ==>
              Authenticate(store.Snapshot(), store.kdf, Strip(f.username), Strip(f.password))
              == Some(User(old(store.nextUserId), Strip(f.username), RegularUser, Pending, FormContact(f)))
  {
    var refusal := RegisterRefusal(f);
    if refusal.Some? {
      return refusal.value;
    }
    var error := store.RegisterUser(Strip(f.username), Strip(f.password), salt,
                                    Strip(f.address), Strip(f.phone), Strip(f.email));
    outcome := if error.None? then Registered else RegisterRefused(error.value);
  }

  // ---------------------------------------------------------------------
  // The admin creation form (CreateAdminView.create_admin)
  // ---------------------------------------------------------------------

  datatype AdminFormRefusal = AdminFieldsEmpty | AdminPasswordsDiffer

  /**
   * The checks of the admin creation form: the username is stripped, the
   * password is taken as typed; both must be non-empty and the password must be
   * typed the same twice.
   */
  function AdminFormCheck(usernameText: string, password: string, confirm: string): (r: Option<AdminFormRefusal>)
    ensures r == Some(AdminFieldsEmpty) <==> Strip(usernameText) == "" || password == ""
    ensures r.None? <==> Strip(usernameText) != "" && password != "" && password == confirm
  {
    if Strip(usernameText) == "" || password == "" then Some(AdminFieldsEmpty)
    else if password != confirm then Some(AdminPasswordsDiffer)
    else None
  }

  /** A name made of non-ASCII whitespace (an ideographic and a no-break space) counts as blank. */
  lemma UnicodeBlankNameRefused(password: string, confirm: string)
    ensures AdminFormCheck("\U{3000}\U{A0}", password, confirm) == Some(AdminFieldsEmpty)
  {
    var s := "\U{3000}\U{A0}";
    assert s[1..][1..] == [];
    assert StripLeft(s) == [];
  }

  // ---------------------------------------------------------------------
  // The item form (ItemInfoWindow.save_item)
  // ---------------------------------------------------------------------

  /**
   * The item form as typed: the four common entries, the category and
   * bargaining choices, and one entry per attribute of the category's template.
   */
  datatype ItemForm = ItemForm(
    name: string, description: string, price: string, address: string,
    category: string, bargain: string, specific: map<string, string>)

  /** The bargaining choice that means yes. */
  const BargainYes := "是"

  /** Every common entry holds something once stripped, and both choices are made. */
  predicate ItemFormFilled(f: ItemForm) {
    && Strip(f.name) != "" && Strip(f.description) != "" && Strip(f.price) != "" && Strip(f.address) != ""
    && f.category != "" && f.bargain != ""
  }

  datatype SaveOutcome =
    | ItemFieldsEmpty                        // a common entry or a choice is missing
    | PriceNotNumber                         // float() refuses the stripped price
    | ItemRevised                            // revise_item ran with the full form
    | ItemCreated                            // create_item inserted the item
    | ItemCreateRaised(error: CreateItemError) // create_item raised; the exception leaves the handler

  datatype FormCheck = FormRejected(outcome: SaveOutcome) | FormAccepted(price: real)

  /** save_item's checks, and the price the form denotes when they pass. */
  function CheckItemForm(f: ItemForm): (r: FormCheck)
    ensures r == FormRejected(ItemFieldsEmpty) <==> !ItemFormFilled(f)
    ensures r == FormRejected(PriceNotNumber) <==> ItemFormFilled(f) && ParseNumber(Strip(f.price)).None?
    ensures r.FormAccepted? <==> ItemFormFilled(f) && ParseNumber(Strip(f.price)).Some?
    ensures r.FormAccepted? ==> ParseNumber(Strip(f.price)) == Some(r.price)
  {
    if !ItemFormFilled(f) then FormRejected(ItemFieldsEmpty)
    else match ParseNumber(Strip(f.price))
      case None => FormRejected(PriceNotNumber)
      case Some(p) => FormAccepted(p)
  }

  /** The stripped attribute entries, keyed by attribute name. */
  function SpecificValues(f: ItemForm): map<string, string> {
    map k | k in f.specific :: Strip(f.specific[k])
  }

  /** The update_data of an edit: every editable column, from the stripped form. */
  function RevisionOf(f: ItemForm, price: real, images: seq<string>): ItemUpdate {
    ItemUpdate(Some(Strip(f.name)), Some(Strip(f.description)), Some(price), Some(f.bargain == BargainYes),
               Some(Strip(f.address)), Some(images), Some(SpecificValues(f)))
  }

  /** An edit saved through the form replaces every editable column of the item with the form's values. */
  lemma RevisionReplacesAll(row: ItemRow, f: ItemForm, price: real, images: seq<string>)
    ensures var r := Revised(row, RevisionOf(f, price, images));
            && r.name == Strip(f.name) && r.description == Strip(f.description) && r.price == price
            && r.canBargain == (f.bargain == BargainYes) && r.address == Strip(f.address)
            && r.images == images && r.attributes == SpecificValues(f)
            && r == row.(name := r.name, description := r.description, price := r.price,
                         canBargain := r.canBargain, address := r.address, images := r.images,
                         attributes := r.attributes)
  {
  }

  /**
   * save_item. `editing` is the id of the item being edited (None for a new
   * item) and `images` the image paths the image step settled on. An edit
   * revises every editable column; a new item is created with the user's own
   * phone, email and username.
   */
  method SaveItem(store: Store, user: User, editing: Option<Id>, f: ItemForm, images: seq<string>)
    returns (outcome: SaveOutcome)
    requires store.Valid()
    modifies store`items, store`nextItemId
    ensures store.Valid()
    ensures CheckItemForm(f).FormRejected? ==>
              outcome == CheckItemForm(f).outcome && store.items == old(store.items)
    ensures outcome != ItemCreated ==> store.nextItemId == old(store.nextItemId)
    ensures CheckItemForm(f).FormAccepted? && editing.Some? ==>
              && outcome == ItemRevised
              && store.items == RevisedIn(old(store.items), editing.value,
                                          RevisionOf(f, CheckItemForm(f).price, images))
    ensures CheckItemForm(f).FormAccepted? && editing.None? ==>
              (outcome == ItemCreated <==>
                 old(CategoryByName(store.categories, f.category)).Some?
                 && old(UserByName(store.users, user.username)).Some?)
    ensures outcome.ItemCreateRaised? ==> store.items == old(store.items)
    ensures outcome.ItemCreateRaised? && old(CategoryByName(store.categories, f.category)).None? ==>
              outcome.error == CategoryNotFound(f.category)
    ensures outcome.ItemCreateRaised? && old(CategoryByName(store.categories, f.category)).Some? ==>
              outcome.error == UserNotFound(user.username)
    ensures outcome == ItemCreated ==>
              store.items == old(store.items) + [FormRow(old(store.nextItemId), f, CheckItemForm(f).price, images,
                                                         CategoryByName(store.categories, f.category).value.id,
                                                         UserByName(store.users, user.username).value.id)]
              && store.nextItemId == old(store.nextItemId) + 1
  {
    var check := CheckItemForm(f);
    if check.FormRejected? {
      return check.outcome;
    }
    outcome := SaveChecked(store, user, editing, f, check.price, images);
  }

  /** The rest of save_item once the form's checks pass with `price`: revise_item for an edit, create_item otherwise. */
  method SaveChecked(store: Store, user: User, editing: Option<Id>, f: ItemForm, price: real, images: seq<string>)
    returns (outcome: SaveOutcome)
    requires store.Valid()
    modifies store`items, store`nextItemId
    ensures store.Valid()
    ensures outcome != ItemCreated ==> store.nextItemId == old(store.nextItemId)
    ensures editing.Some? ==>
              outcome == ItemRevised && store.items == RevisedIn(old(store.items), editing.value, RevisionOf(f, price, images))
    ensures editing.None? ==>
              (outcome == ItemCreated <==>
                 old(CategoryByName(store.categories, f.category)).Some?
                 && old(UserByName(store.users, user.username)).Some?)
    ensures outcome.ItemCreateRaised? ==> store.items == old(store.items)
    ensures outcome.ItemCreateRaised? && old(CategoryByName(store.categories, f.category)).None? ==>
              outcome.error == CategoryNotFound(f.category)
    ensures outcome.ItemCreateRaised? && old(CategoryByName(store.categories, f.category)).Some? ==>
              outcome.error == UserNotFound(user.username)
    ensures outcome == ItemCreated ==>
              store.items == old(store.items) + [FormRow(old(store.nextItemId), f, price, images,
                                                         CategoryByName(store.categories, f.category).value.id,
                                                         UserByName(store.users, user.username).value.id)]
              && store.nextItemId == old(store.nextItemId) + 1
  {
    if editing.Some? {
      store.ReviseItem(editing.value, RevisionOf(f, price, images));
      outcome := ItemRevised;
    } else {
      outcome := CreateFromForm(store, user, f, price, images);
    }
  }

  /** The row create_item inserts for a new item saved through the form: active, unsold, stripped fields. */
  function FormRow(id: Id, f: ItemForm, price: real, images: seq<string>, categoryId: Id, ownerId: Id): ItemRow {
    ItemRow(id, Strip(f.name), Strip(f.description), categoryId, ownerId, None, Active, price,
            f.bargain == BargainYes, Strip(f.address), SpecificValues(f), images)
  }

  /** The create_item call of save_item for a new item, with the user's own phone, email and username. */
  method CreateFromForm(store: Store, user: User, f: ItemForm, price: real, images: seq<string>)
    returns (outcome: SaveOutcome)
    requires store.Valid()
    modifies store`items, store`nextItemId
    ensures store.Valid()
    ensures outcome == ItemCreated || outcome.ItemCreateRaised?
    ensures outcome == ItemCreated <==>
              old(CategoryByName(store.categories, f.category)).Some?
              && old(UserByName(store.users, user.username)).Some?
    ensures outcome.ItemCreateRaised? ==>
              store.items == old(store.items) && store.nextItemId == old(store.nextItemId)
    ensures outcome.ItemCreateRaised? && old(CategoryByName(store.categories, f.category)).None? ==>
              outcome.error == CategoryNotFound(f.category)
    ensures outcome.ItemCreateRaised? && old(CategoryByName(store.categories, f.category)).Some? ==>
              outcome.error == UserNotFound(user.username)
    ensures outcome == ItemCreated ==>
              store.items == old(store.items) + [FormRow(old(store.nextItemId), f, price, images,
                                                         CategoryByName(store.categories, f.category).value.id,
                                                         UserByName(store.users, user.username).value.id)]
              && store.nextItemId == old(store.nextItemId) + 1
  {
    var error := store.CreateItem(Strip(f.name), Strip(f.description), price, f.bargain == BargainYes,
                                  Strip(f.address), ContactField(user.contact, "phone"),
                                  ContactField(user.contact, "email"), f.category, user.username,
                                  SpecificValues(f), Some(images));
    outcome := if error.None? then ItemCreated else ItemCreateRaised(error.value);
  }

  // ---------------------------------------------------------------------
  // The message board (ItemDetailWindow.send_message)
  // ---------------------------------------------------------------------

  /**
   * send_message: blank text sends nothing; otherwise the stripped text is
   * posted on the item, as a reply when one was chosen, and it closes the
   * item's thread as shown to every reader.
   */
  method SendMessage(store: Store, itemId: Id, sender: Id, text: string, replyTo: Option<Id>)
    returns (sent: bool)
    requires store.Valid()
    modifies store`messages, store`nextMessageId, store`clock
    ensures store.Valid()
    ensures sent <==> Strip(text) != ""
    ensures !sent ==> store.messages == old(store.messages) && store.clock == old(store.clock)
                      && store.nextMessageId == old(store.nextMessageId)
    ensures sent ==> store.nextMessageId == old(store.nextMessageId) + 1 && store.clock > old(store.clock)
    ensures sent ==>
              store.messages == old(store.messages) + [MessageRow(old(store.nextMessageId), itemId, sender,
                                                                  Strip(text), replyTo, old(store.clock))]
    ensures sent && UserById(store.users, sender).Some? ==>
              var shown := GetMessages(store.Snapshot(), itemId);
              && |shown| == |GetMessages(old(store.Snapshot()), itemId)| + 1
              && shown[..|shown| - 1] == GetMessages(old(store.Snapshot()), itemId)
              && shown[|shown| - 1].content == Strip(text) && shown[|shown| - 1].senderId == sender
  {
    var content := Strip(text);
    if content == "" {
      return false;
    }
    ghost var t0 := store.Snapshot();
    ghost var row := MessageRow(store.nextMessageId, itemId, sender, content, replyTo, store.clock);
    store.AddMessage(itemId, sender, content, replyTo);
    assert store.Snapshot() == t0.(messages := t0.messages + [row]);
    if UserById(t0.users, sender).Some? {
      ThreadAfterAdd(t0, row);
    }
    sent := true;
  }
}
