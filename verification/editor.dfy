/** The edit dialog of one profile. It keeps a private copy of the profile's
    path list and a list widget showing the same paths. Adding appends to
    both. Removing deletes each selected widget row, but deletes the first
    EQUAL path from the list, which is not the same element when a path is
    listed twice. After every change the dialog writes its list into the
    shared profile map and saves the whole map. */
module Editor {
  import opened Wrappers
  import opened Profiles

  /** A row of the list widget: `id` stands for the identity of the widget
      item, `text` for the path it shows. */
  datatype Item = Item(id: nat, text: Path)

  /** The dialog: the profile it edits, its copy of the path list, the
      widget's rows, and the identity the next new item gets. */
  datatype Dialog = Dialog(name: string, paths: seq<Path>, rows: seq<Item>, nextId: nat)

  /** Everything an edit can touch: the dialog, the shared profile map and
      the disk. */
  datatype Session = Session(dialog: Dialog, profiles: Profiles, disk: Disk)

  /** The paths the widget shows, top to bottom. */
  function Texts(rows: seq<Item>): (t: seq<Path>)
    ensures |t| == |rows|
    ensures forall k :: 0 <= k < |rows| ==> t[k] == rows[k].text
  {
    seq(|rows|, k requires 0 <= k < |rows| => rows[k].text)
  }

  predicate DistinctIds(rows: seq<Item>)
  {
    forall j, k :: 0 <= j < k < |rows| ==> rows[j].id != rows[k].id
  }

  /** Every widget item is a distinct object, created before `nextId`. */
  predicate Fresh(d: Dialog)
  {
    DistinctIds(d.rows) && forall k :: 0 <= k < |d.rows| ==> d.rows[k].id < d.nextId
  }

  /** The widget and the path list hold the same paths, counted with
      multiplicity, though not necessarily in the same order. */
  predicate Mirrors(d: Dialog)
  {
    multiset(Texts(d.rows)) == multiset(d.paths)
  }

  /** The shared map's entry for the edited profile is the dialog's list. */
  predicate Synced(s: Session)
  {
    s.dialog.name in s.profiles && s.profiles[s.dialog.name] == s.dialog.paths
  }

  /** The profile file loads back to the map in memory. */
  predicate Persisted(s: Session)
  {
    Load(s.disk.file) == Ok(s.profiles)
  }

  /** What holds of every session the launcher can reach. */
  predicate Valid(s: Session)
  {
    Fresh(s.dialog) && Mirrors(s.dialog) && Synced(s) && Persisted(s)
  }

  /** Opening the dialog: copy the list and fill the widget with it. */
  function Open(name: string, paths: seq<Path>): (d: Dialog)
    ensures d.name == name && d.paths == paths
    ensures Texts(d.rows) == paths
    ensures Fresh(d) && Mirrors(d)
  {
    Dialog(name, paths, seq(|paths|, k requires 0 <= k < |paths| => Item(k, paths[k])), |paths|)
  }

  /** What every edit ends with: the dialog takes its new state, the map's
      entry for the profile is replaced by the dialog's list, and the whole
      map is saved once. */
  function Commit(s: Session, d': Dialog): (s': Session)
    requires d'.name == s.dialog.name
    ensures s'.dialog == d'
    ensures s'.profiles.Keys == s.profiles.Keys + {d'.name}
    ensures s'.profiles[d'.name] == d'.paths
    ensures forall n :: n in s.profiles && n != d'.name ==> s'.profiles[n] == s.profiles[n]
    ensures Load(s'.disk.file) == Ok(s'.profiles)
    ensures s'.disk.writes == s.disk.writes + [s'.profiles]
  {
    var m := s.profiles[d'.name := d'.paths];
    Session(d', m, Save(s.disk, m))
  }

  /** The "add program" button, given what the input box returned: whether
      it was confirmed and the text typed. Only a confirmed, non-empty path
      changes anything; it then goes at the end of the list and of the
      widget, the map's entry for the profile is replaced by the list, and
      the map is saved once. */
  function AddProgram(s: Session, ok: bool, text: Path): (s': Session)
    ensures !ok || text == "" ==> s' == s
    ensures ok && text != "" ==>
              && s'.dialog.name == s.dialog.name
              && s'.dialog.paths == s.dialog.paths + [text]
              && Texts(s'.dialog.rows) == Texts(s.dialog.rows) + [text]
              && s'.profiles.Keys == s.profiles.Keys + {s.dialog.name}
              && s'.profiles[s.dialog.name] == s'.dialog.paths
              && (forall n :: n in s.profiles && n != s.dialog.name ==> s'.profiles[n] == s.profiles[n])
              && Load(s'.disk.file) == Ok(s'.profiles)
              && s'.disk.writes == s.disk.writes + [s'.profiles]
  {
    if ok && text != "" then
      var d := s.dialog;
      Commit(s, d.(paths := d.paths + [text], rows := d.rows + [Item(d.nextId, text)], nextId := d.nextId + 1))
    else
      s
  }

  /** A confirmed add is the store's append on the edited profile, and it
      keeps the session valid. */
  lemma AddAppends(s: Session, p: Path)
    requires Valid(s) && p != ""
    ensures AddProgram(s, true, p).profiles == Append(s.profiles, s.dialog.name, p)
    ensures Valid(AddProgram(s, true, p))
  {
    var s' := AddProgram(s, true, p);
    assert multiset(Texts(s'.dialog.rows)) == multiset(Texts(s.dialog.rows)) + multiset{p};
  }

  /** Qt's `row(item)`: the row holding the item with identity `id`, or -1. */
  function RowOf(rows: seq<Item>, id: nat): (r: int)
    ensures -1 <= r < |rows|
    ensures r == -1 <==> forall k :: 0 <= k < |rows| ==> rows[k].id != id
    ensures r >= 0 ==> rows[r].id == id
  {
    if rows == [] then -1
    else if rows[0].id == id then 0
    else
      var r := RowOf(rows[1..], id);
      assert forall k :: 1 <= k < |rows| ==> rows[k] == rows[1..][k - 1];
      if r == -1 then -1 else r + 1
  }

  /** Qt's `takeItem(row)`: the row goes, the rows above it stay where they
      are, and the rows below it move up one, keeping their order. A row
      outside the widget takes nothing. */
  function TakeAt(rows: seq<Item>, r: int): (rows': seq<Item>)
    ensures 0 <= r < |rows| ==> |rows'| == |rows| - 1
    ensures 0 <= r < |rows| ==> forall j :: 0 <= j < r ==> rows'[j] == rows[j]
    ensures 0 <= r < |rows| ==> forall j :: r <= j < |rows'| ==> rows'[j] == rows[j + 1]
    ensures !(0 <= r < |rows|) ==> rows' == rows
  {
    if 0 <= r < |rows| then rows[..r] + rows[r + 1..] else rows
  }

  /** The selected items, in row order. */
  function Selected(rows: seq<Item>, selection: set<nat>): (items: seq<Item>)
    ensures forall it :: it in items ==> it in rows && it.id in selection
    ensures forall k :: 0 <= k < |rows| && rows[k].id in selection ==> rows[k] in items
  {
    if rows == [] then []
    else
      var rest := Selected(rows[1..], selection);
      assert forall k :: 1 <= k < |rows| ==> rows[k] == rows[1..][k - 1];
      (if rows[0].id in selection then [rows[0]] else []) + rest
  }

  /** A selection never holds the same widget item twice. */
  lemma {:induction false} SelectedDistinct(rows: seq<Item>, selection: set<nat>)
    requires DistinctIds(rows)
    ensures DistinctIds(Selected(rows, selection))
    decreases |rows|
  {
    if rows != [] {
      var rest := Selected(rows[1..], selection);
      SelectedDistinct(rows[1..], selection);
      if rows[0].id in selection {
        assert forall it :: it in rest ==> it.id != rows[0].id by {
          assert forall m :: 0 <= m < |rows[1..]| ==> rows[1..][m].id != rows[0].id;
        }
        ConsDistinct(rows[0], rest);
        assert Selected(rows, selection) == [rows[0]] + rest;
      } else {
        assert Selected(rows, selection) == rest;
      }
    }
  }

  lemma ConsDistinct(x: Item, rest: seq<Item>)
    requires DistinctIds(rest)
    requires forall it :: it in rest ==> it.id != x.id
    ensures DistinctIds([x] + rest)
  {
    var items := [x] + rest;
    forall j, k | 0 <= j < k < |items|
      ensures items[j].id != items[k].id
    {
      assert items[k] == rest[k - 1];
      if j > 0 {
        assert items[j] == rest[j - 1];
      }
    }
  }

  /** One pass of the removal loop for item `it`: `list.remove` of its
      text, `takeItem` of its row, then the map's entry is replaced by the
      list and the map is saved. `None` stands for the ValueError raised
      when the list holds no such path. */
  function RemoveOne(s: Session, it: Item): (r: Option<Session>)
    ensures r.None? <==> it.text !in s.dialog.paths
    ensures r.Some? ==>
              var i := IndexOf(s.dialog.paths, it.text);
              && r.value.dialog.name == s.dialog.name
              && r.value.dialog.nextId == s.dialog.nextId
              && r.value.dialog.paths == s.dialog.paths[..i] + s.dialog.paths[i + 1..]
              && r.value.dialog.rows == TakeAt(s.dialog.rows, RowOf(s.dialog.rows, it.id))
              && multiset(r.value.dialog.paths) + multiset{it.text} == multiset(s.dialog.paths)
              && r.value.profiles.Keys == s.profiles.Keys + {s.dialog.name}
              && r.value.profiles[s.dialog.name] == r.value.dialog.paths
              && (forall n :: n in s.profiles && n != s.dialog.name ==> r.value.profiles[n] == s.profiles[n])
              && Load(r.value.disk.file) == Ok(r.value.profiles)
              && r.value.disk.writes == s.disk.writes + [r.value.profiles]
  {
    var d := s.dialog;
    match RemoveFirst(d.paths, it.text)
    case None => None
    case Some(p) =>
      Some(Commit(s, d.(paths := p, rows := TakeAt(d.rows, RowOf(d.rows, it.id)))))
  }

  /** How the removal loop ends: normally, or by a ValueError for the
      path `missing`, with the session as the earlier passes left it. */
  datatype Removal = Done(session: Session) | Raised(session: Session, missing: Path)

  /** The removal loop over `items`. Each finished pass removes one path
      and writes the file once more, and the edited profile is the only
      entry of the map that changes. */
  function RemoveItems(s: Session, items: seq<Item>): (r: Removal)
    ensures r.session.dialog.name == s.dialog.name
    ensures r.session.dialog.nextId == s.dialog.nextId
    ensures |r.session.dialog.paths| <= |s.dialog.paths|
    ensures |r.session.disk.writes| == |s.disk.writes| + (|s.dialog.paths| - |r.session.dialog.paths|)
    ensures r.session.disk.writes[..|s.disk.writes|] == s.disk.writes
    ensures r.Done? ==> |r.session.dialog.paths| == |s.dialog.paths| - |items|
    ensures r.Done? ==> multiset(r.session.dialog.paths) + multiset(Texts(items)) == multiset(s.dialog.paths)
    ensures r.session.profiles.Keys <= s.profiles.Keys + {s.dialog.name}
    ensures s.profiles.Keys <= r.session.profiles.Keys
    ensures forall n :: n in s.profiles && n != s.dialog.name ==> r.session.profiles[n] == s.profiles[n]
    decreases |items|
  {
    if items == [] then Done(s)
    else
      match RemoveOne(s, items[0])
      case None => Raised(s, items[0].text)
      case Some(s') =>
        var r := RemoveItems(s', items[1..]);
        PrefixOfPrefix(s.disk.writes, s'.disk.writes, r.session.disk.writes);
        if r.Done? then
          RemovedTexts(s.dialog.paths, s'.dialog.paths, r.session.dialog.paths, items);
          r
        else
          r
  }

  /** The write log only grows: a prefix of a prefix is a prefix. */
  lemma PrefixOfPrefix<T>(a: seq<T>, b: seq<T>, c: seq<T>)
    requires |a| <= |b| && b[..|a|] == a
    requires |b| <= |c| && c[..|b|] == b
    ensures c[..|a|] == a
  {
    assert c[..|a|] == c[..|b|][..|a|];
  }

  /** If the first pass took the first item's text out of the list and the
      later passes took the other items' texts, the loop took all its
      items' texts out. */
  lemma RemovedTexts(before: seq<Path>, mid: seq<Path>, after: seq<Path>, items: seq<Item>)
    requires items != []
    requires multiset(mid) + multiset{items[0].text} == multiset(before)
    requires multiset(after) + multiset(Texts(items[1..])) == multiset(mid)
    ensures multiset(after) + multiset(Texts(items)) == multiset(before)
  {
    TextsCons(items);
  }

  lemma TextsCons(items: seq<Item>)
    requires items != []
    ensures Texts(items) == [items[0].text] + Texts(items[1..])
  {
    assert forall k :: 1 <= k < |items| ==> Texts(items)[k] == Texts(items[1..])[k - 1];
  }

  /** The "remove selected" button: nothing happens, and nothing is saved,
      when no row is selected; otherwise the loop runs over the selection. */
  function RemoveSelected(s: Session, selection: set<nat>): (r: Removal)
    ensures (forall k :: 0 <= k < |s.dialog.rows| ==> s.dialog.rows[k].id !in selection) ==> r == Done(s)
    ensures r.session.dialog.name == s.dialog.name
    ensures |r.session.dialog.paths| <= |s.dialog.paths|
    ensures |r.session.disk.writes| == |s.disk.writes| + (|s.dialog.paths| - |r.session.dialog.paths|)
    ensures r.session.disk.writes[..|s.disk.writes|] == s.disk.writes
    ensures r.Done? ==>
              multiset(r.session.dialog.paths) + multiset(Texts(Selected(s.dialog.rows, selection)))
              == multiset(s.dialog.paths)
    ensures s.profiles.Keys <= r.session.profiles.Keys <= s.profiles.Keys + {s.dialog.name}
    ensures forall n :: n in s.profiles && n != s.dialog.name ==> r.session.profiles[n] == s.profiles[n]
  {
    var items := Selected(s.dialog.rows, selection);
    if items == [] then Done(s) else RemoveItems(s, items)
  }

  /** Removing a row of the widget keeps the session valid. Because the
      widget holds the same paths as the list, `list.remove` finds the
      row's text and does not raise. Exactly that item leaves the widget,
      and every other item stays. */
  lemma RemoveOneValid(s: Session, it: Item)
    requires Valid(s) && it in s.dialog.rows
    ensures RemoveOne(s, it).Some?
    ensures Valid(RemoveOne(s, it).value)
    ensures forall x :: x in RemoveOne(s, it).value.dialog.rows <==> x in s.dialog.rows && x != it
  {
    var d := s.dialog;
    var q := RowFound(d, it);
    var s' := RemoveOne(s, it).value;
    var rows' := d.rows[..q] + d.rows[q + 1..];
    assert s'.dialog.rows == rows';
    assert Fresh(s'.dialog) && forall x :: x in rows' <==> x in d.rows && x != it by {
      TakeAtRows(d.rows, q);
      TakeAtKeeps(d.rows, q);
    }
    assert Mirrors(s'.dialog) by {
      TakeAtRows(d.rows, q);
      MultisetRemoveAt(Texts(d.rows), q);
    }
    assert Synced(s') && Persisted(s');
  }

  /** A row of a widget that mirrors the list shows a path the list holds,
      and Qt's `row` finds it at its own position. */
  lemma RowFound(d: Dialog, it: Item) returns (q: nat)
    requires Fresh(d) && Mirrors(d) && it in d.rows
    ensures q < |d.rows| && d.rows[q] == it && RowOf(d.rows, it.id) == q
    ensures it.text in d.paths
  {
    q :| 0 <= q < |d.rows| && d.rows[q] == it;
    assert Texts(d.rows)[q] == it.text;
    assert it.text in multiset(d.paths);
  }

  /** In a valid session, removing a widget row changes the shared map
      exactly as the store's removal of that row's path from the edited
      profile. */
  lemma RemoveAgreesWithStore(s: Session, it: Item)
    requires Valid(s) && it in s.dialog.rows
    ensures RemovePath(s.profiles, s.dialog.name, it.text).Some?
    ensures RemoveOne(s, it).Some?
    ensures RemoveOne(s, it).value.profiles == RemovePath(s.profiles, s.dialog.name, it.text).value
  {
    var q := RowFound(s.dialog, it);
  }

  /** Dropping row `r` keeps identities distinct and drops the same
      position from what the widget shows. */
  lemma TakeAtRows(rows: seq<Item>, r: nat)
    requires DistinctIds(rows) && r < |rows|
    ensures DistinctIds(rows[..r] + rows[r + 1..])
    ensures Texts(rows[..r] + rows[r + 1..]) == Texts(rows)[..r] + Texts(rows)[r + 1..]
  {
    var rows' := rows[..r] + rows[r + 1..];
    assert forall j :: 0 <= j < r ==> rows'[j] == rows[j];
    assert forall j :: r <= j < |rows'| ==> rows'[j] == rows[j + 1];
  }

  /** Dropping row `r` drops that row's item, and only it: every other item,
      and every item with another identity, stays. */
  lemma TakeAtKeeps(rows: seq<Item>, r: nat)
    requires DistinctIds(rows) && r < |rows|
    ensures forall x :: x in rows[..r] + rows[r + 1..] <==> x in rows && x.id != rows[r].id
    ensures forall x :: x in rows[..r] + rows[r + 1..] <==> x in rows && x != rows[r]
  {
    var rows' := rows[..r] + rows[r + 1..];
    assert forall j :: 0 <= j < r ==> rows'[j] == rows[j];
    assert forall j :: r <= j < |rows'| ==> rows'[j] == rows[j + 1];
    forall x | x in rows && x.id == rows[r].id
      ensures x == rows[r]
    {
      var k :| 0 <= k < |rows| && rows[k] == x;
      assert k == r;
    }
    forall x | x in rows && x.id != rows[r].id
      ensures x in rows'
    {
      var k :| 0 <= k < |rows| && rows[k] == x;
      if k < r {
        assert rows'[k] == x;
      } else {
        assert rows'[k - 1] == x;
      }
    }
  }

  /** The removal loop over distinct items of the widget never raises and
      keeps the session valid. */
  lemma {:induction false} RemoveItemsValid(s: Session, items: seq<Item>)
    requires Valid(s)
    requires forall it :: it in items ==> it in s.dialog.rows
    requires DistinctIds(items)
    ensures RemoveItems(s, items).Done?
    ensures Valid(RemoveItems(s, items).session)
    ensures forall x :: x in RemoveItems(s, items).session.dialog.rows <==> x in s.dialog.rows && x !in items
    decreases |items|
  {
    if items != [] {
      RemoveOneValid(s, items[0]);
      var s' := RemoveOne(s, items[0]).value;
      forall it | it in items[1..]
        ensures it in s'.dialog.rows
      {
        var k :| 1 <= k < |items| && items[k] == it;
        assert items[0].id != it.id;
      }
      RemoveItemsValid(s', items[1..]);
      assert forall x :: x in items <==> x == items[0] || x in items[1..];
    }
  }

  /** Whatever is selected, "remove selected" never raises while the widget
      and the list hold the same paths. Exactly the selected rows leave the
      widget, and one copy of each selected row's text leaves the list. */
  lemma RemoveSelectedNeverRaises(s: Session, selection: set<nat>)
    requires Valid(s)
    ensures RemoveSelected(s, selection).Done?
    ensures Valid(RemoveSelected(s, selection).session)
    ensures |RemoveSelected(s, selection).session.dialog.paths|
            == |s.dialog.paths| - |Selected(s.dialog.rows, selection)|
    ensures forall x :: x in RemoveSelected(s, selection).session.dialog.rows
                   <==> x in s.dialog.rows && x.id !in selection
  {
    var items := Selected(s.dialog.rows, selection);
    if items != [] {
      SelectedDistinct(s.dialog.rows, selection);
      RemoveItemsValid(s, items);
    }
  }

  predicate NoDuplicates(s: seq<Path>)
  {
    forall j, k :: 0 <= j < k < |s| ==> s[j] != s[k]
  }

  /** Without repeated paths, removing a row removes the same position from
      the list, so widget order and list order stay equal. */
  lemma OrderKeptWithoutDuplicates(s: Session, it: Item)
    requires Valid(s) && it in s.dialog.rows
    requires Texts(s.dialog.rows) == s.dialog.paths && NoDuplicates(s.dialog.paths)
    ensures RemoveOne(s, it).Some?
    ensures Texts(RemoveOne(s, it).value.dialog.rows) == RemoveOne(s, it).value.dialog.paths
  {
    var d := s.dialog;
    var q := RowFound(d, it);
    var i := IndexOf(d.paths, it.text);
    assert d.paths[q] == it.text;
    assert i == q;
    var rows' := d.rows[..q] + d.rows[q + 1..];
    assert Texts(rows') == Texts(d.rows)[..q] + Texts(d.rows)[q + 1..];
  }

  /** With a path `x` listed twice around another path `y`, removing the
      lower copy from the widget removes the upper copy from the list: the
      widget then shows [x, y] while the list, and what the profile map and
      the file hold for the profile, is [y, x]. The rows are the ones
      opening [x, y, x] produces (`OpenDuplicateList`). */
  lemma DuplicateRemovalDiverges(s: Session, x: Path, y: Path) returns (s': Session)
    requires x != y
    requires s.dialog.paths == [x, y, x]
    requires s.dialog.rows == [Item(0, x), Item(1, y), Item(2, x)]
    ensures RemoveSelected(s, {2}) == Done(s')
    ensures Texts(s'.dialog.rows) == [x, y]
    ensures s'.dialog.paths == [y, x]
    ensures Texts(s'.dialog.rows) != s'.dialog.paths
    ensures s'.profiles[s.dialog.name] == [y, x]
    ensures Load(s'.disk.file) == Ok(s'.profiles)
  {
    s' := PassLowerCopy(s, x, y);
    SelectLastOfThree(Item(0, x), Item(1, y), Item(2, x), {2});
    RemoveSingleItem(s, {2}, Item(2, x));
    TextsOfTwo(Item(0, x), Item(1, y));
    assert Texts(s'.dialog.rows)[0] != s'.dialog.paths[0];
  }

  /** The loop pass for the bottom row: it leaves the widget, the first
      `x` leaves the list, and the map and the file get the new list. */
  lemma PassLowerCopy(s: Session, x: Path, y: Path) returns (s': Session)
    requires s.dialog.paths == [x, y, x]
    requires s.dialog.rows == [Item(0, x), Item(1, y), Item(2, x)]
    ensures RemoveOne(s, Item(2, x)) == Some(s')
    ensures s'.dialog.rows == [Item(0, x), Item(1, y)]
    ensures s'.dialog.paths == [y, x]
    ensures s'.profiles[s.dialog.name] == [y, x]
    ensures Load(s'.disk.file) == Ok(s'.profiles)
  {
    s' := RemoveOne(s, Item(2, x)).value;
    assert IndexOf([x, y, x], x) == 0;
    TakeLastOfThree(Item(0, x), Item(1, y), Item(2, x));
  }

  lemma TextsOfTwo(a: Item, b: Item)
    ensures Texts([a, b]) == [a.text, b.text]
  {
    assert Texts([a, b])[0] == a.text && Texts([a, b])[1] == b.text;
  }

  /** Among three rows with identities 0, 1 and 2, `row` of identity 2 is
      the last row, and taking it leaves the first two. */
  lemma TakeLastOfThree(a: Item, b: Item, c: Item)
    requires a.id == 0 && b.id == 1 && c.id == 2
    ensures RowOf([a, b, c], 2) == 2
    ensures TakeAt([a, b, c], RowOf([a, b, c], 2)) == [a, b]
  {
    assert [c][1..] == [] && [b, c][1..] == [c] && [a, b, c][1..] == [b, c];
    assert RowOf([c], 2) == 0;
    assert RowOf([b, c], 2) == 1;
    assert [a, b, c][..2] == [a, b];
  }

  /** Among three rows, selecting only the last one selects just that item. */
  lemma SelectLastOfThree(a: Item, b: Item, c: Item, selection: set<nat>)
    requires a.id !in selection && b.id !in selection && c.id in selection
    ensures Selected([a, b, c], selection) == [c]
  {
    assert [c][1..] == [];
    assert Selected([c], selection) == [c];
    assert [b, c][1..] == [c];
    assert Selected([b, c], selection) == [c];
    assert [a, b, c][1..] == [b, c];
  }

  /** When the selection is one item, "remove selected" is one loop pass:
      it raises exactly when that pass does, and otherwise ends where the
      pass ends. */
  lemma RemoveSingleItem(s: Session, selection: set<nat>, it: Item)
    requires Selected(s.dialog.rows, selection) == [it]
    ensures RemoveSelected(s, selection) ==
              match RemoveOne(s, it)
              case None => Raised(s, it.text)
              case Some(s') => Done(s')
  {
    assert [it][0] == it && [it][1..] == [];
    match RemoveOne(s, it)
    case None =>
    case Some(s') =>
      assert RemoveItems(s, [it]) == RemoveItems(s', []);
  }

  /** Opening the dialog on [x, y, x] gives the rows the divergence above
      starts from. */
  lemma OpenDuplicateList(name: string, x: Path, y: Path)
    ensures Open(name, [x, y, x]) == Dialog(name, [x, y, x], [Item(0, x), Item(1, y), Item(2, x)], 3)
  {
    var o := Open(name, [x, y, x]);
    assert |o.rows| == 3;
    assert o.rows[0] == Item(0, x) && o.rows[1] == Item(1, y) && o.rows[2] == Item(2, x);
  }

  /** A button press in the dialog. A ValueError escaping the remove
      handler does not close the dialog; it goes on from the state the
      handler had reached. */
  datatype Action = Add(ok: bool, text: Path) | Remove(selection: set<nat>)

  function Apply(s: Session, a: Action): (s': Session)
    ensures s'.dialog.name == s.dialog.name
    ensures s.profiles.Keys <= s'.profiles.Keys <= s.profiles.Keys + {s.dialog.name}
    ensures forall n :: n in s.profiles && n != s.dialog.name ==> s'.profiles[n] == s.profiles[n]
    ensures |s'.disk.writes| >= |s.disk.writes| && s'.disk.writes[..|s.disk.writes|] == s.disk.writes
  {
    match a
    case Add(ok, text) => AddProgram(s, ok, text)
    case Remove(selection) => RemoveSelected(s, selection).session
  }

  /** A whole dialog session, button press by button press. The edited
      profile is the only map entry that can change, no profile is ever
      dropped, and the writes only ever grow. */
  function Run(s: Session, actions: seq<Action>): (s': Session)
    ensures s'.dialog.name == s.dialog.name
    ensures s.profiles.Keys <= s'.profiles.Keys <= s.profiles.Keys + {s.dialog.name}
    ensures forall n :: n in s.profiles && n != s.dialog.name ==> s'.profiles[n] == s.profiles[n]
    ensures |s'.disk.writes| >= |s.disk.writes| && s'.disk.writes[..|s.disk.writes|] == s.disk.writes
    decreases |actions|
  {
    if actions == [] then s else Run(Apply(s, actions[0]), actions[1..])
  }

  /** Every button press keeps the session valid, so a dialog session does
      too: the widget and the list keep the same paths, and the map keeps
      the dialog's list under the profile's name. */
  lemma {:induction false} RunKeepsValid(s: Session, actions: seq<Action>)
    requires Valid(s)
    ensures Valid(Run(s, actions))
    decreases |actions|
  {
    if actions != [] {
      match actions[0] {
        case Add(ok, text) =>
          if ok && text != "" {
            AddAppends(s, text);
          }
        case Remove(selection) =>
          RemoveSelectedNeverRaises(s, selection);
      }
      RunKeepsValid(Apply(s, actions[0]), actions[1..]);
    }
  }
}
