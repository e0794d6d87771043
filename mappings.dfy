/**
 * The board itself: a registry from image location to category object, the home page
 * (a category whose items are the category icons), and the category currently shown.
 * The home page is registered under its own name, "", and is recognised by identity.
 * Every method is proved against the value-level board of BoardModel, through Abs().
 */
module Mappings {
  import opened Outcomes
  import OrderedMap
  import opened Category
  import opened BoardModel
  import FileFormat

  /** The category objects a registry holds. */
  ghost function Objects(registry: seq<(string, AACCategory)>): set<AACCategory>
  {
    set i | 0 <= i < |registry| :: registry[i].1
  }

  /** No category object is registered under two keys. */
  ghost predicate ObjectsDistinct(registry: seq<(string, AACCategory)>)
  {
    forall i, j :: 0 <= i < j < |registry| ==> registry[i].1 != registry[j].1
  }

  /** The value of one registered object: the home page is `Home`, any other its name and items. */
  ghost function SlotOf(c: AACCategory, homepage: AACCategory): Slot
    reads c
  {
    if c == homepage then Home else Named(c.name, c.items)
  }

  /** The registry as values, pair by pair. */
  ghost function Snapshot(registry: seq<(string, AACCategory)>, homepage: AACCategory): (r: seq<(string, Slot)>)
    reads Objects(registry)
    ensures |r| == |registry|
    ensures forall i :: 0 <= i < |registry| ==> r[i] == (registry[i].0, SlotOf(registry[i].1, homepage))
  {
    if registry == [] then []
    else
      assert Objects(registry[1..]) <= Objects(registry) by {
        forall i | 0 <= i < |registry[1..]| ensures registry[1..][i].1 in Objects(registry) {
          assert registry[1..][i] == registry[i + 1];
        }
      }
      [(registry[0].0, SlotOf(registry[0].1, homepage))] + Snapshot(registry[1..], homepage)
  }

  /** The key under which a registered object is stored. */
  ghost function KeyOf(registry: seq<(string, AACCategory)>, c: AACCategory): string
  {
    if registry == [] then ""
    else if registry[0].1 == c then registry[0].0
    else KeyOf(registry[1..], c)
  }

  lemma {:induction false} KeyOfAt(registry: seq<(string, AACCategory)>, i: int)
    requires ObjectsDistinct(registry) && 0 <= i < |registry|
    ensures KeyOf(registry, registry[i].1) == registry[i].0
  {
    if i > 0 {
      assert registry[0].1 != registry[i].1;
      KeyOfAt(registry[1..], i - 1);
    }
  }

  /** Registering an object commutes with taking values. */
  lemma {:induction false} SnapshotSet(registry: seq<(string, AACCategory)>, homepage: AACCategory, k: string, c: AACCategory)
    ensures Snapshot(OrderedMap.Set(registry, k, c), homepage) ==
              OrderedMap.Set(Snapshot(registry, homepage), k, SlotOf(c, homepage))
  {
    if registry != [] && registry[0].0 != k {
      SnapshotSet(registry[1..], homepage, k, c);
      assert Snapshot(registry, homepage)[1..] == Snapshot(registry[1..], homepage);
    } else if registry != [] {
      assert Snapshot(registry, homepage)[1..] == Snapshot(registry[1..], homepage);
    }
  }

  /** Registering an object not yet registered keeps every object under one key only. */
  lemma SetObjectsDistinct(registry: seq<(string, AACCategory)>, k: string, c: AACCategory)
    requires ObjectsDistinct(registry) && OrderedMap.DistinctKeys(registry) && c !in Objects(registry)
    ensures ObjectsDistinct(OrderedMap.Set(registry, k, c))
    ensures Objects(OrderedMap.Set(registry, k, c)) <= Objects(registry) + {c}
    ensures exists i :: 0 <= i < |OrderedMap.Set(registry, k, c)| && OrderedMap.Set(registry, k, c)[i] == (k, c)
  {
    var r := OrderedMap.Set(registry, k, c);
    if OrderedMap.HasKey(registry, k) {
      var j :| 0 <= j < |registry| && registry[j].0 == k;
      OrderedMap.SetExisting(registry, j, c);
      assert r[j] == (k, c);
    } else {
      OrderedMap.SetFresh(registry, k, c);
      assert r[|registry|] == (k, c);
    }
    assert forall i :: 0 <= i < |r| ==> r[i].1 == c || r[i] == registry[i];
  }

  /** Keys and lookups of the value view are those of the registry. */
  lemma SnapshotGet(registry: seq<(string, AACCategory)>, homepage: AACCategory, k: string)
    requires OrderedMap.DistinctKeys(registry)
    ensures OrderedMap.Get(registry, k).Some? ==>
              exists i :: 0 <= i < |registry| && registry[i] == (k, OrderedMap.Get(registry, k).value)
    ensures OrderedMap.Get(Snapshot(registry, homepage), k) ==
              match OrderedMap.Get(registry, k)
              case Some(c) => Some(SlotOf(c, homepage))
              case None => None
  {
    var s := Snapshot(registry, homepage);
    OrderedMap.HasKeyInKeys(registry, k);
    OrderedMap.HasKeyInKeys(s, k);
    assert OrderedMap.Keys(s) == OrderedMap.Keys(registry);
    if OrderedMap.HasKey(registry, k) {
      var i :| 0 <= i < |registry| && registry[i].0 == k;
      OrderedMap.GetAt(registry, i);
      OrderedMap.GetAt(s, i);
    }
  }

  /** The value view has the registry's keys, so it repeats a key exactly when the registry does. */
  lemma SnapshotKeys(registry: seq<(string, AACCategory)>, homepage: AACCategory)
    ensures OrderedMap.Keys(Snapshot(registry, homepage)) == OrderedMap.Keys(registry)
    ensures OrderedMap.DistinctKeys(Snapshot(registry, homepage)) <==> OrderedMap.DistinctKeys(registry)
  {
  }

  class AACMappings {
    /** The registry: image location -> category, the home page under "". */
    var registry: seq<(string, AACCategory)>
    /** The category shown, or null before any is. */
    var current: AACCategory?
    /** The home page; its items are the category icons and their names. */
    const homepage: AACCategory
    /** Every category object the board has created. */
    ghost var Repr: set<AACCategory>

    /** How the objects hang together: all are known, none is registered twice, and the current one is registered. */
    ghost predicate Wired()
      reads this`Repr, this`registry, this`current
    {
      && homepage in Repr
      && Objects(registry) <= Repr
      && ObjectsDistinct(registry)
      && (current != null && current != homepage ==> current in Objects(registry))
    }

    /** Where the board is: no page, the home page, or the category registered under a key. */
    ghost function CursorOf(): Cursor
      reads this`registry, this`current
    {
      if current == null then Null
      else if current == homepage then AtHome
      else Open(KeyOf(registry, current))
    }

    /** The board as a value. */
    ghost function Abs(): Board
      reads this`registry, this`current, Objects(registry), homepage
    {
      Board(Snapshot(registry, homepage), homepage.items, CursorOf())
    }

    /** The registry and the home page as values, without the cursor. */
    ghost function Pages(): Board
      reads this`registry, Objects(registry), homepage
    {
      Board(Snapshot(registry, homepage), homepage.items, Null)
    }

    /** The invariant: the objects hang together and the board they make up is a valid one. */
    ghost predicate Valid()
      reads this`Repr, this`registry, this`current, Repr
    {
      Wired() && BoardModel.Valid(Abs())
    }

    /**
     * The board read from a file: the home page registered under "", then the file's
     * categories; a missing or malformed file leaves what was read before the failure.
     */
    constructor (file: Option<seq<string>>)
      ensures Valid()
      ensures Abs() == FileFormat.FromFile(file)
    {
      var home := new AACCategory("");
      homepage := home;
      registry := OrderedMap.Set([], home.GetCategory(), home);
      current := null;
      Repr := {home};
      new;
      Started();
      var _ := ReadFile(file);
    }

    /** Before the file is read, the board is the initial one. */
    lemma Started()
      requires registry == OrderedMap.Set([], "", homepage) && current == null
      requires homepage.name == "" && homepage.items == [] && Repr == {homepage}
      ensures Valid() && Abs() == Initial()
    {
      OrderedMap.SetFresh([], "", homepage);
      assert registry == [("", homepage)];
    }

    /** The current object is the category the cursor opens, with its name and items. */
    lemma CurrentIsOpen()
      requires Valid() && current != null && current != homepage
      ensures exists i :: 0 <= i < |registry| && registry[i].1 == current && Abs().cursor == Open(registry[i].0)
      ensures OpenCategory(Abs(), Abs().cursor.key) == Some((current.name, current.items))
    {
      var i :| 0 <= i < |registry| && registry[i].1 == current;
      KeyOfAt(registry, i);
      var s := Snapshot(registry, homepage);
      assert OrderedMap.Keys(s) == OrderedMap.Keys(registry);
      OrderedMap.GetAt(s, i);
    }

    /** reset: the home page becomes current. */
    method Reset()
      requires Valid()
      modifies this
      ensures Valid()
      ensures Abs() == BoardModel.Reset(old(Abs()))
      ensures registry == old(registry) && Repr == old(Repr)
    {
      current := homepage;
      ResetShowsHome(old(Abs()));
    }

    /** getCategory: "" on the home page, the current category's name, NullPointer with no page. */
    function GetCategory(): (r: Result<string>)
      requires Valid()
      reads this`Repr, this`registry, this`current, Repr
      ensures r == CategoryName(Abs())
    {
      if current == homepage then Ok("")
      else if current == null then Err(NullPointer)
      else
        CurrentIsOpen();
        Ok(current.GetCategory())
    }

    /** hasImage: whether the current page shows the image; false with no page. */
    function HasImage(imageLoc: string): (r: bool)
      requires Valid()
      reads this`Repr, this`registry, this`current, Repr
      ensures r == BoardModel.HasImage(Abs(), imageLoc)
    {
      if current != null && current != homepage then CurrentIsOpen(); current.HasImage(imageLoc)
      else current != null && current.HasImage(imageLoc)
    }

    /** In a category, select answers from that category alone. */
    lemma SelectOpen(imageLoc: string)
      requires Valid() && current != null && current != homepage
      ensures BoardModel.Select(Abs(), imageLoc) ==
                (Abs(), if current.HasImage(imageLoc) then current.Select(imageLoc) else Err(NoSuchElement))
    {
      CurrentIsOpen();
      OrderedMap.HasKeyInKeys(current.items, imageLoc);
    }

    /** On the home page, select follows a home icon to the object registered under it. */
    lemma SelectHome(imageLoc: string)
      requires Valid() && current == homepage
      ensures var found := OrderedMap.Get(registry, imageLoc);
              BoardModel.Select(Abs(), imageLoc) ==
                if homepage.HasImage(imageLoc) && found.Some? then
                  (Abs().(cursor := if found.value == homepage then AtHome else Open(imageLoc)), Ok(""))
                else (Abs(), Err(NoSuchElement))
    {
      SnapshotKeys(registry, homepage);
      SnapshotGet(registry, homepage, imageLoc);
      OrderedMap.HasKeyInKeys(homepage.items, imageLoc);
    }

    /** Once select has followed a home icon, the board is the one the model's select gives. */
    lemma OpenedFromHome(b: Board, imageLoc: string)
      requires BoardModel.Valid(b) && b.cursor == AtHome
      requires homepage in Repr && Objects(registry) <= Repr && ObjectsDistinct(registry)
      requires b.registry == Snapshot(registry, homepage) && b.home == homepage.items
      requires current != null && OrderedMap.Get(registry, imageLoc) == Some(current)
      requires homepage.HasImage(imageLoc)
      ensures Valid()
      ensures Abs() == BoardModel.Select(b, imageLoc).0
    {
      SnapshotKeys(registry, homepage);
      SnapshotGet(registry, homepage, imageLoc);
      OrderedMap.HasKeyInKeys(homepage.items, imageLoc);
      var i :| 0 <= i < |registry| && registry[i] == (imageLoc, current);
      KeyOfAt(registry, i);
      assert registry[i].1 in Objects(registry);
      SelectValid(b, imageLoc);
    }

    /**
     * select: in a category, one of its images yields its text; on the home page, a home
     * icon makes the category registered under it current and yields ""; anything else
     * is NoSuchElement, and then nothing changes.
     */
    method Select(imageLoc: string) returns (r: Result<string>)
      requires Valid()
      modifies this
      ensures Valid()
      ensures (Abs(), r) == BoardModel.Select(old(Abs()), imageLoc)
      ensures registry == old(registry) && Repr == old(Repr)
    {
      ghost var b := Abs();
      if current != homepage && current != null {
        SelectOpen(imageLoc);
        if current.HasImage(imageLoc) {
          r := current.Select(imageLoc);
          return;
        }
      }
      if current == homepage {
        SelectHome(imageLoc);
        if homepage.HasImage(imageLoc) {
          var found := OrderedMap.Get(registry, imageLoc);
          if found.Some? {
            current := found.value;
            OpenedFromHome(b, imageLoc);
            r := Ok("");
            return;
          }
        }
      }
      r := Err(NoSuchElement);
    }

    /** getImageLocs: a fresh array of the current page's image locations, empty with no page. */
    method GetImageLocs() returns (locs: array<string>)
      requires Valid()
      ensures fresh(locs)
      ensures locs[..] == ImageLocs(Abs())
    {
      ShownItems();
      if current != null {
        locs := current.GetImageLocs();
      } else {
        locs := new string[0];
      }
    }

    /** The items on show are those of the current object, none with no current object. */
    lemma ShownItems()
      requires Valid()
      ensures CurrentItems(Abs()) == if current == null then None else Some(current.items)
    {
      if current != null && current != homepage {
        CurrentIsOpen();
      }
    }

    /** The current category never holds an image twice. */
    lemma CurrentValid()
      requires Valid() && current != null
      ensures current.Valid()
    {
      if current != homepage {
        var i :| 0 <= i < |registry| && registry[i].1 == current;
        assert Abs().registry[i].1 == Named(current.name, current.items);
      }
    }

    /** After a category is registered, the registry and home page are the model's. */
    lemma CategoryRegistered(b: Board, before: seq<(string, AACCategory)>, icon: string, name: string, c: AACCategory)
      requires BoardModel.Valid(b)
      requires ObjectsDistinct(before) && c !in Objects(before) && c != homepage
      requires b.registry == Snapshot(before, homepage)
      requires registry == OrderedMap.Set(before, icon, c)
      requires homepage.items == OrderedMap.Set(b.home, icon, name)
      requires c.name == name && c.items == []
      ensures Pages() == BoardModel.AddCategory(b, icon, name).(cursor := Null)
      ensures ObjectsDistinct(registry) && Objects(registry) <= Objects(before) + {c}
      ensures c in Objects(registry) && KeyOf(registry, c) == icon
    {
      SnapshotKeys(before, homepage);
      SetObjectsDistinct(before, icon, c);
      SnapshotSet(before, homepage, icon, c);
      var i :| 0 <= i < |registry| && registry[i] == (icon, c);
      KeyOfAt(registry, i);
    }

    /**
     * The home-page half of addItem and of reading a category line: a new empty category
     * `name` registered under `icon` (replacing any earlier one there) and `icon -> name`
     * on the home page.
     */
    method RegisterCategory(icon: string, name: string) returns (cat: AACCategory)
      requires homepage in Repr && Objects(registry) <= Repr && ObjectsDistinct(registry)
      requires BoardModel.Valid(Pages())
      modifies this`registry, this`Repr, homepage
      ensures fresh(cat) && Repr == old(Repr) + {cat}
      ensures homepage in Repr && Objects(registry) <= Repr && ObjectsDistinct(registry)
      ensures Pages() == BoardModel.AddCategory(old(Pages()), icon, name).(cursor := Null)
      ensures cat in Objects(registry) && KeyOf(registry, cat) == icon
    {
      ghost var b := Pages();
      ghost var before := registry;
      cat := new AACCategory(name);
      registry := OrderedMap.Set(registry, icon, cat);
      Repr := Repr + {cat};
      homepage.AddItem(icon, name);
      forall j | 0 <= j < |before|
        ensures Snapshot(before, homepage)[j] == b.registry[j]
      {
      }
      CategoryRegistered(b, before, icon, name, cat);
    }

    /** After addItem in a category, the board is the model's, and the objects still hang together. */
    lemma ItemAdded(b: Board, i: int, items: seq<(string, string)>, imageLoc: string, text: string)
      requires BoardModel.Valid(b) && Wired() && current != null && current != homepage
      requires 0 <= i < |registry| && registry[i].1 == current
      requires b.cursor == Open(registry[i].0) && b.home == homepage.items
      requires |b.registry| == |registry| && b.registry[i] == (registry[i].0, Named(current.name, items))
      requires forall j :: 0 <= j < |registry| && j != i ==> b.registry[j] == (registry[j].0, SlotOf(registry[j].1, homepage))
      requires current.items == OrderedMap.Set(items, imageLoc, text)
      ensures Valid()
      ensures Abs() == BoardModel.AddToCurrent(b, imageLoc, text)
    {
      var key := registry[i].0;
      var slot := Named(current.name, current.items);
      OrderedMap.GetAt(b.registry, i);
      OrderedMap.SetExisting(b.registry, i, slot);
      KeyOfAt(registry, i);
      assert Snapshot(registry, homepage) == b.registry[i := (key, slot)];
      AddToCurrentValid(b, imageLoc, text);
    }

    /** The category half of addItem and of reading an item line: the item goes into the current category. */
    method AddToCurrent(imageLoc: string, text: string)
      requires Valid() && current != null && current != homepage
      modifies current
      ensures Valid()
      ensures Abs() == BoardModel.AddToCurrent(old(Abs()), imageLoc, text)
    {
      ghost var b := Abs();
      ghost var i :| 0 <= i < |registry| && registry[i].1 == current;
      ghost var items := current.items;
      KeyOfAt(registry, i);
      CurrentValid();
      current.AddItem(imageLoc, text);
      forall j | 0 <= j < |registry| && j != i
        ensures b.registry[j] == (registry[j].0, SlotOf(registry[j].1, homepage))
      {
        assert registry[j].1 != registry[i].1;
      }
      ItemAdded(b, i, items, imageLoc, text);
    }

    /**
     * addItem: on the home page, lists `imageLoc -> text` there and registers a new empty
     * category named `text` under `imageLoc`; in a category, adds the item to it; with no
     * page, does nothing.
     */
    method AddItem(imageLoc: string, text: string)
      requires Valid()
      modifies this, current
      ensures Valid()
      ensures Abs() == BoardModel.AddItem(old(Abs()), imageLoc, text)
      ensures old(Repr) <= Repr && fresh(Repr - old(Repr))
    {
      if current != null {
        if current == homepage {
          ghost var b := Abs();
          var _ := RegisterCategory(imageLoc, text);
          AddCategoryValid(b, imageLoc, text);
        } else {
          AddToCurrent(imageLoc, text);
        }
      }
    }

    /**
     * writeToFile: for every registered category but the home page, in registry order, its
     * category line and then one item line per image, in the category's order.
     */
    method WriteToFile() returns (lines: seq<string>)
      requires Valid()
      ensures lines == FileFormat.Serialize(Abs().registry)
    {
      ghost var reg := Abs().registry;
      lines := [];
      var i := 0;
      while i < |registry|
        invariant 0 <= i <= |registry|
        invariant lines == FileFormat.Serialize(reg[..i])
      {
        var key := registry[i].0;
        var cat := registry[i].1;
        FileFormat.SerializeStep(reg, i);
        if cat != homepage {
          assert reg[i] == (key, Named(cat.name, cat.items));
          ghost var done := lines;
          lines := lines + [FileFormat.HeaderLine(key, cat.GetCategory())];
          var locs := cat.GetImageLocs();
          assert OrderedMap.DistinctKeys(cat.items);
          var j := 0;
          while j < locs.Length
            invariant 0 <= j <= locs.Length
            invariant locs[..] == OrderedMap.Keys(cat.items)
            invariant lines == done + [FileFormat.HeaderLine(key, cat.name)] + FileFormat.ItemLines(cat.items[..j])
          {
            assert OrderedMap.Keys(cat.items)[j] == locs[..][j];
            OrderedMap.GetAt(cat.items, j);
            var text := cat.Select(locs[j]);
            FileFormat.ItemLinesStep(cat.items, j);
            lines := lines + [FileFormat.ItemLine(locs[j], text.value)];
            j := j + 1;
          }
          assert cat.items[..j] == cat.items;
        }
        i := i + 1;
      }
      assert reg[..i] == reg;
    }

    /** Once a registered category is made current, the board is the model's with that category open. */
    lemma CategoryOpened(b: Board, icon: string, name: string)
      requires BoardModel.Valid(b)
      requires homepage in Repr && Objects(registry) <= Repr && ObjectsDistinct(registry)
      requires Pages() == BoardModel.AddCategory(b, icon, name).(cursor := Null)
      requires current != null && current in Objects(registry) && KeyOf(registry, current) == icon
      requires current != homepage
      ensures Valid()
      ensures Abs() == BoardModel.AddCategory(b, icon, name).(cursor := Open(icon))
    {
      assert CursorOf() == Open(icon);
      assert Abs() == Pages().(cursor := Open(icon));
      AddCategoryOpenValid(b, icon, name);
    }

    /**
     * An item line of readFile: before any category it is dropped; without a second token
     * it fails at tokens[1]; otherwise the item goes into the category being read.
     */
    method ReadItem(imageLoc: string, text: Option<string>) returns (thrown: Option<Exception>)
      requires Valid() && current != homepage
      modifies current
      ensures Valid()
      ensures (Abs(), thrown) == FileFormat.Apply(old(Abs()), FileFormat.Item(imageLoc, text))
    {
      if current == null {
        thrown := None;
      } else if text.None? {
        thrown := Some(ArrayIndexOutOfBounds);
      } else {
        AddToCurrent(imageLoc, text.value);
        thrown := None;
      }
    }

    /** A category line of readFile with both tokens: the category is registered and becomes current. */
    method OpenNewCategory(icon: string, name: string)
      requires Valid() && current != homepage
      modifies this`registry, this`Repr, this`current, homepage
      ensures Valid() && current != null && current != homepage
      ensures Abs() == BoardModel.AddCategory(old(Abs()), icon, name).(cursor := Open(icon))
      ensures fresh(current) && Repr == old(Repr) + {current}
    {
      ghost var b := Abs();
      assert Pages() == b.(cursor := Null);
      current := RegisterCategory(icon, name);
      CategoryOpened(b, icon, name);
    }

    /** A category line of readFile: without a second token it fails at tokens[1]. */
    method ReadHeader(icon: string, name: Option<string>) returns (thrown: Option<Exception>)
      requires Valid() && current != homepage
      modifies this`registry, this`Repr, this`current, homepage
      ensures Valid() && current != homepage
      ensures (Abs(), thrown) == FileFormat.Apply(old(Abs()), FileFormat.Header(icon, name))
      ensures old(Repr) <= Repr && fresh(Repr - old(Repr))
    {
      if name.None? {
        thrown := Some(ArrayIndexOutOfBounds);
      } else {
        OpenNewCategory(icon, name.value);
        thrown := None;
      }
    }

    /**
     * One line of readFile: trimmed and split at its first whitespace character, an item
     * line goes into the current category (and is dropped before any category), any other
     * line registers a category and makes it current. A line that fails changes nothing.
     */
    method ReadLine(raw: string) returns (thrown: Option<Exception>)
      requires Valid() && current != homepage
      modifies this, Repr
      ensures Valid() && current != homepage
      ensures (Abs(), thrown) == FileFormat.Step(old(Abs()), raw)
      ensures old(Repr) <= Repr && fresh(Repr - old(Repr))
    {
      match FileFormat.Tokenize(raw)
      case Blank =>
        thrown := Some(StringIndexOutOfBounds);
      case Item(imageLoc, text) =>
        thrown := ReadItem(imageLoc, text);
      case Header(icon, name) =>
        thrown := ReadHeader(icon, name);
    }

    /** One turn of the readFile loop: the next line read, on the way to what the whole file gives. */
    method ReadNext(lines: seq<string>, n: int, ghost goal: (Board, Option<Exception>)) returns (thrown: Option<Exception>)
      requires 0 <= n < |lines|
      requires Valid() && current != homepage
      requires FileFormat.ParseLines(Abs(), lines[n..]) == goal
      modifies this, Repr
      ensures Valid() && current != homepage
      ensures thrown.Some? ==> (Abs(), thrown) == goal
      ensures thrown.None? ==> FileFormat.ParseLines(Abs(), lines[n + 1..]) == goal
      ensures old(Repr) <= Repr && fresh(Repr - old(Repr))
    {
      ghost var b := Abs();
      thrown := ReadLine(lines[n]);
      FileFormat.ParseNext(b, lines, n, goal, Abs(), thrown);
    }

    /**
     * readFile: the lines in order, each as ReadLine reads it. The first line that fails
     * ends the read with its exception; a complete read makes the home page current.
     */
    method ReadFile(file: Option<seq<string>>) returns (thrown: Option<Exception>)
      requires Valid() && current != homepage
      modifies this, Repr
      ensures Valid()
      ensures (Abs(), thrown) == FileFormat.Load(old(Abs()), file)
      ensures old(Repr) <= Repr && fresh(Repr - old(Repr))
    {
      if file.None? {
        return Some(FileNotFound);
      }
      var lines := file.value;
      ghost var goal := FileFormat.ParseLines(Abs(), lines);
      assert lines[0..] == lines;
      var n := 0;
      thrown := None;
      while n < |lines| && thrown.None?
        invariant 0 <= n <= |lines|
        invariant Valid() && current != homepage
        invariant thrown.None? ==> FileFormat.ParseLines(Abs(), lines[n..]) == goal
        invariant thrown.Some? ==> (Abs(), thrown) == goal
        invariant old(Repr) <= Repr && fresh(Repr - old(Repr))
      {
        thrown := ReadNext(lines, n, goal);
        n := n + 1;
      }
      if thrown.None? {
        Reset();
      }
    }
  }
}
