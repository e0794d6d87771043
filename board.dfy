/**
 * The board as a value: the registry of categories in its stored order, the home page's
 * icons, and which page is current. The home page is itself one of the registry's
 * values in the source (under the key ""), so a registry slot is either that home page
 * (`Home`) or an ordinary category (`Named`). The current page is either none, the home
 * page, or the category registered under a key (`Open(key)`).
 */
module BoardModel {
  import opened Outcomes
  import OrderedMap

  datatype Slot = Home | Named(name: string, items: seq<(string, string)>)

  datatype Cursor = Null | AtHome | Open(key: string)

  datatype Board = Board(registry: seq<(string, Slot)>, home: seq<(string, string)>, cursor: Cursor)

  /** The board every constructor starts from: the home page registered under "" and no current page. */
  function Initial(): Board
  {
    Board([("", Home)], [], Null)
  }

  /** The category an `Open` cursor refers to, if it is registered as an ordinary category. */
  function OpenCategory(b: Board, key: string): Option<(string, seq<(string, string)>)>
  {
    var slot := OrderedMap.Get(b.registry, key);
    if slot.Some? && slot.value.Named? then Some((slot.value.name, slot.value.items)) else None
  }

  /**
   * The invariant the source keeps: no key twice in any map, every home icon has a
   * registered category, and an open category is a registered ordinary category.
   */
  predicate Valid(b: Board)
  {
    && OrderedMap.DistinctKeys(b.registry)
    && OrderedMap.DistinctKeys(b.home)
    && (forall i :: 0 <= i < |b.registry| && b.registry[i].1.Named? ==> OrderedMap.DistinctKeys(b.registry[i].1.items))
    && (forall i :: 0 <= i < |b.home| ==> OrderedMap.HasKey(b.registry, b.home[i].0))
    && (b.cursor.Open? ==> OpenCategory(b, b.cursor.key).Some?)
  }

  /** The items of the current page, or None when no page is current. */
  function CurrentItems(b: Board): Option<seq<(string, string)>>
  {
    match b.cursor
    case Null => None
    case AtHome => Some(b.home)
    case Open(key) =>
      match OpenCategory(b, key)
      case Some(cat) => Some(cat.1)
      case None => None
  }

  /**
   * select: in a category, an image of that category yields its text; at home, a home
   * icon opens its category and yields ""; anything else is NoSuchElement. An image
   * missing from the open category is not tried as a home icon.
   */
  function Select(b: Board, imageLoc: string): (Board, Result<string>)
  {
    match b.cursor
    case Open(key) =>
      (match OpenCategory(b, key)
       case Some(cat) =>
         if OrderedMap.HasKey(cat.1, imageLoc) then (b, Ok(OrderedMap.Get(cat.1, imageLoc).value))
         else (b, Err(NoSuchElement))
       case None => (b, Err(NoSuchElement)))
    case AtHome =>
      if OrderedMap.HasKey(b.home, imageLoc) then
        (match OrderedMap.Get(b.registry, imageLoc)
         case Some(slot) => (b.(cursor := if slot.Home? then AtHome else Open(imageLoc)), Ok(""))
         case None => (b, Err(NoSuchElement)))
      else (b, Err(NoSuchElement))
    case Null => (b, Err(NoSuchElement))
  }

  /** getImageLocs: the image locations of the current page, none when no page is current. */
  function ImageLocs(b: Board): seq<string>
  {
    match CurrentItems(b)
    case Some(items) => OrderedMap.Keys(items)
    case None => []
  }

  /** hasImage: membership in the current page only. */
  function HasImage(b: Board, imageLoc: string): bool
  {
    CurrentItems(b).Some? && OrderedMap.HasKey(CurrentItems(b).value, imageLoc)
  }

  /** getCategory: "" at home, the open category's name, NullPointer when no page is current. */
  function CategoryName(b: Board): Result<string>
  {
    match b.cursor
    case AtHome => Ok("")
    case Open(key) =>
      (match OpenCategory(b, key)
       case Some(cat) => Ok(cat.0)
       case None => Err(NullPointer))
    case Null => Err(NullPointer)
  }

  /** reset: back to the home page. */
  function Reset(b: Board): Board
  {
    b.(cursor := AtHome)
  }

  /** Register a new empty category `name` under `icon` and put `icon -> name` on the home page. */
  function AddCategory(b: Board, icon: string, name: string): Board
  {
    b.(registry := OrderedMap.Set(b.registry, icon, Named(name, [])),
       home := OrderedMap.Set(b.home, icon, name))
  }

  /** The category-level addItem applied to whatever page is current. */
  function AddToCurrent(b: Board, imageLoc: string, text: string): Board
  {
    match b.cursor
    case Null => b
    case AtHome => b.(home := OrderedMap.Set(b.home, imageLoc, text))
    case Open(key) =>
      match OpenCategory(b, key)
      case Some(cat) =>
        b.(registry := OrderedMap.Set(b.registry, key, Named(cat.0, OrderedMap.Set(cat.1, imageLoc, text))))
      case None => b
  }

  /** addItem: at home it creates a category, in a category it adds an item, with no page it does nothing. */
  function AddItem(b: Board, imageLoc: string, text: string): Board
  {
    match b.cursor
    case Null => b
    case AtHome => AddCategory(b, imageLoc, text)
    case Open(_) => AddToCurrent(b, imageLoc, text)
  }

  // ---------------------------------------------------------------------------
  // Properties of the board operations

  lemma InitialValid()
    ensures Valid(Initial())
  {
  }

  /** Select succeeds exactly when hasImage holds, and never touches the registry or the home page. */
  lemma SelectSucceedsIffHasImage(b: Board, imageLoc: string)
    requires Valid(b)
    ensures Select(b, imageLoc).1.Ok? <==> HasImage(b, imageLoc)
    ensures Select(b, imageLoc).0.registry == b.registry && Select(b, imageLoc).0.home == b.home
  {
    if b.cursor == AtHome && OrderedMap.HasKey(b.home, imageLoc) {
      var i :| 0 <= i < |b.home| && b.home[i].0 == imageLoc;
      assert OrderedMap.HasKey(b.registry, b.home[i].0);
    }
  }

  /** In a category, selecting one of its images speaks its text and stays in the category. */
  lemma SelectInCategory(b: Board, imageLoc: string)
    requires Valid(b) && b.cursor.Open?
    requires HasImage(b, imageLoc)
    ensures Select(b, imageLoc).0 == b
    ensures Select(b, imageLoc).1.Ok?
    ensures (imageLoc, Select(b, imageLoc).1.value) in CurrentItems(b).value
  {
  }

  /** At home, selecting a home icon opens the category registered under it and yields "". */
  lemma SelectAtHome(b: Board, imageLoc: string)
    requires Valid(b) && b.cursor == AtHome
    requires OrderedMap.HasKey(b.home, imageLoc)
    ensures Select(b, imageLoc).1 == Ok("")
    ensures OrderedMap.Get(b.registry, imageLoc).Some?
    ensures OrderedMap.Get(b.registry, imageLoc).value.Named? ==>
              Select(b, imageLoc).0 == b.(cursor := Open(imageLoc))
  {
    SelectSucceedsIffHasImage(b, imageLoc);
  }

  /**
   * Every other select fails with NoSuchElement and changes nothing; in particular a
   * home icon chosen inside a category, and any select with no current page.
   */
  lemma SelectFails(b: Board, imageLoc: string)
    requires Valid(b)
    requires !HasImage(b, imageLoc)
    ensures Select(b, imageLoc) == (b, Err(NoSuchElement))
  {
    SelectSucceedsIffHasImage(b, imageLoc);
  }

  /** Select keeps the invariant. */
  lemma SelectValid(b: Board, imageLoc: string)
    requires Valid(b)
    ensures Valid(Select(b, imageLoc).0)
  {
    var r := Select(b, imageLoc).0;
    if r.cursor.Open? && r != b {
      assert r.cursor.key == imageLoc;
      assert OpenCategory(r, imageLoc).Some?;
    }
  }

  /** After reset the board shows the home page's icons; a second reset changes nothing. */
  lemma ResetShowsHome(b: Board)
    ensures CategoryName(Reset(b)) == Ok("")
    ensures ImageLocs(Reset(b)) == OrderedMap.Keys(b.home)
    ensures Reset(Reset(b)) == Reset(b)
    ensures Valid(b) ==> Valid(Reset(b))
  {
  }

  /** Adding a category keeps the invariant. */
  lemma AddCategoryValid(b: Board, icon: string, name: string)
    requires Valid(b)
    ensures Valid(AddCategory(b, icon, name))
  {
    var r := AddCategory(b, icon, name);
    OrderedMap.SetDistinct(b.registry, icon, Named(name, []));
    OrderedMap.SetDistinct(b.home, icon, name);
    OrderedMap.GetSetSame(b.registry, icon, Named(name, []));
    OrderedMap.KeysSet(b.registry, icon, Named(name, []));
    OrderedMap.KeysSet(b.home, icon, name);
    forall i | 0 <= i < |r.registry| && r.registry[i].1.Named?
      ensures OrderedMap.DistinctKeys(r.registry[i].1.items)
    {
      OrderedMap.SetDistinct(r.registry, r.registry[i].0, r.registry[i].1);
      OrderedMap.GetAt(r.registry, i);
      if r.registry[i].0 != icon {
        OrderedMap.GetSetOther(b.registry, icon, Named(name, []), r.registry[i].0);
        var j :| 0 <= j < |b.registry| && b.registry[j].0 == r.registry[i].0;
        OrderedMap.GetAt(b.registry, j);
      }
    }
    forall i | 0 <= i < |r.home|
      ensures OrderedMap.HasKey(r.registry, r.home[i].0)
    {
      var k := r.home[i].0;
      assert OrderedMap.Keys(r.home)[i] == k;
      OrderedMap.HasKeyInKeys(r.home, k);
      OrderedMap.HasKeyInKeys(b.home, k);
      OrderedMap.HasKeyInKeys(r.registry, k);
      OrderedMap.HasKeyInKeys(b.registry, k);
      if k != icon {
        var j :| 0 <= j < |b.home| && b.home[j].0 == k;
      }
    }
    if r.cursor.Open? {
      var key := r.cursor.key;
      if key != icon {
        OrderedMap.GetSetOther(b.registry, icon, Named(name, []), key);
      }
    }
  }

  /** Adding a category and opening it keeps the invariant. */
  lemma AddCategoryOpenValid(b: Board, icon: string, name: string)
    requires Valid(b)
    ensures Valid(AddCategory(b, icon, name).(cursor := Open(icon)))
  {
    AddCategoryValid(b, icon, name);
    OrderedMap.GetSetSame(b.registry, icon, Named(name, []));
  }

  /**
   * Adding to an open category (or to no page) keeps the invariant. At the home page
   * the category-level add would list an icon without registering it; the source only
   * does that from readFile, whose one caller starts with no current page.
   */
  lemma AddToCurrentValid(b: Board, imageLoc: string, text: string)
    requires Valid(b) && b.cursor != AtHome
    ensures Valid(AddToCurrent(b, imageLoc, text))
  {
    if b.cursor.Open? && OpenCategory(b, b.cursor.key).Some? {
      var key := b.cursor.key;
      var cat := OpenCategory(b, key).value;
      var slot := Named(cat.0, OrderedMap.Set(cat.1, imageLoc, text));
      var j :| 0 <= j < |b.registry| && b.registry[j].0 == key;
      OrderedMap.GetAt(b.registry, j);
      OrderedMap.SetExisting(b.registry, j, slot);
      OrderedMap.SetDistinct(cat.1, imageLoc, text);
      var r := AddToCurrent(b, imageLoc, text);
      assert r.registry == b.registry[j := (key, slot)];
      ReplaceSlotValid(b, j, slot);
    }
  }

  /** Replacing one registry slot by an ordinary category with distinct items keeps the invariant. */
  lemma ReplaceSlotValid(b: Board, j: int, slot: Slot)
    requires Valid(b) && 0 <= j < |b.registry| && b.cursor != AtHome
    requires slot.Named? && OrderedMap.DistinctKeys(slot.items)
    requires b.cursor.Open? ==> b.cursor.key == b.registry[j].0
    ensures Valid(b.(registry := b.registry[j := (b.registry[j].0, slot)]))
  {
    var r := b.(registry := b.registry[j := (b.registry[j].0, slot)]);
    forall i | 0 <= i < |r.home|
      ensures OrderedMap.HasKey(r.registry, r.home[i].0)
    {
      var k := r.home[i].0;
      assert OrderedMap.HasKey(b.registry, k);
      var m :| 0 <= m < |b.registry| && b.registry[m].0 == k;
      assert r.registry[m].0 == k;
    }
    if b.cursor.Open? {
      OrderedMap.GetAt(r.registry, j);
    }
  }

  /** addItem keeps the invariant. */
  lemma AddItemValid(b: Board, imageLoc: string, text: string)
    requires Valid(b)
    ensures Valid(AddItem(b, imageLoc, text))
  {
    match b.cursor
    case Null =>
    case AtHome => AddCategoryValid(b, imageLoc, text);
    case Open(_) => AddToCurrentValid(b, imageLoc, text);
  }

  /**
   * addItem at home puts `imageLoc -> text` on the home page and registers a fresh empty
   * category named `text` under `imageLoc` (replacing any earlier one); every other key
   * keeps its value.
   */
  lemma AddItemAtHome(b: Board, imageLoc: string, text: string)
    requires b.cursor == AtHome
    ensures var r := AddItem(b, imageLoc, text);
      && r.cursor == AtHome
      && OrderedMap.Get(r.home, imageLoc) == Some(text)
      && OrderedMap.Get(r.registry, imageLoc) == Some(Named(text, []))
      && (forall k :: k != imageLoc ==> OrderedMap.Get(r.home, k) == OrderedMap.Get(b.home, k))
      && (forall k :: k != imageLoc ==> OrderedMap.Get(r.registry, k) == OrderedMap.Get(b.registry, k))
  {
    var r := AddItem(b, imageLoc, text);
    OrderedMap.GetSetSame(b.home, imageLoc, text);
    OrderedMap.GetSetSame(b.registry, imageLoc, Named(text, []));
    forall k | k != imageLoc
      ensures OrderedMap.Get(r.home, k) == OrderedMap.Get(b.home, k)
      ensures OrderedMap.Get(r.registry, k) == OrderedMap.Get(b.registry, k)
    {
      OrderedMap.GetSetOther(b.home, imageLoc, text, k);
      OrderedMap.GetSetOther(b.registry, imageLoc, Named(text, []), k);
    }
  }

  /** After addItem at home, selecting the new icon opens the new category, empty and named `text`. */
  lemma AddItemThenSelect(b: Board, imageLoc: string, text: string)
    requires b.cursor == AtHome
    ensures var r := AddItem(b, imageLoc, text);
      && Select(r, imageLoc) == (r.(cursor := Open(imageLoc)), Ok(""))
      && ImageLocs(Select(r, imageLoc).0) == []
      && CategoryName(Select(r, imageLoc).0) == Ok(text)
  {
    var r := AddCategory(b, imageLoc, text);
    OrderedMap.GetSetSame(b.home, imageLoc, text);
    OrderedMap.GetSetSame(b.registry, imageLoc, Named(text, []));
    assert OpenCategory(r, imageLoc) == Some((text, []));
  }

  /**
   * addItem inside a category adds to that category only: its items become those of
   * `set(imageLoc, text)` on its old items, the home page, the cursor and every other
   * registered category are untouched, the registry's keys stay as they are, and
   * selecting the image now speaks `text`.
   */
  lemma AddItemInCategory(b: Board, imageLoc: string, text: string)
    requires Valid(b) && b.cursor.Open?
    ensures var r := AddItem(b, imageLoc, text);
      && r.home == b.home && r.cursor == b.cursor
      && OrderedMap.Keys(r.registry) == OrderedMap.Keys(b.registry)
      && (forall k :: k != b.cursor.key ==> OrderedMap.Get(r.registry, k) == OrderedMap.Get(b.registry, k))
      && OpenCategory(r, b.cursor.key).Some?
      && OpenCategory(r, b.cursor.key).value.0 == OpenCategory(b, b.cursor.key).value.0
      && OpenCategory(r, b.cursor.key).value.1 == OrderedMap.Set(OpenCategory(b, b.cursor.key).value.1, imageLoc, text)
      && Select(r, imageLoc) == (r, Ok(text))
  {
    var key := b.cursor.key;
    var cat := OpenCategory(b, key).value;
    var slot := Named(cat.0, OrderedMap.Set(cat.1, imageLoc, text));
    var r := AddItem(b, imageLoc, text);
    assert r.registry == OrderedMap.Set(b.registry, key, slot);
    OrderedMap.KeysSet(b.registry, key, slot);
    OrderedMap.GetSetSame(b.registry, key, slot);
    OrderedMap.GetSetSame(cat.1, imageLoc, text);
    forall k | k != key
      ensures OrderedMap.Get(r.registry, k) == OrderedMap.Get(b.registry, k)
    {
      OrderedMap.GetSetOther(b.registry, key, slot, k);
    }
  }

  /** addItem with no current page changes nothing. */
  lemma AddItemNoPage(b: Board, imageLoc: string, text: string)
    requires b.cursor == Null
    ensures AddItem(b, imageLoc, text) == b
  {
  }
}
