# AAC speech board — a Dafny model

This project models the core of a two-level speech board for an augmentative and
alternative communication (AAC) device. The board has two levels:

- The **home page** lists category icons.
- Each **category** maps image locations to the text spoken when the image is selected.

The board keeps four pieces of state:

- a registry from icon to category;
- the home page, which is a category whose items are `icon -> category name`;
- the category currently shown;
- a line-oriented text file that it reads from and writes to.

Modules:

- `Outcomes` (`outcomes.dfy`) holds `Option`, `Result` and the Java exceptions the board
  can raise, as values.
- `OrderedMap` (`ordered_map.dfy`) is the associative array both classes are built on.
  That array's implementation is not part of this model. It is assumed to be an
  insertion-ordered map, kept as the sequence of its pairs:
  - `set` overwrites a present key in place and appends an absent one;
  - `get` fails on a missing key;
  - iteration follows the stored order.
- `Category` (`category.dfy`) is the class `AACCategory`: a name and a mutable item map.
- `BoardModel` (`board.dfy`) is the board as a value. It has:
  - the registry, whose slots are the home page (`Home`) or an ordinary category (`Named`);
  - the home page's icons;
  - a cursor: `Null`, `AtHome`, or `Open(key)`.

  It defines select, addItem, reset, getCategory, hasImage and getImageLocs as
  functions, together with the board invariant `Valid`:
  - no key is stored twice;
  - every home icon has a registered category;
  - an open cursor names a registered ordinary category.
- `FileFormat` (`file_format.dfy`) holds the file format:
  - trimming, and the split at the first single whitespace character;
  - one line of `readFile` (`Step`), the whole read loop (`ParseLines`, `Load`);
  - `writeToFile`'s output (`Serialize`);
  - the write-then-read round trip.
- `Mappings` (`mappings.dfy`) is the class `AACMappings`. Its fields are the registry of
  category objects, the current category (possibly null) and the home page. `Abs()` maps
  its heap state to a `BoardModel.Board`. Every method is proved against the
  corresponding `BoardModel` or `FileFormat` function:
  - `readFile` is a `while` loop over the lines;
  - `writeToFile` has nested loops over the registry and each category's image array.
- `Example` (`example.dfy`) is the two-category file from the source's documentation.
  It covers that file read, navigated and written back.

The file is modelled as `Option<seq<string>>`: `None` is a file that cannot be opened.
The written file is modelled as the returned sequence of lines.

Some points of the code's behaviour may surprise a reader. The model follows the code on each:

- **Select inside a category.** An image missing from the open category is not tried as
  a home icon. `select` then throws (`AACMappings.java:107-123`).
- **Malformed lines.** A blank line, or a line that needs a second token and has none,
  aborts the rest of the read. Such a line is not skipped. After such a failure the
  current category is not reset to the home page. The constructor swallows the exception.
- **Home page in the registry.** The home page is itself registered under the key `""`
  (`AACMappings.java:87`). `writeToFile` skips it by identity.
- **Current page before reading.** The current category starts as null, not as the home
  page. It becomes the home page only after a complete read.
- **Split.** A line is split at its first single whitespace character after trimming, so
  a second space stays in the name or text.

## Model

| member | source | states |
|---|---|---|
| OrderedMap.Get | src/AACCategory.java:76-82 | `get` finds a value exactly when the key is present, and the found pair is in the map |
| OrderedMap.KeysSet | src/AACCategory.java:35-40 | `set` keeps the key order; it appends the key exactly when the key was absent, so re-adding never duplicates a key |
| OrderedMap.GetSetSame | src/AACCategory.java:35-40 | after `set(k, v)`, `get(k)` is `v` |
| OrderedMap.GetSetOther | src/AACCategory.java:35-40 | `set(k, v)` leaves every other key's value unchanged |
| OrderedMap.SetDistinct | src/AACCategory.java:35-40 | `set` never stores a key twice |
| Category.AACCategory.constructor | src/AACCategory.java:24-27 | a new category has the given name and no images |
| Category.AACCategory.AddItem | src/AACCategory.java:35-40 | insert or overwrite: afterwards `hasImage(k)` holds and `select(k)` is the text; every other key keeps its text; the name is constant; keys stay distinct |
| Category.AACCategory.GetImageLocs | src/AACCategory.java:47-58 | a fresh array holding exactly the keys, each once, in iteration order (the loop index never passes the array length) |
| Category.AACCategory.Select | src/AACCategory.java:76-82 | succeeds exactly when `hasImage` holds, with the stored text; otherwise NoSuchElement |
| Category.AACCategory.HasImage | src/AACCategory.java:90-92 | true exactly when the image is among the category's keys |
| BoardModel.InitialValid | src/AACMappings.java:83-87 | the board the constructor starts from (home page under "", no current page) satisfies the invariant |
| BoardModel.SelectSucceedsIffHasImage | src/AACMappings.java:106-124 | select succeeds exactly when hasImage holds on the current page; it never changes the registry or the home page |
| BoardModel.SelectInCategory | src/AACMappings.java:107-111 | in a category, one of its images yields that image's text and the board is unchanged |
| BoardModel.SelectAtHome | src/AACMappings.java:112-121 | at home, a home icon yields "" and makes the category registered under it current |
| BoardModel.SelectFails | src/AACMappings.java:106-124 | every other select, including a home icon inside a category and any select with no page, throws NoSuchElement and changes nothing |
| BoardModel.SelectValid | src/AACMappings.java:106-124 | select keeps the board invariant |
| BoardModel.ResetShowsHome | src/AACMappings.java:132-142 | after reset getCategory is "" and getImageLocs lists the home icons; reset is idempotent and keeps the invariant |
| BoardModel.AddCategoryValid | src/AACMappings.java:189-196 | registering a category and listing its icon at home keeps the invariant (every home icon stays registered) |
| BoardModel.AddCategoryOpenValid | src/AACMappings.java:49-52 | registering a category read from a file and making it current keeps the invariant |
| BoardModel.AddToCurrentValid | src/AACMappings.java:197-199 | adding an item to the open category keeps the invariant |
| BoardModel.AddItemValid | src/AACMappings.java:187-201 | addItem keeps the invariant in every mode |
| BoardModel.AddItemAtHome | src/AACMappings.java:189-196 | at home, addItem lists `k -> t` on the home page and registers a fresh empty category named `t` under `k`, overwriting any earlier one; other keys keep their values in both maps and the home page stays current |
| BoardModel.AddItemThenSelect | src/AACMappings.java:189-196 | after addItem at home, selecting the new icon opens an empty category named by the text and yields "" |
| BoardModel.AddItemInCategory | src/AACMappings.java:197-199 | in a category, addItem adds to that category only: its items become `set(k, t)` of its old items; the home page, the cursor, the registry's keys and other categories are untouched, and selecting the image speaks the text |
| BoardModel.AddItemNoPage | src/AACMappings.java:188-200 | with no current page addItem does nothing |
| FileFormat.Trim | src/AACMappings.java:42 | the trimmed line is the stretch of the line after its leading whitespace, everything after it is whitespace, and it starts and ends with a non-whitespace character |
| FileFormat.Split | src/AACMappings.java:43 | one token exactly when the line has no whitespace; otherwise the line is the first token, one whitespace character and the rest |
| FileFormat.BlankLineFails | src/AACMappings.java:44 | a blank line aborts the read with StringIndexOutOfBounds and changes nothing |
| FileFormat.LoneTokenFails | src/AACMappings.java:44-49 | a one-token line aborts with ArrayIndexOutOfBounds, except an item line before any category, which is dropped |
| FileFormat.ItemsBeforeHeaderIgnored | src/AACMappings.java:44-47 | item lines before the first category line leave the board unchanged |
| FileFormat.StepHeader | src/AACMappings.java:48-52 | a category line registers a new empty category under its icon, lists it at home and makes it current |
| FileFormat.StepItem | src/AACMappings.java:44-47 | an item line adds its image to the category being read, or is dropped when none is open |
| FileFormat.ParseAppend | src/AACMappings.java:41-57 | reading two runs of lines is reading the first and then, unless it failed, the second |
| FileFormat.StepValid | src/AACMappings.java:41-57 | each line keeps the invariant and never makes the home page current |
| FileFormat.ParseValid | src/AACMappings.java:41-57 | the read loop keeps the invariant |
| FileFormat.LoadOutcome | src/AACMappings.java:39-65 | readFile keeps the invariant; it ends at the home page exactly when no exception was raised; a missing file changes nothing and raises FileNotFound |
| FileFormat.TokenizeHeader | src/AACMappings.java:167 | a written category line reads back as its icon and name |
| FileFormat.TokenizeItem | src/AACMappings.java:170 | a written item line reads back as its image location and text |
| FileFormat.SerializeExported | src/AACMappings.java:166 | skipping the home page loses no output |
| FileFormat.ParseCategory | src/AACMappings.java:44-56 | a category line and its item lines read back as that category, with its items in order, listed at home |
| FileFormat.ParseItems | src/AACMappings.java:44-47 | the item lines after a category line rebuild that category's items in order |
| FileFormat.ParseSerialized | src/AACMappings.java:39-65 | reading written output of entries that survive a write and a read (no line breaks, single-token keys, names and texts not ending in whitespace) adds every exported category, in order, to the registry and its icon to the home page, without error |
| FileFormat.RoundTrip | src/AACMappings.java:158-178 | writing a board and reading the file into a new board gives the home page plus every category with the same icon, name and items in order, the icons at home, the home page current; writing again gives the same lines |
| Mappings.AACMappings.constructor | src/AACMappings.java:82-92 | the board is the one the file gives, read into the initial board, any exception swallowed; the invariant holds |
| Mappings.AACMappings.ReadFile | src/AACMappings.java:39-65 | the `while` loop over the lines gives exactly `Load` of the board: lines in order, stop at the first failure, home page current after a complete read |
| Mappings.AACMappings.ReadLine | src/AACMappings.java:42-56 | one trimmed, split line changes the objects exactly as `Step` changes the board |
| Mappings.AACMappings.ReadItem | src/AACMappings.java:44-47 | an item line: dropped without a category, ArrayIndexOutOfBounds without a text, else added to the current category |
| Mappings.AACMappings.ReadHeader | src/AACMappings.java:48-56 | a category line: ArrayIndexOutOfBounds without a name, else a new category registered, listed at home and made current |
| Mappings.AACMappings.OpenNewCategory | src/AACMappings.java:49-52 | a fresh category object registered under the icon and made current; the board is the model's with that category open |
| Mappings.AACMappings.RegisterCategory | src/AACMappings.java:190-196 | a fresh empty category registered under the icon (replacing any earlier one) and `icon -> name` on the home page, matching `BoardModel.AddCategory` |
| Mappings.AACMappings.Select | src/AACMappings.java:106-124 | the new board and the result are exactly `BoardModel.Select` of the old board; the registry is unchanged |
| Mappings.AACMappings.SelectOpen | src/AACMappings.java:107-111 | in a category, select answers from that category alone |
| Mappings.AACMappings.SelectHome | src/AACMappings.java:112-121 | at home, select follows a home icon to the object registered under it, else fails |
| Mappings.AACMappings.GetImageLocs | src/AACMappings.java:132-137 | a fresh array of the current page's image locations, empty with no page |
| Mappings.AACMappings.Reset | src/AACMappings.java:140-142 | the home page becomes current; nothing else changes |
| Mappings.AACMappings.AddItem | src/AACMappings.java:187-201 | the new board is `BoardModel.AddItem` of the old one, so the addItem lemmas above apply to it |
| Mappings.AACMappings.AddToCurrent | src/AACMappings.java:198 | the item goes into the current category; the board is `BoardModel.AddToCurrent` of the old one |
| Mappings.AACMappings.GetCategory | src/AACMappings.java:208-214 | "" at home, the current category's name, NullPointer with no current category |
| Mappings.AACMappings.HasImage | src/AACMappings.java:250-252 | membership in the current page; false with no page |
| Mappings.AACMappings.WriteToFile | src/AACMappings.java:158-178 | the nested loops emit exactly `Serialize` of the registry: per category but the home page, in registry order, `icon name` and then `>image text` per item in category order |
| Example.ExampleRead | src/AACMappings.java:73-79 | reading the documented file gives home page, food (fries, watermelon) and clothing (collared shirt), at the home page; writing it back gives the same file |
| Example.ExampleHome | src/AACMappings.java:73-79 | the home icons are the plate and the hanger in order; selecting the plate opens food and yields "" |
| Example.ExampleFood | src/AACMappings.java:73-79 | in food the images are fries and watermelon; the fries speak "french fries"; the hanger is not found there |
| Example.ExampleWritten | src/AACMappings.java:149-154 | writing the example board gives the documented file line for line |
| Example.ExampleWritable | src/AACMappings.java:149-154 | every entry of the example board survives a write and a read, and the loaded board satisfies the invariant |

## Left out

- java.io (`File`, `Scanner`, `PrintWriter`) and the file names are not modelled. A file
  is its sequence of lines, or `None` when it cannot be opened. `writeToFile` returns its
  lines. Its swallowed I/O failures and partial writes are not modelled.
- The implementation of `AssociativeArray`, `KVPair` and `KeyNotFoundException` is not
  part of this model. The ordered-map assumption above stands in for them.
- The swallowed exceptions of `set` (`AACCategory.java:36-39`, `AACMappings.java:50-55`,
  `192-196`) are not modelled. They fire only for null keys, and strings in the model
  are never null.
- Java's `trim()` strips every character up to U+0020, while `\s` is six ASCII
  whitespace characters. The model uses the six `\s` characters for both.
- `writeToFile`'s output is modelled as the list of its `println` arguments. A name,
  text or key holding a line break (`\n`, `\r`, U+2028, U+2029 or U+0085) would be
  written as more than one line of the file. The model does not split such an argument.
  `FileFormat.RoundTrip` therefore requires that no written string holds a line break.
- The commented-out global `hasImage` (`AACMappings.java:216-242`) and the dead
  null-check after reading (`AACMappings.java:62-64`) are not modelled.
- `AACCategory.getCategory` returns the name. Its contract would only repeat its body,
  so it has no row.
- Mappings.AACMappings.ReadFile: requires that the home page is not current. Its one
  caller, the constructor, starts with no current page.
- Mappings.AACMappings.constructor: does not state that the category objects it creates
  are fresh.
- Mappings.AACMappings.RegisterCategory: registers the new category before listing it
  on the home page. `addItem` does these in the other order (`AACMappings.java:190`,
  `193`). No caller can observe the difference.
- Mappings.AACMappings.WriteToFile, Mappings.AACMappings.GetImageLocs: the iterator
  objects are not modelled. The loops walk the registry sequence and the image array.
- FileFormat.RoundTrip: requires written keys, names and texts that survive a write and
  a read:
  - a category icon is one non-empty token that does not start with `>`;
  - an image location has no whitespace;
  - a name or text is non-empty and does not end in whitespace;
  - no icon, image location, name or text holds a line break, since `println` would
    write it as two lines of the file and `nextLine` would read them back separately.

  Other boards do not read back unchanged.
