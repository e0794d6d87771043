/**
 * The board's text file, one line per entry. A category line is `icon name`; an item
 * line is `>image text` and belongs to the category declared last. Reading trims each
 * line and splits it at its first single whitespace character, so a name or text may
 * itself contain whitespace. The file is modelled as the sequence of its lines.
 */
module FileFormat {
  import opened Outcomes
  import OrderedMap
  import opened BoardModel

  /** The whitespace characters of Java's `\s`. */
  predicate IsSpace(c: char)
  {
    c == ' ' || c == '\t' || c == '\n' || c == '\U{000B}' || c == '\U{000C}' || c == '\r'
  }

  predicate NoSpace(s: string)
  {
    forall i :: 0 <= i < |s| ==> !IsSpace(s[i])
  }

  /** The number of whitespace characters the line starts with. */
  function LeadingSpaces(s: string): (n: nat)
    ensures n <= |s|
    ensures forall i :: 0 <= i < n ==> IsSpace(s[i])
    ensures n < |s| ==> !IsSpace(s[n])
  {
    if s != [] && IsSpace(s[0]) then 1 + LeadingSpaces(s[1..]) else 0
  }

  /** Strip trailing whitespace. */
  function TrimEnd(s: string): (r: string)
    ensures |r| <= |s| && r == s[..|r|]
    ensures r == [] || !IsSpace(r[|r| - 1])
    ensures forall i :: |r| <= i < |s| ==> IsSpace(s[i])
  {
    if s != [] && IsSpace(s[|s| - 1]) then TrimEnd(s[..|s| - 1]) else s
  }

  /**
   * trim(): the line without whitespace at either end. The result is the stretch of the
   * line that starts after its leading whitespace, and everything after it is whitespace.
   */
  function Trim(s: string): (r: string)
    ensures r == [] || (!IsSpace(r[0]) && !IsSpace(r[|r| - 1]))
    ensures LeadingSpaces(s) + |r| <= |s| && r == s[LeadingSpaces(s)..LeadingSpaces(s) + |r|]
    ensures forall i :: LeadingSpaces(s) + |r| <= i < |s| ==> IsSpace(s[i])
  {
    TrimEnd(s[LeadingSpaces(s)..])
  }

  /** The position of the first whitespace character, or the length when there is none. */
  function FirstSpace(s: string): (i: nat)
    ensures i <= |s|
    ensures forall j :: 0 <= j < i ==> !IsSpace(s[j])
    ensures i < |s| ==> IsSpace(s[i])
  {
    if s == [] || IsSpace(s[0]) then 0 else 1 + FirstSpace(s[1..])
  }

  /**
   * split("\\s", 2): the whole line when it has no whitespace, otherwise what precedes
   * its first whitespace character and everything after that one character.
   */
  function Split(s: string): (tokens: seq<string>)
    ensures 1 <= |tokens| <= 2 && NoSpace(tokens[0])
    ensures |tokens| == 1 <==> NoSpace(s)
    ensures |tokens| == 1 ==> tokens[0] == s
    ensures |tokens| == 2 ==>
              |tokens[0]| < |s| && IsSpace(s[|tokens[0]|]) && s == tokens[0] + [s[|tokens[0]|]] + tokens[1]
  {
    var i := FirstSpace(s);
    if i == |s| then [s] else [s[..i], s[i + 1..]]
  }

  /** What one trimmed line of the file says, with its tokens as split("\\s", 2) leaves them. */
  datatype Line =
    | Blank                                           // tokens[0] is empty
    | Item(imageLoc: string, text: Option<string>)    // tokens[0] starts with '>'
    | Header(icon: string, name: Option<string>)      // any other line

  /** Trim the raw line and split it at its first whitespace character. */
  function Tokenize(raw: string): Line
  {
    var tokens := Split(Trim(raw));
    var second := if |tokens| == 2 then Some(tokens[1]) else None;
    if tokens[0] == "" then Blank
    else if tokens[0][0] == '>' then Item(Trim(tokens[0][1..]), second)
    else Header(tokens[0], second)
  }

  /**
   * One line of readFile applied to the board. A blank line fails at charAt(0); an item
   * line adds to the category being read (and is dropped, second token or not, when none
   * is open yet); a category line opens a new category and lists it on the home page; a
   * line needing a second token without one fails at tokens[1]. A failure leaves the
   * board as it was.
   */
  function Apply(b: Board, line: Line): (Board, Option<Exception>)
  {
    match line
    case Blank => (b, Some(StringIndexOutOfBounds))
    case Item(imageLoc, text) =>
      if b.cursor.Null? then (b, None)
      else if text.None? then (b, Some(ArrayIndexOutOfBounds))
      else (AddToCurrent(b, imageLoc, text.value), None)
    case Header(icon, name) =>
      if name.None? then (b, Some(ArrayIndexOutOfBounds))
      else (AddCategory(b, icon, name.value).(cursor := Open(icon)), None)
  }

  function Step(b: Board, raw: string): (Board, Option<Exception>)
  {
    Apply(b, Tokenize(raw))
  }

  /** The readFile loop: the lines in order, stopping at the first one that fails. */
  function ParseLines(b: Board, lines: seq<string>): (Board, Option<Exception>)
    decreases |lines|
  {
    if lines == [] then (b, None)
    else
      var r := Step(b, lines[0]);
      if r.1.Some? then r else ParseLines(r.0, lines[1..])
  }

  /** Reading from line n on: line n first, then, unless it failed, the lines after it. */
  lemma ParseFrom(b: Board, lines: seq<string>, n: int)
    requires 0 <= n < |lines|
    ensures Step(b, lines[n]).1.Some? ==> ParseLines(b, lines[n..]) == Step(b, lines[n])
    ensures Step(b, lines[n]).1.None? ==> ParseLines(b, lines[n..]) == ParseLines(Step(b, lines[n]).0, lines[n + 1..])
  {
    assert lines[n..][0] == lines[n] && lines[n..][1..] == lines[n + 1..];
  }

  /** One more line of the readFile loop, from the board reached so far to the next one. */
  lemma ParseNext(b: Board, lines: seq<string>, n: int, goal: (Board, Option<Exception>), next: Board, thrown: Option<Exception>)
    requires 0 <= n < |lines|
    requires ParseLines(b, lines[n..]) == goal
    requires (next, thrown) == Step(b, lines[n])
    ensures thrown.Some? ==> (next, thrown) == goal
    ensures thrown.None? ==> ParseLines(next, lines[n + 1..]) == goal
  {
    ParseFrom(b, lines, n);
  }

  /**
   * readFile: a missing file changes nothing; after a complete read the home page is
   * current; after a failed line the category being read stays current.
   */
  function Load(b: Board, file: Option<seq<string>>): (Board, Option<Exception>)
  {
    match file
    case None => (b, Some(FileNotFound))
    case Some(lines) =>
      var r := ParseLines(b, lines);
      if r.1.None? then (r.0.(cursor := AtHome), None) else r
  }

  /** The board the constructor builds from a file, any exception being swallowed. */
  function FromFile(file: Option<seq<string>>): Board
  {
    Load(Initial(), file).0
  }

  function HeaderLine(icon: string, name: string): string
  {
    icon + " " + name
  }

  function ItemLine(imageLoc: string, text: string): string
  {
    ">" + imageLoc + " " + text
  }

  /** The item lines of one category, in the category's order. */
  function ItemLines(items: seq<(string, string)>): seq<string>
  {
    seq(|items|, i requires 0 <= i < |items| => ItemLine(items[i].0, items[i].1))
  }

  /** writeToFile: every registry entry but the home page, a category line followed by its item lines. */
  function Serialize(registry: seq<(string, Slot)>): seq<string>
  {
    if registry == [] then []
    else
      match registry[0].1
      case Home => Serialize(registry[1..])
      case Named(name, items) =>
        [HeaderLine(registry[0].0, name)] + ItemLines(items) + Serialize(registry[1..])
  }

  /** The registry entries writeToFile exports: all but the home page. */
  function Exported(registry: seq<(string, Slot)>): seq<(string, Slot)>
  {
    if registry == [] then []
    else if registry[0].1.Home? then Exported(registry[1..])
    else [registry[0]] + Exported(registry[1..])
  }

  /** The home-page icons that reading the exported entries lists: icon -> category name. */
  function Icons(registry: seq<(string, Slot)>): seq<(string, string)>
  {
    if registry == [] then []
    else
      match registry[0].1
      case Home => Icons(registry[1..])
      case Named(name, _) => [(registry[0].0, name)] + Icons(registry[1..])
  }

  /**
   * The characters at which Scanner.nextLine ends a line: println writes a string holding
   * one of them as more than one line of the file.
   */
  predicate IsLineBreak(c: char)
  {
    c == '\n' || c == '\r' || c == '\U{2028}' || c == '\U{2029}' || c == '\U{0085}'
  }

  predicate NoLineBreak(s: string)
  {
    forall i :: 0 <= i < |s| ==> !IsLineBreak(s[i])
  }

  /**
   * A text survives a write and a read: it is not empty, does not end in whitespace, and
   * has no line break.
   */
  predicate GoodText(s: string)
  {
    s != [] && !IsSpace(s[|s| - 1]) && NoLineBreak(s)
  }

  /**
   * A category icon survives a write and a read: one non-empty token that does not start
   * with '>' and has no line break.
   */
  predicate GoodIcon(icon: string)
  {
    icon != [] && NoSpace(icon) && NoLineBreak(icon) && icon[0] != '>'
  }

  predicate WritableItems(items: seq<(string, string)>)
  {
    forall i :: 0 <= i < |items| ==> NoSpace(items[i].0) && NoLineBreak(items[i].0) && GoodText(items[i].1)
  }

  /** Every exported entry can be written and read back unchanged. */
  predicate Writable(registry: seq<(string, Slot)>)
  {
    forall i :: 0 <= i < |registry| && registry[i].1.Named? ==>
      GoodIcon(registry[i].0) && GoodText(registry[i].1.name) && WritableItems(registry[i].1.items)
  }

  // ---------------------------------------------------------------------------
  // Reading line by line

  /** Trimming a line that already has no whitespace at either end changes nothing. */
  lemma TrimTrimmed(s: string)
    requires s == [] || (!IsSpace(s[0]) && !IsSpace(s[|s| - 1]))
    ensures Trim(s) == s
  {
  }

  /** Splitting `a + c` joined by one space, where `a` has no whitespace, gives back `a` and `c`. */
  lemma SplitJoined(a: string, c: string)
    requires NoSpace(a)
    ensures Split(a + " " + c) == [a, c]
  {
    var s := a + " " + c;
    assert forall j :: 0 <= j < |a| ==> s[j] == a[j];
    assert IsSpace(s[|a|]);
    assert FirstSpace(s) == |a|;
    assert s[..|a|] == a && s[|a| + 1..] == c;
  }

  /** A blank or all-whitespace line aborts the read at charAt(0). */
  lemma BlankLineFails(b: Board, raw: string)
    requires Trim(raw) == ""
    ensures Step(b, raw) == (b, Some(StringIndexOutOfBounds))
  {
  }

  /**
   * A line that is one token aborts the read at tokens[1], unless it is an item line
   * read before any category, which is dropped.
   */
  lemma LoneTokenFails(b: Board, raw: string)
    requires Trim(raw) != "" && NoSpace(Trim(raw))
    ensures Trim(raw)[0] == '>' && b.cursor.Null? ==> Step(b, raw) == (b, None)
    ensures !(Trim(raw)[0] == '>' && b.cursor.Null?) ==> Step(b, raw) == (b, Some(ArrayIndexOutOfBounds))
  {
  }

  /** A written category line reads back as its icon and name. */
  lemma TokenizeHeader(icon: string, name: string)
    requires GoodIcon(icon) && GoodText(name)
    ensures Tokenize(HeaderLine(icon, name)) == Header(icon, Some(name))
  {
    var line := HeaderLine(icon, name);
    assert line[0] == icon[0] && line[|line| - 1] == name[|name| - 1];
    TrimTrimmed(line);
    SplitJoined(icon, name);
  }

  /** A written item line reads back as its image and text. */
  lemma TokenizeItem(imageLoc: string, text: string)
    requires NoSpace(imageLoc) && GoodText(text)
    ensures Tokenize(ItemLine(imageLoc, text)) == Item(imageLoc, Some(text))
  {
    var marked := ">" + imageLoc;
    var line := ItemLine(imageLoc, text);
    MarkedToken(imageLoc);
    assert line == marked + " " + text;
    assert line[0] == '>' && line[|line| - 1] == text[|text| - 1];
    TrimTrimmed(line);
    SplitJoined(marked, text);
    TrimTrimmed(imageLoc);
    assert Split(Trim(line)) == [marked, text];
  }

  /** The first token of an item line: the marker and an image location without whitespace. */
  lemma MarkedToken(imageLoc: string)
    requires NoSpace(imageLoc)
    ensures NoSpace(">" + imageLoc) && (">" + imageLoc)[1..] == imageLoc
  {
    var marked := ">" + imageLoc;
    assert forall i :: 1 <= i < |marked| ==> marked[i] == imageLoc[i - 1];
  }

  /** A written category line opens a new empty category registered and listed under its icon. */
  lemma StepHeader(b: Board, icon: string, name: string)
    requires GoodIcon(icon) && GoodText(name)
    ensures Step(b, HeaderLine(icon, name)) == (AddCategory(b, icon, name).(cursor := Open(icon)), None)
  {
    TokenizeHeader(icon, name);
  }

  /** A written item line adds its image to the category being read, or is dropped before any category. */
  lemma StepItem(b: Board, imageLoc: string, text: string)
    requires NoSpace(imageLoc) && GoodText(text)
    ensures Step(b, ItemLine(imageLoc, text)) ==
              (if b.cursor.Null? then b else AddToCurrent(b, imageLoc, text), None)
  {
    TokenizeItem(imageLoc, text);
  }

  /** Reading two runs of lines one after the other is reading them joined, unless the first fails. */
  lemma {:induction false} ParseAppend(b: Board, first: seq<string>, second: seq<string>)
    ensures ParseLines(b, first + second) ==
              if ParseLines(b, first).1.Some? then ParseLines(b, first)
              else ParseLines(ParseLines(b, first).0, second)
    decreases |first|
  {
    if first != [] {
      assert (first + second)[0] == first[0];
      assert (first + second)[1..] == first[1..] + second;
      var r := Step(b, first[0]);
      if r.1.None? {
        ParseAppend(r.0, first[1..], second);
      }
    } else {
      assert first + second == second;
    }
  }

  /** Item lines before the first category line are dropped without a trace. */
  lemma {:induction false} ItemsBeforeHeaderIgnored(b: Board, lines: seq<string>)
    requires b.cursor.Null?
    requires forall i :: 0 <= i < |lines| ==> Trim(lines[i]) != "" && Trim(lines[i])[0] == '>'
    ensures ParseLines(b, lines) == (b, None)
  {
    if lines != [] {
      assert Split(Trim(lines[0]))[0][0] == '>';
      ItemsBeforeHeaderIgnored(b, lines[1..]);
    }
  }

  /** A line keeps the invariant and never makes the home page current. */
  lemma StepValid(b: Board, raw: string)
    requires Valid(b) && b.cursor != AtHome
    ensures Valid(Step(b, raw).0) && Step(b, raw).0.cursor != AtHome
  {
    match Tokenize(raw)
    case Blank =>
    case Item(imageLoc, text) =>
      if text.Some? { AddToCurrentValid(b, imageLoc, text.value); }
    case Header(icon, name) =>
      if name.Some? { AddCategoryOpenValid(b, icon, name.value); }
  }

  /** Reading keeps the invariant and never makes the home page current before the end. */
  lemma {:induction false} ParseValid(b: Board, lines: seq<string>)
    requires Valid(b) && b.cursor != AtHome
    decreases |lines|
    ensures Valid(ParseLines(b, lines).0) && ParseLines(b, lines).0.cursor != AtHome
  {
    if lines != [] {
      StepValid(b, lines[0]);
      ParseValid(Step(b, lines[0]).0, lines[1..]);
    }
  }

  /**
   * readFile keeps the invariant; a complete read leaves the home page current, a failed
   * one does not, and a missing file changes nothing.
   */
  lemma LoadOutcome(b: Board, file: Option<seq<string>>)
    requires Valid(b) && b.cursor != AtHome
    ensures Valid(Load(b, file).0)
    ensures Load(b, file).1.None? <==> Load(b, file).0.cursor == AtHome
    ensures file.None? ==> Load(b, file) == (b, Some(FileNotFound))
  {
    if file.Some? {
      ParseValid(b, file.value);
      ResetShowsHome(ParseLines(b, file.value).0);
    }
  }

  // ---------------------------------------------------------------------------
  // Writing and reading back

  /** writeToFile's output for joined registries is the joined output. */
  lemma {:induction false} SerializeAppend(first: seq<(string, Slot)>, second: seq<(string, Slot)>)
    ensures Serialize(first + second) == Serialize(first) + Serialize(second)
  {
    if first != [] {
      assert (first + second)[0] == first[0];
      assert (first + second)[1..] == first[1..] + second;
      SerializeAppend(first[1..], second);
    } else {
      assert first + second == second;
    }
  }

  /** writeToFile's output grows entry by entry: what the entries so far give, then the next one's lines. */
  lemma SerializeStep(registry: seq<(string, Slot)>, i: int)
    requires 0 <= i < |registry|
    ensures Serialize(registry[..i + 1]) == Serialize(registry[..i]) +
              match registry[i].1
              case Home => []
              case Named(name, items) => [HeaderLine(registry[i].0, name)] + ItemLines(items)
  {
    assert registry[..i + 1] == registry[..i] + [registry[i]];
    SerializeAppend(registry[..i], [registry[i]]);
    assert [registry[i]][1..] == [];
  }

  /** The item lines grow item by item. */
  lemma ItemLinesStep(items: seq<(string, string)>, j: int)
    requires 0 <= j < |items|
    ensures ItemLines(items[..j + 1]) == ItemLines(items[..j]) + [ItemLine(items[j].0, items[j].1)]
  {
    var l, r := ItemLines(items[..j + 1]), ItemLines(items[..j]) + [ItemLine(items[j].0, items[j].1)];
    assert |l| == |r|;
    forall k | 0 <= k < |l|
      ensures l[k] == r[k]
    {
      if k < j {
        assert r[k] == ItemLines(items[..j])[k];
      }
    }
  }

  /** The exported entries produce exactly the same lines as the whole registry. */
  lemma {:induction false} SerializeExported(registry: seq<(string, Slot)>)
    ensures Serialize(Exported(registry)) == Serialize(registry)
  {
    if registry != [] {
      SerializeExported(registry[1..]);
      if registry[0].1.Named? {
        assert ([registry[0]] + Exported(registry[1..]))[0] == registry[0];
        assert ([registry[0]] + Exported(registry[1..]))[1..] == Exported(registry[1..]);
      }
    }
  }

  /** Reading back the item lines of a category being read rebuilds its items in order. */
  lemma {:induction false} ParseItems(registry: seq<(string, Slot)>, home: seq<(string, string)>,
                                      icon: string, name: string, items: seq<(string, string)>, n: int)
    requires !OrderedMap.HasKey(registry, icon)
    requires OrderedMap.DistinctKeys(items) && WritableItems(items) && 0 <= n <= |items|
    ensures ParseLines(Board(registry + [(icon, Named(name, items[..n]))], home, Open(icon)), ItemLines(items[n..])) ==
              (Board(registry + [(icon, Named(name, items))], home, Open(icon)), None)
    decreases |items| - n
  {
    if n == |items| {
      assert items[..n] == items && items[n..] == [];
    } else {
      ParseItemStep(registry, home, icon, name, items, n);
      ParseItems(registry, home, icon, name, items, n + 1);
    }
  }

  /** The next item line goes into the category being read. */
  lemma ParseItemStep(registry: seq<(string, Slot)>, home: seq<(string, string)>,
                      icon: string, name: string, items: seq<(string, string)>, n: int)
    requires !OrderedMap.HasKey(registry, icon)
    requires OrderedMap.DistinctKeys(items) && WritableItems(items) && 0 <= n < |items|
    ensures ParseLines(Board(registry + [(icon, Named(name, items[..n]))], home, Open(icon)), ItemLines(items[n..])) ==
              ParseLines(Board(registry + [(icon, Named(name, items[..n + 1]))], home, Open(icon)), ItemLines(items[n + 1..]))
  {
    OrderedMap.DistinctPrefix(items, n);
    ItemLinesCons(items[n..]);
    assert items[n..][0] == items[n] && items[n..][1..] == items[n + 1..];
    assert items[..n] + [items[n]] == items[..n + 1];
    ParseItemInto(registry, home, icon, name, items[..n], items[n].0, items[n].1, ItemLines(items[n + 1..]));
  }

  /** The item lines of a non-empty item list: the first pair's line, then the others'. */
  lemma ItemLinesCons(items: seq<(string, string)>)
    requires items != []
    ensures ItemLines(items) == [ItemLine(items[0].0, items[0].1)] + ItemLines(items[1..])
  {
    var l, r := ItemLines(items), [ItemLine(items[0].0, items[0].1)] + ItemLines(items[1..]);
    assert |l| == |r|;
    forall i | 0 <= i < |l|
      ensures l[i] == r[i]
    {
      if i > 0 {
        assert r[i] == ItemLines(items[1..])[i - 1];
      }
    }
  }

  /** An item line read into the category last in the registry, followed by the rest of the file. */
  lemma ParseItemInto(registry: seq<(string, Slot)>, home: seq<(string, string)>,
                      icon: string, name: string, done: seq<(string, string)>, k: string, t: string,
                      rest: seq<string>)
    requires !OrderedMap.HasKey(registry, icon) && !OrderedMap.HasKey(done, k)
    requires NoSpace(k) && GoodText(t)
    ensures ParseLines(Board(registry + [(icon, Named(name, done))], home, Open(icon)), [ItemLine(k, t)] + rest) ==
              ParseLines(Board(registry + [(icon, Named(name, done + [(k, t)]))], home, Open(icon)), rest)
  {
    StepItemInto(registry, home, icon, name, done, k, t);
    assert ([ItemLine(k, t)] + rest)[1..] == rest;
  }

  /** One written item line appends its pair to the category being read, the last in the registry. */
  lemma StepItemInto(registry: seq<(string, Slot)>, home: seq<(string, string)>,
                     icon: string, name: string, done: seq<(string, string)>, k: string, t: string)
    requires !OrderedMap.HasKey(registry, icon) && !OrderedMap.HasKey(done, k)
    requires NoSpace(k) && GoodText(t)
    ensures Step(Board(registry + [(icon, Named(name, done))], home, Open(icon)), ItemLine(k, t)) ==
              (Board(registry + [(icon, Named(name, done + [(k, t)]))], home, Open(icon)), None)
  {
    var b := Board(registry + [(icon, Named(name, done))], home, Open(icon));
    StepItem(b, k, t);
    OrderedMap.SetFresh(registry, icon, Named(name, done));
    OrderedMap.GetSetSame(registry, icon, Named(name, done));
    assert OpenCategory(b, icon) == Some((name, done));
    OrderedMap.SetFresh(done, k, t);
    OrderedMap.SetLast(registry, icon, Named(name, done), Named(name, done + [(k, t)]));
  }

  /** A written category, its line and its item lines, reads back as a new category listed on the home page. */
  lemma ParseCategory(b: Board, icon: string, name: string, items: seq<(string, string)>)
    requires GoodIcon(icon) && GoodText(name) && WritableItems(items) && OrderedMap.DistinctKeys(items)
    requires !OrderedMap.HasKey(b.registry, icon) && !OrderedMap.HasKey(b.home, icon)
    ensures ParseLines(b, [HeaderLine(icon, name)] + ItemLines(items)) ==
              (Board(b.registry + [(icon, Named(name, items))], b.home + [(icon, name)], Open(icon)), None)
  {
    var lines := [HeaderLine(icon, name)] + ItemLines(items);
    StepHeader(b, icon, name);
    OrderedMap.SetFresh(b.registry, icon, Named(name, []));
    OrderedMap.SetFresh(b.home, icon, name);
    assert lines[0] == HeaderLine(icon, name) && lines[1..] == ItemLines(items);
    assert items[..0] == [] && items[0..] == items;
    ParseItems(b.registry, b.home + [(icon, name)], icon, name, items, 0);
  }

  lemma AppendOne<T>(a: seq<T>, x: T, c: seq<T>)
    ensures (a + [x]) + c == a + ([x] + c)
  {
  }

  /**
   * Reading the lines written for registry entries whose icons the board does not know yet
   * adds the exported entries to its registry and their icons to its home page, without error.
   */
  lemma {:induction false} ParseSerialized(b: Board, registry: seq<(string, Slot)>)
    requires Writable(registry) && OrderedMap.DistinctKeys(registry)
    requires forall i :: 0 <= i < |registry| && registry[i].1.Named? ==>
               OrderedMap.DistinctKeys(registry[i].1.items)
    requires forall i :: 0 <= i < |registry| && registry[i].1.Named? ==>
               !OrderedMap.HasKey(b.registry, registry[i].0) && !OrderedMap.HasKey(b.home, registry[i].0)
    ensures ParseLines(b, Serialize(registry)).1 == None
    ensures ParseLines(b, Serialize(registry)).0.registry == b.registry + Exported(registry)
    ensures ParseLines(b, Serialize(registry)).0.home == b.home + Icons(registry)
    decreases |registry|
  {
    if registry == [] {
      assert b.registry + [] == b.registry && b.home + [] == b.home;
    } else {
      var rest := registry[1..];
      assert forall i :: 0 <= i < |rest| ==> rest[i] == registry[i + 1];
      assert Writable(rest);
      assert OrderedMap.DistinctKeys(rest);
      assert forall i :: 0 <= i < |rest| && rest[i].1.Named? ==> OrderedMap.DistinctKeys(rest[i].1.items);
      match registry[0].1
      case Home =>
        ParseSerialized(b, rest);
      case Named(name, items) =>
        var icon := registry[0].0;
        var first := [HeaderLine(icon, name)] + ItemLines(items);
        ParseCategory(b, icon, name, items);
        var next := Board(b.registry + [(icon, Named(name, items))], b.home + [(icon, name)], Open(icon));
        forall i | 0 <= i < |rest| && rest[i].1.Named?
          ensures !OrderedMap.HasKey(next.registry, rest[i].0) && !OrderedMap.HasKey(next.home, rest[i].0)
        {
          assert registry[0].0 != registry[i + 1].0;
          OrderedMap.HasKeyAppend(b.registry, icon, Named(name, items), rest[i].0);
          OrderedMap.HasKeyAppend(b.home, icon, name, rest[i].0);
        }
        ParseSerialized(next, rest);
        ParseAppend(b, first, Serialize(rest));
        assert Serialize(registry) == first + Serialize(rest);
        assert Exported(registry) == [(icon, Named(name, items))] + Exported(rest);
        assert Icons(registry) == [(icon, name)] + Icons(rest);
        AppendOne(b.registry, (icon, Named(name, items)), Exported(rest));
        AppendOne(b.home, (icon, name), Icons(rest));
    }
  }

  /**
   * writeToFile then a fresh constructor's readFile: the new board has the home page and
   * every exported category, in order and with their items, lists their icons on its home
   * page, shows the home page, and writes the same file again.
   */
  lemma RoundTrip(b: Board)
    requires Valid(b) && Writable(b.registry)
    ensures Load(Initial(), Some(Serialize(b.registry))) ==
              (Board([("", Home)] + Exported(b.registry), Icons(b.registry), AtHome), None)
    ensures Serialize(FromFile(Some(Serialize(b.registry))).registry) == Serialize(b.registry)
  {
    var start := Initial();
    forall i | 0 <= i < |b.registry| && b.registry[i].1.Named?
      ensures !OrderedMap.HasKey(start.registry, b.registry[i].0) && !OrderedMap.HasKey(start.home, b.registry[i].0)
    {
      assert b.registry[i].0 != "";
    }
    ParseSerialized(start, b.registry);
    assert [] + Icons(b.registry) == Icons(b.registry);
    SerializeAppend([("", Home)], Exported(b.registry));
    SerializeExported(b.registry);
  }
}
